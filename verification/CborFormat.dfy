/**
 CBOR as RFC 8949 writes it (sections 3 and 4.1), as trees of data items, and the tree that a sensors
 configuration is written as: an account of the format apart from the encoder's functions.
 */
module CborFormat {
  import opened Bytes
  import opened CborItems
  import opened CborSensors

  /** `Negative(n)` is the number -1 - n; the items of a map are its keys and values in turn. */
  datatype Item =
    | Unsigned(n: u32) | Negative(n: u32) | Str(text: Text) | Truth(b: bool) | Float32(bits: u32)
    | Array(items: seq<Item>) | Pairs(items: seq<Item>)

  /** The low 16 and the low 32 bits, the most significant byte first. */
  function Pair(n: nat): seq<byte>
  {
    [n / 0x100 % 0x100, n % 0x100]
  }

  function Quad(n: nat): seq<byte>
  {
    Pair(n / 0x1_0000) + Pair(n)
  }

  /** The first byte of a kind of item with its argument: in it, or in the 1, 2, 4 or 8 bytes after it. */
  function Shortest(kind: byte, n: nat): seq<byte>
    requires kind <= 0xE0
  {
    if n < 24 then [kind + n]
    else if n < 0x100 then [kind + 24, n]
    else if n < 0x1_0000 then [kind + 25] + Pair(n)
    else if n < 0x1_0000_0000 then [kind + 26] + Quad(n)
    else [kind + 27] + Quad(n / 0x1_0000_0000) + Quad(n)
  }

  function Written(canonical: bool, item: Item): seq<byte>
    decreases item
  {
    match item
    case Unsigned(n) => Shortest(0x00, n)
    case Negative(n) => Shortest(0x20, n)
    case Str(text) => Shortest(0x60, |text|) + text
    case Truth(b) => if b then [0xF5] else [0xF4]
    case Float32(bits) => [0xFA] + Quad(bits)
    case Array(items) =>
      if canonical then Shortest(0x80, |items|) + AllWritten(canonical, items)
      else [0x9F] + AllWritten(canonical, items) + [0xFF]
    case Pairs(items) =>
      if canonical then Shortest(0xA0, |items| / 2) + AllWritten(canonical, items)
      else [0xBF] + AllWritten(canonical, items) + [0xFF]
  }

  function AllWritten(canonical: bool, items: seq<Item>): seq<byte>
    decreases items
  {
    if items == [] then [] else Written(canonical, items[0]) + AllWritten(canonical, items[1..])
  }

  // ---- The configuration ------------------------------------------------------------------------

  function IntItem(v: i32): Item
  {
    if v < 0 then Negative(-1 - v) else Unsigned(v)
  }

  function TableItems(points: seq<Point>): (r: seq<Item>)
    ensures |r| == 2 * |points|
  {
    if points == [] then [] else [Float32(points[0].key), Float32(points[0].value)] + TableItems(points[1..])
  }

  function MetadataItem(m: Metadata): Item
  {
    Array([Str(m.name), Str(m.unit), Str(m.description)])
  }

  function ConfigurationItem(c: Configuration): Item
  {
    Array([Unsigned(c.kind), IntItem(c.samplingRateMs), Unsigned(c.interpolationMethod)]
          + (if c.channel.Some? then [Unsigned(c.channel.value)] else [])
          + [Str(c.connectionString), Str(c.scriptPath)]
          + (if c.calibrationTable.Some? then [Pairs(TableItems(c.calibrationTable.value))] else [])
          + (if c.expression.Some? then [Str(c.expression.value)] else [])
          + [Unsigned(c.debounceMs), Unsigned(c.inputMode)])
  }

  function SensorItem(s: Sensor): Item
  {
    Array([Str(s.id), Truth(s.isEnabled), MetadataItem(s.metadata), ConfigurationItem(s.configuration)])
  }

  function ItemsOf(sensors: seq<Sensor>): (r: seq<Item>)
    ensures |r| == |sensors|
  {
    if sensors == [] then [] else [SensorItem(sensors[0])] + ItemsOf(sensors[1..])
  }

  /** A list of one element, the list of the sensors. */
  function ConfigItem(sensors: Sensors): Item
  {
    Array([Array(ItemsOf(sensors))])
  }

  // ---- The encoder writes that tree -------------------------------------------------------------

  lemma OneByteMore(n: nat, width: nat)
    ensures BigEndian(n, width + 1) == BigEndian(n / 0x100, width) + [n % 0x100] && BigEndian(n, 0) == []
  {
  }

  lemma BigEndianIsPair(n: nat)
    ensures BigEndian(n, 1) == [n % 0x100] && BigEndian(n, 2) == Pair(n)
  {
    hide BigEndian;
    OneByteMore(n, 0);
    OneByteMore(n / 0x100, 0);
    OneByteMore(n, 1);
  }

  lemma BigEndianIsQuad(n: nat)
    ensures BigEndian(n, 4) == Quad(n)
  {
    hide BigEndian;
    var high := n / 0x100 / 0x100;
    assert high == n / 0x1_0000;
    BigEndianIsPair(high);
    OneByteMore(n / 0x100, 2);
    OneByteMore(n, 3);
    assert Pair(high) + [n / 0x100 % 0x100] + [n % 0x100] == Pair(high) + Pair(n);
  }

  lemma HeadIsShortest(major: nat, n: nat)
    requires major < 8 && n < 0x1_0000_0000
    ensures Head(major, n) == Shortest(major * 32, n)
  {
    hide BigEndian, Quad;
    BigEndianIsPair(n);
    BigEndianIsQuad(n);
  }

  lemma ValuesAreWritten(canonical: bool)
    ensures forall v: u32 :: EncodeUint(v) == Written(canonical, Unsigned(v))
    ensures forall v: i32 :: EncodeInt(v) == Written(canonical, IntItem(v))
    ensures forall t: Text :: EncodeText(t) == Written(canonical, Str(t))
    ensures forall b: bool :: EncodeBool(b) == Written(canonical, Truth(b))
    ensures forall bits: u32 :: EncodeFloat(bits) == Written(canonical, Float32(bits))
  {
    hide Head, Shortest, BigEndian, Quad;
    forall v: u32 ensures EncodeUint(v) == Written(canonical, Unsigned(v)) { HeadIsShortest(0, v); }
    forall v: i32 ensures EncodeInt(v) == Written(canonical, IntItem(v)) { HeadIsShortest(if v < 0 then 1 else 0, if v < 0 then -1 - v else v); }
    forall t: Text ensures EncodeText(t) == Written(canonical, Str(t)) { HeadIsShortest(3, |t|); }
    forall bits: u32 ensures EncodeFloat(bits) == Written(canonical, Float32(bits)) { BigEndianIsQuad(bits); }
  }

  lemma FirstWritten(canonical: bool, item: Item, rest: seq<Item>)
    ensures AllWritten(canonical, [item] + rest) == Written(canonical, item) + AllWritten(canonical, rest)
  {
    hide Written;
    assert ([item] + rest)[1..] == rest;
  }

  lemma {:induction false} AllWrittenAppend(canonical: bool, a: seq<Item>, b: seq<Item>)
    ensures AllWritten(canonical, a + b) == AllWritten(canonical, a) + AllWritten(canonical, b)
  {
    hide Written, AllWritten;
    NoneWritten(canonical);
    if a == [] {
      assert a + b == b;
    } else {
      var first, rest := a[0], a[1..];
      AllWrittenAppend(canonical, rest, b);
      assert a == [first] + rest && a + b == [first] + (rest + b);
      FirstWritten(canonical, first, rest);
      FirstWritten(canonical, first, rest + b);
      Assoc(Written(canonical, first), AllWritten(canonical, rest), AllWritten(canonical, b));
    }
  }

  lemma OneWritten(canonical: bool, item: Item)
    ensures AllWritten(canonical, [item]) == Written(canonical, item)
  {
    hide Written;
    assert [item][1..] == [];
  }

  lemma ContainerIsWritten(canonical: bool, items: seq<Item>)
    ensures |items| < 0x1_0000_0000 ==> Container(canonical, LIST, |items|, AllWritten(canonical, items)) == Written(canonical, Array(items))
    ensures |items| / 2 < 0x1_0000_0000 ==>
      Container(canonical, MAP, |items| / 2, AllWritten(canonical, items)) == Written(canonical, Pairs(items))
  {
    hide Head, Shortest;
    if |items| < 0x1_0000_0000 { HeadIsShortest(LIST, |items|); }
    if |items| / 2 < 0x1_0000_0000 { HeadIsShortest(MAP, |items| / 2); }
  }

  lemma {:induction false} PointsAreWritten(canonical: bool, points: seq<Point>)
    ensures AllWritten(canonical, TableItems(points)) == PointItems(points)
  {
    hide Written, EncodeFloat;
    if points != [] {
      var p, rest := points[0], TableItems(points[1..]);
      ValuesAreWritten(canonical);
      PointsAreWritten(canonical, points[1..]);
      FirstWritten(canonical, Float32(p.key), [Float32(p.value)] + rest);
      FirstWritten(canonical, Float32(p.value), rest);
      assert TableItems(points) == [Float32(p.key)] + ([Float32(p.value)] + rest);
      Assoc(EncodeFloat(p.key), EncodeFloat(p.value), PointItems(points[1..]));
    }
  }

  lemma TableIsWritten(canonical: bool, table: Table)
    ensures EncodeTable(canonical, table) == Written(canonical, Pairs(TableItems(table)))
  {
    hide Written, AllWritten, Container;
    PointsAreWritten(canonical, table);
    ContainerIsWritten(canonical, TableItems(table));
  }

  lemma MetadataIsWritten(canonical: bool, m: Metadata)
    ensures EncodeMetadata(canonical, m) == Written(canonical, MetadataItem(m))
  {
    hide Written, AllWritten, Container, EncodeText;
    ValuesAreWritten(canonical);
    OneWritten(canonical, Str(m.description));
    FirstWritten(canonical, Str(m.unit), [Str(m.description)]);
    FirstWritten(canonical, Str(m.name), [Str(m.unit), Str(m.description)]);
    var items := [Str(m.name), Str(m.unit), Str(m.description)];
    assert items == [Str(m.name)] + ([Str(m.unit), Str(m.description)]) && [Str(m.unit)] + [Str(m.description)] == [Str(m.unit), Str(m.description)];
    ContainerIsWritten(canonical, items);
  }

  lemma TwoWritten(canonical: bool, a: Item, b: Item)
    ensures AllWritten(canonical, [a, b]) == Written(canonical, a) + Written(canonical, b)
  {
    hide Written, AllWritten;
    OneWritten(canonical, b);
    FirstWritten(canonical, a, [b]);
    assert [a] + [b] == [a, b];
  }

  lemma ThreeWritten(canonical: bool, a: Item, b: Item, c: Item)
    ensures AllWritten(canonical, [a, b, c]) == Written(canonical, a) + (Written(canonical, b) + Written(canonical, c))
  {
    hide Written, AllWritten;
    TwoWritten(canonical, b, c);
    FirstWritten(canonical, a, [b, c]);
    assert [a] + [b, c] == [a, b, c];
  }

  lemma Regrouped(a: seq<byte>, b: seq<byte>, c: seq<byte>, d: seq<byte>, e: seq<byte>, f: seq<byte>)
    ensures a + b + c + d + e + f == a + (b + (c + (d + (e + f))))
  {
    Assoc(a + b + c + d, e, f);
    Assoc(a + b + c, d, e + f);
    Assoc(a + b, c, d + (e + f));
    Assoc(a, b, c + (d + (e + f)));
  }

  lemma ConfigurationIsWritten(canonical: bool, c: Configuration)
    ensures EncodeConfiguration(canonical, c) == Written(canonical, ConfigurationItem(c))
  {
    hide Written, AllWritten, Container, EncodeText, EncodeUint, EncodeInt, EncodeTable, IntItem, ConfigurationItems;
    var first := [Unsigned(c.kind), IntItem(c.samplingRateMs), Unsigned(c.interpolationMethod)];
    var channel := if c.channel.Some? then [Unsigned(c.channel.value)] else [];
    var texts := [Str(c.connectionString), Str(c.scriptPath)];
    var table := if c.calibrationTable.Some? then [Pairs(TableItems(c.calibrationTable.value))] else [];
    var expression := if c.expression.Some? then [Str(c.expression.value)] else [];
    var last := [Unsigned(c.debounceMs), Unsigned(c.inputMode)];
    AllWrittenAppend(canonical, first, channel);
    AllWrittenAppend(canonical, first + channel, texts);
    AllWrittenAppend(canonical, first + channel + texts, table);
    AllWrittenAppend(canonical, first + channel + texts + table, expression);
    AllWrittenAppend(canonical, first + channel + texts + table + expression, last);
    PartsAreWritten(canonical, c);
    Regrouped(AllWritten(canonical, first), AllWritten(canonical, channel), AllWritten(canonical, texts),
              AllWritten(canonical, table), AllWritten(canonical, expression), AllWritten(canonical, last));
    ConfigurationParts(canonical, c);
    ContainerIsWritten(canonical, first + channel + texts + table + expression + last);
  }

  /** The fields of a configuration group by group. */
  lemma ConfigurationParts(canonical: bool, c: Configuration)
    ensures ConfigurationItems(canonical, c) ==
      (EncodeUint(c.kind) + (EncodeInt(c.samplingRateMs) + EncodeUint(c.interpolationMethod)))
      + (EncodeChannel(c.channel) + ((EncodeText(c.connectionString) + EncodeText(c.scriptPath))
      + (EncodeTableIfAny(canonical, c.calibrationTable) + (EncodeTextIfAny(c.expression)
      + (EncodeUint(c.debounceMs) + EncodeUint(c.inputMode))))))
  {
    hide EncodeText, EncodeUint, EncodeInt, EncodeChannel, EncodeTableIfAny, EncodeTextIfAny;
    var afterTexts := EncodeTableIfAny(canonical, c.calibrationTable) + ItemsAfterTable(c);
    var afterFirst := EncodeChannel(c.channel) + ItemsAfterChannel(canonical, c);
    Assoc(EncodeText(c.connectionString), EncodeText(c.scriptPath), afterTexts);
    Assoc(EncodeInt(c.samplingRateMs), EncodeUint(c.interpolationMethod), afterFirst);
    Assoc(EncodeUint(c.kind), EncodeInt(c.samplingRateMs) + EncodeUint(c.interpolationMethod), afterFirst);
  }

  lemma PartsAreWritten(canonical: bool, c: Configuration)
    ensures AllWritten(canonical, [Unsigned(c.kind), IntItem(c.samplingRateMs), Unsigned(c.interpolationMethod)])
         == EncodeUint(c.kind) + (EncodeInt(c.samplingRateMs) + EncodeUint(c.interpolationMethod))
    ensures AllWritten(canonical, if c.channel.Some? then [Unsigned(c.channel.value)] else []) == EncodeChannel(c.channel)
    ensures AllWritten(canonical, [Str(c.connectionString), Str(c.scriptPath)]) == EncodeText(c.connectionString) + EncodeText(c.scriptPath)
    ensures AllWritten(canonical, if c.calibrationTable.Some? then [Pairs(TableItems(c.calibrationTable.value))] else [])
         == EncodeTableIfAny(canonical, c.calibrationTable)
    ensures AllWritten(canonical, if c.expression.Some? then [Str(c.expression.value)] else []) == EncodeTextIfAny(c.expression)
    ensures AllWritten(canonical, [Unsigned(c.debounceMs), Unsigned(c.inputMode)]) == EncodeUint(c.debounceMs) + EncodeUint(c.inputMode)
  {
    hide Written, AllWritten, EncodeText, EncodeUint, EncodeInt, EncodeTable, IntItem;
    ValuesAreWritten(canonical);
    NoneWritten(canonical);
    ThreeWritten(canonical, Unsigned(c.kind), IntItem(c.samplingRateMs), Unsigned(c.interpolationMethod));
    TwoWritten(canonical, Str(c.connectionString), Str(c.scriptPath));
    TwoWritten(canonical, Unsigned(c.debounceMs), Unsigned(c.inputMode));
    if c.channel.Some? { OneWritten(canonical, Unsigned(c.channel.value)); }
    if c.expression.Some? { OneWritten(canonical, Str(c.expression.value)); }
    if c.calibrationTable.Some? {
      OneWritten(canonical, Pairs(TableItems(c.calibrationTable.value)));
      TableIsWritten(canonical, c.calibrationTable.value);
    }
  }

  lemma NoneWritten(canonical: bool)
    ensures AllWritten(canonical, []) == []
  {
  }

  lemma SensorIsWritten(canonical: bool, s: Sensor)
    ensures EncodeSensor(canonical, s) == Written(canonical, SensorItem(s))
  {
    hide Written, AllWritten, Container, EncodeText, EncodeBool, EncodeMetadata, EncodeConfiguration, MetadataItem, ConfigurationItem;
    ValuesAreWritten(canonical);
    MetadataIsWritten(canonical, s.metadata);
    ConfigurationIsWritten(canonical, s.configuration);
    var rest := [Truth(s.isEnabled), MetadataItem(s.metadata), ConfigurationItem(s.configuration)];
    ThreeWritten(canonical, rest[0], rest[1], rest[2]);
    FirstWritten(canonical, Str(s.id), rest);
    assert [Str(s.id)] + rest == [Str(s.id), rest[0], rest[1], rest[2]];
    ContainerIsWritten(canonical, [Str(s.id)] + rest);
  }

  lemma {:induction false} SensorsAreWritten(canonical: bool, sensors: seq<Sensor>)
    ensures AllWritten(canonical, ItemsOf(sensors)) == AllItems(canonical, sensors)
  {
    hide Written, EncodeSensor, SensorItem;
    if sensors != [] {
      SensorsAreWritten(canonical, sensors[1..]);
      SensorIsWritten(canonical, sensors[0]);
      FirstWritten(canonical, SensorItem(sensors[0]), ItemsOf(sensors[1..]));
    }
  }

  /** What the encoder writes is the tree of the configuration, item by item as the standard writes them. */
  lemma EncodingIsWritten(canonical: bool, sensors: Sensors)
    ensures Encode(canonical, sensors) == Written(canonical, ConfigItem(sensors))
  {
    hide Written, AllWritten, Container, AllItems, ItemsOf;
    SensorsAreWritten(canonical, sensors);
    ContainerIsWritten(canonical, ItemsOf(sensors));
    OneWritten(canonical, Array(ItemsOf(sensors)));
    ContainerIsWritten(canonical, [Array(ItemsOf(sensors))]);
  }

  /** The first byte tells the kind of every item. */
  lemma FirstByteTellsKind(canonical: bool, item: Item)
    ensures Written(canonical, item) != []
    ensures var first := Written(canonical, item)[0];
      && (item.Unsigned? <==> first < 0x20) && (item.Negative? <==> 0x20 <= first < 0x40)
      && (item.Str? <==> 0x60 <= first < 0x80) && (item.Array? <==> 0x80 <= first < 0xA0)
      && (item.Pairs? <==> 0xA0 <= first < 0xC0)
      && (item.Truth? <==> first in {0xF4, 0xF5}) && (item.Float32? <==> first == 0xFA)
  {
    hide AllWritten;
  }
}
