/** Reading what was written gives the sensors configuration back, in both container forms. */
module CborRoundTrip {
  import opened Bytes
  import opened CborItems
  import opened CborSensors

  lemma MetadataParsed(canonical: bool, m: Metadata, tail: seq<byte>, left: Left)
    requires HasMore(left)
    ensures ParseMetadata(State(EncodeMetadata(canonical, m) + tail, left)) == Ok(m, State(tail, Taken(left)))
  {
    hide EncodeText, ParseText, Container, Closing, Start, End;
    var t := Closing(canonical) + tail;
    var inside := Inside(canonical, 3);
    ContainerStarts(canonical, LIST, 3, MetadataItems(m), tail, left);
    Assoc(EncodeText(m.name), EncodeText(m.unit) + EncodeText(m.description), t);
    TextParsed(m.name, (EncodeText(m.unit) + EncodeText(m.description)) + t, inside);
    Assoc(EncodeText(m.unit), EncodeText(m.description), t);
    TextParsed(m.unit, EncodeText(m.description) + t, Taken(inside));
    TextParsed(m.description, t, Taken(Taken(inside)));
    ContainerEnds(canonical, tail, Taken(left));
  }

  lemma PointParsed(p: Point, tail: seq<byte>, left: Left)
    requires HasMore(left) && HasMore(Taken(left))
    ensures ParsePoint(State(EncodePoint(p) + tail, left)) == Ok(p, State(tail, Taken(Taken(left))))
  {
    hide EncodeFloat, ParseFloat;
    Assoc(EncodeFloat(p.key), EncodeFloat(p.value), tail);
    FloatParsed(p.key, EncodeFloat(p.value) + tail, left);
    FloatParsed(p.value, tail, Taken(left));
  }

  lemma PointStarts(p: Point, tail: seq<byte>)
    ensures EncodePoint(p) + tail != [] && (EncodePoint(p) + tail)[0] == 0xFA
  {
  }

  lemma {:induction false} PointsParsed(canonical: bool, points: seq<Point>, sofar: seq<Point>, tail: seq<byte>)
    ensures ParsePoints(State(PointItems(points) + (Closing(canonical) + tail), Inside(canonical, 2 * |points|)), sofar) ==
      Ok(sofar + points, State(Closing(canonical) + tail, Inside(canonical, 0)))
    decreases |points|
  {
    hide EncodePoint, ParsePoint;
    var t := Closing(canonical) + tail;
    if points == [] {
      assert PointItems(points) + t == t;
      assert sofar + points == sofar;
    } else {
      var more := PointItems(points[1..]) + t;
      Assoc(EncodePoint(points[0]), PointItems(points[1..]), t);
      PointStarts(points[0], more);
      PointParsed(points[0], more, Inside(canonical, 2 * |points|));
      PointsParsed(canonical, points[1..], sofar + [points[0]], tail);
      assert sofar + [points[0]] + points[1..] == sofar + points;
    }
  }

  lemma TableParsed(canonical: bool, table: Table, tail: seq<byte>, left: Left)
    requires HasMore(left)
    ensures ParseTableIfAny(State(EncodeTable(canonical, table) + tail, left)) == Ok(Some(table), State(tail, Taken(left)))
  {
    hide Container, Closing, Start, End, ParsePoints, PointItems;
    ContainerStarts(canonical, MAP, |table|, PointItems(table), tail, left);
    PointsParsed(canonical, table, [], tail);
    assert [] + table == table;
    ContainerEnds(canonical, tail, Taken(left));
  }

  /** What follows an absent channel is a text. */
  lemma ChannelParsed(channel: Option<u32>, t: Text, tail: seq<byte>, left: Left)
    requires HasMore(left)
    ensures var s := State(EncodeChannel(channel) + (EncodeText(t) + tail), left);
      Optional(s, ParseUint(s)) == Ok(channel, State(EncodeText(t) + tail, if channel.Some? then Taken(left) else left))
  {
    hide EncodeText, EncodeUint, ParseUint, Start;
    if channel.Some? {
      UintParsed(channel.value, EncodeText(t) + tail, left);
    } else {
      assert EncodeChannel(channel) + (EncodeText(t) + tail) == EncodeText(t) + tail;
      TextIsNothingElse(t, tail, left);
    }
  }

  /** What follows an absent expression is a number. */
  lemma ExpressionParsed(expression: Option<Text>, v: u32, tail: seq<byte>, left: Left)
    requires HasMore(left)
    ensures var s := State(EncodeTextIfAny(expression) + (EncodeUint(v) + tail), left);
      Optional(s, ParseText(s)) == Ok(expression, State(EncodeUint(v) + tail, if expression.Some? then Taken(left) else left))
  {
    hide EncodeText, EncodeUint, ParseText, Start;
    if expression.Some? {
      TextParsed(expression.value, EncodeUint(v) + tail, left);
    } else {
      assert EncodeTextIfAny(expression) + (EncodeUint(v) + tail) == EncodeUint(v) + tail;
      UintIsNothingElse(v, tail, left);
    }
  }

  /** What follows an absent table is a text or a number. */
  lemma TableIfAnyParsed(canonical: bool, table: Option<Table>, expression: Option<Text>, v: u32, tail: seq<byte>, left: Left)
    requires HasMore(left)
    ensures var next := EncodeTextIfAny(expression) + (EncodeUint(v) + tail);
      ParseTableIfAny(State(EncodeTableIfAny(canonical, table) + next, left)) ==
        Ok(table, State(next, if table.Some? then Taken(left) else left))
  {
    hide EncodeTable, EncodeText, EncodeUint, Start, ParseTable;
    var next := EncodeTextIfAny(expression) + (EncodeUint(v) + tail);
    if table.Some? {
      TableIsParsed(canonical, table.value, next, left);
    } else {
      assert EncodeTableIfAny(canonical, table) + next == next;
      if expression.Some? {
        TextIsNothingElse(expression.value, EncodeUint(v) + tail, left);
      } else {
        assert next == EncodeUint(v) + tail;
        UintIsNothingElse(v, tail, left);
      }
    }
  }

  lemma TableIsParsed(canonical: bool, table: Table, tail: seq<byte>, left: Left)
    requires HasMore(left)
    ensures var s := State(EncodeTable(canonical, table) + tail, left);
      Start(s, MAP).Some? && ParseTable(s) == Ok(table, State(tail, Taken(left)))
  {
    hide EncodeTable, ParseTable, Start;
    TableParsed(canonical, table, tail, left);
  }

  /** The fields of a configuration in order, each followed by the next. */
  lemma ItemsInOrder(canonical: bool, c: Configuration, t: seq<byte>)
    ensures ConfigurationItems(canonical, c) + t ==
      EncodeUint(c.kind) + (EncodeInt(c.samplingRateMs) + (EncodeUint(c.interpolationMethod)
        + (EncodeChannel(c.channel) + (EncodeText(c.connectionString) + (EncodeText(c.scriptPath)
        + (EncodeTableIfAny(canonical, c.calibrationTable) + (EncodeTextIfAny(c.expression)
        + (EncodeUint(c.debounceMs) + (EncodeUint(c.inputMode) + t)))))))))
  {
    hide EncodeUint, EncodeInt, EncodeText, EncodeChannel, EncodeTableIfAny, EncodeTextIfAny;
    var i9 := EncodeUint(c.debounceMs) + EncodeUint(c.inputMode);
    var i8 := ItemsAfterTable(c);
    var i7 := EncodeTableIfAny(canonical, c.calibrationTable) + i8;
    var i6 := EncodeText(c.scriptPath) + i7;
    var i5 := ItemsAfterChannel(canonical, c);
    var i4 := EncodeChannel(c.channel) + i5;
    var i3 := EncodeUint(c.interpolationMethod) + i4;
    var i2 := EncodeInt(c.samplingRateMs) + i3;
    Assoc(EncodeUint(c.debounceMs), EncodeUint(c.inputMode), t);
    Assoc(EncodeTextIfAny(c.expression), i9, t);
    Assoc(EncodeTableIfAny(canonical, c.calibrationTable), i8, t);
    Assoc(EncodeText(c.scriptPath), i7, t);
    Assoc(EncodeText(c.connectionString), i6, t);
    Assoc(EncodeChannel(c.channel), i5, t);
    Assoc(EncodeUint(c.interpolationMethod), i4, t);
    Assoc(EncodeInt(c.samplingRateMs), i3, t);
    Assoc(EncodeUint(c.kind), i2, t);
  }

  lemma ConfigurationItemsParsed(canonical: bool, c: Configuration, t: seq<byte>)
    ensures ParseConfigurationItems(State(ConfigurationItems(canonical, c) + t, Inside(canonical, ConfigurationCount(c)))) ==
      Ok(c, State(t, Inside(canonical, 0)))
  {
    hide EncodeUint, EncodeInt, EncodeText, EncodeChannel, EncodeTableIfAny, EncodeTextIfAny, ConfigurationItems,
         ParseUint, ParseInt, ParseText, ParseTableIfAny, Optional;
    ItemsInOrder(canonical, c, t);
    var l := Inside(canonical, ConfigurationCount(c));
    var r10 := EncodeUint(c.inputMode) + t;
    var r9 := EncodeUint(c.debounceMs) + r10;
    var r8 := EncodeTextIfAny(c.expression) + r9;
    var r7 := EncodeTableIfAny(canonical, c.calibrationTable) + r8;
    var r6 := EncodeText(c.scriptPath) + r7;
    var r5 := EncodeText(c.connectionString) + r6;
    var r4 := EncodeChannel(c.channel) + r5;
    var r3 := EncodeUint(c.interpolationMethod) + r4;
    var r2 := EncodeInt(c.samplingRateMs) + r3;
    UintParsed(c.kind, r2, l);
    IntParsed(c.samplingRateMs, r3, Taken(l));
    UintParsed(c.interpolationMethod, r4, Taken(Taken(l)));
    var l4 := Taken(Taken(Taken(l)));
    ChannelParsed(c.channel, c.connectionString, r6, l4);
    var l5 := if c.channel.Some? then Taken(l4) else l4;
    TextParsed(c.connectionString, r6, l5);
    TextParsed(c.scriptPath, r7, Taken(l5));
    var l7 := Taken(Taken(l5));
    TableIfAnyParsed(canonical, c.calibrationTable, c.expression, c.debounceMs, r10, l7);
    var l8 := if c.calibrationTable.Some? then Taken(l7) else l7;
    ExpressionParsed(c.expression, c.debounceMs, r10, l8);
    var l9 := if c.expression.Some? then Taken(l8) else l8;
    UintParsed(c.debounceMs, r10, l9);
    UintParsed(c.inputMode, t, Taken(l9));
  }

  lemma ConfigurationParsed(canonical: bool, c: Configuration, tail: seq<byte>, left: Left)
    requires HasMore(left)
    ensures ParseConfiguration(State(EncodeConfiguration(canonical, c) + tail, left)) == Ok(c, State(tail, Taken(left)))
  {
    hide Container, Closing, Start, End, ConfigurationItems, ParseConfigurationItems, ConfigurationCount;
    ContainerStarts(canonical, LIST, ConfigurationCount(c), ConfigurationItems(canonical, c), tail, left);
    ConfigurationItemsParsed(canonical, c, Closing(canonical) + tail);
    ContainerEnds(canonical, tail, Taken(left));
  }

  lemma SensorParsed(canonical: bool, s: Sensor, tail: seq<byte>, left: Left)
    requires HasMore(left)
    ensures ParseSensor(State(EncodeSensor(canonical, s) + tail, left)) == Ok(s, State(tail, Taken(left)))
  {
    hide EncodeText, EncodeBool, EncodeMetadata, EncodeConfiguration, Container, Closing, Start, End,
         ParseText, ParseBool, ParseMetadata, ParseConfiguration;
    var t := Closing(canonical) + tail;
    var l := Inside(canonical, 4);
    var i3 := EncodeMetadata(canonical, s.metadata) + EncodeConfiguration(canonical, s.configuration);
    var i2 := EncodeBool(s.isEnabled) + i3;
    ContainerStarts(canonical, LIST, 4, SensorItems(canonical, s), tail, left);
    Assoc(EncodeText(s.id), i2, t);
    TextParsed(s.id, i2 + t, l);
    Assoc(EncodeBool(s.isEnabled), i3, t);
    BoolParsed(s.isEnabled, i3 + t, Taken(l));
    Assoc(EncodeMetadata(canonical, s.metadata), EncodeConfiguration(canonical, s.configuration), t);
    MetadataParsed(canonical, s.metadata, EncodeConfiguration(canonical, s.configuration) + t, Taken(Taken(l)));
    ConfigurationParsed(canonical, s.configuration, t, Taken(Taken(Taken(l))));
    ContainerEnds(canonical, tail, Taken(left));
  }

  /** A sensor does not start with the break byte. */
  lemma SensorStarts(canonical: bool, s: Sensor, tail: seq<byte>)
    ensures EncodeSensor(canonical, s) + tail != [] && (EncodeSensor(canonical, s) + tail)[0] != BREAK
  {
    hide SensorItems;
  }

  lemma {:induction false} SensorsParsed(canonical: bool, sensors: seq<Sensor>, sofar: seq<Sensor>, tail: seq<byte>)
    ensures ParseSensors(State(AllItems(canonical, sensors) + (Closing(canonical) + tail), Inside(canonical, |sensors|)), sofar) ==
      Ok(sofar + sensors, State(Closing(canonical) + tail, Inside(canonical, 0)))
    decreases |sensors|
  {
    hide EncodeSensor, ParseSensor;
    var t := Closing(canonical) + tail;
    if sensors == [] {
      assert AllItems(canonical, sensors) + t == t;
      assert sofar + sensors == sofar;
    } else {
      var more := AllItems(canonical, sensors[1..]) + t;
      Assoc(EncodeSensor(canonical, sensors[0]), AllItems(canonical, sensors[1..]), t);
      SensorStarts(canonical, sensors[0], more);
      SensorParsed(canonical, sensors[0], more, Inside(canonical, |sensors|));
      SensorsParsed(canonical, sensors[1..], sofar + [sensors[0]], tail);
      assert sofar + [sensors[0]] + sensors[1..] == sofar + sensors;
    }
  }

  /** What was written reads as itself, whatever follows it, in both container forms. */
  lemma RoundTrip(canonical: bool, sensors: Sensors, tail: seq<byte>)
    ensures Parse(Encode(canonical, sensors) + tail) == Ok(sensors, State(tail, Definite(0)))
  {
    hide Container, Closing, Start, End, ParseSensors, AllItems;
    var t := Closing(canonical) + tail;
    var inner := Container(canonical, LIST, |sensors|, AllItems(canonical, sensors));
    ContainerStarts(canonical, LIST, 1, inner, tail, Definite(1));
    ContainerStarts(canonical, LIST, |sensors|, AllItems(canonical, sensors), t, Inside(canonical, 1));
    SensorsParsed(canonical, sensors, [], t);
    assert [] + sensors == sensors;
    ContainerEnds(canonical, t, Inside(canonical, 0));
    ContainerEnds(canonical, tail, Definite(0));
  }

  /** No two configurations are written alike, and none is the start of another's bytes. */
  lemma EncodingIsPrefixFree(canonical: bool, a: Sensors, b: Sensors, tail: seq<byte>)
    requires Encode(canonical, a) + tail == Encode(canonical, b)
    ensures a == b && tail == []
  {
    hide Encode, Parse;
    RoundTrip(canonical, a, tail);
    RoundTrip(canonical, b, []);
    assert Encode(canonical, b) + [] == Encode(canonical, b);
  }
}
