/** The size of an encoded sensors configuration, computed without encoding it. */
module CborSize {
  import opened Bytes
  import opened CborItems
  import opened CborSensors

  function SizeOfUint(value: nat): (r: nat)
    requires value < 0x1_0000_0000_0000_0000
    ensures r == |Head(UNSIGNED, value)|
  {
    if value <= 23 then 1 else if value <= 0xFF then 2 else if value <= 0xFFFF then 3 else if value <= 0xFFFF_FFFF then 5 else 9
  }

  function SizeOfInt(value: i32): (r: nat)
    ensures r == |EncodeInt(value)|
  {
    if value >= 0 then SizeOfUint(value) else SizeOfUint(-1 - value)
  }

  function SizeOfLength(length: nat): (r: nat)
    requires length < 0x1_0000_0000_0000_0000
    ensures r == |Head(TEXT, length)|
  {
    if length <= 23 then 1 else if length <= 0xFF then 2 else if length <= 0xFFFF then 3 else if length <= 0xFFFF_FFFF then 5 else 9
  }

  function SizeOfText(t: Text): (r: nat)
    ensures r == |EncodeText(t)|
  {
    SizeOfLength(|t|) + |t|
  }

  const SIZE_OF_BOOL: nat := 1
  const SIZE_OF_FLOAT: nat := 5
  /** The start byte and the break of an indefinite container. */
  const SIZE_OF_MARKERS: nat := 2

  class CborSizeBuilder {
    var size: nat

    constructor ()
      ensures size == 0
    {
      size := 0;
    }

    method AddUint(value: u32)
      modifies this
      ensures size == old(size) + |EncodeUint(value)|
    {
      size := size + SizeOfUint(value);
    }

    method AddInt(value: i32)
      modifies this
      ensures size == old(size) + |EncodeInt(value)|
    {
      size := size + SizeOfInt(value);
    }

    method AddText(t: Text)
      modifies this
      ensures size == old(size) + |EncodeText(t)|
    {
      size := size + SizeOfText(t);
    }

    method AddBool(b: bool)
      modifies this
      ensures size == old(size) + |EncodeBool(b)|
    {
      size := size + SIZE_OF_BOOL;
    }

    method AddFloat(bits: u32)
      modifies this
      ensures size == old(size) + |EncodeFloat(bits)|
    {
      size := size + SIZE_OF_FLOAT;
    }

    method AddIndefiniteArrayStart()
      modifies this
      ensures size == old(size) + SIZE_OF_MARKERS
    {
      size := size + SIZE_OF_MARKERS;
    }

    method AddSize(additional: nat)
      modifies this
      ensures size == old(size) + additional
    {
      size := size + additional;
    }
  }

  lemma ContainerSize(major: nat, count: nat, items: seq<byte>)
    requires major in {LIST, MAP} && count < 0x1_0000_0000
    ensures |Container(false, major, count, items)| == SIZE_OF_MARKERS + |items|
    ensures |Container(true, major, count, items)| == 1 + ArgWidth(count) + |items|
  {
  }

  lemma {:induction false} OneMoreSensor(canonical: bool, sensors: seq<Sensor>, s: Sensor)
    ensures |AllItems(canonical, sensors + [s])| == |AllItems(canonical, sensors)| + |EncodeSensor(canonical, s)|
  {
    hide EncodeSensor;
    if sensors == [] {
      assert sensors + [s] == [s];
      assert [s][1..] == [];
    } else {
      OneMoreSensor(canonical, sensors[1..], s);
      assert (sensors + [s])[1..] == sensors[1..] + [s];
    }
  }

  /** The size of a calibration table. */
  method SizeOfTable(table: Table) returns (r: nat)
    ensures r == |EncodeTable(false, table)|
  {
    hide Head, EncodeFloat;
    var builder := new CborSizeBuilder();
    builder.AddIndefiniteArrayStart();
    for i := 0 to |table|
      invariant builder.size == SIZE_OF_MARKERS + 10 * i
    {
      builder.AddFloat(table[i].key);
      builder.AddFloat(table[i].value);
    }
    ContainerSize(MAP, |table|, PointItems(table));
    r := builder.size;
  }

  /** Adds the optional parts and the rest of a configuration. */
  method AddConfiguration(builder: CborSizeBuilder, c: Configuration)
    modifies builder
    ensures builder.size == old(builder.size) + |EncodeConfiguration(false, c)|
  {
    hide Head, EncodeUint, EncodeInt, EncodeText, EncodeTable, Container;
    ContainerSize(LIST, ConfigurationCount(c), ConfigurationItems(false, c));
    builder.AddIndefiniteArrayStart();
    builder.AddUint(c.kind);
    builder.AddInt(c.samplingRateMs);
    builder.AddUint(c.interpolationMethod);
    if c.channel.Some? { builder.AddUint(c.channel.value); }
    builder.AddText(c.connectionString);
    builder.AddText(c.scriptPath);
    if c.calibrationTable.Some? {
      var size := SizeOfTable(c.calibrationTable.value);
      builder.AddSize(size);
    }
    if c.expression.Some? { builder.AddText(c.expression.value); }
    builder.AddUint(c.debounceMs);
    builder.AddUint(c.inputMode);
  }

  method AddSensor(builder: CborSizeBuilder, s: Sensor)
    modifies builder
    ensures builder.size == old(builder.size) + |EncodeSensor(false, s)|
  {
    hide Head, EncodeText, EncodeConfiguration, Container;
    ContainerSize(LIST, 4, SensorItems(false, s));
    ContainerSize(LIST, 3, MetadataItems(s.metadata));
    builder.AddIndefiniteArrayStart();
    builder.AddText(s.id);
    builder.AddBool(s.isEnabled);
    builder.AddIndefiniteArrayStart();
    builder.AddText(s.metadata.name);
    builder.AddText(s.metadata.unit);
    builder.AddText(s.metadata.description);
    AddConfiguration(builder, s.configuration);
  }

  /** cbor_get_size_CborSensorsConfig(): exactly the length with indefinite containers. */
  method GetSize(sensors: Sensors) returns (r: nat)
    ensures r == |Encode(false, sensors)|
  {
    hide EncodeSensor, Container, Head;
    var builder := new CborSizeBuilder();
    builder.AddIndefiniteArrayStart();
    builder.AddIndefiniteArrayStart();
    for i := 0 to |sensors|
      invariant builder.size == 2 * SIZE_OF_MARKERS + |AllItems(false, sensors[..i])|
    {
      AddSensor(builder, sensors[i]);
      OneMoreSensor(false, sensors[..i], sensors[i]);
      assert sensors[..i + 1] == sensors[..i] + [sensors[i]];
    }
    assert sensors[..|sensors|] == sensors;
    ContainerSize(LIST, |sensors|, AllItems(false, sensors));
    ContainerSize(LIST, 1, Container(false, LIST, |sensors|, AllItems(false, sensors)));
    r := builder.size;
  }

  // ---- Definite lengths -------------------------------------------------------------------------

  /** The bytes that a definite length saves on a container. */
  function Saving(count: nat): int
  {
    1 - ArgWidth(count)
  }

  /** The bytes that definite lengths save on a sensor: one each on three small lists, less on a long table. */
  function SensorSaving(s: Sensor): (r: int)
    ensures 0 <= r && r != 1
    ensures r < 2 <==> s.configuration.calibrationTable.Some? && |s.configuration.calibrationTable.value| > 0xFFFF
  {
    3 + if s.configuration.calibrationTable.None? then 0 else Saving(|s.configuration.calibrationTable.value|)
  }

  function TotalSaving(sensors: seq<Sensor>): (r: nat)
  {
    if sensors == [] then 0 else SensorSaving(sensors[0]) + TotalSaving(sensors[1..])
  }

  lemma SensorShrinks(s: Sensor)
    ensures |EncodeSensor(false, s)| == |EncodeSensor(true, s)| + SensorSaving(s)
  {
    hide Container, Head, EncodeText, EncodeUint, EncodeInt;
    ContainerSize(LIST, 4, SensorItems(false, s));
    ContainerSize(LIST, 4, SensorItems(true, s));
    ContainerSize(LIST, 3, MetadataItems(s.metadata));
    ConfigurationShrinks(s.configuration);
  }

  lemma ConfigurationShrinks(c: Configuration)
    ensures |EncodeConfiguration(false, c)| == |EncodeConfiguration(true, c)| + 1
      + if c.calibrationTable.None? then 0 else Saving(|c.calibrationTable.value|)
  {
    hide Container, Head, EncodeText, EncodeUint, EncodeInt;
    ContainerSize(LIST, ConfigurationCount(c), ConfigurationItems(false, c));
    ContainerSize(LIST, ConfigurationCount(c), ConfigurationItems(true, c));
    if c.calibrationTable.Some? {
      ContainerSize(MAP, |c.calibrationTable.value|, PointItems(c.calibrationTable.value));
    }
  }

  lemma {:induction false} SensorsShrink(sensors: seq<Sensor>)
    ensures |AllItems(false, sensors)| == |AllItems(true, sensors)| + TotalSaving(sensors)
  {
    hide EncodeSensor, SensorSaving;
    if sensors != [] {
      SensorShrinks(sensors[0]);
      SensorsShrink(sensors[1..]);
    }
  }

  /** The two forms differ by exactly the savings. */
  lemma FormsDifferBy(sensors: Sensors)
    ensures |Encode(false, sensors)| == |Encode(true, sensors)| + 1 + Saving(|sensors|) + TotalSaving(sensors)
  {
    hide Container, Head, AllItems;
    SensorsShrink(sensors);
    ContainerSize(LIST, |sensors|, AllItems(false, sensors));
    ContainerSize(LIST, |sensors|, AllItems(true, sensors));
    ContainerSize(LIST, 1, Container(false, LIST, |sensors|, AllItems(false, sensors)));
    ContainerSize(LIST, 1, Container(true, LIST, |sensors|, AllItems(true, sensors)));
  }

  predicate HasShortTable(s: Sensor)
  {
    s.configuration.calibrationTable.None? || |s.configuration.calibrationTable.value| <= 0xFFFF
  }

  lemma {:induction false} SavesTwoIff(sensors: seq<Sensor>)
    ensures TotalSaving(sensors) >= 2 <==> exists s :: s in sensors && HasShortTable(s)
    ensures TotalSaving(sensors) != 1
  {
    if sensors != [] {
      SavesTwoIff(sensors[1..]);
      assert forall s :: s in sensors <==> s == sensors[0] || s in sensors[1..];
      assert HasShortTable(sensors[0]) <==> SensorSaving(sensors[0]) >= 2;
    }
  }

  /**
   The computed size bounds the form with definite lengths exactly when there are at most 65535 sensors, or some
   sensor has no calibration table of more than 65535 points.
   */
  lemma SizeBoundsDefiniteFormIff(sensors: Sensors)
    ensures |Encode(true, sensors)| <= |Encode(false, sensors)| <==>
      |sensors| <= 0xFFFF || exists s :: s in sensors && HasShortTable(s)
  {
    hide Encode;
    FormsDifferBy(sensors);
    SavesTwoIff(sensors);
  }

  lemma LongTableIsLong(s: Sensor)
    requires !HasShortTable(s)
    ensures |EncodeSensor(false, s)| >= 655360
  {
    hide Container, Head, EncodeText, EncodeUint, EncodeInt;
    var table := s.configuration.calibrationTable.value;
    ContainerSize(LIST, 4, SensorItems(false, s));
    ContainerSize(LIST, ConfigurationCount(s.configuration), ConfigurationItems(false, s.configuration));
    ContainerSize(MAP, |table|, PointItems(table));
  }

  lemma {:induction false} LongTablesAreLong(sensors: seq<Sensor>)
    requires forall s :: s in sensors ==> !HasShortTable(s)
    ensures |AllItems(false, sensors)| >= 655360 * |sensors|
  {
    hide EncodeSensor, HasShortTable;
    if sensors != [] {
      LongTableIsLong(sensors[0]);
      LongTablesAreLong(sensors[1..]);
    }
  }

  /** Whatever can be encoded in a 32-bit address space fits the computed size in both forms. */
  lemma SizeBoundsDefiniteFormInMemory(sensors: Sensors)
    requires |Encode(false, sensors)| < 0x1_0000_0000
    ensures |Encode(true, sensors)| <= |Encode(false, sensors)|
  {
    hide Container, Head, AllItems, EncodeSensor, HasShortTable;
    SizeBoundsDefiniteFormIff(sensors);
    ContainerSize(LIST, |sensors|, AllItems(false, sensors));
    ContainerSize(LIST, 1, Container(false, LIST, |sensors|, AllItems(false, sensors)));
    if forall s :: s in sensors ==> !HasShortTable(s) {
      LongTablesAreLong(sensors);
    }
  }
}
