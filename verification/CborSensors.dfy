/**
 The sensors configuration as nested CBOR lists whose optional fields carry no tag: the reader tells
 them apart by the major type of what comes next.
 */
module CborSensors {
  import opened Bytes
  import opened CborItems

  datatype Metadata = Metadata(name: Text, unit: Text, description: Text)

  /** A point of a calibration table, by the bit patterns of its two floats. */
  datatype Point = Point(key: u32, value: u32)

  type Table = t: seq<Point> | |t| < 0x1_0000_0000

  datatype Configuration = Configuration(
    kind: u32, samplingRateMs: i32, interpolationMethod: u32, channel: Option<u32>, connectionString: Text,
    scriptPath: Text, calibrationTable: Option<Table>, expression: Option<Text>, debounceMs: u32, inputMode: u32)

  datatype Sensor = Sensor(id: Text, isEnabled: bool, metadata: Metadata, configuration: Configuration)

  type Sensors = s: seq<Sensor> | |s| < 0x1_0000_0000

  // ---- Writing ----------------------------------------------------------------------------------

  function MetadataItems(m: Metadata): seq<byte>
  {
    EncodeText(m.name) + (EncodeText(m.unit) + EncodeText(m.description))
  }

  function EncodePoint(p: Point): seq<byte>
  {
    EncodeFloat(p.key) + EncodeFloat(p.value)
  }

  function PointItems(points: seq<Point>): (r: seq<byte>)
    ensures |r| == 10 * |points|
  {
    if points == [] then [] else EncodePoint(points[0]) + PointItems(points[1..])
  }

  function EncodeTable(canonical: bool, table: Table): seq<byte>
  {
    Container(canonical, MAP, |table|, PointItems(table))
  }

  function EncodeChannel(channel: Option<u32>): seq<byte>
  {
    if channel.None? then [] else EncodeUint(channel.value)
  }

  function EncodeTableIfAny(canonical: bool, table: Option<Table>): seq<byte>
  {
    if table.None? then [] else EncodeTable(canonical, table.value)
  }

  function EncodeTextIfAny(t: Option<Text>): seq<byte>
  {
    if t.None? then [] else EncodeText(t.value)
  }

  function ItemsAfterTable(c: Configuration): seq<byte>
  {
    EncodeTextIfAny(c.expression) + (EncodeUint(c.debounceMs) + EncodeUint(c.inputMode))
  }

  function ItemsAfterChannel(canonical: bool, c: Configuration): seq<byte>
  {
    EncodeText(c.connectionString) + (EncodeText(c.scriptPath)
      + (EncodeTableIfAny(canonical, c.calibrationTable) + ItemsAfterTable(c)))
  }

  function ConfigurationItems(canonical: bool, c: Configuration): seq<byte>
  {
    EncodeUint(c.kind) + (EncodeInt(c.samplingRateMs) + (EncodeUint(c.interpolationMethod)
      + (EncodeChannel(c.channel) + ItemsAfterChannel(canonical, c))))
  }

  function Present<T>(o: Option<T>): nat
  {
    if o.None? then 0 else 1
  }

  function ConfigurationCount(c: Configuration): (r: nat)
    ensures 7 <= r <= 10
  {
    7 + Present(c.channel) + Present(c.calibrationTable) + Present(c.expression)
  }

  function EncodeMetadata(canonical: bool, m: Metadata): seq<byte>
  {
    Container(canonical, LIST, 3, MetadataItems(m))
  }

  function EncodeConfiguration(canonical: bool, c: Configuration): seq<byte>
  {
    Container(canonical, LIST, ConfigurationCount(c), ConfigurationItems(canonical, c))
  }

  function SensorItems(canonical: bool, s: Sensor): seq<byte>
  {
    EncodeText(s.id) + (EncodeBool(s.isEnabled)
      + (EncodeMetadata(canonical, s.metadata) + EncodeConfiguration(canonical, s.configuration)))
  }

  function EncodeSensor(canonical: bool, s: Sensor): seq<byte>
  {
    Container(canonical, LIST, 4, SensorItems(canonical, s))
  }

  function AllItems(canonical: bool, sensors: seq<Sensor>): seq<byte>
  {
    if sensors == [] then [] else EncodeSensor(canonical, sensors[0]) + AllItems(canonical, sensors[1..])
  }

  /** A list of one element, the list of the sensors. */
  function Encode(canonical: bool, sensors: Sensors): seq<byte>
  {
    Container(canonical, LIST, 1, Container(canonical, LIST, |sensors|, AllItems(canonical, sensors)))
  }

  // ---- Reading ----------------------------------------------------------------------------------

  function ParseMetadata(s: State): (r: Parsed<Metadata>)
    ensures r.Ok? ==> |r.next.rest| < |s.rest|
  {
    var inside := Start(s, LIST);
    if inside.None? then Fail else
      var name := ParseText(inside.value);
      if name.Fail? then Fail else
        var unit := ParseText(name.next);
        if unit.Fail? then Fail else
          var description := ParseText(unit.next);
          if description.Fail? then Fail else
            var after := End(description.next, Taken(s.left));
            if after.None? then Fail else Ok(Metadata(name.value, unit.value, description.value), after.value)
  }

  function ParsePoint(s: State): (r: Parsed<Point>)
    ensures r.Ok? ==> |r.next.rest| < |s.rest|
  {
    var key := ParseFloat(s);
    if key.Fail? then Fail else
      var value := ParseFloat(key.next);
      if value.Fail? then Fail else Ok(Point(key.value, value.value), value.next)
  }

  /** The points up to the end of the map, after those read so far. */
  function ParsePoints(s: State, sofar: seq<Point>): (r: Parsed<seq<Point>>)
    ensures r.Ok? ==> |r.next.rest| <= |s.rest|
    decreases |s.rest|
  {
    if AtEnd(s) then Ok(sofar, s) else
      var p := ParsePoint(s);
      if p.Fail? then Fail else ParsePoints(p.next, sofar + [p.value])
  }

  /** A map that starts here; the caller looks first whether one does. */
  function ParseTable(s: State): (r: Parsed<Table>)
    ensures r.Ok? ==> |r.next.rest| < |s.rest|
  {
    var inside := Start(s, MAP);
    if inside.None? then Fail else
      var points := ParsePoints(inside.value, []);
      if points.Fail? || |points.value| >= 0x1_0000_0000 then Fail else
        var after := End(points.next, Taken(s.left));
        if after.None? then Fail else Ok(points.value, after.value)
  }

  /** An optional field: absent, with nothing read, when what comes next is not of its type. */
  function Optional<T>(s: State, p: Parsed<T>): Parsed<Option<T>>
  {
    if p.Fail? then Ok(None, s) else Ok(Some(p.value), p.next)
  }

  /** An optional table. A map that starts here but is malformed fails the reading. */
  function ParseTableIfAny(s: State): (r: Parsed<Option<Table>>)
    ensures r.Ok? ==> |r.next.rest| <= |s.rest|
  {
    if Start(s, MAP).None? then Ok(None, s) else
      var t := ParseTable(s);
      if t.Fail? then Fail else Ok(Some(t.value), t.next)
  }

  function ParseConfigurationItems(s: State): (r: Parsed<Configuration>)
    ensures r.Ok? ==> |r.next.rest| <= |s.rest|
  {
    var kind := ParseUint(s);
    if kind.Fail? then Fail else
      var rate := ParseInt(kind.next);
      if rate.Fail? then Fail else
        var method_ := ParseUint(rate.next);
        if method_.Fail? then Fail else
          var channel := Optional(method_.next, ParseUint(method_.next));
          var connection := ParseText(channel.next);
          if connection.Fail? then Fail else
            var script := ParseText(connection.next);
            if script.Fail? then Fail else
              var table := ParseTableIfAny(script.next);
              if table.Fail? then Fail else
                var expression := Optional(table.next, ParseText(table.next));
                var debounce := ParseUint(expression.next);
                if debounce.Fail? then Fail else
                  var mode := ParseUint(debounce.next);
                  if mode.Fail? then Fail else
                    Ok(Configuration(kind.value, rate.value, method_.value, channel.value, connection.value,
                                     script.value, table.value, expression.value, debounce.value, mode.value), mode.next)
  }

  function ParseConfiguration(s: State): (r: Parsed<Configuration>)
    ensures r.Ok? ==> |r.next.rest| < |s.rest|
  {
    var inside := Start(s, LIST);
    if inside.None? then Fail else
      var items := ParseConfigurationItems(inside.value);
      if items.Fail? then Fail else
        var after := End(items.next, Taken(s.left));
        if after.None? then Fail else Ok(items.value, after.value)
  }

  function ParseSensor(s: State): (r: Parsed<Sensor>)
    ensures r.Ok? ==> |r.next.rest| < |s.rest|
  {
    var inside := Start(s, LIST);
    if inside.None? then Fail else
      var id := ParseText(inside.value);
      if id.Fail? then Fail else
        var isEnabled := ParseBool(id.next);
        if isEnabled.Fail? then Fail else
          var metadata := ParseMetadata(isEnabled.next);
          if metadata.Fail? then Fail else
            var configuration := ParseConfiguration(metadata.next);
            if configuration.Fail? then Fail else
              var after := End(configuration.next, Taken(s.left));
              if after.None? then Fail
              else Ok(Sensor(id.value, isEnabled.value, metadata.value, configuration.value), after.value)
  }

  function ParseSensors(s: State, sofar: seq<Sensor>): (r: Parsed<seq<Sensor>>)
    ensures r.Ok? ==> |r.next.rest| <= |s.rest|
    decreases |s.rest|
  {
    if AtEnd(s) then Ok(sofar, s) else
      var p := ParseSensor(s);
      if p.Fail? then Fail else ParseSensors(p.next, sofar + [p.value])
  }

  function ParseList(s: State): Parsed<seq<Sensor>>
  {
    var inside := Start(s, LIST);
    if inside.None? then Fail else
      var sensors := ParseSensors(inside.value, []);
      if sensors.Fail? then Fail else
        var after := End(sensors.next, Taken(s.left));
        if after.None? then Fail else Ok(sensors.value, after.value)
  }

  /** The configuration at the start of `payload` and what follows it. */
  function Parse(payload: seq<byte>): Parsed<seq<Sensor>>
  {
    var s := State(payload, Definite(1));
    var inside := Start(s, LIST);
    if inside.None? then Fail else
      var sensors := ParseList(inside.value);
      if sensors.Fail? then Fail else
        var after := End(sensors.next, Taken(s.left));
        if after.None? then Fail else Ok(sensors.value, after.value)
  }
}
