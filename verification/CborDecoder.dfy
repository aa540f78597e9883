/** Reading the sensors configuration step by step, as the generated decoder does. */
module CborDecoder {
  import opened Bytes
  import opened CborItems
  import opened CborSensors
  import CborRoundTrip

  /** The outcome of a step agrees with the reference reading of the state before it. */
  predicate Agrees<T(==)>(p: Parsed<T>, r: Option<T>, after: State)
  {
    if r.None? then p.Fail? else p == Ok(r.value, after)
  }

  class Decoder {
    var state: State

    constructor (payload: seq<byte>)
      ensures state == State(payload, Definite(1))
    {
      state := State(payload, Definite(1));
    }

    /** Takes an item that was read; an item that was not leaves the state alone. */
    method Take<T>(p: Parsed<T>) returns (r: Option<T>)
      modifies this
      ensures if p.Fail? then r == None && state == old(state) else r == Some(p.value) && state == p.next
    {
      if p.Fail? { return None; }
      state := p.next;
      r := Some(p.value);
    }

    method Enter(major: nat) returns (ok: bool, outer: Left)
      requires major in {LIST, MAP}
      modifies this
      ensures ok <==> Start(old(state), major).Some?
      ensures if ok then HasMore(old(state).left) && outer == Taken(old(state).left) && state == Start(old(state), major).value
        else state == old(state)
    {
      var inside := Start(state, major);
      if inside.None? { return false, Indefinite; }
      outer := Taken(state.left);
      state := inside.value;
      ok := true;
    }

    method Leave(outer: Left) returns (ok: bool)
      modifies this
      ensures ok <==> End(old(state), outer).Some?
      ensures ok ==> state == End(old(state), outer).value
    {
      var after := End(state, outer);
      if after.None? { return false; }
      state := after.value;
      ok := true;
    }

    method DecodeMetadata() returns (r: Option<Metadata>)
      modifies this
      ensures Agrees(ParseMetadata(old(state)), r, state)
    {
      hide Start, End, ParseText;
      var ok, outer := Enter(LIST);
      if !ok { return None; }
      var name := Take(ParseText(state));
      if name.None? { return None; }
      var unit := Take(ParseText(state));
      if unit.None? { return None; }
      var description := Take(ParseText(state));
      if description.None? { return None; }
      ok := Leave(outer);
      r := if ok then Some(Metadata(name.value, unit.value, description.value)) else None;
    }

    /** The pairs of a map up to its end. */
    method DecodePoints() returns (r: Option<seq<Point>>)
      modifies this
      ensures Agrees(ParsePoints(old(state), []), r, state)
    {
      hide AtEnd, ParsePoint;
      var points: seq<Point> := [];
      while !AtEnd(state)
        invariant ParsePoints(state, points) == ParsePoints(old(state), [])
        decreases |state.rest|
      {
        var point := Take(ParsePoint(state));
        if point.None? { return None; }
        points := points + [point.value];
      }
      r := Some(points);
    }

    /** A calibration table if a map starts here. */
    method DecodeTable() returns (r: Option<Option<Table>>)
      modifies this
      ensures Agrees(ParseTableIfAny(old(state)), r, state)
    {
      hide Start, End, ParsePoints;
      var ok, outer := Enter(MAP);
      if !ok { return Some(None); }
      var points := DecodePoints();
      if points.None? || |points.value| >= 0x1_0000_0000 { return None; }
      ok := Leave(outer);
      r := if ok then Some(Some(points.value)) else None;
    }

    method DecodeConfiguration() returns (r: Option<Configuration>)
      modifies this
      ensures Agrees(ParseConfiguration(old(state)), r, state)
    {
      hide Start, End, ParseConfigurationItems;
      var ok, outer := Enter(LIST);
      if !ok { return None; }
      var items := DecodeItems();
      if items.None? { return None; }
      ok := Leave(outer);
      r := if ok then items else None;
    }

    /** The fields of a configuration; an optional one that is not there is skipped. */
    method DecodeItems() returns (r: Option<Configuration>)
      modifies this
      ensures Agrees(ParseConfigurationItems(old(state)), r, state)
    {
      hide ParseUint, ParseInt, ParseText, ParseTableIfAny;
      var kind := Take(ParseUint(state));
      if kind.None? { return None; }
      var rate := Take(ParseInt(state));
      if rate.None? { return None; }
      var interpolation := Take(ParseUint(state));
      if interpolation.None? { return None; }
      var channel := Take(ParseUint(state));
      var connection := Take(ParseText(state));
      if connection.None? { return None; }
      var script := Take(ParseText(state));
      if script.None? { return None; }
      var table := DecodeTable();
      if table.None? { return None; }
      var expression := Take(ParseText(state));
      var debounce := Take(ParseUint(state));
      if debounce.None? { return None; }
      var mode := Take(ParseUint(state));
      if mode.None? { return None; }
      r := Some(Configuration(kind.value, rate.value, interpolation.value, channel, connection.value, script.value,
                              table.value, expression, debounce.value, mode.value));
    }

    method DecodeSensor() returns (r: Option<Sensor>)
      modifies this
      ensures Agrees(ParseSensor(old(state)), r, state)
      ensures r.Some? ==> |state.rest| < |old(state).rest|
    {
      hide Start, End, ParseText, ParseBool, ParseMetadata, ParseConfiguration;
      var ok, outer := Enter(LIST);
      if !ok { return None; }
      var id := Take(ParseText(state));
      if id.None? { return None; }
      var isEnabled := Take(ParseBool(state));
      if isEnabled.None? { return None; }
      var metadata := DecodeMetadata();
      if metadata.None? { return None; }
      var configuration := DecodeConfiguration();
      if configuration.None? { return None; }
      ok := Leave(outer);
      r := if ok then Some(Sensor(id.value, isEnabled.value, metadata.value, configuration.value)) else None;
    }

    /** The list of sensors up to its end. */
    method DecodeList() returns (r: Option<seq<Sensor>>)
      modifies this
      ensures Agrees(ParseList(old(state)), r, state)
    {
      hide AtEnd, ParseSensor, Start, End;
      var ok, outer := Enter(LIST);
      if !ok { return None; }
      ghost var start := state;
      var sensors: seq<Sensor> := [];
      while !AtEnd(state)
        invariant ParseSensors(state, sensors) == ParseSensors(start, [])
        decreases |state.rest|
      {
        var sensor := DecodeSensor();
        if sensor.None? { return None; }
        sensors := sensors + [sensor.value];
      }
      ok := Leave(outer);
      r := if ok then Some(sensors) else None;
    }

    method DecodeSensors() returns (r: Option<seq<Sensor>>)
      requires state.left == Definite(1)
      modifies this
      ensures Agrees(Parse(old(state).rest), r, state)
    {
      hide Start, End, ParseList;
      var ok, outer := Enter(LIST);
      if !ok { return None; }
      r := DecodeList();
      if r.None? { return None; }
      ok := Leave(outer);
      if !ok { r := None; }
    }
  }

  /** Decoding what was encoded, in either form, gives every configuration back. */
  method DecodeEncoded(canonical: bool, sensors: Sensors) returns (r: Option<seq<Sensor>>)
    ensures r == Some(sensors)
  {
    hide Encode, Parse;
    CborRoundTrip.RoundTrip(canonical, sensors, []);
    assert Encode(canonical, sensors) + [] == Encode(canonical, sensors);
    var decoder := new Decoder(Encode(canonical, sensors));
    r := decoder.DecodeSensors();
  }
}
