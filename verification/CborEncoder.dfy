/**
 Writing the sensors configuration into a buffer of fixed capacity. In canonical form a container gets a
 provisional length that is replaced when it ends; otherwise it ends with a break.
 */
module CborEncoder {
  import opened Bytes
  import opened CborItems
  import opened CborSensors
  import opened CborSize

  /** The least number of points that a written table holds. */
  const MIN_POINTS: nat := 2

  predicate IsWritable(s: Sensor)
  {
    s.configuration.calibrationTable.Some? ==> |s.configuration.calibrationTable.value| >= MIN_POINTS
  }

  function Opening(canonical: bool, major: nat, max: nat): (r: seq<byte>)
    requires major in {LIST, MAP} && max < 0x1_0000_0000
    ensures |r| == if canonical then 1 + ArgWidth(max) else 1
  {
    if canonical then Head(major, max) else [major * 32 + 31]
  }

  lemma ContainerLength(canonical: bool, major: nat, max: nat, count: nat, items: seq<byte>)
    requires major in {LIST, MAP} && max < 0x1_0000_0000 && count < 0x1_0000_0000 && ArgWidth(count) == ArgWidth(max)
    ensures |Container(canonical, major, count, items)| == |Opening(canonical, major, max)| + |items| + |Closing(canonical)|
  {
  }

  /** With `bytes` written, what is still to come completes the same whole. */
  lemma Advance(out: seq<byte>, bytes: seq<byte>, rest: seq<byte>, goal: seq<byte>)
    requires out + (bytes + rest) == goal
    ensures (out + bytes) + rest == goal && |goal| == |out| + |bytes| + |rest|
  {
    Assoc(out, bytes, rest);
  }

  class Encoder {
    const canonical: bool
    const capacity: nat
    var out: seq<byte>
    /** The items written to the container that is open. */
    var count: nat

    constructor (canonical: bool, capacity: nat)
      ensures this.canonical == canonical && this.capacity == capacity && out == [] && count == 0
    {
      this.canonical := canonical;
      this.capacity := capacity;
      out := [];
      count := 0;
    }

    /** One item, if it fits. */
    method Put(bytes: seq<byte>, ghost rest: seq<byte>, ghost goal: seq<byte>) returns (ok: bool)
      requires out + (bytes + rest) == goal
      modifies this
      ensures ok ==> out + rest == goal && count == old(count) + 1 && |out| <= capacity
      ensures !ok ==> |goal| > capacity
    {
      Advance(out, bytes, rest, goal);
      if |out| + |bytes| > capacity { return false; }
      out := out + bytes;
      count := count + 1;
      ok := true;
    }

    /** Opens a container of at most `max` items. */
    method StartContainer(major: nat, max: nat) returns (ok: bool)
      requires major in {LIST, MAP} && max < 0x1_0000_0000
      modifies this
      ensures ok ==> out == old(out) + Opening(canonical, major, max) && count == 0 && |out| <= capacity
      ensures !ok ==> |old(out)| + |Opening(canonical, major, max)| > capacity
    {
      var bytes := Opening(canonical, major, max);
      if |out| + |bytes| > capacity { return false; }
      out := out + bytes;
      count := 0;
      ok := true;
    }

    /** Closes the container that was opened at `start` for at most `max` items. */
    method EndContainer(major: nat, max: nat, start: nat, outerCount: nat, ghost base: seq<byte>, ghost items: seq<byte>) returns (ok: bool)
      requires major in {LIST, MAP} && max < 0x1_0000_0000 && start == |base| && |out| <= capacity
      requires out == base + Opening(canonical, major, max) + items
      requires (if major == MAP then count / 2 else count) <= max && ArgWidth(if major == MAP then count / 2 else count) == ArgWidth(max)
      modifies this
      ensures var n := if major == MAP then old(count) / 2 else old(count);
        (ok ==> out == base + Container(canonical, major, n, items) && count == outerCount + 1 && |out| <= capacity)
        && (!ok ==> |base| + |Container(canonical, major, n, items)| > capacity)
    {
      hide Head;
      var n := if major == MAP then count / 2 else count;
      ContainerLength(canonical, major, max, n, items);
      if canonical {
        assert out[start + |Head(major, max)|..] == items && out[..start] == base;
        out := out[..start] + (Head(major, n) + out[start + |Head(major, max)|..]);
      } else {
        if |out| == capacity { return false; }
        out := out + [BREAK];
        assert out == base + (([major * 32 + 31] + items) + [BREAK]);
      }
      count := outerCount + 1;
      ok := true;
    }

    method EncodeMetadata(m: Metadata, ghost rest: seq<byte>, ghost goal: seq<byte>) returns (ok: bool)
      requires out + (CborSensors.EncodeMetadata(canonical, m) + rest) == goal
      modifies this
      ensures ok ==> out + rest == goal && count == old(count) + 1 && |out| <= capacity
      ensures !ok ==> |goal| > capacity
    {
      hide Head, EncodeText, Container, Opening;
      ghost var base, items := out, MetadataItems(m);
      var start, outerCount := |out|, count;
      Advance(out, CborSensors.EncodeMetadata(canonical, m), rest, goal);
      ContainerLength(canonical, LIST, 3, 3, items);
      ok := StartContainer(LIST, 3);
      if !ok { return; }
      ghost var inner := out + items;
      ok := Put(EncodeText(m.name), EncodeText(m.unit) + EncodeText(m.description), inner);
      if !ok { return; }
      ok := Put(EncodeText(m.unit), EncodeText(m.description), inner);
      if !ok { return; }
      assert EncodeText(m.description) + [] == EncodeText(m.description);
      ok := Put(EncodeText(m.description), [], inner);
      if !ok { return; }
      assert out + [] == out;
      ok := EndContainer(LIST, 3, start, outerCount, base, items);
    }

    method EncodePoint(p: Point, ghost rest: seq<byte>, ghost goal: seq<byte>) returns (ok: bool)
      requires out + (CborSensors.EncodePoint(p) + rest) == goal
      modifies this
      ensures ok ==> out + rest == goal && count == old(count) + 2 && |out| <= capacity
      ensures !ok ==> |goal| > capacity
    {
      hide EncodeFloat;
      Assoc(EncodeFloat(p.key), EncodeFloat(p.value), rest);
      ok := Put(EncodeFloat(p.key), EncodeFloat(p.value) + rest, goal);
      if !ok { return; }
      ok := Put(EncodeFloat(p.value), rest, goal);
    }

    /** A map of at least MIN_POINTS pairs, or nothing that can be used. */
    method EncodeTable(table: Table, ghost rest: seq<byte>, ghost goal: seq<byte>) returns (ok: bool)
      requires out + (CborSensors.EncodeTable(canonical, table) + rest) == goal
      modifies this
      ensures ok ==> out + rest == goal && count == old(count) + 1 && |out| <= capacity && |table| >= MIN_POINTS
      ensures !ok ==> |goal| > capacity || |table| < MIN_POINTS
    {
      hide Head, CborSensors.EncodePoint, Container, Opening;
      ghost var base, items := out, PointItems(table);
      var start, outerCount := |out|, count;
      Advance(out, CborSensors.EncodeTable(canonical, table), rest, goal);
      ContainerLength(canonical, MAP, |table|, |table|, items);
      ok := StartContainer(MAP, |table|);
      if !ok { return; }
      if |table| < MIN_POINTS { return false; }
      ghost var inner := out + items;
      for i := 0 to |table|
        invariant out + PointItems(table[i..]) == inner && count == 2 * i && |out| <= capacity
      {
        assert table[i..][1..] == table[i + 1..];
        ok := EncodePoint(table[i], PointItems(table[i + 1..]), inner);
        if !ok { return; }
      }
      assert out + [] == out;
      ok := EndContainer(MAP, |table|, start, outerCount, base, items);
    }

    method EncodeConfiguration(c: Configuration, ghost rest: seq<byte>, ghost goal: seq<byte>) returns (ok: bool)
      requires out + (CborSensors.EncodeConfiguration(canonical, c) + rest) == goal
      modifies this
      ensures ok ==> out + rest == goal && count == old(count) + 1 && |out| <= capacity
      ensures ok ==> c.calibrationTable.Some? ==> |c.calibrationTable.value| >= MIN_POINTS
      ensures !ok ==> |goal| > capacity || (c.calibrationTable.Some? && |c.calibrationTable.value| < MIN_POINTS)
    {
      hide Head, EncodeText, Container, Opening, ConfigurationItems;
      ghost var base, items := out, ConfigurationItems(canonical, c);
      var start, outerCount := |out|, count;
      Advance(out, CborSensors.EncodeConfiguration(canonical, c), rest, goal);
      ContainerLength(canonical, LIST, 10, ConfigurationCount(c), items);
      ok := StartContainer(LIST, 10);
      if !ok { return; }
      ok := EncodeItems(c, out + items);
      if !ok { return; }
      ok := EndContainer(LIST, 10, start, outerCount, base, items);
    }

    /** The fields of a configuration, optional ones only when present. */
    method EncodeItems(c: Configuration, ghost goal: seq<byte>) returns (ok: bool)
      requires out + ConfigurationItems(canonical, c) == goal && count == 0
      modifies this
      ensures ok ==> out == goal && count == ConfigurationCount(c) && |out| <= capacity
      ensures ok ==> c.calibrationTable.Some? ==> |c.calibrationTable.value| >= MIN_POINTS
      ensures !ok ==> |goal| > capacity || (c.calibrationTable.Some? && |c.calibrationTable.value| < MIN_POINTS)
    {
      hide Head, EncodeText, EncodeUint, EncodeInt, CborSensors.EncodeTable;
      ghost var afterChannel := ItemsAfterChannel(canonical, c);
      ghost var afterMethod := EncodeChannel(c.channel) + afterChannel;
      ok := Put(EncodeUint(c.kind), EncodeInt(c.samplingRateMs) + (EncodeUint(c.interpolationMethod) + afterMethod), goal);
      if !ok { return; }
      ok := Put(EncodeInt(c.samplingRateMs), EncodeUint(c.interpolationMethod) + afterMethod, goal);
      if !ok { return; }
      ok := Put(EncodeUint(c.interpolationMethod), afterMethod, goal);
      if !ok { return; }
      if c.channel.Some? {
        ok := Put(EncodeUint(c.channel.value), afterChannel, goal);
        if !ok { return; }
      } else {
        assert afterMethod == afterChannel;
      }
      ok := EncodeItemsAfterChannel(c, goal);
    }

    method EncodeItemsAfterChannel(c: Configuration, ghost goal: seq<byte>) returns (ok: bool)
      requires out + ItemsAfterChannel(canonical, c) == goal && count == 3 + Present(c.channel)
      modifies this
      ensures ok ==> out == goal && count == ConfigurationCount(c) && |out| <= capacity
      ensures ok ==> c.calibrationTable.Some? ==> |c.calibrationTable.value| >= MIN_POINTS
      ensures !ok ==> |goal| > capacity || (c.calibrationTable.Some? && |c.calibrationTable.value| < MIN_POINTS)
    {
      hide Head, EncodeText, EncodeUint, EncodeInt, CborSensors.EncodeTable;
      ghost var afterTable := ItemsAfterTable(c);
      ghost var afterScript := EncodeTableIfAny(canonical, c.calibrationTable) + afterTable;
      ghost var afterExpression := EncodeUint(c.debounceMs) + EncodeUint(c.inputMode);
      ok := Put(EncodeText(c.connectionString), EncodeText(c.scriptPath) + afterScript, goal);
      if !ok { return; }
      ok := Put(EncodeText(c.scriptPath), afterScript, goal);
      if !ok { return; }
      if c.calibrationTable.Some? {
        ok := EncodeTable(c.calibrationTable.value, afterTable, goal);
        if !ok { return; }
      } else {
        assert afterScript == afterTable;
      }
      if c.expression.Some? {
        ok := Put(EncodeText(c.expression.value), afterExpression, goal);
        if !ok { return; }
      } else {
        assert afterTable == afterExpression;
      }
      ok := Put(EncodeUint(c.debounceMs), EncodeUint(c.inputMode), goal);
      if !ok { return; }
      assert EncodeUint(c.inputMode) + [] == EncodeUint(c.inputMode);
      ok := Put(EncodeUint(c.inputMode), [], goal);
      assert out + [] == out;
    }

    method EncodeSensor(s: Sensor, ghost rest: seq<byte>, ghost goal: seq<byte>) returns (ok: bool)
      requires out + (CborSensors.EncodeSensor(canonical, s) + rest) == goal
      modifies this
      ensures ok ==> out + rest == goal && count == old(count) + 1 && |out| <= capacity && IsWritable(s)
      ensures !ok ==> |goal| > capacity || !IsWritable(s)
    {
      hide Head, EncodeText, Container, Opening, CborSensors.EncodeMetadata, CborSensors.EncodeConfiguration;
      ghost var base, items := out, SensorItems(canonical, s);
      ghost var encoded := CborSensors.EncodeConfiguration(canonical, s.configuration);
      ghost var afterEnabled := CborSensors.EncodeMetadata(canonical, s.metadata) + encoded;
      var start, outerCount := |out|, count;
      Advance(out, CborSensors.EncodeSensor(canonical, s), rest, goal);
      ContainerLength(canonical, LIST, 4, 4, items);
      ok := StartContainer(LIST, 4);
      if !ok { return; }
      ghost var inner := out + items;
      ok := Put(EncodeText(s.id), EncodeBool(s.isEnabled) + afterEnabled, inner);
      if !ok { return; }
      ok := Put(EncodeBool(s.isEnabled), afterEnabled, inner);
      if !ok { return; }
      ok := EncodeMetadata(s.metadata, encoded, inner);
      if !ok { return; }
      assert encoded + [] == encoded;
      ok := EncodeConfiguration(s.configuration, [], inner);
      if !ok { return; }
      assert out + [] == out;
      ok := EndContainer(LIST, 4, start, outerCount, base, items);
    }

    /** The inner list, sensor by sensor. */
    method EncodeList(sensors: Sensors, ghost goal: seq<byte>) returns (ok: bool)
      requires out + Container(canonical, LIST, |sensors|, AllItems(canonical, sensors)) == goal
      modifies this
      ensures ok ==> out == goal && count == old(count) + 1 && |out| <= capacity && forall s :: s in sensors ==> IsWritable(s)
      ensures !ok ==> |goal| > capacity || exists s :: s in sensors && !IsWritable(s)
    {
      hide Head, Container, Opening, CborSensors.EncodeSensor, IsWritable;
      ghost var base, items := out, AllItems(canonical, sensors);
      var start, outerCount := |out|, count;
      ContainerLength(canonical, LIST, |sensors|, |sensors|, items);
      ok := StartContainer(LIST, |sensors|);
      if !ok { return; }
      ghost var inner := out + items;
      for i := 0 to |sensors|
        invariant out + AllItems(canonical, sensors[i..]) == inner && count == i && |out| <= capacity
        invariant forall k :: 0 <= k < i ==> IsWritable(sensors[k])
      {
        assert sensors[i..][1..] == sensors[i + 1..];
        ok := EncodeSensor(sensors[i], AllItems(canonical, sensors[i + 1..]), inner);
        if !ok { return; }
      }
      assert out + [] == out;
      ok := EndContainer(LIST, |sensors|, start, outerCount, base, items);
    }

    method EncodeSensors(sensors: Sensors) returns (ok: bool)
      requires out == [] && count == 0
      modifies this
      ensures ok <==> |Encode(canonical, sensors)| <= capacity && forall s :: s in sensors ==> IsWritable(s)
      ensures ok ==> out == Encode(canonical, sensors) && count == 1
    {
      hide Head, Container, Opening, AllItems, IsWritable;
      ghost var items := Container(canonical, LIST, |sensors|, AllItems(canonical, sensors));
      ContainerLength(canonical, LIST, 1, 1, items);
      ok := StartContainer(LIST, 1);
      if !ok { return; }
      ok := EncodeList(sensors, out + items);
      if !ok { return; }
      ok := EndContainer(LIST, 1, 0, 0, [], items);
    }
  }

  /** A buffer of the computed size is written successfully exactly when every table holds enough points. */
  method EncodeToComputedSize(sensors: Sensors) returns (ok: bool, bytes: seq<byte>)
    ensures ok <==> forall s :: s in sensors ==> IsWritable(s)
    ensures ok ==> bytes == Encode(false, sensors)
  {
    hide Encode, IsWritable;
    var size := GetSize(sensors);
    var encoder := new Encoder(false, size);
    ok := encoder.EncodeSensors(sensors);
    bytes := encoder.out;
  }
}
