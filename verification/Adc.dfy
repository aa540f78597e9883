/**
 Sampling of several channels of one converter: a scan of all of them, and channel by channel for
 what a failed scan left. The driver is a stub that may fail any call; what it delivers is recorded.
 */
module Adc {
  import opened AdcSamples
  import opened Arithmetic
  import opened Bytes
  import opened ChannelMask
  import opened Listing

  const MAX_RETRIES: nat := 2
  const EBUSY: int := 16
  const ENODEV: int := 19
  const EINVAL: int := 22
  const ETIMEDOUT: int := 116

  datatype AdcError = NoError | ChannelOutOfRange | DriverError | Timeout

  datatype AdcSample = AdcSample(volts: real, error: AdcError, errnoValue: int)

  datatype Channel = Channel(id: nat, resolution: nat, oversampling: nat, isDifferential: bool)

  ghost predicate IsTimeout(err: int)
  {
    err == -ETIMEDOUT || err == -EBUSY
  }

  /** The entry is for a channel of the device above every channel requested before it. */
  ghost predicate IsAccepted(requested: seq<nat>, channelCount: nat, i: nat)
    requires i < |requested|
  {
    && requested[i] < channelCount
    && forall j :: 0 <= j < i && requested[j] < channelCount ==> requested[j] < requested[i]
  }

  /** Every identifier fits a mask, and no two channels share one. */
  ghost predicate HasDistinctIds(channels: seq<Channel>)
  {
    && (forall c :: 0 <= c < |channels| ==> channels[c].id < WIDTH)
    && (forall c, d :: 0 <= c < d < |channels| ==> channels[c].id != channels[d].id)
  }

  ghost predicate IsIndexed(channels: seq<Channel>, local: seq<nat>)
  {
    |local| == WIDTH && forall c :: 0 <= c < |channels| ==> channels[c].id < WIDTH && local[channels[c].id] == c
  }

  /** One resolution and oversampling suit every selected channel. */
  ghost predicate Suits(channels: seq<Channel>, ids: seq<nat>, resolution: nat, oversampling: nat)
  {
    forall c :: 0 <= c < |channels| && channels[c].id in ids ==>
      channels[c].resolution == resolution && channels[c].oversampling == oversampling
  }

  ghost predicate AreOfChannels(channels: seq<Channel>, ids: seq<nat>)
  {
    forall q :: 0 <= q < |ids| ==> ids[q] < WIDTH && exists c :: 0 <= c < |channels| && channels[c].id == ids[q]
  }

  /** What the driver answers when a channel is set up: the results, the reference and the inverted gain in 16.16. */
  datatype Setup = Setup(result: int, referenceMv: nat, gainResult: int, gainInverse: int)

  /** All channels share their settings. */
  ghost predicate AreUniform(channels: seq<Channel>)
  {
    forall c :: 0 <= c < |channels| ==>
      channels[c].resolution == channels[0].resolution && channels[c].oversampling == channels[0].oversampling
  }

  lemma NoneIsUniform(channels: seq<Channel>)
    ensures AreUniform(channels[..0])
  {
  }

  lemma OneMoreUniform(channels: seq<Channel>, i: nat)
    requires i < |channels|
    ensures AreUniform(channels[..i + 1]) <==>
      && AreUniform(channels[..i])
      && channels[i].resolution == channels[0].resolution && channels[i].oversampling == channels[0].oversampling
  {
    assert forall c :: 0 <= c < i ==> channels[..i][c] == channels[..i + 1][c];
    assert channels[..i + 1][i] == channels[i];
  }

  /** Every channel can be addressed, converted into the buffer and scaled. */
  ghost predicate IsServable(channels: seq<Channel>, setups: seq<Setup>)
    requires |setups| == |channels|
  {
    && channels != [] && HasDistinctIds(channels)
    && forall c :: 0 <= c < |channels| ==> IsServableChannel(channels[c], setups[c])
  }

  ghost predicate IsServableChannel(channel: Channel, setup: Setup)
  {
    && 0 < channel.resolution <= 16 && !channel.isDifferential
    && setup.result >= 0 && setup.referenceMv != 0 && setup.gainResult >= 0
  }

  /** Volts per count at the pin. */
  function ScaleOf(channel: Channel, setup: Setup): real
  {
    (setup.referenceMv as real / 1000.0) * (setup.gainInverse as real / 65536.0) / Pow2(channel.resolution) as real
  }

  /** The driver, with the conversions it delivered since the request began and the calls that failed. */
  class Driver {
    ghost var heard: Heard
    ghost var failures: nat
    /** A call for several samplings, and one for several channels, succeeded at some time. */
    ghost var tookBurst: bool
    ghost var tookScan: bool
    /** The calls that succeeded. */
    ghost var served: nat

    constructor ()
    {
      heard := seq(WIDTH, i => []);
      failures, served := 0, 0;
      tookBurst, tookScan := false, false;
    }

    /**
     adc_read(): `samplings` samples of each selected channel, or an error. It asks for a buffer that holds them
     and for settings that every selected channel has.
     */
    method Convert(mask: bv32, samplings: nat, capacity: nat, resolution: nat, oversampling: nat, ghost channels: seq<Channel>)
      returns (err: int, data: seq<u16>)
      requires Ids(mask) != [] && AreOfChannels(channels, Ids(mask)) && Suits(channels, Ids(mask), resolution, oversampling)
      requires 0 < samplings && samplings * |Ids(mask)| <= capacity
      modifies this
      ensures err <= 0 && (err == 0 ==> |data| == samplings * |Ids(mask)| && failures == old(failures))
      ensures served == old(served) + if err == 0 then 1 else 0
      ensures err >= 0 ==> heard == Delivered(old(heard), Ids(mask), data)
      ensures err < 0 ==> heard == old(heard) && failures == old(failures) + 1
      ensures tookBurst == (old(tookBurst) || (err >= 0 && samplings > 1))
      ensures tookScan == (old(tookScan) || (err >= 0 && |Ids(mask)| > 1))
    {
      err := *;
      if err > 0 { err := 0; }
      data := [];
      if err < 0 {
        failures := failures + 1;
        return;
      }
      var n := samplings * |Ids(mask)|;
      while |data| < n
        invariant |data| <= n
      {
        var x: u16 := *;
        data := data + [x];
      }
      heard := Delivered(heard, Ids(mask), data);
      served := served + 1;
      tookBurst := tookBurst || samplings > 1;
      tookScan := tookScan || |Ids(mask)| > 1;
    }
  }

  /** The accumulator of a channel whose result is good so far holds the sum of its `level` conversions. */
  ghost predicate IsKept(channels: seq<Channel>, acc: seq<u32>, heard: Heard, channel: nat, r: AdcSample, level: nat)
  {
    r.error == NoError ==>
      && channel < |channels| && channel < |acc| && channels[channel].id < WIDTH
      && |heard[channels[channel].id]| == level && acc[channel] == Sum(heard[channels[channel].id])
  }

  /** The mean of `samples` conversions that add up to `sum`, in volts. */
  function Scaled(sum: nat, scale: real, samples: nat): real
    requires 0 < samples
  {
    sum as real * (scale / samples as real)
  }

  lemma ScaledTimesSamples(sum: nat, scale: real, samples: nat)
    requires 0 < samples
    ensures Scaled(sum, scale, samples) * samples as real == sum as real * scale
  {
    var n := samples as real;
    assert (scale / n) * n == scale;
    assert sum as real * (scale / n) * n == sum as real * ((scale / n) * n);
  }

  /** 2^resolution counts are worth the reference divided by the gain, at the pin. */
  ghost predicate IsFullRange(scale: real, channel: Channel, setup: Setup)
  {
    scale * Pow2(channel.resolution) as real == (setup.referenceMv as real / 1000.0) * (setup.gainInverse as real / 65536.0)
  }

  lemma ScaleOfFullRange(channel: Channel, setup: Setup)
    ensures IsFullRange(ScaleOf(channel, setup), channel, setup)
  {
  }

  function Times(a: real, b: real): real
  {
    a * b
  }

  lemma TimesAssociate(a: real, b: real, c: real)
    ensures Times(Times(a, b), c) == Times(a, Times(b, c))
  {
  }

  lemma TimesOrder(a: real, b: real, s: real)
    ensures 0.0 <= s && a <= b ==> Times(a, s) <= Times(b, s)
  {
  }

  lemma TimesCancel(m: real, a: real, b: real)
    requires 0.0 < m
    ensures Times(m, a) <= Times(m, b) <==> a <= b
  {
    assert m * b - m * a == m * (b - a);
  }

  lemma TimesOfInts(n: nat, x: int, s: real)
    ensures Times((n * x) as real, s) == Times(n as real, Times(x as real, s))
  {
    assert (n * x) as real == Times(n as real, x as real);
    TimesAssociate(n as real, x as real, s);
  }

  /** The mean lies between the smallest and the largest conversion, in volts. */
  lemma MeanIsBetween(xs: seq<u16>, scale: real, volts: real, low: int, high: int)
    requires xs != [] && volts * |xs| as real == Sum(xs) as real * scale && 0.0 <= scale
    requires forall x :: x in xs ==> low <= x <= high
    ensures low as real * scale <= volts <= high as real * scale
  {
    hide Sum;
    SumIsBetween(xs, low, high);
    var n := |xs| as real;
    assert Times(n, volts) == Times(Sum(xs) as real, scale);
    TimesOrder((|xs| * low) as real, Sum(xs) as real, scale);
    TimesOrder(Sum(xs) as real, (|xs| * high) as real, scale);
    TimesOfInts(|xs|, low, scale);
    TimesOfInts(|xs|, high, scale);
    TimesCancel(n, Times(low as real, scale), volts);
    TimesCancel(n, volts, Times(high as real, scale));
  }

  /** Equal conversions have that conversion as their mean. */
  lemma MeanOfEqual(xs: seq<u16>, scale: real, volts: real, x: u16)
    requires xs != [] && volts * |xs| as real == Sum(xs) as real * scale && forall y :: y in xs ==> y == x
    ensures volts == x as real * scale
  {
    hide Sum;
    SumIsBetween(xs, x, x);
    var n := |xs| as real;
    assert Times(n, volts) == Times(Sum(xs) as real, scale);
    TimesOfInts(|xs|, x, scale);
    TimesCancel(n, Times(x as real, scale), volts);
    TimesCancel(n, volts, Times(x as real, scale));
  }

  /** Every entry of the request that is good so far has `level` conversions in its accumulator. */
  ghost predicate AreKept(channels: seq<Channel>, acc: seq<u32>, heard: Heard, requested: seq<nat>, rs: seq<AdcSample>, level: nat)
    requires |rs| <= |requested|
  {
    forall i :: 0 <= i < |rs| ==> IsKept(channels, acc, heard, requested[i], rs[i], level)
  }

  /** The identifiers are those of the entries that are good so far. */
  ghost predicate AreRequested(channels: seq<Channel>, ids: seq<nat>, requested: seq<nat>, rs: seq<AdcSample>)
    requires |rs| <= |requested|
  {
    && (forall i :: 0 <= i < |rs| && rs[i].error == NoError ==> requested[i] < |channels| && channels[requested[i]].id in ids)
    && (forall q :: 0 <= q < |ids| ==> IsRequested(channels, ids[q], requested, rs))
  }

  ghost predicate IsRequested(channels: seq<Channel>, id: nat, requested: seq<nat>, rs: seq<AdcSample>)
    requires |rs| <= |requested|
  {
    exists i :: 0 <= i < |rs| && rs[i].error == NoError && requested[i] < |channels| && channels[requested[i]].id == id
  }

  lemma RequestedAreOfChannels(channels: seq<Channel>, local: seq<nat>, ids: seq<nat>, requested: seq<nat>, rs: seq<AdcSample>)
    requires HasDistinctIds(channels) && IsIndexed(channels, local) && |rs| <= |requested|
    requires AreRequested(channels, ids, requested, rs) && Distinct(ids)
    ensures AreOfChannels(channels, ids) && IsInjective(local, ids) && |ids| <= |channels|
  {
    forall q | 0 <= q < |ids|
      ensures ids[q] < WIDTH && local[ids[q]] < |channels| && channels[local[ids[q]]].id == ids[q]
    {
      assert IsRequested(channels, ids[q], requested, rs);
    }
    var all := seq(|channels|, c requires 0 <= c < |channels| => channels[c].id);
    forall x | x in ids ensures x in all {
      var q :| 0 <= q < |ids| && ids[q] == x;
      assert all[local[ids[q]]] == x;
    }
    DistinctAmong(ids, all);
  }

  /** Before a round of the scan the accumulators of the mask are level, and the other way round. */
  lemma KeptIffInStep(channels: seq<Channel>, acc: seq<u32>, local: seq<nat>, heard: Heard, ids: seq<nat>,
                      requested: seq<nat>, rs: seq<AdcSample>, level: nat)
    requires HasDistinctIds(channels) && IsIndexed(channels, local) && |rs| <= |requested| && |acc| == |channels|
    requires AreRequested(channels, ids, requested, rs)
    ensures AreKept(channels, acc, heard, requested, rs, level) <==> InStep(acc, local, heard, ids, 0, level)
  {
    if AreKept(channels, acc, heard, requested, rs, level) {
      forall q | 0 <= q < |ids|
        ensures ids[q] < WIDTH && local[ids[q]] < |acc|
        ensures acc[local[ids[q]]] == Sum(heard[ids[q]]) && |heard[ids[q]]| == level
      {
        assert IsRequested(channels, ids[q], requested, rs);
        var i :| 0 <= i < |rs| && rs[i].error == NoError && requested[i] < |channels| && channels[requested[i]].id == ids[q];
        assert IsKept(channels, acc, heard, requested[i], rs[i], level);
      }
    }
    if InStep(acc, local, heard, ids, 0, level) {
      forall i | 0 <= i < |rs| ensures IsKept(channels, acc, heard, requested[i], rs[i], level) {
        if rs[i].error == NoError {
          var q :| 0 <= q < |ids| && ids[q] == channels[requested[i]].id;
        }
      }
    }
  }

  class Adc {
    const channels: seq<Channel>
    const driver: Driver
    const samplesMax: nat
    const burstChunk: nat
    var localById: seq<nat>
    var isUniform: bool
    var isInitialized: bool
    var hasBurst: bool
    var hasMultiChannel: bool
    var scale: seq<real>
    var accumulators: seq<u32>
    var bufferSize: nat

    ghost predicate Valid()
      reads this
    {
      && 1 <= samplesMax <= 0xFFFF && 1 <= burstChunk <= 1024
      && (isInitialized ==> IsUsable())
    }

    ghost predicate IsUsable()
      reads this
    {
      && 0 < |channels| == |accumulators| == |scale| && bufferSize == |channels| * burstChunk
      && HasDistinctIds(channels) && IsIndexed(channels, localById)
      && (hasMultiChannel ==> AreUniform(channels))
    }

    constructor (driver: Driver, channels: seq<Channel>, samplesMax: nat, burstChunk: nat)
      requires 1 <= samplesMax <= 0xFFFF && 1 <= burstChunk <= 1024
      ensures Valid() && !isInitialized && this.driver == driver && this.channels == channels
    {
      this.driver := driver;
      this.channels := channels;
      this.samplesMax := samplesMax;
      this.burstChunk := burstChunk;
      localById := seq(WIDTH, i => 0);
      isUniform, isInitialized, hasBurst, hasMultiChannel := false, false, false, false;
      scale, accumulators, bufferSize := [], [], 0;
    }

    /** Sets all channels up and finds out what the driver can do. */
    method Initialize(isReady: bool, setups: seq<Setup>) returns (ok: bool)
      requires Valid() && |setups| == |channels|
      modifies this, driver
      ensures Valid() && ok == isInitialized
      ensures ok ==> isReady && IsServable(channels, setups)
      ensures ok ==> forall c :: 0 <= c < |channels| ==> scale[c] == ScaleOf(channels[c], setups[c])
      ensures ok ==> forall c :: 0 <= c < |channels| ==> IsFullRange(scale[c], channels[c], setups[c])
      ensures ok ==> driver.served > old(driver.served)
      ensures ok && driver.failures == old(driver.failures) ==>
        && (hasBurst <==> burstChunk >= 2)
        && (hasMultiChannel <==> |channels| >= 2 && AreUniform(channels))
      ensures !ok ==> !isReady || !IsServable(channels, setups) || driver.failures > old(driver.failures)
      ensures ok ==> (hasBurst ==> driver.tookBurst) && (hasMultiChannel ==> driver.tookScan)
    {
      hide ScaleOf, IsFullRange;
      isInitialized := false;
      if !isReady || |channels| == 0 { return false; }
      ok := IndexChannels(setups);
      if !ok { return; }
      bufferSize := |channels| * burstChunk;
      accumulators := seq(|channels|, i => 0);
      hasBurst, hasMultiChannel := false, false;
      ok := Probe();
      if !ok { return; }
      isInitialized := true;
      forall c | 0 <= c < |channels|
        ensures IsFullRange(scale[c], channels[c], setups[c])
      {
        ScaleOfFullRange(channels[c], setups[c]);
      }
    }

    /** The checks and settings of every channel in turn. */
    method IndexChannels(setups: seq<Setup>) returns (ok: bool)
      requires 0 < |channels| == |setups|
      modifies this`scale, this`localById, this`isUniform
      ensures ok <==> IsServable(channels, setups)
      ensures ok ==> IsIndexed(channels, localById) && |scale| == |channels|
      ensures ok ==> forall c :: 0 <= c < |channels| ==> scale[c] == ScaleOf(channels[c], setups[c])
      ensures ok ==> (isUniform <==> AreUniform(channels))
    {
      hide Selects, ScaleOf, AreUniform;
      scale := seq(|channels|, i => 0.0);
      localById := seq(WIDTH, i => 0);
      isUniform := true;
      var usedIds: bv32 := 0;
      forall j: nat ensures !Selects(0, j) { SelectsNone(j); }
      NoneIsUniform(channels);
      for i := 0 to |channels|
        invariant |scale| == |channels| && |localById| == WIDTH
        invariant HasDistinctIds(channels[..i]) && IsIndexed(channels[..i], localById)
        invariant forall c :: 0 <= c < i ==> IsServableChannel(channels[c], setups[c]) && scale[c] == ScaleOf(channels[c], setups[c])
        invariant forall j: nat :: Selects(usedIds, j) <==> exists c :: 0 <= c < i && channels[c].id == j
        invariant isUniform <==> AreUniform(channels[..i])
      {
        var id := channels[i].id;
        if id >= WIDTH { return false; }
        TestsBit(usedIds, id);
        if And(usedIds, Bit(id)) != 0 { return false; }
        forall j: nat ensures Selects(Or(usedIds, Bit(id)), j) <==> Selects(usedIds, j) || j == id { SelectsWithBit(usedIds, id, j); }
        usedIds := Or(usedIds, Bit(id));
        if channels[i].resolution == 0 || channels[i].resolution > 16 || channels[i].isDifferential { return false; }
        if setups[i].result < 0 || setups[i].referenceMv == 0 || setups[i].gainResult < 0 { return false; }
        scale := scale[i := ScaleOf(channels[i], setups[i])];
        localById := localById[id := i];
        isUniform := isUniform && channels[i].resolution == channels[0].resolution
          && channels[i].oversampling == channels[0].oversampling;
        OneMoreUniform(channels, i);
      }
      ok := true;
      assert channels[..|channels|] == channels;
    }

    /** One conversion must succeed. A second sampling and a second channel are features the driver may lack. */
    method Probe() returns (ok: bool)
      requires 0 < |channels| && bufferSize == |channels| * burstChunk && 1 <= burstChunk && HasDistinctIds(channels)
      requires isUniform ==> AreUniform(channels)
      requires !hasMultiChannel && !hasBurst
      modifies this`hasBurst, this`hasMultiChannel, driver
      ensures if ok then driver.served > old(driver.served) else driver.failures > old(driver.failures)
      ensures driver.failures >= old(driver.failures)
      ensures driver.failures == old(driver.failures) ==>
        (hasBurst <==> burstChunk >= 2) && (hasMultiChannel <==> |channels| >= 2 && isUniform)
      ensures hasBurst ==> driver.tookBurst
      ensures hasMultiChannel ==> isUniform && driver.tookScan
    {
      var err, data;
      IdsOfBit(channels[0].id);
      ChunkFits(1, 1, burstChunk, |channels|);
      err, data := Read(Bit(channels[0].id), 1, 0);
      if err < 0 { return false; }
      if burstChunk >= 2 {
        ChunkFits(2, 1, burstChunk, |channels|);
        err, data := Read(Bit(channels[0].id), 2, 0);
        hasBurst := err == 0;
      }
      if |channels| >= 2 && isUniform {
        var mask := Or(Bit(channels[0].id), Bit(channels[1].id));
        IdsOfBits(channels[0].id, channels[1].id);
        ChunkFits(1, |Ids(mask)|, burstChunk, |channels|);
        forall q | 0 <= q < |Ids(mask)| ensures Ids(mask)[q] in {channels[0].id, channels[1].id} {
          assert Ids(mask)[q] in Ids(mask);
        }
        err, data := Read(mask, 1, 0);
        hasMultiChannel := err == 0;
      }
      ok := true;
    }

    /** One driver call with up to MAX_RETRIES further attempts after a timeout or while it is busy. */
    method Read(mask: bv32, samplings: nat, channel: nat) returns (err: int, data: seq<u16>)
      requires channel < |channels| && Ids(mask) != [] && AreOfChannels(channels, Ids(mask))
      requires Suits(channels, Ids(mask), channels[channel].resolution, channels[channel].oversampling)
      requires 0 < samplings && samplings * |Ids(mask)| <= bufferSize
      modifies driver
      ensures err <= 0 && driver.served == old(driver.served) + if err == 0 then 1 else 0
      ensures err == 0 ==> driver.failures < old(driver.failures) + MAX_RETRIES + 1
      ensures err >= 0 ==> |data| == samplings * |Ids(mask)| && driver.heard == Delivered(old(driver.heard), Ids(mask), data)
      ensures err < 0 ==> driver.heard == old(driver.heard) && driver.failures > old(driver.failures)
      ensures old(driver.failures) <= driver.failures <= old(driver.failures) + MAX_RETRIES + 1
      ensures IsTimeout(err) ==> driver.failures == old(driver.failures) + MAX_RETRIES + 1
      ensures driver.tookBurst == (old(driver.tookBurst) || (err >= 0 && samplings > 1))
      ensures driver.tookScan == (old(driver.tookScan) || (err >= 0 && |Ids(mask)| > 1))
    {
      err := -EBUSY;
      data := [];
      var attempt := 0;
      while attempt <= MAX_RETRIES
        invariant attempt > 0 ==> IsTimeout(err)
        invariant attempt <= MAX_RETRIES + 1 && driver.heard == old(driver.heard) && driver.failures == old(driver.failures) + attempt
        invariant err < 0 && driver.served == old(driver.served)
        invariant driver.tookBurst == old(driver.tookBurst) && driver.tookScan == old(driver.tookScan)
      {
        err, data := driver.Convert(mask, samplings, bufferSize, channels[channel].resolution, channels[channel].oversampling, channels);
        if err != -ETIMEDOUT && err != -EBUSY { break; }
        attempt := attempt + 1;
      }
    }

    /** The mask of the entries that are good so far. */
    method MaskOf(requested: seq<nat>, results: array<AdcSample>, count: nat) returns (mask: bv32)
      requires count <= |requested| && count <= results.Length
      requires forall i :: 0 <= i < count && results[i].error == NoError ==>
        requested[i] < |channels| && channels[requested[i]].id < WIDTH
      ensures AreRequested(channels, Ids(mask), requested, results[..count])
    {
      hide Ids, Selects;
      mask := 0;
      ghost var rs := results[..count];
      forall j: nat ensures !Selects(0, j) { SelectsNone(j); }
      for i := 0 to count
        invariant forall k :: 0 <= k < i && rs[k].error == NoError ==> Selects(mask, channels[requested[k]].id)
        invariant forall j: nat :: Selects(mask, j) ==> IsRequested(channels, j, requested, rs)
      {
        if results[i].error == NoError {
          var id := channels[requested[i]].id;
          forall j: nat ensures Selects(Or(mask, Bit(id)), j) <==> Selects(mask, j) || j == id { SelectsWithBit(mask, id, j); }
          assert rs[i].error == NoError;
          mask := Or(mask, Bit(id));
        }
      }
      IdsAreSelected(mask);
      forall q | 0 <= q < |Ids(mask)| ensures IsRequested(channels, Ids(mask)[q], requested, rs) {
        assert Ids(mask)[q] in Ids(mask);
      }
    }

    /** Adds one chunk of a scan to the accumulators: `samplings` samples of each channel of the mask. */
    method AddScan(mask: bv32, samplings: nat, data: seq<u16>, ghost heard: Heard, ghost level: nat)
      requires |data| == samplings * |Ids(mask)| && |localById| == WIDTH && level + samplings <= 0xFFFF
      requires Ids(mask) != [] && IsInjective(localById, Ids(mask)) && InStep(accumulators, localById, heard, Ids(mask), 0, level)
      requires forall q :: 0 <= q < |Ids(mask)| ==> Ids(mask)[q] < WIDTH
      modifies this`accumulators
      ensures |accumulators| == |old(accumulators)|
      ensures InStep(accumulators, localById, Delivered(heard, Ids(mask), data), Ids(mask), 0, level + samplings)
    {
      hide Delivered, InStep, IsInjective, Ids;
      var sample := 0;
      ghost var ids := Ids(mask);
      NoneDelivered(heard, ids, data);
      for s := 0 to samplings
        invariant sample == s * |ids| <= |data| && |accumulators| == |old(accumulators)|
        invariant InStep(accumulators, localById, Delivered(heard, ids, data[..sample]), ids, 0, level + s)
      {
        RoundFits(s, samplings, |ids|);
        sample := AddRound(mask, data, sample, heard, s, level + s);
      }
      assert data[..|data|] == data;
    }

    /** One sampling of a scan: the next sample for every bit of the mask, from the lowest. */
    method AddRound(mask: bv32, data: seq<u16>, start: nat, ghost heard: Heard, ghost s: nat, ghost level: nat) returns (sample: nat)
      requires IsRoundStart(start, s, Ids(mask)) && start + |Ids(mask)| <= |data| && |localById| == WIDTH && level < 0xFFFF
      requires IsInjective(localById, Ids(mask)) && Ids(mask) != []
      requires forall q :: 0 <= q < |Ids(mask)| ==> Ids(mask)[q] < WIDTH
      requires InStep(accumulators, localById, Delivered(heard, Ids(mask), data[..start]), Ids(mask), 0, level)
      modifies this`accumulators
      ensures |accumulators| == |old(accumulators)| && sample == start + |Ids(mask)|
      ensures InStep(accumulators, localById, Delivered(heard, Ids(mask), data[..sample]), Ids(mask), 0, level + 1)
    {
      hide Delivered, InStep, IsInjective, CountrZero, ClearLowest, IsRoundStart, Noted, Ids, Sum;
      sample := start;
      ghost var ids := Ids(mask);
      var bits := mask;
      ghost var r := 0;
      while bits != 0
        invariant r <= |ids| && Ids(bits) == ids[r..] && |accumulators| == |old(accumulators)|
        invariant sample == start + r
        invariant InStep(accumulators, localById, Delivered(heard, ids, data[..sample]), ids, r, level)
        decreases |ids| - r
      {
        IdsFromLowest(bits);
        assert ids[r] == Ids(bits)[0] && ids[r..][1..] == ids[r + 1..];
        var id := CountrZero(bits);
        AddedInStep(accumulators, localById, Delivered(heard, ids, data[..sample]), ids, r, level, data[sample]);
        OneMoreDelivered(heard, ids, data, s, start, r);
        accumulators := accumulators[localById[id] := accumulators[localById[id]] + data[sample]];
        sample := sample + 1;
        bits := ClearLowest(bits);
        r := r + 1;
      }
      NoIdsOfZeroOnly(bits);
      RoundDone(accumulators, localById, Delivered(heard, ids, data[..sample]), ids, level);
    }

    lemma GoodHaveIds(requested: seq<nat>, rs: seq<AdcSample>)
      requires Valid() && |rs| <= |requested|
      requires forall i :: 0 <= i < |rs| && rs[i].error == NoError ==> isInitialized && requested[i] < |channels|
      ensures forall i :: 0 <= i < |rs| && rs[i].error == NoError ==> channels[requested[i]].id < WIDTH
    {
    }

    /** What the scan passes to the driver suits every channel of the mask. */
    lemma ScanIsFit(mask: bv32, requested: seq<nat>, rs: seq<AdcSample>)
      requires Valid() && hasMultiChannel && mask != 0 && |rs| <= |requested|
      requires forall i :: 0 <= i < |rs| && rs[i].error == NoError ==> isInitialized && requested[i] < |channels|
      requires AreRequested(channels, Ids(mask), requested, rs)
      ensures isInitialized && |localById| == WIDTH && CountrZero(mask) < WIDTH && localById[CountrZero(mask)] < |channels|
      ensures Ids(mask) != [] && AreOfChannels(channels, Ids(mask)) && IsInjective(localById, Ids(mask))
      ensures |Ids(mask)| <= |channels|
      ensures var first := channels[localById[CountrZero(mask)]];
        Suits(channels, Ids(mask), first.resolution, first.oversampling)
    {
      hide ClearLowest, CountrZero;
      assert Ids(mask)[0] == CountrZero(mask);
      assert IsRequested(channels, Ids(mask)[0], requested, rs);
      IdsAreSelected(mask);
      RequestedAreOfChannels(channels, localById, Ids(mask), requested, rs);
    }

    /**
     Scans all good entries at once, chunk by chunk. `left` are the samplings that no entry got: none after
     success, those from the chunk that failed on otherwise.
     */
    method SampleScan(requested: seq<nat>, results: array<AdcSample>, count: nat, remaining: nat, ghost total: nat)
      returns (err: int, left: nat)
      requires Valid() && hasMultiChannel && count <= |requested| && count <= results.Length
      requires 0 < remaining <= total <= 0xFFFF
      requires forall i :: 0 <= i < count && results[i].error == NoError ==> isInitialized && requested[i] < |channels|
      requires AreKept(channels, accumulators, driver.heard, requested, results[..count], total - remaining)
      modifies this`accumulators, driver
      ensures Valid() && left <= remaining && err <= 0 && (err >= 0 ==> left == 0) && (err < 0 ==> 0 < left && driver.failures > old(driver.failures))
      ensures driver.failures >= old(driver.failures)
      ensures IsTimeout(err) ==> driver.failures > old(driver.failures) + MAX_RETRIES
      ensures driver.served <= old(driver.served) + Chunks(remaining, burstChunk)
      ensures AreKept(channels, accumulators, driver.heard, requested, results[..count], total - left)
    {
      hide IsKept, InStep, Delivered, IsInjective, HasDistinctIds, IsIndexed, AreRequested, Suits, Chunks;
      GoodHaveIds(requested, results[..count]);
      var mask := MaskOf(requested, results, count);
      ghost var rs := results[..count];
      if mask == 0 {
        NothingRequested(channels, accumulators, driver.heard, requested, rs, total);
        return 0, 0;
      }
      ghost var ids := Ids(mask);
      ScanIsFit(mask, requested, rs);
      var firstChannel := localById[CountrZero(mask)];
      left := remaining;
      while left > 0
        invariant left <= remaining && Valid() && isInitialized && driver.failures >= old(driver.failures)
        invariant AreKept(channels, accumulators, driver.heard, requested, rs, total - left)
        invariant driver.served + Chunks(left, burstChunk) <= old(driver.served) + Chunks(remaining, burstChunk)
      {
        OneChunk(left, burstChunk);
        var chunk := if left < burstChunk then left else burstChunk;
        ghost var heard := driver.heard;
        var data;
        ChunkFits(chunk, |ids|, burstChunk, |channels|);
        err, data := Read(mask, chunk, firstChannel);
        if err < 0 { return; }
        KeptIffInStep(channels, accumulators, localById, heard, ids, requested, rs, total - left);
        AddScan(mask, chunk, data, heard, total - left);
        left := left - chunk;
        KeptIffInStep(channels, accumulators, localById, driver.heard, ids, requested, rs, total - left);
      }
      err := 0;
    }

    /** Samples one channel on its own, adding to what its accumulator already holds. */
    method SampleChannel(channel: nat, samples: nat, chunkSize: nat, ghost level: nat) returns (err: int)
      requires Valid() && isInitialized && channel < |channels|
      requires 0 < chunkSize <= burstChunk && level + samples <= 0xFFFF
      requires Holds(channel, level)
      modifies this`accumulators, driver
      ensures Valid() && driver.failures >= old(driver.failures) && (err < 0 ==> driver.failures > old(driver.failures))
      ensures err >= 0 ==> Holds(channel, level + samples)
      ensures KeepsOthers(channel, old(accumulators), old(driver.heard))
      ensures err <= 0
    {
      hide Delivered, InStep, Ids;
      var id := channels[channel].id;
      var mask := Bit(id);
      IdsOfBit(id);
      var remaining := samples;
      err := 0;
      while remaining > 0
        invariant 0 <= remaining <= samples && Valid() && err >= 0 && driver.failures >= old(driver.failures)
        invariant Holds(channel, level + samples - remaining) && KeepsOthers(channel, old(accumulators), old(driver.heard))
      {
        var chunk := if remaining < chunkSize then remaining else chunkSize;
        ghost var heard := driver.heard;
        var data;
        ChunkFits(chunk, 1, burstChunk, |channels|);
        err, data := Read(mask, chunk, channel);
        if err < 0 { return; }
        AddChannel(channel, data, heard, level + samples - remaining);
        forall j | 0 <= j < WIDTH && j != id ensures driver.heard[j] == heard[j] { DeliveredElsewhere(heard, [id], data, j); }
        remaining := remaining - chunk;
      }
    }

    ghost predicate Holds(channel: nat, level: nat)
      requires channel < |channels| && channels[channel].id < WIDTH
      reads this, driver
    {
      && channel < |accumulators| && |driver.heard[channels[channel].id]| == level
      && accumulators[channel] == Sum(driver.heard[channels[channel].id])
    }

    ghost predicate KeepsOthers(channel: nat, acc: seq<u32>, heard: Heard)
      requires channel < |channels|
      reads this, driver
    {
      && |accumulators| == |acc|
      && (forall c :: 0 <= c < |acc| && c != channel ==> accumulators[c] == acc[c])
      && (forall j :: 0 <= j < WIDTH && j != channels[channel].id ==> driver.heard[j] == heard[j])
    }

    /** Adds one chunk of a single channel to its accumulator. */
    method AddChannel(channel: nat, data: seq<u16>, ghost heard: Heard, ghost level: nat)
      requires channel < |channels| && channels[channel].id < WIDTH && channel < |accumulators|
      requires level + |data| <= 0xFFFF
      requires |heard[channels[channel].id]| == level && accumulators[channel] == Sum(heard[channels[channel].id])
      modifies this`accumulators
      ensures |accumulators| == |old(accumulators)|
      ensures forall c :: 0 <= c < |accumulators| && c != channel ==> accumulators[c] == old(accumulators[c])
      ensures var after := Delivered(heard, [channels[channel].id], data)[channels[channel].id];
        |after| == level + |data| && accumulators[channel] == Sum(after)
    {
      hide Delivered;
      var id := channels[channel].id;
      NoneDelivered(heard, [id], data);
      for s := 0 to |data|
        invariant |accumulators| == |old(accumulators)|
        invariant forall c :: 0 <= c < |accumulators| && c != channel ==> accumulators[c] == old(accumulators[c])
        invariant var sofar := Delivered(heard, [id], data[..s])[id];
          |sofar| == level + s && accumulators[channel] == Sum(sofar)
      {
        ghost var sofar := Delivered(heard, [id], data[..s])[id];
        OneMoreDelivered(heard, [id], data, s, s, 0);
        SumOneMore(sofar, data[s]);
        SumFits(sofar + [data[s]]);
        accumulators := accumulators[channel := accumulators[channel] + data[s]];
      }
      assert data[..|data|] == data;
    }

    method MarkError(results: array<AdcSample>, i: nat, err: int)
      requires i < results.Length
      modifies results
      ensures results[i] == AdcSample(old(results[i]).volts, if IsTimeout(err) then Timeout else DriverError, err)
      ensures forall k :: 0 <= k < results.Length && k != i ==> results[k] == old(results[k])
    {
      var error := if err == -ETIMEDOUT || err == -EBUSY then Timeout else DriverError;
      results[i] := results[i].(error := error, errnoValue := err);
    }

    /** Samples the entries that are good so far one by one; an error stops that entry alone. */
    method SampleEach(requested: seq<nat>, results: array<AdcSample>, count: nat, samples: nat, chunkSize: nat, ghost total: nat)
      requires Valid() && count <= |requested| && count <= results.Length
      requires 0 < chunkSize <= burstChunk && samples <= total <= 0xFFFF
      requires forall i :: 0 <= i < count && results[i].error == NoError ==> isInitialized && requested[i] < |channels|
      requires IsAscending(requested, results[..count])
      requires forall i :: 0 <= i < count ==> IsKeptIn(requested[i], results[i], total - samples)
      modifies this`accumulators, driver, results
      ensures Valid() && driver.failures >= old(driver.failures)
      ensures forall i :: 0 <= i < count ==> IsKeptIn(requested[i], results[i], total) && IsFailedOnly(old(results[i]), results[i])
      ensures driver.failures == old(driver.failures) ==> forall i :: 0 <= i < count ==> results[i] == old(results[i])
      ensures forall i :: count <= i < results.Length ==> results[i] == old(results[i])
    {
      hide Delivered;
      for i := 0 to count
        invariant Valid() && driver.failures >= old(driver.failures)
        invariant forall k :: 0 <= k < i ==> IsKeptIn(requested[k], results[k], total) && IsFailedOnly(old(results[k]), results[k])
        invariant forall k :: i <= k < count ==> IsKeptIn(requested[k], results[k], total - samples)
        invariant forall k :: i <= k < results.Length ==> results[k] == old(results[k])
        invariant driver.failures == old(driver.failures) ==> forall k :: 0 <= k < i ==> results[k] == old(results[k])
      {
        if results[i].error != NoError { continue; }
        var err := SampleChannel(requested[i], samples, chunkSize, total - samples);
        forall k | 0 <= k < count && k != i && results[k].error == NoError
          ensures IsKeptIn(requested[k], results[k], if k < i then total else total - samples)
        {
          assert old(results[..count])[k] == old(results[k]) && old(results[..count])[i] == old(results[i]);
          IdsDiffer(channels, requested[k], requested[i]);
        }
        if err < 0 {
          MarkError(results, i, err);
        }
      }
    }

    ghost predicate IsKeptIn(channel: nat, r: AdcSample, level: nat)
      reads this, driver
    {
      IsKept(channels, accumulators, driver.heard, channel, r, level)
    }

    /** volts := mean of the conversions, scaled, for every good entry. */
    method ResolveResults(requested: seq<nat>, results: array<AdcSample>, count: nat, samples: nat)
      requires Valid() && count <= |requested| && count <= results.Length && 0 < samples
      requires forall i :: 0 <= i < count && results[i].error == NoError ==> isInitialized && requested[i] < |channels|
      requires forall i :: 0 <= i < count ==> IsKeptIn(requested[i], results[i], samples)
      modifies results
      ensures forall i :: 0 <= i < count && old(results[i]).error == NoError ==>
        && results[i] == old(results[i]).(volts := Scaled(accumulators[requested[i]], scale[requested[i]], samples))
        && results[i].volts * samples as real == accumulators[requested[i]] as real * scale[requested[i]]
      ensures forall i :: 0 <= i < results.Length && (count <= i || old(results[i]).error != NoError) ==> results[i] == old(results[i])
    {
      hide Scaled, HasDistinctIds, IsIndexed, IsKept;
      for i := 0 to count
        invariant forall k :: 0 <= k < i && old(results[k]).error == NoError ==>
          && results[k] == old(results[k]).(volts := Scaled(accumulators[requested[k]], scale[requested[k]], samples))
          && results[k].volts * samples as real == accumulators[requested[k]] as real * scale[requested[k]]
        invariant forall k :: 0 <= k < results.Length && (i <= k || old(results[k]).error != NoError) ==> results[k] == old(results[k])
      {
        if results[i].error != NoError { continue; }
        ScaledTimesSamples(accumulators[requested[i]], scale[requested[i]], samples);
        results[i] := results[i].(volts := Scaled(accumulators[requested[i]], scale[requested[i]], samples));
      }
    }

    /** What an entry of a request holds before anything is sampled. */
    ghost function FreshResult(requested: seq<nat>, i: nat): AdcSample
      requires i < |requested|
      reads this`isInitialized
    {
      if !IsAccepted(requested, |channels|, i) then AdcSample(0.0, ChannelOutOfRange, -EINVAL)
      else if !isInitialized then AdcSample(0.0, DriverError, -ENODEV)
      else AdcSample(0.0, NoError, 0)
    }

    /** Resets the results and the accumulators of a request and marks the entries that cannot be served. */
    method ValidateRequest(requested: seq<nat>, results: array<AdcSample>) returns (count: nat)
      requires Valid()
      modifies this`accumulators, results
      ensures Valid() && count == (if |requested| < results.Length then |requested| else results.Length)
      ensures |accumulators| == |old(accumulators)|
      ensures forall i :: 0 <= i < count ==> results[i] == FreshResult(requested, i)
      ensures forall i :: 0 <= i < count && results[i].error == NoError ==>
        requested[i] < |accumulators| && accumulators[requested[i]] == 0
      ensures forall i :: count <= i < results.Length ==> results[i] == old(results[i])
    {
      hide HasDistinctIds, IsIndexed;
      count := if |requested| < results.Length then |requested| else results.Length;
      var lastChannel := -1;
      for i := 0 to count
        invariant Valid() && |accumulators| == |old(accumulators)|
        invariant -1 <= lastChannel && (lastChannel >= 0 ==> exists j :: 0 <= j < i && requested[j] == lastChannel < |channels|)
        invariant forall j :: 0 <= j < i && requested[j] < |channels| ==> requested[j] <= lastChannel
        invariant forall j :: 0 <= j < i ==> results[j] == FreshResult(requested, j)
        invariant forall j :: 0 <= j < i && results[j].error == NoError ==>
          requested[j] < |accumulators| && accumulators[requested[j]] == 0
        invariant forall j :: count <= j < results.Length ==> results[j] == old(results[j])
      {
        results[i] := AdcSample(0.0, NoError, 0);
        var channel := requested[i];
        assert IsAccepted(requested, |channels|, i) <==> lastChannel < channel < |channels|;
        if channel >= |channels| || channel <= lastChannel {
          results[i] := results[i].(error := ChannelOutOfRange, errnoValue := -EINVAL);
          continue;
        }
        lastChannel := channel;
        if !isInitialized {
          MarkError(results, i, -ENODEV);
          continue;
        }
        accumulators := accumulators[channel := 0];
      }
    }

    /** The conversions asked for, clamped to what a request may ask for. */
    function Clamped(samples: nat): (r: nat)
      requires Valid()
      reads this
      ensures 1 <= r <= samplesMax && (1 <= samples <= samplesMax ==> r == samples)
      ensures (samples < 1 ==> r == 1) && (samplesMax < samples ==> r == samplesMax)
    {
      if samples < 1 then 1 else if samplesMax < samples then samplesMax else samples
    }

    /** A good result is the scaled mean of exactly `n` conversions, all that the driver delivered of that channel. */
    ghost predicate IsMean(channel: nat, r: AdcSample, n: nat)
      requires 0 < n
      reads this, driver
    {
      && isInitialized && channel < |channels| && channel < |scale| && channels[channel].id < WIDTH
      && var heard := driver.heard[channels[channel].id];
      |heard| == n && r.volts * n as real == Sum(heard) as real * scale[channel]
    }

    /** An entry is rejected, failed, or the mean of `n` conversions. */
    ghost predicate IsServed(requested: seq<nat>, i: nat, r: AdcSample, n: nat)
      requires i < |requested| && 0 < n
      reads this, driver
    {
      if !isInitialized || !IsAccepted(requested, |channels|, i) then r == FreshResult(requested, i)
      else if r.error == NoError then r.errnoValue == 0 && IsMean(requested[i], r, n)
      else IsMarked(r) && r.volts == 0.0
    }

    lemma StartsLevel(requested: seq<nat>, rs: seq<AdcSample>)
      requires Valid() && |rs| <= |requested| && forall i :: 0 <= i < |rs| ==> rs[i] == FreshResult(requested, i)
      requires driver.heard == seq(WIDTH, i => [])
      requires forall i :: 0 <= i < |rs| && rs[i].error == NoError ==>
        requested[i] < |accumulators| && accumulators[requested[i]] == 0
      ensures forall i :: 0 <= i < |rs| && rs[i].error == NoError ==> isInitialized && requested[i] < |channels|
      ensures AreKept(channels, accumulators, driver.heard, requested, rs, 0) && IsAscending(requested, rs)
    {
    }

    method MarkAll(results: array<AdcSample>, count: nat, err: int)
      requires count <= results.Length && IsTimeout(err)
      modifies results
      ensures forall i :: 0 <= i < count ==> results[i].error != NoError && IsFailedOnly(old(results[i]), results[i])
      ensures forall i :: count <= i < results.Length ==> results[i] == old(results[i])
    {
      for i := 0 to count
        invariant forall k :: 0 <= k < i ==> results[k].error != NoError && IsFailedOnly(old(results[k]), results[k])
        invariant forall k :: i <= k < results.Length ==> results[k] == old(results[k])
      {
        if results[i].error == NoError {
          MarkError(results, i, err);
        }
      }
    }

    /**
     The entries of a request brought to `samples` conversions each, or marked. With scans and without failures it
     takes no more driver calls than one channel alone would; a scan that timed out leaves no entry good.
     */
    method Convert(requested: seq<nat>, results: array<AdcSample>, count: nat, samples: nat) returns (ghost scanErr: int)
      requires Valid() && count <= |requested| && count <= results.Length && 0 < samples <= samplesMax
      requires forall i :: 0 <= i < count && results[i].error == NoError ==> isInitialized && requested[i] < |channels|
      requires AreKept(channels, accumulators, driver.heard, requested, results[..count], 0) && IsAscending(requested, results[..count])
      modifies this`accumulators, driver, results
      ensures Valid() && driver.failures >= old(driver.failures)
      ensures forall i :: 0 <= i < count ==> IsKeptIn(requested[i], results[i], samples) && IsFailedOnly(old(results[i]), results[i])
      ensures driver.failures == old(driver.failures) ==> forall i :: 0 <= i < count ==> results[i] == old(results[i])
      ensures forall i :: count <= i < results.Length ==> results[i] == old(results[i])
      ensures IsTimeout(scanErr) ==> forall i :: 0 <= i < count ==> results[i].error != NoError
      ensures hasMultiChannel && hasBurst && driver.failures == old(driver.failures) ==>
        driver.served <= old(driver.served) + Chunks(samples, burstChunk)
    {
      hide Chunks;
      var remaining := samples;
      scanErr := 0;
      if hasMultiChannel && hasBurst {
        var err, left := SampleScan(requested, results, count, remaining, samples);
        scanErr := err;
        remaining := left;
        if err == -ETIMEDOUT || err == -EBUSY {
          MarkAll(results, count, err);
          remaining := 0;
        }
      }
      if remaining > 0 {
        SampleEach(requested, results, count, remaining, if hasBurst then burstChunk else 1, samples);
      }
    }

    /** Serves a request: every entry is rejected, failed, or the mean of its conversions. */
    method Sample(requested: seq<nat>, results: array<AdcSample>, samplesAsked: nat)
      requires Valid()
      modifies this`accumulators, driver, results
      ensures Valid()
      ensures forall i :: 0 <= i < |requested| && i < results.Length ==> IsServed(requested, i, results[i], Clamped(samplesAsked))
      ensures isInitialized && driver.failures == old(driver.failures) ==>
        forall i :: 0 <= i < |requested| && i < results.Length && IsAccepted(requested, |channels|, i) ==> results[i].error == NoError
      ensures forall i :: |requested| <= i < results.Length ==> results[i] == old(results[i])
      ensures forall i :: 0 <= i < |requested| && i < results.Length ==> (results[i].error == ChannelOutOfRange <==>
        |channels| <= requested[i] || exists j :: 0 <= j < i && requested[i] <= requested[j] < |channels|)
    {
      hide Scaled, HasDistinctIds, IsIndexed, AreKept, IsAscending, IsAccepted, FreshResult, IsFailedOnly, IsServed, IsKeptIn;
      driver.heard := seq(WIDTH, i => []);
      var samples := Clamped(samplesAsked);
      var count := ValidateRequest(requested, results);
      ghost var validated := results[..count];
      StartsLevel(requested, validated);
      assert forall i :: 0 <= i < count ==> validated[i] == results[i];
      ghost var _ := Convert(requested, results, count, samples);
      ghost var converted := results[..count];
      forall i | 0 <= i < count
        ensures converted[i] == results[i] && (results[i].error == NoError ==> validated[i] == results[i])
      {
        OnlyGoodStayGood(validated[i], results[i]);
      }
      ResolveResults(requested, results, count, samples);
      forall i | 0 <= i < count
        ensures IsServed(requested, i, results[i], samples)
        ensures results[i].error == ChannelOutOfRange <==>
          |channels| <= requested[i] || exists j :: 0 <= j < i && requested[i] <= requested[j] < |channels|
        ensures isInitialized && IsAccepted(requested, |channels|, i) && converted[i] == FreshResult(requested, i) ==>
          results[i].error == NoError
      {
        EntryIsServed(requested, i, converted[i], results[i], samples);
      }
    }

    /** An entry after the conversions and after the results were scaled. */
    lemma EntryIsServed(requested: seq<nat>, i: nat, converted: AdcSample, r: AdcSample, n: nat)
      requires Valid() && i < |requested| && 0 < n
      requires IsFailedOnly(FreshResult(requested, i), converted) && IsKeptIn(requested[i], converted, n)
      requires if converted.error == NoError
        then requested[i] < |accumulators| && requested[i] < |scale| && r == converted.(volts := r.volts)
          && r.volts * n as real == accumulators[requested[i]] as real * scale[requested[i]]
        else r == converted
      ensures IsServed(requested, i, r, n)
      ensures r.error == ChannelOutOfRange <==>
        |channels| <= requested[i] || exists j :: 0 <= j < i && requested[i] <= requested[j] < |channels|
      ensures isInitialized && IsAccepted(requested, |channels|, i) && converted == FreshResult(requested, i) ==> r.error == NoError
    {
      hide IsAccepted, IsTimeout, Sum, HasDistinctIds, IsIndexed;
      AcceptedUnless(requested, |channels|, i);
    }
  }

  lemma OnlyGoodStayGood(before: AdcSample, after: AdcSample)
    requires IsFailedOnly(before, after)
    ensures after.error == NoError ==> after == before
  {
  }

  lemma AcceptedUnless(requested: seq<nat>, channelCount: nat, i: nat)
    requires i < |requested|
    ensures IsAccepted(requested, channelCount, i) <==>
      !(channelCount <= requested[i] || exists j :: 0 <= j < i && requested[i] <= requested[j] < channelCount)
  {
  }

  /** The entry is marked with an error of the driver, timeouts told from other errors. */
  ghost predicate IsMarked(r: AdcSample)
  {
    r.errnoValue < 0 && r.error == if IsTimeout(r.errnoValue) then Timeout else DriverError
  }

  /** An entry is as it was, or was good and is marked with an error. */
  ghost predicate IsFailedOnly(before: AdcSample, after: AdcSample)
  {
    after == before || (before.error == NoError && IsMarked(after) && after.volts == before.volts)
  }

  ghost predicate IsAscending(requested: seq<nat>, rs: seq<AdcSample>)
    requires |rs| <= |requested|
  {
    forall i, j :: 0 <= i < j < |rs| && rs[i].error == NoError && rs[j].error == NoError ==> requested[i] < requested[j]
  }

  lemma IdsDiffer(channels: seq<Channel>, c: nat, d: nat)
    requires HasDistinctIds(channels) && c < |channels| && d < |channels| && c != d
    ensures channels[c].id != channels[d].id
  {
  }

  lemma NothingRequested(channels: seq<Channel>, acc: seq<u32>, heard: Heard, requested: seq<nat>, rs: seq<AdcSample>, level: nat)
    requires |rs| <= |requested| && AreRequested(channels, Ids(0), requested, rs)
    ensures AreKept(channels, acc, heard, requested, rs, level)
  {
  }

  /** The calls that `n` samplings take with up to `burst` of them in one. */
  function Chunks(n: nat, burst: nat): nat
    requires 0 < burst
  {
    (n + burst - 1) / burst
  }

  lemma OneChunk(n: nat, burst: nat)
    requires 0 < n && 0 < burst
    ensures Chunks(n, burst) == 1 + Chunks(if n < burst then 0 else n - burst, burst)
  {
    var rest := if n < burst then 0 else n - burst;
    var q := (rest + burst - 1) / burst;
    if n < burst {
      DivUnique(n + burst - 1, burst, 1, n - 1);
      DivUnique(burst - 1, burst, 0, burst - 1);
    } else {
      DivUnique(n + burst - 1, burst, q + 1, (rest + burst - 1) % burst);
    }
  }

  lemma ChunkFits(chunk: nat, width: nat, burst: nat, channelCount: nat)
    requires chunk <= burst && width <= channelCount
    ensures chunk * width <= channelCount * burst
  {
    assert chunk * width <= burst * width <= burst * channelCount;
  }

  lemma RoundFits(s: nat, n: nat, width: nat)
    requires s < n
    ensures s * width + width == (s + 1) * width <= n * width
  {
  }
}
