/** Conversions as the driver delivers them, and the sums the accumulators keep of them. */
module AdcSamples {
  import opened Arithmetic
  import opened Bytes
  import opened ChannelMask

  /** A conversion of up to 16 bits. */
  type u16 = x: int | 0 <= x < 0x1_0000

  /** The conversions of each identifier that the driver delivered since the request began. */
  type Heard = h: seq<seq<u16>> | |h| == WIDTH witness seq(WIDTH, i => [])

  function Sum(xs: seq<u16>): nat
  {
    if xs == [] then 0 else Sum(xs[..|xs| - 1]) + xs[|xs| - 1]
  }

  lemma SumOneMore(xs: seq<u16>, x: u16)
    ensures Sum(xs + [x]) == Sum(xs) + x
  {
    assert (xs + [x])[..|xs|] == xs;
  }

  /** No sum of up to 65535 conversions overflows 32 bits. */
  lemma {:induction false} SumFits(xs: seq<u16>)
    ensures Sum(xs) <= 0xFFFF * |xs|
    ensures |xs| <= 0xFFFF ==> Sum(xs) < 0x1_0000_0000
  {
    if xs != [] {
      SumFits(xs[..|xs| - 1]);
    }
  }

  lemma {:induction false} SumIsBetween(xs: seq<u16>, low: int, high: int)
    requires forall x :: x in xs ==> low <= x <= high
    ensures |xs| * low <= Sum(xs) <= |xs| * high
  {
    if xs != [] {
      var front, last := xs[..|xs| - 1], xs[|xs| - 1];
      assert last in xs && forall x :: x in front ==> x in xs;
      SumIsBetween(front, low, high);
      OneMoreTime(|front|, low);
      OneMoreTime(|front|, high);
    }
  }

  lemma OneMoreTime(n: nat, x: int)
    ensures (n + 1) * x == n * x + x
  {
  }

  /**
   What a driver delivered with `data`: one sample per selected identifier per sampling, in ascending order of the
   identifiers, so sample `k` is of identifier `k` modulo their number.
   */
  function Delivered(heard: Heard, ids: seq<nat>, data: seq<u16>): Heard
    requires ids != [] && forall q :: 0 <= q < |ids| ==> ids[q] < WIDTH
  {
    if data == [] then heard
    else
      var k := |data| - 1;
      Noted(Delivered(heard, ids, data[..k]), ids[k % |ids|], data[k])
  }

  function Noted(heard: Heard, id: nat, x: u16): Heard
    requires id < WIDTH
  {
    heard[id := heard[id] + [x]]
  }

  /** Sample `start` is the first one of round `s`. */
  predicate IsRoundStart(start: nat, s: nat, ids: seq<nat>)
  {
    start == s * |ids|
  }

  lemma OneMoreDelivered(heard: Heard, ids: seq<nat>, data: seq<u16>, s: nat, start: nat, r: nat)
    requires IsRoundStart(start, s, ids) && r < |ids| && (forall q :: 0 <= q < |ids| ==> ids[q] < WIDTH) && start + r < |data|
    ensures Delivered(heard, ids, data[..start + r + 1]) ==
      Noted(Delivered(heard, ids, data[..start + r]), ids[r], data[start + r])
  {
    var k := start + r;
    DivUnique(k, |ids|, s, r);
    assert data[..k + 1][..k] == data[..k];
  }

  lemma NoneDelivered(heard: Heard, ids: seq<nat>, data: seq<u16>)
    requires ids != [] && forall q :: 0 <= q < |ids| ==> ids[q] < WIDTH
    ensures Delivered(heard, ids, data[..0]) == heard
  {
  }

  lemma {:induction false} DeliveredElsewhere(heard: Heard, ids: seq<nat>, data: seq<u16>, id: nat)
    requires ids != [] && (forall q :: 0 <= q < |ids| ==> ids[q] < WIDTH) && id < WIDTH && id !in ids
    ensures Delivered(heard, ids, data)[id] == heard[id]
  {
    if data != [] {
      DeliveredElsewhere(heard, ids, data[..|data| - 1], id);
    }
  }

  /** The accumulators hold the sums of `level` conversions each, and of one more for the first `r` identifiers. */
  ghost predicate InStep(acc: seq<u32>, local: seq<nat>, heard: Heard, ids: seq<nat>, r: nat, level: nat)
    requires |local| == WIDTH
  {
    forall q :: 0 <= q < |ids| ==>
      ids[q] < WIDTH && local[ids[q]] < |acc|
      && acc[local[ids[q]]] == Sum(heard[ids[q]]) && |heard[ids[q]]| == level + if q < r then 1 else 0
  }

  /** The channels of the identifiers are different ones. */
  ghost predicate IsInjective(local: seq<nat>, ids: seq<nat>)
    requires |local| == WIDTH
  {
    forall p, q :: 0 <= p < q < |ids| ==>
      ids[p] < WIDTH && ids[q] < WIDTH && ids[p] != ids[q] && local[ids[p]] != local[ids[q]]
  }

  lemma AddedInStep(acc: seq<u32>, local: seq<nat>, heard: Heard, ids: seq<nat>, r: nat, level: nat, x: u16)
    requires |local| == WIDTH && r < |ids| && level < 0xFFFF
    requires InStep(acc, local, heard, ids, r, level) && IsInjective(local, ids)
    ensures ids[r] < WIDTH && local[ids[r]] < |acc|
    ensures acc[local[ids[r]]] + x < 0x1_0000_0000
    ensures InStep(acc[local[ids[r]] := acc[local[ids[r]]] + x], local, Noted(heard, ids[r], x), ids, r + 1, level)
  {
    var id := ids[r];
    SumOneMore(heard[id], x);
    SumFits(heard[id] + [x]);
    var after := acc[local[id] := acc[local[id]] + x];
    forall q | 0 <= q < |ids|
      ensures after[local[ids[q]]] == Sum(Noted(heard, id, x)[ids[q]])
      ensures |Noted(heard, id, x)[ids[q]]| == level + if q < r + 1 then 1 else 0
    {
      if q < r {
        assert ids[q] != ids[r];
      } else if r < q {
        assert ids[r] != ids[q];
      }
    }
  }

  /** A full round is the next level. */
  lemma RoundDone(acc: seq<u32>, local: seq<nat>, heard: Heard, ids: seq<nat>, level: nat)
    requires |local| == WIDTH && InStep(acc, local, heard, ids, |ids|, level)
    ensures InStep(acc, local, heard, ids, 0, level + 1)
  {
  }
}
