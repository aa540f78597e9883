/** The bits of a 32-bit channel mask, as the identifiers it selects in ascending order. */
module ChannelMask {
  import opened Listing

  const WIDTH: nat := 32

  /** BIT(i) */
  function Bit(i: nat): bv32
    requires i < WIDTH
  {
    match i
    case 0 => 0x1 case 1 => 0x2 case 2 => 0x4 case 3 => 0x8
    case 4 => 0x10 case 5 => 0x20 case 6 => 0x40 case 7 => 0x80
    case 8 => 0x100 case 9 => 0x200 case 10 => 0x400 case 11 => 0x800
    case 12 => 0x1000 case 13 => 0x2000 case 14 => 0x4000 case 15 => 0x8000
    case 16 => 0x1_0000 case 17 => 0x2_0000 case 18 => 0x4_0000 case 19 => 0x8_0000
    case 20 => 0x10_0000 case 21 => 0x20_0000 case 22 => 0x40_0000 case 23 => 0x80_0000
    case 24 => 0x100_0000 case 25 => 0x200_0000 case 26 => 0x400_0000 case 27 => 0x800_0000
    case 28 => 0x1000_0000 case 29 => 0x2000_0000 case 30 => 0x4000_0000 case _ => 0x8000_0000
  }

  function Half(w: bv32): bv32
  {
    w >> 1
  }

  predicate IsOdd(w: bv32)
  {
    w & 1 == 1
  }

  /** `w & (w - 1)` */
  function ClearLowest(w: bv32): bv32
  {
    w & (w - 1)
  }

  function Or(w: bv32, v: bv32): bv32
  {
    w | v
  }

  function And(w: bv32, v: bv32): bv32
  {
    w & v
  }

  /** Word `w` selects identifier `i`. */
  predicate Selects(w: bv32, i: nat)
    decreases i
  {
    if i == 0 then IsOdd(w) else Selects(Half(w), i - 1)
  }

  lemma HalfOfBit(i: nat)
    requires 0 < i < WIDTH
    ensures Half(Bit(i)) == Bit(i - 1) && !IsOdd(Bit(i))
  {
  }

  lemma HalfOfOr(w: bv32, v: bv32)
    ensures Half(Or(w, v)) == Or(Half(w), Half(v))
    ensures IsOdd(Or(w, v)) <==> IsOdd(w) || IsOdd(v)
  {
  }

  lemma HalfOfAnd(w: bv32, v: bv32)
    ensures Half(And(w, v)) == And(Half(w), Half(v))
    ensures IsOdd(And(w, v)) <==> IsOdd(w) && IsOdd(v)
  {
  }

  lemma IsZeroIff(w: bv32)
    ensures w == 0 <==> Half(w) == 0 && !IsOdd(w)
  {
  }

  lemma AndZero(w: bv32)
    ensures And(w, 0) == 0
  {
  }

  lemma HalfOfClear(w: bv32)
    ensures IsOdd(w) ==> Half(ClearLowest(w)) == Half(w) && !IsOdd(ClearLowest(w))
    ensures !IsOdd(w) ==> Half(ClearLowest(w)) == ClearLowest(Half(w)) && !IsOdd(ClearLowest(w))
  {
  }

  lemma ClearIsSmaller(w: bv32)
    requires w != 0
    ensures ClearLowest(w) < w
  {
  }

  lemma HalfIsSmaller(w: bv32)
    requires w != 0
    ensures Half(w) < w && (Half(w) == 0 ==> IsOdd(w))
  {
  }

  lemma Zeroes(w: bv32)
    ensures Half(0) == 0 && !IsOdd(0) && Half(Bit(0)) == 0 && IsOdd(Bit(0)) && Or(w, 0) == w
  {
  }

  /** std::countr_zero() */
  function CountrZero(w: bv32): nat
    requires w != 0
    decreases w
  {
    HalfIsSmaller(w);
    if IsOdd(w) then 0 else CountrZero(Half(w)) + 1
  }

  /** The identifiers in the order that `bits &= bits - 1` takes them. */
  function Ids(w: bv32): seq<nat>
    decreases w
  {
    if w == 0 then [] else
      ClearIsSmaller(w);
      [CountrZero(w)] + Ids(ClearLowest(w))
  }

  lemma IdsFromLowest(w: bv32)
    requires w != 0
    ensures Ids(w) == [CountrZero(w)] + Ids(ClearLowest(w)) && |Ids(ClearLowest(w))| == |Ids(w)| - 1
  {
    hide CountrZero, ClearLowest;
  }

  lemma NoIdsOfZeroOnly(w: bv32)
    ensures Ids(w) == [] <==> w == 0
  {
    hide CountrZero, ClearLowest;
  }

  lemma {:induction false} SelectsNone(j: nat)
    ensures !Selects(0, j)
  {
    hide Half, IsOdd;
    Zeroes(0);
    if j > 0 {
      SelectsNone(j - 1);
    }
  }

  /** Setting a bit adds that identifier and no other. */
  lemma {:induction false} SelectsWithBit(w: bv32, i: nat, j: nat)
    requires i < WIDTH
    ensures Selects(Or(w, Bit(i)), j) <==> Selects(w, j) || j == i
    decreases i
  {
    hide Half, IsOdd, Or, Bit;
    HalfOfOr(w, Bit(i));
    Zeroes(Half(w));
    if i > 0 {
      HalfOfBit(i);
      if j > 0 {
        SelectsWithBit(Half(w), i - 1, j - 1);
      }
    }
  }

  /** Testing a bit tells whether the identifier is selected. */
  lemma {:induction false} TestsBit(w: bv32, i: nat)
    requires i < WIDTH
    ensures And(w, Bit(i)) != 0 <==> Selects(w, i)
    decreases i
  {
    hide Half, IsOdd, And, Bit;
    HalfOfAnd(w, Bit(i));
    IsZeroIff(And(w, Bit(i)));
    Zeroes(0);
    AndZero(Half(w));
    if i > 0 {
      HalfOfBit(i);
      TestsBit(Half(w), i - 1);
    }
  }

  /** A mask of two bits selects those two at most. */
  lemma IdsOfBits(i: nat, j: nat)
    requires i < WIDTH && j < WIDTH
    ensures var ids := Ids(Or(Bit(i), Bit(j))); ids != [] && |ids| <= 2 && forall x :: x in ids <==> x == i || x == j
    ensures i != j ==> |Ids(Or(Bit(i), Bit(j)))| == 2
  {
    hide Ids, Selects, Bit, Or;
    var w := Or(Bit(i), Bit(j));
    IdsOfBit(i);
    IdsAreSelected(Bit(i));
    IdsAreSelected(w);
    forall x: nat ensures x in Ids(w) <==> x == i || x == j {
      SelectsWithBit(Bit(i), j, x);
      assert Selects(Bit(i), x) <==> x in Ids(Bit(i));
    }
    assert i in Ids(w);
    assert forall x :: x in Ids(w) ==> x in [i, j];
    DistinctAmong(Ids(w), [i, j]);
    if i != j {
      DistinctAmong([i, j], Ids(w));
    }
  }

  lemma {:induction false} LowestIsSelected(w: bv32)
    requires w != 0
    ensures Selects(w, CountrZero(w))
    decreases w
  {
    hide Half, IsOdd;
    HalfIsSmaller(w);
    if !IsOdd(w) {
      LowestIsSelected(Half(w));
    }
  }

  lemma {:induction false} NothingIsLower(w: bv32, j: nat)
    requires w != 0 && Selects(w, j)
    ensures CountrZero(w) <= j
    decreases j
  {
    hide Half, IsOdd;
    HalfIsSmaller(w);
    if !IsOdd(w) {
      NothingIsLower(Half(w), j - 1);
    }
  }

  /** `w & (w - 1)` takes the lowest identifier away and no other. */
  lemma {:induction false} ClearTakesLowest(w: bv32, j: nat)
    requires w != 0
    ensures Selects(ClearLowest(w), j) <==> Selects(w, j) && j != CountrZero(w)
    decreases j
  {
    hide Half, IsOdd, ClearLowest;
    HalfIsSmaller(w);
    HalfOfClear(w);
    if !IsOdd(w) && j > 0 {
      ClearTakesLowest(Half(w), j - 1);
    }
  }

  /** The loop over the bits visits exactly the selected identifiers, each once, in ascending order. */
  lemma {:induction false} IdsAreSelected(w: bv32)
    ensures forall j: nat :: j in Ids(w) <==> Selects(w, j)
    ensures forall a, b :: 0 <= a < b < |Ids(w)| ==> Ids(w)[a] < Ids(w)[b]
    decreases w
  {
    hide ClearLowest, CountrZero, Selects;
    if w == 0 {
      forall j: nat ensures !Selects(w, j) { SelectsNone(j); }
    } else {
      ClearIsSmaller(w);
      var rest := Ids(ClearLowest(w));
      IdsAreSelected(ClearLowest(w));
      LowestIsSelected(w);
      forall j: nat ensures j in Ids(w) <==> Selects(w, j) { ClearTakesLowest(w, j); }
      forall b | 0 <= b < |rest| ensures CountrZero(w) < rest[b] {
        assert rest[b] in rest;
        ClearTakesLowest(w, rest[b]);
        NothingIsLower(w, rest[b]);
      }
    }
  }

  lemma {:induction false} LowestOfBit(i: nat)
    requires i < WIDTH
    ensures Bit(i) != 0 && CountrZero(Bit(i)) == i
  {
    hide Half, IsOdd, Bit;
    Zeroes(0);
    if i > 0 {
      HalfOfBit(i);
      LowestOfBit(i - 1);
    }
  }

  lemma ClearOfBit(i: nat)
    requires i < WIDTH
    ensures ClearLowest(Bit(i)) == 0
  {
  }

  /** A mask of one bit selects one identifier. */
  lemma IdsOfBit(i: nat)
    requires i < WIDTH
    ensures Ids(Bit(i)) == [i]
  {
    hide Bit, ClearLowest, CountrZero;
    LowestOfBit(i);
    ClearOfBit(i);
  }
}
