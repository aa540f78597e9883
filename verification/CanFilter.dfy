/** CAN identifiers and the filters that accept them, as 32-bit words. */
module CanFilter {
  import opened ChannelMask

  const STD_ID_MASK: bv32 := 0x7FF
  const EXT_ID_MASK: bv32 := 0x1FFF_FFFF
  const EXTENDED_KEY: bv32 := 0x8000_0000

  function WidthMask(isExtended: bool): bv32
  {
    if isExtended then EXT_ID_MASK else STD_ID_MASK
  }

  /** No bit of `x` is outside `mask`. */
  predicate Within(x: bv32, mask: bv32)
  {
    x & !mask == 0
  }

  function Masked(x: bv32, mask: bv32): bv32
  {
    x & mask
  }

  function Difference(x: bv32, y: bv32): bv32
  {
    x ^ y
  }

  /** `x` and `y` have the same bits under `mask`. */
  predicate Agree(x: bv32, y: bv32, mask: bv32)
  {
    Masked(Difference(x, y), mask) == 0
  }

  function KeyWord(x: bv32, isExtended: bool): bv32
  {
    if isExtended then x | EXTENDED_KEY else x
  }

  /** The bits of `a` under `m` and those of `b` under `n`. */
  function Common(a: bv32, m: bv32, b: bv32, n: bv32): bv32
  {
    (a & m) | (b & n)
  }

  datatype CanId = CanId(id: bv32, isExtended: bool) {
    predicate IsValid()
    {
      Within(id, WidthMask(isExtended))
    }

    /** A word for each identifier: extended ones have the top bit set, which no identifier uses. */
    function Key(): bv32
    {
      KeyWord(id, isExtended)
    }
  }

  datatype Filter = Filter(id: bv32, mask: bv32, isExtended: bool) {
    predicate IsValid()
    {
      Within(id, WidthMask(isExtended)) && Within(mask, WidthMask(isExtended))
    }

    predicate IsExact()
    {
      mask == WidthMask(isExtended)
    }

    function Normalized(): Filter
    {
      Filter(Masked(id, mask), mask, isExtended)
    }

    predicate Matches(canId: CanId)
    {
      canId.isExtended == isExtended && Agree(canId.id, id, mask)
    }

    predicate Overlaps(other: Filter)
    {
      other.isExtended == isExtended && Agree(other.id, id, Masked(mask, other.mask))
    }
  }

  // ---- Words ------------------------------------------------------------------------------------

  lemma StdHasNoTopBit(x: bv32)
    requires Within(x, STD_ID_MASK)
    ensures x & EXTENDED_KEY == 0
  {
  }

  lemma ExtHasNoTopBit(x: bv32)
    requires Within(x, EXT_ID_MASK)
    ensures x & EXTENDED_KEY == 0
  {
  }

  lemma TopBitTells(x: bv32, y: bv32)
    requires y & EXTENDED_KEY == 0
    ensures x | EXTENDED_KEY != y
  {
  }

  lemma TopBitIsAdded(x: bv32, y: bv32)
    requires x & EXTENDED_KEY == 0 && y & EXTENDED_KEY == 0 && x | EXTENDED_KEY == y | EXTENDED_KEY
    ensures x == y
  {
  }

  lemma KeyWordTells(x: bv32, xe: bool, y: bv32, ye: bool)
    requires x & EXTENDED_KEY == 0 && y & EXTENDED_KEY == 0 && KeyWord(x, xe) == KeyWord(y, ye)
    ensures xe == ye && x == y
  {
    if xe && ye {
      TopBitIsAdded(x, y);
    } else if xe {
      TopBitTells(x, y);
    } else if ye {
      TopBitTells(y, x);
    }
  }

  lemma CommonAgreesLeft(a: bv32, m: bv32, b: bv32, n: bv32)
    requires Agree(b, a, Masked(m, n))
    ensures Agree(Common(a, m, b, n), a, m)
  {
  }

  lemma CommonAgreesRight(a: bv32, m: bv32, b: bv32, n: bv32)
    requires Agree(b, a, Masked(m, n))
    ensures Agree(Common(a, m, b, n), b, n)
  {
  }

  lemma CommonIsWithin(a: bv32, m: bv32, b: bv32, n: bv32, w: bv32)
    requires Within(m, w) && Within(n, w)
    ensures Within(Common(a, m, b, n), w)
  {
  }

  lemma AgreeThrough(c: bv32, a: bv32, m: bv32, b: bv32, n: bv32)
    requires Agree(c, a, m) && Agree(c, b, n)
    ensures Agree(b, a, Masked(m, n))
  {
  }

  lemma AgreeIsSymmetric(a: bv32, b: bv32, m: bv32, n: bv32)
    ensures Agree(a, b, Masked(m, n)) == Agree(b, a, Masked(n, m))
  {
  }

  lemma MaskedDifference(x: bv32, a: bv32, m: bv32)
    ensures Masked(Difference(x, Masked(a, m)), m) == Masked(Difference(x, a), m)
  {
  }

  lemma MaskedTwice(a: bv32, m: bv32)
    ensures Masked(Masked(a, m), m) == Masked(a, m)
  {
  }

  lemma MaskedIsWithin(a: bv32, m: bv32, w: bv32)
    ensures Within(a, w) ==> Within(Masked(a, m), w)
  {
  }

  lemma MaskedAgrees(x: bv32, a: bv32, m: bv32)
    ensures Agree(x, Masked(a, m), m) == Agree(x, a, m)
  {
    hide Masked, Difference;
    MaskedDifference(x, a, m);
  }

  lemma DifferenceIsWithin(x: bv32, a: bv32, w: bv32)
    requires Within(x, w) && Within(a, w)
    ensures Within(Difference(x, a), w)
  {
  }

  lemma NoBitsInsideOrOutside(d: bv32, w: bv32)
    requires Masked(d, w) == 0 && Within(d, w)
    ensures d == 0
  {
  }

  lemma NoDifference(x: bv32, a: bv32)
    requires Difference(x, a) == 0
    ensures x == a
  {
  }

  lemma DifferenceFromItself(x: bv32)
    ensures Difference(x, x) == 0
  {
  }

  lemma NothingMasked(w: bv32)
    ensures Masked(0, w) == 0
  {
  }

  lemma AgreeOnWidth(x: bv32, a: bv32, w: bv32)
    requires Within(x, w) && Within(a, w)
    ensures Agree(x, a, w) <==> x == a
  {
    hide Within, Difference, Masked;
    DifferenceIsWithin(x, a, w);
    DifferenceFromItself(x);
    NothingMasked(w);
    if Agree(x, a, w) {
      NoBitsInsideOrOutside(Difference(x, a), w);
      NoDifference(x, a);
    }
  }

  // ---- Identifiers and filters ------------------------------------------------------------------

  /** The key tells all valid identifiers of both formats apart. */
  lemma KeyIsInjective(a: CanId, b: CanId)
    requires a.IsValid() && b.IsValid() && a.Key() == b.Key()
    ensures a == b
  {
    hide Within, KeyWord;
    if a.isExtended { ExtHasNoTopBit(a.id); } else { StdHasNoTopBit(a.id); }
    if b.isExtended { ExtHasNoTopBit(b.id); } else { StdHasNoTopBit(b.id); }
    KeyWordTells(a.id, a.isExtended, b.id, b.isExtended);
  }

  /** Two filters overlap exactly when some identifier of their format passes both. */
  lemma OverlapsIffCommonId(f: Filter, g: Filter)
    requires f.IsValid() && g.IsValid()
    ensures f.Overlaps(g) <==> exists c: CanId :: c.IsValid() && f.Matches(c) && g.Matches(c)
  {
    hide Within, Agree, WidthMask, Common, Masked;
    if f.Overlaps(g) {
      CommonAgreesLeft(f.id, f.mask, g.id, g.mask);
      CommonAgreesRight(f.id, f.mask, g.id, g.mask);
      CommonIsWithin(f.id, f.mask, g.id, g.mask, WidthMask(f.isExtended));
      var c := CanId(Common(f.id, f.mask, g.id, g.mask), f.isExtended);
      assert c.IsValid() && f.Matches(c) && g.Matches(c);
    }
    forall c: CanId | f.Matches(c) && g.Matches(c) ensures f.Overlaps(g) {
      MatchingFiltersOverlap(f, g, c);
    }
  }

  lemma MatchingFiltersOverlap(f: Filter, g: Filter, c: CanId)
    requires f.Matches(c) && g.Matches(c)
    ensures f.Overlaps(g)
  {
    hide Agree, Masked;
    AgreeThrough(c.id, f.id, f.mask, g.id, g.mask);
  }

  lemma OverlapIsSymmetric(f: Filter, g: Filter)
    ensures f.Overlaps(g) == g.Overlaps(f)
  {
    hide Agree, Masked;
    AgreeIsSymmetric(f.id, g.id, f.mask, g.mask);
    AgreeIsSymmetric(g.id, f.id, f.mask, g.mask);
  }

  /** Clearing the bits outside the mask changes no answer. */
  lemma NormalizedAcceptsTheSame(f: Filter, c: CanId)
    ensures f.Normalized().Matches(c) == f.Matches(c)
    ensures f.Normalized().Normalized() == f.Normalized()
  {
    hide Agree, Masked;
    MaskedAgrees(c.id, f.id, f.mask);
    MaskedTwice(f.id, f.mask);
  }

  /** A valid exact filter accepts one identifier, its own. */
  lemma ExactMatchesOnlyItself(f: Filter, c: CanId)
    requires f.IsValid() && f.IsExact() && c.IsValid()
    ensures f.Matches(c) <==> c == CanId(f.id, f.isExtended)
  {
    hide Within, Agree, WidthMask;
    if c.isExtended == f.isExtended {
      AgreeOnWidth(c.id, f.id, WidthMask(f.isExtended));
    }
  }

  // ---- Bit by bit -------------------------------------------------------------------------------

  lemma HalfOfDifference(x: bv32, y: bv32)
    ensures Half(Difference(x, y)) == Difference(Half(x), Half(y))
    ensures IsOdd(Difference(x, y)) <==> IsOdd(x) != IsOdd(y)
  {
  }

  lemma HalfOfMasked(x: bv32, m: bv32)
    ensures Half(Masked(x, m)) == Masked(Half(x), Half(m))
    ensures IsOdd(Masked(x, m)) <==> IsOdd(x) && IsOdd(m)
  {
  }

  lemma {:induction false} SelectedByDifference(x: bv32, y: bv32, i: nat)
    ensures Selects(Difference(x, y), i) <==> Selects(x, i) != Selects(y, i)
    decreases i
  {
    hide Half, IsOdd, Difference;
    HalfOfDifference(x, y);
    if i > 0 { SelectedByDifference(Half(x), Half(y), i - 1); }
  }

  lemma {:induction false} SelectedByMasked(x: bv32, m: bv32, i: nat)
    ensures Selects(Masked(x, m), i) <==> Selects(x, i) && Selects(m, i)
    decreases i
  {
    hide Half, IsOdd, Masked;
    HalfOfMasked(x, m);
    if i > 0 { SelectedByMasked(Half(x), Half(m), i - 1); }
  }

  lemma IsZeroIffNothingSelected(w: bv32)
    ensures w == 0 <==> forall i: nat :: !Selects(w, i)
  {
    hide Selects, CountrZero;
    forall i: nat ensures !Selects(0, i) { SelectsNone(i); }
    if w != 0 {
      LowestIsSelected(w);
    }
  }

  /** A filter accepts an identifier of its format exactly when every bit of its mask has the same value in both. */
  lemma MatchesIffBitsAgree(f: Filter, c: CanId)
    ensures f.Matches(c) <==>
      c.isExtended == f.isExtended && forall i: nat :: Selects(f.mask, i) ==> (Selects(c.id, i) <==> Selects(f.id, i))
  {
    hide Selects, Masked, Difference;
    var difference := Difference(c.id, f.id);
    var d := Masked(difference, f.mask);
    IsZeroIffNothingSelected(d);
    if d == 0 {
      forall i: nat | Selects(f.mask, i) ensures Selects(c.id, i) <==> Selects(f.id, i) {
        SelectedByMasked(difference, f.mask, i);
        SelectedByDifference(c.id, f.id, i);
      }
    } else {
      var i: nat :| Selects(d, i);
      SelectedByMasked(difference, f.mask, i);
      SelectedByDifference(c.id, f.id, i);
    }
  }

  /** Normalizing clears exactly the bits outside the mask and keeps mask and format. */
  lemma NormalizedClearsOutside(f: Filter)
    ensures f.Normalized().mask == f.mask && f.Normalized().isExtended == f.isExtended
    ensures forall i: nat :: Selects(f.Normalized().id, i) <==> Selects(f.id, i) && Selects(f.mask, i)
    ensures f.Normalized().id & !f.mask == 0
  {
    hide Selects;
    forall i: nat ensures Selects(f.Normalized().id, i) <==> Selects(f.id, i) && Selects(f.mask, i) {
      SelectedByMasked(f.id, f.mask, i);
    }
    NothingOutside(f.id, f.mask);
  }

  lemma NothingOutside(x: bv32, m: bv32)
    ensures Masked(x, m) & !m == 0
  {
  }

  /** What fits a format are the numbers below 2^11 or 2^29. */
  lemma ValidIffFits(x: bv32, isExtended: bool)
    ensures Within(x, WidthMask(isExtended)) <==> x < if isExtended then 0x2000_0000 else 0x800
  {
  }

  ghost predicate AcceptsTheSame(f: Filter, g: Filter)
  {
    forall c: CanId :: c.IsValid() ==> (f.Matches(c) <==> g.Matches(c))
  }

  /** An identifier that `a` under mask `n` accepts, and that differs from `a` in the bits that `m` has more. */
  function Flipped(a: bv32, m: bv32, n: bv32): bv32
  {
    a ^ (m & !n)
  }

  lemma FlippedIsWithin(a: bv32, m: bv32, n: bv32, w: bv32)
    requires Within(a, w) && Within(m, w)
    ensures Within(Flipped(a, m, n), w)
  {
  }

  lemma FlippedAgrees(a: bv32, b: bv32, m: bv32, n: bv32)
    requires Agree(a, b, n)
    ensures Agree(Flipped(a, m, n), b, n)
  {
  }

  lemma FlippedDiffers(a: bv32, m: bv32, n: bv32)
    requires Agree(Flipped(a, m, n), a, m)
    ensures Masked(m, n) == m
  {
  }

  lemma AgreesWithItself(a: bv32, m: bv32)
    ensures Agree(a, a, m)
  {
    hide Masked, Difference;
    DifferenceFromItself(a);
    NothingMasked(m);
  }

  lemma MasksAreEqual(m: bv32, n: bv32)
    requires Masked(m, n) == m && Masked(n, m) == n
    ensures m == n
  {
  }

  lemma AgreeingAreMaskedAlike(a: bv32, b: bv32, m: bv32)
    requires Agree(a, b, m)
    ensures Masked(a, m) == Masked(b, m)
  {
  }

  /** When `g` accepts all that `f` accepts, it compares no bit that `f` does not. */
  lemma WiderComparesLess(f: Filter, g: Filter)
    requires f.IsValid() && g.IsValid() && forall c: CanId :: c.IsValid() && f.Matches(c) ==> g.Matches(c)
    ensures f.isExtended == g.isExtended && Agree(f.id, g.id, g.mask) && Masked(g.mask, f.mask) == g.mask
  {
    hide Within, Agree, WidthMask, Masked, Flipped;
    AgreesWithItself(f.id, f.mask);
    var own := CanId(f.id, f.isExtended);
    assert own.IsValid() && f.Matches(own);
    var flipped := CanId(Flipped(f.id, g.mask, f.mask), f.isExtended);
    FlippedIsWithin(f.id, g.mask, f.mask, WidthMask(f.isExtended));
    FlippedAgrees(f.id, f.id, g.mask, f.mask);
    assert flipped.IsValid() && f.Matches(flipped) && g.Matches(flipped);
    AgreeOnBoth(flipped.id, f.id, g.id, g.mask);
    FlippedDiffers(f.id, g.mask, f.mask);
  }

  lemma AgreeOnBoth(x: bv32, a: bv32, b: bv32, m: bv32)
    requires Agree(x, b, m) && Agree(a, b, m)
    ensures Agree(x, a, m)
  {
  }

  /** Two valid filters have one normalized form exactly when they accept the same identifiers. */
  lemma SameNormalizedIff(f: Filter, g: Filter)
    requires f.IsValid() && g.IsValid()
    ensures f.Normalized() == g.Normalized() <==> AcceptsTheSame(f, g)
  {
    hide Within, Agree, WidthMask, Masked, Filter.IsValid;
    if AcceptsTheSame(f, g) {
      WiderComparesLess(f, g);
      WiderComparesLess(g, f);
      MasksAreEqual(f.mask, g.mask);
      AgreeingAreMaskedAlike(f.id, g.id, f.mask);
    }
    if f.Normalized() == g.Normalized() {
      forall c: CanId ensures f.Matches(c) <==> g.Matches(c) {
        NormalizedAcceptsTheSame(f, c);
        NormalizedAcceptsTheSame(g, c);
      }
    }
  }

  lemma FullMaskIsWidth(m: bv32, w: bv32)
    requires Masked(w, m) == w && Within(m, w)
    ensures m == w
  {
  }

  lemma WidthIsWithin(w: bv32)
    ensures Within(w, w)
  {
  }

  /** A valid filter is exact exactly when it accepts no identifier but its own. */
  lemma ExactIffOne(f: Filter)
    requires f.IsValid()
    ensures f.IsExact() <==> forall c: CanId :: c.IsValid() && f.Matches(c) ==> c == CanId(f.id, f.isExtended)
  {
    hide Within, Agree, WidthMask, Masked;
    if f.IsExact() {
      forall c: CanId | c.IsValid() && f.Matches(c) ensures c == CanId(f.id, f.isExtended) { ExactMatchesOnlyItself(f, c); }
    }
    if forall c: CanId :: c.IsValid() && f.Matches(c) ==> c == CanId(f.id, f.isExtended) {
      var w := WidthMask(f.isExtended);
      var g := Filter(f.id, w, f.isExtended);
      WidthIsWithin(w);
      AgreesWithItself(f.id, w);
      WiderComparesLess(f, g);
      FullMaskIsWidth(f.mask, w);
    }
  }
}
