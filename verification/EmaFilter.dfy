/** An integer moving average with error feedback, and what its fixed width can hold. */
module EmaFilter {
  import opened Arithmetic

  /** The filter on unbounded integers: its output and the remainder carried to the next call. */
  datatype State = State(filter: int, error: int)

  function Step(s: State, val: int, k: nat): State
  {
    var sum := val - s.filter + s.error;
    State(s.filter + sum / Pow2(k), sum % Pow2(k))
  }

  function Run(s: State, vals: seq<int>, k: nat): State
  {
    if vals == [] then s else Step(Run(s, vals[..|vals| - 1], k), vals[|vals| - 1], k)
  }

  /** The remainder is one of a division by 2^k. */
  predicate IsCarried(s: State, k: nat)
  {
    0 <= s.error < Pow2(k)
  }

  function Times(d: int, x: int): int
  {
    d * x
  }

  /** The quantity one call changes by the distance of its input from the old output. */
  function Weight(s: State, k: nat): int
  {
    Times(Pow2(k), s.filter) + s.error
  }

  function Total(s: State, vals: seq<int>, k: nat): int
  {
    if vals == [] then 0
    else
      var before := vals[..|vals| - 1];
      Total(s, before, k) + vals[|vals| - 1] - Run(s, before, k).filter
  }

  lemma DivMod(x: int, d: int)
    requires 0 < d
    ensures x == Times(d, x / d) + x % d && 0 <= x % d < d
  {
  }

  lemma TimesSum(d: int, a: int, b: int)
    ensures Times(d, a + b) == Times(d, a) + Times(d, b)
  {
  }

  lemma TimesOne(d: int)
    ensures Times(d, 1) == d
  {
  }

  /** `d` times a difference is at least the difference. */
  lemma {:induction false} TimesGrows(d: int, a: int, b: int)
    requires 0 < d && a <= b
    ensures Times(d, b) - Times(d, a) >= b - a
    decreases b - a
  {
    hide Times;
    if a < b {
      TimesGrows(d, a, b - 1);
      TimesSum(d, b - 1, 1);
      TimesOne(d);
    }
  }

  lemma StepConserves(s: State, val: int, k: nat)
    ensures IsCarried(Step(s, val, k), k)
    ensures Weight(Step(s, val, k), k) == Weight(s, k) + (val - s.filter)
  {
    hide Pow2, Times;
    var sum := val - s.filter + s.error;
    DivMod(sum, Pow2(k));
    TimesSum(Pow2(k), s.filter, sum / Pow2(k));
  }

  /** Over a whole run the weight changes by exactly the sum of the distances: nothing is lost to rounding. */
  lemma {:induction false} RunConserves(s: State, vals: seq<int>, k: nat)
    requires IsCarried(s, k)
    ensures IsCarried(Run(s, vals, k), k)
    ensures Weight(Run(s, vals, k), k) == Weight(s, k) + Total(s, vals, k)
  {
    if vals != [] {
      var before := vals[..|vals| - 1];
      RunConserves(s, before, k);
      StepConserves(Run(s, before, k), vals[|vals| - 1], k);
    }
  }

  lemma StepStaysWithin(s: State, val: int, k: nat, low: int, high: int)
    requires IsCarried(s, k) && low <= s.filter <= high && low <= val <= high
    ensures low <= Step(s, val, k).filter <= high
  {
    hide Pow2, Times, Step;
    var d := Pow2(k);
    var next := Step(s, val, k);
    StepConserves(s, val, k);
    TimesOne(d);
    if high < next.filter {
      TimesSum(d, high, 1);
      TimesGrows(d, high + 1, next.filter);
      TimesGrows(d, s.filter, high);
    } else if next.filter < low {
      TimesSum(d, next.filter, 1);
      TimesGrows(d, next.filter + 1, low);
      TimesGrows(d, low, s.filter);
    }
  }

  /** The output never leaves an interval that holds its start and all inputs. */
  lemma {:induction false} RunStaysWithin(s: State, vals: seq<int>, k: nat, low: int, high: int)
    requires IsCarried(s, k) && low <= s.filter <= high && forall v :: v in vals ==> low <= v <= high
    ensures low <= Run(s, vals, k).filter <= high
  {
    if vals != [] {
      var before := vals[..|vals| - 1];
      assert vals[|vals| - 1] in vals && forall v :: v in before ==> v in vals;
      RunStaysWithin(s, before, k, low, high);
      RunConserves(s, before, k);
      StepStaysWithin(Run(s, before, k), vals[|vals| - 1], k, low, high);
    }
  }

  function Repeated(val: int, n: nat): (r: seq<int>)
    ensures |r| == n && forall v :: v in r ==> v == val
  {
    seq(n, _ => val)
  }

  function Distance(a: int, b: int): nat
  {
    if a < b then b - a else a - b
  }

  /** Under a constant input the weight moves towards the input by at least 1 per call until it is reached. */
  lemma {:induction false} ApproachesFromBelow(s: State, val: int, k: nat, n: nat)
    requires IsCarried(s, k) && s.filter <= val
    ensures var r := Run(s, Repeated(val, n), k); r.filter == val || (r.filter < val && Weight(r, k) >= Weight(s, k) + n)
  {
    if n > 0 {
      OneMoreRepeat(s, val, k, n);
      var r := Run(s, Repeated(val, n - 1), k);
      ApproachesFromBelow(s, val, k, n - 1);
      RunConserves(s, Repeated(val, n - 1), k);
      StepStaysWithin(r, val, k, r.filter, val);
      StepConserves(r, val, k);
    }
  }

  lemma {:induction false} ApproachesFromAbove(s: State, val: int, k: nat, n: nat)
    requires IsCarried(s, k) && val <= s.filter
    ensures var r := Run(s, Repeated(val, n), k); r.filter == val || (val < r.filter && Weight(r, k) <= Weight(s, k) - n)
  {
    if n > 0 {
      OneMoreRepeat(s, val, k, n);
      var r := Run(s, Repeated(val, n - 1), k);
      ApproachesFromAbove(s, val, k, n - 1);
      RunConserves(s, Repeated(val, n - 1), k);
      StepStaysWithin(r, val, k, val, r.filter);
      StepConserves(r, val, k);
    }
  }

  lemma OneMoreRepeat(s: State, val: int, k: nat, n: nat)
    requires n > 0
    ensures Run(s, Repeated(val, n), k) == Step(Run(s, Repeated(val, n - 1), k), val, k)
  {
    assert Repeated(val, n)[..n - 1] == Repeated(val, n - 1);
  }

  /** A constant input is reached after at most 2^k times the distance in calls, and kept from then on. */
  lemma ReachesConstantInput(s: State, val: int, k: nat, n: nat)
    requires IsCarried(s, k) && Times(Pow2(k), Distance(s.filter, val)) <= n
    ensures Run(s, Repeated(val, n), k).filter == val
  {
    hide Pow2, Times, Run, Repeated;
    var d := Pow2(k);
    var r := Run(s, Repeated(val, n), k);
    RunConserves(s, Repeated(val, n), k);
    TimesOne(d);
    if s.filter <= val {
      ApproachesFromBelow(s, val, k, n);
      TimesSum(d, s.filter, val - s.filter);
      if r.filter < val {
        TimesSum(d, r.filter, 1);
        TimesGrows(d, r.filter + 1, val);
      }
    } else {
      ApproachesFromAbove(s, val, k, n);
      TimesSum(d, val, s.filter - val);
      if val < r.filter {
        TimesSum(d, val, 1);
        TimesGrows(d, val + 1, r.filter);
      }
    }
  }

  // ---- Fixed width ------------------------------------------------------------------------------

  /** An integer type of `bits` bits, two's complement when signed. */
  datatype Width = Width(bits: nat, isSigned: bool) {

    function Low(): int
    {
      if isSigned && 0 < bits then -Pow2(bits - 1) else 0
    }

    predicate Holds(x: int)
    {
      Low() <= x < Low() + Pow2(bits)
    }

    /** The value of the type that is `x` modulo 2^bits. */
    function Narrow(x: int): (r: int)
      ensures Holds(r)
    {
      (x - Low()) % Pow2(bits) + Low()
    }

    /** Operands narrower than 32 bits are shifted as 32-bit ones; longer shifts have no defined result. */
    predicate IsShift(k: nat)
    {
      k < bits || k < 32
    }
  }

  /** A call in the arithmetic of the type. */
  function NarrowStep(s: State, val: int, k: nat, w: Width): State
  {
    var sum := w.Narrow(val - s.filter + s.error);
    State(w.Narrow(s.filter + sum / Pow2(k)), w.Narrow(sum % Pow2(k)))
  }

  function NarrowRun(s: State, vals: seq<int>, k: nat, w: Width): State
  {
    if vals == [] then s else NarrowStep(NarrowRun(s, vals[..|vals| - 1], k, w), vals[|vals| - 1], k, w)
  }

  lemma {:induction false} Pow2Splits(a: nat, b: nat)
    ensures Pow2(a + b) == Times(Pow2(a), Pow2(b))
  {
    if a > 0 {
      Pow2Splits(a - 1, b);
    }
  }

  lemma {:induction false} Pow2Grows(a: nat, b: nat)
    requires a <= b
    ensures Pow2(a) <= Pow2(b) && (a < b ==> 2 * Pow2(a) <= Pow2(b))
  {
    if a < b {
      Pow2Grows(a, b - 1);
    }
  }

  lemma ModOnce(x: int, p: int)
    requires 0 < p && -p <= x < 2 * p
    ensures x % p == if x < 0 then x + p else if x < p then x else x - p
  {
  }

  lemma NarrowOnce(w: Width, x: int)
    requires w.Low() - Pow2(w.bits) <= x < w.Low() + 2 * Pow2(w.bits)
    ensures w.Narrow(x) == if x < w.Low() then x + Pow2(w.bits) else if w.Holds(x) then x else x - Pow2(w.bits)
  {
    hide Pow2, Width.Low;
    ModOnce(x - w.Low(), Pow2(w.bits));
  }

  lemma DivShift(x: int, d: int, q: int)
    requires 0 < d
    ensures (x + Times(d, q)) / d == x / d + q && (x + Times(d, q)) % d == x % d
  {
    var y := x / d;
    assert x + d * q == d * (y + q) + x % d;
    DivUnique(x + d * q, d, y + q, x % d);
  }

  /** The sum of a call, before it is stored. */
  function Sum(s: State, val: int): int
  {
    val - s.filter + s.error
  }

  /** The sum of a call is off by at most one turn of the type. */
  lemma SumIsNear(s: State, val: int, k: nat, w: Width)
    requires w.Holds(s.filter) && w.Holds(val) && IsCarried(s, k) && k < w.bits
    ensures w.Low() - Pow2(w.bits) <= Sum(s, val) < w.Low() + 2 * Pow2(w.bits)
    ensures w.Holds(Step(s, val, k).filter)
  {
    hide Step;
    Pow2Grows(k, w.bits - 1);
    StepStaysWithin(s, val, k, if s.filter < val then s.filter else val, if s.filter < val then val else s.filter);
  }

  /** Adding a part of a full turn, less than the whole of it, changes the value the type holds. */
  lemma PartOfATurn(w: Width, x: int, e: int)
    requires w.Holds(x) && -Pow2(w.bits) <= e <= Pow2(w.bits)
    ensures w.Narrow(x + e) == x <==> e == 0 || e == Pow2(w.bits) || e == -Pow2(w.bits)
  {
    hide Pow2, Width.Low, Width.Narrow;
    NarrowOnce(w, x + e);
  }

  /** The stored sum, one turn up (1), down (-1) or none (0) from the sum. */
  lemma NarrowStepIs(s: State, val: int, k: nat, w: Width, turn: int)
    requires k < w.bits && w.Narrow(Sum(s, val)) == Sum(s, val) + turn * Pow2(w.bits) && -1 <= turn <= 1
    ensures NarrowStep(s, val, k, w) == State(w.Narrow(Step(s, val, k).filter + turn * Pow2(w.bits - k)), Step(s, val, k).error)
  {
    hide Pow2, Times, Width.Low, Width.Narrow;
    var d, e := Pow2(k), Pow2(w.bits - k);
    Pow2Splits(k, w.bits - k);
    TimesSum(d, e, -e);
    TimesZero(d);
    DivShift(Sum(s, val), d, turn * e);
    assert turn * Pow2(w.bits) == Times(d, turn * e);
    RemainderIsHeld(w.Narrow(Sum(s, val)), k, w);
  }

  lemma HeldIsItself(w: Width, x: int)
    ensures w.Narrow(x) == x <==> w.Holds(x)
  {
    hide Pow2, Width.Low;
    if w.Holds(x) { ModOnce(x - w.Low(), Pow2(w.bits)); }
  }

  lemma RemainderIsHeld(x: int, k: nat, w: Width)
    requires k < w.bits
    ensures w.Holds(x % Pow2(k)) && w.Narrow(x % Pow2(k)) == x % Pow2(k)
  {
    hide Width.Narrow;
    Pow2Grows(k, w.bits - 1);
    HeldIsItself(w, x % Pow2(k));
  }

  /**
   By less than the width, the remainder survives any overflow, and the output agrees exactly when the sum
   fits the type or there is no shift. By more, a call agrees exactly when the sum fits and is not negative.
   */
  lemma NarrowAgreesIff(s: State, val: int, k: nat, w: Width)
    requires 0 < w.bits && w.Holds(s.filter) && w.Holds(val) && IsCarried(s, k)
    ensures k < w.bits ==> NarrowStep(s, val, k, w).error == Step(s, val, k).error
    ensures NarrowStep(s, val, k, w) == Step(s, val, k) <==>
      if k < w.bits then k == 0 || w.Holds(Sum(s, val)) else 0 <= Sum(s, val) && w.Holds(Sum(s, val))
  {
    hide NarrowStep, Step, Width.Low, Width.Narrow, Width.Holds, IsCarried, Sum;
    if k < w.bits {
      ShortShiftAgreesIff(s, val, k, w);
    } else {
      WideShiftAgreesIff(s, val, k, w);
    }
  }

  /** A shift by the width or more only tells the sign of the sum, which itself becomes the remainder. */
  lemma WideShift(s: State, val: int, k: nat, w: Width)
    requires w.bits <= k && 0 < w.bits && w.Holds(s.filter)
    ensures var sum := w.Narrow(Sum(s, val));
      NarrowStep(s, val, k, w) == State(if sum < 0 then w.Narrow(s.filter - 1) else s.filter, sum)
  {
    hide Times, Width.Narrow;
    var sum, d := w.Narrow(Sum(s, val)), Pow2(k);
    Pow2Grows(w.bits, k);
    Pow2Grows(w.bits - 1, w.bits);
    HeldIsItself(w, s.filter);
    HeldIsItself(w, sum);
    if sum < 0 {
      DivUnique(sum, d, -1, sum + d);
      Pow2Splits(w.bits, k - w.bits);
      TurnsAway(w, sum, Pow2(k - w.bits));
    } else {
      DivUnique(sum, d, 0, sum);
    }
  }

  lemma TurnsAway(w: Width, x: int, turns: int)
    ensures w.Narrow(x + Times(Pow2(w.bits), turns)) == w.Narrow(x)
  {
    hide Pow2, Times, Width.Low;
    DivShift(x - w.Low(), Pow2(w.bits), turns);
  }

  lemma WideShiftAgreesIff(s: State, val: int, k: nat, w: Width)
    requires w.Holds(s.filter) && IsCarried(s, k) && 0 < w.bits <= k
    ensures NarrowStep(s, val, k, w) == Step(s, val, k) <==> 0 <= Sum(s, val) && w.Holds(Sum(s, val))
  {
    hide Pow2, Times, Width.Low, Width.Narrow, NarrowStep;
    var sum := w.Narrow(Sum(s, val));
    WideShift(s, val, k, w);
    HeldIsItself(w, Sum(s, val));
    DivMod(Sum(s, val), Pow2(k));
    if 0 <= sum && sum == Sum(s, val) {
      WideSum(w, sum, k);
      DivUnique(sum, Pow2(k), 0, sum);
    }
    TimesZero(Pow2(k));
  }

  lemma WideSum(w: Width, x: int, k: nat)
    requires w.bits <= k && w.Holds(x)
    ensures x < Pow2(k)
  {
    Pow2Grows(w.bits, k);
  }

  /** So an unsigned output never changes any more. */
  lemma {:induction false} UnsignedStands(s: State, vals: seq<int>, k: nat, w: Width)
    requires !w.isSigned && 0 < w.bits <= k && w.Holds(s.filter)
    ensures NarrowRun(s, vals, k, w).filter == s.filter
  {
    hide NarrowStep, Width.Narrow;
    if vals != [] {
      var before := vals[..|vals| - 1];
      UnsignedStands(s, before, k, w);
      WideShift(NarrowRun(s, before, k, w), vals[|vals| - 1], k, w);
    }
  }

  lemma ShortShiftAgreesIff(s: State, val: int, k: nat, w: Width)
    requires w.Holds(s.filter) && w.Holds(val) && IsCarried(s, k) && k < w.bits
    ensures NarrowStep(s, val, k, w).error == Step(s, val, k).error
    ensures NarrowStep(s, val, k, w) == Step(s, val, k) <==> k == 0 || w.Holds(Sum(s, val))
  {
    hide Pow2, Times, Width.Low, Width.Narrow, NarrowStep, Step, IsCarried, Sum;
    var sum := Sum(s, val);
    SumIsNear(s, val, k, w);
    NarrowOnce(w, sum);
    NoShift(k, w.bits);
    var turn := if sum < w.Low() then 1 else if w.Holds(sum) then 0 else -1;
    NarrowStepIs(s, val, k, w, turn);
    PartOfATurn(w, Step(s, val, k).filter, turn * Pow2(w.bits - k));
  }

  lemma TimesZero(d: int)
    ensures Times(d, 0) == 0
  {
  }

  lemma NoShift(k: nat, bits: nat)
    requires k < bits
    ensures k == 0 ==> Pow2(bits - k) == Pow2(bits)
    ensures k != 0 ==> 2 * Pow2(bits - k) <= Pow2(bits)
  {
    Pow2Grows(bits - k, bits);
  }

  /** On a signed type, no overflow while the spread of start and inputs leaves room for the remainder. */
  lemma {:induction false} SignedRunAgrees(s: State, vals: seq<int>, k: nat, w: Width, low: int, high: int)
    requires w.isSigned && k < w.bits && IsCarried(s, k) && w.Holds(low) && w.Holds(high)
    requires low <= s.filter <= high && forall v :: v in vals ==> low <= v <= high
    requires high - low + Pow2(k) <= Pow2(w.bits - 1)
    ensures NarrowRun(s, vals, k, w) == Run(s, vals, k)
  {
    if vals != [] {
      var before, val := vals[..|vals| - 1], vals[|vals| - 1];
      assert val in vals && forall v :: v in before ==> v in vals;
      SignedRunAgrees(s, before, k, w, low, high);
      RunStaysWithin(s, before, k, low, high);
      RunConserves(s, before, k);
      NarrowAgreesIff(Run(s, before, k), val, k, w);
    }
  }

  /** An unsigned output that should fall jumps up instead: from 10 towards 5 with a shift of 1, to 135. */
  lemma UnsignedJumps(w: Width)
    requires w == Width(8, false)
    ensures NarrowStep(State(10, 0), 5, 1, w) == State(135, 1) && Step(State(10, 0), 5, 1) == State(7, 1)
  {
    hide Pow2, Width.Narrow;
    PowersInUse();
    NarrowOnce(w, -5);
    NarrowOnce(w, 135);
    NarrowOnce(w, 1);
  }

  lemma PowersInUse()
    ensures Pow2(1) == 2 && Pow2(8) == 256
  {
    Pow2Splits(4, 4);
  }

  class EmaFilter {
    const width: Width
    var filter: int
    var error: int

    ghost function Current(): State
      reads this
    {
      State(filter, error)
    }

    constructor (width: Width, value: int)
      requires 0 < width.bits && width.Holds(value)
      ensures Valid() && this.width == width && Current() == State(value, 0)
    {
      this.width := width;
      filter := value;
      error := 0;
    }

    /** `filter` and `error` are values of the type. */
    ghost predicate Valid()
      reads this
    {
      0 < width.bits && width.Holds(filter) && width.Holds(error)
    }

    method Filter(val: int, k: nat) returns (r: int)
      requires Valid() && width.Holds(val) && width.IsShift(k)
      modifies this
      ensures Valid() && r == filter
      ensures Current() == NarrowStep(old(Current()), val, k, width)
      ensures IsCarried(old(Current()), k) ==> (Current() == Step(old(Current()), val, k) <==>
        if k < width.bits then k == 0 || width.Holds(Sum(old(Current()), val))
        else 0 <= Sum(old(Current()), val) && width.Holds(Sum(old(Current()), val)))
      ensures IsCarried(old(Current()), k) && k < width.bits ==> IsCarried(Current(), k)
    {
      hide Pow2, Width.Low, Width.Narrow;
      if IsCarried(Current(), k) {
        NarrowAgreesIff(Current(), val, k, width);
        StepConserves(Current(), val, k);
      }
      var sum := width.Narrow(val - filter + error);
      var div := sum / Pow2(k);
      DivMod(sum, Pow2(k));
      error := width.Narrow(sum - Pow2(k) * div);
      filter := width.Narrow(filter + div);
      r := filter;
    }
  }
}
