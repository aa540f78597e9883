/** A sorted-array cache of filter answers, against the map it stands for. */
module AcceptanceCache {
  import opened Bytes

  datatype Entry = Entry(key: u32, isAccepted: bool)

  /** A call that changes the cache. */
  datatype Call = Revalidate(generation: u32) | Store(key: u32, isAccepted: bool)

  /** What the cache stands for: the answers given since the latest flush. */
  datatype Answers = Answers(generation: u32, known: map<u32, bool>)

  /** The call forgets every answer before it takes effect. */
  predicate Flushes(a: Answers, capacity: nat, call: Call)
  {
    match call
    case Revalidate(g) => g != a.generation
    case Store(k, _) => k !in a.known && |a.known| == capacity
  }

  function Step(a: Answers, capacity: nat, call: Call): Answers
  {
    var known := if Flushes(a, capacity, call) then map[] else a.known;
    match call
    case Revalidate(g) => Answers(g, known)
    case Store(k, isAccepted) => Answers(a.generation, known[k := isAccepted])
  }

  function After(capacity: nat, calls: seq<Call>): Answers
  {
    if calls == [] then Answers(0, map[])
    else Step(After(capacity, calls[..|calls| - 1]), capacity, calls[|calls| - 1])
  }

  lemma AfterOneMore(capacity: nat, calls: seq<Call>, call: Call)
    ensures After(capacity, calls + [call]) == Step(After(capacity, calls), capacity, call)
  {
    assert (calls + [call])[..|calls|] == calls;
  }

  /** The last answer stored for `key`, with no flush after it. */
  ghost predicate IsLastAnswer(capacity: nat, calls: seq<Call>, key: u32, isAccepted: bool, i: nat)
  {
    && i < |calls| && calls[i] == Store(key, isAccepted)
    && forall j :: i < j < |calls| ==>
         !Flushes(After(capacity, calls[..j]), capacity, calls[j]) && !(calls[j].Store? && calls[j].key == key)
  }

  /** The call neither flushes the answers nor replaces the one for `key`. */
  ghost predicate Spares(capacity: nat, calls: seq<Call>, key: u32)
    requires calls != []
  {
    var n := |calls| - 1;
    !Flushes(After(capacity, calls[..n]), capacity, calls[n]) && !(calls[n].Store? && calls[n].key == key)
  }

  ghost predicate HasLastAnswer(capacity: nat, calls: seq<Call>, key: u32, isAccepted: bool)
  {
    exists i: nat :: IsLastAnswer(capacity, calls, key, isAccepted, i)
  }

  ghost predicate IsKnown(a: Answers, key: u32, isAccepted: bool)
  {
    key in a.known && a.known[key] == isAccepted
  }

  /** An answer is known exactly when it is the last one stored for its key since the latest flush. */
  lemma {:induction false} KnownIffLastAnswer(capacity: nat, calls: seq<Call>, key: u32, isAccepted: bool)
    ensures IsKnown(After(capacity, calls), key, isAccepted) <==> HasLastAnswer(capacity, calls, key, isAccepted)
    decreases |calls|
  {
    if calls != [] {
      hide HasLastAnswer;
      KnownIffLastAnswer(capacity, calls[..|calls| - 1], key, isAccepted);
      HasLastAnswerBefore(capacity, calls, key, isAccepted);
    } else {
      assert forall i: nat :: !IsLastAnswer(capacity, calls, key, isAccepted, i);
    }
  }

  lemma HasLastAnswerBefore(capacity: nat, calls: seq<Call>, key: u32, isAccepted: bool)
    requires calls != []
    ensures HasLastAnswer(capacity, calls, key, isAccepted) <==>
      calls[|calls| - 1] == Store(key, isAccepted)
      || (HasLastAnswer(capacity, calls[..|calls| - 1], key, isAccepted) && Spares(capacity, calls, key))
  {
    hide After, Flushes, Spares;
    var n := |calls| - 1;
    forall i: nat | i < n
      ensures IsLastAnswer(capacity, calls, key, isAccepted, i) <==>
        IsLastAnswer(capacity, calls[..n], key, isAccepted, i) && Spares(capacity, calls, key)
    {
      LastAnswerBefore(capacity, calls, key, isAccepted, i);
    }
    assert IsLastAnswer(capacity, calls, key, isAccepted, n) <==> calls[n] == Store(key, isAccepted);
  }

  lemma LastAnswerBefore(capacity: nat, calls: seq<Call>, key: u32, isAccepted: bool, i: nat)
    requires calls != [] && i < |calls| - 1
    ensures var n := |calls| - 1;
      IsLastAnswer(capacity, calls, key, isAccepted, i) <==>
      IsLastAnswer(capacity, calls[..n], key, isAccepted, i) && Spares(capacity, calls, key)
  {
    hide After, Flushes;
    var n := |calls| - 1;
    assert forall j :: 0 <= j <= n ==> calls[..n][..j] == calls[..j];
  }

  /** A known answer was stored while the generation was the current one, which held ever since. */
  lemma {:induction false} KnownInThisGeneration(capacity: nat, calls: seq<Call>, key: u32, isAccepted: bool, i: nat, j: nat)
    requires IsLastAnswer(capacity, calls, key, isAccepted, i) && i <= j <= |calls|
    ensures After(capacity, calls[..j]).generation == After(capacity, calls).generation
    decreases |calls| - j
  {
    hide After;
    if j == |calls| {
      assert calls[..j] == calls;
    } else {
      KnownInThisGeneration(capacity, calls, key, isAccepted, i, j + 1);
      AfterOneMore(capacity, calls[..j], calls[j]);
      assert calls[..j + 1] == calls[..j] + [calls[j]];
    }
  }

  ghost predicate Sorted(entries: seq<Entry>)
  {
    forall i, j :: 0 <= i < j < |entries| ==> entries[i].key < entries[j].key
  }

  ghost predicate HasKey(entries: seq<Entry>, key: u32)
  {
    exists i :: 0 <= i < |entries| && entries[i].key == key
  }

  /** The entries are the map, one entry per key. */
  ghost predicate Holds(entries: seq<Entry>, known: map<u32, bool>)
  {
    && |known| == |entries|
    && (forall i :: 0 <= i < |entries| ==> entries[i].key in known && known[entries[i].key] == entries[i].isAccepted)
    && (forall k :: k in known ==> HasKey(entries, k))
  }

  /** Every key before `index` is smaller than `key` and none from `index` on is. */
  ghost predicate IsLowerBound(entries: seq<Entry>, key: u32, index: nat)
  {
    && index <= |entries|
    && (forall i :: 0 <= i < index ==> entries[i].key < key)
    && (forall i :: index <= i < |entries| ==> key <= entries[i].key)
  }

  lemma LowerBoundFinds(entries: seq<Entry>, known: map<u32, bool>, key: u32, index: nat)
    requires Sorted(entries) && Holds(entries, known) && IsLowerBound(entries, key, index)
    ensures key in known <==> index < |entries| && entries[index].key == key
    ensures key in known ==> known[key] == entries[index].isAccepted
  {
    if key in known {
      var i :| 0 <= i < |entries| && entries[i].key == key;
      assert entries[index].key <= entries[i].key;
    }
  }

  function Overwrite(entries: seq<Entry>, index: nat, isAccepted: bool): (r: seq<Entry>)
    requires index < |entries|
  {
    entries[index := Entry(entries[index].key, isAccepted)]
  }

  lemma OverwrittenHolds(entries: seq<Entry>, known: map<u32, bool>, index: nat, isAccepted: bool)
    requires Sorted(entries) && Holds(entries, known) && index < |entries|
    ensures Sorted(Overwrite(entries, index, isAccepted))
    ensures Holds(Overwrite(entries, index, isAccepted), known[entries[index].key := isAccepted])
  {
    hide HasKey;
    SameSize(known, entries[index].key, isAccepted);
    forall k ensures HasKey(Overwrite(entries, index, isAccepted), k) == HasKey(entries, k) {
      OverwrittenHasKey(entries, index, isAccepted, k);
    }
  }

  lemma OverwrittenHasKey(entries: seq<Entry>, index: nat, isAccepted: bool, k: u32)
    requires index < |entries|
    ensures HasKey(Overwrite(entries, index, isAccepted), k) == HasKey(entries, k)
  {
    var after := Overwrite(entries, index, isAccepted);
    assert forall i :: 0 <= i < |entries| ==> after[i].key == entries[i].key;
  }

  lemma SameSize(known: map<u32, bool>, k: u32, isAccepted: bool)
    requires k in known
    ensures |known[k := isAccepted]| == |known|
  {
    assert known[k := isAccepted].Keys == known.Keys;
  }

  function Insert(entries: seq<Entry>, index: nat, e: Entry): (r: seq<Entry>)
    requires index <= |entries|
  {
    entries[..index] + [e] + entries[index..]
  }

  lemma InsertIs(entries: seq<Entry>, after: seq<Entry>, index: nat, e: Entry)
    requires index <= |entries| && |after| == |entries| + 1 && after[index] == e
    requires forall j :: 0 <= j < index ==> after[j] == entries[j]
    requires forall j :: index < j < |after| ==> after[j] == entries[j - 1]
    ensures after == Insert(entries, index, e)
  {
  }

  lemma InsertedIsSorted(entries: seq<Entry>, index: nat, e: Entry)
    requires Sorted(entries) && IsLowerBound(entries, e.key, index)
    requires index < |entries| ==> entries[index].key != e.key
    ensures Sorted(Insert(entries, index, e))
  {
  }

  lemma InsertedHasKey(entries: seq<Entry>, index: nat, e: Entry, k: u32)
    requires index <= |entries|
    ensures HasKey(entries, k) || k == e.key ==> HasKey(Insert(entries, index, e), k)
  {
    var after := Insert(entries, index, e);
    assert after[index] == e;
    if HasKey(entries, k) {
      var i :| 0 <= i < |entries| && entries[i].key == k;
      assert after[if i < index then i else i + 1] == entries[i];
    }
  }

  lemma InsertedHolds(entries: seq<Entry>, known: map<u32, bool>, index: nat, e: Entry)
    requires Holds(entries, known) && index <= |entries| && e.key !in known
    ensures Holds(Insert(entries, index, e), known[e.key := e.isAccepted])
  {
    hide HasKey;
    forall k ensures HasKey(entries, k) || k == e.key ==> HasKey(Insert(entries, index, e), k) {
      InsertedHasKey(entries, index, e, k);
    }
  }

  class AcceptanceCache {
    const capacity: nat
    const entries: array<Entry>
    var count: nat
    var generation: u32
    /** The calls so far. */
    ghost var calls: seq<Call>

    ghost predicate Valid()
      reads this, entries
    {
      && 0 < capacity == entries.Length && count <= capacity
      && Sorted(entries[..count])
      && Holds(entries[..count], After(capacity, calls).known)
      && generation == After(capacity, calls).generation
    }

    /** The answers that Find() gives. */
    ghost function Known(): map<u32, bool>
      reads this
    {
      After(capacity, calls).known
    }

    constructor (capacity: nat)
      requires 0 < capacity
      ensures Valid() && this.capacity == capacity && calls == [] && fresh(entries)
    {
      this.capacity := capacity;
      entries := new Entry[capacity](_ => Entry(0, false));
      count := 0;
      generation := 0;
      calls := [];
    }

    /** Binary search for the first entry that is not before the key. */
    method LowerBound(key: u32) returns (index: nat)
      requires Valid()
      ensures IsLowerBound(entries[..count], key, index)
    {
      hide After, Holds;
      index := 0;
      var length := count;
      while 0 < length
        invariant index + length <= count
        invariant forall i :: 0 <= i < index ==> entries[..count][i].key < key
        invariant forall i :: index + length <= i < count ==> key <= entries[..count][i].key
      {
        var half := length / 2;
        assert entries[..count][index + half] == entries[index + half];
        if entries[index + half].key < key {
          index := index + half + 1;
          length := length - half - 1;
        } else {
          length := half;
        }
      }
    }

    method Revalidate(generation: u32)
      requires Valid()
      modifies this
      ensures Valid() && calls == old(calls) + [Call.Revalidate(generation)]
      ensures this.generation == generation
      ensures Known() == if generation == old(this.generation) then old(Known()) else map[]
    {
      hide After, HasKey;
      AfterOneMore(capacity, calls, Call.Revalidate(generation));
      calls := calls + [Call.Revalidate(generation)];
      if generation == this.generation {
        return;
      }
      this.generation := generation;
      count := 0;
    }

    method Find(key: u32) returns (r: Option<bool>)
      requires Valid()
      ensures r == if key in Known() then Some(Known()[key]) else None
    {
      var index := LowerBound(key);
      LowerBoundFinds(entries[..count], After(capacity, calls).known, key, index);
      if index == count || entries[index].key != key {
        return None;
      }
      return Some(entries[index].isAccepted);
    }

    method Store(key: u32, isAccepted: bool)
      requires Valid()
      modifies this, entries
      ensures Valid() && calls == old(calls) + [Call.Store(key, isAccepted)]
      ensures generation == old(generation)
      ensures Known() ==
        if key in old(Known()) || |old(Known())| < capacity then old(Known())[key := isAccepted] else map[key := isAccepted]
    {
      hide After, HasKey;
      var index := LowerBound(key);
      ghost var known := After(capacity, calls).known;
      LowerBoundFinds(entries[..count], known, key, index);
      AfterOneMore(capacity, calls, Call.Store(key, isAccepted));
      calls := calls + [Call.Store(key, isAccepted)];
      if index != count && entries[index].key == key {
        OverwrittenHolds(entries[..count], known, index, isAccepted);
        ghost var was := entries[..count];
        entries[index] := Entry(entries[index].key, isAccepted);
        assert entries[..count] == Overwrite(was, index, isAccepted);
        return;
      }
      if count == capacity {
        count := 0;
        index := 0;
        known := map[];
      }
      ghost var was := entries[..count];
      InsertedIsSorted(was, index, Entry(key, isAccepted));
      InsertedHolds(was, known, index, Entry(key, isAccepted));
      Place(index, Entry(key, isAccepted));
      count := count + 1;
    }

    /** Moves the entries from `index` on one place up, from the last one down, and writes `e` there. */
    method Place(index: nat, e: Entry)
      requires index <= count < entries.Length
      modifies entries
      ensures entries[..count + 1] == Insert(old(entries[..count]), index, e)
    {
      hide Insert;
      ghost var was := entries[..count];
      var i := count;
      while index < i
        invariant index <= i <= count
        invariant forall j :: 0 <= j < i ==> entries[j] == was[j]
        invariant forall j :: i < j <= count ==> entries[j] == was[j - 1]
      {
        entries[i] := entries[i - 1];
        i := i - 1;
      }
      entries[index] := e;
      InsertIs(was, entries[..count + 1], index, e);
    }

    /** The number of answers known. */
    function GetCount(): (r: nat)
      requires Valid()
      reads this, entries
      ensures r == |After(capacity, calls).known| <= capacity
    {
      count
    }
  }
}
