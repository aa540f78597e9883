/**
 The filter table as the channel keeps it: exact filters in a map from identifier key to entry, mask
 filters in four slots. Every operation is proved to do to this index what CanRegistry says of the
 one map from filter to entry.
 */
module Canbus {
  import opened Bytes
  import opened CanFilter
  import opened CanRegistry
  import opened Listing

  /** A key of the map of exact entries. */
  datatype Key = Key(word: bv32)

  function IdKey(c: CanId): Key
  {
    Key(c.Key())
  }

  function KeyOf(f: Filter): Key
  {
    IdKey(CanId(f.id, f.isExtended))
  }

  type Slots = seq<Option<Entry>>

  ghost function SlotFilters(slots: Slots): set<Filter>
  {
    set i | 0 <= i < |slots| && slots[i].Some? :: slots[i].value.filter
  }

  ghost predicate SlotsAreDistinct(slots: Slots)
  {
    forall i, j :: 0 <= i < j < |slots| && slots[i].Some? && slots[j].Some? ==>
      slots[i].value.filter != slots[j].value.filter
  }

  /** The index holds the entries of `table`, each at its place. */
  ghost predicate Indexes(exact: map<Key, Entry>, slots: Slots, table: map<Filter, Entry>)
  {
    && (forall f :: f in table && f.IsExact() ==> KeyOf(f) in exact && exact[KeyOf(f)] == table[f])
    && (forall k :: k in exact ==> exact[k].filter in table && exact[k].filter.IsExact() && KeyOf(exact[k].filter) == k)
    && SlotsHold(slots, table)
  }

  ghost predicate SlotsHold(slots: Slots, table: map<Filter, Entry>)
  {
    && |slots| == MAX_MASK_FILTERS
    && SlotsAreDistinct(slots)
    && SlotFilters(slots) == MaskFilters(table)
    && forall i :: 0 <= i < |slots| && slots[i].Some? ==>
         slots[i].value.filter in table && table[slots[i].value.filter] == slots[i].value
  }

  /** Distinct valid exact filters have distinct keys. */
  lemma ExactKeysAreDistinct(f: Filter, g: Filter)
    requires f.IsValid() && g.IsValid() && f.IsExact() && g.IsExact() && KeyOf(f) == KeyOf(g)
    ensures f == g
  {
    hide Within;
    KeyIsInjective(CanId(f.id, f.isExtended), CanId(g.id, g.isExtended));
  }

  function FirstFree(slots: Slots): (i: nat)
    ensures i <= |slots| && (i < |slots| ==> slots[i].None?)
    ensures forall j :: 0 <= j < i ==> slots[j].Some?
  {
    if slots == [] || slots[0].None? then 0 else 1 + FirstFree(slots[1..])
  }

  lemma SlotFiltersOfLast(front: Slots, last: Option<Entry>)
    ensures SlotFilters(front + [last]) == SlotFilters(front) + (if last.Some? then {last.value.filter} else {})
  {
    var slots := front + [last];
    forall f | f in SlotFilters(front) ensures f in SlotFilters(slots) {
      var i :| 0 <= i < |front| && front[i].Some? && front[i].value.filter == f;
      assert slots[i] == front[i];
    }
    if last.Some? { assert slots[|front|].Some? && slots[|front|].value.filter in SlotFilters(slots); }
  }

  lemma {:induction false} OccupiedSlotsCount(slots: Slots)
    requires SlotsAreDistinct(slots)
    ensures |SlotFilters(slots)| <= |slots|
    ensures |SlotFilters(slots)| == |slots| <==> forall i :: 0 <= i < |slots| ==> slots[i].Some?
  {
    if slots != [] {
      var front, last := slots[..|slots| - 1], slots[|slots| - 1];
      OccupiedSlotsCount(front);
      assert slots == front + [last];
      SlotFiltersOfLast(front, last);
      if last.Some? {
        assert last.value.filter !in SlotFilters(front);
      }
    }
  }

  ghost predicate FiltersAreValid(table: map<Filter, Entry>)
  {
    forall f :: f in table ==> f.IsValid() && table[f].filter == f
  }

  lemma PutExact(exact: map<Key, Entry>, slots: Slots, table: map<Filter, Entry>, e: Entry)
    requires Indexes(exact, slots, table) && FiltersAreValid(table)
    requires e.filter.IsValid() && e.filter.IsExact()
    ensures Indexes(exact[KeyOf(e.filter) := e], slots, table[e.filter := e])
  {
    hide Filter.IsValid, Filter.IsExact, KeyOf;
    forall i | 0 <= i < |slots| && slots[i].Some? ensures slots[i].value.filter != e.filter {
      assert slots[i].value.filter in SlotFilters(slots);
    }
    assert MaskFilters(table[e.filter := e]) == MaskFilters(table);
    var exact', table' := exact[KeyOf(e.filter) := e], table[e.filter := e];
    forall f | f in table' && f.IsExact() ensures KeyOf(f) in exact' && exact'[KeyOf(f)] == table'[f] {
      if f != e.filter {
        assert f in table;
        if KeyOf(f) == KeyOf(e.filter) { ExactKeysAreDistinct(f, e.filter); }
      }
    }
  }

  lemma PutSlot(exact: map<Key, Entry>, slots: Slots, table: map<Filter, Entry>, i: nat, e: Entry)
    requires Indexes(exact, slots, table) && !e.filter.IsExact() && i < |slots|
    requires if slots[i].Some? then slots[i].value.filter == e.filter else e.filter !in table
    ensures Indexes(exact, slots[i := Some(e)], table[e.filter := e])
  {
    hide Filter.IsExact, KeyOf;
    var slots' := slots[i := Some(e)];
    assert e.filter in SlotFilters(slots') by { assert slots'[i].Some?; }
    forall f | f in SlotFilters(slots) ensures f in SlotFilters(slots') {
      var j :| 0 <= j < |slots| && slots[j].Some? && slots[j].value.filter == f;
      assert slots'[j].Some? && slots'[j].value.filter == f;
    }
    assert SlotFilters(slots') == SlotFilters(slots) + {e.filter};
    assert MaskFilters(table[e.filter := e]) == MaskFilters(table) + {e.filter};
    forall j | 0 <= j < |slots| && j != i && slots[j].Some? ensures slots[j].value.filter != e.filter {
      if slots[i].None? { assert slots[j].value.filter in SlotFilters(slots); }
    }
  }

  lemma EraseExact(exact: map<Key, Entry>, slots: Slots, table: map<Filter, Entry>, f: Filter)
    requires Indexes(exact, slots, table) && FiltersAreValid(table) && f.IsValid() && f.IsExact()
    ensures Indexes(exact - {KeyOf(f)}, slots, table - {f})
  {
    hide Filter.IsValid, Filter.IsExact, KeyOf;
    forall i | 0 <= i < |slots| && slots[i].Some? ensures slots[i].value.filter != f {
      assert slots[i].value.filter in SlotFilters(slots);
    }
    assert MaskFilters(table - {f}) == MaskFilters(table);
    var exact', table' := exact - {KeyOf(f)}, table - {f};
    forall g | g in table' && g.IsExact() ensures KeyOf(g) in exact' && exact'[KeyOf(g)] == table'[g] {
      assert g in table;
      if KeyOf(g) == KeyOf(f) { ExactKeysAreDistinct(g, f); }
    }
    forall k | k in exact' ensures exact'[k].filter in table' {
      assert KeyOf(exact[k].filter) == k;
    }
  }

  /** The slots without the entries for `f`. */
  function Cleared(slots: Slots, f: Filter): (r: Slots)
    ensures |r| == |slots|
    ensures forall i :: 0 <= i < |slots| ==>
      r[i] == if slots[i].Some? && slots[i].value.filter == f then None else slots[i]
  {
    if slots == [] then []
    else [if slots[0].Some? && slots[0].value.filter == f then None else slots[0]] + Cleared(slots[1..], f)
  }

  lemma EraseSlot(exact: map<Key, Entry>, slots: Slots, table: map<Filter, Entry>, f: Filter)
    requires Indexes(exact, slots, table) && !f.IsExact()
    ensures Indexes(exact, Cleared(slots, f), table - {f})
  {
    hide Filter.IsExact, KeyOf;
    var slots' := Cleared(slots, f);
    forall g | g in SlotFilters(slots) && g != f ensures g in SlotFilters(slots') {
      var j :| 0 <= j < |slots| && slots[j].Some? && slots[j].value.filter == g;
      assert slots'[j].Some?;
    }
    assert SlotFilters(slots') == SlotFilters(slots) - {f};
    assert MaskFilters(table - {f}) == MaskFilters(table) - {f};
  }

  class Canbus {
    var isInitialized: bool
    var isAutoDetecting: bool
    var isBitrateDetected: bool
    var exact: map<Key, Entry>
    var slots: Slots
    var nextHandlerId: int
    ghost var table: map<Filter, Entry>

    ghost function Reg(): Registry
      reads this
    {
      Registry(table, nextHandlerId)
    }

    ghost predicate IsDeferred()
      reads this
    {
      isAutoDetecting && !isBitrateDetected
    }

    ghost predicate Valid()
      reads this
    {
      Sound(Reg()) && Indexes(exact, slots, table)
    }

    constructor ()
      ensures Valid() && table == map[] && !isInitialized
    {
      isInitialized, isAutoDetecting, isBitrateDetected := false, false, false;
      exact, slots, nextHandlerId, table := map[], [None, None, None, None], 1, map[];
    }

    /**
     DoInitialize; `configures` is what configuring the device comes to, `autoDetects` says that no bitrate
     is configured. The handler ids go on from where they were.
     */
    method Initialize(hasStack: bool, configures: bool, autoDetects: bool) returns (ok: bool)
      requires Valid()
      modifies this`exact, this`slots, this`table, this`isInitialized, this`isAutoDetecting, this`isBitrateDetected
      ensures Valid() && ok == (hasStack && configures)
      ensures table == if hasStack then map[] else old(table)
      ensures isInitialized == (ok || old(isInitialized))
      ensures isAutoDetecting == ((ok && autoDetects) || old(isAutoDetecting))
      ensures isBitrateDetected == if hasStack then configures && !autoDetects else old(isBitrateDetected)
    {
      hide Sound, Indexes;
      if !hasStack { return false; }
      ClearEntries();
      isBitrateDetected := false;
      if !configures { return false; }
      if autoDetects {
        isAutoDetecting := true;
      } else {
        isBitrateDetected := true;
      }
      isInitialized := true;
      ok := true;
    }

    /** DoStop; `stops` is whether the device can be stopped, which is asked only once initialized. */
    method Stop(stops: bool) returns (ok: bool)
      requires Valid()
      modifies this`exact, this`slots, this`table, this`isInitialized, this`isAutoDetecting, this`isBitrateDetected
      ensures Valid() && ok == (stops || !old(isInitialized)) && !isAutoDetecting
      ensures ok ==> table == map[] && !isInitialized && !isBitrateDetected
      ensures !ok ==> table == old(table) && isInitialized && isBitrateDetected == old(isBitrateDetected)
    {
      hide Sound, Indexes;
      isAutoDetecting := false;
      if isInitialized && !stops { return false; }
      ClearEntries();
      isInitialized, isBitrateDetected := false, false;
      ok := true;
    }

    method ClearEntries()
      requires Valid()
      modifies this`exact, this`slots, this`table
      ensures Valid() && table == map[]
    {
      hide Sound, Indexes;
      NothingIsIndexed(Reg());
      exact, slots, table := map[], [None, None, None, None], map[];
    }

    method FindEntry(filter: Filter) returns (r: Option<Entry>)
      requires Valid() && filter.IsValid()
      ensures r == if filter in table then Some(table[filter]) else None
    {
      hide Filter.Overlaps, Filter.Normalized, Within, KeyOf;
      if filter.IsExact() {
        var key := KeyOf(filter);
        if key in exact {
          assert EntryIsSound(exact[key].filter, table[exact[key].filter], nextHandlerId);
          ExactKeysAreDistinct(filter, exact[key].filter);
          return Some(exact[key]);
        }
        return None;
      }
      for i := 0 to |slots|
        invariant forall j :: 0 <= j < i && slots[j].Some? ==> slots[j].value.filter != filter
      {
        if slots[i].Some? && slots[i].value.filter == filter { return slots[i]; }
      }
      assert filter !in SlotFilters(slots);
      r := None;
    }

    /** The entry whose filter accepts a valid identifier, if there is one. */
    method FindMatchingEntry(canId: CanId) returns (r: Option<Entry>)
      requires Valid() && canId.IsValid()
      ensures r.Some? ==> r.value.filter in table && table[r.value.filter] == r.value && r.value.filter.Matches(canId)
      ensures r.None? ==> forall f :: f in table ==> !f.Matches(canId)
    {
      hide Filter.Overlaps, Filter.Normalized, Filter.Matches, Within, CanId.Key;
      var key := IdKey(canId);
      if key in exact {
        var f := exact[key].filter;
        assert EntryIsSound(f, table[f], nextHandlerId);
        ValidExactId(f);
        KeyIsInjective(canId, CanId(f.id, f.isExtended));
        ExactMatchesOnlyItself(f, canId);
        return Some(exact[key]);
      }
      for i := 0 to |slots|
        invariant forall j :: 0 <= j < i && slots[j].Some? ==> !slots[j].value.filter.Matches(canId)
      {
        if slots[i].Some? && slots[i].value.filter.Matches(canId) { return slots[i]; }
      }
      forall f | f in table ensures !f.Matches(canId) {
        assert EntryIsSound(f, table[f], nextHandlerId);
        if f.IsExact() {
          ExactMatchesOnlyItself(f, canId);
        } else {
          assert f in SlotFilters(slots);
        }
      }
      r := None;
    }

    /** Whether the filter overlaps a stored one, in either part of the index. */
    predicate HasOverlap(filter: Filter)
      reads this
    {
      || (exists k :: k in exact && exact[k].filter.Overlaps(filter))
      || (exists i :: 0 <= i < |slots| && slots[i].Some? && slots[i].value.filter.Overlaps(filter))
    }

    lemma HasOverlapIsTaken(filter: Filter)
      requires Valid()
      ensures HasOverlap(filter) <==> IsTaken(Reg(), filter)
    {
      hide Filter.Overlaps, Filter.IsExact, KeyOf;
      if IsTaken(Reg(), filter) {
        var g :| g in table && g.Overlaps(filter);
        if g.IsExact() {
          assert KeyOf(g) in exact;
        } else {
          assert g in SlotFilters(slots);
        }
      }
    }

    /** Adds an entry without handlers; false when it needs a slot and all are in use. */
    method CreateEntry(filter: Filter) returns (ok: bool)
      requires Indexes(exact, slots, table) && FiltersAreValid(table) && filter.IsValid() && filter !in table
      modifies this`exact, this`slots, this`table
      ensures ok == (filter.IsExact() || |MaskFilters(old(table))| < MAX_MASK_FILTERS)
      ensures table == if ok then old(table)[filter := Entry(filter, -1, {})] else old(table)
      ensures Indexes(exact, slots, table) && FiltersAreValid(table)
    {
      hide Filter.IsValid, Filter.IsExact, KeyOf, Indexes;
      var entry := Entry(filter, -1, {});
      if filter.IsExact() {
        PutExact(exact, slots, table, entry);
        exact := exact[KeyOf(filter) := entry];
        table := table[filter := entry];
        return true;
      }
      SlotsOf(exact, slots, table);
      OccupiedSlotsCount(slots);
      for i := 0 to |slots|
        invariant forall j :: 0 <= j < i ==> slots[j].Some?
        invariant Indexes(exact, slots, table) && FiltersAreValid(table) && table == old(table) && slots == old(slots)
      {
        if slots[i].None? {
          PutSlot(exact, slots, table, i, entry);
          slots := slots[i := Some(entry)];
          table := table[filter := entry];
          return true;
        }
      }
      ok := false;
    }

    /** Changes the entry of a registered filter. */
    method UpdateEntry(entry: Entry)
      requires Indexes(exact, slots, table) && FiltersAreValid(table) && entry.filter in table
      modifies this`exact, this`slots, this`table
      ensures table == old(table)[entry.filter := entry]
      ensures Indexes(exact, slots, table) && FiltersAreValid(table)
    {
      hide Filter.IsValid, Filter.IsExact, KeyOf, Indexes;
      if entry.filter.IsExact() {
        PutExact(exact, slots, table, entry);
        exact := exact[KeyOf(entry.filter) := entry];
        table := table[entry.filter := entry];
        return;
      }
      SlotsOf(exact, slots, table);
      assert entry.filter in SlotFilters(slots);
      for i := 0 to |slots|
        invariant forall j :: 0 <= j < i && slots[j].Some? ==> slots[j].value.filter != entry.filter
        invariant Indexes(exact, slots, table) && FiltersAreValid(table) && table == old(table) && slots == old(slots)
      {
        if slots[i].Some? && slots[i].value.filter == entry.filter {
          PutSlot(exact, slots, table, i, entry);
          slots := slots[i := Some(entry)];
          table := table[entry.filter := entry];
          return;
        }
      }
      assert false;
    }

    method EraseEntry(filter: Filter)
      requires Indexes(exact, slots, table) && FiltersAreValid(table) && filter.IsValid()
      modifies this`exact, this`slots, this`table
      ensures table == old(table) - {filter}
      ensures Indexes(exact, slots, table) && FiltersAreValid(table)
    {
      hide Filter.IsValid, Filter.IsExact, KeyOf, Indexes;
      if filter.IsExact() {
        EraseExact(exact, slots, table, filter);
        exact := exact - {KeyOf(filter)};
        table := table - {filter};
        return;
      }
      EraseSlot(exact, slots, table, filter);
      ClearSlots(filter);
      table := table - {filter};
    }

    method ClearSlots(filter: Filter)
      modifies this`slots
      ensures slots == Cleared(old(slots), filter)
    {
      hide Cleared;
      ghost var cleared := Cleared(slots, filter);
      for i := 0 to |slots|
        invariant |slots| == |cleared|
        invariant forall j :: 0 <= j < i ==> slots[j] == cleared[j]
        invariant forall j :: i <= j < |slots| ==> slots[j] == old(slots)[j]
      {
        if slots[i].Some? && slots[i].value.filter == filter {
          slots := slots[i := None];
        }
      }
    }

    /** RegisterFrameReceivedHandler; `driverResult` is what the driver answers if a hardware filter is added. */
    method RegisterHandler(requested: Filter, hasHandler: bool, driverResult: int) returns (r: int)
      requires Valid()
      modifies this`exact, this`slots, this`table, this`nextHandlerId
      ensures Valid()
      ensures !isInitialized ==> r == ERR_NOT_INITIALIZED
      ensures isInitialized && (!hasHandler || !requested.IsValid()) ==> r == ERR_INVALID_ARGUMENT
      ensures !isInitialized || !hasHandler || !requested.IsValid() ==> Reg() == old(Reg())
      ensures isInitialized && hasHandler && requested.IsValid() ==>
        (Reg(), r) == Register(old(Reg()), IsDeferred(), requested, driverResult)
      ensures isInitialized && hasHandler && requested.IsValid() ==>
        && (r == ERR_FILTER_OVERLAP <==> CollidesOnly(old(Reg()), requested))
        && JoinedIfStored(old(Reg()), Reg(), IsDeferred(), requested, driverResult, r)
    {
      hide Filter.Overlaps, Filter.IsExact, Filter.IsValid, Filter.Normalized, KeyOf, Indexes, CollidesOnly, JoinedIfStored, Register, Sound;
      if !isInitialized { return ERR_NOT_INITIALIZED; }
      if !hasHandler || !requested.IsValid() { return ERR_INVALID_ARGUMENT; }
      var filter := requested.Normalized();
      NormalizedIsValid(requested);
      RegisterKeepsSound(Reg(), IsDeferred(), requested, driverResult);
      RegisterJoins(Reg(), IsDeferred(), requested, driverResult);
      r := AddHandler(filter, driverResult, requested);
    }

    /** The part of RegisterHandler for a valid normalized filter. */
    method AddHandler(filter: Filter, driverResult: int, ghost requested: Filter) returns (r: int)
      requires Valid() && filter == requested.Normalized() && filter.IsValid()
      modifies this`exact, this`slots, this`table, this`nextHandlerId
      ensures Indexes(exact, slots, table)
      ensures (Reg(), r) == Register(old(Reg()), IsDeferred(), requested, driverResult)
    {
      hide Filter.Overlaps, Filter.IsExact, Filter.IsValid, Filter.Normalized, KeyOf, Indexes, HasOverlap, IsTaken, MaskFilters, Sound, Register;
      ValidFilters();
      ghost var reg := Reg();
      RegisterRefuses(reg, IsDeferred(), requested, driverResult);
      var found := FindEntry(filter);
      var entry := Entry(filter, -1, {});
      if found.Some? {
        entry := found.value;
      } else {
        HasOverlapIsTaken(filter);
        if HasOverlap(filter) { return ERR_FILTER_OVERLAP; }
        var created := CreateEntry(filter);
        if !created { return ERR_TOO_MANY_FILTERS; }
      }
      if |entry.handlers| >= MAX_HANDLERS_PER_FILTER { return ERR_TOO_MANY_HANDLERS; }
      RegisterAdds(reg, IsDeferred(), requested, driverResult, entry, table);
      r := AddToEntry(entry, driverResult);
    }

    /** Adds the next handler to an entry of the table and installs its hardware filter, or undoes that. */
    method AddToEntry(entry: Entry, driverResult: int) returns (r: int)
      requires Indexes(exact, slots, table) && FiltersAreValid(table)
      requires entry.filter in table && table[entry.filter] == entry && nextHandlerId !in entry.handlers
      modifies this`exact, this`slots, this`table, this`nextHandlerId
      ensures Indexes(exact, slots, table) && nextHandlerId == old(nextHandlerId) + 1
      ensures var filterId := if IsDeferred() || entry.filterId >= 0 then entry.filterId else driverResult;
        if IsDeferred() || filterId >= 0 then
          && r == old(nextHandlerId)
          && table == old(table)[entry.filter := Entry(entry.filter, filterId, entry.handlers + {r})]
        else
          && r == ERR_FILTER_REJECTED
          && table == if entry.handlers == {} then old(table) - {entry.filter} else old(table)
    {
      hide Filter.Overlaps, Filter.IsExact, Filter.IsValid, Filter.Normalized, KeyOf, Indexes, HasOverlap, IsTaken, MaskFilters;
      var handlerId := nextHandlerId;
      nextHandlerId := nextHandlerId + 1;
      var added := entry.(handlers := entry.handlers + {handlerId});
      UpdateEntry(added);
      if isAutoDetecting && !isBitrateDetected { return handlerId; }
      if entry.filterId < 0 && driverResult < 0 {
        var left := added.handlers - {handlerId};
        assert left == entry.handlers;
        UpdateEntry(added.(handlers := left));
        if left == {} { EraseEntry(entry.filter); }
        return ERR_FILTER_REJECTED;
      }
      UpdateEntry(added.(filterId := if entry.filterId >= 0 then entry.filterId else driverResult));
      r := handlerId;
    }

    lemma ValidFilters()
      requires Valid()
      ensures FiltersAreValid(table)
      ensures forall f :: f in table ==> table[f].handlers != {} && nextHandlerId !in table[f].handlers
    {
      hide Filter.Overlaps, Filter.IsExact, Filter.IsValid, Filter.Normalized, Indexes;
      forall f | f in table ensures f.IsValid() && table[f].filter == f && table[f].handlers != {} && nextHandlerId !in table[f].handlers {
        assert EntryIsSound(f, table[f], nextHandlerId);
      }
    }

    method FindEntryByHandler(handlerId: int) returns (r: Option<Entry>)
      requires Valid()
      ensures r.Some? ==> r.value.filter in table && table[r.value.filter] == r.value && handlerId in r.value.handlers
      ensures r.None? ==> !IsRegistered(Reg(), handlerId)
    {
      hide Filter.Overlaps, Filter.IsExact, Filter.IsValid, Filter.Normalized, KeyOf, Sound;
      var keys := exact.Keys;
      while keys != {}
        invariant keys <= exact.Keys
        invariant forall k :: k in exact && k !in keys ==> handlerId !in exact[k].handlers
        decreases keys
      {
        var k :| k in keys;
        if handlerId in exact[k].handlers {
          assert KeyOf(exact[k].filter) == k;
          return Some(exact[k]);
        }
        keys := keys - {k};
      }
      for i := 0 to |slots|
        invariant forall j :: 0 <= j < i && slots[j].Some? ==> handlerId !in slots[j].value.handlers
      {
        if slots[i].Some? && handlerId in slots[i].value.handlers { return slots[i]; }
      }
      forall f | f in table ensures handlerId !in table[f].handlers {
        if f.IsExact() {
          assert KeyOf(f) in exact;
        } else {
          assert f in SlotFilters(slots);
        }
      }
      r := None;
    }

    method RemoveHandler(handlerId: int) returns (r: bool)
      requires Valid()
      modifies this`exact, this`slots, this`table
      ensures Valid()
      ensures r == (isInitialized && IsRegistered(old(Reg()), handlerId))
      ensures Reg() == if isInitialized then Remove(old(Reg()), handlerId) else old(Reg())
    {
      hide Filter.Overlaps, Filter.IsExact, Filter.IsValid, Filter.Normalized, KeyOf, Indexes, Sound, MaskFilters;
      if !isInitialized { return false; }
      var found := FindEntryByHandler(handlerId);
      if found.None? { return false; }
      var entry := found.value;
      ValidFilters();
      RemoveIsWithout(Reg(), entry.filter, handlerId);
      RemoveKeepsSound(Reg(), handlerId);
      var left := entry.handlers - {handlerId};
      if left != {} {
        UpdateEntry(entry.(handlers := left));
        return true;
      }
      EraseEntry(entry.filter);
      r := true;
    }

    /** What a handler does while it is called: it holds the lock, which it may take again. */
    method RunHandler(ops: seq<Op>)
      requires Valid() && isInitialized
      modifies this`exact, this`slots, this`table, this`nextHandlerId
      ensures Valid() && Reg() == ApplyAll(old(Reg()), IsDeferred(), ops)
    {
      hide Filter.IsValid, Register, Remove, Sound, Indexes;
      ghost var start := Reg();
      for i := 0 to |ops|
        invariant Valid()
        invariant ApplyAll(Reg(), IsDeferred(), ops[i..]) == ApplyAll(start, IsDeferred(), ops)
      {
        assert ops[i..][1..] == ops[i + 1..];
        match ops[i]
        case DoRegister(filter, driverResult) =>
          var id := RegisterHandler(filter, true, driverResult);
        case DoRemove(h) =>
          var removed := RemoveHandler(h);
      }
    }

    /**
     Calls the handlers of the entry that accepts a valid identifier. `bodies` says what each handler
     does to the registry when it is called; the snapshot is in any order, as the handler map is. An
     entry has at most MAX_HANDLERS_PER_FILTER handlers, so the snapshot holds them all.
     */
    method DispatchFrame(canId: CanId, bodies: Bodies) returns (snapshot: seq<int>, called: seq<int>)
      requires Valid() && isInitialized && canId.IsValid()
      modifies this`exact, this`slots, this`table, this`nextHandlerId
      ensures Valid() && Distinct(snapshot)
      ensures forall h :: h in snapshot <==>
        exists f :: f in old(table) && f.Matches(canId) && h in old(table)[f].handlers
      ensures called == Called(old(Reg()), IsDeferred(), snapshot, bodies)
      ensures Reg() == AfterTurns(old(Reg()), IsDeferred(), snapshot, bodies, |snapshot|)
    {
      hide Filter.IsValid, Filter.Matches, Sound, Indexes, IsRegistered, ApplyAll, Called, AfterTurns, IsAtHome, IsDispatching, CanId.IsValid;
      snapshot, called := [], [];
      var entry := FindMatchingEntry(canId);
      if entry.None? {
        NoneMatches(Reg(), IsDeferred(), bodies);
        return;
      }
      snapshot := Listed(entry.value.handlers);
      ghost var start, f := Reg(), entry.value.filter;
      SnapshotIsOwned(start, canId, f, snapshot);
      DispatchBegins(start, IsDeferred(), snapshot, bodies, f);
      for i := 0 to |snapshot|
        invariant Valid()
        invariant IsDispatching(start, IsDeferred(), snapshot, bodies, f, i, Reg(), called)
      {
        var current := FindMatchingEntry(canId);
        TurnIsMatching(start, IsDeferred(), snapshot, bodies, f, i, Reg(), called, canId, current);
        if current.None? {
          DispatchStops(start, IsDeferred(), snapshot, bodies, f, i, Reg(), called);
          return;
        }
        if snapshot[i] in current.value.handlers {
          TurnCalls(start, IsDeferred(), snapshot, bodies, f, i, Reg(), called);
          RunHandler(bodies(snapshot[i]));
          called := called + [snapshot[i]];
        } else {
          TurnPasses(start, IsDeferred(), snapshot, bodies, f, i, Reg(), called);
        }
      }
      DispatchStops(start, IsDeferred(), snapshot, bodies, f, |snapshot|, Reg(), called);
    }
  }

  lemma NothingIsIndexed(reg: Registry)
    requires Sound(reg)
    ensures Indexes(map[], [None, None, None, None], map[]) && Sound(reg.(table := map[]))
  {
    assert MaskFilters(map[]) == {};
    var slots: Slots := [None, None, None, None];
    assert SlotFilters(slots) == {};
  }

  lemma RegisterRefuses(reg: Registry, deferred: bool, requested: Filter, driverResult: int)
    ensures var f := requested.Normalized();
      && (f !in reg.table && IsTaken(reg, f) ==> Register(reg, deferred, requested, driverResult) == (reg, ERR_FILTER_OVERLAP))
      && (f !in reg.table && !IsTaken(reg, f) && !f.IsExact() && |MaskFilters(reg.table)| >= MAX_MASK_FILTERS ==>
            Register(reg, deferred, requested, driverResult) == (reg, ERR_TOO_MANY_FILTERS))
      && (f in reg.table && |reg.table[f].handlers| >= MAX_HANDLERS_PER_FILTER ==>
            Register(reg, deferred, requested, driverResult) == (reg, ERR_TOO_MANY_HANDLERS))
  {
    hide IsTaken, MaskFilters, Filter.Normalized, Filter.IsExact;
  }

  /** Adding to the entry of the filter, a new one if need be, or undoing that, is what the registry does. */
  lemma RegisterAdds(reg: Registry, deferred: bool, requested: Filter, driverResult: int, entry: Entry, before: map<Filter, Entry>)
    requires var f := requested.Normalized();
      && |entry.handlers| < MAX_HANDLERS_PER_FILTER && entry.filter == f
      && (f in reg.table ==> reg.table[f] == entry && entry.handlers != {} && before == reg.table)
      && (f !in reg.table ==> !IsTaken(reg, f) && (f.IsExact() || |MaskFilters(reg.table)| < MAX_MASK_FILTERS))
      && (f !in reg.table ==> entry == Entry(f, -1, {}) && before == reg.table[f := entry])
    ensures var filterId := if deferred || entry.filterId >= 0 then entry.filterId else driverResult;
      Register(reg, deferred, requested, driverResult) ==
        if deferred || filterId >= 0 then
          (Registry(before[entry.filter := Entry(entry.filter, filterId, entry.handlers + {reg.next})], reg.next + 1), reg.next)
        else
          (Registry(if entry.handlers == {} then before - {entry.filter} else before, reg.next + 1), ERR_FILTER_REJECTED)
  {
    hide IsTaken, MaskFilters, Filter.Normalized, Filter.IsExact;
    var f := requested.Normalized();
    var filterId := if deferred || entry.filterId >= 0 then entry.filterId else driverResult;
    var added := Entry(f, filterId, entry.handlers + {reg.next});
    assert before[f := added] == reg.table[f := added];
    if f !in reg.table {
      assert before - {f} == reg.table;
    }
  }

  lemma NoneMatches(reg: Registry, deferred: bool, bodies: Bodies)
    ensures Called(reg, deferred, [], bodies) == [] && AfterTurns(reg, deferred, [], bodies, 0) == reg
  {
  }

  lemma TurnIsMatching(start: Registry, deferred: bool, snapshot: seq<int>, bodies: Bodies, f: Filter, i: nat,
                       now: Registry, called: seq<int>, c: CanId, found: Option<Entry>)
    requires IsDispatching(start, deferred, snapshot, bodies, f, i, now, called) && Sound(now) && f.Matches(c)
    requires found.Some? ==> found.value.filter in now.table && now.table[found.value.filter] == found.value && found.value.filter.Matches(c)
    requires found.None? ==> forall g :: g in now.table ==> !g.Matches(c)
    ensures forall h :: h in snapshot ==> (IsRegistered(now, h) <==> found.Some? && h in found.value.handlers)
  {
    hide Sound, IsAtHome, IsRegistered, Called, AfterTurns, Filter.Matches;
    forall h | h in snapshot ensures IsRegistered(now, h) <==> found.Some? && h in found.value.handlers {
      HomeIsMatching(now, c, f, h, found);
    }
  }

  /** A handler of the snapshot is registered exactly when the entry that accepts the identifier now holds it. */
  lemma HomeIsMatching(reg: Registry, c: CanId, f: Filter, h: int, found: Option<Entry>)
    requires Sound(reg) && IsAtHome(reg, f, h) && f.Matches(c)
    requires found.Some? ==> found.value.filter in reg.table && reg.table[found.value.filter] == found.value && found.value.filter.Matches(c)
    requires found.None? ==> forall g :: g in reg.table ==> !g.Matches(c)
    ensures IsRegistered(reg, h) <==> found.Some? && h in found.value.handlers
  {
    hide MaskFilters, EntryIsSound, Filter.IsValid, Filter.IsExact, Filter.Normalized, Filter.Matches, Filter.Overlaps;
    if IsRegistered(reg, h) {
      assert f in reg.table && h in reg.table[f].handlers;
      OwnerIsUnique(reg, c, f, found.value.filter);
    }
  }

  lemma RemoveIsWithout(reg: Registry, f: Filter, h: int)
    requires Sound(reg) && f in reg.table && h in reg.table[f].handlers
    ensures IsRegistered(reg, h) && Remove(reg, h) == reg.(table := Without(reg.table, f, h))
  {
    hide Filter.Overlaps, Filter.IsExact, Filter.IsValid, Filter.Normalized, MaskFilters, EntryIsSound;
    assert forall g :: g in reg.table && h in reg.table[g].handlers ==> g == f;
  }

  lemma SlotsOf(exact: map<Key, Entry>, slots: Slots, table: map<Filter, Entry>)
    requires Indexes(exact, slots, table)
    ensures SlotsHold(slots, table)
  {
  }

  lemma ValidExactId(f: Filter)
    requires f.IsValid()
    ensures CanId(f.id, f.isExtended).IsValid()
  {
    hide Within;
  }
}
