/**
 The filter table of a CAN channel as one map from filter to entry, what registering and removing a
 handler do to it, and what a dispatch calls while the handlers themselves register and remove.
 */
module CanRegistry {
  import opened CanFilter
  import opened Listing

  const ERR_NOT_INITIALIZED := -1
  const ERR_FILTER_REJECTED := -2
  const ERR_TOO_MANY_HANDLERS := -3
  const ERR_INVALID_ARGUMENT := -4
  const ERR_FILTER_OVERLAP := -5
  const ERR_TOO_MANY_FILTERS := -6
  const MAX_HANDLERS_PER_FILTER := 8
  const MAX_MASK_FILTERS := 4

  /** A filter, its hardware filter (-1 while none is installed) and the ids of its handlers. */
  datatype Entry = Entry(filter: Filter, filterId: int, handlers: set<int>)

  datatype Registry = Registry(table: map<Filter, Entry>, next: int)

  function MaskFilters(table: map<Filter, Entry>): set<Filter>
  {
    set f | f in table && !f.IsExact()
  }

  ghost predicate EntryIsSound(f: Filter, e: Entry, next: int)
  {
    && f.IsValid() && f.Normalized() == f && e.filter == f
    && 0 < |e.handlers| <= MAX_HANDLERS_PER_FILTER
    && forall h :: h in e.handlers ==> 1 <= h < next
  }

  /**
   Filters are normalized and pairwise disjoint, no entry is without handlers, and no handler is in
   two entries.
   */
  ghost predicate Sound(reg: Registry)
  {
    && 1 <= reg.next
    && (forall f :: f in reg.table ==> EntryIsSound(f, reg.table[f], reg.next))
    && (forall f, g :: f in reg.table && g in reg.table && f != g ==>
          !f.Overlaps(g) && reg.table[f].handlers !! reg.table[g].handlers)
    && |MaskFilters(reg.table)| <= MAX_MASK_FILTERS
  }

  predicate IsTaken(reg: Registry, f: Filter)
  {
    exists g :: g in reg.table && g.Overlaps(f)
  }

  /**
   Registering a handler for `filter`, a valid one, with what the driver answers if it is asked;
   `deferred` while hardware filters wait for the bitrate.
   */
  function Register(reg: Registry, deferred: bool, filter: Filter, driverResult: int): (Registry, int)
  {
    var f := filter.Normalized();
    if f !in reg.table && IsTaken(reg, f) then (reg, ERR_FILTER_OVERLAP)
    else if f !in reg.table && !f.IsExact() && |MaskFilters(reg.table)| >= MAX_MASK_FILTERS then (reg, ERR_TOO_MANY_FILTERS)
    else
      var entry := if f in reg.table then reg.table[f] else Entry(f, -1, {});
      if |entry.handlers| >= MAX_HANDLERS_PER_FILTER then (reg, ERR_TOO_MANY_HANDLERS)
      else
        var filterId := if deferred || entry.filterId >= 0 then entry.filterId else driverResult;
        if !deferred && filterId < 0 then (reg.(next := reg.next + 1), ERR_FILTER_REJECTED)
        else
          (Registry(reg.table[f := Entry(f, filterId, entry.handlers + {reg.next})], reg.next + 1), reg.next)
  }

  ghost predicate IsRegistered(reg: Registry, h: int)
  {
    exists f :: f in reg.table && h in reg.table[f].handlers
  }

  /** The table without handler `h`, which is one of the handlers of `f`; an entry goes with its last handler. */
  function Without(table: map<Filter, Entry>, f: Filter, h: int): map<Filter, Entry>
    requires f in table
  {
    if table[f].handlers == {h} then table - {f}
    else table[f := table[f].(handlers := table[f].handlers - {h})]
  }

  ghost function Remove(reg: Registry, h: int): Registry
  {
    if IsRegistered(reg, h) then
      var f :| f in reg.table && h in reg.table[f].handlers;
      reg.(table := Without(reg.table, f, h))
    else reg
  }

  // ---- What registering and removing keep -------------------------------------------------------

  /** A failed registration leaves the table as it was, a successful one adds exactly the new handler. */
  lemma RegisterChanges(reg: Registry, deferred: bool, filter: Filter, driverResult: int)
    requires Sound(reg)
    ensures var (after, r) := Register(reg, deferred, filter, driverResult);
      && (r < 0 ==> after.table == reg.table)
      && (r >= 0 ==> r == reg.next && !IsRegistered(reg, r))
      && (r >= 0 ==> forall h :: IsRegistered(after, h) <==> IsRegistered(reg, h) || h == r)
      && reg.next <= after.next
  {
    hide EntryIsSound, IsTaken;
    var f := filter.Normalized();
    var (after, r) := Register(reg, deferred, filter, driverResult);
    if r >= 0 {
      NextIsFree(reg);
      forall h ensures IsRegistered(after, h) <==> IsRegistered(reg, h) || h == r {
        if IsRegistered(reg, h) {
          var g :| g in reg.table && h in reg.table[g].handlers;
          assert g in after.table && h in after.table[g].handlers;
        }
        if h == r { assert h in after.table[f].handlers; }
      }
    }
  }

  /** A stored filter that accepts the same identifiers. */
  ghost predicate IsStored(reg: Registry, g: Filter, filter: Filter)
  {
    g in reg.table && AcceptsTheSame(g, filter)
  }

  /** Some identifier passes a stored filter and this one. */
  ghost predicate SharesIds(reg: Registry, filter: Filter)
  {
    exists g, c: CanId :: g in reg.table && c.IsValid() && g.Matches(c) && filter.Matches(c)
  }

  /** Of all filters that accept the same identifiers the table stores the normalized one. */
  lemma StoredIsNormalized(reg: Registry, g: Filter, filter: Filter)
    requires Sound(reg) && filter.IsValid()
    ensures IsStored(reg, g, filter) <==> g in reg.table && g == filter.Normalized()
  {
    hide Filter.IsValid, Filter.Normalized, Filter.Overlaps, AcceptsTheSame, MaskFilters;
    if g in reg.table {
      assert EntryIsSound(g, reg.table[g], reg.next);
      SameNormalizedIff(g, filter);
    }
  }

  lemma TakenIffShared(reg: Registry, filter: Filter)
    requires Sound(reg) && filter.IsValid()
    ensures IsTaken(reg, filter.Normalized()) <==> SharesIds(reg, filter)
  {
    hide Filter.IsValid, Filter.Normalized, Filter.Overlaps, Filter.Matches, MaskFilters, CanId.IsValid;
    var f := filter.Normalized();
    NormalizedIsValid(filter);
    forall c: CanId ensures f.Matches(c) <==> filter.Matches(c) { NormalizedAcceptsTheSame(filter, c); }
    forall g | g in reg.table
      ensures g.Overlaps(f) <==> exists c: CanId :: c.IsValid() && g.Matches(c) && filter.Matches(c)
    {
      assert EntryIsSound(g, reg.table[g], reg.next);
      OverlapsIffCommonId(g, f);
      if c: CanId :| c.IsValid() && g.Matches(c) && f.Matches(c) {
        assert c.IsValid() && g.Matches(c) && filter.Matches(c);
      }
      if c: CanId :| c.IsValid() && g.Matches(c) && filter.Matches(c) {
        assert c.IsValid() && g.Matches(c) && f.Matches(c);
      }
    }
  }

  /** Which answer every registration gets, by the identifiers that the filters accept. */
  lemma RegisterOutcome(reg: Registry, deferred: bool, filter: Filter, driverResult: int)
    requires Sound(reg) && filter.IsValid()
    ensures var (after, r) := Register(reg, deferred, filter, driverResult);
      var isNew := forall g :: !IsStored(reg, g, filter);
      && (r == ERR_FILTER_OVERLAP <==> isNew && SharesIds(reg, filter))
      && (r == ERR_TOO_MANY_FILTERS <==>
           isNew && !SharesIds(reg, filter) && !filter.IsExact() && |MaskFilters(reg.table)| >= MAX_MASK_FILTERS)
      && (r == ERR_TOO_MANY_HANDLERS <==>
           exists g :: IsStored(reg, g, filter) && |reg.table[g].handlers| >= MAX_HANDLERS_PER_FILTER)
      && (r < 0 ==> r in {ERR_FILTER_OVERLAP, ERR_TOO_MANY_FILTERS, ERR_TOO_MANY_HANDLERS, ERR_FILTER_REJECTED})
      && (r == ERR_FILTER_REJECTED <==>
           && !deferred && driverResult < 0
           && ((isNew && !SharesIds(reg, filter) && (filter.IsExact() || |MaskFilters(reg.table)| < MAX_MASK_FILTERS))
               || exists g :: IsStored(reg, g, filter) && |reg.table[g].handlers| < MAX_HANDLERS_PER_FILTER && reg.table[g].filterId < 0))
  {
    hide EntryIsSound, IsTaken, SharesIds, MaskFilters, Filter.IsValid, IsStored;
    TakenIffShared(reg, filter);
    forall g ensures IsStored(reg, g, filter) <==> g in reg.table && g == filter.Normalized() {
      StoredIsNormalized(reg, g, filter);
    }
  }

  /**
   A filter that accepts the same identifiers as a stored one, however it is spelled, joins its entry when there is
   room and the hardware filter is there, can be installed or is deferred.
   */
  lemma SecondSpellingJoins(reg: Registry, deferred: bool, filter: Filter, driverResult: int, g: Filter)
    requires Sound(reg) && filter.IsValid() && IsStored(reg, g, filter)
    requires |reg.table[g].handlers| < MAX_HANDLERS_PER_FILTER
    requires deferred || reg.table[g].filterId >= 0 || driverResult >= 0
    ensures var (after, r) := Register(reg, deferred, filter, driverResult);
      && r == reg.next && after.next == reg.next + 1
      && after.table.Keys == reg.table.Keys && after.table[g].handlers == reg.table[g].handlers + {r}
      && after.table[g].filterId == (if deferred || reg.table[g].filterId >= 0 then reg.table[g].filterId else driverResult)
      && forall f :: f in reg.table && f != g ==> after.table[f] == reg.table[f]
  {
    hide EntryIsSound, IsTaken, MaskFilters, Filter.IsValid, Filter.Normalized, IsStored;
    StoredIsNormalized(reg, g, filter);
  }

  /** Some stored filter shares an identifier with this one, and none accepts the same identifiers. */
  ghost predicate CollidesOnly(reg: Registry, filter: Filter)
  {
    SharesIds(reg, filter) && forall g :: !IsStored(reg, g, filter)
  }

  /** Handler `r` is now the additional one of the entry that accepts the same identifiers, if that had room. */
  ghost predicate JoinedIfStored(reg: Registry, after: Registry, deferred: bool, filter: Filter, driverResult: int, r: int)
  {
    forall g :: IsStored(reg, g, filter) && |reg.table[g].handlers| < MAX_HANDLERS_PER_FILTER
                && (deferred || reg.table[g].filterId >= 0 || driverResult >= 0) ==>
      g in after.table && after.table[g].handlers == reg.table[g].handlers + {r}
  }

  lemma RegisterJoins(reg: Registry, deferred: bool, filter: Filter, driverResult: int)
    requires Sound(reg) && filter.IsValid()
    ensures var (after, r) := Register(reg, deferred, filter, driverResult);
      JoinedIfStored(reg, after, deferred, filter, driverResult, r) && (r == ERR_FILTER_OVERLAP <==> CollidesOnly(reg, filter))
  {
    hide Sound, Filter.IsValid, Filter.Normalized, AcceptsTheSame, SharesIds, Register;
    RegisterOutcome(reg, deferred, filter, driverResult);
    forall g | IsStored(reg, g, filter) && |reg.table[g].handlers| < MAX_HANDLERS_PER_FILTER
               && (deferred || reg.table[g].filterId >= 0 || driverResult >= 0)
      ensures var (after, r) := Register(reg, deferred, filter, driverResult);
        g in after.table && after.table[g].handlers == reg.table[g].handlers + {r}
    {
      SecondSpellingJoins(reg, deferred, filter, driverResult, g);
    }
  }

  /** A filter that shares no identifier with a stored one gets an entry of its own with that one handler. */
  lemma NewFilterIsAdded(reg: Registry, deferred: bool, filter: Filter, driverResult: int)
    requires Sound(reg) && filter.IsValid() && !SharesIds(reg, filter)
    requires filter.IsExact() || |MaskFilters(reg.table)| < MAX_MASK_FILTERS
    ensures var (after, r) := Register(reg, deferred, filter, driverResult);
      if !deferred && driverResult < 0 then r == ERR_FILTER_REJECTED && after.table == reg.table
      else
        && r == reg.next && after.next == reg.next + 1
        && exists f :: f !in reg.table && AcceptsTheSame(f, filter)
             && after.table == reg.table[f := Entry(f, if deferred then -1 else driverResult, {r})]
  {
    hide EntryIsSound, IsTaken, SharesIds, MaskFilters, Filter.IsValid, AcceptsTheSame;
    TakenIffShared(reg, filter);
    NewIsNotStored(reg, filter);
    NormalizedIsValid(filter);
    SameNormalizedIff(filter.Normalized(), filter);
  }

  lemma NewIsNotStored(reg: Registry, filter: Filter)
    requires Sound(reg) && filter.IsValid() && !SharesIds(reg, filter)
    ensures filter.Normalized() !in reg.table
  {
    hide Filter.IsValid, Filter.Normalized, Filter.Overlaps, MaskFilters, SharesIds;
    TakenIffShared(reg, filter);
    OverlapsItself(filter.Normalized());
  }

  lemma OverlapsItself(f: Filter)
    ensures f.Overlaps(f)
  {
    hide Masked;
    AgreesWithItself(f.id, Masked(f.mask, f.mask));
  }

  lemma NextIsFree(reg: Registry)
    requires Sound(reg)
    ensures !IsRegistered(reg, reg.next)
  {
  }

  lemma RegisterKeepsSound(reg: Registry, deferred: bool, filter: Filter, driverResult: int)
    requires Sound(reg) && filter.IsValid()
    ensures Sound(Register(reg, deferred, filter, driverResult).0)
  {
    hide Filter.Overlaps, Filter.IsExact, Filter.IsValid, Filter.Normalized, MaskFilters, IsTaken, EntryIsSound;
    var f := filter.Normalized();
    var (after, r) := Register(reg, deferred, filter, driverResult);
    NormalizedIsValid(filter);
    if r >= 0 {
      AddingKeepsSound(reg, f, after.table[f].filterId);
    } else {
      LaterNextKeepsSound(reg);
    }
  }

  lemma LaterNextKeepsSound(reg: Registry)
    requires Sound(reg)
    ensures Sound(reg.(next := reg.next + 1))
  {
    hide Filter.Overlaps, Filter.IsExact, Filter.IsValid, Filter.Normalized, MaskFilters;
  }

  /** The handlers of `f`, none when there is no entry for it. */
  function HandlersOf(table: map<Filter, Entry>, f: Filter): set<int>
  {
    if f in table then table[f].handlers else {}
  }

  lemma AddingKeepsSound(reg: Registry, f: Filter, filterId: int)
    requires Sound(reg) && f.IsValid() && f.Normalized() == f
    requires f in reg.table || (!IsTaken(reg, f) && (f.IsExact() || |MaskFilters(reg.table)| < MAX_MASK_FILTERS))
    requires |HandlersOf(reg.table, f)| < MAX_HANDLERS_PER_FILTER
    ensures Sound(Registry(reg.table[f := Entry(f, filterId, HandlersOf(reg.table, f) + {reg.next})], reg.next + 1))
  {
    hide Filter.Overlaps, Filter.IsExact, Filter.IsValid, Filter.Normalized, EntryIsSound, MaskFilters;
    var entry := Entry(f, filterId, HandlersOf(reg.table, f) + {reg.next});
    var after := Registry(reg.table[f := entry], reg.next + 1);
    AddedEntryIsSound(reg, f, filterId);
    AddedMaskFilters(reg.table, f, entry);
    forall g | g in reg.table && g != f
      ensures !f.Overlaps(g) && !g.Overlaps(f) && entry.handlers !! reg.table[g].handlers
      ensures EntryIsSound(g, reg.table[g], after.next)
    {
      OverlapIsSymmetric(f, g);
      LaterEntryIsSound(g, reg.table[g], reg.next);
    }
  }

  lemma LaterEntryIsSound(f: Filter, e: Entry, next: int)
    requires EntryIsSound(f, e, next)
    ensures EntryIsSound(f, e, next + 1) && next !in e.handlers
  {
    hide Filter.IsExact, Filter.IsValid, Filter.Normalized;
  }

  lemma AddedEntryIsSound(reg: Registry, f: Filter, filterId: int)
    requires f.IsValid() && f.Normalized() == f && 1 <= reg.next
    requires f in reg.table ==> EntryIsSound(f, reg.table[f], reg.next)
    requires |HandlersOf(reg.table, f)| < MAX_HANDLERS_PER_FILTER
    ensures EntryIsSound(f, Entry(f, filterId, HandlersOf(reg.table, f) + {reg.next}), reg.next + 1)
  {
    hide Filter.IsExact, Filter.IsValid, Filter.Normalized;
  }

  lemma AddedMaskFilters(table: map<Filter, Entry>, f: Filter, e: Entry)
    ensures f in table || f.IsExact() ==> |MaskFilters(table[f := e])| == |MaskFilters(table)|
    ensures |MaskFilters(table[f := e])| <= |MaskFilters(table)| + 1
  {
    hide Filter.IsExact;
    if f in table || f.IsExact() {
      assert MaskFilters(table[f := e]) == MaskFilters(table);
    } else {
      assert MaskFilters(table[f := e]) == MaskFilters(table) + {f};
    }
  }

  lemma NormalizedIsValid(f: Filter)
    requires f.IsValid()
    ensures f.Normalized().IsValid() && f.Normalized().Normalized() == f.Normalized()
  {
    hide Within, Masked;
    MaskedTwice(f.id, f.mask);
    MaskedIsWithin(f.id, f.mask, WidthMask(f.isExtended));
  }

  lemma RemoveKeepsSound(reg: Registry, h: int)
    requires Sound(reg)
    ensures Sound(Remove(reg, h))
    ensures forall g :: IsRegistered(Remove(reg, h), g) <==> IsRegistered(reg, g) && g != h
    ensures Remove(reg, h).next == reg.next
  {
    hide Filter.Overlaps, Filter.IsExact, Filter.IsValid, Filter.Normalized;
    if IsRegistered(reg, h) {
      var f :| f in reg.table && h in reg.table[f].handlers && Remove(reg, h) == reg.(table := Without(reg.table, f, h));
      WithoutKeepsSound(reg, f, h);
    }
  }

  lemma SoundEntryHasHandlers(f: Filter, e: Entry, next: int)
    requires EntryIsSound(f, e, next)
    ensures e.handlers != {} && e.filter == f
  {
    hide Filter.IsValid, Filter.Normalized;
  }

  lemma WithoutTakes(table: map<Filter, Entry>, e: Filter, h: int, f: Filter)
    requires e in table && h in table[e].handlers
    ensures var after := Without(table, e, h);
      if f != e then (f in after <==> f in table) && (f in table ==> after[f] == table[f])
      else (f in after <==> table[e].handlers - {h} != {}) && (f in after ==> after[f] == table[e].(handlers := table[e].handlers - {h}))
  {
    assert table[e].handlers - {h} == {} ==> table[e].handlers == {h};
  }

  /** Removing a handler takes it from its own entry, which goes with its last one, and leaves all else as it is. */
  lemma RemoveTakesFromOwnEntry(reg: Registry, h: int, f: Filter)
    requires Sound(reg)
    ensures var after := Remove(reg, h);
      && HandlersOf(after.table, f) == HandlersOf(reg.table, f) - {h}
      && (f in after.table <==> HandlersOf(reg.table, f) - {h} != {})
      && (f in after.table ==> f in reg.table && after.table[f].filterId == reg.table[f].filterId && after.table[f].filter == f)
  {
    hide Filter.Overlaps, Filter.IsExact, Filter.IsValid, Filter.Normalized, MaskFilters, Without, EntryIsSound;
    if f in reg.table {
      assert EntryIsSound(f, reg.table[f], reg.next);
      SoundEntryHasHandlers(f, reg.table[f], reg.next);
    }
    if IsRegistered(reg, h) {
      var e :| e in reg.table && h in reg.table[e].handlers && Remove(reg, h) == reg.(table := Without(reg.table, e, h));
      WithoutTakes(reg.table, e, h, f);
      assert f in reg.table && f != e ==> h !in reg.table[f].handlers;
    }
  }

  lemma WithoutKeepsSound(reg: Registry, f: Filter, h: int)
    requires Sound(reg) && f in reg.table && h in reg.table[f].handlers
    ensures var after := reg.(table := Without(reg.table, f, h));
      Sound(after) && forall g :: IsRegistered(after, g) <==> IsRegistered(reg, g) && g != h
  {
    hide Filter.Overlaps, Filter.IsExact, Filter.IsValid, Filter.Normalized, EntryIsSound, MaskFilters;
    var after := reg.(table := Without(reg.table, f, h));
    WithoutMaskFilters(reg.table, f, h);
    forall g | g in after.table ensures EntryIsSound(g, after.table[g], after.next) {
      FewerHandlersAreSound(g, reg.table[g], after.table[g], h, reg.next);
    }
    forall g ensures IsRegistered(after, g) <==> IsRegistered(reg, g) && g != h {
      if IsRegistered(reg, g) && g != h {
        var e :| e in reg.table && g in reg.table[e].handlers;
        assert e in after.table && g in after.table[e].handlers;
      }
    }
  }

  lemma FewerHandlersAreSound(f: Filter, e: Entry, left: Entry, h: int, next: int)
    requires EntryIsSound(f, e, next) && left.filter == e.filter
    requires left.handlers == e.handlers || (e.handlers != {h} && left.handlers == e.handlers - {h})
    ensures EntryIsSound(f, left, next)
  {
    hide Filter.IsExact, Filter.IsValid, Filter.Normalized;
    SubsetIsSmaller(left.handlers, e.handlers);
    assert left.handlers == e.handlers - {h} ==> e.handlers <= left.handlers + {h};
    assert e.handlers <= {h} ==> e.handlers == {} || e.handlers == {h};
  }

  lemma WithoutMaskFilters(table: map<Filter, Entry>, f: Filter, h: int)
    requires f in table
    ensures |MaskFilters(Without(table, f, h))| <= |MaskFilters(table)|
  {
    hide Filter.IsExact;
    SubsetIsSmaller(MaskFilters(Without(table, f, h)), MaskFilters(table));
  }

  /** Each identifier matches at most one entry. */
  lemma OwnerIsUnique(reg: Registry, c: CanId, f: Filter, g: Filter)
    requires Sound(reg) && f in reg.table && g in reg.table && f.Matches(c) && g.Matches(c)
    ensures f == g
  {
    MatchingFiltersOverlap(f, g, c);
  }

  // ---- Dispatch ---------------------------------------------------------------------------------

  /** What a handler may do to the registry while it is called. */
  datatype Op = DoRegister(filter: Filter, driverResult: int) | DoRemove(handler: int)

  ghost function Apply(reg: Registry, deferred: bool, op: Op): Registry
  {
    match op
    case DoRegister(filter, driverResult) =>
      if filter.IsValid() then Register(reg, deferred, filter, driverResult).0 else reg
    case DoRemove(h) => Remove(reg, h)
  }

  ghost function ApplyAll(reg: Registry, deferred: bool, ops: seq<Op>): Registry
    decreases |ops|
  {
    if ops == [] then reg else ApplyAll(Apply(reg, deferred, ops[0]), deferred, ops[1..])
  }

  /** What each handler does when it is called. */
  type Bodies = int -> seq<Op>

  /** The handlers a dispatch calls, in the order of the snapshot: those registered at their turn. */
  ghost function Called(reg: Registry, deferred: bool, snapshot: seq<int>, bodies: Bodies): seq<int>
    decreases |snapshot|
  {
    if snapshot == [] then []
    else if IsRegistered(reg, snapshot[0]) then
      [snapshot[0]] + Called(ApplyAll(reg, deferred, bodies(snapshot[0])), deferred, snapshot[1..], bodies)
    else Called(reg, deferred, snapshot[1..], bodies)
  }

  /** The registry after the first `n` turns. */
  ghost function AfterTurns(reg: Registry, deferred: bool, snapshot: seq<int>, bodies: Bodies, n: nat): Registry
    requires n <= |snapshot|
    decreases n
  {
    if n == 0 then reg
    else
      var before := AfterTurns(reg, deferred, snapshot, bodies, n - 1);
      var h := snapshot[n - 1];
      if IsRegistered(before, h) then ApplyAll(before, deferred, bodies(h)) else before
  }

  lemma ApplyKeeps(reg: Registry, deferred: bool, op: Op, h: int)
    requires Sound(reg)
    ensures Sound(Apply(reg, deferred, op)) && reg.next <= Apply(reg, deferred, op).next
    ensures h < reg.next && !IsRegistered(reg, h) ==> !IsRegistered(Apply(reg, deferred, op), h)
  {
    hide Sound, IsRegistered, Register, Remove, Filter.IsValid;
    match op
    case DoRegister(filter, driverResult) =>
      if filter.IsValid() {
        RegisterChanges(reg, deferred, filter, driverResult);
        RegisterKeepsSound(reg, deferred, filter, driverResult);
        SameTableSameHandlers(reg, Register(reg, deferred, filter, driverResult).0, h);
      }
    case DoRemove(g) => RemoveKeepsSound(reg, g);
  }

  lemma SameTableSameHandlers(a: Registry, b: Registry, h: int)
    ensures a.table == b.table ==> IsRegistered(a, h) == IsRegistered(b, h)
  {
  }

  /** Handler ids are never reused: one that is gone stays gone, whatever is registered after. */
  lemma {:induction false} GoneStaysGone(reg: Registry, deferred: bool, ops: seq<Op>, h: int)
    requires Sound(reg)
    ensures Sound(ApplyAll(reg, deferred, ops)) && reg.next <= ApplyAll(reg, deferred, ops).next
    ensures h < reg.next && !IsRegistered(reg, h) ==> !IsRegistered(ApplyAll(reg, deferred, ops), h)
    decreases |ops|
  {
    hide Sound, IsRegistered, Apply;
    if ops != [] {
      ApplyKeeps(reg, deferred, ops[0], h);
      GoneStaysGone(Apply(reg, deferred, ops[0]), deferred, ops[1..], h);
    }
  }

  /** A handler registered before now is in the entry of `f` or in none. */
  ghost predicate IsAtHome(reg: Registry, f: Filter, h: int)
  {
    h < reg.next && forall g :: g in reg.table && h in reg.table[g].handlers ==> g == f
  }

  lemma HomeStays(reg: Registry, deferred: bool, op: Op, f: Filter, h: int)
    requires Sound(reg) && IsAtHome(reg, f, h)
    ensures IsAtHome(Apply(reg, deferred, op), f, h)
  {
    hide EntryIsSound, IsTaken, MaskFilters, Filter.IsValid, Filter.IsExact, Filter.Normalized;
  }

  lemma {:induction false} HomesStay(reg: Registry, deferred: bool, ops: seq<Op>, f: Filter, hs: seq<int>)
    requires Sound(reg) && forall h :: h in hs ==> IsAtHome(reg, f, h)
    ensures forall h :: h in hs ==> IsAtHome(ApplyAll(reg, deferred, ops), f, h)
    decreases |ops|
  {
    hide Sound, IsAtHome, Apply;
    if ops != [] {
      ApplyKeeps(reg, deferred, ops[0], 0);
      forall h | h in hs ensures IsAtHome(Apply(reg, deferred, ops[0]), f, h) {
        HomeStays(reg, deferred, ops[0], f, h);
      }
      HomesStay(Apply(reg, deferred, ops[0]), deferred, ops[1..], f, hs);
    }
  }

  /** The handlers of the matching entry are those of all entries that accept the identifier. */
  lemma SnapshotIsOwned(reg: Registry, c: CanId, f: Filter, hs: seq<int>)
    requires Sound(reg) && f in reg.table && f.Matches(c)
    requires forall h :: h in hs <==> h in reg.table[f].handlers
    ensures forall h :: h in hs <==> exists g :: g in reg.table && g.Matches(c) && h in reg.table[g].handlers
    ensures forall h :: h in hs ==> IsAtHome(reg, f, h)
  {
    hide MaskFilters, Filter.IsValid, Filter.IsExact, Filter.Normalized, Filter.Matches, Filter.Overlaps;
    forall g | g in reg.table && g.Matches(c) ensures g == f {
      OwnerIsUnique(reg, c, f, g);
    }
    assert EntryIsSound(f, reg.table[f], reg.next);
  }

  lemma DistinctCons(x: int, xs: seq<int>)
    requires Distinct(xs) && x !in xs
    ensures Distinct([x] + xs)
  {
  }

  lemma {:induction false} CalledAreOfSnapshot(reg: Registry, deferred: bool, snapshot: seq<int>, bodies: Bodies)
    requires Distinct(snapshot)
    ensures Distinct(Called(reg, deferred, snapshot, bodies))
    ensures forall h :: h in Called(reg, deferred, snapshot, bodies) ==> h in snapshot
    decreases |snapshot|
  {
    hide IsRegistered, ApplyAll;
    if snapshot != [] {
      assert forall h :: h in snapshot[1..] ==> h != snapshot[0];
      var after := ApplyAll(reg, deferred, bodies(snapshot[0]));
      CalledAreOfSnapshot(after, deferred, snapshot[1..], bodies);
      CalledAreOfSnapshot(reg, deferred, snapshot[1..], bodies);
      var rest := Called(after, deferred, snapshot[1..], bodies);
      assert snapshot[0] !in rest;
      DistinctCons(snapshot[0], rest);
    }
  }

  lemma {:induction false} TurnsShift(reg: Registry, deferred: bool, snapshot: seq<int>, bodies: Bodies, n: nat)
    requires 0 < n <= |snapshot|
    ensures AfterTurns(reg, deferred, snapshot, bodies, n)
         == AfterTurns(AfterTurns(reg, deferred, snapshot, bodies, 1), deferred, snapshot[1..], bodies, n - 1)
    decreases n
  {
    hide IsRegistered, ApplyAll;
    if n > 1 {
      TurnsShift(reg, deferred, snapshot, bodies, n - 1);
      assert snapshot[1..][n - 2] == snapshot[n - 1];
    }
  }

  /** A handler of the snapshot is called exactly when it is still registered at its turn. */
  lemma {:induction false} CalledIffRegisteredAtTurn(reg: Registry, deferred: bool, snapshot: seq<int>, bodies: Bodies, i: nat)
    requires Distinct(snapshot) && i < |snapshot|
    ensures snapshot[i] in Called(reg, deferred, snapshot, bodies)
       <==> IsRegistered(AfterTurns(reg, deferred, snapshot, bodies, i), snapshot[i])
    decreases |snapshot|
  {
    hide IsRegistered, ApplyAll;
    var first := AfterTurns(reg, deferred, snapshot, bodies, 1);
    assert AfterTurns(reg, deferred, snapshot, bodies, 0) == reg;
    if i == 0 {
      CalledAreOfSnapshot(first, deferred, snapshot[1..], bodies);
    } else {
      CalledIffRegisteredAtTurn(first, deferred, snapshot[1..], bodies, i - 1);
      TurnsShift(reg, deferred, snapshot, bodies, i);
    }
  }

  lemma {:induction false} NoneCalled(reg: Registry, deferred: bool, snapshot: seq<int>, bodies: Bodies)
    requires forall h :: h in snapshot ==> !IsRegistered(reg, h)
    ensures Called(reg, deferred, snapshot, bodies) == []
    decreases |snapshot|
  {
    if snapshot != [] {
      NoneCalled(reg, deferred, snapshot[1..], bodies);
    }
  }

  lemma {:induction false} NoTurnsLeft(reg: Registry, deferred: bool, snapshot: seq<int>, bodies: Bodies, i: nat, n: nat)
    requires i <= n <= |snapshot|
    requires forall h :: h in snapshot[i..] ==> !IsRegistered(AfterTurns(reg, deferred, snapshot, bodies, i), h)
    ensures AfterTurns(reg, deferred, snapshot, bodies, n) == AfterTurns(reg, deferred, snapshot, bodies, i)
    decreases n
  {
    if i < n {
      NoTurnsLeft(reg, deferred, snapshot, bodies, i, n - 1);
      assert snapshot[n - 1] in snapshot[i..];
    }
  }

  /** A dispatch `i` turns in: the registry `now` and the handlers called so far are those of the reference. */
  ghost predicate IsDispatching(start: Registry, deferred: bool, snapshot: seq<int>, bodies: Bodies, f: Filter,
                                i: nat, now: Registry, called: seq<int>)
  {
    && i <= |snapshot|
    && now == AfterTurns(start, deferred, snapshot, bodies, i)
    && called + Called(now, deferred, snapshot[i..], bodies) == Called(start, deferred, snapshot, bodies)
    && forall h :: h in snapshot ==> IsAtHome(now, f, h)
  }

  lemma DispatchBegins(start: Registry, deferred: bool, snapshot: seq<int>, bodies: Bodies, f: Filter)
    requires forall h :: h in snapshot ==> IsAtHome(start, f, h)
    ensures IsDispatching(start, deferred, snapshot, bodies, f, 0, start, [])
  {
    hide Called, IsAtHome;
    assert snapshot[0..] == snapshot;
  }

  lemma TurnCalls(start: Registry, deferred: bool, snapshot: seq<int>, bodies: Bodies, f: Filter,
                  i: nat, now: Registry, called: seq<int>)
    requires IsDispatching(start, deferred, snapshot, bodies, f, i, now, called) && Sound(now)
    requires i < |snapshot| && IsRegistered(now, snapshot[i])
    ensures IsDispatching(start, deferred, snapshot, bodies, f, i + 1,
                          ApplyAll(now, deferred, bodies(snapshot[i])), called + [snapshot[i]])
  {
    hide IsAtHome, IsRegistered, ApplyAll, Sound;
    assert snapshot[i..][0] == snapshot[i] && snapshot[i..][1..] == snapshot[i + 1..];
    HomesStay(now, deferred, bodies(snapshot[i]), f, snapshot);
  }

  lemma TurnPasses(start: Registry, deferred: bool, snapshot: seq<int>, bodies: Bodies, f: Filter,
                   i: nat, now: Registry, called: seq<int>)
    requires IsDispatching(start, deferred, snapshot, bodies, f, i, now, called)
    requires i < |snapshot| && !IsRegistered(now, snapshot[i])
    ensures IsDispatching(start, deferred, snapshot, bodies, f, i + 1, now, called)
  {
    hide IsAtHome, IsRegistered, ApplyAll;
    assert snapshot[i..][0] == snapshot[i] && snapshot[i..][1..] == snapshot[i + 1..];
  }

  /** With no handler of the snapshot registered any more, the rest of the turns change nothing. */
  lemma DispatchStops(start: Registry, deferred: bool, snapshot: seq<int>, bodies: Bodies, f: Filter,
                      i: nat, now: Registry, called: seq<int>)
    requires IsDispatching(start, deferred, snapshot, bodies, f, i, now, called)
    requires forall h :: h in snapshot[i..] ==> !IsRegistered(now, h)
    ensures called == Called(start, deferred, snapshot, bodies)
    ensures now == AfterTurns(start, deferred, snapshot, bodies, |snapshot|)
  {
    hide IsAtHome, IsRegistered, Called, AfterTurns;
    NoTurnsLeft(start, deferred, snapshot, bodies, i, |snapshot|);
    NoneCalled(now, deferred, snapshot[i..], bodies);
  }
}
