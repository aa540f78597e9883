/**
 A probe of a work queue as interleaved steps: Arm() clears the flag and submits the work item, the
 queue's thread takes the item up and its handler sets the flag. Check() reads the flag.
 */
module WorkQueueProbe {
  import IC = ImageConfirmation

  /** The handler took the item up when Arm() had been called `post` times, and did or did not set the flag yet. */
  datatype HandlerPc = HIdle | HStarted(post: nat) | HStored(post: nat)

  /** `posts` counts the calls of Arm(); `ranFor` is the post for which the handler last set the flag. */
  datatype Probe = Probe(ran: bool, queued: bool, submitting: bool, handler: HandlerPc, posts: nat, ranFor: nat)

  datatype Action = ArmClears | ArmSubmits | HandlerStarts | HandlerStores | HandlerEnds

  const Fresh := Probe(false, false, false, HIdle, 0, 0)

  /** A step; one that cannot be taken changes nothing. Submitting a queued item is a no-op. */
  function Step(p: Probe, a: Action): Probe
  {
    match a
    case ArmClears => if p.submitting then p else p.(ran := false, posts := p.posts + 1, submitting := true)
    case ArmSubmits => if p.submitting then p.(queued := true, submitting := false) else p
    case HandlerStarts => if p.queued && p.handler.HIdle? then p.(queued := false, handler := HStarted(p.posts)) else p
    case HandlerStores =>
      if p.handler.HStarted? then p.(ran := true, ranFor := p.handler.post, handler := HStored(p.handler.post)) else p
    case HandlerEnds => if p.handler.HStored? then p.(handler := HIdle) else p
  }

  function Run(p: Probe, actions: seq<Action>): Probe
    decreases |actions|
  {
    if actions == [] then p else Run(Step(p, actions[0]), actions[1..])
  }

  /** Arm() is called for the first time or after Check() was true: what ImageConfirmation does. */
  predicate MayArm(p: Probe)
  {
    p.posts == 0 || p.ran
  }

  predicate Disciplined(p: Probe, actions: seq<Action>)
    decreases |actions|
  {
    actions == [] || ((actions[0] == ArmClears && !p.submitting ==> MayArm(p)) && Disciplined(Step(p, actions[0]), actions[1..]))
  }

  /** Check() being true means that the handler took the item up after the latest Arm() cleared the flag. */
  predicate CheckIsSound(p: Probe)
  {
    p.ran ==> p.ranFor == p.posts
  }

  /** What holds while Arm() waits for Check(): at most one run of the handler is due or under way. */
  predicate Invariant(p: Probe)
  {
    && (p.ran ==> p.ranFor == p.posts && !p.queued && !p.submitting && !p.handler.HStarted?)
    && (p.handler.HStarted? ==> p.handler.post == p.posts && !p.queued && !p.submitting)
    && (p.submitting ==> !p.queued)
    && (p.posts == 0 ==> !p.queued && !p.submitting && p.handler.HIdle?)
  }

  lemma StepKeepsInvariant(p: Probe, a: Action)
    requires Invariant(p) && (a == ArmClears && !p.submitting ==> MayArm(p))
    ensures Invariant(Step(p, a))
  {
  }

  /** As the image confirmation uses a probe, a true Check() is always for the latest post. */
  lemma {:induction false} DisciplinedCheckIsSound(p: Probe, actions: seq<Action>)
    requires Invariant(p) && Disciplined(p, actions)
    ensures Invariant(Run(p, actions)) && CheckIsSound(Run(p, actions))
    decreases |actions|
  {
    if actions != [] {
      StepKeepsInvariant(p, actions[0]);
      DisciplinedCheckIsSound(Step(p, actions[0]), actions[1..]);
    }
  }

  /** In every interleaving from a fresh probe on. */
  lemma FreshProbeIsSound(actions: seq<Action>)
    requires Disciplined(Fresh, actions)
    ensures CheckIsSound(Run(Fresh, actions))
  {
    hide Disciplined, Run;
    DisciplinedCheckIsSound(Fresh, actions);
  }

  /** No Arm() clears the flag between the handler taking the item up and setting the flag. */
  predicate Undisturbed(p: Probe, actions: seq<Action>)
    decreases |actions|
  {
    actions == []
    || ((actions[0] == ArmClears && !p.submitting ==> !p.handler.HStarted?) && Undisturbed(Step(p, actions[0]), actions[1..]))
  }

  /** However else Arm() is called, Check() stays sound while no call falls into a running handler. */
  lemma {:induction false} UndisturbedCheckIsSound(p: Probe, actions: seq<Action>)
    requires CheckIsSound(p) && (p.handler.HStarted? ==> p.handler.post == p.posts)
    requires Undisturbed(p, actions)
    ensures CheckIsSound(Run(p, actions))
    decreases |actions|
  {
    if actions != [] {
      UndisturbedCheckIsSound(Step(p, actions[0]), actions[1..]);
    }
  }

  /** At every state of the run, and with the handler's store added at any of them, a true Check() is for the latest post. */
  predicate StaysSound(p: Probe, actions: seq<Action>)
    decreases |actions|
  {
    CheckIsSound(p) && CheckIsSound(Step(p, HandlerStores))
    && (actions == [] || StaysSound(Step(p, actions[0]), actions[1..]))
  }

  /** The exact condition on a whole run: no call of Arm() falls into a running handler. */
  lemma {:induction false} StaysSoundIffUndisturbed(p: Probe, actions: seq<Action>)
    requires CheckIsSound(p) && (p.handler.HStarted? ==> p.handler.post == p.posts)
    ensures StaysSound(p, actions) <==> Undisturbed(p, actions)
    decreases |actions|
  {
    if actions != [] {
      var next := Step(p, actions[0]);
      if actions[0] == ArmClears && !p.submitting && p.handler.HStarted? {
        NotSoundAfter(next, actions[1..]);
      } else {
        StaysSoundIffUndisturbed(next, actions[1..]);
      }
    }
  }

  /** A handler that was started for an earlier post makes Check() unsound with its next step. */
  lemma NotSoundAfter(p: Probe, actions: seq<Action>)
    requires p.handler.HStarted? && p.handler.post != p.posts
    ensures !StaysSound(p, actions)
  {
  }

  /** The handler's store is for the latest post exactly when no Arm() cleared the flag since it was started. */
  lemma StoreIsSoundIff(p: Probe)
    requires p.handler.HStarted?
    ensures CheckIsSound(Step(p, HandlerStores)) <==> p.handler.post == p.posts
  {
  }

  /** A run of a new probe in which one did, so that Check() answers for the post before. */
  lemma ArmDuringHandlerIsUnsound()
    ensures var p := Run(Fresh, [ArmClears, ArmSubmits, HandlerStarts, ArmClears, HandlerStores]);
      p.ran && p.ranFor < p.posts && !CheckIsSound(p)
  {
    RunsOf(Fresh, ArmClears, [ArmSubmits, HandlerStarts, ArmClears, HandlerStores]);
    var p1 := Step(Fresh, ArmClears);
    RunsOf(p1, ArmSubmits, [HandlerStarts, ArmClears, HandlerStores]);
    var p2 := Step(p1, ArmSubmits);
    RunsOf(p2, HandlerStarts, [ArmClears, HandlerStores]);
    var p3 := Step(p2, HandlerStarts);
    RunsOf(p3, ArmClears, [HandlerStores]);
    RunsOf(Step(p3, ArmClears), HandlerStores, []);
  }

  lemma RunsOf(p: Probe, a: Action, rest: seq<Action>)
    ensures Run(p, [a] + rest) == Run(Step(p, a), rest)
    ensures [a] + rest != [] && ([a] + rest)[1..] == rest
  {
    assert ([a] + rest)[1..] == rest;
  }

  /** Left to itself a post is answered: the queue runs the handler once, and the probe can be armed again. */
  lemma PostIsAnswered(p: Probe)
    requires p.handler == HIdle && !p.submitting
    ensures var d := Run(p, [ArmClears, ArmSubmits, HandlerStarts, HandlerStores, HandlerEnds]);
      d.ran && d.ranFor == d.posts == p.posts + 1 && d.handler == HIdle && !d.queued && !d.submitting
  {
    hide Run;
    FiveSteps(p, ArmClears, ArmSubmits, HandlerStarts, HandlerStores, HandlerEnds);
  }

  lemma FiveSteps(p: Probe, a: Action, b: Action, c: Action, d: Action, e: Action)
    ensures Run(p, [a, b, c, d, e]) == Step(Step(Step(Step(Step(p, a), b), c), d), e)
  {
    hide Run, Step;
    assert [a] + [b, c, d, e] == [a, b, c, d, e] && [b] + [c, d, e] == [b, c, d, e] && [c] + [d, e] == [c, d, e];
    assert [d] + [e] == [d, e] && [e] + [] == [e];
    RunsOf(p, a, [b, c, d, e]);
    RunsOf(Step(p, a), b, [c, d, e]);
    RunsOf(Step(Step(p, a), b), c, [d, e]);
    RunsOf(Step(Step(Step(p, a), b), c), d, [e]);
    RunsOf(Step(Step(Step(Step(p, a), b), c), d), e, []);
    NothingRuns(Step(Step(Step(Step(Step(p, a), b), c), d), e));
  }

  lemma NothingRuns(p: Probe)
    ensures Run(p, []) == p
  {
  }

  // ---- As an entry of the image confirmation ----------------------------------------------------

  /** An entry with a probe of its own: whether it was posted. */
  datatype Entry = Entry(armed: bool, probe: Probe)

  const NewEntry := Entry(false, Fresh)

  /** A tick judges the entry, or Arm() and the queue go on. */
  datatype EntryAction = Judged | GoesOn(action: Action)

  /** The step of the probe that an action amounts to; a tick arms the probe when it posts the entry again. */
  function Taken(e: Entry, a: EntryAction): seq<Action>
  {
    match a
    case Judged =>
      if !e.probe.submitting && IC.IsPostedAgain(IC.Probe(e.armed, 0, e.probe.ran)) then [ArmClears] else []
    case GoesOn(action) => if action == ArmClears then [] else [action]
  }

  function EntryStep(e: Entry, a: EntryAction): Entry
  {
    Entry(e.armed || (a.Judged? && Taken(e, a) != []), Run(e.probe, Taken(e, a)))
  }

  function EntryRun(e: Entry, actions: seq<EntryAction>): Entry
    decreases |actions|
  {
    if actions == [] then e else EntryRun(EntryStep(e, actions[0]), actions[1..])
  }

  function AllTaken(e: Entry, actions: seq<EntryAction>): seq<Action>
    decreases |actions|
  {
    if actions == [] then [] else Taken(e, actions[0]) + AllTaken(EntryStep(e, actions[0]), actions[1..])
  }

  /** However ticks, Arm() and the queue interleave, the confirmation arms a probe with discipline. */
  lemma {:induction false} EntryIsDisciplined(e: Entry, actions: seq<EntryAction>)
    requires e.armed <==> e.probe.posts > 0
    ensures Disciplined(e.probe, AllTaken(e, actions))
    ensures Run(e.probe, AllTaken(e, actions)) == EntryRun(e, actions).probe
    decreases |actions|
  {
    if actions != [] {
      var taken, next := Taken(e, actions[0]), EntryStep(e, actions[0]);
      var rest := AllTaken(next, actions[1..]);
      if taken == [] {
        assert taken + rest == rest;
      } else {
        RunsOf(e.probe, taken[0], []);
        RunsOf(e.probe, taken[0], rest);
        assert taken == [taken[0]] + [] && taken + rest == [taken[0]] + rest;
      }
      EntryIsDisciplined(next, actions[1..]);
    }
  }

  /** So a probe of the confirmation that checks true ran for its latest post. */
  lemma EntryCheckIsSound(actions: seq<EntryAction>)
    ensures CheckIsSound(EntryRun(NewEntry, actions).probe)
  {
    hide Disciplined, Run, AllTaken, EntryRun;
    EntryIsDisciplined(NewEntry, actions);
    FreshProbeIsSound(AllTaken(NewEntry, actions));
  }

  /** A tick posts an entry that never was posted or that ran, and its probe is that of the post; then the queue answers it. */
  lemma EntryPostIsAnswered(e: Entry)
    requires e.probe.handler == HIdle && !e.probe.submitting && (!e.armed || e.probe.ran)
    ensures var actions := [Judged, GoesOn(ArmSubmits), GoesOn(HandlerStarts), GoesOn(HandlerStores), GoesOn(HandlerEnds)];
      var d := EntryRun(e, actions);
      && AllTaken(e, actions) == [ArmClears, ArmSubmits, HandlerStarts, HandlerStores, HandlerEnds]
      && d.armed && d.probe == Run(e.probe, [ArmClears, ArmSubmits, HandlerStarts, HandlerStores, HandlerEnds])
      && d.probe.ran && d.probe.ranFor == d.probe.posts == e.probe.posts + 1
  {
    hide Run, EntryRun, AllTaken;
    PostIsAnswered(e.probe);
    FiveSteps(e.probe, ArmClears, ArmSubmits, HandlerStarts, HandlerStores, HandlerEnds);
    var rest := [GoesOn(ArmSubmits), GoesOn(HandlerStarts), GoesOn(HandlerStores), GoesOn(HandlerEnds)];
    assert [Judged] + rest == [Judged, GoesOn(ArmSubmits), GoesOn(HandlerStarts), GoesOn(HandlerStores), GoesOn(HandlerEnds)];
    OneTaken(e, Judged, ArmClears, rest);
    FourGoOn(Entry(true, Step(e.probe, ArmClears)), ArmSubmits, HandlerStarts, HandlerStores, HandlerEnds);
    assert [ArmClears] + [ArmSubmits, HandlerStarts, HandlerStores, HandlerEnds]
        == [ArmClears, ArmSubmits, HandlerStarts, HandlerStores, HandlerEnds];
  }

  lemma FourGoOn(e: Entry, a: Action, b: Action, c: Action, d: Action)
    requires ArmClears !in [a, b, c, d]
    ensures var actions := [GoesOn(a), GoesOn(b), GoesOn(c), GoesOn(d)];
      && EntryRun(e, actions) == Entry(e.armed, Step(Step(Step(Step(e.probe, a), b), c), d))
      && AllTaken(e, actions) == [a, b, c, d]
  {
    hide Run, Step, EntryRun, AllTaken;
    assert a in [a, b, c, d] && b in [a, b, c, d] && c in [a, b, c, d] && d in [a, b, c, d];
    var middle := Entry(e.armed, Step(Step(e.probe, a), b));
    assert [GoesOn(a), GoesOn(b)] + [GoesOn(c), GoesOn(d)] == [GoesOn(a), GoesOn(b), GoesOn(c), GoesOn(d)];
    assert [GoesOn(c), GoesOn(d)] + [] == [GoesOn(c), GoesOn(d)];
    TwoGoOn(e, a, b, [GoesOn(c), GoesOn(d)]);
    TwoGoOn(middle, c, d, []);
    NoneTaken(Entry(e.armed, Step(Step(middle.probe, c), d)));
    assert [a, b] + ([c, d] + []) == [a, b, c, d];
  }

  lemma TwoGoOn(e: Entry, a: Action, b: Action, rest: seq<EntryAction>)
    requires a != ArmClears && b != ArmClears
    ensures var next := Entry(e.armed, Step(Step(e.probe, a), b));
      && EntryRun(e, [GoesOn(a), GoesOn(b)] + rest) == EntryRun(next, rest)
      && AllTaken(e, [GoesOn(a), GoesOn(b)] + rest) == [a, b] + AllTaken(next, rest)
  {
    hide Run, Step, EntryRun, AllTaken;
    var middle := Entry(e.armed, Step(e.probe, a));
    OneTaken(e, GoesOn(a), a, [GoesOn(b)] + rest);
    OneTaken(middle, GoesOn(b), b, rest);
    PairInFront(GoesOn(a), GoesOn(b), rest);
    PairInFront(a, b, AllTaken(Entry(e.armed, Step(middle.probe, b)), rest));
  }

  lemma PairInFront<T>(x: T, y: T, rest: seq<T>)
    ensures [x, y] + rest == [x] + ([y] + rest)
  {
  }

  lemma NoneTaken(e: Entry)
    ensures EntryRun(e, []) == e && AllTaken(e, []) == []
  {
  }

  lemma OneTaken(e: Entry, a: EntryAction, taken: Action, rest: seq<EntryAction>)
    requires Taken(e, a) == [taken]
    ensures var next := Entry(e.armed || a.Judged?, Step(e.probe, taken));
      EntryRun(e, [a] + rest) == EntryRun(next, rest) && AllTaken(e, [a] + rest) == [taken] + AllTaken(next, rest)
  {
    assert ([a] + rest)[1..] == rest && [taken] + [] == [taken];
    RunsOf(e.probe, taken, []);
  }
}
