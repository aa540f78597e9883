/**
 The image confirmation with each call as one step: what the probes must show before the image
 confirms itself, how long an outstanding probe is waited for, and the wrapping millisecond clock.
 */
module ImageConfirmation {
  import opened Bytes
  import opened DfuStates

  const WRAP: int := 0x1_0000_0000
  const HALF: int := 0x8000_0000

  /** A clock reading kept in 32 bits. */
  function Wrapped(t: int): u32
  {
    t % WRAP
  }

  /** static_cast<int32_t>(now - at) >= 0 on unsigned 32-bit operands. */
  predicate IsReached(now: u32, at: u32)
  {
    (now - at) % WRAP < HALF
  }

  lemma WrappedDifference(a: int, b: int)
    ensures (Wrapped(a) - Wrapped(b)) % WRAP == (a - b) % WRAP
  {
    var k := a / WRAP - b / WRAP;
    assert a - b == Wrapped(a) - Wrapped(b) + k * WRAP;
    ModShift(Wrapped(a) - Wrapped(b), k);
  }

  lemma ModShift(x: int, k: int)
    ensures (x + k * WRAP) % WRAP == x % WRAP
  {
    var q := x / WRAP;
    assert x + k * WRAP == (q + k) * WRAP + x % WRAP;
  }

  /** The wrapping comparison agrees with the real clock exactly while the distance fits 31 bits. */
  lemma ReachedAgrees(t: int, at: int)
    ensures -HALF <= t - at < HALF ==> (IsReached(Wrapped(t), Wrapped(at)) <==> at <= t)
    ensures HALF <= t - at < WRAP ==> !IsReached(Wrapped(t), Wrapped(at))
    ensures -WRAP <= t - at < -HALF ==> IsReached(Wrapped(t), Wrapped(at))
  {
    WrappedDifference(t, at);
  }

  /** The age of a post, as the 32-bit difference gives it. */
  lemma AgeAgrees(t: int, at: int)
    requires 0 <= t - at < WRAP
    ensures (Wrapped(t) - Wrapped(at)) % WRAP == t - at
  {
    WrappedDifference(t, at);
  }

  /** The signed 32-bit difference `at - now` when it is positive, otherwise 0. */
  function Remaining(at: u32, now: u32): u32
  {
    var left := (at - now) % WRAP;
    if 0 < left < HALF then left else 0
  }

  lemma RemainingAgrees(at: int, t: int)
    requires -HALF < at - t < HALF
    ensures Remaining(Wrapped(at), Wrapped(t)) == if t < at then at - t else 0
  {
    hide Wrapped;
    WrappedDifference(at, t);
  }

  datatype Config = Config(selfConfirm: bool, bootDeadline: u32, confirmDelay: u32, watchdogTimeout: u32)

  /** A probe: whether it was posted, when, and whether the queue it watches ran it since. */
  datatype Probe = Probe(armed: bool, armedAt: u32, ran: bool)

  /** How long a probe may wait: half the watchdog timeout. */
  function Allowed(config: Config): nat
  {
    config.watchdogTimeout / 2
  }

  function Age(p: Probe, now: u32): nat
  {
    (now - p.armedAt) % WRAP
  }

  /** No posted probe has waited its time without running. */
  ghost predicate Healthy(probes: seq<Probe>, now: u32, allowed: nat)
  {
    forall p :: p in probes && p.armed && !p.ran ==> Age(p, now) < allowed
  }

  /** Every probe was posted and ran since. */
  ghost predicate AllRan(probes: seq<Probe>)
  {
    forall p :: p in probes ==> p.armed && p.ran
  }

  lemma NoProbes(now: u32, allowed: nat)
    ensures Healthy([], now, allowed) && AllRan([])
  {
  }

  lemma OneMoreProbe(probes: seq<Probe>, p: Probe, now: u32, allowed: nat)
    ensures Healthy(probes + [p], now, allowed) <==>
      Healthy(probes, now, allowed) && (p.armed && !p.ran ==> Age(p, now) < allowed)
    ensures AllRan(probes + [p]) <==> AllRan(probes) && p.armed && p.ran
  {
    assert p in probes + [p] && forall q :: q in probes ==> q in probes + [p];
  }

  /** A tick posts the probe: it never was, or it ran since. */
  predicate IsPostedAgain(p: Probe)
  {
    !p.armed || p.ran
  }

  /** The probe after a tick judged it: posted unless it is still waiting. */
  function Rearmed(p: Probe, now: u32): Probe
  {
    if IsPostedAgain(p) then Probe(true, now, false) else p
  }

  /** The probe was posted and its queue has not run it since. */
  ghost predicate Outstanding(probes: seq<Probe>, i: int)
  {
    0 <= i < |probes| && probes[i].armed && !probes[i].ran
  }

  /** At `t` the post made at `at` had waited less than allowed, or was not made before. */
  ghost predicate WaitedLess(at: nat, t: nat, allowed: nat)
  {
    t <= at || t < at + allowed
  }

  ghost predicate NoneArmed(probes: seq<Probe>)
  {
    forall p :: p in probes ==> !p.armed && !p.ran
  }

  /** `posts` says when the probes were posted; none of them after `lastTick`. */
  ghost predicate PostsAreKnown(probes: seq<Probe>, posts: seq<nat>, lastTick: nat)
  {
    && |posts| == |probes|
    && (forall i :: 0 <= i < |probes| && probes[i].armed ==>
          probes[i].armedAt == Wrapped(posts[i]) && posts[i] <= lastTick)
    && (forall i :: 0 <= i < |probes| && probes[i].ran ==> probes[i].armed)
  }

  /** At each of `times` every outstanding probe had waited less than allowed, or was posted later. */
  ghost predicate WaitsAreShort(probes: seq<Probe>, posts: seq<nat>, times: set<nat>, allowed: nat)
    requires |posts| == |probes|
  {
    forall i, f :: Outstanding(probes, i) && f in times ==> WaitedLess(posts[i], f, allowed)
  }

  /** The posts after the probes were judged at `t`. */
  ghost function Reposted(before: seq<Probe>, posts: seq<nat>, t: nat): (r: seq<nat>)
    requires |before| == |posts|
    ensures |r| == |posts|
  {
    seq(|posts|, i requires 0 <= i < |posts| => if before[i].armed && !before[i].ran then posts[i] else t)
  }

  /**
   What a tick at `t` that judges the probes leaves: whichever was never posted or ran since is posted anew and
   outstanding, whichever was waiting waits on.
   */
  ghost predicate PostsAgain(before: seq<Probe>, posts: seq<nat>, after: seq<Probe>, posts': seq<nat>, t: nat)
  {
    && |after| == |posts'| == |before| == |posts|
    && forall i :: 0 <= i < |before| ==>
         if Outstanding(before, i) then after[i] == before[i] && posts'[i] == posts[i]
         else Outstanding(after, i) && posts'[i] == t && after[i].armedAt == Wrapped(t)
  }

  lemma RearmedPostsAgain(before: seq<Probe>, posts: seq<nat>, after: seq<Probe>, t: nat)
    requires |before| == |posts| && |after| == |before|
    requires forall i :: 0 <= i < |after| ==> after[i] == Rearmed(before[i], Wrapped(t))
    ensures PostsAgain(before, posts, after, Reposted(before, posts, t), t)
  {
    hide Wrapped;
  }

  /** On the real clock, too, the probes are healthy exactly when none of them waited its time. */
  lemma HealthyInTime(probes: seq<Probe>, posts: seq<nat>, feeds: set<nat>, lastTick: nat, onTime: bool, allowed: nat, t: nat)
    requires KeepsTime(probes, posts, feeds, lastTick, onTime, allowed) && lastTick <= t < lastTick + HALF && allowed <= HALF
    requires WaitsAreShort(probes, posts, {lastTick}, allowed)
    ensures Healthy(probes, Wrapped(t), allowed) <==> forall i :: Outstanding(probes, i) ==> t < posts[i] + allowed
  {
    hide Wrapped;
    forall i | Outstanding(probes, i) ensures Age(probes[i], Wrapped(t)) == t - posts[i] {
      assert WaitedLess(posts[i], lastTick, allowed);
      AgeAgrees(t, posts[i]);
    }
    if Healthy(probes, Wrapped(t), allowed) {
      forall i | Outstanding(probes, i) ensures t < posts[i] + allowed { assert probes[i] in probes; }
    }
    if forall i :: Outstanding(probes, i) ==> t < posts[i] + allowed {
      forall p | p in probes && p.armed && !p.ran ensures Age(p, Wrapped(t)) < allowed {
        var i :| 0 <= i < |probes| && probes[i] == p;
        assert Outstanding(probes, i);
      }
    }
  }

  lemma NoWaitsWithoutPosts(probes: seq<Probe>, posts: seq<nat>, times: set<nat>, allowed: nat)
    requires NoneArmed(probes) && |posts| == |probes|
    ensures WaitsAreShort(probes, posts, times, allowed)
  {
  }

  lemma PostsStayKnown(probes: seq<Probe>, posts: seq<nat>, lastTick: nat, t: nat)
    requires PostsAreKnown(probes, posts, lastTick) && lastTick <= t
    ensures PostsAreKnown(probes, posts, t)
  {
  }

  lemma RanIsNotOutstanding(probes: seq<Probe>, i: nat, posts: seq<nat>, times: set<nat>, allowed: nat)
    requires i < |probes| == |posts|
    ensures WaitsAreShort(probes, posts, times, allowed) ==> WaitsAreShort(probes[i := probes[i].(ran := true)], posts, times, allowed)
  {
    var after := probes[i := probes[i].(ran := true)];
    assert forall j :: Outstanding(after, j) ==> Outstanding(probes, j);
  }

  lemma AddedIsNotOutstanding(probes: seq<Probe>, posts: seq<nat>, times: set<nat>, allowed: nat)
    requires |probes| == |posts|
    ensures WaitsAreShort(probes, posts, times, allowed) ==> WaitsAreShort(probes + [Probe(false, 0, false)], posts + [0], times, allowed)
  {
    var after := probes + [Probe(false, 0, false)];
    assert forall j :: Outstanding(after, j) ==> Outstanding(probes, j);
  }

  /**
   Judging the probes at `t` posts again those that ran. Unless 2^31 ms or more went by since the last
   tick, healthy probes have all waited less than allowed in real time.
   */
  lemma JudgedWaits(before: seq<Probe>, posts: seq<nat>, after: seq<Probe>, feeds: set<nat>, lastTick: nat, t: nat, allowed: nat)
    requires PostsAreKnown(before, posts, lastTick) && lastTick <= t
    requires |after| == |before| && forall i :: 0 <= i < |after| ==> after[i] == Rearmed(before[i], Wrapped(t))
    ensures PostsAreKnown(after, Reposted(before, posts, t), t)
    ensures WaitsAreShort(before, posts, feeds, allowed) && (forall f :: f in feeds ==> f <= lastTick) ==>
      WaitsAreShort(after, Reposted(before, posts, t), feeds, allowed)
    ensures (Healthy(before, Wrapped(t), allowed) && t - lastTick < HALF && allowed <= HALF
             && WaitsAreShort(before, posts, {lastTick}, allowed)) ==>
      WaitsAreShort(after, Reposted(before, posts, t), {t}, allowed)
  {
    var posts' := Reposted(before, posts, t);
    forall i | Outstanding(after, i)
      ensures posts'[i] == t || (Outstanding(before, i) && posts'[i] == posts[i])
    {
    }
    if Healthy(before, Wrapped(t), allowed) && t - lastTick < HALF && allowed <= HALF
       && WaitsAreShort(before, posts, {lastTick}, allowed) {
      forall i | Outstanding(after, i)
        ensures WaitedLess(posts'[i], t, allowed)
      {
        if posts'[i] != t {
          assert WaitedLess(posts[i], lastTick, allowed);
          AgeAgrees(t, posts[i]);
          assert before[i] in before;
        }
      }
    }
  }

  lemma AllRanIsHealthy(probes: seq<Probe>, now: u32, allowed: nat)
    ensures AllRan(probes) ==> Healthy(probes, now, allowed)
  {
  }

  lemma WaitsJoin(probes: seq<Probe>, posts: seq<nat>, a: set<nat>, b: set<nat>, allowed: nat)
    requires |probes| == |posts|
    ensures WaitsAreShort(probes, posts, a, allowed) && WaitsAreShort(probes, posts, b, allowed) ==>
      WaitsAreShort(probes, posts, a + b, allowed)
  {
  }

  /** What is known of the posts and the feeds, and what holds of the waits while no two ticks were far apart. */
  ghost predicate KeepsTime(probes: seq<Probe>, posts: seq<nat>, feeds: set<nat>, lastTick: nat, onTime: bool, allowed: nat)
  {
    && |posts| == |probes| && PostsAreKnown(probes, posts, lastTick)
    && (forall f :: f in feeds ==> f <= lastTick)
    && (onTime ==> WaitsAreShort(probes, posts, feeds, allowed))
  }

  lemma TimeIsKeptLater(probes: seq<Probe>, posts: seq<nat>, feeds: set<nat>, lastTick: nat, onTime: bool, allowed: nat, t: nat, inTime: bool)
    requires KeepsTime(probes, posts, feeds, lastTick, onTime, allowed) && lastTick <= t && (inTime ==> onTime)
    ensures KeepsTime(probes, posts, feeds, t, inTime, allowed)
    ensures NoneArmed(probes) ==> KeepsTime(probes, posts, feeds + {t}, t, inTime, allowed)
  {
    hide WaitsAreShort, PostsAreKnown, NoneArmed;
    PostsStayKnown(probes, posts, lastTick, t);
    if NoneArmed(probes) { NoWaitsWithoutPosts(probes, posts, feeds + {t}, allowed); }
  }

  /** Healthy probes keep time with a feed at `t` as well. */
  lemma JudgedKeepsTime(before: seq<Probe>, posts: seq<nat>, after: seq<Probe>, feeds: set<nat>, lastTick: nat, onTime: bool, t: nat, allowed: nat)
    requires KeepsTime(before, posts, feeds, lastTick, onTime, allowed) && lastTick <= t && allowed <= HALF
    requires onTime ==> WaitsAreShort(before, posts, {lastTick}, allowed)
    requires |after| == |before| && forall i :: 0 <= i < |after| ==> after[i] == Rearmed(before[i], Wrapped(t))
    ensures var inTime, posts' := onTime && t - lastTick < HALF, Reposted(before, posts, t);
      && KeepsTime(after, posts', feeds, t, inTime, allowed)
      && (Healthy(before, Wrapped(t), allowed) ==> KeepsTime(after, posts', feeds + {t}, t, inTime, allowed))
      && (Healthy(before, Wrapped(t), allowed) && inTime ==> WaitsAreShort(after, posts', {t}, allowed))
  {
    hide PostsAreKnown, WaitsAreShort, Healthy, Reposted, Rearmed, Wrapped;
    JudgedWaits(before, posts, after, feeds, lastTick, t, allowed);
    WaitsJoin(after, Reposted(before, posts, t), feeds, {t}, allowed);
  }

  class ImageConfirmation {
    const config: Config
    var state: DfuState
    var isWatchdogArmed: bool
    var deadline: u32
    var confirmAt: u32
    var probes: seq<Probe>
    /** What the bootloader reports of the image. */
    var bootConfirmed: bool

    // The same instants on a clock that does not wrap, and the feeds so far.
    ghost var lastCall: nat
    ghost var lastTick: nat
    ghost var deadlineAt: nat
    ghost var reportedAt: nat
    ghost var postedAt: seq<nat>
    ghost var feeds: set<nat>
    /** The feeds that went before a disable, once the image was confirmed. */
    ghost var standDownFeeds: set<nat>
    /** No two ticks were 2^31 ms or more apart so far. */
    ghost var onTime: bool

    ghost predicate Valid()
      reads this
    {
      && lastTick <= lastCall
      && (state == CONFIRMED ==> bootConfirmed)
      && (standDownFeeds != {} ==> state == CONFIRMED)
      && deadline == Wrapped(deadlineAt) && deadlineAt <= lastCall + config.bootDeadline
      && (state == CONFIRMING ==>
            && reportedAt <= lastCall && deadlineAt <= reportedAt + config.bootDeadline
            && confirmAt == Wrapped(reportedAt + config.confirmDelay)
            && !IsReached(Wrapped(reportedAt), deadline))
      && (state == VERIFYING ==> NoneArmed(probes) && (onTime && config.bootDeadline <= HALF ==> lastTick <= deadlineAt))
      && |postedAt| == |probes| && KeepsTime(probes, postedAt, feeds, lastTick, onTime, Allowed(config))
      && (onTime && state == CONFIRMING ==> WaitsAreShort(probes, postedAt, {lastTick}, Allowed(config)))
    }

    /** Initialize(), with what the bootloader reports and the outcomes of installing and starting the watchdog. */
    constructor (config: Config, t: nat, confirmed: bool, hasWatchdog: bool, installResult: int, startResult: int)
      ensures Valid() && this.config == config && bootConfirmed == confirmed
      ensures state == if confirmed then CONFIRMED else VERIFYING
      ensures isWatchdogArmed == (!confirmed && hasWatchdog && installResult == 0 && startResult == 0)
      ensures deadlineAt == t + config.bootDeadline && lastCall == lastTick == t && probes == []
      ensures feeds == standDownFeeds == {}
    {
      this.config := config;
      bootConfirmed := confirmed;
      state := if confirmed then CONFIRMED else VERIFYING;
      isWatchdogArmed := !confirmed && hasWatchdog && installResult == 0 && startResult == 0;
      deadline := Wrapped(t + config.bootDeadline);
      confirmAt := 0;
      probes := [];
      lastCall, lastTick, deadlineAt, reportedAt, postedAt := t, t, t + config.bootDeadline, 0, [];
      feeds, standDownFeeds, onTime := {}, {}, true;
    }

    method AddProbe()
      requires Valid()
      modifies this`probes, this`postedAt
      ensures Valid() && probes == old(probes) + [Probe(false, 0, false)] && postedAt == old(postedAt) + [0]
    {
      probes := probes + [Probe(false, 0, false)];
      AddedIsNotOutstanding(old(probes), postedAt, {lastTick}, Allowed(config));
      AddedIsNotOutstanding(old(probes), postedAt, feeds, Allowed(config));
      postedAt := postedAt + [0];
    }

    /** The queue a posted probe watches runs its handler. */
    method QueueRuns(i: nat)
      requires Valid() && i < |probes| && probes[i].armed
      modifies this`probes
      ensures Valid() && probes == old(probes)[i := old(probes)[i].(ran := true)]
    {
      RanIsNotOutstanding(probes, i, postedAt, {lastTick}, Allowed(config));
      RanIsNotOutstanding(probes, i, postedAt, feeds, Allowed(config));
      probes := probes[i := probes[i].(ran := true)];
    }

    method ClientConfirms()
      requires Valid()
      modifies this`bootConfirmed
      ensures Valid() && bootConfirmed
    {
      bootConfirmed := true;
    }

    method ReportBootComplete(t: nat)
      requires Valid() && lastCall <= t
      modifies this`state, this`confirmAt, this`reportedAt, this`lastCall
      ensures Valid() && lastCall == t
      ensures old(state) != VERIFYING ==> state == old(state) && confirmAt == old(confirmAt) && reportedAt == old(reportedAt)
      ensures old(state) == VERIFYING ==>
        if IsReached(Wrapped(t), deadline) then state == FAILED
        else state == CONFIRMING && reportedAt == t && confirmAt == Wrapped(t + config.confirmDelay)
    {
      lastCall := t;
      if state != VERIFYING { return; }
      var now := Wrapped(t);
      if IsReached(now, deadline) { state := FAILED; return; }
      confirmAt := (now + config.confirmDelay) % WRAP;
      WrappedSum(t, config.confirmDelay);
      state := CONFIRMING;
      reportedAt := t;
    }

    /** Feeds once more and switches the watchdog off; it stays armed when that fails. */
    method DisableWatchdog(disableResult: int, ghost t: nat)
      modifies this`isWatchdogArmed, this`standDownFeeds
      ensures isWatchdogArmed == (old(isWatchdogArmed) && disableResult != 0)
      ensures standDownFeeds == old(standDownFeeds) + (if old(isWatchdogArmed) then {t} else {})
    {
      if !isWatchdogArmed { return; }
      standDownFeeds := standDownFeeds + {t};
      if disableResult != 0 { return; }
      isWatchdogArmed := false;
    }

    method CheckAndRearmProbes(now: u32) returns (isHealthy: bool, allRan: bool)
      modifies this`probes
      ensures isHealthy == Healthy(old(probes), now, Allowed(config))
      ensures allRan == AllRan(old(probes))
      ensures |probes| == |old(probes)|
      ensures forall i :: 0 <= i < |probes| ==> probes[i] == Rearmed(old(probes)[i], now)
      ensures forall i :: 0 <= i < |probes| ==>
        if Outstanding(old(probes), i) then probes[i] == old(probes)[i] else Outstanding(probes, i) && probes[i].armedAt == now
    {
      hide Healthy, AllRan;
      allRan := true;
      isHealthy := true;
      NoProbes(now, config.watchdogTimeout / 2);
      var allowed := config.watchdogTimeout / 2;
      ghost var before := probes;
      for i := 0 to |probes|
        invariant |probes| == |before|
        invariant isHealthy == Healthy(before[..i], now, allowed)
        invariant allRan == AllRan(before[..i])
        invariant forall j :: 0 <= j < i ==> probes[j] == Rearmed(before[j], now)
        invariant forall j :: i <= j < |before| ==> probes[j] == before[j]
      {
        var entry := probes[i];
        assert before[..i + 1] == before[..i] + [entry];
        OneMoreProbe(before[..i], entry, now, allowed);
        if !entry.armed {
          probes := probes[i := Probe(true, now, false)];
          allRan := false;
        } else {
          var age := (now - entry.armedAt) % WRAP;
          if entry.ran {
            probes := probes[i := Probe(true, now, false)];
          } else if age >= allowed {
            isHealthy := false;
            allRan := false;
          } else {
            allRan := false;
          }
        }
      }
      assert before[..|before|] == before;
    }

    /** The image confirms itself at `t`: the guards that Tick() has before Confirm(). */
    ghost predicate ConfirmsItself(t: nat)
      reads this
    {
      && config.selfConfirm && state == CONFIRMING && !bootConfirmed
      && IsReached(Wrapped(t), confirmAt) && AllRan(probes)
    }

    /** Tick() at `t` goes as far as feeding the watchdog. */
    ghost predicate ReachesFeed(t: nat)
      reads this
    {
      && !bootConfirmed
      && ((state == VERIFYING && !IsReached(Wrapped(t), deadline))
          || (state == CONFIRMING && Healthy(probes, Wrapped(t), Allowed(config))))
    }

    /** One Tick() at `t`: what it called and the whole state it leaves. */
    twostate predicate Ticked(t: nat, fed: bool, confirmCalled: bool, confirmResult: int, disableResult: int)
      reads this
    {
      && lastCall == t && lastTick == t
      && (confirmCalled <==> old(ConfirmsItself(t)))
      && (fed <==> old(isWatchdogArmed) && old(ReachesFeed(t)))
      && (feeds == old(feeds) + (if fed then {t} else {}))
      && (standDownFeeds == old(standDownFeeds) + (if old(isWatchdogArmed) && state == CONFIRMED then {t} else {}))
      && (state ==
           if old(bootConfirmed) || (confirmCalled && confirmResult == 0) then CONFIRMED
           else if old(ReachesFeed(t)) then old(state) else FAILED)
      && (bootConfirmed <==> old(bootConfirmed) || (confirmCalled && confirmResult == 0))
      && (isWatchdogArmed == (old(isWatchdogArmed) && (state == CONFIRMED ==> disableResult != 0)))
      && (if old(state) == CONFIRMING && !old(bootConfirmed) then PostsAgain(old(probes), old(postedAt), probes, postedAt, t)
          else probes == old(probes) && postedAt == old(postedAt))
      && onTime == (old(onTime) && t - old(lastTick) < HALF)
      && deadline == old(deadline) && deadlineAt == old(deadlineAt)
      && confirmAt == old(confirmAt) && reportedAt == old(reportedAt)
    }

    /** CheckAndRearmProbes() at `t`, with the real times of the posts. */
    method Judge(t: nat) returns (isHealthy: bool, allRan: bool)
      requires Valid() && state == CONFIRMING && lastCall <= t
      modifies this`probes, this`postedAt, this`lastCall, this`lastTick, this`onTime, this`state
      ensures isHealthy == Healthy(old(probes), Wrapped(t), Allowed(config))
      ensures allRan == AllRan(old(probes)) && (allRan ==> isHealthy)
      ensures |probes| == |old(probes)|
      ensures forall i :: 0 <= i < |probes| ==> probes[i] == Rearmed(old(probes)[i], Wrapped(t))
      ensures Valid() && lastCall == lastTick == t && state == if isHealthy then CONFIRMING else FAILED
      ensures isHealthy ==> KeepsTime(probes, postedAt, feeds + {t}, t, onTime, Allowed(config))
      ensures PostsAgain(old(probes), old(postedAt), probes, postedAt, t) && onTime == (old(onTime) && t - old(lastTick) < HALF)
    {
      hide KeepsTime, WaitsAreShort, NoneArmed, IsReached, AllRan, Healthy, Reposted, Rearmed, Wrapped, PostsAgain;
      ghost var before, posts := probes, postedAt;
      isHealthy, allRan := CheckAndRearmProbes(Wrapped(t));
      AllRanIsHealthy(before, Wrapped(t), Allowed(config));
      postedAt := Reposted(before, posts, t);
      RearmedPostsAgain(before, posts, probes, t);
      JudgedKeepsTime(before, posts, probes, feeds, lastTick, onTime, t, Allowed(config));
      onTime := onTime && t - lastTick < HALF;
      lastCall, lastTick := t, t;
      if !isHealthy { state := FAILED; }
    }

    /** A tick before the report leaves the probes alone; time goes on. */
    ghost method PassWithoutProbes(t: nat)
      requires Valid() && state == VERIFYING && lastCall <= t && !IsReached(Wrapped(t), deadline)
      modifies this`lastCall, this`lastTick, this`onTime
      ensures Valid() && lastCall == lastTick == t && onTime == (old(onTime) && t - old(lastTick) < HALF)
      ensures KeepsTime(probes, postedAt, feeds + {t}, t, onTime, Allowed(config))
    {
      hide KeepsTime, WaitsAreShort, NoneArmed, IsReached, AllRan, Healthy, Wrapped;
      TimeIsKeptLater(probes, postedAt, feeds, lastTick, onTime, Allowed(config), t, onTime && t - lastTick < HALF);
      ReachedAgrees(t, deadlineAt);
      onTime := onTime && t - lastTick < HALF;
      lastCall, lastTick := t, t;
    }

    /** Tick() from the probes on, for an image that is neither confirmed nor failed. */
    method TickUndecided(t: nat, confirmResult: int, disableResult: int) returns (fed: bool, confirmCalled: bool)
      requires Valid() && lastCall <= t && !bootConfirmed
      requires state == CONFIRMING || (state == VERIFYING && !IsReached(Wrapped(t), deadline))
      modifies this
      ensures Valid() && Ticked(t, fed, confirmCalled, confirmResult, disableResult)
    {
      hide KeepsTime, WaitsAreShort, NoneArmed, IsReached, AllRan, Healthy, Reposted, Rearmed, Wrapped, PostsAgain;
      fed, confirmCalled := false, false;
      var allRan := true;
      if state == CONFIRMING {
        var isHealthy;
        isHealthy, allRan := Judge(t);
        if !isHealthy { return; }
      } else {
        PassWithoutProbes(t);
      }
      if isWatchdogArmed {
        fed := true;
        feeds := feeds + {t};
      }
      confirmCalled := ConfirmIfDue(t, allRan, confirmResult, disableResult);
    }

    /** The end of Tick(), after the feed. */
    method ConfirmIfDue(t: nat, allRan: bool, confirmResult: int, disableResult: int) returns (confirmCalled: bool)
      requires Valid() && lastTick == t && !bootConfirmed && (state == VERIFYING || state == CONFIRMING)
      modifies this`state, this`bootConfirmed, this`isWatchdogArmed, this`standDownFeeds
      ensures Valid()
      ensures confirmCalled <==> config.selfConfirm && old(state) == CONFIRMING && IsReached(Wrapped(t), confirmAt) && allRan
      ensures bootConfirmed <==> confirmCalled && confirmResult == 0
      ensures state == if bootConfirmed then CONFIRMED else old(state)
      ensures isWatchdogArmed == (old(isWatchdogArmed) && (bootConfirmed ==> disableResult != 0))
      ensures standDownFeeds == old(standDownFeeds) + (if old(isWatchdogArmed) && bootConfirmed then {t} else {})
    {
      hide KeepsTime, WaitsAreShort, NoneArmed, IsReached, Wrapped;
      confirmCalled := false;
      if !config.selfConfirm || state != CONFIRMING { return; }
      if !IsReached(Wrapped(t), confirmAt) { return; }
      if !allRan { return; }
      confirmCalled := true;
      if confirmResult != 0 { return; }
      bootConfirmed := true;
      state := CONFIRMED;
      DisableWatchdog(disableResult, t);
    }

    /** A tick that finds the image confirmed: by itself before, or by a client. */
    method StandDown(t: nat, disableResult: int)
      requires Valid() && lastCall <= t && (state == CONFIRMED || bootConfirmed)
      modifies this
      ensures Valid() && Ticked(t, false, false, 0, disableResult)
    {
      hide KeepsTime, WaitsAreShort, NoneArmed, IsReached, AllRan, Healthy, Wrapped, PostsAgain;
      TimeIsKeptLater(probes, postedAt, feeds, lastTick, onTime, Allowed(config), t, onTime && t - lastTick < HALF);
      state := CONFIRMED;
      DisableWatchdog(disableResult, t);
      onTime, lastCall, lastTick := onTime && t - lastTick < HALF, t, t;
    }

    /** The tick at `t` comes less than 2^31 ms after the one before it, as all did so far. */
    ghost predicate IsPunctual(t: nat)
      reads this
    {
      onTime && t - lastTick < HALF
    }

    /** On the real clock: the boot deadline is not over yet, or no posted probe has waited its time. */
    ghost predicate IsInOrder(t: nat)
      requires |postedAt| == |probes|
      reads this
    {
      if state == VERIFYING then t < deadlineAt
      else state == CONFIRMING && forall i :: Outstanding(probes, i) ==> t < postedAt[i] + config.watchdogTimeout / 2
    }

    lemma FeedsInRealTime(t: nat)
      requires Valid() && lastCall <= t && IsPunctual(t) && (state == VERIFYING ==> config.bootDeadline <= HALF)
      ensures ReachesFeed(t) <==> !bootConfirmed && IsInOrder(t)
    {
      hide KeepsTime, WaitsAreShort, NoneArmed, IsReached, AllRan, Healthy, Wrapped;
      if state == CONFIRMING {
        HealthyInTime(probes, postedAt, feeds, lastTick, onTime, Allowed(config), t);
      } else {
        ReachedAgrees(t, deadlineAt);
      }
    }

    /** The same for the guards of Confirm(), up to 2^31 ms after the end of the delay. */
    lemma ConfirmsInTimeIff(t: nat)
      requires Valid() && lastCall <= t && config.confirmDelay <= HALF && t < reportedAt + config.confirmDelay + HALF
      ensures ConfirmsItself(t) <==>
        && config.selfConfirm && state == CONFIRMING && !bootConfirmed && reportedAt + config.confirmDelay <= t
        && forall i :: 0 <= i < |probes| ==> probes[i].armed && probes[i].ran
    {
      hide KeepsTime, WaitsAreShort, NoneArmed, IsReached, Healthy, Wrapped;
      ReachedAgrees(t, reportedAt + config.confirmDelay);
      if forall i :: 0 <= i < |probes| ==> probes[i].armed && probes[i].ran {
        forall p | p in probes ensures p.armed && p.ran { var i :| 0 <= i < |probes| && probes[i] == p; }
      }
    }

    method Tick(t: nat, confirmResult: int, disableResult: int) returns (fed: bool, confirmCalled: bool)
      requires Valid() && lastCall <= t
      modifies this
      ensures Valid() && Ticked(t, fed, confirmCalled, confirmResult, disableResult)
      ensures old(IsPunctual(t)) && old(state == VERIFYING ==> config.bootDeadline <= HALF) && !old(bootConfirmed) ==>
        (fed <==> old(isWatchdogArmed && IsInOrder(t))) && (state == FAILED <==> !old(IsInOrder(t)))
    {
      hide KeepsTime, WaitsAreShort, NoneArmed, IsReached, AllRan, Healthy, Wrapped, PostsAgain, IsInOrder;
      if IsPunctual(t) && (state == VERIFYING ==> config.bootDeadline <= HALF) { FeedsInRealTime(t); }
      AllRanIsHealthy(probes, Wrapped(t), Allowed(config));
      fed, confirmCalled := false, false;
      TimeIsKeptLater(probes, postedAt, feeds, lastTick, onTime, Allowed(config), t, onTime && t - lastTick < HALF);
      ghost var inTime := onTime && t - lastTick < HALF;
      if state == CONFIRMED || bootConfirmed {
        StandDown(t, disableResult);
        return;
      }
      if state == FAILED {
        onTime, lastCall, lastTick := inTime, t, t;
        return;
      }
      if state == VERIFYING && IsReached(Wrapped(t), deadline) {
        state := FAILED;
        onTime, lastCall, lastTick := inTime, t, t;
        return;
      }
      fed, confirmCalled := TickUndecided(t, confirmResult, disableResult);
    }

    /** How long the image still waits before it may confirm itself, if it does so at all. */
    function GetConfirmInMs(now: u32): Option<u32>
      reads this
    {
      if !config.selfConfirm || state != CONFIRMING then None
      else Some(Remaining(confirmAt, now))
    }

    /** It is the real time left, and 0 from the end of the delay on, for 2^31 ms. */
    lemma ConfirmInIsTimeLeft(t: nat)
      requires Valid() && lastCall <= t && config.selfConfirm && state == CONFIRMING
      requires config.confirmDelay < HALF && t < reportedAt + config.confirmDelay + HALF
      ensures GetConfirmInMs(Wrapped(t)) ==
        Some(if t < reportedAt + config.confirmDelay then reportedAt + config.confirmDelay - t else 0)
    {
      hide Remaining, Wrapped, WaitsAreShort, PostsAreKnown;
      RemainingAgrees(reportedAt + config.confirmDelay, t);
    }

    /**
     The image confirms itself only after a report, once the delay has passed on the real clock, with
     every probe run since its latest post. The wrapping comparisons are right for delays of at most
     2^31 ms, and for a report less than 2^31 ms after the deadline.
     */
    lemma ConfirmsInRealTime(t: nat)
      requires Valid() && lastCall <= t && ConfirmsItself(t)
      ensures config.confirmDelay <= HALF ==> reportedAt + config.confirmDelay <= t
      ensures config.bootDeadline <= HALF && reportedAt < deadlineAt + HALF ==> reportedAt < deadlineAt
      ensures forall p :: p in probes ==> p.armed && p.ran
    {
      ReachedAgrees(t, reportedAt + config.confirmDelay);
      ReachedAgrees(reportedAt, deadlineAt);
    }

    /** No feed so far keeps the watchdog from expiring at `t`: each is a timeout or longer ago by then. */
    ghost predicate IsExpiredAt(t: nat)
      reads this
    {
      forall f :: f in feeds + standDownFeeds ==> f + config.watchdogTimeout <= t
    }

    /**
     While a probe posted at `a` has not run and the image is not confirmed, no feed comes after `a + timeout/2`,
     so by `a + timeout/2 + timeout` the watchdog has expired.
     */
    lemma WatchdogExpiresInTime(i: nat, t: nat)
      requires Valid() && onTime && Outstanding(probes, i) && state != CONFIRMED
      requires postedAt[i] + config.watchdogTimeout / 2 + config.watchdogTimeout <= t
      ensures forall f :: f in feeds + standDownFeeds && postedAt[i] < f ==> f < postedAt[i] + config.watchdogTimeout / 2
      ensures IsExpiredAt(t)
    {
      forall f | f in feeds && postedAt[i] < f ensures f < postedAt[i] + config.watchdogTimeout / 2 {
        assert WaitedLess(postedAt[i], f, Allowed(config));
      }
    }
  }

  // ---- A queue that hangs -----------------------------------------------------------------------

  /** What may happen while the image waits for its confirmation, apart from a client confirming it. */
  datatype Event = TickAt(t: nat, confirmResult: int, disableResult: int) | QueueRan(i: nat) | ProbeAdded | ReportedAt(t: nat)

  /** Time goes on, ticks come less than 2^31 ms apart, and the queue of probe `i` does not run. */
  ghost predicate IsHungRun(events: seq<Event>, lastCall: nat, lastTick: nat, i: nat)
    decreases |events|
  {
    events == []
    || match events[0]
       case TickAt(t, _, _) => lastCall <= t < lastTick + HALF && IsHungRun(events[1..], t, t, i)
       case QueueRan(j) => j != i && IsHungRun(events[1..], lastCall, lastTick, i)
       case ProbeAdded => IsHungRun(events[1..], lastCall, lastTick, i)
       case ReportedAt(t) => lastCall <= t && IsHungRun(events[1..], t, lastTick, i)
  }

  /** One of the events is a tick at `at` or later. */
  ghost predicate TicksFrom(events: seq<Event>, at: nat)
  {
    exists k :: 0 <= k < |events| && events[k].TickAt? && at <= events[k].t
  }

  /** The image waits, and probe `i` has been outstanding since `at`. */
  ghost predicate WaitsFor(ic: ImageConfirmation, i: nat, at: nat)
    reads ic
  {
    && ic.Valid() && ic.onTime && !ic.bootConfirmed && ic.state in {CONFIRMING, FAILED}
    && Outstanding(ic.probes, i) && ic.postedAt[i] == at
  }

  /** One event, with what a tick did. */
  method Happen(ic: ImageConfirmation, event: Event, ghost i: nat, ghost at: nat, ghost rest: seq<Event>)
    returns (fed: bool, confirmCalled: bool)
    requires WaitsFor(ic, i, at) && IsHungRun([event] + rest, ic.lastCall, ic.lastTick, i)
    modifies ic
    ensures WaitsFor(ic, i, at) && IsHungRun(rest, ic.lastCall, ic.lastTick, i)
    ensures !confirmCalled && (old(ic.state) == FAILED ==> !fed && ic.state == FAILED)
    ensures event.TickAt? && at + ic.config.watchdogTimeout / 2 <= event.t ==> !fed && ic.state == FAILED
  {
    hide ImageConfirmation.IsInOrder, KeepsTime, WaitsAreShort, NoneArmed, IsReached, AllRan, Healthy, Wrapped;
    assert ([event] + rest)[1..] == rest;
    fed, confirmCalled := false, false;
    match event
    case TickAt(t, confirmResult, disableResult) =>
      WaitingKeepsFromConfirm(ic, i, t);
      TooLongIsNotInOrder(ic, i, t);
      fed, confirmCalled := ic.Tick(t, confirmResult, disableResult);
    case QueueRan(j) => if j < |ic.probes| && ic.probes[j].armed { ic.QueueRuns(j); }
    case ProbeAdded => ic.AddProbe();
    case ReportedAt(t) => ic.ReportBootComplete(t);
  }

  lemma WaitingKeepsFromConfirm(ic: ImageConfirmation, i: nat, t: nat)
    requires Outstanding(ic.probes, i)
    ensures !ic.ConfirmsItself(t)
  {
    assert ic.probes[i] in ic.probes;
  }

  lemma TooLongIsNotInOrder(ic: ImageConfirmation, i: nat, t: nat)
    requires Outstanding(ic.probes, i) && |ic.postedAt| == |ic.probes| && ic.state != VERIFYING
    ensures ic.postedAt[i] + ic.config.watchdogTimeout / 2 <= t ==> !ic.IsInOrder(t)
  {
  }

  /**
   A queue that hangs costs the image its confirmation: after a post that its queue does not run, no tick calls
   Confirm(), and from half the watchdog timeout on every tick leaves FAILED and does not feed the watchdog.
   */
  method HungQueueFailsTheImage(ic: ImageConfirmation, i: nat, events: seq<Event>, ghost at: nat)
    returns (fed: seq<bool>, confirmCalled: seq<bool>)
    requires WaitsFor(ic, i, at) && IsHungRun(events, ic.lastCall, ic.lastTick, i)
    modifies ic
    ensures |fed| == |confirmCalled| == |events| && WaitsFor(ic, i, at)
    ensures forall k :: 0 <= k < |events| ==> !confirmCalled[k]
    ensures forall k :: 0 <= k < |events| && events[k].TickAt? && at + ic.config.watchdogTimeout / 2 <= events[k].t ==> !fed[k]
    ensures TicksFrom(events, at + ic.config.watchdogTimeout / 2) ==> ic.state == FAILED
  {
    hide WaitsFor, IsHungRun;
    fed, confirmCalled := [], [];
    for n := 0 to |events|
      invariant |fed| == |confirmCalled| == n && WaitsFor(ic, i, at) && IsHungRun(events[n..], ic.lastCall, ic.lastTick, i)
      invariant forall k :: 0 <= k < n ==> !confirmCalled[k]
      invariant forall k :: 0 <= k < n && events[k].TickAt? && at + ic.config.watchdogTimeout / 2 <= events[k].t ==>
        !fed[k] && ic.state == FAILED
    {
      assert events[n..] == [events[n]] + events[n + 1..];
      var f, c := Happen(ic, events[n], i, at, events[n + 1..]);
      fed, confirmCalled := fed + [f], confirmCalled + [c];
    }
  }

  /** A delay counts as passed the moment it starts exactly when it is 0 or longer than 2^31 ms. */
  lemma PassedAtOnceIff(t: nat, delay: u32)
    ensures IsReached(Wrapped(t), Wrapped(t + delay)) <==> delay == 0 || HALF < delay
  {
    ReachedAgrees(t, t + delay);
  }

  lemma WrappedSum(t: nat, d: nat)
    ensures (Wrapped(t) + d) % WRAP == Wrapped(t + d)
  {
    ModShift(t % WRAP + d, t / WRAP);
  }
}
