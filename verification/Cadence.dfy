/**
  The probe cadence governor (core-supervisor/src/probe_cadence.rs): when each transport may be
  probed again. Times and intervals are milliseconds; the caller supplies the time of every call,
  and every method is one atomic step.

  What the governor draws its jitter from, and how, is in Draws. The runs below are of the governor
  with any such source of draws: what is proved of all runs does not depend on it.
 */
module Cadence {
  import opened Draws
  import opened Powers

  datatype Level = Nominal | Degraded | Escalated | ConfirmedIsolation | TotalIsolation

  const FLOOR_INTERVAL := 500
  const ESCALATED_INTERVAL := 5_000
  const CONFIRMED_ISOLATION_INTERVAL := 30_000
  const TOTAL_ISOLATION_INTERVAL := 60_000
  const MAX_INTERVAL := 300_000
  const MAX_BACKOFF_SHIFT := 8
  const JITTER_PERCENT := 25
  const MAX_U32 := 0xFFFF_FFFF

  function Severity(l: Level): nat {
    match l
    case Nominal => 0
    case Degraded => 1
    case Escalated => 2
    case ConfirmedIsolation => 3
    case TotalIsolation => 4
  }

  function BaseInterval(l: Level): nat {
    match l
    case Nominal => FLOOR_INTERVAL
    case Degraded => FLOOR_INTERVAL
    case Escalated => ESCALATED_INTERVAL
    case ConfirmedIsolation => CONFIRMED_ISOLATION_INTERVAL
    case TotalIsolation => TOTAL_ISOLATION_INTERVAL
  }

  /** How the seed moves on, and what is drawn for a transport from the new seed. */
  datatype Mix = Mix(next: bv64 -> bv64, draw: (bv64, Name) -> nat)

  /** The governor's own. */
  const OWN := Mix(NextSeed, Mixed)

  // ---- The delay after a failure ----

  function Min(a: int, b: int): int {
    if a < b then a else b
  }

  function Max(a: int, b: int): int {
    if a < b then b else a
  }

  /** Back-off grows with the failures, above the floor the level sets. */
  function Chosen(l: Level, failures: nat): int {
    Min(Max(FLOOR_INTERVAL * Pow2(Min(failures, MAX_BACKOFF_SHIFT)), BaseInterval(l)), MAX_INTERVAL)
  }

  /** What the interval is multiplied by, in percent. */
  function Percent(mixed: nat): int {
    100 + mixed % (2 * JITTER_PERCENT + 1) - JITTER_PERCENT
  }

  function Jitter(interval: int, mixed: nat): int {
    Min(Max(interval * Percent(mixed) / 100, 1), MAX_INTERVAL)
  }

  lemma ChosenBounds(l: Level, failures: nat)
    ensures BaseInterval(l) <= Chosen(l, failures) <= 128_000
    ensures Chosen(l, failures) >= FLOOR_INTERVAL * Pow2(Min(failures, MAX_BACKOFF_SHIFT))
  {
    Pow2Monotone(Min(failures, MAX_BACKOFF_SHIFT), 8);
    assert Pow2(8) == 256;
  }

  lemma Scaled(interval: int, percent: int)
    requires interval >= 0 && 75 <= percent <= 125
    ensures interval * 3 / 4 <= interval * percent / 100 <= interval * 5 / 4
  {
    assert interval * 75 <= interval * percent <= interval * 125;
  }

  /** Jitter stays within a quarter either way of any interval the governor chooses. */
  lemma JitterBounds(interval: int, mixed: nat)
    requires 2 <= interval <= 128_000
    ensures interval * 3 / 4 <= Jitter(interval, mixed) <= interval * 5 / 4 <= 160_000
  {
    Scaled(interval, Percent(mixed));
  }

  /** How many failures in a row it takes before no jitter can bring the delay below the level's own interval. */
  function FailuresNeeded(l: Level): nat {
    match l
    case Nominal => 1
    case Degraded => 1
    case Escalated => 4
    case ConfirmedIsolation => 7
    case TotalIsolation => 8
  }

  lemma SmallPowers()
    ensures Pow2(0) == 1 && Pow2(1) == 2 && Pow2(3) == 8 && Pow2(4) == 16 && Pow2(6) == 64 && Pow2(7) == 128
            && Pow2(8) == 256
  {
  }

  lemma EnoughFailures(l: Level, failures: nat)
    ensures 3 * Chosen(l, failures) >= 4 * BaseInterval(l) <==> failures >= FailuresNeeded(l)
  {
    SmallPowers();
    var shift := Min(failures, MAX_BACKOFF_SHIFT);
    if failures >= FailuresNeeded(l) {
      Pow2Monotone(FailuresNeeded(l), shift);
    } else {
      Pow2Monotone(shift, FailuresNeeded(l) - 1);
    }
  }

  lemma Quotient(product: int, base: int)
    ensures product / 100 >= base <==> product >= 100 * base
  {
  }

  lemma LowestDraw(l: Level, failures: nat, mixed: nat)
    ensures Jitter(Chosen(l, failures), mixed) >= BaseInterval(l) <==>
            Chosen(l, failures) * Percent(mixed) >= 100 * BaseInterval(l)
  {
    ChosenBounds(l, failures);
    Quotient(Chosen(l, failures) * Percent(mixed), BaseInterval(l));
  }

  lemma DelayReachesBase(l: Level, failures: nat, mixed: nat)
    requires failures >= FailuresNeeded(l)
    ensures Jitter(Chosen(l, failures), mixed) >= BaseInterval(l)
  {
    EnoughFailures(l, failures);
    LowestDraw(l, failures, mixed);
    AtLeast(Chosen(l, failures), Percent(mixed));
  }

  lemma DelayFallsShort(l: Level, failures: nat)
    requires failures < FailuresNeeded(l)
    ensures Jitter(Chosen(l, failures), 0) < BaseInterval(l)
  {
    EnoughFailures(l, failures);
    LowestDraw(l, failures, 0);
    assert Percent(0) == 75;
  }

  lemma AtLeast(chosen: int, percent: int)
    requires chosen >= 0 && percent >= 75
    ensures chosen * percent >= chosen * 75
  {
  }

  // ---- The governor ----

  datatype Entry = Entry(failures: nat, nextDue: int, allowed: nat, suppressed: nat)

  datatype Stats = Stats(allowed: nat, suppressed: nat, resets: nat, forced: nat)

  datatype Governor = Governor(level: Level, transports: map<Name, Entry>, stats: Stats, seed: bv64)

  function NewEntry(now: int): Entry {
    Entry(0, now, 0, 0)
  }

  function EntryOf(g: Governor, t: Name, now: int): Entry {
    if t in g.transports then g.transports[t] else NewEntry(now)
  }

  predicate MayProbe(g: Governor, t: Name, now: int) {
    t !in g.transports || now >= g.transports[t].nextDue
  }

  function Capped(e: Entry, ceiling: int): Entry {
    e.(nextDue := Min(e.nextDue, ceiling))
  }

  function AfterSetLevel(g: Governor, l: Level, now: int): Governor {
    if Severity(l) < Severity(g.level) then
      g.(level := l, transports := map t | t in g.transports :: Capped(g.transports[t], now + BaseInterval(l)))
    else g.(level := l)
  }

  function AfterTryProbe(g: Governor, t: Name, now: int): Governor {
    var e := EntryOf(g, t, now);
    if now >= e.nextDue then
      g.(transports := g.transports[t := e.(allowed := e.allowed + 1)],
         stats := g.stats.(allowed := g.stats.allowed + 1))
    else
      g.(transports := g.transports[t := e.(suppressed := e.suppressed + 1)],
         stats := g.stats.(suppressed := g.stats.suppressed + 1))
  }

  function Failed(e: Entry, l: Level, mixed: nat, now: int): Entry {
    var failures := Min(e.failures + 1, MAX_U32);
    e.(failures := failures, nextDue := now + Jitter(Chosen(l, failures), mixed))
  }

  function AfterFailure(g: Governor, mix: Mix, t: Name, now: int): Governor {
    var seed := mix.next(g.seed);
    g.(seed := seed, transports := g.transports[t := Failed(EntryOf(g, t, now), g.level, mix.draw(seed, t), now)])
  }

  function AfterSuccess(g: Governor, t: Name, now: int): Governor {
    g.(transports := g.transports[t := EntryOf(g, t, now).(failures := 0, nextDue := now)],
       stats := g.stats.(resets := g.stats.resets + 1))
  }

  function AfterForce(g: Governor, t: Name, now: int): Governor {
    g.(transports := g.transports[t := EntryOf(g, t, now).(nextDue := now)],
       stats := g.stats.(forced := g.stats.forced + 1))
  }

  function AfterForceAll(g: Governor, now: int): Governor {
    g.(transports := map t | t in g.transports :: g.transports[t].(nextDue := now),
       stats := g.stats.(forced := g.stats.forced + 1))
  }

  // ---- Runs ----

  datatype Call =
    | SetLevel(level: Level)
    | TryProbe(t: Name)
    | NoteFailure(t: Name)
    | NoteSuccess(t: Name)
    | ForceDue(t: Name)
    | ForceAllDue

  datatype Event = Event(call: Call, now: int)

  function Step(g: Governor, mix: Mix, e: Event): Governor {
    match e.call
    case SetLevel(l) => AfterSetLevel(g, l, e.now)
    case TryProbe(t) => AfterTryProbe(g, t, e.now)
    case NoteFailure(t) => AfterFailure(g, mix, t, e.now)
    case NoteSuccess(t) => AfterSuccess(g, t, e.now)
    case ForceDue(t) => AfterForce(g, t, e.now)
    case ForceAllDue => AfterForceAll(g, e.now)
  }

  function Run(g: Governor, mix: Mix, run: seq<Event>): Governor {
    if run == [] then g else Step(Run(g, mix, run[..|run| - 1]), mix, run[|run| - 1])
  }

  ghost predicate Timely(run: seq<Event>) {
    forall i, j :: 0 <= i <= j < |run| ==> run[i].now <= run[j].now
  }

  const START := Governor(Nominal, map[], Stats(0, 0, 0, 0), 0)

  // ---- No schedule reaches far ahead ----

  ghost predicate DueBy(g: Governor, limit: int) {
    forall t :: t in g.transports ==> g.transports[t].nextDue <= limit
  }

  lemma FailedDue(e: Entry, l: Level, mixed: nat, now: int)
    ensures var due := Failed(e, l, mixed, now).nextDue;
            now + BaseInterval(l) * 3 / 4 <= due <= now + 160_000
  {
    var failures := Min(e.failures + 1, MAX_U32);
    ChosenBounds(l, failures);
    JitterBounds(Chosen(l, failures), mixed);
  }

  lemma EnoughFailed(e: Entry, l: Level, mixed: nat, now: int)
    requires e.failures + 1 >= FailuresNeeded(l)
    ensures Failed(e, l, mixed, now).nextDue >= now + BaseInterval(l)
  {
    DelayReachesBase(l, Min(e.failures + 1, MAX_U32), mixed);
  }

  lemma TooFewFailed(e: Entry, l: Level, now: int)
    requires e.failures + 1 < FailuresNeeded(l)
    ensures Failed(e, l, 0, now).nextDue < now + BaseInterval(l)
  {
    DelayFallsShort(l, e.failures + 1);
  }

  /** Any seed makes for at least the level's own interval after a failure of t. */
  ghost predicate NeverFaster(e: Entry, l: Level, t: Name, now: int) {
    forall seed :: Failed(e, l, Mixed(NextSeed(seed), t), now).nextDue >= now + BaseInterval(l)
  }

  /**
    Whatever the seed, a failure of t is followed by at least the level's own interval exactly when
    enough failures have come before.
   */
  lemma NoFasterThanBase(e: Entry, l: Level, t: Name, now: int)
    ensures NeverFaster(e, l, t, now) <==> e.failures + 1 >= FailuresNeeded(l)
  {
    if e.failures + 1 >= FailuresNeeded(l) {
      forall seed ensures Failed(e, l, Mixed(NextSeed(seed), t), now).nextDue >= now + BaseInterval(l) {
        EnoughFailed(e, l, Mixed(NextSeed(seed), t), now);
      }
    } else {
      var seed := ZeroComesUp(t);
      TooFewFailed(e, l, now);
    }
  }

  lemma StepDueBy(g: Governor, mix: Mix, e: Event)
    requires DueBy(g, e.now + 160_000)
    ensures DueBy(Step(g, mix, e), e.now + 160_000)
  {
    if e.call.NoteFailure? {
      FailedDue(EntryOf(g, e.call.t, e.now), g.level, mix.draw(mix.next(g.seed), e.call.t), e.now);
    }
  }

  /** Under a clock that does not run backwards, every transport is due within 160 seconds of the latest call. */
  lemma {:induction false} ScheduleIsNear(seed: bv64, mix: Mix, run: seq<Event>)
    requires run != [] && Timely(run)
    ensures DueBy(Run(START.(seed := seed), mix, run), run[|run| - 1].now + 160_000)
    decreases |run|
  {
    var n, g := |run| - 1, START.(seed := seed);
    if n > 0 {
      ScheduleIsNear(seed, mix, run[..n]);
      assert run[n - 1].now <= run[n].now;
    }
    assert DueBy(Run(g, mix, run[..n]), run[n].now + 160_000);
    StepDueBy(Run(g, mix, run[..n]), mix, run[n]);
  }

  /**
    Moving to a less severe level brings every schedule that is further off in to the new cadence, and
    leaves the others, and everything else, alone. Any other move leaves all schedules alone.
   */
  lemma DeEscalationCaps(g: Governor, l: Level, now: int)
    ensures var after := AfterSetLevel(g, l, now);
            && after == g.(level := l, transports := after.transports)
            && after.transports.Keys == g.transports.Keys
            && (Severity(l) < Severity(g.level) ==> DueBy(after, now + BaseInterval(l)))
            && forall t :: t in g.transports ==>
                 var before := g.transports[t];
                 after.transports[t] ==
                 if Severity(l) < Severity(g.level) && before.nextDue > now + BaseInterval(l)
                 then before.(nextDue := now + BaseInterval(l)) else before
  {
  }

  // ---- Recovery is not delayed ----

  ghost predicate NoFailureOf(run: seq<Event>, t: Name) {
    forall i :: 0 <= i < |run| ==> run[i].call != NoteFailure(t)
  }

  ghost predicate Until(run: seq<Event>, at: int) {
    forall i :: 0 <= i < |run| ==> run[i].now <= at
  }

  /** What is due by some time stays so through every call up to then, but for a failure of its own. */
  lemma {:induction false} StaysDue(g: Governor, mix: Mix, run: seq<Event>, t: Name, at: int)
    requires MayProbe(g, t, at) && NoFailureOf(run, t) && Until(run, at)
    ensures MayProbe(Run(g, mix, run), t, at)
    decreases |run|
  {
    if run != [] {
      StaysDue(g, mix, run[..|run| - 1], t, at);
    }
  }

  /**
    After a drop to level l at time s, and until its next failure, a transport is due from s plus the
    interval of l on.
   */
  lemma DeEscalationRecovers(g: Governor, l: Level, s: int, mix: Mix, run: seq<Event>, t: Name, at: int)
    requires Severity(l) < Severity(g.level) && at >= s + BaseInterval(l)
    requires NoFailureOf(run, t) && Until(run, at)
    ensures MayProbe(Run(AfterSetLevel(g, l, s), mix, run), t, at)
  {
    DeEscalationCaps(g, l, s);
    StaysDue(AfterSetLevel(g, l, s), mix, run, t, at);
  }

  /** The calls that make a transport due at once. */
  predicate Wakes(c: Call, t: Name) {
    c == NoteSuccess(t) || c == ForceDue(t) || c == ForceAllDue
  }

  /**
    After a success or a wake-up a transport is due, at once and until its next failure, whatever
    failures came before.
   */
  lemma RecoveryIsInstant(g: Governor, mix: Mix, c: Call, now: int, run: seq<Event>, t: Name, at: int)
    requires Wakes(c, t) && now <= at && NoFailureOf(run, t) && Until(run, at)
    ensures MayProbe(Run(Step(g, mix, Event(c, now)), mix, run), t, at)
  {
    StaysDue(Step(g, mix, Event(c, now)), mix, run, t, at);
  }

  // ---- Failures in a row ----

  predicate Fails(e: Event, t: Name) {
    e.call == NoteFailure(t)
  }

  function FailuresIn(run: seq<Event>, t: Name): nat {
    if run == [] then 0 else FailuresIn(run[1..], t) + if Fails(run[0], t) then 1 else 0
  }

  ghost predicate NoSuccessOf(run: seq<Event>, t: Name) {
    forall i :: 0 <= i < |run| ==> run[i].call != NoteSuccess(t)
  }

  function FailureCount(g: Governor, t: Name): nat {
    if t in g.transports then g.transports[t].failures else 0
  }

  lemma {:induction false} FailuresInLast(run: seq<Event>, e: Event, t: Name)
    ensures FailuresIn(run + [e], t) == FailuresIn(run, t) + if Fails(e, t) then 1 else 0
    decreases |run|
  {
    var all := run + [e];
    if run == [] {
      assert all[1..] == [];
    } else {
      assert all[1..] == run[1..] + [e];
      FailuresInLast(run[1..], e, t);
    }
  }

  lemma StepFailures(g: Governor, mix: Mix, e: Event, t: Name)
    requires e.call != NoteSuccess(t)
    ensures FailureCount(Step(g, mix, e), t) ==
            if Fails(e, t) then Min(FailureCount(g, t) + 1, 0xFFFF_FFFF) else FailureCount(g, t)
  {
  }

  lemma OneMoreFailure(f: nat, n: nat, more: nat)
    requires more == 0 || more == 1
    ensures (if more == 1 then Min(Min(f + n, 0xFFFF_FFFF) + 1, 0xFFFF_FFFF) else Min(f + n, 0xFFFF_FFFF)) ==
            Min(f + (n + more), 0xFFFF_FFFF)
  {
  }

  lemma CountAfter(g: Governor, mix: Mix, run: seq<Event>, e: Event, t: Name)
    requires e.call != NoteSuccess(t)
    ensures var before := FailureCount(Run(g, mix, run), t);
            FailureCount(Run(g, mix, run + [e]), t) == if Fails(e, t) then Min(before + 1, 0xFFFF_FFFF) else before
  {
    assert (run + [e])[..|run|] == run;
    StepFailures(Run(g, mix, run), mix, e, t);
  }

  lemma FailuresStep(g: Governor, mix: Mix, run: seq<Event>, e: Event, t: Name, f: nat)
    requires e.call != NoteSuccess(t)
    requires FailureCount(Run(g, mix, run), t) == Min(f + FailuresIn(run, t), 0xFFFF_FFFF)
    ensures FailureCount(Run(g, mix, run + [e]), t) == Min(f + FailuresIn(run + [e], t), 0xFFFF_FFFF)
  {
    CountAfter(g, mix, run, e, t);
    FailuresInLast(run, e, t);
    OneMoreFailure(f, FailuresIn(run, t), if Fails(e, t) then 1 else 0);
  }

  /** Without a success, every failure counts, up to the counter's largest value. */
  lemma {:induction false} FailuresAddUp(g: Governor, mix: Mix, run: seq<Event>, t: Name)
    requires NoSuccessOf(run, t) && FailureCount(g, t) <= 0xFFFF_FFFF
    ensures FailureCount(Run(g, mix, run), t) == Min(FailureCount(g, t) + FailuresIn(run, t), 0xFFFF_FFFF)
    decreases |run|
  {
    if run != [] {
      var n := |run| - 1;
      FailuresAddUp(g, mix, run[..n], t);
      assert run == run[..n] + [run[n]];
      FailuresStep(g, mix, run[..n], run[n], t, FailureCount(g, t));
    }
  }

  lemma RunOneMore(g: Governor, mix: Mix, run: seq<Event>, e: Event)
    ensures Run(g, mix, run + [e]) == Step(Run(g, mix, run), mix, e)
  {
    assert (run + [e])[..|run|] == run;
  }

  lemma AppendStep(g: Governor, mix: Mix, h: Governor, a: seq<Event>, init: seq<Event>, last: Event)
    requires Run(g, mix, a + init) == Run(h, mix, init)
    ensures Run(g, mix, a + init + [last]) == Run(h, mix, init + [last])
  {
    RunOneMore(g, mix, a + init, last);
    RunOneMore(h, mix, init, last);
  }

  lemma Regroup(a: seq<Event>, b: seq<Event>)
    requires b != []
    ensures var init, last := b[..|b| - 1], b[|b| - 1]; b == init + [last] && a + b == a + init + [last]
  {
  }

  lemma {:induction false} RunAppend(g: Governor, mix: Mix, a: seq<Event>, b: seq<Event>)
    ensures Run(g, mix, a + b) == Run(Run(g, mix, a), mix, b)
    decreases |b|
  {
    if b == [] {
      assert a + b == a;
    } else {
      var init, last := b[..|b| - 1], b[|b| - 1];
      RunAppend(g, mix, a, init);
      AppendStep(g, mix, Run(g, mix, a), a, init, last);
      Regroup(a, b);
    }
  }

  /** The last success of t in a run, if there is one, is just before `since`. */
  ghost predicate SinceSuccess(run: seq<Event>, t: Name, since: nat) {
    && since <= |run| && NoSuccessOf(run[since..], t)
    && (since > 0 ==> run[since - 1].call == NoteSuccess(t))
  }

  /** There always is such a place. */
  lemma {:induction false} LastSuccess(run: seq<Event>, t: Name) returns (since: nat)
    ensures SinceSuccess(run, t, since)
    decreases |run|
  {
    if run == [] || run[|run| - 1].call == NoteSuccess(t) {
      since := |run|;
    } else {
      var n := |run| - 1;
      since := LastSuccess(run[..n], t);
      assert run[since..] == run[..n][since..] + [run[n]];
    }
  }

  lemma SuccessResets(g: Governor, mix: Mix, run: seq<Event>, t: Name)
    requires run != [] && run[|run| - 1].call == NoteSuccess(t)
    ensures FailureCount(Run(g, mix, run), t) == 0
  {
  }

  /** In every run from the start, a transport's failure count is the number of its failures since its last success. */
  lemma FailuresSinceSuccess(seed: bv64, mix: Mix, run: seq<Event>, t: Name, since: nat)
    requires SinceSuccess(run, t, since)
    ensures FailureCount(Run(START.(seed := seed), mix, run), t) == Min(FailuresIn(run[since..], t), 0xFFFF_FFFF)
  {
    var g := START.(seed := seed);
    var before := Run(g, mix, run[..since]);
    if since > 0 {
      SuccessResets(g, mix, run[..since], t);
    }
    RunAppend(g, mix, run[..since], run[since..]);
    assert run == run[..since] + run[since..];
    FailuresAddUp(before, mix, run[since..], t);
  }

  /** What a failure calls for after n others in a row: half a second doubled n + 1 times, eight at most. */
  function BackOff(n: nat): nat {
    500 * Pow2(Min(n + 1, 8))
  }

  lemma ChosenIs(l: Level, n: nat)
    ensures Chosen(l, Min(n + 1, MAX_U32)) == Max(BackOff(n), BaseInterval(l))
  {
    ChosenBounds(l, n + 1);
  }

  lemma FailedQuarter(e: Entry, l: Level, mixed: nat, now: int)
    ensures var due, c := Failed(e, l, mixed, now).nextDue, Chosen(l, Min(e.failures + 1, MAX_U32));
            now + c * 3 / 4 <= due <= now + c * 5 / 4
  {
    ChosenBounds(l, Min(e.failures + 1, MAX_U32));
    JitterBounds(Chosen(l, Min(e.failures + 1, MAX_U32)), mixed);
  }

  lemma FailureSchedules(g: Governor, mix: Mix, t: Name, now: int)
    ensures t in AfterFailure(g, mix, t, now).transports
    ensures var due := AfterFailure(g, mix, t, now).transports[t].nextDue;
            var c := Chosen(g.level, Min(FailureCount(g, t) + 1, MAX_U32));
            now + c * 3 / 4 <= due <= now + c * 5 / 4
  {
    FailedQuarter(EntryOf(g, t, now), g.level, mix.draw(mix.next(g.seed), t), now);
  }

  lemma SaturatedBackOff(n: nat)
    ensures BackOff(Min(n, 0xFFFF_FFFF)) == BackOff(n)
  {
  }

  /**
    Back-off over every run from the start: a failure of a transport, after n failures since its last
    success, schedules it within a quarter of the larger of that back-off and the level's interval.
    The first after a success is due within 5/4 of the larger of one second and that interval.
   */
  lemma BackOffOfRuns(seed: bv64, mix: Mix, run: seq<Event>, t: Name, since: nat, now: int)
    requires SinceSuccess(run, t, since)
    ensures var g := Run(START.(seed := seed), mix, run);
            var after := Step(g, mix, Event(NoteFailure(t), now));
            var c := Max(BackOff(FailuresIn(run[since..], t)), BaseInterval(g.level));
            && t in after.transports
            && now + c * 3 / 4 <= after.transports[t].nextDue <= now + c * 5 / 4
    ensures BackOff(0) == 1000
  {
    var g, n := Run(START.(seed := seed), mix, run), FailuresIn(run[since..], t);
    FailuresSinceSuccess(seed, mix, run, t, since);
    FailureSchedules(g, mix, t, now);
    ChosenIs(g.level, FailureCount(g, t));
    SaturatedBackOff(n);
    SmallPowers();
  }

  // ---- Statistics ----

  /** What the counters should say of a run. */
  function Tally(g: Governor, mix: Mix, run: seq<Event>): Stats {
    if run == [] then Stats(0, 0, 0, 0)
    else
      var n := |run| - 1;
      var before, s := Run(g, mix, run[..n]), Tally(g, mix, run[..n]);
      match run[n].call
      case TryProbe(t) =>
        if MayProbe(before, t, run[n].now) then s.(allowed := s.allowed + 1) else s.(suppressed := s.suppressed + 1)
      case NoteSuccess(_) => s.(resets := s.resets + 1)
      case ForceDue(_) => s.(forced := s.forced + 1)
      case ForceAllDue => s.(forced := s.forced + 1)
      case _ => s
  }

  /** The statistics count the probes let through and held back, the successes and the wake-ups of the run. */
  lemma {:induction false} StatsTally(seed: bv64, mix: Mix, run: seq<Event>)
    ensures Run(START.(seed := seed), mix, run).stats == Tally(START.(seed := seed), mix, run)
    decreases |run|
  {
    if run != [] {
      StatsTally(seed, mix, run[..|run| - 1]);
    }
  }

  // ---- Spacing ----

  predicate Permitted(g: Governor, e: Event, t: Name) {
    e.call == TryProbe(t) && MayProbe(g, t, e.now)
  }

  /** When probes of t were permitted in a run. */
  function ProbeTimes(g: Governor, mix: Mix, run: seq<Event>, t: Name): seq<int> {
    if run == [] then []
    else
      var n := |run| - 1;
      ProbeTimes(g, mix, run[..n], t) + (if Permitted(Run(g, mix, run[..n]), run[n], t) then [run[n].now] else [])
  }

  /** The last permitted probe of t has not been reported yet. */
  predicate Awaiting(g: Governor, mix: Mix, run: seq<Event>, t: Name) {
    if run == [] then false
    else
      var n := |run| - 1;
      if Permitted(Run(g, mix, run[..n]), run[n], t) then true
      else if run[n].call == NoteFailure(t) then false
      else Awaiting(g, mix, run[..n], t)
  }

  /**
    The level stays at L or above, t neither succeeds nor is woken, and t is not tried again before
    the last probe is reported failed.
   */
  ghost predicate KeepsFailing(g: Governor, mix: Mix, run: seq<Event>, t: Name, l: Level) {
    Severity(l) <= Severity(Run(g, mix, run).level) &&
    (run != [] ==>
       var n := |run| - 1;
       && KeepsFailing(g, mix, run[..n], t, l)
       && run[n].call != NoteSuccess(t) && run[n].call != ForceDue(t) && run[n].call != ForceAllDue
       && (run[n].call == TryProbe(t) ==> !Awaiting(g, mix, run[..n], t)))
  }

  function Gap(l: Level): nat {
    BaseInterval(l) * 3 / 4
  }

  lemma BaseMonotone(k: Level, l: Level)
    requires Severity(k) <= Severity(l)
    ensures BaseInterval(k) <= BaseInterval(l) && Gap(k) <= Gap(l) <= BaseInterval(l)
  {
  }

  /** t is not due before the gap after its last probe is over. */
  ghost predicate Waits(g: Governor, t: Name, last: int, l: Level) {
    t in g.transports && g.transports[t].nextDue >= last + Gap(l)
  }

  lemma StepWaits(g: Governor, mix: Mix, e: Event, t: Name, last: int, l: Level)
    requires t in g.transports && last <= e.now
    requires Waits(g, t, last, l) || e.call == NoteFailure(t)
    requires Severity(l) <= Severity(g.level) && Severity(l) <= Severity(Step(g, mix, e).level)
    requires e.call != NoteSuccess(t) && e.call != ForceDue(t) && e.call != ForceAllDue
    ensures Waits(Step(g, mix, e), t, last, l)
  {
    match e.call
    case SetLevel(k) => BaseMonotone(l, k);
    case NoteFailure(u) =>
      FailedDue(EntryOf(g, u, e.now), g.level, mix.draw(mix.next(g.seed), u), e.now);
      BaseMonotone(l, g.level);
    case _ =>
  }

  /** After probes at these times, the last no later than now: t waits out the gap, or its last probe is unreported. */
  ghost predicate Waited(times: seq<int>, now: int, after: Governor, awaiting: bool, t: Name, l: Level) {
    times != [] ==>
      && times[|times| - 1] <= now && t in after.transports
      && (awaiting || Waits(after, t, times[|times| - 1], l))
  }

  /** What a run in which t keeps failing has led to. */
  ghost predicate HasWaited(g: Governor, mix: Mix, run: seq<Event>, t: Name, l: Level) {
    run != [] ==>
      Waited(ProbeTimes(g, mix, run, t), run[|run| - 1].now, Run(g, mix, run), Awaiting(g, mix, run, t), t, l)
  }

  lemma HasWaitedProbe(g: Governor, mix: Mix, run: seq<Event>, t: Name, l: Level)
    requires run != [] && Permitted(Run(g, mix, run[..|run| - 1]), run[|run| - 1], t)
    ensures HasWaited(g, mix, run, t, l)
  {
  }

  lemma NotPermitted(g: Governor, mix: Mix, run: seq<Event>, t: Name, n: nat)
    requires |run| == n + 1 && !Permitted(Run(g, mix, run[..n]), run[n], t)
    ensures ProbeTimes(g, mix, run, t) == ProbeTimes(g, mix, run[..n], t)
    ensures Awaiting(g, mix, run, t) <==> run[n].call != NoteFailure(t) && Awaiting(g, mix, run[..n], t)
  {
  }

  lemma StaysKnown(g: Governor, mix: Mix, e: Event, t: Name)
    requires t in g.transports
    ensures t in Step(g, mix, e).transports
  {
    match e.call
    case SetLevel(_) =>
    case TryProbe(_) =>
    case NoteFailure(u) => FailureKeeps(g, mix, u, e.now, t);
    case NoteSuccess(_) =>
    case ForceDue(_) =>
    case ForceAllDue =>
  }

  lemma FailureKeeps(g: Governor, mix: Mix, u: Name, now: int, t: Name)
    requires t in g.transports
    ensures t in AfterFailure(g, mix, u, now).transports
  {
  }

  lemma WaitsOrAwaits(g: Governor, mix: Mix, e: Event, t: Name, last: int, l: Level, awaiting: bool)
    requires t in g.transports && last <= e.now && (awaiting || Waits(g, t, last, l))
    requires Severity(l) <= Severity(g.level) && Severity(l) <= Severity(Step(g, mix, e).level)
    requires e.call != NoteSuccess(t) && e.call != ForceDue(t) && e.call != ForceAllDue
    ensures t in Step(g, mix, e).transports
    ensures (e.call != NoteFailure(t) && awaiting) || Waits(Step(g, mix, e), t, last, l)
  {
    StaysKnown(g, mix, e, t);
    if !awaiting || e.call == NoteFailure(t) {
      StepWaits(g, mix, e, t, last, l);
    }
  }

  lemma WaitedNext(times: seq<int>, now: int, before: Governor, mix: Mix, e: Event, after: Governor, awaiting: bool,
                   t: Name, l: Level)
    requires after == Step(before, mix, e) && Waited(times, now, before, awaiting, t, l) && now <= e.now
    requires Severity(l) <= Severity(before.level) && Severity(l) <= Severity(after.level)
    requires e.call != NoteSuccess(t) && e.call != ForceDue(t) && e.call != ForceAllDue
    ensures Waited(times, e.now, after, e.call != NoteFailure(t) && awaiting, t, l)
  {
    if times != [] {
      WaitsOrAwaits(before, mix, e, t, times[|times| - 1], l, awaiting);
    }
  }

  lemma HasWaitedOther(g: Governor, mix: Mix, run: seq<Event>, t: Name, l: Level, before: Governor, e: Event)
    requires run != [] && (|run| > 1 ==> run[|run| - 2].now <= e.now)
    requires before == Run(g, mix, run[..|run| - 1]) && e == run[|run| - 1] && !Permitted(before, e, t)
    requires Severity(l) <= Severity(before.level) && Severity(l) <= Severity(Step(before, mix, e).level)
    requires e.call != NoteSuccess(t) && e.call != ForceDue(t) && e.call != ForceAllDue
    requires HasWaited(g, mix, run[..|run| - 1], t, l)
    ensures HasWaited(g, mix, run, t, l)
  {
    var n := |run| - 1;
    NotPermitted(g, mix, run, t, n);
    if n > 0 {
      WaitedNext(ProbeTimes(g, mix, run[..n], t), run[n - 1].now, before, mix, e, Run(g, mix, run),
                 Awaiting(g, mix, run[..n], t), t, l);
    }
  }

  lemma KeepsFailingLast(g: Governor, mix: Mix, run: seq<Event>, t: Name, l: Level, before: Governor, e: Event)
    requires run != [] && before == Run(g, mix, run[..|run| - 1]) && e == run[|run| - 1]
    requires KeepsFailing(g, mix, run, t, l)
    ensures Severity(l) <= Severity(before.level) && Severity(l) <= Severity(Step(before, mix, e).level)
    ensures e.call != NoteSuccess(t) && e.call != ForceDue(t) && e.call != ForceAllDue
  {
  }

  lemma HasWaitedStep(g: Governor, mix: Mix, run: seq<Event>, t: Name, l: Level)
    requires run != [] && (|run| > 1 ==> run[|run| - 2].now <= run[|run| - 1].now)
    requires KeepsFailing(g, mix, run, t, l) && HasWaited(g, mix, run[..|run| - 1], t, l)
    ensures HasWaited(g, mix, run, t, l)
  {
    var n := |run| - 1;
    var before := Run(g, mix, run[..n]);
    if Permitted(before, run[n], t) {
      HasWaitedProbe(g, mix, run, t, l);
    } else {
      KeepsFailingLast(g, mix, run, t, l, before, run[n]);
      HasWaitedOther(g, mix, run, t, l, before, run[n]);
    }
  }

  lemma {:induction false} RunWaits(g: Governor, mix: Mix, run: seq<Event>, t: Name, l: Level)
    requires Timely(run) && KeepsFailing(g, mix, run, t, l)
    ensures HasWaited(g, mix, run, t, l)
    decreases |run|
  {
    if run != [] {
      RunWaits(g, mix, run[..|run| - 1], t, l);
      HasWaitedStep(g, mix, run, t, l);
    }
  }

  /**
    While a transport keeps failing at level L or above, its probes are at least three quarters of the
    level's interval apart.
   */
  lemma {:induction false} ProbesAreSpaced(g: Governor, mix: Mix, run: seq<Event>, t: Name, l: Level, i: nat)
    requires Timely(run) && KeepsFailing(g, mix, run, t, l) && i + 1 < |ProbeTimes(g, mix, run, t)|
    ensures ProbeTimes(g, mix, run, t)[i] + Gap(l) <= ProbeTimes(g, mix, run, t)[i + 1]
    decreases |run|
  {
    var n := |run| - 1;
    var times := ProbeTimes(g, mix, run[..n], t);
    if i + 1 < |times| {
      ProbesAreSpaced(g, mix, run[..n], t, l, i);
    } else {
      RunWaits(g, mix, run[..n], t, l);
    }
  }

  ghost predicate Spaced(times: seq<int>, gap: nat) {
    forall i, j :: 0 <= i && j == i + 1 < |times| ==> times[i] + gap <= times[j]
  }

  lemma OneMore(k: int, gap: nat)
    ensures k * gap == (k - 1) * gap + gap
  {
  }

  lemma {:induction false} SpacedApart(times: seq<int>, gap: nat, i: nat, j: nat)
    requires Spaced(times, gap) && i <= j < |times|
    ensures (j - i) * gap <= times[j] - times[i]
    decreases j
  {
    if i < j {
      SpacedApart(times, gap, i, j - 1);
      OneMore(j - i, gap);
      assert times[j - 1] + gap <= times[j];
    }
  }

  /** So the number of probes in a stretch of time is bounded, however often the caller asks. */
  lemma ProbeRateBounded(g: Governor, mix: Mix, run: seq<Event>, t: Name, l: Level, i: nat, j: nat)
    requires Timely(run) && KeepsFailing(g, mix, run, t, l) && i <= j < |ProbeTimes(g, mix, run, t)|
    ensures (j - i) * Gap(l) <= ProbeTimes(g, mix, run, t)[j] - ProbeTimes(g, mix, run, t)[i]
  {
    var times := ProbeTimes(g, mix, run, t);
    forall p, q | 0 <= p && q == p + 1 < |times| ensures times[p] + Gap(l) <= times[q] {
      ProbesAreSpaced(g, mix, run, t, l, p);
    }
    SpacedApart(times, Gap(l), i, j);
  }

  /**
    From the start: the level is set, a probe permitted and reported failed, and the transport tried
    again at the given time.
   */
  function FailOnce(l: Level, t: Name, again: int): seq<Event> {
    [Event(SetLevel(l), 0), Event(TryProbe(t), 0), Event(NoteFailure(t), 0), Event(TryProbe(t), again)]
  }

  lemma OneMoreEvent(g: Governor, mix: Mix, run: seq<Event>, e: Event, t: Name)
    ensures Run(g, mix, run + [e]) == Step(Run(g, mix, run), mix, e)
    ensures ProbeTimes(g, mix, run + [e], t) ==
            ProbeTimes(g, mix, run, t) + (if Permitted(Run(g, mix, run), e, t) then [e.now] else [])
  {
    assert (run + [e])[..|run|] == run;
  }

  lemma RunOfFour(g: Governor, mix: Mix, a: Event, b: Event, c: Event, d: Event, t: Name)
    ensures var g1 := Step(g, mix, a);
            var g2 := Step(g1, mix, b);
            var g3 := Step(g2, mix, c);
            !Permitted(g, a, t) && Permitted(g1, b, t) && !Permitted(g2, c, t) && Permitted(g3, d, t) ==>
              ProbeTimes(g, mix, [a, b, c, d], t) == [b.now, d.now]
  {
    OneMoreEvent(g, mix, [], a, t);
    OneMoreEvent(g, mix, [a], b, t);
    OneMoreEvent(g, mix, [a, b], c, t);
    OneMoreEvent(g, mix, [a, b, c], d, t);
    assert [] + [a] == [a] && [a] + [b] == [a, b] && [a, b] + [c] == [a, b, c] && [a, b, c] + [d] == [a, b, c, d];
  }

  lemma FirstDelay(l: Level, mixed: nat)
    requires Severity(l) >= 2 && mixed % 51 == 0
    ensures Jitter(Chosen(l, 1), mixed) == Gap(l)
  {
    SmallPowers();
    assert Percent(mixed) == 75 && Chosen(l, 1) == BaseInterval(l);
  }

  lemma GapIsAttained(g: Governor, mix: Mix, l: Level, t: Name, again: int)
    requires g == START.(seed := g.seed) && again == Gap(l)
    requires Severity(l) >= 2 && mix.draw(mix.next(g.seed), t) % 51 == 0
    ensures ProbeTimes(g, mix, FailOnce(l, t, again), t) == [0, again]
  {
    FirstDelay(l, mix.draw(mix.next(g.seed), t));
    RunOfFour(g, mix, Event(SetLevel(l), 0), Event(TryProbe(t), 0), Event(NoteFailure(t), 0),
              Event(TryProbe(t), again), t);
  }

  /**
    The spacing is tight: for every transport and at every level slower than the floor, there is a
    seed with which the next probe is let through right at the gap.
   */
  lemma GapIsTight(l: Level, t: Name) returns (seed: bv64)
    requires Severity(l) >= 2
    ensures ProbeTimes(START.(seed := seed), OWN, FailOnce(l, t, Gap(l)), t) == [0, Gap(l)]
  {
    seed := ZeroComesUp(t);
    GapIsAttained(START.(seed := seed), OWN, l, t, Gap(l));
  }

  /** With the default seed, two probes of the transport "f" in confirmed isolation are 22.5 seconds apart, not 30. */
  lemma FasterThanBase(t: Name)
    requires t == [0x66]
    ensures ProbeTimes(START.(seed := DEFAULT_SEED), OWN, FailOnce(ConfirmedIsolation, t, 22_500), t) == [0, 22_500]
    ensures 22_500 < BaseInterval(ConfirmedIsolation)
  {
    FirstDraw();
    GapIsAttained(START.(seed := DEFAULT_SEED), OWN, ConfirmedIsolation, t, 22_500);
  }

  lemma StepCounts(g: Governor, mix: Mix, e: Event, t: Name)
    ensures EntryOf(Step(g, mix, e), t, 0).allowed == EntryOf(g, t, 0).allowed + if Permitted(g, e, t) then 1 else 0
  {
  }

  /** The counters agree with the run: every permitted probe is counted once for its transport. */
  lemma {:induction false} ProbesAreCounted(seed: bv64, mix: Mix, run: seq<Event>, t: Name)
    ensures var g := START.(seed := seed);
            EntryOf(Run(g, mix, run), t, 0).allowed == |ProbeTimes(g, mix, run, t)|
    decreases |run|
  {
    if run != [] {
      var n := |run| - 1;
      ProbesAreCounted(seed, mix, run[..n], t);
      StepCounts(Run(START.(seed := seed), mix, run[..n]), mix, run[n], t);
    }
  }

  // ---- The object ----

  class ProbeCadence {
    var level: Level
    var transports: map<Name, Entry>
    var stats: Stats
    var seed: bv64

    function State(): Governor
      reads this
    {
      Governor(level, transports, stats, seed)
    }

    constructor ()
      ensures State() == START.(seed := DEFAULT_SEED)
    {
      this.level, this.transports, this.stats, this.seed := Nominal, map[], Stats(0, 0, 0, 0), DEFAULT_SEED;
    }

    constructor WithSeed(seed: bv64)
      ensures State() == START.(seed := seed)
    {
      this.level, this.transports, this.stats, this.seed := Nominal, map[], Stats(0, 0, 0, 0), seed;
    }

    method SetLevel(l: Level, now: int)
      modifies this
      ensures State() == AfterSetLevel(old(State()), l, now)
    {
      var previous := level;
      level := l;
      if Severity(l) < Severity(previous) {
        var capped := now + BaseInterval(l);
        ghost var before := transports;
        var todo := transports.Keys;
        while todo != {}
          invariant todo <= transports.Keys == before.Keys
          invariant forall t :: t in before ==>
                    transports[t] == if t in todo then before[t] else Capped(before[t], capped)
          invariant level == l && stats == old(stats) && seed == old(seed)
          decreases |todo|
        {
          var t :| t in todo;
          todo := todo - {t};
          if transports[t].nextDue > capped {
            transports := transports[t := transports[t].(nextDue := capped)];
          }
        }
        assert transports == map t | t in before :: Capped(before[t], capped);
      }
    }

    method TryProbe(t: Name, now: int) returns (ok: bool)
      modifies this
      ensures State() == AfterTryProbe(old(State()), t, now)
      ensures ok == MayProbe(old(State()), t, now)
    {
      var e := EntryOf(State(), t, now);
      if now >= e.nextDue {
        transports := transports[t := e.(allowed := e.allowed + 1)];
        stats := stats.(allowed := stats.allowed + 1);
        ok := true;
      } else {
        transports := transports[t := e.(suppressed := e.suppressed + 1)];
        stats := stats.(suppressed := stats.suppressed + 1);
        ok := false;
      }
    }

    method NoteFailure(t: Name, now: int)
      modifies this
      ensures State() == AfterFailure(old(State()), OWN, t, now)
    {
      var base := BaseInterval(level);
      seed := NextSeed(seed);
      var e := if t in transports then transports[t] else NewEntry(now);
      var failures := Min(e.failures + 1, MAX_U32);
      var grown := FLOOR_INTERVAL * Pow2(Min(failures, MAX_BACKOFF_SHIFT));
      var chosen := Min(Max(grown, base), MAX_INTERVAL);
      var delay := Jitter(chosen, Mixed(seed, t));
      transports := transports[t := e.(failures := failures, nextDue := now + delay)];
    }

    method NoteSuccess(t: Name, now: int)
      modifies this
      ensures State() == AfterSuccess(old(State()), t, now)
    {
      var e := if t in transports then transports[t] else NewEntry(now);
      transports := transports[t := e.(failures := 0, nextDue := now)];
      stats := stats.(resets := stats.resets + 1);
    }

    method ForceDue(t: Name, now: int)
      modifies this
      ensures State() == AfterForce(old(State()), t, now)
    {
      var e := if t in transports then transports[t] else NewEntry(now);
      transports := transports[t := e.(nextDue := now)];
      stats := stats.(forced := stats.forced + 1);
    }

    method ForceAllDue(now: int)
      modifies this
      ensures State() == AfterForceAll(old(State()), now)
    {
      ghost var before := transports;
      var todo := transports.Keys;
      while todo != {}
        invariant todo <= transports.Keys == before.Keys
        invariant forall t :: t in before ==>
                  transports[t] == if t in todo then before[t] else before[t].(nextDue := now)
        invariant level == old(level) && stats == old(stats) && seed == old(seed)
        decreases |todo|
      {
        var t :| t in todo;
        todo := todo - {t};
        transports := transports[t := transports[t].(nextDue := now)];
      }
      assert transports == map t | t in before :: before[t].(nextDue := now);
      stats := stats.(forced := stats.forced + 1);
    }
  }
}
