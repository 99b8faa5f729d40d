/**
  The replay buffer for frames in flight (core-supervisor/src/buffer_replay.rs): a bounded ring
  filled by push, emptied by ack, and copied out by replay, which counts a hop against every
  frame and retires the ones that have used theirs up. Every method holds the lock throughout,
  so a run is a sequence of whole steps.

  Beside the ring stands a log that is never edited in place: all payloads ever pushed, the
  number of replays there had been when each was pushed, and a low-water mark. Every run of the
  ring is a run of the log, and what the ring holds can be read off the log.
 */
module ReplayRing {
  import opened Bits

  type Data = seq<byte>

  datatype Frame = Frame(number: nat, data: Data, hops: nat)

  datatype Ring = Ring(frames: seq<Frame>, capacity: nat, nextSeq: nat, replays: nat, dropped: nat, maxHops: nat)

  datatype Op = Push(data: Data) | Ack(upto: nat) | Replay

  const DEFAULT_MAX_HOPS := 8
  const LOSS_SPIKE_THRESHOLD := 0.15

  // ---- The ring ----

  /** The elements that satisfy `keep`, in order. */
  function Retain(fs: seq<Frame>, keep: Frame -> bool): (r: seq<Frame>)
    ensures |r| <= |fs|
  {
    if fs == [] then []
    else
      var n := |fs| - 1;
      Retain(fs[..n], keep) + (if keep(fs[n]) then [fs[n]] else [])
  }

  function After(upto: nat): Frame -> bool {
    (f: Frame) => f.number > upto
  }

  function HopsLeft(maxHops: nat): Frame -> bool {
    (f: Frame) => f.hops < maxHops
  }

  function Hopped(fs: seq<Frame>): seq<Frame> {
    seq(|fs|, i requires 0 <= i < |fs| => fs[i].(hops := fs[i].hops + 1))
  }

  function NewRing(capacity: nat, maxHops: nat): Ring {
    Ring([], if capacity < 1 then 1 else capacity, 0, 0, 0, maxHops)
  }

  function PushStep(r: Ring, data: Data): Ring {
    var full := |r.frames| >= r.capacity && r.frames != [];
    var rest := if full then r.frames[1..] else r.frames;
    var dropped := if |r.frames| >= r.capacity then r.dropped + 1 else r.dropped;
    r.(frames := rest + [Frame(r.nextSeq, data, 0)], nextSeq := r.nextSeq + 1, dropped := dropped)
  }

  function AckStep(r: Ring, upto: nat): Ring {
    r.(frames := Retain(r.frames, After(upto)))
  }

  function ReplayStep(r: Ring): Ring {
    r.(frames := Hopped(Retain(r.frames, HopsLeft(r.maxHops))), replays := r.replays + 1)
  }

  function Step(r: Ring, op: Op): Ring {
    match op
    case Push(data) => PushStep(r, data)
    case Ack(upto) => AckStep(r, upto)
    case Replay => ReplayStep(r)
  }

  function Run(r: Ring, ops: seq<Op>): Ring {
    if ops == [] then r else Step(Run(r, ops[..|ops| - 1]), ops[|ops| - 1])
  }

  // ---- The log ----

  datatype Log = Log(sent: seq<Data>, born: seq<nat>, replays: nat, low: nat, acked: nat, evicted: nat, retired: nat)

  /** The first frame at or after n that has hops left. */
  function FirstFresh(log: Log, n: nat, maxHops: nat): (k: nat)
    requires n <= |log.born|
    ensures n <= k <= |log.born|
    ensures forall i :: n <= i < k ==> log.replays - log.born[i] >= maxHops
    ensures k < |log.born| ==> log.replays - log.born[k] < maxHops
    decreases |log.born| - n
  {
    if n == |log.born| || log.replays - log.born[n] < maxHops then n else FirstFresh(log, n + 1, maxHops)
  }

  const EMPTY_LOG := Log([], [], 0, 0, 0, 0, 0)

  ghost predicate UpTo(i: nat, j: nat) {
    i <= j
  }

  ghost predicate Nondecreasing(born: seq<nat>) {
    forall i: nat, j: nat {:trigger UpTo(i, j)} :: UpTo(i, j) && j < |born| ==> born[i] <= born[j]
  }

  ghost predicate Sound(log: Log, capacity: nat, maxHops: nat) {
    && capacity >= 1
    && |log.born| == |log.sent|
    && log.low <= |log.sent| <= log.low + capacity
    && log.low == log.acked + log.evicted + log.retired
    && Nondecreasing(log.born)
    && (forall i :: 0 <= i < |log.born| ==> log.born[i] <= log.replays)
    && (forall i :: log.low <= i < |log.born| ==> log.replays - log.born[i] <= maxHops)
  }

  ghost function LogStep(log: Log, op: Op, capacity: nat, maxHops: nat): Log
    requires Sound(log, capacity, maxHops)
  {
    match op
    case Push(data) =>
      var out := if |log.sent| - log.low >= capacity then 1 else 0;
      log.(sent := log.sent + [data], born := log.born + [log.replays], low := log.low + out, evicted := log.evicted +
           out)
    case Ack(upto) =>
      var low := if upto < log.low then log.low else if upto < |log.sent| then upto + 1 else |log.sent|;
      log.(low := low, acked := log.acked + (low - log.low))
    case Replay =>
      var low := FirstFresh(log, log.low, maxHops);
      log.(low := low, retired := log.retired + (low - log.low), replays := log.replays + 1)
  }

  lemma LogStepSound(log: Log, op: Op, capacity: nat, maxHops: nat)
    requires Sound(log, capacity, maxHops)
    ensures Sound(LogStep(log, op, capacity, maxHops), capacity, maxHops)
  {
    if op.Replay? {
      var low := FirstFresh(log, log.low, maxHops);
      forall i | low <= i < |log.born| ensures log.replays + 1 - log.born[i] <= maxHops {
        assert UpTo(low, i);
      }
    }
  }

  ghost function LogRun(ops: seq<Op>, capacity: nat, maxHops: nat): (log: Log)
    requires capacity >= 1
    ensures Sound(log, capacity, maxHops)
  {
    if ops == [] then EMPTY_LOG
    else
      var before := LogRun(ops[..|ops| - 1], capacity, maxHops);
      LogStepSound(before, ops[|ops| - 1], capacity, maxHops);
      LogStep(before, ops[|ops| - 1], capacity, maxHops)
  }

  /**
    What the ring holds: every frame from the low-water mark on, with its payload and the replays
    since it was pushed.
   */
  ghost function View(log: Log, capacity: nat, maxHops: nat): seq<Frame>
    requires Sound(log, capacity, maxHops)
  {
    seq(|log.sent| - log.low, i requires 0 <= i < |log.sent| - log.low =>
      Frame(log.low + i, log.sent[log.low + i], log.replays - log.born[log.low + i]))
  }

  ghost predicate Matches(r: Ring, log: Log) {
    && Sound(log, r.capacity, r.maxHops)
    && r.frames == View(log, r.capacity, r.maxHops)
    && r.nextSeq == |log.sent|
    && r.replays == log.replays
    && r.dropped == log.evicted
  }

  lemma RetainSnoc(fs: seq<Frame>, f: Frame, keep: Frame -> bool)
    ensures Retain(fs + [f], keep) == Retain(fs, keep) + (if keep(f) then [f] else [])
  {
    assert (fs + [f])[..|fs|] == fs;
  }

  lemma SuffixSnoc(fs: seq<Frame>, f: Frame, k: nat)
    requires k <= |fs|
    ensures (fs + [f])[k..] == fs[k..] + [f]
  {
  }

  lemma {:induction false} RetainSuffix(fs: seq<Frame>, keep: Frame -> bool, k: nat)
    requires k <= |fs|
    requires forall i :: 0 <= i < k ==> !keep(fs[i])
    requires forall i :: k <= i < |fs| ==> keep(fs[i])
    ensures Retain(fs, keep) == fs[k..]
    decreases |fs|
  {
    if fs != [] {
      var n := |fs| - 1;
      var rest, last := fs[..n], fs[n];
      assert fs == rest + [last];
      RetainSnoc(rest, last, keep);
      if k <= n {
        RetainSuffix(rest, keep, k);
        SuffixSnoc(rest, last, k);
      } else {
        RetainSuffix(rest, keep, n);
      }
    }
  }

  /** After a push the ring holds what it held, less the oldest if it was full, and the new frame. */
  lemma ViewPushed(log: Log, after: Log, capacity: nat, maxHops: nat, data: Data, out: nat)
    requires Sound(log, capacity, maxHops) && Sound(after, capacity, maxHops) && log.low + out <= |log.sent|
    requires after.sent == log.sent + [data] && after.born == log.born + [log.replays]
    requires after.low == log.low + out && after.replays == log.replays
    ensures View(after, capacity, maxHops) == View(log, capacity, maxHops)[out..] + [Frame(|log.sent|, data, 0)]
  {
  }

  lemma PushMatches(r: Ring, log: Log, data: Data)
    requires Matches(r, log)
    ensures Matches(PushStep(r, data), LogStep(log, Push(data), r.capacity, r.maxHops))
  {
    var after := LogStep(log, Push(data), r.capacity, r.maxHops);
    LogStepSound(log, Push(data), r.capacity, r.maxHops);
    var out := after.low - log.low;
    ViewPushed(log, after, r.capacity, r.maxHops, data, out);
    assert out == 0 ==> r.frames[out..] == r.frames;
  }

  lemma AckMatches(r: Ring, log: Log, upto: nat)
    requires Matches(r, log)
    ensures Matches(AckStep(r, upto), LogStep(log, Ack(upto), r.capacity, r.maxHops))
  {
    var after := LogStep(log, Ack(upto), r.capacity, r.maxHops);
    LogStepSound(log, Ack(upto), r.capacity, r.maxHops);
    var k := after.low - log.low;
    RetainSuffix(r.frames, After(upto), k);
    ViewSuffix(log, after, r.capacity, r.maxHops, r.frames, k);
  }

  lemma ViewSuffix(log: Log, after: Log, capacity: nat, maxHops: nat, fs: seq<Frame>, k: nat)
    requires Sound(log, capacity, maxHops) && Sound(after, capacity, maxHops)
    requires fs == View(log, capacity, maxHops) && k == after.low - log.low
    requires after.sent == log.sent && after.born == log.born
    ensures k <= |fs|
    ensures after.replays == log.replays ==> fs[k..] == View(after, capacity, maxHops)
    ensures after.replays == log.replays + 1 ==> Hopped(fs[k..]) == View(after, capacity, maxHops)
  {
  }

  /** From the first frame with hops left, every frame has hops left: the later ones are younger. */
  lemma FreshFromThereOn(log: Log, capacity: nat, maxHops: nat, i: nat)
    requires Sound(log, capacity, maxHops) && FirstFresh(log, log.low, maxHops) <= i < |log.born|
    ensures log.replays - log.born[i] < maxHops
  {
    assert UpTo(FirstFresh(log, log.low, maxHops), i);
  }

  lemma ViewHops(log: Log, capacity: nat, maxHops: nat, fs: seq<Frame>, k: nat)
    requires Sound(log, capacity, maxHops) && fs == View(log, capacity, maxHops)
    requires k == FirstFresh(log, log.low, maxHops) - log.low
    ensures k <= |fs|
    ensures forall i :: 0 <= i < k ==> fs[i].hops >= maxHops
    ensures forall i :: k <= i < |fs| ==> fs[i].hops < maxHops
  {
    forall i | k <= i < |fs| ensures fs[i].hops < maxHops {
      FreshFromThereOn(log, capacity, maxHops, log.low + i);
    }
  }

  lemma ReplayMatches(r: Ring, log: Log)
    requires Matches(r, log)
    ensures Matches(ReplayStep(r), LogStep(log, Replay, r.capacity, r.maxHops))
  {
    var after := LogStep(log, Replay, r.capacity, r.maxHops);
    LogStepSound(log, Replay, r.capacity, r.maxHops);
    var k := after.low - log.low;
    ViewHops(log, r.capacity, r.maxHops, r.frames, k);
    RetainSuffix(r.frames, HopsLeft(r.maxHops), k);
    ViewSuffix(log, after, r.capacity, r.maxHops, r.frames, k);
  }

  lemma StepMatches(r: Ring, log: Log, op: Op)
    requires Matches(r, log)
    ensures Matches(Step(r, op), LogStep(log, op, r.capacity, r.maxHops))
  {
    match op
    case Push(data) => PushMatches(r, log, data);
    case Ack(upto) => AckMatches(r, log, upto);
    case Replay => ReplayMatches(r, log);
  }

  /** Every run of the ring is a run of the log. */
  lemma {:induction false} RingRefinesLog(capacity: nat, maxHops: nat, ops: seq<Op>)
    ensures var r := Run(NewRing(capacity, maxHops), ops);
            && r.capacity == NewRing(capacity, maxHops).capacity && r.maxHops == maxHops
            && Matches(r, LogRun(ops, r.capacity, maxHops))
    decreases |ops|
  {
    if ops != [] {
      var n := |ops| - 1;
      RingRefinesLog(capacity, maxHops, ops[..n]);
      var before := Run(NewRing(capacity, maxHops), ops[..n]);
      StepMatches(before, LogRun(ops[..n], before.capacity, maxHops), ops[n]);
    }
  }

  // ---- What that means for a run ----

  /** The payloads pushed in a run, in order. */
  function Pushed(ops: seq<Op>): seq<Data> {
    if ops == [] then []
    else
      var before := Pushed(ops[..|ops| - 1]);
      match ops[|ops| - 1] case Push(data) => before + [data] case _ => before
  }

  lemma {:induction false} SentIsPushed(ops: seq<Op>, capacity: nat, maxHops: nat)
    requires capacity >= 1
    ensures LogRun(ops, capacity, maxHops).sent == Pushed(ops)
    decreases |ops|
  {
    if ops != [] {
      SentIsPushed(ops[..|ops| - 1], capacity, maxHops);
    }
  }

  /** A ring holds the last of the payloads sent and no others, unaltered, the older with at least as many hops. */
  ghost predicate HoldsLast(r: Ring, sent: seq<Data>) {
    && r.nextSeq == |sent|
    && |r.frames| <= r.nextSeq && |r.frames| <= r.capacity
    && (forall i :: 0 <= i < |r.frames| ==>
          && r.frames[i].number == r.nextSeq - |r.frames| + i
          && r.frames[i].data == sent[r.nextSeq - |r.frames| + i]
          && r.frames[i].hops <= r.maxHops)
    && (forall i, j :: 0 <= i <= j < |r.frames| ==> r.frames[i].hops >= r.frames[j].hops)
  }

  lemma MatchesHoldsLast(r: Ring, log: Log)
    requires Matches(r, log)
    ensures HoldsLast(r, log.sent)
  {
    forall i, j | 0 <= i <= j < |r.frames| ensures r.frames[i].hops >= r.frames[j].hops {
      assert UpTo(log.low + i, log.low + j);
    }
  }

  /** How many frames the last operation took out of the ring. */
  function Removed(r: Ring, ops: seq<Op>): int
    requires ops != []
  {
    |Run(r, ops[..|ops| - 1]).frames| - |Run(r, ops).frames|
  }

  /** The sum of what the acknowledgements of a run returned. */
  function AckedBy(r: Ring, ops: seq<Op>): int {
    if ops == [] then 0
    else
      var n := |ops| - 1;
      AckedBy(r, ops[..n]) + (if ops[n].Ack? then Removed(r, ops) else 0)
  }

  /** How many frames the replays of a run took out instead of handing out. */
  function RetiredBy(r: Ring, ops: seq<Op>): int {
    if ops == [] then 0
    else
      var n := |ops| - 1;
      RetiredBy(r, ops[..n]) + (if ops[n].Replay? then Removed(r, ops) else 0)
  }

  lemma LogStepCounts(log: Log, op: Op, capacity: nat, maxHops: nat)
    requires Sound(log, capacity, maxHops)
    ensures var after := LogStep(log, op, capacity, maxHops);
            var removed := (|log.sent| - log.low) - (|after.sent| - after.low);
            && after.acked == log.acked + (if op.Ack? then removed else 0)
            && after.retired == log.retired + (if op.Replay? then removed else 0)
  {
  }

  lemma {:induction false} LogCounts(capacity: nat, maxHops: nat, ops: seq<Op>)
    ensures var start := NewRing(capacity, maxHops);
            var log := LogRun(ops, start.capacity, maxHops);
            log.acked == AckedBy(start, ops) && log.retired == RetiredBy(start, ops)
    decreases |ops|
  {
    if ops != [] {
      var n, start := |ops| - 1, NewRing(capacity, maxHops);
      LogCounts(capacity, maxHops, ops[..n]);
      RingRefinesLog(capacity, maxHops, ops[..n]);
      RingRefinesLog(capacity, maxHops, ops);
      LogStepCounts(LogRun(ops[..n], start.capacity, maxHops), ops[n], start.capacity, maxHops);
    }
  }

  /**
    In every run the ring holds the last frames pushed; and every frame pushed is pending, or was
    counted by an acknowledgement, counted as dropped, or taken out by a replay.
   */
  lemma RunInvariants(capacity: nat, maxHops: nat, ops: seq<Op>)
    ensures HoldsLast(Run(NewRing(capacity, maxHops), ops), Pushed(ops))
    ensures var start := NewRing(capacity, maxHops);
            var r := Run(start, ops);
            |Pushed(ops)| == |r.frames| + AckedBy(start, ops) + r.dropped + RetiredBy(start, ops)
  {
    RingRefinesLog(capacity, maxHops, ops);
    var r := Run(NewRing(capacity, maxHops), ops);
    SentIsPushed(ops, r.capacity, maxHops);
    MatchesHoldsLast(r, LogRun(ops, r.capacity, maxHops));
    LogCounts(capacity, maxHops, ops);
  }

  lemma HeldFrame(capacity: nat, maxHops: nat, ops: seq<Op>, i: nat)
    requires i < |Run(NewRing(capacity, maxHops), ops).frames|
    ensures var frame := Run(NewRing(capacity, maxHops), ops).frames[i];
            frame.number < |Pushed(ops)| && frame.data == Pushed(ops)[frame.number]
  {
    RunInvariants(capacity, maxHops, ops);
  }

  /** How many replays of the run handed out frame number n. */
  ghost function TimesReplayed(r: Ring, ops: seq<Op>, n: nat): nat {
    if ops == [] then 0
    else
      var k := |ops| - 1;
      TimesReplayed(r, ops[..k], n) + (if ops[k].Replay? && Holds(Run(r, ops).frames, n) then 1 else 0)
  }

  ghost predicate Holds(fs: seq<Frame>, n: nat) {
    exists i :: 0 <= i < |fs| && fs[i].number == n
  }

  lemma HoldsIffNotLow(r: Ring, log: Log, n: nat)
    requires Matches(r, log)
    ensures Holds(r.frames, n) <==> log.low <= n < |log.sent|
  {
    if log.low <= n < |log.sent| {
      assert r.frames[n - log.low].number == n;
    }
  }

  /** What the log says about the number of times frame n was handed out. */
  ghost predicate CountFits(log: Log, n: nat, times: nat, maxHops: nat)
    requires |log.born| == |log.sent|
  {
    && (n >= |log.sent| ==> times == 0)
    && (log.low <= n < |log.sent| ==> times == log.replays - log.born[n])
    && times <= maxHops
  }

  lemma CountFitsStep(log: Log, op: Op, capacity: nat, maxHops: nat, n: nat, times: nat)
    requires Sound(log, capacity, maxHops) && CountFits(log, n, times, maxHops)
    ensures var after := LogStep(log, op, capacity, maxHops);
            |after.born| == |after.sent| &&
            CountFits(after, n, times + (if op.Replay? && after.low <= n < |after.sent| then 1 else 0), maxHops)
  {
    LogStepSound(log, op, capacity, maxHops);
  }

  lemma {:induction false} ReplayCount(capacity: nat, maxHops: nat, ops: seq<Op>, n: nat)
    ensures var start := NewRing(capacity, maxHops);
            CountFits(LogRun(ops, start.capacity, maxHops), n, TimesReplayed(start, ops, n), maxHops)
    decreases |ops|
  {
    if ops != [] {
      var k, start := |ops| - 1, NewRing(capacity, maxHops);
      ReplayCount(capacity, maxHops, ops[..k], n);
      var log := LogRun(ops[..k], start.capacity, maxHops);
      CountFitsStep(log, ops[k], start.capacity, maxHops, n, TimesReplayed(start, ops[..k], n));
      RingRefinesLog(capacity, maxHops, ops);
      HoldsIffNotLow(Run(start, ops), LogRun(ops, start.capacity, maxHops), n);
    }
  }

  lemma HeldCount(r: Ring, log: Log, i: nat, times: nat)
    requires Matches(r, log) && i < |r.frames| && CountFits(log, r.frames[i].number, times, r.maxHops)
    ensures r.frames[i].hops == times
  {
  }

  /** The hop count of every frame held is the number of replays that handed it out. */
  lemma HopsAreReplays(capacity: nat, maxHops: nat, ops: seq<Op>, i: nat)
    requires i < |Run(NewRing(capacity, maxHops), ops).frames|
    ensures var start := NewRing(capacity, maxHops);
            var frame := Run(start, ops).frames[i];
            frame.hops == TimesReplayed(start, ops, frame.number)
  {
    var start := NewRing(capacity, maxHops);
    var r := Run(start, ops);
    var n := r.frames[i].number;
    RingRefinesLog(capacity, maxHops, ops);
    ReplayCount(capacity, maxHops, ops, n);
    HeldCount(r, LogRun(ops, start.capacity, maxHops), i, TimesReplayed(start, ops, n));
  }

  /** No frame, held or gone, was handed out more often than allowed. */
  lemma ReplayBound(capacity: nat, maxHops: nat, ops: seq<Op>, n: nat)
    ensures TimesReplayed(NewRing(capacity, maxHops), ops, n) <= maxHops
  {
    ReplayCount(capacity, maxHops, ops, n);
  }

  // ---- The object ----

  class RingBufferReplay {
    var frames: seq<Frame>
    const capacity: nat
    var nextSeq: nat
    var replays: nat
    var dropped: nat
    const maxHops: nat

    function State(): Ring
      reads this
    {
      Ring(frames, capacity, nextSeq, replays, dropped, maxHops)
    }

    constructor WithMaxHops(capacity: nat, maxHops: nat)
      ensures State() == NewRing(capacity, maxHops)
    {
      this.frames := [];
      this.capacity := if capacity < 1 then 1 else capacity;
      this.nextSeq, this.replays, this.dropped := 0, 0, 0;
      this.maxHops := maxHops;
    }

    constructor (capacity: nat)
      ensures State() == NewRing(capacity, DEFAULT_MAX_HOPS)
    {
      this.frames := [];
      this.capacity := if capacity < 1 then 1 else capacity;
      this.nextSeq, this.replays, this.dropped := 0, 0, 0;
      this.maxHops := DEFAULT_MAX_HOPS;
    }

    method Push(data: Data) returns (number: nat)
      modifies this
      ensures State() == PushStep(old(State()), data)
      ensures number == old(nextSeq)
    {
      if |frames| >= capacity {
        if frames != [] {
          frames := frames[1..];
        }
        dropped := dropped + 1;
      }
      number := nextSeq;
      nextSeq := nextSeq + 1;
      frames := frames + [Frame(number, data, 0)];
    }

    method Ack(upto: nat) returns (retired: nat)
      modifies this
      ensures State() == AckStep(old(State()), upto)
      ensures retired == |old(frames)| - |frames|
    {
      var before := frames;
      var keep := After(upto);
      var kept: seq<Frame> := [];
      for i := 0 to |before|
        invariant kept == Retain(before[..i], keep)
      {
        assert before[..i + 1][..i] == before[..i];
        if before[i].number > upto {
          kept := kept + [before[i]];
        }
      }
      assert before[..|before|] == before;
      frames := kept;
      retired := |before| - |frames|;
    }

    method ReplayAll() returns (out: seq<Frame>)
      modifies this
      ensures State() == ReplayStep(old(State()))
      ensures out == frames
    {
      var limit := maxHops;
      var before := frames;
      var keep := HopsLeft(limit);
      var kept: seq<Frame> := [];
      for i := 0 to |before|
        invariant kept == Retain(before[..i], keep)
      {
        assert before[..i + 1][..i] == before[..i];
        if before[i].hops < limit {
          kept := kept + [before[i]];
        }
      }
      assert before[..|before|] == before;
      frames := kept;
      for i := 0 to |kept|
        invariant |frames| == |kept|
        invariant forall j :: 0 <= j < |kept| ==>
                  frames[j] == if j < i then kept[j].(hops := kept[j].hops + 1) else kept[j]
        invariant nextSeq == old(nextSeq) && replays == old(replays) && dropped == old(dropped)
      {
        frames := frames[i := frames[i].(hops := frames[i].hops + 1)];
      }
      replays := replays + 1;
      out := frames;
      assert frames == Hopped(kept);
    }

    /** Only a loss rate above the threshold replays. */
    method OnLossSpike(lossRate: real) returns (replayed: bool, out: seq<Frame>)
      modifies this
      ensures replayed == (lossRate > LOSS_SPIKE_THRESHOLD)
      ensures State() == if replayed then ReplayStep(old(State())) else old(State())
      ensures out == if replayed then frames else []
    {
      if lossRate > LOSS_SPIKE_THRESHOLD {
        replayed := true;
        out := ReplayAll();
      } else {
        replayed, out := false, [];
      }
    }
  }
}
