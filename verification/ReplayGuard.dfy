/**
  The nonce guard (antiforgery/src/replay.rs:23-63): a nonce is refused while it is remembered.
  Every check first forgets what has expired, and so does an explicit call to prune. Times are
  milliseconds and never overflow.
 */
module ReplayGuard {

  type Nonce = string

  datatype Call = Check(nonce: Nonce, now: int) | Prune(now: int)

  // ---- One call ----

  function Pruned(seen: map<Nonce, int>, now: int): map<Nonce, int> {
    map n | n in seen && seen[n] > now :: seen[n]
  }

  predicate Accepts(seen: map<Nonce, int>, c: Call) {
    c.Check? && c.nonce !in Pruned(seen, c.now)
  }

  function After(seen: map<Nonce, int>, c: Call, ttl: int): map<Nonce, int> {
    if Accepts(seen, c) then Pruned(seen, c.now)[c.nonce := c.now + ttl] else Pruned(seen, c.now)
  }

  // ---- Runs ----

  function Run(calls: seq<Call>, ttl: int): map<Nonce, int> {
    if calls == [] then map[] else After(Run(calls[..|calls| - 1], ttl), calls[|calls| - 1], ttl)
  }

  /** Whether call j of a run is a check, and is accepted. */
  predicate Accepted(calls: seq<Call>, ttl: int, j: nat)
    requires j < |calls|
  {
    Accepts(Run(calls[..j], ttl), calls[j])
  }

  predicate AcceptedFor(calls: seq<Call>, ttl: int, j: nat, n: Nonce) {
    j < |calls| && Accepted(calls, ttl, j) && calls[j].nonce == n
  }

  /** Call j was accepted for n, and no call since has come as late as its expiry x. */
  ghost predicate Backs(calls: seq<Call>, ttl: int, j: nat, n: Nonce, x: int) {
    && AcceptedFor(calls, ttl, j, n) && x == calls[j].now + ttl
    && forall k :: j < k < |calls| ==> calls[k].now < x
  }

  ghost predicate Remembered(calls: seq<Call>, ttl: int, n: Nonce, x: int) {
    exists j: nat :: Backs(calls, ttl, j, n, x)
  }

  lemma BacksExtend(calls: seq<Call>, ttl: int, j: nat, n: Nonce, x: int)
    requires calls != [] && j < |calls| - 1
    ensures Backs(calls, ttl, j, n, x) <==> Backs(calls[..|calls| - 1], ttl, j, n, x) && calls[|calls| - 1].now < x
  {
    var before := calls[..|calls| - 1];
    assert before[..j] == calls[..j] && before[j] == calls[j];
    if Backs(before, ttl, j, n, x) && calls[|calls| - 1].now < x {
      forall k | j < k < |calls| ensures calls[k].now < x {
        assert k < |before| ==> before[k] == calls[k];
      }
    }
    if Backs(calls, ttl, j, n, x) {
      forall k | j < k < |before| ensures before[k].now < x {
        assert before[k] == calls[k];
      }
    }
  }

  lemma RememberedStep(calls: seq<Call>, ttl: int, n: Nonce, x: int)
    requires calls != []
    ensures var m := |calls| - 1;
            Remembered(calls, ttl, n, x) <==>
            || (Remembered(calls[..m], ttl, n, x) && calls[m].now < x)
            || (AcceptedFor(calls, ttl, m, n) && x == calls[m].now + ttl)
  {
    var m := |calls| - 1;
    if j: nat :| Backs(calls, ttl, j, n, x) {
      if j < m {
        BacksExtend(calls, ttl, j, n, x);
      }
    }
    if Remembered(calls[..m], ttl, n, x) && calls[m].now < x {
      var j: nat :| Backs(calls[..m], ttl, j, n, x);
      BacksExtend(calls, ttl, j, n, x);
    }
    if AcceptedFor(calls, ttl, m, n) && x == calls[m].now + ttl {
      assert Backs(calls, ttl, m, n, x);
    }
  }

  /**
    In every run of checks and prunes, under any clock, the guard holds exactly the nonces
    accepted and not yet outlived, each with its expiry.
   */
  lemma {:induction false} HoldsTheUnexpired(calls: seq<Call>, ttl: int, n: Nonce, x: int)
    requires ttl >= 1
    ensures n in Run(calls, ttl) && Run(calls, ttl)[n] == x <==> Remembered(calls, ttl, n, x)
    decreases |calls|
  {
    if calls != [] {
      RememberedStep(calls, ttl, n, x);
      HoldsTheUnexpired(calls[..|calls| - 1], ttl, n, x);
    }
  }

  /** Call j was accepted for the nonce of check i, and no call after it up to i has come as late as its expiry. */
  ghost predicate Blocks(calls: seq<Call>, ttl: int, j: nat, i: nat) {
    && j < i < |calls| && calls[i].Check? && AcceptedFor(calls, ttl, j, calls[i].nonce)
    && forall k :: j < k <= i ==> calls[k].now < calls[j].now + ttl
  }

  lemma BlocksIffBacks(calls: seq<Call>, ttl: int, j: nat, i: nat, x: int)
    requires j < i < |calls| && calls[i].Check? && x == calls[j].now + ttl
    ensures Blocks(calls, ttl, j, i) <==> Backs(calls[..i], ttl, j, calls[i].nonce, x) && calls[i].now < x
  {
    var before := calls[..i];
    assert before[..j] == calls[..j] && before[j] == calls[j];
    if Backs(before, ttl, j, calls[i].nonce, x) && calls[i].now < x {
      forall k | j < k <= i ensures calls[k].now < x {
        assert k < i ==> before[k] == calls[k];
      }
    }
  }

  /**
    A check is refused exactly when an earlier one was accepted for its nonce and no call since
    then, check or prune, this one included, has come as late as its expiry.
   */
  lemma RefusedIff(calls: seq<Call>, ttl: int, i: nat)
    requires ttl >= 1 && i < |calls| && calls[i].Check?
    ensures !Accepted(calls, ttl, i) <==> exists j: nat :: Blocks(calls, ttl, j, i)
  {
    var before, seen, n := calls[..i], Run(calls[..i], ttl), calls[i].nonce;
    if !Accepted(calls, ttl, i) {
      HoldsTheUnexpired(before, ttl, n, seen[n]);
      var j: nat :| Backs(before, ttl, j, n, seen[n]);
      BlocksIffBacks(calls, ttl, j, i, seen[n]);
    }
    if j: nat :| Blocks(calls, ttl, j, i) {
      var x := calls[j].now + ttl;
      BlocksIffBacks(calls, ttl, j, i, x);
      HoldsTheUnexpired(before, ttl, n, x);
    }
  }

  // ---- Under a clock that does not run backwards ----

  ghost predicate Timely(calls: seq<Call>) {
    forall i, j :: 0 <= i <= j < |calls| ==> calls[i].now <= calls[j].now
  }

  ghost predicate AcceptedWithin(calls: seq<Call>, ttl: int, j: nat, i: nat) {
    && j < i < |calls| && calls[i].Check? && AcceptedFor(calls, ttl, j, calls[i].nonce)
    && calls[i].now - calls[j].now < ttl
  }

  /** Refused exactly when accepted less than the time to live ago. */
  lemma RefusedWithinTtl(calls: seq<Call>, ttl: int, i: nat)
    requires ttl >= 1 && i < |calls| && calls[i].Check? && Timely(calls)
    ensures !Accepted(calls, ttl, i) <==> exists j: nat :: AcceptedWithin(calls, ttl, j, i)
  {
    RefusedIff(calls, ttl, i);
    if j: nat :| Blocks(calls, ttl, j, i) {
      assert AcceptedWithin(calls, ttl, j, i);
    }
    if j: nat :| AcceptedWithin(calls, ttl, j, i) {
      assert Blocks(calls, ttl, j, i);
    }
  }

  /** Call j was accepted for n less than the time to live before the last call. */
  ghost predicate AcceptedLately(calls: seq<Call>, ttl: int, j: nat, n: Nonce)
    requires calls != []
  {
    AcceptedFor(calls, ttl, j, n) && calls[|calls| - 1].now - calls[j].now < ttl
  }

  /**
    After every call, the nonces tracked are exactly those accepted within the last time to live, that
    call included.
   */
  lemma TracksTheLastTtl(calls: seq<Call>, ttl: int, n: Nonce)
    requires ttl >= 1 && calls != [] && Timely(calls)
    ensures n in Run(calls, ttl) <==> exists j: nat :: AcceptedLately(calls, ttl, j, n)
  {
    if n in Run(calls, ttl) {
      var x := Run(calls, ttl)[n];
      HoldsTheUnexpired(calls, ttl, n, x);
      var j: nat :| Backs(calls, ttl, j, n, x);
      assert AcceptedLately(calls, ttl, j, n);
    }
    if j: nat :| AcceptedLately(calls, ttl, j, n) {
      var x := calls[j].now + ttl;
      assert Backs(calls, ttl, j, n, x);
      HoldsTheUnexpired(calls, ttl, n, x);
    }
  }

  /** A clock that steps back can bring a nonce back early: what a later time has pruned is gone. */
  lemma BackwardClock()
    ensures var calls := [Check("n", 0), Prune(1000), Check("n", 500)];
            && Accepted(calls, 1000, 0) && Accepted(calls, 1000, 2)
            && !Timely(calls) && calls[2].now - calls[0].now < 1000
  {
    var calls := [Check("n", 0), Prune(1000), Check("n", 500)];
    assert calls[..0] == [] && calls[..1] == [calls[0]] && calls[..2] == [calls[0], calls[1]];
    assert calls[..1][..0] == [] && calls[..2][..1] == [calls[0]];
    assert Run([calls[0]], 1000) == map["n" := 1000];
    assert Run(calls[..2], 1000) == map[];
    assert calls[1].now > calls[2].now;
  }

  // ---- The object ----

  class Guard {
    var seen: map<Nonce, int>
    const ttl: int

    constructor (ttl: int)
      ensures seen == map[] && this.ttl == (if ttl < 1 then 1 else ttl)
    {
      seen, this.ttl := map[], if ttl < 1 then 1 else ttl;
    }

    method Prune(now: int)
      modifies this
      ensures seen == Pruned(old(seen), now) == After(old(seen), Call.Prune(now), ttl)
    {
      var kept := map[];
      var todo := seen.Keys;
      while todo != {}
        invariant todo <= seen.Keys && seen == old(seen)
        invariant kept == map n | n in seen && n !in todo && seen[n] > now :: seen[n]
        decreases |todo|
      {
        var n :| n in todo;
        todo := todo - {n};
        if seen[n] > now {
          kept := kept[n := seen[n]];
        }
      }
      seen := kept;
    }

    method CheckAndRecord(nonce: Nonce, now: int) returns (accepted: bool)
      modifies this
      ensures accepted == Accepts(old(seen), Check(nonce, now))
      ensures seen == After(old(seen), Check(nonce, now), ttl)
    {
      Prune(now);
      if nonce in seen {
        var expiry := seen[nonce];
        if expiry > now {
          return false;
        }
      }
      seen := seen[nonce := now + ttl];
      accepted := true;
    }
  }
}
