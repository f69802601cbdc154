/**
 The pacing loop of the best-effort flood. Every iteration reads the clock once, and nothing is assumed about the
 readings: they may stall, jump or run backwards.
 */
module Flood {

  const CATCH_UP: int := 50_000_000   // 50 ms in ns

  /** `attempts` lists the clock reading of every send attempt, in order. */
  datatype State = State(nextTx: int, attempts: seq<int>)

  /** One iteration before the deadline: wait, or schedule the next packet and send. */
  function Tick(s: State, now: int, perPkt: int): State {
    if perPkt == 0 then s.(attempts := s.attempts + [now])
    else if now < s.nextTx then s
    else
      var next := s.nextTx + perPkt;
      State(if now - next > CATCH_UP then now else next, s.attempts + [now])
  }

  /** The loop over the readings of a run; the first reading at or past the deadline ends it, and so does an
      interrupt. */
  function Loop(s: State, clock: seq<int>, deadline: int, perPkt: int): State
    decreases clock
  {
    if clock == [] || clock[0] >= deadline then s
    else Loop(Tick(s, clock[0], perPkt), clock[1..], deadline, perPkt)
  }

  function Start(t0: int): State { State(t0, []) }

  /**
   The loop of `main`. `clock` holds the readings after `t0`, `sendOk` tells for each attempt whether `sendto` succeeded.
   */
  method Run(t0: int, duration: int, perPkt: int, clock: seq<int>, sendOk: nat -> bool)
    returns (sent: nat, errors: nat)
    ensures sent + errors == |Loop(Start(t0), clock, t0 + duration, perPkt).attempts|
    ensures sent == |set i | 0 <= i < sent + errors && sendOk(i)|
  {
    sent, errors := 0, 0;
    var deadline := t0 + duration;
    var nextTx := t0;
    ghost var attempts: seq<int> := [];
    var i := 0;
    while i < |clock|
      invariant 0 <= i <= |clock|
      invariant sent + errors == |attempts| && sent == Successes(|attempts|, sendOk)
      invariant Loop(State(nextTx, attempts), clock[i..], deadline, perPkt) == Loop(Start(t0), clock, deadline, perPkt)
    {
      var now := clock[i];
      assert clock[i..][0] == now && clock[i..][1..] == clock[i + 1..];
      if now >= deadline {
        break;
      }
      i := i + 1;
      if perPkt != 0 {
        if now < nextTx {
          continue;
        }
        nextTx := nextTx + perPkt;
        if now - nextTx > CATCH_UP {
          nextTx := now;
        }
      }
      if sendOk(sent + errors) {
        sent := sent + 1;
      } else {
        errors := errors + 1;
      }
      attempts := attempts + [now];
    }
    SuccessesAreOk(sent + errors, sendOk);
  }

  function Successes(n: nat, ok: nat -> bool): nat {
    if n == 0 then 0 else Successes(n - 1, ok) + if ok(n - 1) then 1 else 0
  }

  lemma {:induction false} SuccessesAreOk(n: nat, ok: nat -> bool)
    ensures Successes(n, ok) == |set i | 0 <= i < n && ok(i)|
  {
    var all := set i | 0 <= i < n && ok(i);
    if n == 0 {
      assert all == {};
    } else {
      var rest := set i | 0 <= i < n - 1 && ok(i);
      SuccessesAreOk(n - 1, ok);
      assert all == rest + if ok(n - 1) then {n - 1} else {};
    }
  }

  // ----- What one reading does -----

  /**
   A reading at or past the deadline ends the run. Before it, every reading that is due is an attempt, and no other is;
   the schedule moves on by a spacing, or to the reading itself if that leaves it more than 50 ms behind. Without pacing
   every reading is due.
   */
  lemma EveryReading(s: State, now: int, rest: seq<int>, deadline: int, perPkt: int)
    ensures Loop(s, [now] + rest, deadline, perPkt) ==
            if now >= deadline then s
            else if perPkt == 0 then Loop(State(s.nextTx, s.attempts + [now]), rest, deadline, perPkt)
            else if now < s.nextTx then Loop(s, rest, deadline, perPkt)
            else if now - (s.nextTx + perPkt) > 50_000_000
              then Loop(State(now, s.attempts + [now]), rest, deadline, perPkt)
            else Loop(State(s.nextTx + perPkt, s.attempts + [now]), rest, deadline, perPkt)
    ensures Loop(s, [], deadline, perPkt) == s
  {
    assert ([now] + rest)[1..] == rest;
  }

  /** After a stall of more than 50 ms the schedule starts again at the reading that ended it: one attempt more is due at
      once, and the next one a spacing later. */
  lemma StallRun(t0: int, duration: int, perPkt: int, now: int)
    requires perPkt > 0 && now - (t0 + perPkt) > 50_000_000 && now + perPkt < t0 + duration
    ensures Loop(Start(t0), [now, now, now + perPkt - 1, now + perPkt], t0 + duration, perPkt) ==
            State(now + 2 * perPkt, [now, now, now + perPkt])
  {
    var end := t0 + duration;
    var s1, s2 := State(now, [now]), State(now + perPkt, [now, now]);
    var c1, c2, c3 := [now, now + perPkt - 1, now + perPkt], [now + perPkt - 1, now + perPkt], [now + perPkt];
    EveryReading(Start(t0), now, c1, end, perPkt);
    assert [now] + c1 == [now, now, now + perPkt - 1, now + perPkt] && [] + [now] == [now];
    EveryReading(s1, now, c2, end, perPkt);
    assert [now] + c2 == c1 && [now] + [now] == [now, now];
    EveryReading(s2, now + perPkt - 1, c3, end, perPkt);
    assert [now + perPkt - 1] + c3 == c2;
    EveryReading(s2, now + perPkt, [], end, perPkt);
    var s3 := State(now + 2 * perPkt, [now, now, now + perPkt]);
    assert [now + perPkt] + [] == c3 && [now, now] + [now + perPkt] == s3.attempts;
    EveryReading(s3, now, [], end, perPkt);
  }

  // ----- Bounds, with a positive spacing -----

  /** `log[k]` is `nextTx` just before attempt `k`: the attempt is due, and then the schedule moves on. */
  predicate PacedAt(t: seq<int>, log: seq<int>, deadline: int, perPkt: int, k: nat)
    requires k < |t| && |log| == |t| + 1
  {
    && log[k] <= t[k] < deadline
    && log[k + 1] == var next := log[k] + perPkt; if t[k] - next > CATCH_UP then t[k] else next
  }

  predicate Paced(s: State, log: seq<int>, t0: int, deadline: int, perPkt: int) {
    && |log| == |s.attempts| + 1
    && log[0] == t0 && log[|s.attempts|] == s.nextTx
    && forall k | 0 <= k < |s.attempts| :: PacedAt(s.attempts, log, deadline, perPkt, k)
  }

  lemma {:induction false} LoopIsPaced(s: State, log: seq<int>, clock: seq<int>, t0: int, deadline: int, perPkt: int)
    returns (log': seq<int>)
    requires perPkt > 0 && Paced(s, log, t0, deadline, perPkt)
    ensures Paced(Loop(s, clock, deadline, perPkt), log', t0, deadline, perPkt)
    decreases clock
  {
    log' := log;
    if clock != [] && clock[0] < deadline {
      var s' := Tick(s, clock[0], perPkt);
      log' := if clock[0] < s.nextTx then log else log + [s'.nextTx];
      forall k | 0 <= k < |s'.attempts| ensures PacedAt(s'.attempts, log', deadline, perPkt, k) {
        assert k < |s.attempts| ==> PacedAt(s.attempts, log, deadline, perPkt, k);
      }
      log' := LoopIsPaced(s', log', clock[1..], t0, deadline, perPkt);
    }
  }

  /** The schedule advances by at least a spacing per attempt, through resets and backward clock steps alike. */
  lemma {:induction false} ScheduleAdvances(s: State, log: seq<int>, t0: int, deadline: int, perPkt: int, i: nat, j: nat)
    requires Paced(s, log, t0, deadline, perPkt) && i <= j < |log|
    ensures log[i] + (j - i) * perPkt <= log[j]
    decreases j
  {
    if i < j {
      ScheduleAdvances(s, log, t0, deadline, perPkt, i, j - 1);
      assert PacedAt(s.attempts, log, deadline, perPkt, j - 1);
      assert (j - i) * perPkt == (j - 1 - i) * perPkt + perPkt;
    }
  }

  /**
   Burst bound: however the clock behaves, the attempts after attempt `i` and up to attempt `j` fit the time between
   them plus the 50 ms of catch-up. A stall is never made up for beyond that.
   */
  lemma BurstBound(t0: int, duration: int, perPkt: int, clock: seq<int>, i: nat, j: nat)
    requires perPkt > 0
    requires i < j < |Loop(Start(t0), clock, t0 + duration, perPkt).attempts|
    ensures var t := Loop(Start(t0), clock, t0 + duration, perPkt).attempts;
            (j - i - 1) * perPkt <= t[j] - t[i] + 50_000_000
  {
    var s := Loop(Start(t0), clock, t0 + duration, perPkt);
    var log := LoopIsPaced(Start(t0), [t0], clock, t0, t0 + duration, perPkt);
    assert PacedAt(s.attempts, log, t0 + duration, perPkt, i) && PacedAt(s.attempts, log, t0 + duration, perPkt, j);
    ScheduleAdvances(s, log, t0, t0 + duration, perPkt, i + 1, j);
  }

  /** The burst bound is tight: a stall of just the catch-up is followed by that many attempts at one reading. */
  lemma BurstBoundAttained(t0: int, duration: int, perPkt: int)
    requires perPkt > 0 && 50_000_000 % perPkt == 0 && duration > perPkt + 50_000_000
    ensures var clock := seq(50_000_000 / perPkt + 2, i => t0 + perPkt + 50_000_000);
      var t := Loop(Start(t0), clock, t0 + duration, perPkt).attempts;
      && |t| == |clock|
      && (|t| - 2) * perPkt == t[|t| - 1] - t[0] + 50_000_000
  {
    var m := 50_000_000 / perPkt;
    assert m * perPkt == 50_000_000;
    SteadyBurst(Start(t0), t0, duration, perPkt, m + 2);
  }

  lemma {:induction false} SteadyBurst(s: State, t0: int, duration: int, perPkt: int, n: nat)
    requires perPkt > 0 && duration > perPkt + 50_000_000
    requires var now := t0 + perPkt + 50_000_000;
             && t0 <= s.nextTx && s.nextTx + (n - 1) * perPkt <= now
             && forall k | 0 <= k < |s.attempts| :: s.attempts[k] == now
    ensures var now := t0 + perPkt + 50_000_000;
            Loop(s, seq(n, i => now), t0 + duration, perPkt).attempts == s.attempts + seq(n, i => now)
    decreases n
  {
    if n > 0 {
      var now := t0 + perPkt + 50_000_000;
      var clock := seq(n, i => now);
      assert clock[1..] == seq(n - 1, i => now);
      assert (n - 1) * perPkt == (n - 2) * perPkt + perPkt;
      assert n > 1 ==> (n - 2) * perPkt >= 0;
      SteadyBurst(Tick(s, now, perPkt), t0, duration, perPkt, n - 1);
      assert s.attempts + clock == s.attempts + [now] + clock[1..];
    }
  }

  /** Rate bound: attempt `k` is never early, and the whole run makes at most duration / spacing attempts, rounded
      up. */
  lemma TotalBound(t0: int, duration: int, perPkt: int, clock: seq<int>)
    requires perPkt > 0
    ensures var s := Loop(Start(t0), clock, t0 + duration, perPkt);
      && t0 + |s.attempts| * perPkt <= s.nextTx
      && (forall k | 0 <= k < |s.attempts| :: t0 + k * perPkt <= s.attempts[k] < t0 + duration)
      && |s.attempts| <= if duration <= 0 then 0 else (duration + perPkt - 1) / perPkt
  {
    var s := Loop(Start(t0), clock, t0 + duration, perPkt);
    var n := |s.attempts|;
    var log := LoopIsPaced(Start(t0), [t0], clock, t0, t0 + duration, perPkt);
    forall k | 0 <= k < n ensures t0 + k * perPkt <= s.attempts[k] < t0 + duration {
      assert PacedAt(s.attempts, log, t0 + duration, perPkt, k);
      ScheduleAdvances(s, log, t0, t0 + duration, perPkt, 0, k);
    }
    ScheduleAdvances(s, log, t0, t0 + duration, perPkt, 0, n);
    if n > 0 {
      assert t0 + (n - 1) * perPkt <= s.attempts[n - 1] < t0 + duration;
      Ceiling(n, duration, perPkt);
    }
  }

  lemma Ceiling(n: nat, duration: int, perPkt: int)
    requires perPkt > 0 && n > 0 && (n - 1) * perPkt < duration
    ensures duration > 0 && n <= (duration + perPkt - 1) / perPkt
  {
    var q := (duration + perPkt - 1) / perPkt;
    assert (n - 1) * perPkt >= 0;
    assert duration <= q * perPkt;
    MulOrder(n - 1, q, perPkt);
  }

  lemma MulOrder(a: int, b: int, m: int)
    requires m > 0 && a * m < b * m
    ensures a < b
  {
  }

  /**
   Late attempts are made up for exactly: the schedule is where perfect pacing would have it, t0 plus a spacing per
   attempt, iff no attempt was more than the catch-up behind the slot after its own.
   */
  lemma NoDriftIffNoReset(t0: int, duration: int, perPkt: int, clock: seq<int>)
    requires perPkt > 0
    ensures var s := Loop(Start(t0), clock, t0 + duration, perPkt);
      s.nextTx == t0 + |s.attempts| * perPkt <==>
      forall k | 0 <= k < |s.attempts| :: s.attempts[k] <= t0 + (k + 1) * perPkt + 50_000_000
  {
    var s := Loop(Start(t0), clock, t0 + duration, perPkt);
    var log := LoopIsPaced(Start(t0), [t0], clock, t0, t0 + duration, perPkt);
    NoDriftUpTo(s, log, t0, t0 + duration, perPkt, |s.attempts|);
  }

  lemma {:induction false} NoDriftUpTo(s: State, log: seq<int>, t0: int, deadline: int, perPkt: int, n: nat)
    requires Paced(s, log, t0, deadline, perPkt) && n <= |s.attempts|
    ensures log[n] == t0 + n * perPkt <==>
            forall k | 0 <= k < n :: s.attempts[k] <= t0 + (k + 1) * perPkt + 50_000_000
  {
    if n > 0 {
      NoDriftUpTo(s, log, t0, deadline, perPkt, n - 1);
      ScheduleAdvances(s, log, t0, deadline, perPkt, 0, n - 1);
      assert PacedAt(s.attempts, log, deadline, perPkt, n - 1);
      assert n * perPkt == (n - 1) * perPkt + perPkt;
    }
  }

  // ----- The spacing -----

  /** Nanoseconds per packet of `size` bytes at `rateMbps`, truncated; 0 turns pacing off. */
  function PerPkt(size: nat, rateMbps: real): (ns: nat)
    ensures rateMbps > 0.0 ==> ns as real <= 8000.0 * size as real / rateMbps < ns as real + 1.0
    ensures rateMbps <= 0.0 ==> ns == 0
  {
    if rateMbps <= 0.0 then 0
    else
      var exact := 8000.0 * size as real / rateMbps;
      assert exact >= 0.0 by { NonNegative(8000.0 * size as real, rateMbps); }
      exact.Floor
  }

  lemma NonNegative(x: real, y: real)
    requires x >= 0.0 && y > 0.0
    ensures x / y >= 0.0
  {
  }

  /** Pacing is on exactly for rates up to 8000 Mbit/s per byte of packet size; above that the spacing truncates to
      0. */
  lemma PacingOnIff(size: nat, rateMbps: real)
    ensures PerPkt(size, rateMbps) > 0 <==> 0.0 < rateMbps <= 8000.0 * size as real
  {
    if rateMbps > 0.0 {
      QuotientAtLeastOne(8000.0 * size as real, rateMbps);
    }
  }

  lemma QuotientAtLeastOne(x: real, y: real)
    requires y > 0.0
    ensures x / y >= 1.0 <==> x >= y
  {
    assert x == x / y * y;
  }

  /** Without pacing there is no bound on the attempts: a run can make any number of them in no time at all. */
  lemma {:induction false} UnpacedIsUnbounded(s: State, t0: int, duration: int, n: nat)
    requires duration > 0
    ensures |Loop(s, seq(n, i => t0), t0 + duration, 0).attempts| == |s.attempts| + n
    decreases n
  {
    if n > 0 {
      var clock := seq(n, i => t0);
      assert clock[1..] == seq(n - 1, i => t0);
      UnpacedIsUnbounded(Tick(s, t0, 0), t0, duration, n - 1);
    }
  }
}
