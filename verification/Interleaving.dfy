/**
 Counting on many CPUs without atomics. `(*v)++` is a load and a separate store, so between the two any
 other CPU may run. Every CPU has its own slots, and no increment is lost in any interleaving.
 A job is the list of slots that one packet increments, in program order.
 */
module Interleaving {
  import opened Bytes
  import opened Wrappers

  const MODULUS: nat := 0x1_0000_0000_0000_0000

  /** A 64-bit counter wraps around. */
  function Increment(v: u64): u64 {
    var n: nat := v;
    (n + 1) % MODULUS
  }

  /** One CPU: its slots, the increments its current job still owes, and the value loaded for the next one. */
  datatype Cpu<!S(==)> = Cpu(slots: map<S, u64>, todo: seq<S>, loaded: Option<u64>) {
    function Read(s: S): u64 { if s in slots then slots[s] else 0 }

    /** A loaded value is never stale. */
    predicate Fresh() { loaded.Some? ==> todo != [] && loaded.value == Read(todo[0]) }

    function Owed(s: S): nat { multiset(todo)[s] }

    /** The slot holds the increments asked for that are not still owed, modulo the counter's width. */
    predicate Accounts(s: S, asked: nat) {
      Fresh() && Owed(s) <= asked && Read(s) == (asked - Owed(s)) % MODULUS
    }
  }

  datatype Step<!S> =
    | Arrive(cpu: nat, job: seq<S>)
    | Load(cpu: nat)
    | Store(cpu: nat)

  function Init<S>(n: nat): seq<Cpu<S>> { seq(n, i => Cpu(map[], [], None)) }

  predicate Enabled<S(==)>(st: seq<Cpu<S>>, step: Step<S>) {
    && step.cpu < |st|
    && var c := st[step.cpu];
       match step
       case Arrive(_, _) => c.todo == []
       case Load(_) => c.todo != [] && c.loaded.None?
       case Store(_) => c.todo != [] && c.loaded.Some?
  }

  function Apply<S(==)>(st: seq<Cpu<S>>, step: Step<S>): (st': seq<Cpu<S>>)
    requires Enabled(st, step)
    ensures |st'| == |st|
  {
    var c := st[step.cpu];
    match step
    case Arrive(cpu, job) => st[cpu := c.(todo := job)]
    case Load(cpu) => st[cpu := c.(loaded := Some(c.Read(c.todo[0])))]
    case Store(cpu) => st[cpu := Cpu(c.slots[c.todo[0] := Increment(c.loaded.value)], c.todo[1..], None)]
  }

  /** The state after a trace, if each of its steps was possible. */
  function Exec<S(==)>(n: nat, trace: seq<Step<S>>): (r: Option<seq<Cpu<S>>>)
    ensures r.Some? ==> |r.value| == n
  {
    if trace == [] then Some(Init(n))
    else
      var k := |trace| - 1;
      var before := Exec(n, trace[..k]);
      if before.Some? && Enabled(before.value, trace[k]) then Some(Apply(before.value, trace[k])) else None
  }

  /** How often the jobs that arrived on CPU `c` ask for slot `s`. */
  function Asked<S(==)>(trace: seq<Step<S>>, c: nat, s: S): nat {
    if trace == [] then 0
    else
      var k := |trace| - 1;
      Asked(trace[..k], c, s) + if trace[k].Arrive? && trace[k].cpu == c then multiset(trace[k].job)[s] else 0
  }

  /** The jobs that arrived anywhere, in order. */
  function Jobs<S>(trace: seq<Step<S>>): seq<seq<S>> {
    if trace == [] then []
    else
      var k := |trace| - 1;
      Jobs(trace[..k]) + if trace[k].Arrive? then [trace[k].job] else []
  }

  function Tally<S(==)>(jobs: seq<seq<S>>, s: S): nat {
    if jobs == [] then 0 else Tally(jobs[..|jobs| - 1], s) + multiset(jobs[|jobs| - 1])[s]
  }

  /** Every step of every CPU keeps the account of every CPU `c`; only an arrival on `c` adds to it. */
  lemma StepKeepsAccount<S>(st: seq<Cpu<S>>, step: Step<S>, c: nat, s: S, asked: nat)
    requires Enabled(st, step) && c < |st| && st[c].Accounts(s, asked)
    ensures Apply(st, step)[c].Accounts(s,
              asked + if step.Arrive? && step.cpu == c then multiset(step.job)[s] else 0)
  {
    if step.cpu == c && step.Store? {
      StoreKeepsAccount(st[c], s, asked);
    }
  }

  lemma StoreKeepsAccount<S>(c: Cpu<S>, s: S, asked: nat)
    requires c.loaded.Some? && c.Accounts(s, asked)
    ensures Cpu(c.slots[c.todo[0] := Increment(c.loaded.value)], c.todo[1..], None).Accounts(s, asked)
  {
    assert c.todo == [c.todo[0]] + c.todo[1..];
  }

  /**
   The invariant of every interleaving: a CPU's slot holds exactly the increments that its jobs asked for
   and that it does not still owe, and a loaded value is never stale.
   */
  lemma {:induction false} NoLostUpdate<S>(n: nat, trace: seq<Step<S>>, c: nat, s: S)
    requires Exec(n, trace).Some? && c < n
    ensures Exec(n, trace).value[c].Accounts(s, Asked(trace, c, s))
  {
    if trace != [] {
      var k := |trace| - 1;
      NoLostUpdate(n, trace[..k], c, s);
      StepKeepsAccount(Exec(n, trace[..k]).value, trace[k], c, s, Asked(trace[..k], c, s));
    }
  }

  // ----- Summing over the CPUs -----

  function Total<S(==)>(st: seq<Cpu<S>>, s: S): nat {
    if st == [] then 0 else Total(st[..|st| - 1], s) + st[|st| - 1].Read(s)
  }

  predicate Quiescent<S(==)>(st: seq<Cpu<S>>) { forall i | 0 <= i < |st| :: st[i].todo == [] }

  /** `Asked` summed over the first `n` CPUs. */
  function AskedBelow<S(==)>(trace: seq<Step<S>>, n: nat, s: S): nat {
    if n == 0 then 0 else AskedBelow(trace, n - 1, s) + Asked(trace, n - 1, s)
  }

  lemma {:induction false} AskedBelowStep<S>(trace: seq<Step<S>>, n: nat, s: S)
    ensures trace == [] ==> AskedBelow(trace, n, s) == 0
    ensures trace != [] ==>
      var k := |trace| - 1;
      AskedBelow(trace, n, s) == AskedBelow(trace[..k], n, s) +
        if trace[k].Arrive? && trace[k].cpu < n then multiset(trace[k].job)[s] else 0
  {
    if n > 0 {
      AskedBelowStep(trace, n - 1, s);
    }
  }

  lemma {:induction false} StepsOnCpus<S>(n: nat, trace: seq<Step<S>>)
    requires Exec(n, trace).Some?
    ensures forall i | 0 <= i < |trace| :: trace[i].cpu < n
  {
    if trace != [] {
      var k := |trace| - 1;
      StepsOnCpus(n, trace[..k]);
      forall i | 0 <= i < |trace| ensures trace[i].cpu < n {
        assert i < k ==> trace[i] == trace[..k][i];
      }
    }
  }

  /** The CPUs partition the jobs. */
  lemma {:induction false} CpusPartition<S>(n: nat, trace: seq<Step<S>>, s: S)
    requires forall i | 0 <= i < |trace| :: trace[i].cpu < n
    ensures AskedBelow(trace, n, s) == Tally(Jobs(trace), s)
  {
    AskedBelowStep(trace, n, s);
    if trace != [] {
      var k := |trace| - 1;
      CpusPartition(n, trace[..k], s);
      if trace[k].Arrive? {
        assert Jobs(trace)[..|Jobs(trace)| - 1] == Jobs(trace[..k]);
      } else {
        assert Jobs(trace) == Jobs(trace[..k]);
      }
    }
  }

  /** `wraps` counts how often slots have wrapped around. */
  lemma {:induction false} TotalBelow<S>(st: seq<Cpu<S>>, trace: seq<Step<S>>, s: S) returns (wraps: nat)
    requires forall i | 0 <= i < |st| :: st[i].Read(s) == Asked(trace, i, s) % MODULUS
    ensures AskedBelow(trace, |st|, s) == Total(st, s) + wraps * MODULUS
  {
    wraps := 0;
    if st != [] {
      var m := |st| - 1;
      var before := TotalBelow(st[..m], trace, s);
      wraps := before + Asked(trace, m, s) / MODULUS;
      assert st[m].Read(s) == Asked(trace, m, s) % MODULUS;
    }
  }

  /**
   Whatever the interleaving and however many CPUs: once no CPU has an increment outstanding, the slots summed
   over all CPUs hold what the jobs asked for, less 2^64 for every wrap-around, and exactly that while no slot
   can have wrapped.
   */
  lemma SummedSlotsAreExact<S>(n: nat, trace: seq<Step<S>>, s: S)
    requires Exec(n, trace).Some? && Quiescent(Exec(n, trace).value)
    ensures var total, asked := Total(Exec(n, trace).value, s), Tally(Jobs(trace), s);
            (exists wraps: nat :: asked == total + wraps * MODULUS) && (asked < MODULUS ==> total == asked)
  {
    var st := Exec(n, trace).value;
    forall i | 0 <= i < n ensures st[i].Read(s) == Asked(trace, i, s) % MODULUS {
      NoLostUpdate(n, trace, i, s);
    }
    var wraps := TotalBelow(st, trace, s);
    StepsOnCpus(n, trace);
    CpusPartition(n, trace, s);
  }
}
