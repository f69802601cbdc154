/**
 The tcx chain of a network device: `tcx_attach` puts programs at its head or tail and takes them out again,
 and each packet runs through it until a program returns something other than UNSPEC.
 The legacy tc filters run only when the whole chain returned UNSPEC.
 */
module TcxChain {
  import opened Bytes
  import opened TsCommon
  import opened Rule
  import opened Classifier

  /** A program: its verdict on a packet, and the packet as it leaves it. */
  type Effect = Packet -> (Verdict, Packet)

  function ClassifierEffect(cfg: Config, ports: PortMap): Effect {
    p => (Unspec, Process(p, cfg, ports).packet)
  }

  function ProbeEffect(): Effect { p => (Unspec, p) }

  /** `tcx_dummy_ok`, standing in for a CNI program that lets packets pass. */
  function DummyOkEffect(): Effect { p => (Ok, p) }

  /** `id` grows with every link created; `head` records BPF_F_BEFORE. */
  datatype Link = Link(id: nat, head: bool, effect: Effect)

  // ----- Attaching and detaching -----

  datatype Hook = Hook(chain: seq<Link>, pins: map<string, nat>, nextId: nat)

  datatype Command =
    | Attach(effect: Effect, pin: string, before: bool, accepted: bool)   // `accepted`: the kernel created the link
    | Detach(pin: string)

  function Without(chain: seq<Link>, id: nat): seq<Link> {
    if chain == [] then []
    else if chain[0].id == id then Without(chain[1..], id)
    else [chain[0]] + Without(chain[1..], id)
  }

  function Placed(chain: seq<Link>, l: Link): seq<Link> {
    if l.head then [l] + chain else chain + [l]
  }

  /** The hook after a command; a failed command leaves the chain and the pins as they were. */
  function Step(h: Hook, c: Command): Hook {
    match c
    case Attach(effect, pin, before, accepted) =>
      if !accepted then h
      else if pin in h.pins then h.(nextId := h.nextId + 1)
      else Hook(Placed(h.chain, Link(h.nextId, before, effect)), h.pins[pin := h.nextId], h.nextId + 1)
    case Detach(pin) =>
      if pin !in h.pins then h
      else Hook(Without(h.chain, h.pins[pin]), h.pins - {pin}, h.nextId)
  }

  const EMPTY := Hook([], map[], 0)

  function After(cs: seq<Command>): Hook {
    if cs == [] then EMPTY else Step(After(cs[..|cs| - 1]), cs[|cs| - 1])
  }

  /** A device's hook, changed in place by the tool. */
  class Device {
    var chain: seq<Link>
    var pins: map<string, nat>
    var nextId: nat

    ghost function Value(): Hook
      reads this
    {
      Hook(chain, pins, nextId)
    }

    constructor ()
      ensures Value() == EMPTY
    {
      chain, pins, nextId := [], map[], 0;
    }

    /** `do_attach`: create the link, then pin it; a link that cannot be pinned is destroyed again. */
    method DoAttach(effect: Effect, pin: string, before: bool, accepted: bool) returns (rc: int)
      requires forall i | 0 <= i < |chain| :: chain[i].id < nextId
      modifies this
      ensures Value() == Step(old(Value()), Attach(effect, pin, before, accepted))
      ensures rc == if accepted && pin !in old(pins) then 0 else 1
    {
      if !accepted {
        return 1;
      }
      var id := nextId;
      nextId := nextId + 1;
      chain := Placed(chain, Link(id, before, effect));
      if pin in pins {
        PlacedWithout(old(chain), Link(id, before, effect));
        chain := Without(chain, id);
        return 1;
      }
      pins := pins[pin := id];
      return 0;
    }

    /** `do_detach`: the pin names the link. */
    method DoDetach(pin: string) returns (rc: int)
      modifies this
      ensures Value() == Step(old(Value()), Detach(pin))
      ensures rc == if pin in old(pins) then 0 else 1
    {
      if pin !in pins {
        return 1;
      }
      chain := Without(chain, pins[pin]);
      pins := pins - {pin};
      return 0;
    }
  }

  /** Removing a link just placed gives the chain back. */
  lemma PlacedWithout(chain: seq<Link>, l: Link)
    requires forall i | 0 <= i < |chain| :: chain[i].id < l.id
    ensures Without(Placed(chain, l), l.id) == chain
  {
    WithoutAbsent(chain, l.id);
    if l.head {
      assert ([l] + chain)[1..] == chain;
    } else {
      WithoutLast(chain, l);
    }
  }

  lemma {:induction false} WithoutAbsent(chain: seq<Link>, id: nat)
    requires forall i | 0 <= i < |chain| :: chain[i].id != id
    ensures Without(chain, id) == chain
  {
    if chain != [] {
      WithoutAbsent(chain[1..], id);
    }
  }

  lemma {:induction false} WithoutLast(chain: seq<Link>, l: Link)
    ensures Without(chain + [l], l.id) == Without(chain, l.id)
  {
    if chain != [] {
      assert (chain + [l])[1..] == chain[1..] + [l];
      WithoutLast(chain[1..], l);
    }
  }

  // ----- What every reachable chain satisfies -----

  /** Of two links the later one decides: attached at the head it goes first, at the tail last. */
  predicate Precedes(x: Link, y: Link) {
    x.id != y.id && if x.id > y.id then x.head else !y.head
  }

  predicate Ordered(chain: seq<Link>) {
    forall i, j | 0 <= i < j < |chain| :: Precedes(chain[i], chain[j])
  }

  function IdSet(chain: seq<Link>): set<nat> { set i | 0 <= i < |chain| :: chain[i].id }

  predicate Injective(pins: map<string, nat>) {
    forall p, q | p in pins && q in pins && pins[p] == pins[q] :: p == q
  }

  /** The pins name exactly the links in the chain, one each. */
  predicate Pinned(h: Hook) { h.pins.Values == IdSet(h.chain) && Injective(h.pins) }

  predicate Valid(h: Hook) {
    Ordered(h.chain) && Pinned(h) && forall i | 0 <= i < |h.chain| :: h.chain[i].id < h.nextId
  }

  /** `Without` keeps the other links, in order, and nothing else. */
  lemma {:induction false} WithoutKeepsRest(chain: seq<Link>, id: nat)
    ensures forall x :: x in Without(chain, id) <==> x in chain && x.id != id
    ensures Ordered(chain) ==> Ordered(Without(chain, id))
    ensures IdSet(Without(chain, id)) == IdSet(chain) - {id}
  {
    if chain != [] {
      var rest := Without(chain[1..], id);
      WithoutKeepsRest(chain[1..], id);
      assert forall x :: x in chain <==> x == chain[0] || x in chain[1..];
      IdSetSplit(chain);
      if chain[0].id != id {
        assert ([chain[0]] + rest)[1..] == rest;
        IdSetSplit([chain[0]] + rest);
      }
      if Ordered(chain) && chain[0].id != id {
        forall j | 0 <= j < |rest| ensures Precedes(chain[0], rest[j]) {
          assert rest[j] in chain[1..];
        }
      }
    }
  }

  lemma StepKeepsValid(h: Hook, c: Command)
    requires Valid(h)
    ensures Valid(Step(h, c))
  {
    match c
    case Attach(effect, pin, before, accepted) =>
      if accepted && pin !in h.pins {
        PlacedPinned(h, Link(h.nextId, before, effect), pin);
      }
    case Detach(pin) =>
      if pin in h.pins {
        DetachPinned(h, pin);
      }
  }

  lemma IdSetSplit(chain: seq<Link>)
    requires chain != []
    ensures IdSet(chain) == {chain[0].id} + IdSet(chain[1..])
  {
    forall i | 0 < i < |chain| ensures chain[i].id in IdSet(chain[1..]) {
      assert chain[1..][i - 1] == chain[i];
    }
  }

  lemma IdSetPlaced(chain: seq<Link>, l: Link)
    ensures IdSet(Placed(chain, l)) == IdSet(chain) + {l.id}
  {
    var placed := Placed(chain, l);
    forall i | 0 <= i < |chain| ensures chain[i].id in IdSet(placed) {
      assert placed[if l.head then i + 1 else i] == chain[i];
    }
    assert placed[if l.head then 0 else |chain|] == l;
  }

  lemma ValuesAfterInsert(pins: map<string, nat>, pin: string, id: nat)
    requires pin !in pins
    ensures pins[pin := id].Values == pins.Values + {id}
  {
    var pins' := pins[pin := id];
    assert pins'[pin] == id;
    forall q | q in pins ensures pins[q] in pins'.Values {
      assert pins'[q] == pins[q];
    }
  }

  lemma ValuesAfterRemove(pins: map<string, nat>, pin: string)
    requires pin in pins && Injective(pins)
    ensures (pins - {pin}).Values == pins.Values - {pins[pin]}
  {
    forall q | q in pins && q != pin ensures pins[q] in (pins - {pin}).Values {
      assert (pins - {pin})[q] == pins[q];
    }
  }

  lemma PlacedPinned(h: Hook, l: Link, pin: string)
    requires Valid(h) && l.id == h.nextId && pin !in h.pins
    ensures Valid(Hook(Placed(h.chain, l), h.pins[pin := l.id], h.nextId + 1))
  {
    IdSetPlaced(h.chain, l);
    ValuesAfterInsert(h.pins, pin, l.id);
    assert Injective(h.pins[pin := l.id]) by {
      forall q | q in h.pins ensures h.pins[q] != l.id {
        assert h.pins[q] in h.pins.Values;
      }
    }
  }

  lemma DetachPinned(h: Hook, pin: string)
    requires Valid(h) && pin in h.pins
    ensures Valid(Hook(Without(h.chain, h.pins[pin]), h.pins - {pin}, h.nextId))
  {
    var rest := Without(h.chain, h.pins[pin]);
    WithoutKeepsRest(h.chain, h.pins[pin]);
    ValuesAfterRemove(h.pins, pin);
    forall i | 0 <= i < |rest| ensures rest[i].id < h.nextId {
      assert rest[i] in h.chain;
    }
  }

  /** Every chain that attaches and detaches can produce is ordered by when and where its links were attached. */
  lemma {:induction false} ReachableValid(cs: seq<Command>)
    ensures Valid(After(cs))
  {
    if cs != [] {
      ReachableValid(cs[..|cs| - 1]);
      StepKeepsValid(After(cs[..|cs| - 1]), cs[|cs| - 1]);
    }
  }

  /** The latest link attached at the head, as long as it stays attached, is the first to run. */
  lemma LatestHeadIsFirst(h: Hook, l: Link)
    requires Valid(h) && l in h.chain && l.head
    requires forall x | x in h.chain && x.id > l.id :: !x.head
    ensures h.chain[0] == l
  {
    var i :| 0 <= i < |h.chain| && h.chain[i] == l;
    assert h.chain[0] in h.chain;
  }

  /** The latest link attached at the tail, as long as it stays attached, is the last. */
  lemma LatestTailIsLast(h: Hook, l: Link)
    requires Valid(h) && l in h.chain && !l.head
    requires forall x | x in h.chain && x.id > l.id :: x.head
    ensures h.chain[|h.chain| - 1] == l
  {
    var i :| 0 <= i < |h.chain| && h.chain[i] == l;
    assert h.chain[|h.chain| - 1] in h.chain;
  }

  /** Detaching undoes attaching, in every reachable hook. */
  lemma DetachUndoesAttach(cs: seq<Command>, effect: Effect, pin: string, before: bool)
    requires pin !in After(cs).pins
    ensures var h := After(cs);
            var h' := Step(Step(h, Attach(effect, pin, before, true)), Detach(pin));
            h'.chain == h.chain && h'.pins == h.pins
  {
    ReachableValid(cs);
    PlacedWithout(After(cs).chain, Link(After(cs).nextId, before, effect));
  }

  /** When nothing is pinned any more the chain is empty. */
  lemma AllDetachedIsEmpty(cs: seq<Command>)
    requires After(cs).pins == map[]
    ensures After(cs).chain == []
  {
    ReachableValid(cs);
    NoIdsNoLinks(After(cs).chain);
  }

  lemma NoIdsNoLinks(chain: seq<Link>)
    ensures IdSet(chain) == {} ==> chain == []
  {
    if chain != [] {
      assert chain[0].id in IdSet(chain);
    }
  }

  // ----- Running a packet through the chain -----

  datatype Result = Result(verdict: Verdict, packet: Packet, ran: seq<nat>)

  function Run(chain: seq<Link>, p: Packet): Result {
    if chain == [] then Result(Unspec, p, [])
    else
      var (v, q) := chain[0].effect(p);
      if v != Unspec then Result(v, q, [chain[0].id])
      else
        var r := Run(chain[1..], q);
        Result(r.verdict, r.packet, [chain[0].id] + r.ran)
  }

  /** The legacy tc filters see the packet only if the chain has no verdict. */
  predicate LegacyRuns(chain: seq<Link>, p: Packet) { Run(chain, p).verdict == Unspec }

  function Ids(chain: seq<Link>): seq<nat> { seq(|chain|, i requires 0 <= i < |chain| => chain[i].id) }

  /** The packet in front of program `i` if all programs before it passed it on. */
  function Before(chain: seq<Link>, p: Packet, i: nat): Packet
    requires i <= |chain|
  {
    if i == 0 then p else chain[i - 1].effect(Before(chain, p, i - 1)).1
  }

  /** The legacy filters run iff every program of the chain returned UNSPEC; then every program ran. */
  lemma {:induction false} LegacyRunsIffAllUnspec(chain: seq<Link>, p: Packet)
    ensures LegacyRuns(chain, p) <==> forall i | 0 <= i < |chain| :: chain[i].effect(Before(chain, p, i)).0 == Unspec
    ensures LegacyRuns(chain, p) ==> Run(chain, p).ran == Ids(chain)
  {
    if chain != [] {
      var (v, q) := chain[0].effect(p);
      LegacyRunsIffAllUnspec(chain[1..], q);
      forall i | 0 <= i < |chain| - 1 ensures Before(chain[1..], q, i) == Before(chain, p, i + 1) {
        BeforeShift(chain, p, i);
      }
      assert Before(chain, p, 0) == p;
      if v == Unspec {
        if forall i | 0 <= i < |chain| - 1 :: chain[1..][i].effect(Before(chain[1..], q, i)).0 == Unspec {
          forall i | 0 <= i < |chain| ensures chain[i].effect(Before(chain, p, i)).0 == Unspec {
            if i > 0 {
              assert chain[1..][i - 1] == chain[i];
            }
          }
        } else {
          var i :| 0 <= i < |chain| - 1 && chain[1..][i].effect(Before(chain[1..], q, i)).0 != Unspec;
          assert chain[i + 1].effect(Before(chain, p, i + 1)).0 != Unspec;
        }
      }
    }
  }

  lemma {:induction false} BeforeShift(chain: seq<Link>, p: Packet, i: nat)
    requires i < |chain|
    ensures Before(chain[1..], chain[0].effect(p).1, i) == Before(chain, p, i + 1)
  {
    if i > 0 {
      BeforeShift(chain, p, i - 1);
    }
  }

  /**
   The first program with an answer decides: its verdict and its packet are those of the chain, and exactly the programs
   up to it have run.
   */
  lemma {:induction false} FirstAnswerDecides(chain: seq<Link>, p: Packet, i: nat)
    requires i < |chain| && chain[i].effect(Before(chain, p, i)).0 != Unspec
    requires forall j | 0 <= j < i :: chain[j].effect(Before(chain, p, j)).0 == Unspec
    ensures var (v, q) := chain[i].effect(Before(chain, p, i));
            Run(chain, p) == Result(v, q, Ids(chain[..i + 1]))
  {
    assert Before(chain, p, 0) == p;
    if i == 0 {
      assert Ids(chain[..1]) == [chain[0].id];
    } else {
      var q := chain[0].effect(p).1;
      forall j | 0 <= j < i ensures Before(chain[1..], q, j) == Before(chain, p, j + 1) {
        BeforeShift(chain, p, j);
      }
      assert chain[0].effect(Before(chain, p, 0)).0 == Unspec;
      forall j | 0 <= j < i - 1 ensures chain[1..][j].effect(Before(chain[1..], q, j)).0 == Unspec {
        assert chain[j + 1].effect(Before(chain, p, j + 1)).0 == Unspec;
      }
      FirstAnswerDecides(chain[1..], q, i - 1);
      assert chain[1..][..i] == chain[1..i + 1];
      assert [chain[0].id] + Ids(chain[1..i + 1]) == Ids(chain[..i + 1]);
    }
  }

  /** Without an answer every program has run, one after the other, and the chain has no verdict. */
  lemma {:induction false} NoAnswerPasses(chain: seq<Link>, p: Packet)
    requires forall j | 0 <= j < |chain| :: chain[j].effect(Before(chain, p, j)).0 == Unspec
    ensures Run(chain, p) == Result(Unspec, Before(chain, p, |chain|), Ids(chain))
  {
    if chain != [] {
      var q := chain[0].effect(p).1;
      forall j | 0 <= j < |chain| ensures Before(chain[1..], q, j) == Before(chain, p, j + 1) {
        BeforeShift(chain, p, j);
      }
      assert chain[0].effect(Before(chain, p, 0)).0 == Unspec;
      forall j | 0 <= j < |chain| - 1 ensures chain[1..][j].effect(Before(chain[1..], q, j)).0 == Unspec {
        assert chain[j + 1].effect(Before(chain, p, j + 1)).0 == Unspec;
      }
      NoAnswerPasses(chain[1..], q);
      assert [chain[0].id] + Ids(chain[1..]) == Ids(chain);
    }
  }

  /** `tcx_dummy_ok` lets every packet pass, unchanged. */
  lemma DummyOkPasses(c: Link, p: Packet)
    requires c.effect == DummyOkEffect()
    ensures Run([c], p) == Result(Ok, p, [c.id])
  {
  }

  /** The classifier and a probe behind it, in front of `tcx_dummy_ok`: all three run, the packet leaves as the
      classifier leaves it, and it passes. */
  lemma TestbedChain(a: Link, b: Link, c: Link, cfg: Config, ports: PortMap, p: Packet)
    requires a.effect == ClassifierEffect(cfg, ports) && b.effect == ProbeEffect() && c.effect == DummyOkEffect()
    ensures Run([a, b, c], p) == Result(Ok, Process(p, cfg, ports).packet, [a.id, b.id, c.id])
  {
    ThreeLinks(a, b, c, p, Process(p, cfg, ports).packet);
  }

  lemma ThreeLinks(a: Link, b: Link, c: Link, p: Packet, q: Packet)
    requires a.effect(p) == (Unspec, q) && b.effect(q) == (Unspec, q) && c.effect(q) == (Ok, q)
    ensures Run([a, b, c], p) == Result(Ok, q, [a.id, b.id, c.id])
  {
    assert [a, b, c][1..] == [b, c] && [b, c][1..] == [c];
    assert Run([c], q) == Result(Ok, q, [c.id]);
    assert Run([b, c], q) == Result(Ok, q, [b.id, c.id]);
  }

  /** Behind a program that always answers, no later program and no legacy filter ever runs. */
  lemma {:induction false} AnswererShadows(ahead: seq<Link>, l: Link, behind: seq<Link>, p: Packet)
    requires forall q :: l.effect(q).0 != Unspec
    ensures !LegacyRuns(ahead + [l] + behind, p)
    ensures Run(ahead + [l] + behind, p) == Run(ahead + [l], p)
  {
    var chain := ahead + [l] + behind;
    if ahead == [] {
      assert chain[0] == l && ([l] + behind)[1..] == behind;
    } else {
      assert chain[1..] == ahead[1..] + [l] + behind && (ahead + [l])[1..] == ahead[1..] + [l];
      AnswererShadows(ahead[1..], l, behind, ahead[0].effect(p).1);
    }
  }

  // ----- The classifier is transparent to the rest of the chain -----

  /** Packets that differ at most in priority, TOS and IPv4 checksum. */
  predicate Alike(p: Packet, q: Packet) {
    SameButMark(p.frame, q.frame) && p.meta == q.meta
  }

  /** A program that neither judges by those fields nor lets them influence anything else. */
  ghost predicate Indifferent(e: Effect) {
    forall p, q | Alike(p, q) :: e(p).0 == e(q).0 && Alike(e(p).1, e(q).1)
  }

  lemma AlikeSymmetric(p: Packet, q: Packet)
    requires Alike(p, q)
    ensures Alike(q, p)
  {
    MarkIsInvisible(p.frame, q.frame, p.meta, ZERO_CONFIG, map[]);
  }

  lemma AlikeTransitive(p: Packet, q: Packet, r: Packet)
    requires Alike(p, q) && Alike(q, r)
    ensures Alike(p, r)
  {
    MarkIsInvisible(p.frame, q.frame, p.meta, ZERO_CONFIG, map[]);
  }

  lemma ProcessAlike(p: Packet, cfg: Config, ports: PortMap)
    ensures Alike(p, Process(p, cfg, ports).packet)
  {
    OnlyMarkChanges(p, cfg, ports);
  }

  /** The repository's own programs are indifferent, the classifier included. */
  lemma OwnProgramsIndifferent(cfg: Config, ports: PortMap)
    ensures Indifferent(ClassifierEffect(cfg, ports)) && Indifferent(ProbeEffect()) && Indifferent(DummyOkEffect())
  {
    forall p, q | Alike(p, q)
      ensures Alike(Process(p, cfg, ports).packet, Process(q, cfg, ports).packet)
    {
      ProcessAlike(p, cfg, ports);
      ProcessAlike(q, cfg, ports);
      AlikeSymmetric(p, Process(p, cfg, ports).packet);
      AlikeTransitive(Process(p, cfg, ports).packet, p, q);
      AlikeTransitive(Process(p, cfg, ports).packet, q, Process(q, cfg, ports).packet);
    }
  }

  lemma {:induction false} RunAlike(chain: seq<Link>, p: Packet, q: Packet)
    requires Alike(p, q) && forall i | 0 <= i < |chain| :: Indifferent(chain[i].effect)
    ensures Run(chain, p).verdict == Run(chain, q).verdict && Run(chain, p).ran == Run(chain, q).ran
    ensures Alike(Run(chain, p).packet, Run(chain, q).packet)
  {
    if chain != [] {
      assert Indifferent(chain[0].effect);
      RunAlike(chain[1..], chain[0].effect(p).1, chain[0].effect(q).1);
    }
  }

  /**
   Attached at the head of any reachable chain of indifferent programs, the classifier runs on every packet,
   and for every packet the same other programs run, with the same verdict and the same legacy filters.
   */
  lemma ClassifierAtHeadIsTransparent(cs: seq<Command>, pin: string, cfg: Config, ports: PortMap, p: Packet)
    requires pin !in After(cs).pins
    requires forall i | 0 <= i < |After(cs).chain| :: Indifferent(After(cs).chain[i].effect)
    ensures var chain := After(cs).chain;
      var chain' := After(cs + [Attach(ClassifierEffect(cfg, ports), pin, true, true)]).chain;
      && Run(chain', p).ran == [After(cs).nextId] + Run(chain, p).ran
      && Run(chain', p).verdict == Run(chain, p).verdict
      && LegacyRuns(chain', p) == LegacyRuns(chain, p)
      && Alike(Run(chain, p).packet, Run(chain', p).packet)
  {
    var c := Attach(ClassifierEffect(cfg, ports), pin, true, true);
    var chain := After(cs).chain;
    var l := Link(After(cs).nextId, true, ClassifierEffect(cfg, ports));
    assert (cs + [c])[..|cs|] == cs;
    assert After(cs + [c]).chain == [l] + chain;
    assert ([l] + chain)[1..] == chain;
    ProcessAlike(p, cfg, ports);
    RunAlike(chain, p, Process(p, cfg, ports).packet);
  }
}
