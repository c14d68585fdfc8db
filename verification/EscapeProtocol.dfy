/** The landing protocol, stated as an automaton over the log of a run, and the proof that every run
    of the machine obeys it: any program, any handlers on the path, any stack layout. */
module EscapeProtocol {
  import opened Wrappers
  import opened EscapeMachine

  // ------------------------------------------------------------ the protocol

  /** What is open at one moment: automatic objects and scopes, in one stack, innermost first. */
  datatype Item = Object(id: nat) | ScopeItem(serial: nat)
  datatype Open = Nothing | Push(item: Item, rest: Open)

  /** `flight` is the escape under way: the scope it is aimed at and its payload. */
  datatype Protocol<P> = Protocol(open: Open, flight: Option<(nat, P)>, count: nat)

  function Innermost(s: Open): Option<nat> {
    match s
    case Nothing => None
    case Push(ScopeItem(n), _) => Some(n)
    case Push(_, rest) => Innermost(rest)
  }

  /** The events the protocol allows. An object dies only when it is the innermost open thing, a
      scope reports only when everything under it is gone, an escape starts only when none is under
      way and only towards the innermost scope, a value is reported only by a scope no escape is
      aimed at, and an error only by the scope the escape is aimed at, with its payload. */
  ghost function Accept<P>(p: Protocol<P>, e: Event<P>): Option<Protocol<P>> {
    match e
    case Built(g) => Some(p.(open := Push(Object(g), p.open)))
    case Destroyed(g) =>
      if p.open.Push? && p.open.item == Object(g) then Some(p.(open := p.open.rest)) else None
    case Opened(n) =>
      if n == p.count then Some(p.(open := Push(ScopeItem(n), p.open), count := n + 1)) else None
    case Ejected(n, x) =>
      if p.flight.None? && Innermost(p.open) == Some(n) then Some(p.(flight := Some((n, x)))) else None
    case Finished(n, Value) =>
      if p.open.Push? && p.open.item == ScopeItem(n) && (p.flight.None? || p.flight.value.0 != n)
      then Some(p.(open := p.open.rest)) else None
    case Finished(n, Error(x)) =>
      if p.open.Push? && p.open.item == ScopeItem(n) && p.flight == Some((n, x))
      then Some(p.(open := p.open.rest, flight := None)) else None
  }

  ghost function Replay<P>(log: seq<Event<P>>): Option<Protocol<P>> {
    if log == [] then Some(Protocol(Nothing, None, 0))
    else
      match Replay(log[..|log| - 1])
      case None => None
      case Some(p) => Accept(p, log[|log| - 1])
  }

  lemma ReplayAppend<P>(log: seq<Event<P>>, e: Event<P>)
    ensures Replay(log + [e]) == if Replay(log).None? then None else Accept(Replay(log).value, e)
  {
    assert (log + [e])[..|log|] == log;
  }

  // ------------------------------------------------------------ the invariant

  ghost function Items<S, P>(k: Kont<S, P>): Open {
    match k
    case Bottom(_) => Nothing
    case GuardExit(id, _, k') => Push(Object(id), Items(k'))
    case Landing(_, _, _, serial, _, k') => Push(ScopeItem(serial), Items(k'))
    case _ => Items(k.k)
  }

  ghost function Markers<S, P>(k: Kont<S, P>): set<int> {
    match k
    case Bottom(_) => {}
    case Landing(_, _, marker, _, _, k') => {marker} + Markers(k')
    case _ => Markers(k.k)
  }

  ghost function FlightOf<S, P>(k: Kont<S, P>, heap: map<Addr, Carrier<P>>, tid: nat): Option<(nat, P)> {
    match k
    case Bottom(_) => None
    case Landing(_, _, marker, serial, _, k') =>
      var a := Addr(tid, marker);
      if a in heap && heap[a].ejected then Some((serial, heap[a].payload))
      else FlightOf(k', heap, tid)
    case _ => FlightOf(k.k, heap, tid)
  }

  /** The nearest landing is `target`, it has been ejected to, and no suspended unwind lies above it. */
  ghost predicate Targeted<S, P>(k: Kont<S, P>, target: Addr, heap: map<Addr, Carrier<P>>, tid: nat) {
    match k
    case Bottom(_) => false
    case Resume(_, _) => false
    case Landing(_, _, marker, _, _, _) =>
      target == Addr(tid, marker) && target in heap && heap[target].ejected
    case _ => Targeted(k.k, target, heap, tid)
  }

  /** The stack is laid out downwards, the chain from `top` is exactly the landings of the stack, and
      exactly one of them has been ejected to when `flying`, none otherwise. */
  ghost predicate WellFormed<S, P>(k: Kont<S, P>, top: Option<Addr>, heap: map<Addr, Carrier<P>>, tid: nat,
                             bound: nat, flying: bool)
  {
    match k
    case Bottom(_) => top.None? && !flying
    case FrameExit(cfa, low, k') =>
      low <= cfa <= Sp(k') && WellFormed(k', top, heap, tid, bound, flying)
    case Landing(cfa, low, marker, serial, _, k') =>
      var a := Addr(tid, marker);
      && low <= marker < cfa <= Sp(k')
      && !k'.Landing?
      && top == Some(a) && a in heap
      && heap[a].serial == serial < bound
      && (heap[a].ejected ==> flying)
      && WellFormed(k', heap[a].prev, heap, tid, serial, flying && !heap[a].ejected)
    case Resume(target, k') =>
      && flying && !k'.Landing?
      && Targeted(k', target, heap, tid)
      && WellFormed(k', top, heap, tid, bound, flying)
    case _ => !k.k.Landing? && WellFormed(k.k, top, heap, tid, bound, flying)
  }

  ghost predicate Owns<S, P>(k: Kont<S, P>, heap: map<Addr, Carrier<P>>, tid: nat) {
    forall a :: a in heap && a.tid == tid ==> a.off in Markers(k)
  }

  ghost predicate ModeOk<S, P>(m: Machine<S, P>) {
    match m.mode
    case Running(_) => !m.k.Landing?
    case Returning => true
    case Unwinding(target) => Targeted(m.k, target, m.heap, m.tid)
    case Halted(why) => why != WildJump
  }

  ghost predicate Inv<S, P>(m: Machine<S, P>) {
    && WellFormed(m.k, m.active, m.heap, m.tid, m.scopes, m.inFlight)
    && Owns(m.k, m.heap, m.tid)
    && ModeOk(m)
    && Replay(m.log) == Some(Protocol(Items(m.k), FlightOf(m.k, m.heap, m.tid), m.scopes))
  }

  // ------------------------------------------------------------ framing

  /** The two heaps hold the same carriers for the landings of `k`. */
  ghost predicate Agree<S, P>(k: Kont<S, P>, h1: map<Addr, Carrier<P>>, h2: map<Addr, Carrier<P>>, tid: nat) {
    forall off :: off in Markers(k) ==>
      var a := Addr(tid, off); a in h1 && a in h2 && h1[a] == h2[a]
  }

  lemma {:induction false} Frame<S, P>(k: Kont<S, P>, h1: map<Addr, Carrier<P>>, h2: map<Addr, Carrier<P>>, tid: nat,
                                 top: Option<Addr>, bound: nat, bound': nat, flying: bool)
    requires Agree(k, h1, h2, tid) && bound <= bound'
    requires WellFormed(k, top, h1, tid, bound, flying)
    ensures WellFormed(k, top, h2, tid, bound', flying)
    ensures FlightOf(k, h1, tid) == FlightOf(k, h2, tid)
  {
    match k
    case Bottom(_) =>
    case Landing(_, _, marker, serial, _, k') =>
      assert marker in Markers(k);
      Frame(k', h1, h2, tid, h1[Addr(tid, marker)].prev, serial, serial, flying && !h1[Addr(tid, marker)].ejected);
    case Resume(target, k') =>
      FrameTarget(k', target, h1, h2, tid);
      Frame(k', h1, h2, tid, top, bound, bound', flying);
    case _ => Frame(k.k, h1, h2, tid, top, bound, bound', flying);
  }

  lemma {:induction false} FrameTarget<S, P>(k: Kont<S, P>, target: Addr, h1: map<Addr, Carrier<P>>,
                                       h2: map<Addr, Carrier<P>>, tid: nat)
    requires Agree(k, h1, h2, tid) && Targeted(k, target, h1, tid)
    ensures Targeted(k, target, h2, tid)
  {
    if k.Landing? {
      assert k.marker in Markers(k);
    } else {
      FrameTarget(k.k, target, h1, h2, tid);
    }
  }

  /** Every landing of a well-formed stack sits at or above the stack pointer, in the heap. */
  lemma {:induction false} MarkersAbove<S, P>(k: Kont<S, P>, top: Option<Addr>, heap: map<Addr, Carrier<P>>, tid: nat,
                                        bound: nat, flying: bool)
    requires WellFormed(k, top, heap, tid, bound, flying)
    ensures forall off :: off in Markers(k) ==> off >= Sp(k) && Addr(tid, off) in heap
  {
    match k
    case Bottom(_) =>
    case Landing(_, _, marker, serial, _, k') =>
      MarkersAbove(k', heap[Addr(tid, marker)].prev, heap, tid, serial, flying && !heap[Addr(tid, marker)].ejected);
    case _ => MarkersAbove(k.k, top, heap, tid, bound, flying);
  }

  /** Without an escape in flight no landing is ejected to; with one, the protocol's flight says which. */
  lemma {:induction false} FlightAgrees<S, P>(k: Kont<S, P>, top: Option<Addr>, heap: map<Addr, Carrier<P>>, tid: nat,
                                        bound: nat, flying: bool)
    requires WellFormed(k, top, heap, tid, bound, flying)
    ensures flying == FlightOf(k, heap, tid).Some?
    ensures flying ==> FlightOf(k, heap, tid).value.0 < bound
  {
    match k
    case Bottom(_) =>
    case Landing(_, _, marker, serial, _, k') =>
      FlightAgrees(k', heap[Addr(tid, marker)].prev, heap, tid, serial, flying && !heap[Addr(tid, marker)].ejected);
    case _ => FlightAgrees(k.k, top, heap, tid, bound, flying);
  }

  // ------------------------------------------------------------ the walk

  /** The stop function says stop exactly at the landing the escape is aimed at. */
  lemma {:induction false} StopsExactlyAtTarget<S, P>(k: Kont<S, P>, target: Addr, top: Option<Addr>,
                                                heap: map<Addr, Carrier<P>>, tid: nat, bound: nat, flying: bool)
    requires WellFormed(k, top, heap, tid, bound, flying) && Targeted(k, target, heap, tid)
    ensures StopHere(CurrentCfa(k), target.off) <==> k.Landing?
    ensures k.Landing? ==> target == Addr(tid, k.marker) && JumpTo(k, target.off) == Some(k)
    ensures Sp(k) <= target.off && top == Some(target)
    ensures CurrentCfa(k).Some?
  {
    if !k.Landing? {
      StopsExactlyAtTarget(k.k, target, top, heap, tid, bound, flying);
    }
  }

  // ------------------------------------------------------------ preservation, step by step

  /** Adding a carrier below the stack pointer, or dropping one, leaves the stack's own carriers alone. */
  lemma BelowIsFree<S, P>(k: Kont<S, P>, top: Option<Addr>, heap: map<Addr, Carrier<P>>, heap': map<Addr, Carrier<P>>,
                    tid: nat, bound: nat, flying: bool, off: int)
    requires WellFormed(k, top, heap, tid, bound, flying) && off < Sp(k)
    requires heap - {Addr(tid, off)} == heap' - {Addr(tid, off)}
    ensures off !in Markers(k)
    ensures Agree(k, heap, heap', tid)
  {
    MarkersAbove(k, top, heap, tid, bound, flying);
    forall o | o in Markers(k)
      ensures var a := Addr(tid, o); a in heap && a in heap' && heap[a] == heap'[a]
    {
      var a := Addr(tid, o);
      assert a in heap - {Addr(tid, off)};
      assert heap[a] == (heap - {Addr(tid, off)})[a] == (heap' - {Addr(tid, off)})[a];
    }
  }

  lemma OpenScopeKeepsInv<S, P>(m: Machine<S, P>, tag: nat, lay: Layout<P>, body: Prog<S, P>,
                          deliver: (S, Outcome<P>) -> S)
    requires Inv(m) && m.mode.Running?
    ensures Inv(OpenScope(m, tag, lay, body, deliver))
  {
    var m' := OpenScope(m, tag, lay, body, deliver);
    var off := Sp(m.k) - 1 - lay.above;
    BelowIsFree(m.k, m.active, m.heap, m'.heap, m.tid, m.scopes, m.inFlight, off);
    Frame(m.k, m.heap, m'.heap, m.tid, m.active, m.scopes, m.scopes, m.inFlight);
    assert m'.k.k.Landing? && WellFormed(m'.k.k, m'.active, m'.heap, m.tid, m'.scopes, m.inFlight);
    assert Markers(m'.k.k) == {off} + Markers(m.k);
    assert Items(m'.k.k) == Push(ScopeItem(m.scopes), Items(m.k));
    ReplayAppend(m.log, Opened(m.scopes));
  }

  /** What an eject does to the stack: the nearest landing becomes the target. */
  lemma {:induction false} EjectMarks<S, P>(k: Kont<S, P>, a: Addr, heap: map<Addr, Carrier<P>>, heap': map<Addr, Carrier<P>>,
                                      tid: nat, bound: nat, x: P)
    requires WellFormed(k, Some(a), heap, tid, bound, false)
    requires a in heap ==> heap' == heap[a := heap[a].(payload := x, ejected := true)]
    ensures a in heap && a.tid == tid && a.off in Markers(k)
    ensures WellFormed(k, Some(a), heap', tid, bound, true)
    ensures Targeted(k, a, heap', tid)
    ensures FlightOf(k, heap', tid) == Some((heap[a].serial, x))
    ensures Innermost(Items(k)) == Some(heap[a].serial)
  {
    if k.Landing? {
      BelowIsFree(k.k, heap[a].prev, heap, heap', tid, k.serial, false, k.marker);
      Frame(k.k, heap, heap', tid, heap[a].prev, k.serial, k.serial, false);
    } else {
      EjectMarks(k.k, a, heap, heap', tid, bound, x);
    }
  }

  lemma EjectKeepsInv<S, P>(m: Machine<S, P>, tag: nat, x: P, own: nat, drive: nat)
    requires Inv(m) && m.mode.Running?
    ensures Inv(EjectStep(m, tag, x, own, drive))
  {
    if m.active.Some? {
      ActiveIsCarrier(m.k, m.active, m.heap, m.tid, m.scopes, m.inFlight);
      var m' := EjectStep(m, tag, x, own, drive);
      if !m'.mode.Halted? {
        var a := m.active.value;
        EjectMarks(m.k, a, m.heap, m'.heap, m.tid, m.scopes, x);
        FlightAgrees(m.k, m.active, m.heap, m.tid, m.scopes, false);
        ReplayAppend(m.log, Ejected(m.heap[a].serial, x));
        var k1 := m'.k.k;
        assert k1.k == m.k;
        assert WellFormed(k1, m'.active, m'.heap, m.tid, m.scopes, true);
        assert Targeted(k1, a, m'.heap, m.tid) && Markers(k1) == Markers(m.k);
        assert Items(k1) == Items(m.k) && FlightOf(k1, m'.heap, m.tid) == FlightOf(m.k, m'.heap, m.tid);
      }
    }
  }

  lemma {:induction false} ActiveIsCarrier<S, P>(k: Kont<S, P>, top: Option<Addr>, heap: map<Addr, Carrier<P>>, tid: nat,
                                           bound: nat, flying: bool)
    requires WellFormed(k, top, heap, tid, bound, flying) && top.Some?
    ensures top.value in heap && top.value.tid == tid
  {
    if !k.Landing? {
      ActiveIsCarrier(k.k, top, heap, tid, bound, flying);
    }
  }

  /** Leaving a scope, by value or by landing. */
  lemma LeaveScopeKeepsInv<S, P>(m: Machine<S, P>, outcome: Outcome<P>)
    requires Inv(m) && m.k.Landing?
    requires var c := m.heap[Addr(m.tid, m.k.marker)];
             if outcome == Value then !c.ejected else c.ejected && outcome.payload == c.payload
    ensures Inv(LeaveScope(m.(inFlight := m.inFlight && outcome.Value?), m.k, outcome))
  {
    var a, k' := Addr(m.tid, m.k.marker), m.k.k;
    var m' := LeaveScope(m.(inFlight := m.inFlight && outcome.Value?), m.k, outcome);
    BelowIsFree(k', m.heap[a].prev, m.heap, m'.heap, m.tid, m.k.serial, m'.inFlight, m.k.marker);
    FlightAgrees(k', m.heap[a].prev, m.heap, m.tid, m.k.serial, m'.inFlight);
    Frame(k', m.heap, m'.heap, m.tid, m.heap[a].prev, m.k.serial, m.scopes, m'.inFlight);
    ReplayAppend(m.log, Finished(m.k.serial, outcome));
  }

  /** Pushing a statement, a handler or an ordinary frame. */
  lemma PushKeepsInv<S, P>(m: Machine<S, P>, m': Machine<S, P>)
    requires Inv(m) && m.mode.Running? && m'.mode.Running?
    requires m' == m.(mode := m'.mode, k := m'.k) && !m'.k.Bottom? && m'.k.k == m.k
    requires m'.k.Then? || m'.k.CatchExit? || (m'.k.FrameExit? && m'.k.low <= m'.k.cfa <= Sp(m.k))
    ensures Inv(m')
  {
    assert Items(m'.k) == Items(m.k) && Markers(m'.k) == Markers(m.k);
    assert FlightOf(m'.k, m.heap, m.tid) == FlightOf(m.k, m.heap, m.tid);
  }

  lemma BuildKeepsInv<S, P>(m: Machine<S, P>, id: nat, dtor: Prog<S, P>, body: Prog<S, P>)
    requires Inv(m) && m.mode.Running?
    ensures Inv(m.(mode := Running(body), k := GuardExit(id, dtor, m.k), log := m.log + [Built(id)]))
  {
    ReplayAppend(m.log, Built(id));
    var k' := GuardExit(id, dtor, m.k);
    assert Items(k') == Push(Object(id), Items(m.k)) && Markers(k') == Markers(m.k);
    assert FlightOf(k', m.heap, m.tid) == FlightOf(m.k, m.heap, m.tid);
  }

  lemma RunStepKeepsInv<S, P>(m: Machine<S, P>)
    requires Inv(m) && m.mode.Running?
    ensures Inv(Step(m))
  {
    match m.mode.p
    case Seq(_, _) => PushKeepsInv(m, Step(m));
    case Call(_, _) => PushKeepsInv(m, Step(m));
    case Catch(_, _) => PushKeepsInv(m, Step(m));
    case Guard(id, dtor, body) => BuildKeepsInv(m, id, dtor, body);
    case Scope(tag, lay, body, deliver) =>
      OpenScopeKeepsInv(m, tag, lay, body, deliver);
    case Eject(tag, err, own, drive) => EjectKeepsInv(m, tag, err(m.state), own, drive);
    case _ =>
  }

  lemma ReturnStepKeepsInv<S, P>(m: Machine<S, P>)
    requires Inv(m) && m.mode.Returning?
    ensures Inv(Step(m))
  {
    match m.k
    case GuardExit(id, _, _) => ReplayAppend(m.log, Destroyed(id));
    case Landing(_, _, marker, _, _, _) =>
      if !m.heap[Addr(m.tid, marker)].ejected {
        LeaveScopeKeepsInv(m, Value);
        assert m.(inFlight := m.inFlight) == m;
      }
    case _ =>
  }

  lemma UnwindStepKeepsInv<S, P>(m: Machine<S, P>)
    requires Inv(m) && m.mode.Unwinding?
    ensures Inv(Step(m))
  {
    var target := m.mode.target;
    StopsExactlyAtTarget(m.k, target, m.active, m.heap, m.tid, m.scopes, m.inFlight);
    match m.k
    case Landing(_, _, _, _, _, _) => LeaveScopeKeepsInv(m, Error(m.heap[target].payload));
    case GuardExit(_, _, _) => CleanupKeepsInv(m);
    case _ => PopKeepsInv(m);
  }

  /** Walking past a pending statement, a handler or the end of a frame. */
  lemma PopKeepsInv<S, P>(m: Machine<S, P>)
    requires Inv(m) && m.mode.Unwinding? && !m.k.Landing? && !m.k.GuardExit?
    requires !StopHere(CurrentCfa(m.k), m.mode.target.off)
    ensures Inv(Step(m))
  {
  }

  /** Starting a destructor as a cleanup of the escape. */
  lemma CleanupKeepsInv<S, P>(m: Machine<S, P>)
    requires Inv(m) && m.mode.Unwinding? && m.k.GuardExit?
    requires !StopHere(CurrentCfa(m.k), m.mode.target.off)
    ensures Inv(Step(m))
  {
    ReplayAppend(m.log, Destroyed(m.k.id));
    TargetFlies(m.k.k, m.mode.target, m.active, m.heap, m.tid, m.scopes, m.inFlight);
  }

  lemma {:induction false} TargetFlies<S, P>(k: Kont<S, P>, target: Addr, top: Option<Addr>, heap: map<Addr, Carrier<P>>,
                                       tid: nat, bound: nat, flying: bool)
    requires WellFormed(k, top, heap, tid, bound, flying) && Targeted(k, target, heap, tid)
    ensures flying
  {
    if !k.Landing? {
      TargetFlies(k.k, target, top, heap, tid, bound, flying);
    }
  }

  /** Every step of every machine keeps the invariant. */
  lemma StepKeepsInv<S, P>(m: Machine<S, P>)
    requires Inv(m)
    ensures Inv(Step(m))
  {
    match m.mode
    case Running(_) => RunStepKeepsInv(m);
    case Returning => ReturnStepKeepsInv(m);
    case Unwinding(_) => UnwindStepKeepsInv(m);
    case Halted(_) =>
  }

  lemma {:induction false} IterKeepsInv<S, P>(m: Machine<S, P>, n: nat)
    requires Inv(m)
    ensures Inv(Iter(m, n))
    decreases n
  {
    if n > 0 {
      StepKeepsInv(m);
      IterKeepsInv(Step(m), n - 1);
    }
  }

  // ------------------------------------------------------------ what the protocol means, event by event

  ghost predicate HasScope(s: Open, n: nat) {
    s.Push? && (s.item == ScopeItem(n) || HasScope(s.rest, n))
  }

  /** Scopes are numbered in opening order, so inner numbers are larger. */
  ghost predicate Ordered(s: Open, bound: nat) {
    match s
    case Nothing => true
    case Push(ScopeItem(n), rest) => n < bound && Ordered(rest, n)
    case Push(_, rest) => Ordered(rest, bound)
  }

  /** The payloads ejected to scope `n`, in order. */
  ghost function EjectsTo<P>(log: seq<Event<P>>, n: nat): seq<P> {
    if log == [] then []
    else
      var e := log[|log| - 1];
      EjectsTo(log[..|log| - 1], n) + (if e.Ejected? && e.serial == n then [e.payload] else [])
  }

  /** The results scope `n` reported, in order. */
  ghost function ReportsOf<P>(log: seq<Event<P>>, n: nat): seq<Outcome<P>> {
    if log == [] then []
    else
      var e := log[|log| - 1];
      ReportsOf(log[..|log| - 1], n) + (if e.Finished? && e.serial == n then [e.outcome] else [])
  }

  /** Nothing ejected and a value, or one eject and exactly its payload. */
  ghost predicate Faithful<P>(ejects: seq<P>, reports: seq<Outcome<P>>) {
    || (ejects == [] && reports == [Value])
    || (|ejects| == 1 && reports == [Error(ejects[0])])
  }

  lemma {:induction false} OrderedBound(s: Open, bound: nat, n: nat)
    requires Ordered(s, bound)
    ensures HasScope(s, n) ==> n < bound
    ensures Innermost(s) == Some(n) ==> HasScope(s, n)
    ensures forall b :: b >= bound ==> Ordered(s, b)
  {
    match s
    case Nothing =>
    case Push(ScopeItem(x), rest) => OrderedBound(rest, x, n);
    case Push(_, rest) => OrderedBound(rest, bound, n);
  }

  /** One of three histories: not yet opened, open with at most one eject (the escape in flight), or
      closed faithfully. */
  ghost predicate History<P>(p: Protocol<P>, n: nat, ejects: seq<P>, reports: seq<Outcome<P>>) {
    && Ordered(p.open, p.count)
    && (p.flight.Some? ==> HasScope(p.open, p.flight.value.0))
    && (if n >= p.count then ejects == [] && reports == []
        else if HasScope(p.open, n) then
          && reports == []
          && ejects == (if p.flight.Some? && p.flight.value.0 == n then [p.flight.value.1] else [])
        else Faithful(ejects, reports))
  }

  lemma EjectedHistory<P>(p: Protocol<P>, x: nat, payload: P, n: nat, ejects: seq<P>, reports: seq<Outcome<P>>)
    requires History(p, n, ejects, reports) && Accept(p, Ejected(x, payload)).Some?
    ensures History(Accept(p, Ejected(x, payload)).value, n,
                    ejects + (if x == n then [payload] else []), reports)
  {
    OrderedBound(p.open, p.count, x);
    OrderedBound(p.open, p.count, n);
  }

  lemma FinishedHistory<P>(p: Protocol<P>, x: nat, o: Outcome<P>, n: nat, ejects: seq<P>, reports: seq<Outcome<P>>)
    requires History(p, n, ejects, reports) && Accept(p, Finished(x, o)).Some?
    ensures History(Accept(p, Finished(x, o)).value, n, ejects, reports + (if x == n then [o] else []))
  {
    OrderedBound(p.open.rest, x, x);
    OrderedBound(p.open.rest, x, n);
    assert Ordered(p.open.rest, p.count);
  }

  lemma OpenedHistory<P>(p: Protocol<P>, x: nat, n: nat, ejects: seq<P>, reports: seq<Outcome<P>>)
    requires History(p, n, ejects, reports) && Accept(p, Opened(x)).Some?
    ensures History(Accept(p, Opened(x)).value, n, ejects, reports)
  {
    OrderedBound(p.open, p.count, n);
    if p.flight.Some? { OrderedBound(p.open, p.count, p.flight.value.0); }
  }

  /** In an accepted log every scope has one of the three histories. */
  lemma {:induction false} ScopeHistory<P>(log: seq<Event<P>>, n: nat)
    requires Replay(log).Some?
    ensures History(Replay(log).value, n, EjectsTo(log, n), ReportsOf(log, n))
    decreases |log|
  {
    if log != [] {
      var log', e := log[..|log| - 1], log[|log| - 1];
      ScopeHistory(log', n);
      var p, ejects, reports := Replay(log').value, EjectsTo(log', n), ReportsOf(log', n);
      match e
      case Ejected(x, payload) => EjectedHistory(p, x, payload, n, ejects, reports);
      case Finished(x, o) => FinishedHistory(p, x, o, n, ejects, reports);
      case Opened(x) => OpenedHistory(p, x, n, ejects, reports);
      case _ =>
    }
  }

  ghost function CountOpen(s: Open, g: nat): nat {
    match s
    case Nothing => 0
    case Push(x, rest) => (if x == Object(g) then 1 else 0) + CountOpen(rest, g)
  }

  /** Objects of the accepted log that were built and not destroyed are exactly the open ones. */
  lemma {:induction false} ObjectBalance<P>(log: seq<Event<P>>, g: nat)
    requires Replay(log).Some?
    ensures multiset(log)[Built(g)] == multiset(log)[Destroyed(g)] + CountOpen(Replay(log).value.open, g)
    decreases |log|
  {
    if log != [] {
      var log', e := log[..|log| - 1], log[|log| - 1];
      ObjectBalance(log', g);
      assert log == log' + [e];
      assert multiset(log) == multiset(log') + multiset{e};
    }
  }

  // ------------------------------------------------------------ whole runs

  /** A heap in which the thread's own stack holds no carrier yet. */
  ghost predicate Unused<P>(heap: map<Addr, Carrier<P>>, tid: nat) {
    forall a :: a in heap ==> a.tid != tid
  }

  /** At every moment of every run: the log is one the protocol accepts, the carriers in the thread's
      own memory are exactly its open scopes, and control never leaves for a frame that is gone. */
  lemma EveryReachableStateObeys<S, P>(tid: nat, base: int, p: Prog<S, P>, state: S, heap: map<Addr, Carrier<P>>, n: nat)
    requires Unused(heap, tid)
    ensures Inv(Iter(Init(tid, base, p, state, heap), n))
  {
    IterKeepsInv(Init(tid, base, p, state, heap), n);
  }

  /** A run ends in a diagnosed termination or with every scope reported, every object destroyed,
      nothing in flight and the landing chain empty; and either way each scope that reported did so
      faithfully. */
  lemma EveryRunEndsFaithfully<S, P>(tid: nat, base: int, p: Prog<S, P>, state: S, heap: map<Addr, Carrier<P>>)
    requires Unused(heap, tid)
    ensures var r := Run(Init(tid, base, p, state, heap));
            && Final(r) && r.mode != Halted(WildJump)
            && (forall n: nat :: ReportsOf(r.log, n) == [] || Faithful(EjectsTo(r.log, n), ReportsOf(r.log, n)))
            && (r.mode.Returning? ==>
                  && r.active.None? && !r.inFlight && Unused(r.heap, tid)
                  && (forall n: nat :: n < r.scopes ==> Faithful(EjectsTo(r.log, n), ReportsOf(r.log, n)))
                  && (forall g: nat :: multiset(r.log)[Built(g)] == multiset(r.log)[Destroyed(g)]))
  {
    var m := Init(tid, base, p, state, heap);
    RunEnds(m);
    var steps := RunIsIter(m);
    IterKeepsInv(m, steps);
    TidKept(m, steps);
    var r := Run(m);
    forall n: nat
      ensures ReportsOf(r.log, n) == [] || Faithful(EjectsTo(r.log, n), ReportsOf(r.log, n))
      ensures r.mode.Returning? && n < r.scopes ==> Faithful(EjectsTo(r.log, n), ReportsOf(r.log, n))
    {
      ScopeHistory(r.log, n);
    }
    forall g: nat | r.mode.Returning?
      ensures multiset(r.log)[Built(g)] == multiset(r.log)[Destroyed(g)]
    {
      ObjectBalance(r.log, g);
    }
  }

  lemma {:induction false} TidKept<S, P>(m: Machine<S, P>, n: nat)
    ensures Iter(m, n).tid == m.tid
    decreases n
  {
    if n > 0 { TidKept(Step(m), n - 1); }
  }

  lemma {:induction false} FlyingHasScope<S, P>(k: Kont<S, P>, top: Option<Addr>, heap: map<Addr, Carrier<P>>, tid: nat,
                                                bound: nat, flying: bool)
    requires WellFormed(k, top, heap, tid, bound, flying) && flying
    ensures top.Some?
  {
    if !k.Landing? { FlyingHasScope(k.k, top, heap, tid, bound, flying); }
  }

  /** An eject is refused for want of a scope first, for the wrong error type next, and for an escape already
      in flight last; otherwise it starts the unwind towards the innermost scope. */
  lemma EjectReasons<S, P>(m: Machine<S, P>)
    requires Inv(m) && m.mode.Running? && m.mode.p.Eject?
    ensures var fits := m.active.Some? && m.active.value in m.heap && m.heap[m.active.value].tag == m.mode.p.tag;
            && (Step(m).mode == Halted(NoActiveScope) <==> m.active.None?)
            && (Step(m).mode == Halted(WrongErrorType) <==> m.active.Some? && !fits)
            && (Step(m).mode == Halted(AlreadyUnwinding) <==> fits && m.inFlight)
            && (Step(m).mode.Unwinding? <==> fits && !m.inFlight)
  {
    if m.active.Some? { ActiveIsCarrier(m.k, m.active, m.heap, m.tid, m.scopes, m.inFlight); }
  }

  /** Two escapes never overlap: the second eject of a run is a termination, even when it is aimed at a
      fresh scope that a cleanup opened. */
  lemma SecondEjectTerminates<S, P>(m: Machine<S, P>)
    requires Inv(m) && m.mode.Running? && m.mode.p.Eject? && m.inFlight
    ensures m.active.Some? && m.active.value in m.heap
    ensures Step(m).mode == Halted(if m.heap[m.active.value].tag == m.mode.p.tag then AlreadyUnwinding else WrongErrorType)
    ensures Step(m).heap == m.heap && Step(m).log == m.log
  {
    FlyingHasScope(m.k, m.active, m.heap, m.tid, m.scopes, m.inFlight);
    ActiveIsCarrier(m.k, m.active, m.heap, m.tid, m.scopes, m.inFlight);
    EjectReasons(m);
  }

  /** The landing drops nothing: when the stop function jumps, the stack above the landing is empty. */
  lemma LandingSkipsNothing<S, P>(m: Machine<S, P>)
    requires Inv(m) && m.mode.Unwinding? && StopHere(CurrentCfa(m.k), m.mode.target.off)
    ensures m.k.Landing? && m.mode.target == Addr(m.tid, m.k.marker)
    ensures Step(m).k == m.k.k && !Step(m).inFlight
    ensures Step(m).log == m.log + [Finished(m.k.serial, Error(m.heap[m.mode.target].payload))]
  {
    StopsExactlyAtTarget(m.k, m.mode.target, m.active, m.heap, m.tid, m.scopes, m.inFlight);
  }
}
