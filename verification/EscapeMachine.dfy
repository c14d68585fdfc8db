/** The non-local unwind arm as a step machine: `escape_scope`, `eject`, the stop function and the
    per-thread landing state, over a stack of frames laid out at concrete addresses.

    A program is a finite tree of calls, automatic objects, handlers, scopes and ejects; the machine
    keeps the rest of the computation as a stack of `Kont` items, innermost first. The platform
    unwinder is modelled by its contract: it offers the current frame to the stop function before
    each cleanup of that frame, innermost frame first.
 */
module EscapeMachine {
  import opened Wrappers

  // ---------------------------------------------------------------- programs

  /** What a `catch (...)` or an empty exception specification does to a passing escape. */
  datatype Handler = Transit | Terminate | Swallow

  /** What `escape_scope` hands back: `result<T, E>` with the value folded into the program state. */
  datatype Outcome<P> = Value | Error(payload: P)

  /** Where the compiler puts a scope's carrier and trampoline, and what its payload buffer holds before an
      eject writes it. */
  datatype Layout<P> = Layout(above: nat, below: nat, trampoline: nat, blank: P)

  /** Programs over a state and an error type. Frame sizes are part of the program, so every stack layout the
      compiler may choose is covered. */
  datatype Prog<!S, !P> =
    | Skip
    | Act(f: S -> S)
    | Seq(first: Prog<S, P>, second: Prog<S, P>)
    | If(cond: S -> bool, thn: Prog<S, P>, els: Prog<S, P>)
    | Guard(id: nat, dtor: Prog<S, P>, body: Prog<S, P>)          // an automatic object and the code under it
    | Call(size: nat, body: Prog<S, P>)                     // an ordinary callee in a frame of its own
    | Catch(handler: Handler, body: Prog<S, P>)
    | Eject(tag: nat, err: S -> P, own: nat, drive: nat)
    | Scope(tag: nat, lay: Layout<P>, body: Prog<S, P>,
            deliver: (S, Outcome<P>) -> S)

  // ------------------------------------------------------------ machine state

  datatype Addr = Addr(tid: nat, off: int)

  /** The landing's carrier. `serial` numbers the scopes of a thread in opening order; it identifies
      the scope instance in the log and influences nothing. */
  datatype Carrier<P> = Carrier(prev: Option<Addr>, tag: nat, ejected: bool, payload: P, serial: nat)

  /** The stack, innermost item first. `FrameExit` and `Landing` end a frame: the items above them
      belong to a frame with that canonical frame address and lowest address. */
  datatype Kont<!S, !P> =
    | Bottom(base: int)
    | Then(p: Prog<S, P>, k: Kont<S, P>)
    | GuardExit(id: nat, dtor: Prog<S, P>, k: Kont<S, P>)
    | CatchExit(handler: Handler, k: Kont<S, P>)
    | FrameExit(cfa: int, low: int, k: Kont<S, P>)
    | Landing(cfa: int, low: int, marker: int, serial: nat, deliver: (S, Outcome<P>) -> S, k: Kont<S, P>)
    | Resume(target: Addr, k: Kont<S, P>)

  datatype Reason = NoActiveScope | WrongErrorType | AlreadyUnwinding | Swallowed | Barrier | WildJump

  datatype Mode<!S, !P> = Running(p: Prog<S, P>) | Returning | Unwinding(target: Addr) | Halted(why: Reason)

  datatype Event<P> =
    | Built(id: nat)
    | Destroyed(id: nat)
    | Opened(serial: nat)
    | Ejected(serial: nat, payload: P)
    | Finished(serial: nat, outcome: Outcome<P>)

  datatype Machine<!S, !P> = Machine(
    tid: nat, mode: Mode<S, P>, k: Kont<S, P>, state: S,
    active: Option<Addr>, inFlight: bool, heap: map<Addr, Carrier<P>>,
    scopes: nat, log: seq<Event<P>>)

  function Init<S, P>(tid: nat, base: int, p: Prog<S, P>, state: S, heap: map<Addr, Carrier<P>>): Machine<S, P> {
    Machine(tid, Running(p), Bottom(base), state, None, false, heap, 0, [])
  }

  predicate Final<S, P>(m: Machine<S, P>) {
    m.mode.Halted? || (m.mode.Returning? && m.k.Bottom?)
  }

  // ------------------------------------------------------------ the stack layout

  /** The lowest address in use; a callee's canonical frame address starts here. */
  function Sp<S, P>(k: Kont<S, P>): int {
    match k
    case Bottom(base) => base
    case FrameExit(_, low, _) => low
    case Landing(_, low, _, _, _, _) => low
    case _ => Sp(k.k)
  }

  /** The canonical frame address the unwinder reports for the current frame, if a frame is left. */
  function CurrentCfa<S, P>(k: Kont<S, P>): Option<int> {
    match k
    case Bottom(_) => None
    case FrameExit(cfa, _, _) => Some(cfa)
    case Landing(cfa, _, _, _, _, _) => Some(cfa)
    case _ => CurrentCfa(k.k)
  }

  /** What `longjmp` into a carrier's buffer leaves of the stack: everything above the landing that
      owns the buffer is dropped, whatever it is. */
  function JumpTo<S, P>(k: Kont<S, P>, marker: int): Option<Kont<S, P>> {
    match k
    case Bottom(_) => None
    case Landing(_, _, mk, _, _, k') => if mk == marker then Some(k) else JumpTo(k', marker)
    case _ => JumpTo(k.k, marker)
  }

  // ------------------------------------------------------------ the steps of the arm

  /** `escape_scope` up to the call of the body: link a fresh carrier and enter the trampoline. */
  function OpenScope<S, P>(m: Machine<S, P>, tag: nat, lay: Layout<P>, body: Prog<S, P>,
                     deliver: (S, Outcome<P>) -> S): Machine<S, P>
  {
    var cfa := Sp(m.k);
    var marker := cfa - 1 - lay.above;
    var low := marker - lay.below;
    var car := Addr(m.tid, marker);
    m.(heap := m.heap[car := Carrier(m.active, tag, false, lay.blank, m.scopes)],
       active := Some(car),
       scopes := m.scopes + 1,
       log := m.log + [Opened(m.scopes)],
       mode := Running(body),
       k := FrameExit(low, low - lay.trampoline, Landing(cfa, low, marker, m.scopes, deliver, m.k)))
  }

  /** `eject`: the three refusals in the order the code makes them, then the start of the unwind. */
  function EjectStep<S, P>(m: Machine<S, P>, tag: nat, payload: P, own: nat, drive: nat): Machine<S, P> {
    if m.active.None? then m.(mode := Halted(NoActiveScope))
    else if m.active.value !in m.heap then m.(mode := Halted(WildJump))
    else
      var addr := m.active.value;
      var car := m.heap[addr];
      if car.tag != tag then m.(mode := Halted(WrongErrorType))
      else if m.inFlight then m.(mode := Halted(AlreadyUnwinding))
      else
        var sp := Sp(m.k);
        m.(heap := m.heap[addr := car.(payload := payload, ejected := true)],
           inFlight := true,
           log := m.log + [Ejected(car.serial, payload)],
           mode := Unwinding(addr),
           k := FrameExit(sp - own, sp - own - drive, FrameExit(sp, sp - own, m.k)))
  }

  /** The end of `escape_scope`: report the outcome, unlink the carrier and let its frame go. */
  function LeaveScope<S, P>(m: Machine<S, P>, l: Kont<S, P>, outcome: Outcome<P>): Machine<S, P>
    requires l.Landing? && Addr(m.tid, l.marker) in m.heap
  {
    var addr := Addr(m.tid, l.marker);
    m.(active := m.heap[addr].prev,
       heap := m.heap - {addr},
       log := m.log + [Finished(l.serial, outcome)],
       state := l.deliver(m.state, outcome),
       mode := Returning,
       k := l.k)
  }

  /** The body came back normally; a carrier that was ejected to means the escape was swallowed. */
  function BodyReturned<S, P>(m: Machine<S, P>): Machine<S, P>
    requires m.k.Landing?
  {
    var addr := Addr(m.tid, m.k.marker);
    if addr !in m.heap then m.(mode := Halted(WildJump))
    else if m.heap[addr].ejected then m.(mode := Halted(Swallowed))
    else LeaveScope(m, m.k, Value)
  }

  /** `longjmp` into the landing: the escape is over and the carried error is read back. */
  function Land<S, P>(m: Machine<S, P>, target: Addr): Machine<S, P> {
    match JumpTo(m.k, target.off)
    case None => m.(mode := Halted(WildJump))
    case Some(l) =>
      if l.Landing? && Addr(m.tid, l.marker) in m.heap
      then LeaveScope(m.(inFlight := false), l, Error(m.heap[Addr(m.tid, l.marker)].payload))
      else m.(mode := Halted(WildJump))
  }

  /** The stop function's decision for one frame. */
  predicate StopHere(cfa: Option<int>, marker: int) {
    cfa.None? || cfa.value > marker
  }

  /** One stop of the forced unwind: land, or clean up the innermost thing in the current frame. */
  function UnwindStep<S, P>(m: Machine<S, P>, target: Addr): Machine<S, P> {
    if StopHere(CurrentCfa(m.k), target.off) then Land(m, target)
    else
      match m.k
      case Bottom(_) => m.(mode := Halted(WildJump))
      case Then(_, k) => m.(k := k)
      case GuardExit(id, dtor, k) =>
        m.(mode := Running(dtor), k := Resume(target, k), log := m.log + [Destroyed(id)])
      case CatchExit(h, k) =>
        (match h
         case Transit => m.(k := k)
         case Terminate => m.(mode := Halted(Barrier))
         case Swallow => m.(mode := Returning, k := k))
      case FrameExit(_, _, k) => m.(k := k)
      case Landing(_, _, marker, _, _, k) =>
        var addr := Addr(m.tid, marker);
        if addr in m.heap then m.(active := m.heap[addr].prev, k := k)
        else m.(mode := Halted(WildJump))
      case Resume(_, k) => m.(k := k)
  }

  function RunStep<S, P>(m: Machine<S, P>, p: Prog<S, P>): Machine<S, P> {
    match p
    case Skip => m.(mode := Returning)
    case Act(f) => m.(mode := Returning, state := f(m.state))
    case Seq(a, b) => m.(mode := Running(a), k := Then(b, m.k))
    case If(c, a, b) => m.(mode := Running(if c(m.state) then a else b))
    case Guard(id, dtor, body) =>
      m.(mode := Running(body), k := GuardExit(id, dtor, m.k), log := m.log + [Built(id)])
    case Call(size, body) =>
      m.(mode := Running(body), k := FrameExit(Sp(m.k), Sp(m.k) - size, m.k))
    case Catch(h, body) => m.(mode := Running(body), k := CatchExit(h, m.k))
    case Eject(tag, err, own, drive) => EjectStep(m, tag, err(m.state), own, drive)
    case Scope(tag, lay, body, deliver) =>
      OpenScope(m, tag, lay, body, deliver)
  }

  function ReturnStep<S, P>(m: Machine<S, P>): Machine<S, P> {
    match m.k
    case Bottom(_) => m
    case Then(p, k) => m.(mode := Running(p), k := k)
    case GuardExit(id, dtor, k) => m.(mode := Running(dtor), k := k, log := m.log + [Destroyed(id)])
    case CatchExit(_, k) => m.(k := k)
    case FrameExit(_, _, k) => m.(k := k)
    case Landing(_, _, _, _, _, _) => BodyReturned(m)
    case Resume(target, k) => m.(mode := Unwinding(target), k := k)
  }

  function Step<S, P>(m: Machine<S, P>): Machine<S, P> {
    match m.mode
    case Running(p) => RunStep(m, p)
    case Returning => ReturnStep(m)
    case Unwinding(target) => UnwindStep(m, target)
    case Halted(_) => m
  }

  // ------------------------------------------------------------ every run ends

  ghost function Weight<S, P>(p: Prog<S, P>): nat {
    match p
    case Skip => 1
    case Act(_) => 1
    case Seq(a, b) => 2 + Weight(a) + Weight(b)
    case If(_, a, b) => 1 + Weight(a) + Weight(b)
    case Guard(_, dtor, body) => 5 + Weight(dtor) + Weight(body)
    case Call(_, body) => 3 + Weight(body)
    case Catch(_, body) => 3 + Weight(body)
    case Eject(_, _, _, _) => 6
    case Scope(_, _, body, _) => 4 + Weight(body)
  }

  ghost function StackWeight<S, P>(k: Kont<S, P>): nat {
    match k
    case Bottom(_) => 0
    case Then(p, k') => 1 + Weight(p) + StackWeight(k')
    case GuardExit(_, dtor, k') => 4 + Weight(dtor) + StackWeight(k')
    case CatchExit(_, k') => 1 + StackWeight(k')
    case FrameExit(_, _, k') => 1 + StackWeight(k')
    case Landing(_, _, _, _, _, k') => 1 + StackWeight(k')
    case Resume(_, k') => 2 + StackWeight(k')
  }

  ghost function Measure<S, P>(m: Machine<S, P>): nat {
    StackWeight(m.k) +
    match m.mode
    case Running(p) => 1 + Weight(p)
    case Returning => 1
    case Unwinding(_) => 2
    case Halted(_) => 0
  }

  lemma {:induction false} JumpShrinks<S, P>(k: Kont<S, P>, marker: int)
    ensures JumpTo(k, marker).Some? ==>
              var l := JumpTo(k, marker).value;
              l.Landing? && l.marker == marker && StackWeight(l) <= StackWeight(k)
  {
    match k
    case Bottom(_) =>
    case Landing(_, _, mk, _, _, k') => if mk != marker { JumpShrinks(k', marker); }
    case _ => JumpShrinks(k.k, marker);
  }

  lemma RunStepShrinks<S, P>(m: Machine<S, P>, p: Prog<S, P>)
    ensures Measure(RunStep(m, p)) < StackWeight(m.k) + 1 + Weight(p)
  {
    match p {
      case Eject(_, _, own, _) =>
        var sp := Sp(m.k);
        assert StackWeight(FrameExit(sp, sp - own, m.k)) == 1 + StackWeight(m.k);
      case Scope(_, _, _, _) =>
        assert StackWeight(RunStep(m, p).k.k) == 1 + StackWeight(m.k);
      case _ =>
    }
  }

  /** No step of the machine can go on forever. */
  lemma StepShrinks<S, P>(m: Machine<S, P>)
    requires !Final(m)
    ensures Measure(Step(m)) < Measure(m)
  {
    match m.mode {
      case Unwinding(target) => JumpShrinks(m.k, target.off);
      case Running(p) => RunStepShrinks(m, p);
      case Returning =>
    }
  }

  /** The final machine of a run. */
  function Run<S, P>(m: Machine<S, P>): Machine<S, P>
    decreases Measure(m)
  {
    if Final(m) then m else
      StepShrinks(m);
      Run(Step(m))
  }

  lemma {:induction false} RunEnds<S, P>(m: Machine<S, P>)
    ensures Final(Run(m))
    decreases Measure(m)
  {
    if !Final(m) {
      StepShrinks(m);
      RunEnds(Step(m));
    }
  }

  /** The machine after `n` steps. */
  ghost function Iter<S, P>(m: Machine<S, P>, n: nat): Machine<S, P>
    decreases n
  {
    if n == 0 then m else Iter(Step(m), n - 1)
  }

  lemma {:induction false} IterAdd<S, P>(m: Machine<S, P>, a: nat, b: nat)
    ensures Iter(m, a + b) == Iter(Iter(m, a), b)
    decreases a
  {
    if a > 0 { IterAdd(Step(m), a - 1, b); }
  }

  lemma {:induction false} RunIsIter<S, P>(m: Machine<S, P>) returns (n: nat)
    ensures Run(m) == Iter(m, n)
    decreases Measure(m)
  {
    if Final(m) {
      n := 0;
    } else {
      StepShrinks(m);
      var n' := RunIsIter(Step(m));
      n := n' + 1;
    }
  }

  lemma {:induction false} IterRuns<S, P>(m: Machine<S, P>, n: nat)
    requires Final(Iter(m, n))
    ensures Run(m) == Iter(m, n)
    decreases n
  {
    if Final(m) {
      assert Step(m) == m;
      if n > 0 { IterRuns(Step(m), n - 1); }
    } else {
      IterRuns(Step(m), n - 1);
    }
  }
}
