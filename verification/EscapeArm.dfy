/** The arm in the form the source has it: mutable thread-local state that `escape_scope`, `eject` and
    the stop function update, one method each, proved against the step machine. */
module EscapeArm {
  import opened Wrappers
  import opened EscapeMachine
  import opened EscapeProtocol

  class Arm<!S, !P> {
    const tid: nat
    var mode: Mode<S, P>
    var k: Kont<S, P>
    var state: S
    var active: Option<Addr>       // the thread-local top of the scope stack
    var inFlight: bool             // the thread-local in-flight flag
    var heap: map<Addr, Carrier<P>>
    var scopes: nat
    var log: seq<Event<P>>

    function View(): Machine<S, P>
      reads this
    {
      Machine(tid, mode, k, state, active, inFlight, heap, scopes, log)
    }

    constructor (tid: nat, base: int, p: Prog<S, P>, state: S)
      ensures View() == Init(tid, base, p, state, map[]) && Inv(View())
    {
      this.tid := tid;
      mode, k, this.state := Running(p), Bottom(base), state;
      active, inFlight, heap, scopes, log := None, false, map[], 0, [];
    }

    /** `eject`: a diagnosed termination that changes nothing, or the payload written into the innermost
        carrier and the unwind begun. */
    method Eject(tag: nat, payload: P, own: nat, drive: nat)
      requires Inv(View()) && mode.Running?
      modifies this
      ensures View() == EjectStep(old(View()), tag, payload, own, drive) && Inv(View())
      ensures old(inFlight) || old(active).None? ==>
                mode.Halted? && heap == old(heap) && log == old(log) && inFlight == old(inFlight)
      ensures !mode.Halted? ==> old(active).Some? && mode == Unwinding(old(active).value)
    {
      EjectKeepsInv(View(), tag, payload, own, drive);
      if active.Some? { ActiveIsCarrier(k, active, heap, tid, scopes, inFlight); }
      if active.None? {
        mode := Halted(NoActiveScope);
        return;
      }
      var addr := active.value;
      if heap[addr].tag != tag {
        mode := Halted(WrongErrorType);
        return;
      }
      if inFlight {
        mode := Halted(AlreadyUnwinding);
        return;
      }
      log := log + [Ejected(heap[addr].serial, payload)];
      heap := heap[addr := heap[addr].(payload := payload, ejected := true)];
      inFlight := true;
      var sp := Sp(k);
      k := FrameExit(sp - own, sp - own - drive, FrameExit(sp, sp - own, k));
      mode := Unwinding(addr);
    }

    /** `escape_scope` up to the body: the new carrier is linked in front of the chain. */
    method Open(tag: nat, lay: Layout<P>, body: Prog<S, P>,
                deliver: (S, Outcome<P>) -> S)
      requires Inv(View()) && mode.Running?
      modifies this
      ensures View() == OpenScope(old(View()), tag, lay, body, deliver)
      ensures Inv(View()) && active.Some? && heap[active.value].prev == old(active)
    {
      OpenScopeKeepsInv(View(), tag, lay, body, deliver);
      var cfa := Sp(k);
      var marker := cfa - 1 - lay.above;
      var low := marker - lay.below;
      var car := Addr(tid, marker);
      heap := heap[car := Carrier(active, tag, false, lay.blank, scopes)];
      active := Some(car);
      log := log + [Opened(scopes)];
      k := FrameExit(low, low - lay.trampoline, Landing(cfa, low, marker, scopes, deliver, k));
      scopes := scopes + 1;
      mode := Running(body);
    }

    /** The landing's exit path: report, restore the previous scope, let the frame go. */
    method Leave(outcome: Outcome<P>)
      requires k.Landing? && Addr(tid, k.marker) in heap
      modifies this
      ensures View() == LeaveScope(old(View()), old(k), outcome)
    {
      var addr := Addr(tid, k.marker);
      log := log + [Finished(k.serial, outcome)];
      state := k.deliver(state, outcome);
      active := heap[addr].prev;
      heap := heap - {addr};
      mode, k := Returning, k.k;
    }

    /** The stop function: jump exactly when the current frame is the target's landing frame. */
    method StopFunction(target: Addr) returns (land: bool)
      requires Inv(View()) && mode == Unwinding(target)
      ensures land <==> k.Landing?
      ensures land ==> target == Addr(tid, k.marker)
    {
      StopsExactlyAtTarget(k, target, active, heap, tid, scopes, inFlight);
      var cfa := CurrentCfa(k);
      land := cfa.None? || cfa.value > target.off;
    }

    method UnwindOne(target: Addr)
      requires Inv(View()) && mode == Unwinding(target)
      modifies this
      ensures View() == Step(old(View())) && Inv(View())
    {
      StepKeepsInv(View());
      StopsExactlyAtTarget(k, target, active, heap, tid, scopes, inFlight);
      var land := StopFunction(target);
      if land {
        inFlight := false;
        Leave(Error(heap[target].payload));
      } else {
        match k {
          case Then(_, k') => k := k';
          case GuardExit(id, dtor, k') =>
            log := log + [Destroyed(id)];
            mode, k := Running(dtor), Resume(target, k');
          case CatchExit(h, k') =>
            match h {
              case Transit => k := k';
              case Terminate => mode := Halted(Barrier);
              case Swallow => mode, k := Returning, k';
            }
          case FrameExit(_, _, k') => k := k';
        }
      }
    }

    method RunOne(p: Prog<S, P>)
      requires Inv(View()) && mode == Running(p)
      modifies this
      ensures View() == Step(old(View())) && Inv(View())
    {
      StepKeepsInv(View());
      match p {
        case Eject(tag, err, own, drive) => Eject(tag, err(state), own, drive);
        case Scope(tag, lay, body, deliver) =>
          Open(tag, lay, body, deliver);
        case _ => RunPlain(p);
      }
    }

    /** The constructs of ordinary code. */
    method RunPlain(p: Prog<S, P>)
      requires mode == Running(p) && !p.Eject? && !p.Scope?
      modifies this
      ensures View() == RunStep(old(View()), p)
    {
      match p {
        case Skip => mode := Returning;
        case Act(f) => state := f(state); mode := Returning;
        case Seq(a, b) => mode, k := Running(a), Then(b, k);
        case If(c, a, b) => mode := Running(if c(state) then a else b);
        case Guard(id, dtor, body) =>
          log := log + [Built(id)];
          mode, k := Running(body), GuardExit(id, dtor, k);
        case Call(size, body) => mode, k := Running(body), FrameExit(Sp(k), Sp(k) - size, k);
        case Catch(h, body) => mode, k := Running(body), CatchExit(h, k);
      }
    }

    method ReturnOne()
      requires Inv(View()) && mode.Returning? && !k.Bottom?
      modifies this
      ensures View() == Step(old(View())) && Inv(View())
    {
      StepKeepsInv(View());
      match k {
        case Then(p, k') => mode, k := Running(p), k';
        case GuardExit(id, dtor, k') =>
          log := log + [Destroyed(id)];
          mode, k := Running(dtor), k';
        case CatchExit(_, k') => k := k';
        case FrameExit(_, _, k') => k := k';
        case Landing(_, _, marker, _, _, _) =>
          if heap[Addr(tid, marker)].ejected {
            mode := Halted(Swallowed);
          } else {
            Leave(Value);
          }
        case Resume(target, k') => mode, k := Unwinding(target), k';
      }
    }

    /** Run the thread to its end. */
    method Execute()
      requires Inv(View())
      modifies this
      ensures View() == Run(old(View())) && Inv(View())
      ensures mode.Halted? || (active.None? && !inFlight)
    {
      while !(mode.Halted? || (mode.Returning? && k.Bottom?))
        invariant Inv(View()) && Run(View()) == Run(old(View()))
        decreases Measure(View())
      {
        StepShrinks(View());
        match mode {
          case Running(p) => RunOne(p);
          case Returning => ReturnOne();
          case Unwinding(target) => UnwindOne(target);
        }
      }
    }
  }
}
