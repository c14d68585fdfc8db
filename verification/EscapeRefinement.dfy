/** The arm against two meanings of a program that know nothing of carriers, addresses or unwinding: the
    full one, for every program, diagnosed terminations included; and the portable one, the same program
    written with `result` and a propagating check at every call. */
module EscapeRefinement {
  import opened Wrappers
  import opened EscapeMachine
  import opened EscapeProtocol

  // ------------------------------------------------------------ what every program means

  datatype Reply<P> = Normal | Failed(payload: P) | Stopped(why: Reason)

  /** What a piece of program gives: its reply, the state, scope count and events, and the escape it
      started towards the enclosing scope and left under way, on its way there or swallowed. */
  datatype Plain<!S, !P> = Plain(reply: Reply<P>, state: S, scopes: nat, log: seq<Event<P>>, flight: Option<P>)

  /** The enclosing scope: its error type and its number. */
  type Context = Option<(nat, nat)>

  function Earlier<P>(a: Option<P>, b: Option<P>): Option<P> {
    if a.Some? then a else b
  }

  /** `flying` says whether an escape is under way on the thread already. */
  function Eval<S, P>(p: Prog<S, P>, ctx: Context, flying: bool, state: S, scopes: nat): Plain<S, P> {
    match p
    case Skip => Plain(Normal, state, scopes, [], None)
    case Act(f) => Plain(Normal, f(state), scopes, [], None)
    case Seq(a, b) =>
      var x := Eval(a, ctx, flying, state, scopes);
      if !x.reply.Normal? then x
      else
        var y := Eval(b, ctx, flying || x.flight.Some?, x.state, x.scopes);
        y.(log := x.log + y.log, flight := Earlier(x.flight, y.flight))
    case If(c, a, b) =>
      if c(state) then Eval(a, ctx, flying, state, scopes) else Eval(b, ctx, flying, state, scopes)
    case Guard(id, dtor, body) =>
      var x := Eval(body, ctx, flying, state, scopes);
      if x.reply.Stopped? then x.(log := [Built(id)] + x.log)
      else
        var d := Eval(dtor, ctx, flying || x.flight.Some?, x.state, x.scopes);
        d.(reply := if d.reply.Normal? then x.reply else d.reply,
           log := [Built(id)] + x.log + [Destroyed(id)] + d.log, flight := Earlier(x.flight, d.flight))
    case Call(_, body) => Eval(body, ctx, flying, state, scopes)
    case Catch(h, body) => Caught(h, Eval(body, ctx, flying, state, scopes))
    case Eject(tag, err, _, _) =>
      if ctx.None? then Plain(Stopped(NoActiveScope), state, scopes, [], None)
      else if ctx.value.0 != tag then Plain(Stopped(WrongErrorType), state, scopes, [], None)
      else if flying then Plain(Stopped(AlreadyUnwinding), state, scopes, [], None)
      else Plain(Failed(err(state)), state, scopes, [Ejected(ctx.value.1, err(state))], Some(err(state)))
    case Scope(tag, _, body, deliver) =>
      Closed(Eval(body, Some((tag, scopes)), flying, state, scopes + 1), scopes, deliver)
  }

  /** What a handler makes of what it encloses. */
  function Caught<S, P>(h: Handler, x: Plain<S, P>): Plain<S, P> {
    if !x.reply.Failed? then x
    else match h
      case Transit => x
      case Terminate => x.(reply := Stopped(Barrier))
      case Swallow => x.(reply := Normal)
  }

  /** What scope number `n` makes of its body. */
  function Closed<S, P>(x: Plain<S, P>, n: nat, deliver: (S, Outcome<P>) -> S): Plain<S, P> {
    match x.reply
    case Stopped(_) => x.(log := [Opened(n)] + x.log, flight := None)
    case Failed(e) =>
      Plain(Normal, deliver(x.state, Error(e)), x.scopes, [Opened(n)] + x.log + [Finished(n, Error(e))], None)
    case Normal =>
      if x.flight.Some? then x.(reply := Stopped(Swallowed), log := [Opened(n)] + x.log, flight := None)
      else Plain(Normal, deliver(x.state, Value), x.scopes, [Opened(n)] + x.log + [Finished(n, Value)], None)
  }

  /** A second escape never starts, none starts without a scope, and a failure is the escape under way. */
  lemma {:induction false} FlightRules<S, P>(p: Prog<S, P>, ctx: Context, flying: bool, state: S, scopes: nat)
    ensures var x := Eval(p, ctx, flying, state, scopes);
            && (flying || ctx.None? ==> x.flight.None?)
            && (x.reply.Failed? ==> x.flight == Some(x.reply.payload))
    decreases p
  {
    match p
    case Seq(a, b) =>
      FlightRules(a, ctx, flying, state, scopes);
      var x := Eval(a, ctx, flying, state, scopes);
      FlightRules(b, ctx, flying || x.flight.Some?, x.state, x.scopes);
    case If(c, a, b) => FlightRules(if c(state) then a else b, ctx, flying, state, scopes);
    case Guard(_, dtor, body) =>
      FlightRules(body, ctx, flying, state, scopes);
      var x := Eval(body, ctx, flying, state, scopes);
      FlightRules(dtor, ctx, flying || x.flight.Some?, x.state, x.scopes);
    case Call(_, body) => FlightRules(body, ctx, flying, state, scopes);
    case Catch(_, body) => FlightRules(body, ctx, flying, state, scopes);
    case Scope(tag, _, body, _) => FlightRules(body, Some((tag, scopes)), flying, state, scopes + 1);
    case _ =>
  }

  // ------------------------------------------------------------ simulation

  ghost function ContextOf<S, P>(m: Machine<S, P>): Context {
    if m.active.Some? && m.active.value in m.heap
    then Some((m.heap[m.active.value].tag, m.heap[m.active.value].serial)) else None
  }

  ghost function Meaning<S, P>(m: Machine<S, P>, p: Prog<S, P>): Plain<S, P> {
    Eval(p, ContextOf(m), m.inFlight, m.state, m.scopes)
  }

  /** Where the machine must be once the current program has done what `r` says, with the stack it
      started from: returning, or unwinding towards the active scope with the payload in its carrier. */
  ghost function After<S, P>(m: Machine<S, P>, r: Plain<S, P>): Machine<S, P> {
    var m' := m.(state := r.state, scopes := r.scopes, log := m.log + r.log,
                 inFlight := m.inFlight || r.flight.Some?);
    if m.active.Some? && m.active.value in m.heap then
      var a := m.active.value;
      m'.(mode := if r.reply.Failed? then Unwinding(a) else Returning,
          heap := if r.flight.Some? then m.heap[a := m.heap[a].(payload := r.flight.value, ejected := true)]
                  else m.heap)
    else m'.(mode := Returning)
  }

  ghost predicate Reaches<S, P>(m: Machine<S, P>, m': Machine<S, P>) {
    exists n: nat :: Iter(m, n) == m'
  }

  /** The machine terminates where the meaning says, with the events given. */
  ghost predicate Stops<S, P>(m: Machine<S, P>, r: Plain<S, P>, log: seq<Event<P>>)
    requires r.reply.Stopped?
  {
    exists n: nat :: HaltedAs(Iter(m, n), r, log)
  }

  ghost predicate HaltedAs<S, P>(h: Machine<S, P>, r: Plain<S, P>, log: seq<Event<P>>)
    requires r.reply.Stopped?
  {
    h.mode == Halted(r.reply.why) && h.state == r.state && h.scopes == r.scopes && h.log == log
  }

  ghost predicate Ends<S, P>(m: Machine<S, P>, r: Plain<S, P>) {
    if r.reply.Stopped? then Stops(m, r, m.log + r.log) else Reaches(m, After(m, r))
  }

  ghost predicate Ready<S, P>(m: Machine<S, P>, p: Prog<S, P>) {
    Inv(m) && m.mode == Running(p)
  }

  lemma OneStep<S, P>(m: Machine<S, P>)
    requires Inv(m)
    ensures Reaches(m, Step(m)) && Inv(Step(m))
  {
    assert Iter(m, 1) == Iter(Step(m), 0);
    StepKeepsInv(m);
  }

  lemma Join<S, P>(a: Machine<S, P>, b: Machine<S, P>, c: Machine<S, P>)
    requires Reaches(a, b) && Reaches(b, c)
    ensures Reaches(a, c)
    ensures Inv(a) ==> Inv(c)
  {
    var n: nat :| Iter(a, n) == b;
    var n': nat :| Iter(b, n') == c;
    IterAdd(a, n, n');
    if Inv(a) { IterKeepsInv(a, n + n'); }
  }

  lemma StopsVia<S, P>(a: Machine<S, P>, b: Machine<S, P>, r: Plain<S, P>, log: seq<Event<P>>, r': Plain<S, P>,
                       log': seq<Event<P>>)
    requires Reaches(a, b) && r.reply.Stopped? && Stops(b, r, log)
    requires r'.reply == r.reply && r'.state == r.state && r'.scopes == r.scopes && log' == log
    ensures Stops(a, r', log')
  {
    var n: nat :| Iter(a, n) == b;
    var n': nat :| HaltedAs(Iter(b, n'), r, log);
    IterAdd(a, n, n');
    assert HaltedAs(Iter(a, n + n'), r', log');
  }

  lemma StopsAt<S, P>(a: Machine<S, P>, b: Machine<S, P>, r: Plain<S, P>, log: seq<Event<P>>)
    requires Reaches(a, b) && r.reply.Stopped? && HaltedAs(b, r, log)
    ensures Stops(a, r, log)
  {
    var n: nat :| Iter(a, n) == b;
    assert HaltedAs(Iter(a, n), r, log);
  }

  /** One more step, after what has been reached. */
  lemma ThenStep<S, P>(a: Machine<S, P>, b: Machine<S, P>)
    requires Inv(a) && Reaches(a, b)
    ensures Inv(b) && Reaches(a, Step(b)) && Inv(Step(b))
  {
    var n: nat :| Iter(a, n) == b;
    IterKeepsInv(a, n);
    OneStep(b);
    Join(a, b, Step(b));
  }

  lemma NotYetThere<S, P>(b: Machine<S, P>)
    requires Inv(b) && b.mode.Unwinding? && !b.k.Landing?
    ensures !StopHere(CurrentCfa(b.k), b.mode.target.off)
  {
    StopsExactlyAtTarget(b.k, b.mode.target, b.active, b.heap, b.tid, b.scopes, b.inFlight);
  }

  /** Leaving a frame, a transparent handler or a pending statement takes one step. */
  lemma Pass<S, P>(a: Machine<S, P>, b: Machine<S, P>)
    requires Inv(a) && Reaches(a, b)
    requires b.mode.Unwinding? || (b.mode.Returning? && !b.k.Then?)
    requires b.k.FrameExit? || b.k.Then? || (b.k.CatchExit? && (b.mode.Returning? || b.k.handler.Transit?))
    ensures Reaches(a, b.(k := b.k.k)) && Inv(b.(k := b.k.k))
  {
    ThenStep(a, b);
    if b.mode.Unwinding? { NotYetThere(b); }
  }

  /** The active carrier is in memory whenever there is one. */
  lemma ActiveThere<S, P>(m: Machine<S, P>)
    requires Inv(m) && m.active.Some?
    ensures m.active.value in m.heap
  {
    ActiveIsCarrier(m.k, m.active, m.heap, m.tid, m.scopes, m.inFlight);
  }

  /** Every program, in every state, does what it means. */
  lemma {:induction false} Simulates<S, P>(m: Machine<S, P>, p: Prog<S, P>)
    requires Ready(m, p)
    ensures Ends(m, Meaning(m, p))
    decreases p
  {
    match p
    case Seq(a, b) => SimulatesSeq(m, a, b);
    case If(c, a, b) => SimulatesIf(m, c, a, b);
    case Guard(id, dtor, body) => SimulatesGuard(m, id, dtor, body);
    case Call(_, body) => SimulatesCall(m, p, body);
    case Catch(h, body) => SimulatesCatch(m, h, body);
    case Eject(_, _, _, _) => SimulatesEject(m, p);
    case Scope(_, _, _, _) => SimulatesScope(m, p);
    case _ => SimulatesSimple(m, p);
  }

  lemma SimulatesSimple<S, P>(m: Machine<S, P>, p: Prog<S, P>)
    requires Ready(m, p) && (p.Skip? || p.Act?)
    ensures Ends(m, Meaning(m, p))
  {
    OneStep(m);
    assert m.log + [] == m.log;
    assert Step(m) == After(m, Meaning(m, p));
  }

  lemma SimulatesIf<S, P>(m: Machine<S, P>, c: S -> bool, a: Prog<S, P>, b: Prog<S, P>)
    requires Ready(m, If(c, a, b))
    ensures Ends(m, Meaning(m, If(c, a, b)))
    decreases If(c, a, b), 0
  {
    OneStep(m);
    var p := if c(m.state) then a else b;
    Simulates(Step(m), p);
    var r := Meaning(m, p);
    if r.reply.Stopped? {
      StopsVia(m, Step(m), r, m.log + r.log, r, m.log + r.log);
    } else {
      Join(m, Step(m), After(m, r));
    }
  }

  lemma SimulatesCall<S, P>(m: Machine<S, P>, p: Prog<S, P>, body: Prog<S, P>)
    requires Ready(m, p) && p.Call? && p.body == body
    ensures Ends(m, Meaning(m, p))
    decreases p, 0
  {
    OneStep(m);
    Simulates(Step(m), body);
    var r := Meaning(m, body);
    if r.reply.Stopped? {
      StopsVia(m, Step(m), r, m.log + r.log, r, m.log + r.log);
    } else {
      FrameReturns(m, Step(m), r);
    }
  }

  lemma FrameReturns<S, P>(m: Machine<S, P>, m1: Machine<S, P>, r: Plain<S, P>)
    requires Inv(m) && Reaches(m, m1) && !r.reply.Stopped? && Reaches(m1, After(m1, r))
    requires m1 == m.(mode := m1.mode, k := m1.k) && m1.k.FrameExit? && m1.k.k == m.k
    ensures Reaches(m, After(m, r))
  {
    var m2 := After(m1, r);
    Join(m, m1, m2);
    Pass(m, m2);
    assert m2.(k := m2.k.k) == After(m, r);
  }

  lemma SimulatesCatch<S, P>(m: Machine<S, P>, h: Handler, body: Prog<S, P>)
    requires Ready(m, Catch(h, body))
    ensures Ends(m, Meaning(m, Catch(h, body)))
    decreases Catch(h, body), 0
  {
    OneStep(m);
    Simulates(Step(m), body);
    var x := Meaning(m, body);
    if x.reply.Stopped? {
      StopsVia(m, Step(m), x, m.log + x.log, x, m.log + x.log);
    } else {
      FlightRules(body, ContextOf(m), m.inFlight, m.state, m.scopes);
      HandlerActs(m, Step(m), h, x);
    }
  }

  lemma HandlerActs<S, P>(m: Machine<S, P>, m1: Machine<S, P>, h: Handler, x: Plain<S, P>)
    requires Inv(m) && Reaches(m, m1) && !x.reply.Stopped? && Reaches(m1, After(m1, x))
    requires m1 == m.(mode := m1.mode, k := CatchExit(h, m.k))
    requires x.reply.Failed? ==> ContextOf(m).Some?
    ensures Ends(m, Caught(h, x))
  {
    var m2 := After(m1, x);
    Join(m, m1, m2);
    if x.reply.Failed? && !h.Transit? {
      ThenStep(m, m2);
      NotYetThere(m2);
      if h.Terminate? {
        StopsAt(m, Step(m2), Caught(h, x), m.log + x.log);
      } else {
        assert Step(m2) == After(m, Caught(h, x));
      }
    } else {
      Pass(m, m2);
      assert m2.(k := m2.k.k) == After(m, x);
    }
  }

  lemma SimulatesSeq<S, P>(m: Machine<S, P>, a: Prog<S, P>, b: Prog<S, P>)
    requires Ready(m, Seq(a, b))
    ensures Ends(m, Meaning(m, Seq(a, b)))
    decreases Seq(a, b), 0
  {
    OneStep(m);
    Simulates(Step(m), a);
    var x := Meaning(m, a);
    FlightRules(a, ContextOf(m), m.inFlight, m.state, m.scopes);
    if x.reply.Stopped? {
      StopsVia(m, Step(m), x, m.log + x.log, x, m.log + x.log);
    } else if x.reply.Failed? {
      FirstFailed(m, Step(m), b, x);
    } else {
      var m3 := After(m, x).(mode := Running(b));
      SecondStarts(m, Step(m), b, x);
      Simulates(m3, b);
      var y := Meaning(m3, b);
      MeaningAfter(m, x, b);
      FlightRules(b, ContextOf(m), m.inFlight || x.flight.Some?, x.state, x.scopes);
      SecondDone(m, x, m3, y);
    }
  }

  /** What was done before changes the context of what follows only by an escape under way. */
  lemma MeaningAfter<S, P>(m: Machine<S, P>, x: Plain<S, P>, b: Prog<S, P>)
    requires Inv(m) && (x.flight.Some? ==> ContextOf(m).Some?)
    ensures ContextOf(After(m, x)) == ContextOf(m)
    ensures Meaning(After(m, x).(mode := Running(b)), b)
         == Eval(b, ContextOf(m), m.inFlight || x.flight.Some?, x.state, x.scopes)
  {
  }

  lemma SecondStarts<S, P>(m: Machine<S, P>, m1: Machine<S, P>, b: Prog<S, P>, x: Plain<S, P>)
    requires Inv(m) && Reaches(m, m1) && x.reply.Normal? && Reaches(m1, After(m1, x))
    requires m1 == m.(mode := m1.mode, k := Then(b, m.k))
    ensures var m3 := After(m, x).(mode := Running(b)); Reaches(m, m3) && Inv(m3)
  {
    var m2 := After(m1, x);
    Join(m, m1, m2);
    ThenStep(m, m2);
    assert Step(m2) == After(m, x).(mode := Running(b));
  }

  lemma FirstFailed<S, P>(m: Machine<S, P>, m1: Machine<S, P>, b: Prog<S, P>, x: Plain<S, P>)
    requires Inv(m) && Reaches(m, m1) && x.reply.Failed? && ContextOf(m).Some? && Reaches(m1, After(m1, x))
    requires m1 == m.(mode := m1.mode, k := Then(b, m.k))
    ensures Reaches(m, After(m, x))
  {
    var m2 := After(m1, x);
    Join(m, m1, m2);
    Pass(m, m2);
    assert m2.(k := m2.k.k) == After(m, x);
  }

  /** Two pieces one after the other, at most one of which started an escape. */
  lemma TwoPieces<S, P>(m: Machine<S, P>, x: Plain<S, P>, m3: Machine<S, P>, y: Plain<S, P>, r: Plain<S, P>)
    requires m3 == After(m, x).(mode := m3.mode) && !y.reply.Stopped?
    requires x.flight.Some? ==> y.flight.None? && ContextOf(m).Some?
    requires r == y.(log := x.log + y.log, flight := Earlier(x.flight, y.flight))
    ensures After(m3, y) == After(m, r)
  {
    assert (m.log + x.log) + y.log == m.log + (x.log + y.log);
  }

  lemma SecondDone<S, P>(m: Machine<S, P>, x: Plain<S, P>, m3: Machine<S, P>, y: Plain<S, P>)
    requires m3 == After(m, x).(mode := m3.mode) && Reaches(m, m3) && Ends(m3, y)
    requires x.flight.Some? ==> y.flight.None? && ContextOf(m).Some?
    ensures Ends(m, y.(log := x.log + y.log, flight := Earlier(x.flight, y.flight)))
  {
    var r := y.(log := x.log + y.log, flight := Earlier(x.flight, y.flight));
    assert (m.log + x.log) + y.log == m.log + (x.log + y.log);
    if y.reply.Stopped? {
      StopsVia(m, m3, y, m3.log + y.log, r, m.log + r.log);
    } else {
      TwoPieces(m, x, m3, y, r);
      Join(m, m3, After(m3, y));
    }
  }

  lemma SimulatesGuard<S, P>(m: Machine<S, P>, id: nat, dtor: Prog<S, P>, body: Prog<S, P>)
    requires Ready(m, Guard(id, dtor, body))
    ensures Ends(m, Meaning(m, Guard(id, dtor, body)))
    decreases Guard(id, dtor, body), 1
  {
    var m1 := m.(mode := Running(body), k := GuardExit(id, dtor, m.k), log := m.log + [Built(id)]);
    GuardStarts(m, m1, id, dtor, body);
    Simulates(m1, body);
    if Meaning(m, body).reply.Stopped? {
      GuardStops(m, m1, id, dtor, body);
    } else {
      SimulatesDtor(m, m1, id, dtor, body);
    }
  }

  lemma GuardStarts<S, P>(m: Machine<S, P>, m1: Machine<S, P>, id: nat, dtor: Prog<S, P>, body: Prog<S, P>)
    requires Ready(m, Guard(id, dtor, body))
    requires m1 == m.(mode := Running(body), k := GuardExit(id, dtor, m.k), log := m.log + [Built(id)])
    ensures Reaches(m, m1) && Ready(m1, body) && Meaning(m1, body) == Meaning(m, body)
  {
    OneStep(m);
    assert Step(m) == m1;
  }

  lemma GuardStops<S, P>(m: Machine<S, P>, m1: Machine<S, P>, id: nat, dtor: Prog<S, P>, body: Prog<S, P>)
    requires Reaches(m, m1) && m1.log == m.log + [Built(id)] && Meaning(m, body).reply.Stopped?
    requires Stops(m1, Meaning(m, body), m1.log + Meaning(m, body).log)
    ensures Ends(m, Meaning(m, Guard(id, dtor, body)))
  {
    var x := Meaning(m, body);
    var r := x.(log := [Built(id)] + x.log);
    assert Meaning(m, Guard(id, dtor, body)) == r;
    assert (m.log + [Built(id)]) + x.log == m.log + ([Built(id)] + x.log);
    StopsVia(m, m1, x, m1.log + x.log, r, m.log + r.log);
  }

  lemma SimulatesDtor<S, P>(m: Machine<S, P>, m1: Machine<S, P>, id: nat, dtor: Prog<S, P>, body: Prog<S, P>)
    requires Inv(m) && Reaches(m, m1) && !Meaning(m, body).reply.Stopped?
    requires m1 == m.(mode := m1.mode, k := GuardExit(id, dtor, m.k), log := m.log + [Built(id)])
    requires Reaches(m1, After(m1, Meaning(m, body)))
    ensures Ends(m, Meaning(m, Guard(id, dtor, body)))
    decreases Guard(id, dtor, body), 0
  {
    var x := Meaning(m, body);
    FlightRules(body, ContextOf(m), m.inFlight, m.state, m.scopes);
    var m3 := AtDtor(m, id, dtor, x);
    DtorStarts(m, m1, id, dtor, x);
    Simulates(m3, dtor);
    DtorMeaning(m, id, dtor, x);
    var d := Eval(dtor, ContextOf(m), m.inFlight || x.flight.Some?, x.state, x.scopes);
    FlightRules(dtor, ContextOf(m), m.inFlight || x.flight.Some?, x.state, x.scopes);
    GuardDone(m, id, dtor, x, m3, d, Meaning(m, Guard(id, dtor, body)));
  }

  /** The machine about to run a destructor: as ordinary code, or as a cleanup of the escape. */
  ghost function AtDtor<S, P>(m: Machine<S, P>, id: nat, dtor: Prog<S, P>, x: Plain<S, P>): Machine<S, P> {
    var m' := After(m, x);
    m'.(mode := Running(dtor), log := m.log + ([Built(id)] + x.log + [Destroyed(id)]),
        k := if m'.mode.Unwinding? then Resume(m'.mode.target, m.k) else m.k)
  }

  lemma DtorMeaning<S, P>(m: Machine<S, P>, id: nat, dtor: Prog<S, P>, x: Plain<S, P>)
    requires Inv(m) && (x.flight.Some? ==> ContextOf(m).Some?)
    ensures Meaning(AtDtor(m, id, dtor, x), dtor)
         == Eval(dtor, ContextOf(m), m.inFlight || x.flight.Some?, x.state, x.scopes)
  {
  }

  /** The innermost object is destroyed, on the way out or by the unwind. */
  lemma DtorStarts<S, P>(m: Machine<S, P>, m1: Machine<S, P>, id: nat, dtor: Prog<S, P>, x: Plain<S, P>)
    requires Inv(m) && Reaches(m, m1) && !x.reply.Stopped? && Reaches(m1, After(m1, x))
    requires m1 == m.(mode := m1.mode, k := GuardExit(id, dtor, m.k), log := m.log + [Built(id)])
    requires x.reply.Failed? ==> ContextOf(m).Some?
    ensures Reaches(m, AtDtor(m, id, dtor, x)) && Inv(AtDtor(m, id, dtor, x))
  {
    var m2 := After(m1, x);
    Join(m, m1, m2);
    ThenStep(m, m2);
    if m2.mode.Unwinding? { NotYetThere(m2); }
    DtorStep(m, m1, id, dtor, x);
  }

  lemma DtorStep<S, P>(m: Machine<S, P>, m1: Machine<S, P>, id: nat, dtor: Prog<S, P>, x: Plain<S, P>)
    requires m1 == m.(mode := m1.mode, k := GuardExit(id, dtor, m.k), log := m.log + [Built(id)])
    requires x.reply.Failed? ==> ContextOf(m).Some?
    requires var m2 := After(m1, x); m2.mode.Unwinding? ==> !StopHere(CurrentCfa(m2.k), m2.mode.target.off)
    ensures Step(After(m1, x)) == AtDtor(m, id, dtor, x)
  {
    assert ((m.log + [Built(id)]) + x.log) + [Destroyed(id)] == m.log + ([Built(id)] + x.log + [Destroyed(id)]);
  }

  /** The destructor is done; an unwind it interrupted goes on. */
  lemma GuardDone<S, P>(m: Machine<S, P>, id: nat, dtor: Prog<S, P>, x: Plain<S, P>, m3: Machine<S, P>, d: Plain<S, P>,
                        r: Plain<S, P>)
    requires !x.reply.Stopped? && m3 == AtDtor(m, id, dtor, x) && Reaches(m, m3) && Ends(m3, d)
    requires x.flight.Some? ==> d.flight.None? && !d.reply.Failed? && ContextOf(m).Some?
    requires x.reply.Failed? ==> x.flight == Some(x.reply.payload)
    requires r == d.(reply := if d.reply.Normal? then x.reply else d.reply,
                     log := [Built(id)] + x.log + [Destroyed(id)] + d.log, flight := Earlier(x.flight, d.flight))
    ensures Ends(m, r)
  {
    assert m3.log + d.log == m.log + r.log;
    if d.reply.Stopped? {
      StopsVia(m, m3, d, m3.log + d.log, r, m.log + r.log);
    } else {
      var m4 := After(m3, d);
      Join(m, m3, m4);
      if x.reply.Failed? {
        assert Iter(m4, 1) == Iter(Step(m4), 0);
        Join(m, m4, Step(m4));
        assert Step(m4) == After(m, r);
      } else {
        assert m4 == After(m, r);
      }
    }
  }

  lemma SimulatesEject<S, P>(m: Machine<S, P>, p: Prog<S, P>)
    requires Ready(m, p) && p.Eject?
    ensures Ends(m, Meaning(m, p))
  {
    OneStep(m);
    if m.active.Some? { ActiveThere(m); }
    var r := Meaning(m, p);
    if r.reply.Stopped? {
      StopsAt(m, Step(m), r, m.log + r.log);
    } else {
      EjectGoesAhead(m, p);
      PassTwo(m, Step(m));
    }
  }

  /** The eject's own two frames lie between it and where it was called. */
  lemma EjectGoesAhead<S, P>(m: Machine<S, P>, p: Prog<S, P>)
    requires m.mode == Running(p) && p.Eject? && !m.inFlight
    requires m.active.Some? && m.active.value in m.heap && m.heap[m.active.value].tag == p.tag
    ensures var m1 := Step(m);
            && m1.mode.Unwinding? && m1.k.FrameExit? && m1.k.k.FrameExit?
            && m1.(k := m1.k.k.k) == After(m, Meaning(m, p))
  {
  }

  lemma PassTwo<S, P>(a: Machine<S, P>, b: Machine<S, P>)
    requires Inv(a) && Reaches(a, b) && b.mode.Unwinding? && b.k.FrameExit? && b.k.k.FrameExit?
    ensures Reaches(a, b.(k := b.k.k.k))
  {
    Pass(a, b);
    Pass(a, b.(k := b.k.k));
  }

  lemma SimulatesScope<S, P>(m: Machine<S, P>, p: Prog<S, P>)
    requires Ready(m, p) && p.Scope?
    ensures Ends(m, Meaning(m, p))
    decreases p, 0
  {
    var m1 := Step(m);
    ScopeStarts(m, p);
    Simulates(m1, p.body);
    var x := Eval(p.body, Some((p.tag, m.scopes)), m.inFlight, m.state, m.scopes + 1);
    FlightRules(p.body, Some((p.tag, m.scopes)), m.inFlight, m.state, m.scopes + 1);
    if x.reply.Stopped? {
      BodyStops(m, m1, x, p.deliver);
    } else {
      BodyDone(m, m1, x, p.deliver);
    }
  }

  lemma ScopeStarts<S, P>(m: Machine<S, P>, p: Prog<S, P>)
    requires Ready(m, p) && p.Scope?
    ensures var m1 := Step(m);
            && Reaches(m, m1) && Ready(m1, p.body) && m1.k.FrameExit? && m1.k.k.Landing?
            && m1.log == m.log + [Opened(m.scopes)]
            && Meaning(m1, p.body) == Eval(p.body, Some((p.tag, m.scopes)), m.inFlight, m.state, m.scopes + 1)
  {
    OneStep(m);
  }

  lemma BodyStops<S, P>(m: Machine<S, P>, m1: Machine<S, P>, x: Plain<S, P>, deliver: (S, Outcome<P>) -> S)
    requires Reaches(m, m1) && m1.log == m.log + [Opened(m.scopes)]
    requires x.reply.Stopped? && Stops(m1, x, m1.log + x.log)
    ensures Ends(m, Closed(x, m.scopes, deliver))
  {
    var r := Closed(x, m.scopes, deliver);
    assert (m.log + [Opened(m.scopes)]) + x.log == m.log + ([Opened(m.scopes)] + x.log);
    StopsVia(m, m1, x, m1.log + x.log, r, m.log + r.log);
  }

  /** The trampoline's frame goes; the landing is next. */
  lemma AtLanding<S, P>(m: Machine<S, P>, m1: Machine<S, P>, x: Plain<S, P>)
    requires Inv(m) && Reaches(m, m1) && !x.reply.Stopped? && Reaches(m1, After(m1, x)) && m1.k.FrameExit?
    ensures var m3 := After(m1, x).(k := m1.k.k); Inv(m3) && Reaches(m, m3) && Reaches(m, Step(m3))
  {
    var m2 := After(m1, x);
    Join(m, m1, m2);
    Pass(m, m2);
    ThenStep(m, m2.(k := m2.k.k));
  }

  lemma BodyDone<S, P>(m: Machine<S, P>, m1: Machine<S, P>, x: Plain<S, P>, deliver: (S, Outcome<P>) -> S)
    requires Inv(m) && m.mode.Running? && m.mode.p.Scope? && m.mode.p.deliver == deliver
    requires m1 == Step(m) && Reaches(m, m1) && m1.k.FrameExit? && m1.k.k.Landing?
    requires !x.reply.Stopped? && Reaches(m1, After(m1, x))
    requires x.flight.Some? ==> !m.inFlight
    requires x.reply.Failed? ==> x.flight == Some(x.reply.payload)
    ensures Ends(m, Closed(x, m.scopes, deliver))
  {
    AtLanding(m, m1, x);
    var m3 := After(m1, x).(k := m1.k.k);
    if x.reply.Normal? && x.flight.Some? {
      SwallowShows(m, m1, x, m3, deliver);
      StopsAt(m, Step(m3), Closed(x, m.scopes, deliver), m.log + Closed(x, m.scopes, deliver).log);
    } else {
      ScopeCloses(m, m1, x, m3, deliver);
    }
  }

  /** The body came back although an escape was aimed at this scope. */
  lemma SwallowShows<S, P>(m: Machine<S, P>, m1: Machine<S, P>, x: Plain<S, P>, m3: Machine<S, P>,
                           deliver: (S, Outcome<P>) -> S)
    requires m.mode.Running? && m.mode.p.Scope? && m1 == Step(m)
    requires x.reply.Normal? && x.flight.Some? && m3 == After(m1, x).(k := m1.k.k)
    ensures HaltedAs(Step(m3), Closed(x, m.scopes, deliver), m.log + Closed(x, m.scopes, deliver).log)
  {
    assert (m.log + [Opened(m.scopes)]) + x.log == m.log + ([Opened(m.scopes)] + x.log);
  }

  /** The landing's own step gives back the stack, the chain and the heap the scope was opened on. */
  lemma ScopeCloses<S, P>(m: Machine<S, P>, m1: Machine<S, P>, x: Plain<S, P>, m3: Machine<S, P>,
                          deliver: (S, Outcome<P>) -> S)
    requires Inv(m) && Inv(m3) && m.mode.Running? && m.mode.p.Scope? && m.mode.p.deliver == deliver
    requires x.reply.Normal? || x.reply.Failed?
    requires x.flight == if x.reply.Failed? then Some(x.reply.payload) else None
    requires x.reply.Failed? ==> !m.inFlight
    requires m1 == Step(m) && m3 == After(m1, x).(k := m1.k.k)
    ensures Step(m3) == After(m, Closed(x, m.scopes, deliver))
  {
    var a := m1.active.value;
    BelowIsFree(m.k, m.active, m.heap, m1.heap, m.tid, m.scopes, m.inFlight, a.off);
    assert a !in m.heap;
    assert m3.heap - {a} == m.heap;
    var outcome := if x.reply.Normal? then Value else Error(x.reply.payload);
    assert m3.log + [Finished(m.scopes, outcome)]
        == m.log + ([Opened(m.scopes)] + x.log + [Finished(m.scopes, outcome)]);
    if x.reply.Failed? {
      StopsExactlyAtTarget(m3.k, a, m3.active, m3.heap, m3.tid, m3.scopes, m3.inFlight);
    }
  }

  // ------------------------------------------------------------ the theorem for every program

  lemma MeaningEnds<S, P>(m: Machine<S, P>, p: Prog<S, P>)
    requires Ready(m, p) && m.k.Bottom? && m.active.None?
    ensures var r, s := Run(m), Meaning(m, p);
            && r.state == s.state && r.log == m.log + s.log && r.scopes == s.scopes
            && (match s.reply
                case Stopped(why) => r.mode == Halted(why)
                case Normal => r.mode.Returning? && r.k == m.k && r.heap == m.heap && r.active.None? && r.inFlight == m.inFlight
                case Failed(_) => false)
  {
    Simulates(m, p);
    FlightRules(p, ContextOf(m), m.inFlight, m.state, m.scopes);
    var s := Meaning(m, p);
    if s.reply.Stopped? {
      var n: nat :| HaltedAs(Iter(m, n), s, m.log + s.log);
      IterRuns(m, n);
    } else {
      var n: nat :| Iter(m, n) == After(m, s);
      IterRuns(m, n);
    }
  }

  /** Every program whatever, with any handlers, any ejects from destructors and any error types, ends as
      its meaning says: it terminates for exactly the reason, at exactly the point and after exactly the
      events that are prescribed, or returns with the prescribed state and events and everything restored. */
  lemma EveryRunIsItsMeaning<S, P>(tid: nat, base: int, p: Prog<S, P>, state: S, heap: map<Addr, Carrier<P>>)
    requires Unused(heap, tid)
    ensures var r, s := Run(Init(tid, base, p, state, heap)), Eval(p, None, false, state, 0);
            && r.state == s.state && r.log == s.log && r.scopes == s.scopes
            && (match s.reply
                case Stopped(why) => r.mode == Halted(why)
                case Normal => r.mode.Returning? && r.heap == heap && r.active.None? && !r.inFlight
                case Failed(_) => false)
  {
    var m := Init(tid, base, p, state, heap);
    MeaningEnds(m, p);
    assert [] + Eval(p, None, false, state, 0).log == Eval(p, None, false, state, 0).log;
  }

  // ------------------------------------------------------------ the portable surface

  /** What the program gives when written with `result`: an outcome, the state, scope count and events. */
  datatype Returned<!S, !P> = Returned(failure: Option<P>, state: S, scopes: nat, log: seq<Event<P>>)

  /** Every construct returns a result; every construct checks the result of what it ran and returns
      the failure as it stands, after letting its own objects die. `here` is the enclosing scope. */
  function EvalResults<S, P>(p: Prog<S, P>, here: nat, state: S, scopes: nat): Returned<S, P> {
    match p
    case Skip => Returned(None, state, scopes, [])
    case Act(f) => Returned(None, f(state), scopes, [])
    case Seq(a, b) =>
      var x := EvalResults(a, here, state, scopes);
      if x.failure.Some? then x
      else
        var y := EvalResults(b, here, x.state, x.scopes);
        y.(log := x.log + y.log)
    case If(c, a, b) =>
      if c(state) then EvalResults(a, here, state, scopes) else EvalResults(b, here, state, scopes)
    case Guard(id, dtor, body) =>
      var x := EvalResults(body, here, state, scopes);
      var d := EvalResults(dtor, here, x.state, x.scopes);
      d.(failure := x.failure, log := [Built(id)] + x.log + [Destroyed(id)] + d.log)
    case Call(_, body) => EvalResults(body, here, state, scopes)
    case Catch(_, body) => EvalResults(body, here, state, scopes)
    case Eject(_, err, _, _) => Returned(Some(err(state)), state, scopes, [Ejected(here, err(state))])
    case Scope(_, _, body, deliver) =>
      var x := EvalResults(body, scopes, state, scopes + 1);
      var outcome := if x.failure.None? then Value else Error(x.failure.value);
      Returned(None, deliver(x.state, outcome), x.scopes,
               [Opened(scopes)] + x.log + [Finished(scopes, outcome)])
  }

  predicate NoEject<S, P>(p: Prog<S, P>) {
    match p
    case Skip => true
    case Act(_) => true
    case Seq(a, b) => NoEject(a) && NoEject(b)
    case If(_, a, b) => NoEject(a) && NoEject(b)
    case Guard(_, dtor, body) => NoEject(dtor) && NoEject(body)
    case Call(_, body) => NoEject(body)
    case Catch(_, body) => NoEject(body)
    case Eject(_, _, _, _) => false
    case Scope(_, _, body, _) => NoEject(body)
  }

  /** Every eject names the error type of the scope around it, destructors do not eject (they may open
      scopes), and a handler on the path lets the escape through. */
  predicate WellBehaved<S, P>(p: Prog<S, P>, tag: Option<nat>) {
    match p
    case Skip => true
    case Act(_) => true
    case Seq(a, b) => WellBehaved(a, tag) && WellBehaved(b, tag)
    case If(_, a, b) => WellBehaved(a, tag) && WellBehaved(b, tag)
    case Guard(_, dtor, body) => NoEject(dtor) && WellBehaved(dtor, tag) && WellBehaved(body, tag)
    case Call(_, body) => WellBehaved(body, tag)
    case Catch(h, body) => h.Transit? && WellBehaved(body, tag)
    case Eject(t, _, _, _) => tag == Some(t)
    case Scope(t, _, body, _) => WellBehaved(body, Some(t))
  }

  ghost predicate SameAnswer<S, P>(x: Plain<S, P>, y: Returned<S, P>) {
    && !x.reply.Stopped? && x.state == y.state && x.scopes == y.scopes && x.log == y.log
    && x.flight == y.failure && (x.reply.Failed? <==> y.failure.Some?)
    && (x.reply.Failed? ==> x.flight == Some(x.reply.payload))
  }

  /** Where the portable surface has a counterpart, both meanings agree. */
  lemma {:induction false} MeaningIsResults<S, P>(p: Prog<S, P>, tag: Option<nat>, here: nat, flying: bool, state: S,
                                                  scopes: nat)
    requires WellBehaved(p, tag) && (flying ==> NoEject(p))
    ensures var ctx: Context := if tag.Some? then Some((tag.value, here)) else None;
            SameAnswer(Eval(p, ctx, flying, state, scopes), EvalResults(p, here, state, scopes))
    ensures NoEject(p) ==> EvalResults(p, here, state, scopes).failure.None?
    decreases p
  {
    match p
    case Seq(a, b) =>
      MeaningIsResults(a, tag, here, flying, state, scopes);
      var x := EvalResults(a, here, state, scopes);
      if x.failure.None? { MeaningIsResults(b, tag, here, flying, x.state, x.scopes); }
    case If(c, a, b) => MeaningIsResults(if c(state) then a else b, tag, here, flying, state, scopes);
    case Guard(_, dtor, body) =>
      MeaningIsResults(body, tag, here, flying, state, scopes);
      var x := EvalResults(body, here, state, scopes);
      MeaningIsResults(dtor, tag, here, flying || x.failure.Some?, x.state, x.scopes);
    case Call(_, body) => MeaningIsResults(body, tag, here, flying, state, scopes);
    case Catch(_, body) => MeaningIsResults(body, tag, here, flying, state, scopes);
    case Scope(t, _, body, _) => MeaningIsResults(body, Some(t), scopes, flying, state, scopes + 1);
    case _ =>
  }

  /** For every well-behaved program the machine, with its carriers, addresses and forced unwind, ends
      normally with exactly the state and the events of the portable program. */
  lemma ArmRefinesResults<S, P>(tid: nat, base: int, p: Prog<S, P>, state: S, heap: map<Addr, Carrier<P>>)
    requires Unused(heap, tid) && WellBehaved(p, None)
    ensures var r, s := Run(Init(tid, base, p, state, heap)), EvalResults(p, 0, state, 0);
            && r.mode.Returning? && s.failure.None?
            && r.state == s.state && r.log == s.log && r.scopes == s.scopes && r.heap == heap
  {
    EveryRunIsItsMeaning(tid, base, p, state, heap);
    MeaningIsResults(p, None, 0, false, state, 0);
    FlightRules(p, None, false, state, 0);
  }
}
