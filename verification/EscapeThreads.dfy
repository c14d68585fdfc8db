/** The landing chain of one thread, and the arm under every interleaving of threads that share one
    memory. */
module EscapeThreads {
  import opened Wrappers
  import opened EscapeMachine
  import opened EscapeProtocol

  // ------------------------------------------------------------ the landing chain

  /** The carriers of the open scopes, innermost first. */
  ghost function OpenScopes<S, P>(k: Kont<S, P>, tid: nat): seq<Addr> {
    match k
    case Bottom(_) => []
    case Landing(_, _, marker, _, _, k') => [Addr(tid, marker)] + OpenScopes(k', tid)
    case _ => OpenScopes(k.k, tid)
  }

  /** Following `prev` from `top` visits exactly `addrs` and then ends. */
  ghost predicate Links<P>(top: Option<Addr>, heap: map<Addr, Carrier<P>>, addrs: seq<Addr>)
    decreases |addrs|
  {
    if addrs == [] then top.None?
    else top == Some(addrs[0]) && addrs[0] in heap && Links(heap[addrs[0]].prev, heap, addrs[1..])
  }

  lemma {:induction false} ChainIsOpenScopes<S, P>(k: Kont<S, P>, top: Option<Addr>, heap: map<Addr, Carrier<P>>, tid: nat,
                                             bound: nat, flying: bool)
    requires WellFormed(k, top, heap, tid, bound, flying)
    ensures Links(top, heap, OpenScopes(k, tid))
    ensures OpenScopes(k, tid) == [] ==> !flying
  {
    match k
    case Bottom(_) =>
    case Landing(_, _, marker, serial, _, k') =>
      var a := Addr(tid, marker);
      ChainIsOpenScopes(k', heap[a].prev, heap, tid, serial, flying && !heap[a].ejected);
      assert OpenScopes(k, tid)[1..] == OpenScopes(k', tid);
    case _ => ChainIsOpenScopes(k.k, top, heap, tid, bound, flying);
  }

  /** What `active()` and `escape_in_flight()` say about one thread, in every state it can be in. */
  ghost predicate ChainExact<S, P>(m: Machine<S, P>) {
    && Links(m.active, m.heap, OpenScopes(m.k, m.tid))
    && (OpenScopes(m.k, m.tid) == [] ==> m.active.None? && !m.inFlight)
  }

  /** An eject that goes ahead writes the innermost carrier and no other memory. */
  lemma EjectTouchesInnermostOnly<S, P>(m: Machine<S, P>)
    requires Inv(m) && m.mode.Running? && m.mode.p.Eject? && !Step(m).mode.Halted?
    ensures var s := OpenScopes(m.k, m.tid);
            && s != [] && s[0] in m.heap && Step(m).mode == Unwinding(s[0])
            && Step(m).heap.Keys == m.heap.Keys
            && (forall a :: a in m.heap && a != s[0] ==> Step(m).heap[a] == m.heap[a])
  {
    ChainIsOpenScopes(m.k, m.active, m.heap, m.tid, m.scopes, m.inFlight);
  }

  // ------------------------------------------------------------ threads over one memory

  /** Each thread's registers and thread-local storage, over a memory all threads share. The `heap`
      field of a stored machine is empty; the thread sees the shared memory instead. */
  datatype World<!S, !P> = World(threads: map<nat, Machine<S, P>>, heap: map<Addr, Carrier<P>>)

  function View<S, P>(w: World<S, P>, t: nat): Machine<S, P>
    requires t in w.threads
  {
    w.threads[t].(heap := w.heap)
  }

  function Turn<S, P>(w: World<S, P>, t: nat): World<S, P>
    requires t in w.threads
  {
    var m := Step(View(w, t));
    World(w.threads[t := m.(heap := map[])], m.heap)
  }

  /** The world after the threads have taken turns in the given order. */
  ghost function Interleave<S, P>(w: World<S, P>, schedule: seq<nat>): (r: World<S, P>)
    requires forall t :: t in schedule ==> t in w.threads
    ensures r.threads.Keys == w.threads.Keys
    decreases |schedule|
  {
    if schedule == [] then w
    else Turn(Interleave(w, schedule[..|schedule| - 1]), schedule[|schedule| - 1])
  }

  /** The world of fresh threads running the given programs, each on its own stack. */
  datatype Start<!S, !P> = Start(base: int, p: Prog<S, P>, state: S)

  function Fresh<S, P>(starts: map<nat, Start<S, P>>): World<S, P> {
    World(map t | t in starts :: Init(t, starts[t].base, starts[t].p, starts[t].state, map[]), map[])
  }

  function Alone<S, P>(starts: map<nat, Start<S, P>>, t: nat): Machine<S, P>
    requires t in starts
  {
    Init(t, starts[t].base, starts[t].p, starts[t].state, map[])
  }

  /** A step reads and writes only the thread's own part of the memory. */
  lemma StepIsLocal<S, P>(m: Machine<S, P>, others: map<Addr, Carrier<P>>)
    requires Inv(m)
    requires forall a :: a in others ==> a.tid != m.tid
    ensures Step(m.(heap := m.heap + others)) == Step(m).(heap := Step(m).heap + others)
  {
    match m.mode
    case Running(p) =>
      if m.active.Some? { ActiveIsCarrier(m.k, m.active, m.heap, m.tid, m.scopes, m.inFlight); }
      RunIsLocal(m, p, others);
    case Returning => if m.k.Landing? { LeaveIsLocal(m, m.k, Value, others); }
    case Unwinding(target) => UnwindIsLocal(m, target, others);
    case Halted(_) =>
  }

  lemma UnwindIsLocal<S, P>(m: Machine<S, P>, target: Addr, others: map<Addr, Carrier<P>>)
    requires Inv(m) && m.mode == Unwinding(target)
    requires forall a :: a in others ==> a.tid != m.tid
    ensures UnwindStep(m.(heap := m.heap + others), target) ==
            UnwindStep(m, target).(heap := UnwindStep(m, target).heap + others)
  {
    StopsExactlyAtTarget(m.k, target, m.active, m.heap, m.tid, m.scopes, m.inFlight);
    if m.k.Landing? {
      LeaveIsLocal(m.(inFlight := false), m.k, Error(m.heap[target].payload), others);
    }
  }

  lemma RunIsLocal<S, P>(m: Machine<S, P>, p: Prog<S, P>, others: map<Addr, Carrier<P>>)
    requires forall a :: a in others ==> a.tid != m.tid
    requires m.active.Some? ==> m.active.value in m.heap && m.active.value.tid == m.tid
    ensures RunStep(m.(heap := m.heap + others), p) ==
            RunStep(m, p).(heap := RunStep(m, p).heap + others)
  {
    match p
    case Scope(tag, lay, body, deliver) =>
      OpenIsLocal(m, tag, lay, body, deliver, others);
    case Eject(tag, err, own, drive) => EjectIsLocal(m, tag, err(m.state), own, drive, others);
    case _ =>
  }

  lemma WriteIsLocal<P>(heap: map<Addr, Carrier<P>>, others: map<Addr, Carrier<P>>, a: Addr, c: Carrier<P>)
    requires a !in others
    ensures (heap + others)[a := c] == heap[a := c] + others
  {
  }

  lemma OpenIsLocal<S, P>(m: Machine<S, P>, tag: nat, lay: Layout<P>, body: Prog<S, P>,
                    deliver: (S, Outcome<P>) -> S, others: map<Addr, Carrier<P>>)
    requires forall a :: a in others ==> a.tid != m.tid
    ensures var r := OpenScope(m, tag, lay, body, deliver);
            OpenScope(m.(heap := m.heap + others), tag, lay, body, deliver)
            == r.(heap := r.heap + others)
  {
    var a := Addr(m.tid, Sp(m.k) - 1 - lay.above);
    WriteIsLocal(m.heap, others, a, Carrier(m.active, tag, false, lay.blank, m.scopes));
  }

  lemma EjectIsLocal<S, P>(m: Machine<S, P>, tag: nat, x: P, own: nat, drive: nat, others: map<Addr, Carrier<P>>)
    requires forall a :: a in others ==> a.tid != m.tid
    requires m.active.Some? ==> m.active.value in m.heap && m.active.value.tid == m.tid
    ensures var r := EjectStep(m, tag, x, own, drive);
            EjectStep(m.(heap := m.heap + others), tag, x, own, drive) == r.(heap := r.heap + others)
  {
    if m.active.Some? {
      var a := m.active.value;
      WriteIsLocal(m.heap, others, a, m.heap[a].(payload := x, ejected := true));
    }
  }

  lemma LeaveIsLocal<S, P>(m: Machine<S, P>, l: Kont<S, P>, outcome: Outcome<P>, others: map<Addr, Carrier<P>>)
    requires l.Landing? && Addr(m.tid, l.marker) in m.heap
    requires forall a :: a in others ==> a.tid != m.tid
    ensures LeaveScope(m.(heap := m.heap + others), l, outcome) ==
            LeaveScope(m, l, outcome).(heap := LeaveScope(m, l, outcome).heap + others)
  {
    var a := Addr(m.tid, l.marker);
    assert (m.heap + others) - {a} == (m.heap - {a}) + others;
  }

  /** Thread `t` of the world is where machine `m`, running alone, would be. */
  ghost predicate Mirrors<S, P>(w: World<S, P>, t: nat, m: Machine<S, P>) {
    && t in w.threads && m.tid == t
    && w.threads[t] == m.(heap := map[])
    && (forall a :: a in m.heap ==> a.tid == t)
    && (forall a: Addr :: a.tid == t ==> (a in w.heap <==> a in m.heap))
    && (forall a :: a in m.heap && a in w.heap ==> w.heap[a] == m.heap[a])
  }

  lemma TurnMirrors<S, P>(w: World<S, P>, t: nat, m: Machine<S, P>)
    requires Mirrors(w, t, m) && Inv(m)
    ensures Mirrors(Turn(w, t), t, Step(m))
    ensures forall a: Addr :: a.tid != t ==>
              (a in Turn(w, t).heap <==> a in w.heap) && (a in w.heap ==> Turn(w, t).heap[a] == w.heap[a])
  {
    var others := map a | a in w.heap && a.tid != t :: w.heap[a];
    assert w.heap == m.heap + others;
    StepIsLocal(m, others);
    assert View(w, t) == m.(heap := m.heap + others);
    assert Turn(w, t).heap == Step(m).heap + others;
    StepStaysHome(m);
  }

  lemma StepStaysHome<S, P>(m: Machine<S, P>)
    requires Inv(m) && (forall a :: a in m.heap ==> a.tid == m.tid)
    ensures forall a :: a in Step(m).heap ==> a.tid == m.tid
    ensures Step(m).tid == m.tid
  {
    if m.active.Some? { ActiveIsCarrier(m.k, m.active, m.heap, m.tid, m.scopes, m.inFlight); }
  }

  lemma {:induction false} IterLast<S, P>(m: Machine<S, P>, n: nat)
    ensures Iter(m, n + 1) == Step(Iter(m, n))
    decreases n
  {
    if n > 0 { IterLast(Step(m), n - 1); }
  }

  lemma TurnOfAnother<S, P>(w: World<S, P>, u: nat, mu: Machine<S, P>, t: nat, mt: Machine<S, P>)
    requires Mirrors(w, u, mu) && Inv(mu) && Mirrors(w, t, mt) && t != u
    ensures Mirrors(Turn(w, u), t, mt)
  {
    TurnMirrors(w, u, mu);
  }

  /** How many turns a schedule gives to a thread. */
  ghost function Turns(schedule: seq<nat>, t: nat): nat {
    multiset(schedule)[t]
  }

  lemma AloneObeys<S, P>(starts: map<nat, Start<S, P>>, t: nat, n: nat)
    requires t in starts
    ensures Inv(Iter(Alone(starts, t), n))
  {
    EveryReachableStateObeys(t, starts[t].base, starts[t].p, starts[t].state, map[], n);
  }

  /** One turn of `u`, seen from `t`. */
  lemma OneTurn<S, P>(starts: map<nat, Start<S, P>>, w: World<S, P>, u: nat, nu: nat, t: nat, nt: nat)
    requires t in starts && u in starts && (t == u ==> nt == nu)
    requires Mirrors(w, t, Iter(Alone(starts, t), nt)) && Mirrors(w, u, Iter(Alone(starts, u), nu))
    ensures Mirrors(Turn(w, u), t, Iter(Alone(starts, t), if t == u then nt + 1 else nt))
  {
    AloneObeys(starts, u, nu);
    if t == u {
      TurnMirrors(w, u, Iter(Alone(starts, u), nu));
      IterLast(Alone(starts, u), nu);
    } else {
      TurnOfAnother(w, u, Iter(Alone(starts, u), nu), t, Iter(Alone(starts, t), nt));
    }
  }

  lemma FreshMirrors<S, P>(starts: map<nat, Start<S, P>>, t: nat)
    requires t in starts
    ensures Mirrors(Fresh(starts), t, Alone(starts, t))
  {
  }

  lemma OneMoreTurn(schedule: seq<nat>, t: nat)
    requires schedule != []
    ensures var before, u := schedule[..|schedule| - 1], schedule[|schedule| - 1];
            Turns(schedule, t) == if t == u then Turns(before, t) + 1 else Turns(before, t)
  {
    assert schedule == schedule[..|schedule| - 1] + [schedule[|schedule| - 1]];
  }

  lemma {:induction false} EachThreadMirrors<S, P>(starts: map<nat, Start<S, P>>, schedule: seq<nat>, t: nat)
    requires t in starts && forall u :: u in schedule ==> u in starts
    ensures Mirrors(Interleave(Fresh(starts), schedule), t, Iter(Alone(starts, t), Turns(schedule, t)))
    decreases |schedule|
  {
    if schedule == [] {
      FreshMirrors(starts, t);
    } else {
      var before, u := schedule[..|schedule| - 1], schedule[|schedule| - 1];
      OneMoreTurn(schedule, t);
      EachThreadMirrors(starts, before, t);
      EachThreadMirrors(starts, before, u);
      OneTurn(starts, Interleave(Fresh(starts), before), u, Turns(before, u), t, Turns(before, t));
    }
  }

  /** In every interleaving each thread is exactly where it would be had it run alone for as many steps
      as it had turns; so its chain is its own open scopes, and all that holds of a run holds of it. */
  lemma ThreadsAreIndependent<S, P>(starts: map<nat, Start<S, P>>, schedule: seq<nat>, t: nat)
    requires t in starts && forall u :: u in schedule ==> u in starts
    ensures var m := Iter(Alone(starts, t), Turns(schedule, t));
            && Mirrors(Interleave(Fresh(starts), schedule), t, m)
            && Inv(m) && ChainExact(m)
  {
    var m := Iter(Alone(starts, t), Turns(schedule, t));
    EachThreadMirrors(starts, schedule, t);
    AloneObeys(starts, t, Turns(schedule, t));
    ChainIsOpenScopes(m.k, m.active, m.heap, m.tid, m.scopes, m.inFlight);
  }
}
