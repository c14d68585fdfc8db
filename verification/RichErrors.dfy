/** `rich_error`, `landing` and the propagation macros over the diagnostic store: programs of failures,
    checks, landings and combinators, run under the rich policy and under the minimal one. */
module RichErrors {
  import opened Wrappers
  import opened DiagnosticStore

  /** The minimal error, and the outcome of a call under the minimal policy. */
  datatype Error = Error(code: int, domain: int)
  datatype Plain = Val(v: int) | Bad(e: Error)

  /** The rich error: the same in-band payload and a handle into the store, 0 for none. */
  datatype Rich = Rich(code: int, domain: int, handle: nat)
  datatype RichOutcome = RichVal(v: int) | RichBad(e: Rich)

  /** What a `transform_error` callable returns: an error it builds, or the one it was given, with its
      handle and with whatever it made of the code and domain. */
  datatype Remapped = Rebuilt(e: Error) | Kept(e: Error)

  /** Programs with one argument. `Try` is the propagation macro: it records its site and returns the
      failure, or goes on with the value. The combinators record nothing. `Again` fails with the error
      the enclosing `or_else` handler was given. */
  datatype Prog =
    | Give(f: int -> int)
    | FailWith(code: int -> int, domain: int, at: Loc)
    | Again
    | Try(site: Loc, first: Prog, next: Prog)
    | AndThen(first: Prog, next: Prog)
    | Transform(first: Prog, f: int -> int)
    | OrElse(first: Prog, view: (int, int) -> int, handler: Prog)
    | TransformError(first: Prog, remap: (int, int) -> Remapped, at: Loc)
    | Landing(body: Prog)

  // ------------------------------------------------------------ the two policies

  function EvalPlain(p: Prog, x: int, caught: Error): Plain {
    match p
    case Give(f) => Val(f(x))
    case FailWith(code, domain, _) => Bad(Error(code(x), domain))
    case Again => Bad(caught)
    case Try(_, first, next) =>
      var r := EvalPlain(first, x, caught);
      if r.Bad? then r else EvalPlain(next, r.v, caught)
    case AndThen(first, next) =>
      var r := EvalPlain(first, x, caught);
      if r.Bad? then r else EvalPlain(next, r.v, caught)
    case Transform(first, f) =>
      var r := EvalPlain(first, x, caught);
      if r.Bad? then r else Val(f(r.v))
    case OrElse(first, view, handler) =>
      var r := EvalPlain(first, x, caught);
      if r.Val? then r else EvalPlain(handler, view(r.e.code, r.e.domain), r.e)
    case TransformError(first, remap, _) =>
      var r := EvalPlain(first, x, caught);
      if r.Val? then r else Bad(remap(r.e.code, r.e.domain).e)
    case Landing(body) => EvalPlain(body, x, caught)
  }

  /** The rich policy, threading the arena: constructing an error opens a record, a propagation adds a
      hop, a landing truncates back to its mark. */
  function EvalRich(p: Prog, x: int, caught: Rich, a: Arena): (RichOutcome, Arena) {
    match p
    case Give(f) => (RichVal(f(x)), a)
    case FailWith(code, domain, at) => (RichBad(Rich(code(x), domain, a.nextId)), OpenRecord(a, at))
    case Again => (RichBad(caught), a)
    case Try(site, first, next) =>
      var (r, a1) := EvalRich(first, x, caught, a);
      if r.RichBad? then (r, AddHop(a1, r.e.handle, site)) else EvalRich(next, r.v, caught, a1)
    case AndThen(first, next) =>
      var (r, a1) := EvalRich(first, x, caught, a);
      if r.RichBad? then (r, a1) else EvalRich(next, r.v, caught, a1)
    case Transform(first, f) =>
      var (r, a1) := EvalRich(first, x, caught, a);
      if r.RichBad? then (r, a1) else (RichVal(f(r.v)), a1)
    case OrElse(first, view, handler) =>
      var (r, a1) := EvalRich(first, x, caught, a);
      if r.RichVal? then (r, a1) else EvalRich(handler, view(r.e.code, r.e.domain), r.e, a1)
    case TransformError(first, remap, at) =>
      var (r, a1) := EvalRich(first, x, caught, a);
      if r.RichVal? then (r, a1)
      else
        (match remap(r.e.code, r.e.domain)
         case Rebuilt(e) => (RichBad(Rich(e.code, e.domain, a1.nextId)), OpenRecord(a1, at))
         case Kept(e) => (RichBad(Rich(e.code, e.domain, r.e.handle)), a1))
    case Landing(body) =>
      var (r, a1) := EvalRich(body, x, caught, a);
      (r, Truncate(a1, |a.records|))
  }

  /** The same program on the store object. */
  method Execute(p: Prog, x: int, caught: Rich, s: Store) returns (r: RichOutcome)
    requires s.Valid()
    modifies s, s.records
    ensures s.Valid()
    ensures (r, s.View()) == EvalRich(p, x, caught, old(s.View()))
    decreases p
  {
    match p {
      case Give(f) => r := RichVal(f(x));
      case FailWith(code, domain, at) =>
        var h := s.Open(at);
        r := RichBad(Rich(code(x), domain, h));
      case Again => r := RichBad(caught);
      case Try(site, first, next) =>
        r := Execute(first, x, caught, s);
        if r.RichBad? { s.Hop(r.e.handle, site); } else { r := Execute(next, r.v, caught, s); }
      case AndThen(first, next) =>
        r := Execute(first, x, caught, s);
        if r.RichVal? { r := Execute(next, r.v, caught, s); }
      case Transform(first, f) =>
        r := Execute(first, x, caught, s);
        if r.RichVal? { r := RichVal(f(r.v)); }
      case OrElse(first, view, handler) =>
        r := Execute(first, x, caught, s);
        if r.RichBad? { r := Execute(handler, view(r.e.code, r.e.domain), r.e, s); }
      case TransformError(first, remap, at) =>
        r := Execute(first, x, caught, s);
        if r.RichBad? {
          match remap(r.e.code, r.e.domain) {
            case Rebuilt(e) =>
              var h := s.Open(at);
              r := RichBad(Rich(e.code, e.domain, h));
            case Kept(e) => r := RichBad(Rich(e.code, e.domain, r.e.handle));
          }
        }
      case Landing(body) =>
        var m := s.Mark();
        r := Execute(body, x, caught, s);
        s.TruncateTo(m);
    }
  }

  // ------------------------------------------------------------ erasure

  function Base(e: Rich): Error { Error(e.code, e.domain) }

  function Erase(r: RichOutcome): Plain {
    if r.RichVal? then Val(r.v) else Bad(Base(r.e))
  }

  /** Under the rich policy a program gives the result it gives under the minimal one, whatever the
      state of the store. */
  lemma {:induction false} RichErasesToPlain(p: Prog, x: int, caught: Rich, a: Arena)
    ensures Erase(EvalRich(p, x, caught, a).0) == EvalPlain(p, x, Base(caught))
  {
    match p
    case Give(_) =>
    case FailWith(_, _, _) =>
    case Again =>
    case Landing(body) => RichErasesToPlain(body, x, caught, a);
    case Transform(first, _) => RichErasesToPlain(first, x, caught, a);
    case TransformError(first, _, _) => RichErasesToPlain(first, x, caught, a);
    case OrElse(first, view, handler) =>
      RichErasesToPlain(first, x, caught, a);
      var (r, a1) := EvalRich(first, x, caught, a);
      if r.RichBad? { RichErasesToPlain(handler, view(r.e.code, r.e.domain), r.e, a1); }
    case _ =>
      RichErasesToPlain(p.first, x, caught, a);
      var (r, a1) := EvalRich(p.first, x, caught, a);
      if r.RichVal? { RichErasesToPlain(p.next, r.v, caught, a1); }
  }

  /** How the combinators and the check relate, under either policy by erasure: a check is `and_then` with
      its site recorded; `transform` is `and_then` with a plain function; `and_then` associates; a failure
      passes `and_then` and `transform` untouched and a value passes `or_else` and `transform_error`. */
  lemma CombinatorLaws(p: Prog, q: Prog, r: Prog, f: int -> int, view: (int, int) -> int,
                       remap: (int, int) -> Remapped, site: Loc, x: int, caught: Error)
    ensures EvalPlain(Try(site, p, q), x, caught) == EvalPlain(AndThen(p, q), x, caught)
    ensures EvalPlain(Transform(p, f), x, caught) == EvalPlain(AndThen(p, Give(f)), x, caught)
    ensures EvalPlain(AndThen(AndThen(p, q), r), x, caught) == EvalPlain(AndThen(p, AndThen(q, r)), x, caught)
    ensures EvalPlain(AndThen(Give(f), q), x, caught) == EvalPlain(q, f(x), caught)
    ensures EvalPlain(p, x, caught).Bad? ==> EvalPlain(AndThen(p, q), x, caught) == EvalPlain(p, x, caught)
    ensures EvalPlain(p, x, caught).Val? ==>
              && EvalPlain(OrElse(p, view, q), x, caught) == EvalPlain(p, x, caught)
              && EvalPlain(TransformError(p, remap, site), x, caught) == EvalPlain(p, x, caught)
    ensures EvalPlain(OrElse(p, view, Again), x, caught) == EvalPlain(p, x, caught)
    ensures EvalPlain(Landing(p), x, caught) == EvalPlain(p, x, caught)
  {
    var y := EvalPlain(p, x, caught);
    if y.Val? { assert EvalPlain(Give(f), y.v, caught) == Val(f(y.v)); }
    assert EvalPlain(AndThen(p, q), x, caught) == if y.Bad? then y else EvalPlain(q, y.v, caught);
  }

  // ------------------------------------------------------------ the chain of one failure

  /** A failing program under one propagation after another, innermost first. */
  function Nested(sites: seq<Loc>, p: Prog): Prog {
    if sites == [] then p
    else Try(sites[|sites| - 1], Nested(sites[..|sites| - 1], p), Give(v => v))
  }

  /** A failure opened with room that crosses n propagation sites has recorded the first min(n, 16) of
      them in order, is marked truncated exactly when n > 16, and disturbs no other record. */
  lemma {:induction false} ChainIsRecorded(sites: seq<Loc>, code: int -> int, domain: int, at: Loc, x: int,
                                           caught: Rich, a: Arena)
    requires |a.records| < 16 && 0 < a.nextId
    ensures var (r, a') := EvalRich(Nested(sites, FailWith(code, domain, at)), x, caught, a);
            var kept := if |sites| <= 16 then sites else sites[..16];
            && r == RichBad(Rich(code(x), domain, a.nextId))
            && a' == Arena(a.records + [Record(a.nextId, at, kept, |sites| > 16)], Bump(a.nextId))
    decreases |sites|
  {
    var p := Nested(sites, FailWith(code, domain, at));
    if sites != [] {
      var fewer := sites[..|sites| - 1];
      ChainIsRecorded(fewer, code, domain, at, x, caught, a);
      var (r, a1) := EvalRich(Nested(fewer, FailWith(code, domain, at)), x, caught, a);
      HopOnNewest(a1, a.nextId, sites[|sites| - 1]);
      if |fewer| < MAX_CHAIN {
        assert fewer + [sites[|sites| - 1]] == sites;
      } else {
        assert fewer[..MAX_CHAIN] == sites[..MAX_CHAIN];
        assert |fewer| == MAX_CHAIN ==> fewer == sites[..MAX_CHAIN];
      }
    }
  }

  lemma HopOnNewest(a: Arena, id: nat, loc: Loc)
    requires a.records != [] && a.records[|a.records| - 1].id == id != 0
    ensures AddHop(a, id, loc).records ==
            a.records[..|a.records| - 1] + [Hopped(a.records[|a.records| - 1], loc)]
  {
  }

  // ------------------------------------------------------------ landings and other records

  /** The records of `a` are still there in `b`, each with its handle and origin and the sites it had. */
  ghost predicate Outlasts(a: Arena, b: Arena) {
    && |a.records| <= |b.records|
    && forall i :: 0 <= i < |a.records| ==>
         && b.records[i].id == a.records[i].id && b.records[i].origin == a.records[i].origin
         && a.records[i].hops <= b.records[i].hops && (a.records[i].truncated ==> b.records[i].truncated)
  }

  lemma HopOutlasts(a: Arena, id: nat, loc: Loc)
    ensures Outlasts(a, AddHop(a, id, loc)) && |AddHop(a, id, loc).records| == |a.records|
  {
  }

  lemma OutlastsOn(a: Arena, b: Arena, c: Arena)
    requires Outlasts(a, b) && Outlasts(b, c)
    ensures Outlasts(a, c)
  {
    forall i | 0 <= i < |a.records| ensures a.records[i].hops <= c.records[i].hops {
      assert a.records[i].hops <= b.records[i].hops <= c.records[i].hops;
    }
  }

  /** Whatever a program does, records opened before it keep their handles, origins and sites. */
  lemma {:induction false} RecordsOutlast(p: Prog, x: int, caught: Rich, a: Arena)
    ensures Outlasts(a, EvalRich(p, x, caught, a).1)
    decreases p
  {
    match p
    case Give(_) =>
    case FailWith(_, _, _) =>
    case Again =>
    case Landing(body) => RecordsOutlast(body, x, caught, a);
    case _ =>
      RecordsOutlast(p.first, x, caught, a);
      var (r, a1) := EvalRich(p.first, x, caught, a);
      RestOutlasts(p, x, caught, a, r, a1);
  }

  lemma {:induction false} RestOutlasts(p: Prog, x: int, caught: Rich, a: Arena, r: RichOutcome, a1: Arena)
    requires p.Try? || p.AndThen? || p.Transform? || p.OrElse? || p.TransformError?
    requires EvalRich(p.first, x, caught, a) == (r, a1) && Outlasts(a, a1)
    ensures Outlasts(a, EvalRich(p, x, caught, a).1)
    decreases p, 0
  {
    var a2 := EvalRich(p, x, caught, a).1;
    if (p.Try? || p.AndThen?) && r.RichVal? {
      RecordsOutlast(p.next, r.v, caught, a1);
      OutlastsOn(a, a1, a2);
    } else if p.Try? {
      HopOutlasts(a1, r.e.handle, p.site);
      OutlastsOn(a, a1, a2);
    } else if p.OrElse? && r.RichBad? {
      RecordsOutlast(p.handler, p.view(r.e.code, r.e.domain), r.e, a1);
      OutlastsOn(a, a1, a2);
    } else if p.TransformError? && r.RichBad? {
      assert Outlasts(a1, OpenRecord(a1, p.at));
      OutlastsOn(a, a1, OpenRecord(a1, p.at));
    }
  }

  /** A landing gives its body's result and releases exactly what was opened under it. */
  lemma LandingReleases(p: Prog, x: int, caught: Rich, a: Arena)
    ensures var (r, b) := EvalRich(p, x, caught, a);
            var (r', c) := EvalRich(Landing(p), x, caught, a);
            && r' == r && c.nextId == b.nextId && c.records <= b.records && Outlasts(a, c)
            && |c.records| == |a.records|
  {
    RecordsOutlast(p, x, caught, a);
    var b := EvalRich(p, x, caught, a).1;
    assert |b.records| == |a.records| ==> b.records[..|a.records|] == b.records;
  }

  /** An error a `transform_error` callable builds has a context of its own, opened where it was built; one
      it hands back keeps the context it had. */
  lemma RemappedContext(p: Prog, x: int, caught: Rich, a: Arena, remap: (int, int) -> Remapped, at: Loc)
    requires EvalRich(p, x, caught, a).0.RichBad?
    ensures var (r, b) := EvalRich(p, x, caught, a);
            var (r', c) := EvalRich(TransformError(p, remap, at), x, caught, a);
            var y := remap(r.e.code, r.e.domain);
            && r'.RichBad? && Base(r'.e) == y.e
            && (y.Kept? ==> r'.e.handle == r.e.handle && c == b)
            && (y.Rebuilt? && |b.records| < 16 ==>
                  r'.e.handle == b.nextId && c.records == b.records + [Record(b.nextId, at, [], false)])
  {
  }

  // ------------------------------------------------------------ contexts over whole programs

  /** The error with the number of its failure in place of the handle. */
  datatype Traced = Traced(code: int, domain: int, who: Option<nat>)
  datatype TracedOutcome = TracedVal(v: int) | TracedBad(e: Traced)

  /** What a program does to the store, as operations; the store never decides what the program does. */
  datatype Trace = Trace(r: TracedOutcome, ops: seq<Op>, count: nat)

  function HopOps(e: Traced, site: Loc): seq<Op> {
    if e.who.Some? then [Hop(e.who.value, site)] else []
  }

  function EvalTrace(p: Prog, x: int, caught: Traced, count: nat): Trace {
    match p
    case Give(f) => Trace(TracedVal(f(x)), [], count)
    case FailWith(code, domain, at) =>
      Trace(TracedBad(Traced(code(x), domain, Some(count))), [Open(at)], count + 1)
    case Again => Trace(TracedBad(caught), [], count)
    case Try(site, first, next) =>
      var t := EvalTrace(first, x, caught, count);
      if t.r.TracedBad? then t.(ops := t.ops + HopOps(t.r.e, site))
      else
        var u := EvalTrace(next, t.r.v, caught, t.count);
        u.(ops := t.ops + u.ops)
    case AndThen(first, next) =>
      var t := EvalTrace(first, x, caught, count);
      if t.r.TracedBad? then t
      else
        var u := EvalTrace(next, t.r.v, caught, t.count);
        u.(ops := t.ops + u.ops)
    case Transform(first, f) =>
      var t := EvalTrace(first, x, caught, count);
      if t.r.TracedBad? then t else t.(r := TracedVal(f(t.r.v)))
    case OrElse(first, view, handler) =>
      var t := EvalTrace(first, x, caught, count);
      if t.r.TracedVal? then t
      else
        var u := EvalTrace(handler, view(t.r.e.code, t.r.e.domain), t.r.e, t.count);
        u.(ops := t.ops + u.ops)
    case TransformError(first, remap, at) =>
      var t := EvalTrace(first, x, caught, count);
      if t.r.TracedVal? then t
      else
        (match remap(t.r.e.code, t.r.e.domain)
         case Rebuilt(e) => Trace(TracedBad(Traced(e.code, e.domain, Some(t.count))), t.ops + [Open(at)], t.count + 1)
         case Kept(e) => t.(r := TracedBad(Traced(e.code, e.domain, t.r.e.who))))
    case Landing(body) =>
      var t := EvalTrace(body, x, caught, count);
      t.(ops := [Enter] + t.ops + [Exit])
  }

  function Tag(e: Traced): Rich {
    Rich(e.code, e.domain, if e.who.Some? then Handle(e.who.value) else 0)
  }

  function TagAll(r: TracedOutcome): RichOutcome {
    if r.TracedVal? then RichVal(r.v) else RichBad(Tag(r.e))
  }

  /** The arena after the operations, landings restored. */
  ghost predicate Leads(a: Arena, ops: seq<Op>, a': Arena) {
    forall marks: seq<nat> :: RunConc(Conc(a, marks), ops) == Conc(a', marks)
  }

  lemma LeadsJoin(a: Arena, ops: seq<Op>, b: Arena, more: seq<Op>, c: Arena)
    requires Leads(a, ops, b) && Leads(b, more, c)
    ensures Leads(a, ops + more, c)
  {
    forall marks: seq<nat> ensures RunConc(Conc(a, marks), ops + more) == Conc(c, marks) {
      RunConcAppend(Conc(a, marks), ops, more);
    }
  }

  lemma LeadsOpen(a: Arena, at: Loc)
    ensures Leads(a, [Open(at)], OpenRecord(a, at))
  {
    forall marks: seq<nat> ensures RunConc(Conc(a, marks), [Open(at)]) == Conc(OpenRecord(a, at), marks) {
      assert RunConc(StepConc(Conc(a, marks), Open(at)), []) == Conc(OpenRecord(a, at), marks);
    }
  }

  lemma LeadsHop(a: Arena, e: Traced, site: Loc)
    ensures Leads(a, HopOps(e, site), AddHop(a, Tag(e).handle, site))
  {
    forall marks: seq<nat>
      ensures RunConc(Conc(a, marks), HopOps(e, site)) == Conc(AddHop(a, Tag(e).handle, site), marks)
    {
      if e.who.Some? {
        var c := StepConc(Conc(a, marks), Hop(e.who.value, site));
        assert RunConc(c, []) == c;
      }
    }
  }

  lemma LeadsLanding(a: Arena, ops: seq<Op>, b: Arena)
    requires Leads(a, ops, b)
    ensures Leads(a, [Enter] + ops + [Exit], Truncate(b, |a.records|))
  {
    forall marks: seq<nat>
      ensures RunConc(Conc(a, marks), [Enter] + ops + [Exit]) == Conc(Truncate(b, |a.records|), marks)
    {
      var inner := marks + [|a.records|];
      assert ([Enter] + ops + [Exit])[1..] == ops + [Exit];
      RunConcAppend(Conc(a, inner), ops, [Exit]);
      assert inner[..|marks|] == marks;
      var c := StepConc(Conc(b, inner), Exit);
      assert RunConc(c, []) == c;
    }
  }

  /** The rich run is its trace, carried out on the arena, with handles for failure numbers. */
  lemma {:induction false} RichFollowsTrace(p: Prog, x: int, caught: Traced, count: nat, a: Arena)
    requires a.nextId == Handle(count)
    ensures var t := EvalTrace(p, x, caught, count);
            var (r, a') := EvalRich(p, x, Tag(caught), a);
            r == TagAll(t.r) && a'.nextId == Handle(t.count) && Leads(a, t.ops, a')
    decreases p
  {
    match p
    case Give(_) =>
    case Again =>
    case FailWith(_, _, at) =>
      HandlesFollow(count);
      LeadsOpen(a, at);
    case Landing(body) =>
      RichFollowsTrace(body, x, caught, count, a);
      LeadsLanding(a, EvalTrace(body, x, caught, count).ops, EvalRich(body, x, Tag(caught), a).1);
    case _ =>
      RichFollowsTrace(p.first, x, caught, count, a);
      var t := EvalTrace(p.first, x, caught, count);
      var a1 := EvalRich(p.first, x, Tag(caught), a).1;
      FollowsRest(p, x, caught, count, a, t, a1);
  }

  lemma {:induction false} FollowsRest(p: Prog, x: int, caught: Traced, count: nat, a: Arena, t: Trace, a1: Arena)
    requires p.Try? || p.AndThen? || p.Transform? || p.OrElse? || p.TransformError?
    requires t == EvalTrace(p.first, x, caught, count)
    requires EvalRich(p.first, x, Tag(caught), a) == (TagAll(t.r), a1)
    requires a1.nextId == Handle(t.count) && Leads(a, t.ops, a1)
    ensures var t := EvalTrace(p, x, caught, count);
            var (r, a') := EvalRich(p, x, Tag(caught), a);
            r == TagAll(t.r) && a'.nextId == Handle(t.count) && Leads(a, t.ops, a')
    decreases p, 0
  {
    if (p.Try? || p.AndThen?) && t.r.TracedVal? {
      RichFollowsTrace(p.next, t.r.v, caught, t.count, a1);
      var u := EvalTrace(p.next, t.r.v, caught, t.count);
      LeadsJoin(a, t.ops, a1, u.ops, EvalRich(p.next, t.r.v, Tag(caught), a1).1);
    } else if p.Try? {
      LeadsHop(a1, t.r.e, p.site);
      LeadsJoin(a, t.ops, a1, HopOps(t.r.e, p.site), AddHop(a1, Tag(t.r.e).handle, p.site));
    } else if p.OrElse? && t.r.TracedBad? {
      var y := p.view(t.r.e.code, t.r.e.domain);
      RichFollowsTrace(p.handler, y, t.r.e, t.count, a1);
      var u := EvalTrace(p.handler, y, t.r.e, t.count);
      LeadsJoin(a, t.ops, a1, u.ops, EvalRich(p.handler, y, Tag(t.r.e), a1).1);
    } else if p.TransformError? && t.r.TracedBad? && p.remap(t.r.e.code, t.r.e.domain).Rebuilt? {
      HandlesFollow(t.count);
      LeadsOpen(a1, p.at);
      LeadsJoin(a, t.ops, a1, [Open(p.at)], OpenRecord(a1, p.at));
    }
  }

  /** `inspect`: what the store holds for an error. */
  function Inspect(a: Arena, e: Rich): Option<Record> {
    match Find(a, e.handle)
    case None => None
    case Some(i) => if i < |a.records| then Some(a.records[i]) else None
  }

  /** What inspecting failure `n` reads, with these failures live; `good` when the hops were. */
  ghost predicate Reads(a: Arena, e: Rich, live: seq<Entry>, n: nat, good: bool) {
    && (Find(a, e.handle) == Slot(live, Own(live, n)) <==> NoAlias(live, n))
    && (Inspect(a, e).Some? <==> Newest(live, n).Some?)
    && (good && Newest(live, n).Some? ==> Inspect(a, e) == Some(Shadow(live[Newest(live, n).value])))
  }

  lemma InspectIsFind(a: Arena, e: Rich)
    ensures Inspect(a, e) == match Find(a, e.handle) case None => None case Some(i) => Some(a.records[i])
  {
  }

  lemma InspectReads(ops: seq<Op>, n: nat, e: Rich, c: Conc, live: seq<Entry>)
    requires c == RunConc(FRESH, ops) && live == RunIdeal(NOTHING, ops).live && e.handle == Handle(n)
    ensures Reads(c.arena, e, live, n, GoodHops(NOTHING, ops))
  {
    HandleResolvesIff(ops, n, RunIdeal(NOTHING, ops), c);
    InspectIsFind(c.arena, e);
    if GoodHops(NOTHING, ops) { HandleShowsHistory(ops, n); }
  }

  /** Over every program whatever: inspecting the failure it ends with reads the newest stored live failure
      with its handle, which is that failure itself, or nothing when it was not stored or its landing is
      closed, exactly when no alias stands in for it; and when the hops were good what is read is the whole
      history. */
  lemma InspectShowsOwnHistory(p: Prog, x: int)
    requires var t := EvalTrace(p, x, Traced(0, 0, None), 0); t.r.TracedBad? && t.r.e.who.Some?
    ensures var t := EvalTrace(p, x, Traced(0, 0, None), 0);
            var (r, a) := EvalRich(p, x, Rich(0, 0, 0), Arena([], 1));
            && r == RichBad(Tag(t.r.e))
            && Reads(a, r.e, RunIdeal(NOTHING, t.ops).live, t.r.e.who.value, GoodHops(NOTHING, t.ops))
  {
    var t := EvalTrace(p, x, Traced(0, 0, None), 0);
    RichFollowsTrace(p, x, Traced(0, 0, None), 0, Arena([], 1));
    var (r, a) := EvalRich(p, x, Rich(0, 0, 0), Arena([], 1));
    assert RunConc(FRESH, t.ops) == Conc(a, []);
    InspectReads(t.ops, t.r.e.who.value, r.e, Conc(a, []), RunIdeal(NOTHING, t.ops).live);
  }
}
