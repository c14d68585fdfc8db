/** The resolver as a program of the unwind arm: `resolve_key` opens a scope, the recursion ejects out of it,
    and what the arm's machine makes of that program is the resolver's specified answer. */
module ResolverOnArm {
  import opened Wrappers
  import opened EscapeMachine
  import opened EscapeProtocol
  import opened EscapeRefinement
  import opened Resolver

  /** What the program works on: the `out` buffers of the active `interpolate` calls, the string a call
      returns, the resolver's two fields, and the result `resolve_key` hands back. */
  datatype Env = Env(outs: seq<string>, ret: string, resolving: set<string>, errorKey: string, answer: Answer)

  type Payload = (Kind, nat)

  type Code = Prog<Env, Payload>

  /** The error type's tag and the frame sizes, all arbitrary. */
  datatype Frames = Frames(tag: nat, size: nat, own: nat, drive: nat)

  function Push(e: Env): Env { e.(outs := e.outs + [""]) }

  function Pop(e: Env): Env { e.(outs := if e.outs == [] then [] else e.outs[..|e.outs| - 1]) }

  function Append(e: Env, s: string): Env {
    if e.outs == [] then e else e.(outs := e.outs[..|e.outs| - 1] + [e.outs[|e.outs| - 1] + s])
  }

  function Return(e: Env): Env { if e.outs == [] then e else e.(ret := e.outs[|e.outs| - 1]) }

  function EjectCode(z: Frames, kind: Kind, key: string, depth: nat): Code {
    Call(z.size, Seq(Act((e: Env) => e.(errorKey := key)), Eject(z.tag, (e: Env) => (kind, depth), z.own, z.drive)))
  }

  /** `resolve`. Beyond the depth limit the rest is never reached. */
  function ResolveCode(z: Frames, t: Table, depth: nat, key: string): Code
    requires depth <= MAX_DEPTH + 1
    decreases MAX_DEPTH + 1 - depth, 1, End
  {
    if depth > MAX_DEPTH then Call(z.size, EjectCode(z, TooDeep, key, depth))
    else
      Call(z.size,
        Seq(If((e: Env) => key in e.resolving, EjectCode(z, Cycle, key, depth), Skip),
            Guard(0, Act((e: Env) => e.(resolving := e.resolving - {key})),
              Seq(Act((e: Env) => e.(resolving := e.resolving + {key})),
                  if key in t then TextCode(z, t, depth, t[key]) else EjectCode(z, Missing, key, depth)))))
  }

  /** `interpolate`: its buffer is an automatic object. */
  function TextCode(z: Frames, t: Table, depth: nat, text: string): Code
    requires depth <= MAX_DEPTH
    decreases MAX_DEPTH + 1 - depth, 0, Lit(text, Parse(text, 0))
  {
    Call(z.size,
      Guard(1, Act((e: Env) => Pop(e)),
        Seq(Act((e: Env) => Push(e)),
            Seq(PiecesCode(z, t, depth, Parse(text, 0), text), Act((e: Env) => Return(e))))))
  }

  /** The turns of its loop. */
  function PiecesCode(z: Frames, t: Table, depth: nat, ps: Pieces, text: string): Code
    requires depth <= MAX_DEPTH
    decreases MAX_DEPTH + 1 - depth, 0, ps
  {
    match ps
    case End => Skip
    case Broken => EjectCode(z, Malformed, text, depth)
    case Lit(s, rest) => Seq(Act((e: Env) => Append(e, s)), PiecesCode(z, t, depth, rest, text))
    case Ref(key, rest) =>
      Seq(ResolveCode(z, t, depth + 1, key),
          Seq(Act((e: Env) => Append(e, e.ret)), PiecesCode(z, t, depth, rest, text)))
  }

  function Deliver(e: Env, o: Outcome<Payload>): Env {
    e.(answer := match o
                 case Value => Ok(e.ret)
                 case Error(x) => Fail(Failure(x.0, x.1, e.errorKey)))
  }

  /** `resolve_key`. */
  function KeyCode(z: Frames, lay: Layout<Payload>, t: Table, key: string): Code {
    Scope(z.tag, lay, ResolveCode(z, t, 0, key), Deliver)
  }

  // ------------------------------------------------------------ the code is well behaved

  lemma {:induction false} ResolveBehaves(z: Frames, t: Table, depth: nat, key: string)
    requires depth <= MAX_DEPTH + 1
    ensures WellBehaved(ResolveCode(z, t, depth, key), Some(z.tag))
    decreases MAX_DEPTH + 1 - depth, 1, End
  {
    EjectBehaves(z, TooDeep, key, depth);
    EjectBehaves(z, Cycle, key, depth);
    EjectBehaves(z, Missing, key, depth);
    if depth <= MAX_DEPTH {
      if key in t { TextBehaves(z, t, depth, t[key]); }
      var last := if key in t then TextCode(z, t, depth, t[key]) else EjectCode(z, Missing, key, depth);
      ActGuardBehaves(0, (e: Env) => e.(resolving := e.resolving - {key}),
                      (e: Env) => e.(resolving := e.resolving + {key}), last, z.tag);
      var test: Code := If((e: Env) => key in e.resolving, EjectCode(z, Cycle, key, depth), Skip);
      assert WellBehaved(test, Some(z.tag));
      assert WellBehaved(Seq(test, Guarded(z, t, depth, key)), Some(z.tag));
    }
  }

  lemma ActGuardBehaves(id: nat, gone: Env -> Env, first: Env -> Env, rest: Code, tag: nat)
    requires WellBehaved(rest, Some(tag))
    ensures WellBehaved(Guard(id, Act(gone), Seq(Act(first), rest)), Some(tag))
  {
    assert WellBehaved(Seq(Act(first), rest), Some(tag));
  }

  lemma EjectBehaves(z: Frames, kind: Kind, key: string, depth: nat)
    ensures WellBehaved(EjectCode(z, kind, key, depth), Some(z.tag))
  {
    var eject: Code := Eject(z.tag, (e: Env) => (kind, depth), z.own, z.drive);
    assert WellBehaved(eject, Some(z.tag));
  }

  lemma {:induction false} TextBehaves(z: Frames, t: Table, depth: nat, text: string)
    requires depth <= MAX_DEPTH
    ensures WellBehaved(TextCode(z, t, depth, text), Some(z.tag))
    decreases MAX_DEPTH + 1 - depth, 0, Lit(text, Parse(text, 0))
  {
    PiecesBehave(z, t, depth, Parse(text, 0), text);
    var all := Seq(PiecesCode(z, t, depth, Parse(text, 0), text), Act((e: Env) => Return(e)));
    assert WellBehaved(all, Some(z.tag));
    ActGuardBehaves(1, (e: Env) => Pop(e), (e: Env) => Push(e), all, z.tag);
  }

  lemma {:induction false} PiecesBehave(z: Frames, t: Table, depth: nat, ps: Pieces, text: string)
    requires depth <= MAX_DEPTH
    ensures WellBehaved(PiecesCode(z, t, depth, ps, text), Some(z.tag))
    decreases MAX_DEPTH + 1 - depth, 0, ps
  {
    match ps
    case End =>
    case Broken => EjectBehaves(z, Malformed, text, depth);
    case Lit(_, rest) => PiecesBehave(z, t, depth, rest, text);
    case Ref(key, rest) =>
      ResolveBehaves(z, t, depth + 1, key);
      PiecesBehave(z, t, depth, rest, text);
      var tail: Code := Seq(Act((e: Env) => Append(e, e.ret)), PiecesCode(z, t, depth, rest, text));
      assert WellBehaved(tail, Some(z.tag));
  }

  // ------------------------------------------------------------ one construct at a time

  lemma SeqGives(a: Code, b: Code, here: nat, e: Env, n: nat)
    ensures var x := EvalResults(a, here, e, n);
            var r := EvalResults(Seq(a, b), here, e, n);
            if x.failure.Some? then r == x
            else
              var y := EvalResults(b, here, x.state, x.scopes);
              r.failure == y.failure && r.state == y.state && r.scopes == y.scopes
  {
  }

  lemma ActThen(f: Env -> Env, b: Code, here: nat, e: Env, n: nat)
    ensures var r, y := EvalResults(Seq(Act(f), b), here, e, n), EvalResults(b, here, f(e), n);
            r.failure == y.failure && r.state == y.state && r.scopes == y.scopes
  {
    var act: Code := Act(f);
    assert EvalResults(act, here, e, n).state == f(e);
  }

  lemma GuardGives(id: nat, f: Env -> Env, body: Code, here: nat, e: Env, n: nat)
    ensures var x, r := EvalResults(body, here, e, n), EvalResults(Guard(id, Act(f), body), here, e, n);
            r.failure == x.failure && r.state == f(x.state) && r.scopes == x.scopes
  {
    var x := EvalResults(body, here, e, n);
    var act: Code := Act(f);
    assert EvalResults(act, here, x.state, x.scopes).state == f(x.state);
  }

  lemma EjectGives(z: Frames, kind: Kind, key: string, depth: nat, here: nat, e: Env, n: nat)
    ensures var r := EvalResults(EjectCode(z, kind, key, depth), here, e, n);
            r.failure == Some((kind, depth)) && r.state == e.(errorKey := key) && r.scopes == n
  {
    var eject: Code := Eject(z.tag, (e: Env) => (kind, depth), z.own, z.drive);
    ActThen((e: Env) => e.(errorKey := key), eject, here, e, n);
  }

  // ------------------------------------------------------------ the code computes the answer

  /** The fields are as they were, and the reply and the key left behind are those of the answer. */
  ghost predicate Gives(x: Returned<Env, Payload>, e: Env, n: nat, a: Answer) {
    && x.scopes == n && x.state.outs == e.outs && x.state.resolving == e.resolving && x.state.answer == e.answer
    && match a
       case Ok(text) => x.failure.None? && x.state.ret == text && x.state.errorKey == e.errorKey
       case Fail(why) => x.failure == Some((why.kind, why.depth)) && x.state.errorKey == why.key
  }

  /** The same for the loop, which adds the text to the innermost buffer. */
  ghost predicate GivesPieces(x: Returned<Env, Payload>, e: Env, n: nat, a: Answer)
    requires e.outs != []
  {
    && x.scopes == n && x.state.resolving == e.resolving && x.state.answer == e.answer
    && |x.state.outs| == |e.outs| && x.state.outs[..|e.outs| - 1] == e.outs[..|e.outs| - 1]
    && match a
       case Ok(text) =>
         && x.failure.None? && x.state.errorKey == e.errorKey
         && x.state.outs[|e.outs| - 1] == e.outs[|e.outs| - 1] + text
       case Fail(why) => x.failure == Some((why.kind, why.depth)) && x.state.errorKey == why.key
  }

  lemma {:induction false} ResolveComputes(z: Frames, t: Table, path: seq<string>, key: string, here: nat, e: Env, n: nat)
    requires |path| <= MAX_DEPTH + 1 && e.resolving == KeysOf(path)
    ensures Gives(EvalResults(ResolveCode(z, t, |path|, key), here, e, n), e, n, Resolve(t, path, key))
    decreases MAX_DEPTH + 1 - |path|, 1, End
  {
    var depth := |path|;
    assert key in e.resolving <==> InPath(path, key);
    if depth > MAX_DEPTH {
      EjectGives(z, TooDeep, key, depth, here, e, n);
    } else if key in e.resolving {
      CycleComputes(z, t, depth, key, here, e, n);
    } else {
      KeyComputes(z, t, path, key, here, e, n);
    }
  }

  /** The code of `resolve` behind its first test. */
  function Guarded(z: Frames, t: Table, depth: nat, key: string): Code
    requires depth <= MAX_DEPTH
  {
    Guard(0, Act((e: Env) => e.(resolving := e.resolving - {key})),
      Seq(Act((e: Env) => e.(resolving := e.resolving + {key})),
          if key in t then TextCode(z, t, depth, t[key]) else EjectCode(z, Missing, key, depth)))
  }

  lemma TestGives(z: Frames, t: Table, depth: nat, key: string, here: nat, e: Env, n: nat)
    requires depth <= MAX_DEPTH
    ensures var r := EvalResults(ResolveCode(z, t, depth, key), here, e, n);
            if key in e.resolving then r == EvalResults(EjectCode(z, Cycle, key, depth), here, e, n)
            else
              var y := EvalResults(Guarded(z, t, depth, key), here, e, n);
              r.failure == y.failure && r.state == y.state && r.scopes == y.scopes
  {
    var test: Code := If((e: Env) => key in e.resolving, EjectCode(z, Cycle, key, depth), Skip);
    SeqGives(test, Guarded(z, t, depth, key), here, e, n);
    EjectGives(z, Cycle, key, depth, here, e, n);
    var x := EvalResults(test, here, e, n);
    if key in e.resolving {
      assert x == EvalResults(EjectCode(z, Cycle, key, depth), here, e, n);
    } else {
      assert x == EvalResults(Skip, here, e, n);
    }
    assert ResolveCode(z, t, depth, key) == Call(z.size, Seq(test, Guarded(z, t, depth, key)));
  }

  lemma CycleComputes(z: Frames, t: Table, depth: nat, key: string, here: nat, e: Env, n: nat)
    requires depth <= MAX_DEPTH && key in e.resolving
    ensures Gives(EvalResults(ResolveCode(z, t, depth, key), here, e, n), e, n, Fail(Failure(Cycle, depth, key)))
  {
    TestGives(z, t, depth, key, here, e, n);
    EjectGives(z, Cycle, key, depth, here, e, n);
  }

  lemma {:induction false} KeyComputes(z: Frames, t: Table, path: seq<string>, key: string, here: nat, e: Env, n: nat)
    requires |path| <= MAX_DEPTH && e.resolving == KeysOf(path) && !InPath(path, key) && key !in e.resolving
    ensures Gives(EvalResults(ResolveCode(z, t, |path|, key), here, e, n), e, n, Resolve(t, path, key))
    decreases MAX_DEPTH + 1 - |path|, 0, Lit("", Lit(if key in t then t[key] else "", Parse(if key in t then t[key] else "", 0)))
  {
    var depth := |path|;
    TestGives(z, t, depth, key, here, e, n);
    var e1 := e.(resolving := e.resolving + {key});
    var insert, erase := (e: Env) => e.(resolving := e.resolving + {key}), (e: Env) => e.(resolving := e.resolving - {key});
    var last := if key in t then TextCode(z, t, depth, t[key]) else EjectCode(z, Missing, key, depth);
    GuardGives(0, erase, Seq(Act(insert), last), here, e, n);
    ActThen(insert, last, here, e, n);
    assert e1.resolving - {key} == e.resolving;
    KeysGrow(path, key);
    if key in t {
      TextComputes(z, t, path + [key], t[key], here, e1, n);
    } else {
      EjectGives(z, Missing, key, depth, here, e1, n);
    }
  }

  lemma KeysGrow(path: seq<string>, key: string)
    ensures KeysOf(path + [key]) == KeysOf(path) + {key}
  {
    assert forall i :: 0 <= i < |path| ==> (path + [key])[i] == path[i];
    assert (path + [key])[|path|] == key;
  }

  lemma {:induction false} TextComputes(z: Frames, t: Table, path: seq<string>, text: string, here: nat, e: Env, n: nat)
    requires 0 < |path| <= MAX_DEPTH + 1 && e.resolving == KeysOf(path)
    ensures Gives(EvalResults(TextCode(z, t, |path| - 1, text), here, e, n), e, n,
                  Interpolate(t, path, Parse(text, 0), text))
    decreases MAX_DEPTH + 2 - |path|, 0, Lit(text, Parse(text, 0))
  {
    var pieces := PiecesCode(z, t, |path| - 1, Parse(text, 0), text);
    var push, pop, ret := (e: Env) => Push(e), (e: Env) => Pop(e), (e: Env) => Return(e);
    var e1 := Push(e);
    GuardGives(1, pop, Seq(Act(push), Seq(pieces, Act(ret))), here, e, n);
    ActThen(push, Seq(pieces, Act(ret)), here, e, n);
    SeqGives(pieces, Act(ret), here, e1, n);
    PiecesCompute(z, t, path, Parse(text, 0), text, here, e1, n);
    BufferReturns(e, EvalResults(pieces, here, e1, n), Interpolate(t, path, Parse(text, 0), text), n);
    var x := EvalResults(pieces, here, e1, n);
    var act: Code := Act(ret);
    if x.failure.None? { assert EvalResults(act, here, x.state, x.scopes).state == Return(x.state); }
  }

  /** The buffer is returned and popped. */
  lemma BufferReturns(e: Env, x: Returned<Env, Payload>, a: Answer, n: nat)
    requires GivesPieces(x, Push(e), n, a)
    ensures Pop(x.state).outs == e.outs && Pop(Return(x.state)).outs == e.outs
    ensures a.Ok? ==> Return(x.state).ret == a.text
  {
    assert Push(e).outs[..|e.outs|] == e.outs;
    if a.Ok? { assert "" + a.text == a.text; }
  }

  lemma {:induction false} PiecesCompute(z: Frames, t: Table, path: seq<string>, ps: Pieces, text: string, here: nat,
                                         e: Env, n: nat)
    requires 0 < |path| <= MAX_DEPTH + 1 && e.resolving == KeysOf(path) && e.outs != []
    ensures GivesPieces(EvalResults(PiecesCode(z, t, |path| - 1, ps, text), here, e, n), e, n,
                        Interpolate(t, path, ps, text))
    decreases MAX_DEPTH + 2 - |path|, 0, ps
  {
    var depth := |path| - 1;
    match ps
    case End => assert e.outs[|e.outs| - 1] + "" == e.outs[|e.outs| - 1];
    case Broken => EjectGives(z, Malformed, text, depth, here, e, n);
    case Lit(s, rest) =>
      ActThen((e: Env) => Append(e, s), PiecesCode(z, t, depth, rest, text), here, e, n);
      PiecesCompute(z, t, path, rest, text, here, Append(e, s), n);
      Appended(e, s, EvalResults(PiecesCode(z, t, depth, rest, text), here, Append(e, s), n),
               Interpolate(t, path, rest, text), n);
    case Ref(key, rest) => RefComputes(z, t, path, key, rest, text, here, e, n);
  }

  /** Text in front of what the rest of the loop adds. */
  lemma Appended(e: Env, s: string, y: Returned<Env, Payload>, a: Answer, n: nat)
    requires e.outs != [] && GivesPieces(y, Append(e, s), n, a)
    ensures GivesPieces(y, e, n, Prepend(s, a))
  {
    var last := |e.outs| - 1;
    assert Append(e, s).outs[..last] == e.outs[..last];
    if a.Ok? { assert (e.outs[last] + s) + a.text == e.outs[last] + (s + a.text); }
  }

  lemma {:induction false} RefComputes(z: Frames, t: Table, path: seq<string>, key: string, rest: Pieces, text: string,
                                       here: nat, e: Env, n: nat)
    requires 0 < |path| <= MAX_DEPTH + 1 && e.resolving == KeysOf(path) && e.outs != []
    ensures GivesPieces(EvalResults(PiecesCode(z, t, |path| - 1, Ref(key, rest), text), here, e, n), e, n,
                        Interpolate(t, path, Ref(key, rest), text))
    decreases MAX_DEPTH + 2 - |path|, 0, Ref(key, rest), 0
  {
    var depth := |path| - 1;
    var first, more := ResolveCode(z, t, |path|, key), PiecesCode(z, t, depth, rest, text);
    var take := (e: Env) => Append(e, e.ret);
    ResolveComputes(z, t, path, key, here, e, n);
    var x := EvalResults(first, here, e, n);
    SeqGives(first, Seq(Act(take), more), here, e, n);
    if x.failure.None? {
      var e1 := Append(x.state, x.state.ret);
      ActThen(take, more, here, x.state, n);
      PiecesCompute(z, t, path, rest, text, here, e1, n);
      Appended(x.state, x.state.ret, EvalResults(more, here, e1, n), Interpolate(t, path, rest, text), n);
    }
  }

  /** `resolve_key`, run on the arm with its carriers, addresses and forced unwind, on any stack and with
      any frame sizes: it returns, hands back exactly the specified answer, leaves the offending key, and
      the path set and the buffers are as they were. */
  lemma ArmResolves(tid: nat, base: int, heap: map<Addr, Carrier<Payload>>, z: Frames, lay: Layout<Payload>, t: Table,
                    key: string, e: Env)
    requires Unused(heap, tid) && e.resolving == {}
    ensures var r := Run(Init(tid, base, KeyCode(z, lay, t, key), e, heap));
            var a := Resolve(t, [], key);
            && r.mode.Returning? && r.heap == heap
            && r.state.answer == a && r.state.resolving == {} && r.state.outs == e.outs
            && r.state.errorKey == if a.Fail? then a.why.key else e.errorKey
  {
    ResolveBehaves(z, t, 0, key);
    ArmRefinesResults(tid, base, KeyCode(z, lay, t, key), e, heap);
    assert KeysOf([]) == {};
    ResolveComputes(z, t, [], key, 0, e, 1);
  }
}
