/** The single-header generator: a recursive walk over the include graph that shares one set of visited
    headers and one output list. */
module Amalgamate {
  import opened Wrappers
  import opened Sequences
  import opened TextLines

  type Path = string

  /** A line of a header: text to copy (system includes among it), or an include of a local header, given
      by the file it resolves to. */
  datatype Line = Text(text: string) | Include(target: Path)

  type Files = map<Path, seq<Line>>

  /** A line of the output with its origin: the provenance line of a header, or one of its own lines. */
  datatype Item = From(header: Path) | Body(header: Path, index: nat, text: string)

  function TextOf(x: Item): string {
    match x
    case From(h) => "// from " + h
    case Body(_, _, t) => t
  }

  function Texts(s: seq<Item>): seq<string> {
    seq(|s|, i requires 0 <= i < |s| => TextOf(s[i]))
  }

  /** What a walk ends with: the headers visited and the lines put out, or the file that was not there. */
  datatype Outcome = Done(visited: set<Path>, items: seq<Item>) | Missing(path: Path)

  function After(front: seq<Item>, r: Outcome): Outcome {
    match r
    case Done(v, items) => Done(v, front + items)
    case Missing(_) => r
  }

  // ------------------------------------------------------------ the walk

  function Inline(f: Files, p: Path, visited: set<Path>): (r: Outcome)
    ensures r.Done? ==> visited <= r.visited
    decreases f.Keys - visited, if p in f then |f[p]| + 2 else 0
  {
    if p in f then After([From(p)], Lines(f, p, 0, visited)) else Missing(p)
  }

  /** The lines of `p` from the `i`-th on. */
  function Lines(f: Files, p: Path, i: nat, visited: set<Path>): (r: Outcome)
    requires p in f && i <= |f[p]|
    ensures r.Done? ==> visited <= r.visited
    decreases f.Keys - visited, |f[p]| - i + 1
  {
    if i == |f[p]| then Done(visited, [])
    else match f[p][i]
      case Text(t) => After([Body(p, i, t)], Lines(f, p, i + 1, visited))
      case Include(q) =>
        if q in visited then Lines(f, p, i + 1, visited)
        else
          var r := Inline(f, q, visited + {q});
          if r.Missing? then r else After(r.items, Lines(f, p, i + 1, r.visited))
  }

  /** The roots from the `i`-th on. */
  function Roots(f: Files, roots: seq<Path>, i: nat, visited: set<Path>): (r: Outcome)
    requires i <= |roots|
    decreases |roots| - i
  {
    if i == |roots| then Done(visited, [])
    else if roots[i] in visited then Roots(f, roots, i + 1, visited)
    else
      var r := Inline(f, roots[i], visited + {roots[i]});
      if r.Missing? then r else After(r.items, Roots(f, roots, i + 1, r.visited))
  }

  lemma AfterTwice(a: seq<Item>, b: seq<Item>, r: Outcome)
    ensures After(a, After(b, r)) == After(a + b, r)
  {
    if r.Done? { assert a + (b + r.items) == (a + b) + r.items; }
  }

  lemma TextsJoin(a: seq<Item>, b: seq<Item>)
    ensures Texts(a + b) == Texts(a) + Texts(b)
  {
  }

  /** The generator's shared state. */
  class Walker {
    const files: Files
    var visited: set<Path>
    var out: seq<string>
    ghost var items: seq<Item>

    ghost predicate Valid()
      reads this
    {
      out == Texts(items)
    }

    constructor (files: Files)
      ensures this.files == files && Valid() && visited == {} && items == []
    {
      this.files := files;
      visited, out, items := {}, [], [];
    }

    method Put(text: string, ghost x: Item)
      requires Valid() && TextOf(x) == text
      modifies this`out, this`items
      ensures Valid() && items == old(items) + [x] && out == old(out) + [text]
    {
      TextsJoin(items, [x]);
      out := out + [text];
      items := items + [x];
    }

    /** `inline`: what it adds is what the walk says, and the set it leaves is the walk's. */
    method InlineHeader(p: Path) returns (missing: Option<Path>)
      requires Valid()
      modifies this`visited, this`out, this`items
      ensures Valid() && old(visited) <= visited
      ensures match missing
              case None => After(old(items), Inline(files, p, old(visited))) == Done(visited, items)
              case Some(m) => Inline(files, p, old(visited)) == Missing(m)
      decreases files.Keys - visited, if p in files then |files[p]| + 2 else 0
    {
      Put("// from " + p, From(p));
      if p !in files { return Some(p); }
      var lines := files[p];
      ghost var start, before := visited, items;
      ghost var whole := After(before, Lines(files, p, 0, start));
      AfterTwice(old(items), [From(p)], Lines(files, p, 0, start));
      for i := 0 to |lines|
        invariant Valid() && old(visited) <= visited
        invariant After(items, Lines(files, p, i, visited)) == whole
      {
        missing := OneLine(p, i, whole);
        if missing.Some? { return; }
      }
      return None;
    }

    /** One turn of the loop over a header's lines. */
    method OneLine(p: Path, i: nat, ghost whole: Outcome) returns (missing: Option<Path>)
      requires Valid() && p in files && i < |files[p]|
      requires After(items, Lines(files, p, i, visited)) == whole
      modifies this`visited, this`out, this`items
      ensures Valid() && old(visited) <= visited
      ensures match missing
              case None => After(items, Lines(files, p, i + 1, visited)) == whole
              case Some(m) => whole == Missing(m)
      decreases files.Keys - visited, |files[p]| - i + 1
    {
      match files[p][i]
      case Text(t) =>
        AfterTwice(items, [Body(p, i, t)], Lines(files, p, i + 1, visited));
        Put(t, Body(p, i, t));
        return None;
      case Include(q) =>
        if q in visited { return None; }
        ghost var before, r := items, Inline(files, q, visited + {q});
        visited := visited + {q};
        missing := InlineHeader(q);
        if missing.None? { AfterTwice(before, r.items, Lines(files, p, i + 1, visited)); }
    }
  }

  /** The file around a body: the notice on top, and one include guard. */
  function Wrapped(notice: seq<string>, guard: string, body: seq<string>): seq<string> {
    notice + ["#ifndef " + guard, "#define " + guard, ""] + body + ["", "#endif  // " + guard, ""]
  }

  /** The guard opens right behind the notice and closes right behind the body, and nothing else is added. */
  lemma WrappedMeans(notice: seq<string>, guard: string, body: seq<string>)
    ensures var w, n, m := Wrapped(notice, guard, body), |notice|, |notice| + 3 + |body|;
            && |w| == m + 3 && w[..n] == notice && w[n + 3..m] == body
            && w[n] == "#ifndef " + guard && w[n + 1] == "#define " + guard && w[n + 2] == ""
            && w[m] == "" && w[m + 1] == "#endif  // " + guard && w[m + 2] == ""
  {
  }

  /** `amalgamate`. The notice is the fixed comment lines and the title. */
  method Amalgamated(f: Files, roots: seq<Path>, notice: seq<string>, guard: string)
    returns (text: string, missing: Option<Path>)
    ensures match missing
            case None =>
              && Roots(f, roots, 0, {}).Done?
              && text == Terminated(Wrapped(notice, guard, Texts(Roots(f, roots, 0, {}).items)))
            case Some(m) => Roots(f, roots, 0, {}) == Missing(m)
  {
    var body;
    body, missing := WalkRoots(f, roots);
    text := if missing.Some? then "" else Terminated(Wrapped(notice, guard, body));
  }

  /** Its loop over the roots. */
  method WalkRoots(f: Files, roots: seq<Path>) returns (body: seq<string>, missing: Option<Path>)
    ensures match missing
            case None => Roots(f, roots, 0, {}).Done? && body == Texts(Roots(f, roots, 0, {}).items)
            case Some(m) => Roots(f, roots, 0, {}) == Missing(m)
  {
    var w := new Walker(f);
    ghost var whole := Roots(f, roots, 0, {});
    for i := 0 to |roots|
      invariant w.Valid() && w.files == f
      invariant After(w.items, Roots(f, roots, i, w.visited)) == whole
    {
      var target := roots[i];
      if target !in w.visited {
        ghost var before, r := w.items, Inline(f, target, w.visited + {target});
        w.visited := w.visited + {target};
        missing := w.InlineHeader(target);
        if missing.Some? { return [], missing; }
        AfterTwice(before, r.items, Roots(f, roots, i + 1, w.visited));
      }
    }
    return w.out, None;
  }

  // ------------------------------------------------------------ reachability

  ghost predicate Includes(f: Files, p: Path, q: Path) {
    p in f && Include(q) in f[p]
  }

  ghost predicate IsWalk(f: Files, w: seq<Path>) {
    w != [] && forall i :: 0 < i < |w| ==> Includes(f, w[i - 1], w[i])
  }

  /** A chain of includes leads from one header to the other. */
  ghost predicate Reaches(f: Files, p: Path, q: Path) {
    exists w :: IsWalk(f, w) && w[0] == p && w[|w| - 1] == q
  }

  ghost predicate FromRoots(f: Files, roots: seq<Path>, h: Path) {
    exists i :: 0 <= i < |roots| && Reaches(f, roots[i], h)
  }

  lemma ReachesSelf(f: Files, p: Path)
    ensures Reaches(f, p, p)
  {
    assert IsWalk(f, [p]);
  }

  lemma ReachesVia(f: Files, p: Path, q: Path, h: Path)
    requires Includes(f, p, q) && Reaches(f, q, h)
    ensures Reaches(f, p, h)
  {
    var w :| IsWalk(f, w) && w[0] == q && w[|w| - 1] == h;
    assert IsWalk(f, [p] + w);
  }

  /** A set closed under includes keeps whatever its members reach. */
  lemma {:induction false} ClosedKeeps(f: Files, s: set<Path>, w: seq<Path>)
    requires IsWalk(f, w) && w[0] in s
    requires forall p, q :: p in s && Includes(f, p, q) ==> q in s
    ensures w[|w| - 1] in s
    decreases |w|
  {
    if |w| > 1 {
      var less := w[..|w| - 1];
      assert IsWalk(f, less);
      ClosedKeeps(f, s, less);
      assert Includes(f, w[|w| - 2], w[|w| - 1]);
    }
  }

  // ------------------------------------------------------------ every reachable header, once

  /** The part of an output that comes from one header. */
  function Project(s: seq<Item>, h: Path): seq<Item> {
    if s == [] then [] else (if s[0].header == h then [s[0]] else []) + Project(s[1..], h)
  }

  function OwnFrom(f: Files, h: Path, i: nat): seq<Item>
    requires h in f && i <= |f[h]|
    decreases |f[h]| - i
  {
    if i == |f[h]| then []
    else (match f[h][i] case Text(t) => [Body(h, i, t)] case Include(_) => []) + OwnFrom(f, h, i + 1)
  }

  /** All a header contributes: its provenance line and its text lines, in order. */
  function Own(f: Files, h: Path): seq<Item> {
    if h in f then [From(h)] + OwnFrom(f, h, 0) else []
  }

  /** The text lines of a header, its local includes left out. */
  function TextLinesOf(lines: seq<Line>): seq<string> {
    if lines == [] then [] else (if lines[0].Text? then [lines[0].text] else []) + TextLinesOf(lines[1..])
  }

  lemma {:induction false} OwnFromTexts(f: Files, h: Path, i: nat)
    requires h in f && i <= |f[h]|
    ensures Texts(OwnFrom(f, h, i)) == TextLinesOf(f[h][i..])
    decreases |f[h]| - i
  {
    if i < |f[h]| {
      var rest := OwnFrom(f, h, i + 1);
      OwnFromTexts(f, h, i + 1);
      assert f[h][i..][0] == f[h][i] && f[h][i..][1..] == f[h][i + 1..];
      match f[h][i]
      case Text(t) =>
        TextsJoin([Body(h, i, t)], rest);
        assert Texts([Body(h, i, t)]) == [t];
      case Include(_) => assert [] + rest == rest;
    }
  }

  /** As text a header contributes one line saying where it is from, and its text lines as they are. */
  lemma OwnTexts(f: Files, h: Path)
    requires h in f
    ensures Texts(Own(f, h)) == ["// from " + h] + TextLinesOf(f[h])
  {
    OwnFromTexts(f, h, 0);
    TextsJoin([From(h)], OwnFrom(f, h, 0));
    assert f[h][0..] == f[h];
    assert Texts([From(h)]) == ["// from " + h];
  }

  lemma {:induction false} ProjectJoins(a: seq<Item>, b: seq<Item>, h: Path)
    ensures Project(a + b, h) == Project(a, h) + Project(b, h)
    decreases |a|
  {
    if a == [] {
      assert a + b == b;
    } else {
      var less := a[1..];
      assert (a + b)[0] == a[0] && (a + b)[1..] == less + b;
      ProjectJoins(less, b, h);
      Reassociate(if a[0].header == h then [a[0]] else [], Project(less, h), Project(b, h));
    }
  }

  lemma {:induction false} InlineEmits(f: Files, p: Path, visited: set<Path>, h: Path)
    requires p in visited
    ensures var r := Inline(f, p, visited);
            r.Done? ==> Project(r.items, h) == if h == p || h in r.visited - visited then Own(f, h) else []
    decreases f.Keys - visited, if p in f then |f[p]| + 2 else 0
  {
    if p in f {
      LinesEmit(f, p, 0, visited, h);
      var r := Lines(f, p, 0, visited);
      if r.Done? { ProjectJoins([From(p)], r.items, h); }
    }
  }

  /** What the lines of `p` from the `i`-th on, walked with `v0` visited, put out for `h`. */
  ghost predicate Emits(f: Files, p: Path, i: nat, v0: set<Path>, r: Outcome, h: Path)
    requires p in f && i <= |f[p]|
  {
    r.Done? ==>
      Project(r.items, h)
      == if h == p then OwnFrom(f, p, i) else if h in r.visited - v0 then Own(f, h) else []
  }

  lemma {:induction false} LinesEmit(f: Files, p: Path, i: nat, visited: set<Path>, h: Path)
    requires p in f && i <= |f[p]| && p in visited
    ensures Emits(f, p, i, visited, Lines(f, p, i, visited), h)
    decreases f.Keys - visited, |f[p]| - i + 1
  {
    if i < |f[p]| {
      match f[p][i]
      case Text(t) =>
        LinesEmit(f, p, i + 1, visited, h);
        TextEmits(f, p, i, t, visited, Lines(f, p, i + 1, visited), h);
      case Include(q) =>
        if q in visited {
          LinesEmit(f, p, i + 1, visited, h);
          SameDuty(f, p, i, visited, Lines(f, p, i + 1, visited), h);
        } else {
          var r := Inline(f, q, visited + {q});
          InlineEmits(f, q, visited + {q}, h);
          if r.Done? {
            LinesEmit(f, p, i + 1, r.visited, h);
            IncludeEmits(f, p, i, q, visited, r, Lines(f, p, i + 1, r.visited), h);
          }
        }
    }
  }

  lemma TextEmits(f: Files, p: Path, i: nat, t: string, v0: set<Path>, r: Outcome, h: Path)
    requires p in f && i < |f[p]| && f[p][i] == Text(t) && Emits(f, p, i + 1, v0, r, h)
    ensures Emits(f, p, i, v0, After([Body(p, i, t)], r), h)
  {
    if r.Done? { ProjectJoins([Body(p, i, t)], r.items, h); }
  }

  lemma SameDuty(f: Files, p: Path, i: nat, v0: set<Path>, r: Outcome, h: Path)
    requires p in f && i < |f[p]| && f[p][i].Include? && Emits(f, p, i + 1, v0, r, h)
    ensures Emits(f, p, i, v0, r, h)
  {
  }

  /** An included header, then the rest of the lines. */
  lemma IncludeEmits(f: Files, p: Path, i: nat, q: Path, v0: set<Path>, r: Outcome, rest: Outcome, h: Path)
    requires p in f && i < |f[p]| && f[p][i] == Include(q) && p in v0 && q !in v0
    requires r.Done? && v0 + {q} <= r.visited && (rest.Done? ==> r.visited <= rest.visited)
    requires Project(r.items, h) == if h == q || h in r.visited - (v0 + {q}) then Own(f, h) else []
    requires Emits(f, p, i + 1, r.visited, rest, h)
    ensures Emits(f, p, i, v0, After(r.items, rest), h)
  {
    if rest.Done? { ProjectJoins(r.items, rest.items, h); }
  }

  /** Every header in `s` but not in `s0` exists, and all it includes is in `s`. */
  ghost predicate ClosedAbove(f: Files, s0: set<Path>, s: set<Path>) {
    forall p :: p in s && p !in s0 ==> p in f && forall q :: Includes(f, p, q) ==> q in s
  }

  lemma {:induction false} InlineCloses(f: Files, p: Path, visited: set<Path>)
    ensures var r := Inline(f, p, visited);
            match r
            case Missing(m) => m !in f && Reaches(f, p, m)
            case Done(v, _) =>
              && p in f && ClosedAbove(f, visited, v) && (forall q :: Includes(f, p, q) ==> q in v)
              && (forall h :: h in v && h !in visited ==> Reaches(f, p, h))
    decreases f.Keys - visited, if p in f then |f[p]| + 2 else 0
  {
    if p in f {
      LinesClose(f, p, 0, visited);
      forall q | Includes(f, p, q) && Lines(f, p, 0, visited).Done?
        ensures q in Lines(f, p, 0, visited).visited
      {
        var k :| 0 <= k < |f[p]| && f[p][k] == Include(q);
      }
    } else {
      ReachesSelf(f, p);
    }
  }

  lemma {:induction false} LinesClose(f: Files, p: Path, i: nat, visited: set<Path>)
    requires p in f && i <= |f[p]|
    ensures var r := Lines(f, p, i, visited);
            match r
            case Missing(m) => m !in f && Reaches(f, p, m)
            case Done(v, _) =>
              && ClosedAbove(f, visited, v)
              && (forall k :: i <= k < |f[p]| && f[p][k].Include? ==> f[p][k].target in v)
              && (forall h :: h in v && h !in visited ==> Reaches(f, p, h))
    decreases f.Keys - visited, |f[p]| - i + 1
  {
    if i < |f[p]| {
      match f[p][i]
      case Text(t) => LinesClose(f, p, i + 1, visited);
      case Include(q) =>
        if q in visited {
          LinesClose(f, p, i + 1, visited);
        } else {
          var r := Inline(f, q, visited + {q});
          InlineCloses(f, q, visited + {q});
          assert Includes(f, p, q);
          ReachesSelf(f, q);
          forall h | Reaches(f, q, h) ensures Reaches(f, p, h) { ReachesVia(f, p, q, h); }
          if r.Done? { LinesClose(f, p, i + 1, r.visited); }
        }
    }
  }

  lemma {:induction false} RootsClose(f: Files, roots: seq<Path>, i: nat, visited: set<Path>)
    requires i <= |roots| && ClosedAbove(f, {}, visited)
    ensures var r := Roots(f, roots, i, visited);
            match r
            case Missing(m) => m !in f && FromRoots(f, roots, m)
            case Done(v, _) =>
              && visited <= v && ClosedAbove(f, {}, v)
              && (forall k :: i <= k < |roots| ==> roots[k] in v)
              && (forall h :: h in v && h !in visited ==> FromRoots(f, roots, h))
    decreases |roots| - i
  {
    if i < |roots| {
      var t := roots[i];
      if t in visited {
        RootsClose(f, roots, i + 1, visited);
      } else {
        var r := Inline(f, t, visited + {t});
        InlineCloses(f, t, visited + {t});
        ReachesSelf(f, t);
        if r.Done? { RootsClose(f, roots, i + 1, r.visited); }
      }
    }
  }

  lemma {:induction false} RootsEmit(f: Files, roots: seq<Path>, i: nat, visited: set<Path>, h: Path)
    requires i <= |roots|
    ensures var r := Roots(f, roots, i, visited);
            r.Done? ==> visited <= r.visited
                        && Project(r.items, h) == if h in r.visited - visited then Own(f, h) else []
    decreases |roots| - i
  {
    if i < |roots| {
      var t := roots[i];
      if t in visited {
        RootsEmit(f, roots, i + 1, visited, h);
      } else {
        var r := Inline(f, t, visited + {t});
        InlineEmits(f, t, visited + {t}, h);
        if r.Done? {
          RootsEmit(f, roots, i + 1, r.visited, h);
          var rest := Roots(f, roots, i + 1, r.visited);
          if rest.Done? { ProjectJoins(r.items, rest.items, h); }
        }
      }
    }
  }

  /** The visited set at the end is what the roots reach. */
  lemma VisitsReachable(f: Files, roots: seq<Path>, h: Path)
    ensures var r := Roots(f, roots, 0, {});
            r.Done? ==> (h in r.visited <==> FromRoots(f, roots, h)) && (h in r.visited ==> h in f)
  {
    RootsClose(f, roots, 0, {});
    var r := Roots(f, roots, 0, {});
    if r.Done? && FromRoots(f, roots, h) {
      var i :| 0 <= i < |roots| && Reaches(f, roots[i], h);
      var w :| IsWalk(f, w) && w[0] == roots[i] && w[|w| - 1] == h;
      ClosedKeeps(f, r.visited, w);
    }
  }

  /** On every include graph, cyclic ones too, the generator succeeds exactly when every header the roots
      reach exists; a failure names a reachable header that does not. */
  lemma SucceedsIffAllExist(f: Files, roots: seq<Path>)
    ensures var r := Roots(f, roots, 0, {});
            && (r.Done? <==> forall u :: FromRoots(f, roots, u) ==> u in f)
            && (r.Missing? ==> FromRoots(f, roots, r.path) && r.path !in f)
  {
    RootsClose(f, roots, 0, {});
    forall u ensures Roots(f, roots, 0, {}).Done? && FromRoots(f, roots, u) ==> u in f {
      VisitsReachable(f, roots, u);
    }
  }

  /** The output holds the lines of each reachable header once, in order, and of no other header. */
  lemma EachReachableOnce(f: Files, roots: seq<Path>, h: Path)
    ensures var r := Roots(f, roots, 0, {});
            r.Done? ==> Project(r.items, h) == if FromRoots(f, roots, h) then Own(f, h) else []
  {
    VisitsReachable(f, roots, h);
    RootsEmit(f, roots, 0, {}, h);
  }

  // ------------------------------------------------------------ include-once expansion

  /** No header reaches one that includes it. */
  ghost predicate Acyclic(f: Files) {
    forall p, q :: Includes(f, p, q) ==> !Reaches(f, q, p)
  }

  ghost function Below(f: Files, p: Path): set<Path> {
    set q | q in f.Keys && Reaches(f, p, q)
  }

  /** How many headers a header reaches. */
  ghost function Rank(f: Files, p: Path): nat { |Below(f, p)| }

  /** In an acyclic graph every include of an existing header goes down. */
  lemma Lower(f: Files, p: Path, q: Path)
    requires Acyclic(f) && Includes(f, p, q) && q in f
    ensures Rank(f, q) < Rank(f, p)
  {
    var a, b := Below(f, q), Below(f, p);
    forall h | h in a ensures h in b { ReachesVia(f, p, q, h); }
    ReachesSelf(f, p);
    assert p in b && p !in a;
    Smaller(a, b);
  }

  lemma Smaller(a: set<Path>, b: set<Path>)
    requires a < b
    ensures |a| < |b|
  {
    assert |b - a| > 0 && b == a + (b - a);
  }

  /** Full expansion: every include replaced by the whole expansion of its header, every time. */
  ghost function Expand(f: Files, p: Path): seq<Item>
    requires Acyclic(f)
    decreases Rank(f, p), if p in f then |f[p]| + 1 else 0
  {
    if p in f then [From(p)] + ExpandLines(f, p, 0) else []
  }

  ghost function ExpandLines(f: Files, p: Path, i: nat): seq<Item>
    requires Acyclic(f) && p in f && i <= |f[p]|
    decreases Rank(f, p), |f[p]| - i
  {
    if i == |f[p]| then []
    else match f[p][i]
      case Text(t) => [Body(p, i, t)] + ExpandLines(f, p, i + 1)
      case Include(q) =>
        assert Includes(f, p, q);
        (if q in f then Lower(f, p, q); Expand(f, q) else []) + ExpandLines(f, p, i + 1)
  }

  ghost function ExpandRoots(f: Files, roots: seq<Path>, i: nat): seq<Item>
    requires Acyclic(f) && i <= |roots|
    decreases |roots| - i
  {
    if i == |roots| then [] else Expand(f, roots[i]) + ExpandRoots(f, roots, i + 1)
  }

  /** The first occurrence of each line not yet seen. */
  ghost function Firsts(seen: set<Item>, s: seq<Item>): seq<Item>
    decreases |s|
  {
    if s == [] then []
    else if s[0] in seen then Firsts(seen, s[1..])
    else [s[0]] + Firsts(seen + {s[0]}, s[1..])
  }

  ghost function Elems(s: seq<Item>): set<Item> {
    set x | x in s
  }

  lemma {:induction false} FirstsJoin(seen: set<Item>, a: seq<Item>, b: seq<Item>)
    ensures Firsts(seen, a + b) == Firsts(seen, a) + Firsts(seen + Elems(a), b)
    decreases |a|
  {
    if a == [] {
      assert a + b == b && seen + Elems(a) == seen;
    } else {
      assert (a + b)[0] == a[0] && (a + b)[1..] == a[1..] + b;
      var next := if a[0] in seen then seen else seen + {a[0]};
      FirstsJoin(next, a[1..], b);
      assert a == [a[0]] + a[1..];
      assert next + Elems(a[1..]) == seen + Elems(a);
    }
  }

  lemma {:induction false} FirstsOfSeen(seen: set<Item>, s: seq<Item>)
    requires Elems(s) <= seen
    ensures Firsts(seen, s) == []
    decreases |s|
  {
    if s != [] {
      assert s[0] in Elems(s);
      assert Elems(s[1..]) <= Elems(s);
      FirstsOfSeen(seen, s[1..]);
    }
  }

  /** An expansion mentions only headers ranked at or below its own. */
  lemma {:induction false} ExpandRanks(f: Files, p: Path, x: Item)
    requires Acyclic(f) && x in Expand(f, p)
    ensures Rank(f, x.header) <= Rank(f, p)
    decreases Rank(f, p), if p in f then |f[p]| + 1 else 0
  {
    if x != From(p) { ExpandLinesRanks(f, p, 0, x); }
  }

  lemma {:induction false} ExpandLinesRanks(f: Files, p: Path, i: nat, x: Item)
    requires Acyclic(f) && p in f && i <= |f[p]| && x in ExpandLines(f, p, i)
    ensures Rank(f, x.header) <= Rank(f, p)
    decreases Rank(f, p), |f[p]| - i
  {
    match f[p][i]
    case Text(t) => if x != Body(p, i, t) { ExpandLinesRanks(f, p, i + 1, x); }
    case Include(q) =>
      assert Includes(f, p, q);
      if q in f && x in Expand(f, q) {
        Lower(f, p, q);
        ExpandRanks(f, q, x);
      } else {
        ExpandLinesRanks(f, p, i + 1, x);
      }
  }

  /** All lines seen belong to visited headers. */
  ghost predicate OnlyVisited(visited: set<Path>, seen: set<Item>) {
    forall x :: x in seen ==> x.header in visited
  }

  /** The whole expansion of a header has been seen. */
  ghost predicate Complete(f: Files, seen: set<Item>, h: Path)
    requires Acyclic(f)
  {
    Elems(Expand(f, h)) <= seen
  }

  /** Every visited header below the bound is complete. */
  ghost predicate CompleteBelow(f: Files, visited: set<Path>, seen: set<Item>, bound: nat)
    requires Acyclic(f)
  {
    forall h :: h in visited && Rank(f, h) < bound ==> Complete(f, seen, h)
  }

  /** What a walk does, against full expansion. */
  ghost predicate Once(f: Files, visited: set<Path>, seen: set<Item>, r: Outcome, full: seq<Item>)
    requires Acyclic(f)
  {
    r.Done? ==>
      && r.items == Firsts(seen, full)
      && OnlyVisited(r.visited, seen + Elems(full))
      && forall h :: h in r.visited && h !in visited ==> Complete(f, seen + Elems(full), h)
  }

  lemma ElemsJoin(a: seq<Item>, b: seq<Item>)
    ensures Elems(a + b) == Elems(a) + Elems(b)
  {
  }

  lemma {:induction false} InlineOnce(f: Files, p: Path, visited: set<Path>, seen: set<Item>)
    requires Acyclic(f) && p in visited && OnlyVisited(visited, seen)
    requires CompleteBelow(f, visited, seen, Rank(f, p))
    requires forall x :: x in seen ==> x.header != p
    ensures Once(f, visited, seen, Inline(f, p, visited), Expand(f, p))
    decreases f.Keys - visited, if p in f then |f[p]| + 2 else 0
  {
    if p in f {
      var front, rest := [From(p)], ExpandLines(f, p, 0);
      var more := seen + {From(p)};
      LinesOnce(f, p, 0, visited, more);
      FirstsJoin(seen, front, rest);
      ElemsJoin(front, rest);
      assert Elems(front) == {From(p)} && front[1..] == [];
      assert Firsts(seen, front) == front;
      assert seen + Elems(front + rest) == more + Elems(rest);
    }
  }

  lemma {:induction false} LinesOnce(f: Files, p: Path, i: nat, visited: set<Path>, seen: set<Item>)
    requires Acyclic(f) && p in f && i <= |f[p]| && p in visited && OnlyVisited(visited, seen)
    requires CompleteBelow(f, visited, seen, Rank(f, p))
    requires forall x :: x in seen && x.Body? && x.header == p ==> x.index < i
    ensures Once(f, visited, seen, Lines(f, p, i, visited), ExpandLines(f, p, i))
    decreases f.Keys - visited, |f[p]| - i + 1
  {
    if i == |f[p]| {
      assert seen + Elems([]) == seen;
    } else {
      match f[p][i]
      case Text(t) =>
        var x, rest := Body(p, i, t), ExpandLines(f, p, i + 1);
        LinesOnce(f, p, i + 1, visited, seen + {x});
        Step(f, visited, seen, x, Lines(f, p, i + 1, visited), rest);
      case Include(q) =>
        IncludeOnce(f, p, i, q, visited, seen);
    }
  }

  /** A line of the header itself. */
  lemma Step(f: Files, visited: set<Path>, seen: set<Item>, x: Item, r: Outcome, rest: seq<Item>)
    requires Acyclic(f) && x !in seen
    requires Once(f, visited, seen + {x}, r, rest)
    ensures Once(f, visited, seen, After([x], r), [x] + rest)
  {
    FirstsJoin(seen, [x], rest);
    ElemsJoin([x], rest);
    assert Elems([x]) == {x} && [x][1..] == [];
    assert Firsts(seen, [x]) == [x];
    assert seen + Elems([x] + rest) == (seen + {x}) + Elems(rest);
  }

  /** Two stretches of a walk, one after the other. */
  lemma Sequel(f: Files, visited: set<Path>, q: Path, seen: set<Item>, r: Outcome, full: seq<Item>,
               r': Outcome, full': seq<Item>)
    requires Acyclic(f) && r.Done? && Once(f, visited + {q}, seen, r, full)
    requires Complete(f, seen + Elems(full), q)
    requires Once(f, r.visited, seen + Elems(full), r', full')
    requires r'.Done? ==> r.visited <= r'.visited
    ensures Once(f, visited, seen, After(r.items, r'), full + full')
  {
    FirstsJoin(seen, full, full');
    ElemsJoin(full, full');
    assert seen + Elems(full + full') == (seen + Elems(full)) + Elems(full');
  }

  lemma {:induction false} IncludeOnce(f: Files, p: Path, i: nat, q: Path, visited: set<Path>,
                                       seen: set<Item>)
    requires Acyclic(f) && p in f && i < |f[p]| && f[p][i] == Include(q) && p in visited
    requires OnlyVisited(visited, seen)
    requires CompleteBelow(f, visited, seen, Rank(f, p))
    requires forall x :: x in seen && x.Body? && x.header == p ==> x.index < i
    ensures Once(f, visited, seen, Lines(f, p, i, visited), ExpandLines(f, p, i))
    decreases f.Keys - visited, |f[p]| - i + 1, 0
  {
    var rest, full := ExpandLines(f, p, i + 1), if q in f then Expand(f, q) else [];
    IncludedExpands(f, p, i, q);
    if q in visited {
      LinesOnce(f, p, i + 1, visited, seen);
      if q in f { LowerIsComplete(f, p, q, visited, seen); }
      Skipped(f, visited, seen, full, Lines(f, p, i + 1, visited), rest);
    } else if q in f {
      var r := Inline(f, q, visited + {q});
      BoundHolds(f, p, q, visited, seen);
      InlineOnce(f, q, visited + {q}, seen);
      if r.Done? {
        NoneOfOwn(f, p, q);
        BoundAfter(f, p, q, visited, seen, r, full);
        LinesOnce(f, p, i + 1, r.visited, seen + Elems(full));
        Sequel(f, visited, q, seen, r, full, Lines(f, p, i + 1, r.visited), rest);
      }
    }
  }

  lemma IncludedExpands(f: Files, p: Path, i: nat, q: Path)
    requires Acyclic(f) && p in f && i < |f[p]| && f[p][i] == Include(q)
    ensures Includes(f, p, q)
    ensures ExpandLines(f, p, i) == (if q in f then Expand(f, q) else []) + ExpandLines(f, p, i + 1)
  {
  }

  lemma LowerIsComplete(f: Files, p: Path, q: Path, visited: set<Path>, seen: set<Item>)
    requires Acyclic(f) && Includes(f, p, q) && q in f && q in visited
    requires CompleteBelow(f, visited, seen, Rank(f, p))
    ensures Complete(f, seen, q)
  {
    Lower(f, p, q);
  }

  /** An include that is dropped because its whole expansion has been seen. */
  lemma Skipped(f: Files, visited: set<Path>, seen: set<Item>, full: seq<Item>, r: Outcome, rest: seq<Item>)
    requires Acyclic(f) && Elems(full) <= seen && Once(f, visited, seen, r, rest)
    ensures Once(f, visited, seen, r, full + rest)
  {
    FirstsOfSeen(seen, full);
    FirstsJoin(seen, full, rest);
    ElemsJoin(full, rest);
    assert seen + Elems(full) == seen;
    assert seen + Elems(full + rest) == seen + Elems(rest);
  }

  lemma BoundHolds(f: Files, p: Path, q: Path, visited: set<Path>, seen: set<Item>)
    requires Acyclic(f) && Includes(f, p, q) && q in f && CompleteBelow(f, visited, seen, Rank(f, p))
    ensures CompleteBelow(f, visited + {q}, seen, Rank(f, q))
  {
    Lower(f, p, q);
  }

  lemma BoundAfter(f: Files, p: Path, q: Path, visited: set<Path>, seen: set<Item>, r: Outcome, full: seq<Item>)
    requires Acyclic(f) && q in f && full == Expand(f, q) && r.Done?
    requires CompleteBelow(f, visited, seen, Rank(f, p)) && Once(f, visited + {q}, seen, r, full)
    ensures CompleteBelow(f, r.visited, seen + Elems(full), Rank(f, p))
  {
  }

  lemma NoneOfOwn(f: Files, p: Path, q: Path)
    requires Acyclic(f) && Includes(f, p, q) && q in f
    ensures forall x :: x in Expand(f, q) ==> x.header != p
  {
    Lower(f, p, q);
    forall x | x in Expand(f, q) ensures x.header != p { ExpandRanks(f, q, x); }
  }

  lemma {:induction false} RootsOnce(f: Files, roots: seq<Path>, i: nat, visited: set<Path>,
                                     seen: set<Item>)
    requires Acyclic(f) && i <= |roots| && OnlyVisited(visited, seen)
    requires forall h :: h in visited ==> Complete(f, seen, h)
    ensures var r := Roots(f, roots, i, visited);
            r.Done? ==> r.items == Firsts(seen, ExpandRoots(f, roots, i))
    decreases |roots| - i
  {
    if i < |roots| {
      var q, rest := roots[i], ExpandRoots(f, roots, i + 1);
      var full := Expand(f, q);
      FirstsJoin(seen, full, rest);
      if q in visited {
        RootsOnce(f, roots, i + 1, visited, seen);
        assert Complete(f, seen, q);
        FirstsOfSeen(seen, full);
        assert seen + Elems(full) == seen;
      } else {
        var r := Inline(f, q, visited + {q});
        InlineOnce(f, q, visited + {q}, seen);
        if r.Done? { RootsOnce(f, roots, i + 1, r.visited, seen + Elems(full)); }
      }
    }
  }

  /** On every acyclic graph the output is the full expansion of the roots with each line kept where it
      first occurs. */
  lemma OutputIsIncludeOnce(f: Files, roots: seq<Path>)
    requires Acyclic(f)
    ensures var r := Roots(f, roots, 0, {});
            r.Done? ==> r.items == Firsts({}, ExpandRoots(f, roots, 0))
  {
    RootsOnce(f, roots, 0, {}, {});
  }

  // ------------------------------------------------------------ order

  /** No occurrence of `y` without one of `x` in front. */
  ghost predicate Preceded(s: seq<Item>, x: Item, y: Item) {
    forall n :: 0 <= n < |s| && s[n] == y ==> x in s[..n]
  }

  lemma PrecededJoin(a: seq<Item>, b: seq<Item>, x: Item, y: Item)
    requires Preceded(a, x, y) && (x in a || Preceded(b, x, y))
    ensures Preceded(a + b, x, y)
  {
    var s := a + b;
    forall n | 0 <= n < |s| && s[n] == y ensures x in s[..n] {
      if n < |a| {
        assert s[..n] == a[..n];
      } else {
        assert s[..n] == a + b[..n - |a|];
      }
    }
  }

  lemma NeverPreceded(s: seq<Item>, x: Item, y: Item)
    requires y !in s
    ensures Preceded(s, x, y)
  {
  }

  /** Keeping first occurrences keeps precedence. */
  lemma {:induction false} FirstsPreceded(seen: set<Item>, s: seq<Item>, x: Item, y: Item)
    requires Preceded(s, x, y) && x !in seen && x != y
    ensures Preceded(Firsts(seen, s), x, y)
    decreases |s|
  {
    if s != [] {
      var tail := s[1..];
      if s[0] == x {
        PrecededJoin([x], Firsts(seen + {x}, tail), x, y);
      } else {
        assert s[0] != y by { assert s[..0] == []; }
        forall n | 0 <= n < |tail| && tail[n] == y ensures x in tail[..n] {
          assert s[n + 1] == y && s[..n + 1] == [s[0]] + tail[..n];
        }
        if s[0] in seen {
          FirstsPreceded(seen, tail, x, y);
        } else {
          FirstsPreceded(seen + {s[0]}, tail, x, y);
          PrecededJoin([s[0]], Firsts(seen + {s[0]}, tail), x, y);
        }
      }
    }
  }

  /** `y` is a line of `p` after its include of `q`, and `x` a line of the expansion of `q`. */
  ghost predicate BehindInclude(f: Files, p: Path, i: nat, q: Path, x: Item, y: Item)
    requires Acyclic(f)
  {
    && p in f && i < |f[p]| && f[p][i] == Include(q) && x in Expand(f, q)
    && y.Body? && y.header == p && y.index > i
  }

  lemma {:induction false} ExpandPreceded(f: Files, z: Path, p: Path, i: nat, q: Path, x: Item, y: Item)
    requires Acyclic(f) && BehindInclude(f, p, i, q, x, y)
    ensures Preceded(Expand(f, z), x, y)
    decreases Rank(f, z), if z in f then |f[z]| + 1 else 0
  {
    if z in f {
      ExpandLinesPreceded(f, z, 0, p, i, q, x, y);
      NeverPreceded([From(z)], x, y);
      PrecededJoin([From(z)], ExpandLines(f, z, 0), x, y);
    }
  }

  lemma {:induction false} ExpandLinesPreceded(f: Files, z: Path, j: nat,
                                               p: Path, i: nat, q: Path, x: Item, y: Item)
    requires Acyclic(f) && BehindInclude(f, p, i, q, x, y)
    requires z in f && j <= |f[z]| && (z == p ==> j <= i)
    ensures Preceded(ExpandLines(f, z, j), x, y)
    decreases Rank(f, z), |f[z]| - j
  {
    if j < |f[z]| {
      var rest := ExpandLines(f, z, j + 1);
      match f[z][j]
      case Text(t) =>
        ExpandLinesPreceded(f, z, j + 1, p, i, q, x, y);
        NeverPreceded([Body(z, j, t)], x, y);
        PrecededJoin([Body(z, j, t)], rest, x, y);
      case Include(u) =>
        var full := if u in f then Expand(f, u) else [];
        IncludedExpands(f, z, j, u);
        if u in f {
          Lower(f, z, u);
          ExpandPreceded(f, u, p, i, q, x, y);
        }
        if !(z == p && j == i) { ExpandLinesPreceded(f, z, j + 1, p, i, q, x, y); }
        PrecededJoin(full, rest, x, y);
    }
  }

  lemma {:induction false} RootsPreceded(f: Files, roots: seq<Path>, k: nat,
                                         p: Path, i: nat, q: Path, x: Item, y: Item)
    requires Acyclic(f) && BehindInclude(f, p, i, q, x, y) && k <= |roots|
    ensures Preceded(ExpandRoots(f, roots, k), x, y)
    decreases |roots| - k
  {
    if k < |roots| {
      ExpandPreceded(f, roots[k], p, i, q, x, y);
      RootsPreceded(f, roots, k + 1, p, i, q, x, y);
      PrecededJoin(Expand(f, roots[k]), ExpandRoots(f, roots, k + 1), x, y);
    }
  }

  lemma NotItself(f: Files, p: Path, i: nat, q: Path, x: Item, y: Item)
    requires Acyclic(f) && BehindInclude(f, p, i, q, x, y)
    ensures x != y
  {
    assert Includes(f, p, q);
    ExpandRanks(f, q, x);
    if q in f { Lower(f, p, q); }
  }

  /** Every line that follows an include comes out behind everything the included header expands to. */
  lemma IncludesComeFirst(f: Files, roots: seq<Path>, p: Path, i: nat, q: Path, x: Item, y: Item)
    requires Acyclic(f) && BehindInclude(f, p, i, q, x, y)
    ensures var r := Roots(f, roots, 0, {});
            r.Done? ==> Preceded(r.items, x, y)
  {
    OutputIsIncludeOnce(f, roots);
    RootsPreceded(f, roots, 0, p, i, q, x, y);
    NotItself(f, p, i, q, x, y);
    FirstsPreceded({}, ExpandRoots(f, roots, 0), x, y);
  }
}
