/** The recursive `${...}` resolver of the reference application, a client of the unwind arm.

    A failure found in the recursion escapes to `resolve_key`; here the escape is a failure returned by every
    frame after its guard has run. `ResolverOnArm` runs the same code on the arm itself and proves that the
    answer is this one. */
module Resolver {
  import opened Wrappers

  datatype Kind = Missing | Cycle | TooDeep | Malformed

  /** A failed resolution: the kind and depth in the payload, the offending key beside it. */
  datatype Failure = Failure(kind: Kind, depth: nat, key: string)

  datatype Answer = Ok(text: string) | Fail(why: Failure)

  const MAX_DEPTH: nat := 64

  type Table = map<string, string>

  // ------------------------------------------------------------ the text format

  /** `text.find("${", i)`: the first place at or after `i` where a reference opens. */
  function FindOpen(text: string, i: nat): (r: nat)
    requires i <= |text|
    ensures i <= r <= |text|
    ensures r < |text| ==> r + 1 < |text|
    decreases |text| - i
  {
    if i + 1 >= |text| then |text|
    else if text[i] == '$' && text[i + 1] == '{' then i
    else FindOpen(text, i + 1)
  }

  /** `text.find('}', i)`. */
  function FindClose(text: string, i: nat): (r: nat)
    requires i <= |text|
    ensures i <= r <= |text|
    decreases |text| - i
  {
    if i == |text| then i else if text[i] == '}' then i else FindClose(text, i + 1)
  }

  /** Both searches find the first match and miss none. */
  lemma {:induction false} FindsTheFirst(text: string, i: nat)
    requires i <= |text|
    ensures var r := FindOpen(text, i);
            && (r < |text| ==> text[r] == '$' && text[r + 1] == '{')
            && (forall j :: i <= j < r && j + 1 < |text| ==> !(text[j] == '$' && text[j + 1] == '{'))
    ensures var r := FindClose(text, i);
            && (r < |text| ==> text[r] == '}')
            && (forall j :: i <= j < r ==> text[j] != '}')
    decreases |text| - i
  {
    if i < |text| { FindsTheFirst(text, i + 1); }
  }

  /** A text as a sequence of pieces; `Broken` is a reference that never closes. */
  datatype Pieces = End | Lit(s: string, rest: Pieces) | Ref(key: string, rest: Pieces) | Broken

  function Parse(text: string, i: nat): Pieces
    requires i <= |text|
    decreases |text| - i
  {
    if i == |text| then End
    else
      var open := FindOpen(text, i);
      if open == |text| then Lit(text[i..], End)
      else
        var close := FindClose(text, open + 2);
        if close == |text| then Lit(text[i..open], Broken)
        else Lit(text[i..open], Ref(text[open + 2..close], Parse(text, close + 1)))
  }

  // ------------------------------------------------------------ resolution, as the code orders it

  predicate InPath(path: seq<string>, key: string) {
    exists i :: 0 <= i < |path| && path[i] == key
  }

  /** Resolve `key` below the keys of `path`; the depth is the length of the path. */
  function Resolve(t: Table, path: seq<string>, key: string): Answer
    decreases MAX_DEPTH + 1 - |path|, 1, End
  {
    if |path| > MAX_DEPTH then Fail(Failure(TooDeep, |path|, key))
    else if InPath(path, key) then Fail(Failure(Cycle, |path|, key))
    else if key !in t then Fail(Failure(Missing, |path|, key))
    else Interpolate(t, path + [key], Parse(t[key], 0), t[key])
  }

  /** Substitute the references of the innermost key's text. */
  function Interpolate(t: Table, path: seq<string>, ps: Pieces, text: string): Answer
    requires 0 < |path| <= MAX_DEPTH + 1
    decreases MAX_DEPTH + 1 - |path|, 2, ps
  {
    match ps
    case End => Ok("")
    case Broken => Fail(Failure(Malformed, |path| - 1, text))
    case Lit(s, rest) => Prepend(s, Interpolate(t, path, rest, text))
    case Ref(key, rest) =>
      var r := Resolve(t, path, key);
      if r.Fail? then r else Prepend(r.text, Interpolate(t, path, rest, text))
  }

  function Prepend(s: string, r: Answer): Answer {
    if r.Fail? then r else Ok(s + r.text)
  }

  // ------------------------------------------------------------ when it succeeds

  predicate Mentions(ps: Pieces, key: string) {
    match ps
    case End => false
    case Broken => false
    case Lit(_, rest) => Mentions(rest, key)
    case Ref(k, rest) => k == key || Mentions(rest, key)
  }

  predicate WellWritten(ps: Pieces) {
    match ps
    case End => true
    case Broken => false
    case Lit(_, rest) => WellWritten(rest)
    case Ref(_, rest) => WellWritten(rest)
  }

  /** `b` is referenced by the text of `a`. */
  predicate Edge(t: Table, a: string, b: string) {
    a in t && Mentions(Parse(t[a], 0), b)
  }

  /** A reference path: each key references the next. */
  ghost predicate IsPath(t: Table, p: seq<string>) {
    |p| > 0 && forall i :: 0 <= i < |p| - 1 ==> Edge(t, p[i], p[i + 1])
  }

  /** The last key of the path is present, its text is well formed, it does not repeat an earlier key,
      and it lies at most 64 edges down. */
  ghost predicate GoodEnd(t: Table, p: seq<string>)
    requires |p| > 0
  {
    var last := p[|p| - 1];
    && last in t && WellWritten(Parse(t[last], 0))
    && !InPath(p[..|p| - 1], last)
    && |p| - 1 <= 64
  }

  /** Every reference path from `key` is closed, well formed, repeat-free and not too long. */
  ghost predicate AllPathsGood(t: Table, key: string) {
    forall p :: IsPath(t, p) && p[0] == key ==> GoodEnd(t, p)
  }

  /** Success below a path means every continuation of the path is good. */
  lemma {:induction false} OkMeansGood(t: Table, path: seq<string>, key: string, p: seq<string>)
    requires Resolve(t, path, key).Ok?
    requires IsPath(t, p) && |p| > |path| && p[..|path|] == path && p[|path|] == key
    ensures GoodEnd(t, p)
    decreases |p| - |path|
  {
    var ps := Parse(t[key], 0);
    OkPieces(t, path + [key], ps, t[key]);
    if |p| == |path| + 1 {
      assert p[..|p| - 1] == path;
    } else {
      assert Edge(t, p[|path|], p[|path| + 1]);
      MentionedIsOk(t, path + [key], ps, t[key], p[|path| + 1]);
      assert p[..|path| + 1] == path + [key];
      OkMeansGood(t, path + [key], p[|path| + 1], p);
    }
  }

  lemma {:induction false} OkPieces(t: Table, path: seq<string>, ps: Pieces, text: string)
    requires 0 < |path| <= MAX_DEPTH + 1 && Interpolate(t, path, ps, text).Ok?
    ensures WellWritten(ps)
  {
    if ps.Lit? || ps.Ref? { OkPieces(t, path, ps.rest, text); }
  }

  lemma {:induction false} MentionedIsOk(t: Table, path: seq<string>, ps: Pieces, text: string, key: string)
    requires 0 < |path| <= MAX_DEPTH + 1 && Interpolate(t, path, ps, text).Ok? && Mentions(ps, key)
    ensures Resolve(t, path, key).Ok?
  {
    if ps.Lit? || ps.key != key { MentionedIsOk(t, path, ps.rest, text, key); }
  }

  /** A failure below a path comes with a continuation of the path that is not good. */
  lemma {:induction false} FailMeansBad(t: Table, path: seq<string>, key: string) returns (p: seq<string>)
    requires Resolve(t, path, key).Fail? && IsPath(t, path + [key])
    ensures IsPath(t, p) && path + [key] <= p && !GoodEnd(t, p)
    decreases MAX_DEPTH + 1 - |path|, 1, End
  {
    p := path + [key];
    assert p[..|p| - 1] == path;
    if |path| <= MAX_DEPTH && !InPath(path, key) && key in t {
      var ps := Parse(t[key], 0);
      if WellWritten(ps) {
        p := FailPieces(t, p, ps, t[key]);
      }
    }
  }

  lemma {:induction false} FailPieces(t: Table, path: seq<string>, ps: Pieces, text: string)
    returns (p: seq<string>)
    requires 0 < |path| <= MAX_DEPTH + 1 && IsPath(t, path) && path[|path| - 1] in t
    requires Interpolate(t, path, ps, text).Fail? && WellWritten(ps)
    requires forall k :: Mentions(ps, k) ==> Edge(t, path[|path| - 1], k)
    ensures IsPath(t, p) && path <= p && !GoodEnd(t, p)
    decreases MAX_DEPTH + 1 - |path|, 2, ps
  {
    var rest := ps.rest;
    assert forall k :: Mentions(rest, k) ==> Mentions(ps, k);
    match ps
    case Lit(_, _) => p := FailPieces(t, path, rest, text);
    case Ref(key, _) =>
      if Resolve(t, path, key).Fail? {
        assert Mentions(ps, key);
        p := FailMeansBad(t, path, key);
      } else {
        p := FailPieces(t, path, rest, text);
      }
  }

  /** A key resolves to a value exactly when every reference path below it is good. */
  lemma SucceedsIffAllPathsGood(t: Table, key: string)
    ensures Resolve(t, [], key).Ok? <==> AllPathsGood(t, key)
  {
    if Resolve(t, [], key).Ok? {
      forall p | IsPath(t, p) && p[0] == key ensures GoodEnd(t, p) {
        OkMeansGood(t, [], key, p);
      }
    } else {
      assert IsPath(t, [] + [key]);
      var p := FailMeansBad(t, [], key);
      assert p[0] == key;
    }
  }

  // ------------------------------------------------------------ what the value is

  /** The text with each reference replaced by its value in `m`. */
  function Substitute(m: Table, ps: Pieces): string {
    match ps
    case End => ""
    case Broken => ""
    case Lit(s, rest) => s + Substitute(m, rest)
    case Ref(key, rest) => (if key in m then m[key] else "") + Substitute(m, rest)
  }

  /** `m` gives every key it has the substitution of its own text by the values of `m`. */
  ghost predicate Solves(t: Table, m: Table) {
    forall k :: k in m ==>
      && k in t
      && (forall j :: Mentions(Parse(t[k], 0), j) ==> j in m)
      && m[k] == Substitute(m, Parse(t[k], 0))
  }

  lemma {:induction false} ValueIsForced(t: Table, path: seq<string>, key: string, m: Table)
    requires Resolve(t, path, key).Ok? && Solves(t, m) && key in m
    ensures Resolve(t, path, key).text == m[key]
    decreases MAX_DEPTH + 1 - |path|, 1, End
  {
    PiecesForced(t, path + [key], Parse(t[key], 0), t[key], m);
  }

  lemma {:induction false} PiecesForced(t: Table, path: seq<string>, ps: Pieces, text: string, m: Table)
    requires 0 < |path| <= MAX_DEPTH + 1 && Interpolate(t, path, ps, text).Ok?
    requires Solves(t, m) && forall k :: Mentions(ps, k) ==> k in m
    ensures Interpolate(t, path, ps, text).text == Substitute(m, ps)
    decreases MAX_DEPTH + 1 - |path|, 2, ps
  {
    match ps
    case End =>
    case Lit(_, rest) => PiecesForced(t, path, rest, text, m);
    case Ref(key, rest) =>
      assert Mentions(ps, key);
      ValueIsForced(t, path, key, m);
      PiecesForced(t, path, rest, text, m);
  }

  /** What resolves below a path resolves to the same value below a smaller one. */
  lemma {:induction false} SmallerPath(t: Table, big: seq<string>, small: seq<string>, key: string)
    requires Resolve(t, big, key).Ok? && |small| <= |big|
    requires forall k :: InPath(small, k) ==> InPath(big, k)
    ensures Resolve(t, small, key) == Resolve(t, big, key)
    decreases MAX_DEPTH + 1 - |big|, 1, End
  {
    forall k | InPath(small + [key], k) ensures InPath(big + [key], k) {
      if k == key { assert (big + [key])[|big|] == k; }
      else {
        var i :| 0 <= i < |small + [key]| && (small + [key])[i] == k;
        assert small[i] == k;
        assert InPath(small, k);
        var j :| 0 <= j < |big| && big[j] == k;
        assert (big + [key])[j] == k;
      }
    }
    SmallerPieces(t, big + [key], small + [key], Parse(t[key], 0), t[key]);
  }

  lemma {:induction false} SmallerPieces(t: Table, big: seq<string>, small: seq<string>, ps: Pieces, text: string)
    requires 0 < |small| <= |big| <= MAX_DEPTH + 1 && Interpolate(t, big, ps, text).Ok?
    requires forall k :: InPath(small, k) ==> InPath(big, k)
    ensures Interpolate(t, small, ps, text) == Interpolate(t, big, ps, text)
    decreases MAX_DEPTH + 1 - |big|, 2, ps
  {
    match ps
    case End =>
    case Lit(_, rest) => SmallerPieces(t, big, small, rest, text);
    case Ref(key, rest) =>
      SmallerPath(t, big, small, key);
      SmallerPieces(t, big, small, rest, text);
  }

  /** All the keys that resolve, with their values. */
  ghost function Resolved(t: Table): Table {
    map k | k in t && Resolve(t, [], k).Ok? :: Resolve(t, [], k).text
  }

  /** The values form a solution of the substitution equations, and the only one where they exist. */
  lemma ValuesAreTheSubstitution(t: Table, m: Table)
    ensures Solves(t, Resolved(t))
    ensures Solves(t, m) ==> forall k :: k in m && k in Resolved(t) ==> m[k] == Resolved(t)[k]
  {
    var r := Resolved(t);
    forall k | k in r
      ensures forall j :: Mentions(Parse(t[k], 0), j) ==> j in r
    {
      var ps := Parse(t[k], 0);
      forall j | Mentions(ps, j) ensures j in r {
        MentionedIsOk(t, [] + [k], ps, t[k], j);
        SmallerPath(t, [] + [k], [], j);
      }
    }
    forall k | k in r ensures r[k] == Substitute(r, Parse(t[k], 0)) {
      ResolvedPieces(t, k, Parse(t[k], 0));
    }
    if Solves(t, m) {
      forall k | k in m && k in r ensures m[k] == r[k] { ValueIsForced(t, [], k, m); }
    }
  }

  lemma {:induction false} ResolvedPieces(t: Table, k: string, ps: Pieces)
    requires k in t && Interpolate(t, [] + [k], ps, t[k]).Ok?
    requires forall j :: Mentions(ps, j) ==> j in Resolved(t)
    ensures Interpolate(t, [] + [k], ps, t[k]).text == Substitute(Resolved(t), ps)
  {
    match ps
    case End =>
    case Lit(_, rest) => ResolvedPieces(t, k, rest);
    case Ref(key, rest) =>
      SmallerPath(t, [] + [k], [], key);
      assert Mentions(ps, key);
      ResolvedPieces(t, k, rest);
  }

  // ------------------------------------------------------------ which failure is reported

  /** Places in the tree of references: the numbers of the references taken from the root. The place
      after a text's last reference stands for the end of that text. */
  type Place = seq<nat>

  /** Left to right, depth first, a key before what it references. */
  predicate Before(a: Place, b: Place)
    decreases |a|
  {
    if a == [] then b != []
    else b != [] && (a[0] < b[0] || (a[0] == b[0] && Before(a[1..], b[1..])))
  }

  /** What goes wrong on entering a key, if anything. */
  function EntryFailure(t: Table, path: seq<string>, key: string): Option<Failure> {
    if |path| > 64 then Some(Failure(TooDeep, |path|, key))
    else if InPath(path, key) then Some(Failure(Cycle, |path|, key))
    else if key !in t then Some(Failure(Missing, |path|, key))
    else None
  }

  /** What is wrong at one place of the tree below `key`, looked at on its own. */
  function FailureAt(t: Table, path: seq<string>, key: string, place: Place): Option<Failure>
    decreases |place|, 1, End
  {
    if place == [] then EntryFailure(t, path, key)
    else if key !in t then None
    else FailureIn(t, path + [key], Parse(t[key], 0), t[key], place)
  }

  function FailureIn(t: Table, path: seq<string>, ps: Pieces, text: string, place: Place): Option<Failure>
    requires path != [] && place != []
    decreases |place|, 0, ps
  {
    match ps
    case End => None
    case Broken => if place == [0] then Some(Failure(Malformed, |path| - 1, text)) else None
    case Lit(_, rest) => FailureIn(t, path, rest, text, place)
    case Ref(key, rest) =>
      if place[0] == 0 then FailureAt(t, path, key, place[1..])
      else FailureIn(t, path, rest, text, [place[0] - 1] + place[1..])
  }

  ghost predicate FirstAt(t: Table, path: seq<string>, key: string, why: Failure, place: Place) {
    && FailureAt(t, path, key, place) == Some(why)
    && forall p :: FailureAt(t, path, key, p).Some? && p != place ==> Before(place, p)
  }

  ghost predicate FirstIn(t: Table, path: seq<string>, ps: Pieces, text: string, why: Failure, place: Place)
    requires path != []
  {
    && place != [] && FailureIn(t, path, ps, text, place) == Some(why)
    && forall p: Place :: p != [] && FailureIn(t, path, ps, text, p).Some? && p != place ==> Before(place, p)
  }

  lemma {:induction false} FirstBelow(t: Table, path: seq<string>, key: string) returns (place: Place)
    ensures match Resolve(t, path, key)
            case Ok(_) => forall p: Place :: FailureAt(t, path, key, p).None?
            case Fail(why) => FirstAt(t, path, key, why, place)
    decreases MAX_DEPTH + 1 - |path|, 1, End
  {
    place := [];
    if EntryFailure(t, path, key).None? {
      place := FirstInPieces(t, path + [key], Parse(t[key], 0), t[key]);
    }
  }

  lemma {:induction false} FirstInPieces(t: Table, path: seq<string>, ps: Pieces, text: string)
    returns (place: Place)
    requires 0 < |path| <= MAX_DEPTH + 1
    ensures match Interpolate(t, path, ps, text)
            case Ok(_) => forall p: Place :: p != [] ==> FailureIn(t, path, ps, text, p).None?
            case Fail(why) => FirstIn(t, path, ps, text, why, place)
    decreases MAX_DEPTH + 1 - |path|, 2, ps
  {
    place := [0];
    match ps
    case End =>
    case Broken =>
    case Lit(_, rest) => place := FirstInPieces(t, path, rest, text);
    case Ref(key, rest) =>
      var below := FirstBelow(t, path, key);
      var r := Resolve(t, path, key);
      if r.Fail? {
        place := [0] + below;
        assert place[1..] == below;
        forall p: Place | p != [] && FailureIn(t, path, ps, text, p).Some? && p != place
          ensures Before(place, p)
        {
          if p[0] == 0 { assert p == [0] + p[1..]; }
        }
      } else {
        var later := FirstInPieces(t, path, rest, text);
        if Interpolate(t, path, rest, text).Fail? {
          place := [later[0] + 1] + later[1..];
          assert [place[0] - 1] + place[1..] == later;
        }
        forall p: Place | p != [] && FailureIn(t, path, ps, text, p).Some?
          ensures Interpolate(t, path, rest, text).Fail? && (p != place ==> Before(place, p))
        {
          assert FailureAt(t, path, key, p[1..]).None?;
          var q := [p[0] - 1] + p[1..];
          assert FailureIn(t, path, rest, text, q).Some?;
          assert p == [q[0] + 1] + q[1..] && q[1..] == p[1..] && place[1..] == later[1..];
        }
      }
  }

  /** The reported failure is the first one in left-to-right depth-first order, kind, depth and key. */
  lemma ReportsTheFirstFailure(t: Table, key: string)
    ensures forall why :: Resolve(t, [], key) == Fail(why) <==> exists place: Place :: FirstAt(t, [], key, why, place)
  {
    var place := FirstBelow(t, [], key);
    forall why, other: Place | FirstAt(t, [], key, why, other)
      ensures Resolve(t, [], key) == Fail(why)
    {
      if other != place { NotBothBefore(place, other); }
    }
  }

  lemma {:induction false} NotBothBefore(a: Place, b: Place)
    ensures !(Before(a, b) && Before(b, a))
    decreases |a|
  {
    if a != [] && b != [] { NotBothBefore(a[1..], b[1..]); }
  }

  /** A reported cycle is a cycle: a reference path from the reported key back to itself. */
  lemma {:induction false} CycleIsReal(t: Table, path: seq<string>, key: string) returns (c: seq<string>)
    requires IsPath(t, path + [key])
    requires Resolve(t, path, key).Fail? && Resolve(t, path, key).why.kind.Cycle?
    ensures IsPath(t, c) && |c| >= 2 && c[0] == c[|c| - 1] == Resolve(t, path, key).why.key
    decreases MAX_DEPTH + 1 - |path|, 1, End
  {
    var p := path + [key];
    if InPath(path, key) {
      var i :| 0 <= i < |path| && path[i] == key;
      c := p[i..];
    } else {
      assert forall k :: Mentions(Parse(t[key], 0), k) ==> Edge(t, p[|p| - 1], k);
      c := CycleInPieces(t, p, Parse(t[key], 0), t[key]);
    }
  }

  lemma {:induction false} CycleInPieces(t: Table, path: seq<string>, ps: Pieces, text: string)
    returns (c: seq<string>)
    requires 0 < |path| <= MAX_DEPTH + 1 && IsPath(t, path)
    requires Interpolate(t, path, ps, text).Fail? && Interpolate(t, path, ps, text).why.kind.Cycle?
    requires forall k :: Mentions(ps, k) ==> Edge(t, path[|path| - 1], k)
    ensures IsPath(t, c) && |c| >= 2 && c[0] == c[|c| - 1] == Interpolate(t, path, ps, text).why.key
    decreases MAX_DEPTH + 1 - |path|, 2, ps
  {
    var rest := ps.rest;
    assert forall k :: Mentions(rest, k) ==> Mentions(ps, k);
    if ps.Ref? && Resolve(t, path, ps.key).Fail? {
      assert Mentions(ps, ps.key);
      c := CycleIsReal(t, path, ps.key);
    } else {
      c := CycleInPieces(t, path, rest, text);
    }
  }

  /** What each kind of failure says: the depth is 65 exactly for one that went too deep; a missing key is
      not in the table; a malformed text never closes a reference; and a cycle that is reported is one. */
  ghost predicate TellsTruth(t: Table, why: Failure) {
    && why.depth <= 65 && (why.kind.TooDeep? <==> why.depth == 65)
    && (why.kind.Missing? ==> why.key !in t)
    && (why.kind.Malformed? ==> !WellWritten(Parse(why.key, 0)))
    && (why.kind.Cycle? ==> exists c :: IsPath(t, c) && |c| >= 2 && c[0] == c[|c| - 1] == why.key)
  }

  lemma {:induction false} FailureTellsTruth(t: Table, path: seq<string>, key: string)
    requires |path| <= 65 && IsPath(t, path + [key]) && Resolve(t, path, key).Fail?
    ensures TellsTruth(t, Resolve(t, path, key).why)
    decreases MAX_DEPTH + 1 - |path|, 1, End
  {
    if Resolve(t, path, key).why.kind.Cycle? { var c := CycleIsReal(t, path, key); }
    if |path| <= 64 && !InPath(path, key) && key in t {
      assert forall k :: Mentions(Parse(t[key], 0), k) ==> Edge(t, (path + [key])[|path|], k);
      PiecesTellTruth(t, path + [key], Parse(t[key], 0), t[key]);
    }
  }

  lemma {:induction false} PiecesTellTruth(t: Table, path: seq<string>, ps: Pieces, text: string)
    requires 0 < |path| <= 65 && IsPath(t, path) && Interpolate(t, path, ps, text).Fail?
    requires forall k :: Mentions(ps, k) ==> Edge(t, path[|path| - 1], k)
    requires !WellWritten(ps) ==> !WellWritten(Parse(text, 0))
    ensures TellsTruth(t, Interpolate(t, path, ps, text).why)
    decreases MAX_DEPTH + 1 - |path|, 2, ps
  {
    if !ps.Broken? {
      var rest := ps.rest;
      assert forall k :: Mentions(rest, k) ==> Mentions(ps, k);
      if ps.Ref? && Resolve(t, path, ps.key).Fail? {
        assert Mentions(ps, ps.key);
        FailureTellsTruth(t, path, ps.key);
      } else {
        PiecesTellTruth(t, path, rest, text);
      }
    }
  }

  // ------------------------------------------------------------ the resolver object

  lemma Unroll(t: Table, path: seq<string>, a: string, key: string, rest: Pieces, text: string)
    requires 0 < |path| <= MAX_DEPTH + 1
    ensures var v := Resolve(t, path, key);
            Interpolate(t, path, Lit(a, Ref(key, rest)), text) ==
            if v.Fail? then v else Prepend(a + v.text, Interpolate(t, path, rest, text))
  {
    var v, r := Resolve(t, path, key), Interpolate(t, path, rest, text);
    assert Interpolate(t, path, Ref(key, rest), text) == if v.Fail? then v else Prepend(v.text, r);
    if v.Ok? && r.Ok? { assert a + (v.text + r.text) == (a + v.text) + r.text; }
  }

  lemma UnrollLast(t: Table, path: seq<string>, a: string, text: string)
    requires 0 < |path| <= MAX_DEPTH + 1
    ensures Interpolate(t, path, Lit(a, End), text) == Prepend(a, Ok(""))
    ensures Interpolate(t, path, Lit(a, Broken), text) == Fail(Failure(Malformed, |path| - 1, text))
  {
    assert Interpolate(t, path, End, text) == Ok("");
  }

  /** What one turn of the loop contributes, by where the next reference opens and closes. */
  lemma TurnUnrolls(t: Table, path: seq<string>, text: string, i: nat)
    requires 0 < |path| <= MAX_DEPTH + 1 && i < |text|
    ensures var open := FindOpen(text, i);
            var all := Interpolate(t, path, Parse(text, i), text);
            if open == |text| then all == Prepend(text[i..], Interpolate(t, path, Parse(text, |text|), text))
            else
              var close := FindClose(text, open + 2);
              if close == |text| then all == Fail(Failure(Malformed, |path| - 1, text))
              else
                var v := Resolve(t, path, text[open + 2..close]);
                all == if v.Fail? then v
                       else Prepend(text[i..open] + v.text, Interpolate(t, path, Parse(text, close + 1), text))
  {
    var open := FindOpen(text, i);
    if open == |text| {
      UnrollLast(t, path, text[i..], text);
    } else {
      var close := FindClose(text, open + 2);
      if close == |text| {
        UnrollLast(t, path, text[i..open], text);
      } else {
        Unroll(t, path, text[i..open], text[open + 2..close], Parse(text, close + 1), text);
      }
    }
  }

  ghost function KeysOf(path: seq<string>): set<string> {
    set i | 0 <= i < |path| :: path[i]
  }

  class ResolverObject {
    const values: Table
    var resolving: set<string>
    var errorKey: string

    constructor (values: Table)
      ensures this.values == values && resolving == {} && errorKey == ""
    {
      this.values := values;
      resolving, errorKey := {}, "";
    }

    /** `resolve_key`: the answer depends on the table and the key alone, and the path set is empty
        again afterwards, whether the resolution failed or not. */
    method ResolveKey(key: string) returns (r: Answer)
      requires resolving == {}
      modifies this
      ensures r == Resolve(values, [], key)
      ensures resolving == {}
      ensures r.Fail? ==> errorKey == r.why.key
      ensures r.Ok? ==> errorKey == old(errorKey)
    {
      r := ResolveAt(key, 0, []);
    }

    /** `eject_with`: the key is left beside the payload. */
    method EjectWith(kind: Kind, key: string, depth: nat) returns (r: Answer)
      modifies this`errorKey
      ensures errorKey == key && r == Fail(Failure(kind, depth, key))
    {
      errorKey := key;
      r := Fail(Failure(kind, depth, key));
    }

    /** `resolve`: at every call the path set is the keys of the current path. */
    method ResolveAt(key: string, depth: nat, ghost path: seq<string>) returns (r: Answer)
      requires depth == |path| && resolving == KeysOf(path)
      modifies this
      ensures r == Resolve(values, path, key)
      ensures resolving == old(resolving)
      ensures errorKey == if r.Fail? then r.why.key else old(errorKey)
      decreases MAX_DEPTH + 1 - |path|, 1, 0
    {
      if depth > MAX_DEPTH {
        r := EjectWith(TooDeep, key, depth);
        return;
      }
      assert key in resolving <==> InPath(path, key);
      if key in resolving {
        r := EjectWith(Cycle, key, depth);
        return;
      }
      resolving := resolving + {key};
      assert resolving == KeysOf(path + [key]) by {
        assert forall i :: 0 <= i < |path| ==> (path + [key])[i] == path[i];
        assert (path + [key])[|path|] == key;
      }
      if key !in values {
        r := EjectWith(Missing, key, depth);
      } else {
        r := InterpolateAt(values[key], depth, path + [key]);
      }
      resolving := resolving - {key};      // the guard, on every way out
    }

    /** `interpolate`. */
    method InterpolateAt(text: string, depth: nat, ghost path: seq<string>) returns (r: Answer)
      requires depth + 1 == |path| <= MAX_DEPTH + 1 && resolving == KeysOf(path)
      modifies this
      ensures r == Interpolate(values, path, Parse(text, 0), text)
      ensures resolving == old(resolving)
      ensures errorKey == if r.Fail? then r.why.key else old(errorKey)
      decreases MAX_DEPTH + 1 - |path|, 3, 0
    {
      var out := "";
      var i := 0;
      ghost var whole := Interpolate(values, path, Parse(text, 0), text);
      while i < |text|
        invariant 0 <= i <= |text|
        invariant resolving == old(resolving) && errorKey == old(errorKey)
        invariant whole == Prepend(out, Interpolate(values, path, Parse(text, i), text))
      {
        ghost var rest := Interpolate(values, path, Parse(text, i), text);
        var next;
        r, next := InterpolateTurn(text, i, depth, path);
        if r.Fail? { return; }
        ghost var rest' := Interpolate(values, path, Parse(text, next), text);
        if rest'.Ok? { assert out + (r.text + rest'.text) == (out + r.text) + rest'.text; }
        out := out + r.text;
        i := next;
      }
      r := Ok(out);
    }

    /** The body of the loop: the literal up to the next reference, and that reference's value. */
    method InterpolateTurn(text: string, i: nat, depth: nat, ghost path: seq<string>)
      returns (r: Answer, next: nat)
      requires depth + 1 == |path| <= MAX_DEPTH + 1 && resolving == KeysOf(path) && i < |text|
      modifies this
      ensures i < next <= |text|
      ensures Interpolate(values, path, Parse(text, i), text) ==
              if r.Fail? then r else Prepend(r.text, Interpolate(values, path, Parse(text, next), text))
      ensures resolving == old(resolving)
      ensures errorKey == if r.Fail? then r.why.key else old(errorKey)
      decreases MAX_DEPTH + 1 - |path|, 2, 0
    {
      var open := FindOpen(text, i);
      TurnUnrolls(values, path, text, i);
      if open == |text| {
        return Ok(text[i..]), |text|;
      }
      var close := FindClose(text, open + 2);
      if close == |text| {
        r := EjectWith(Malformed, text, depth);
        return r, |text|;
      }
      var ref := text[open + 2..close];
      r := ResolveAt(ref, depth + 1, path);
      next := close + 1;
      if r.Ok? { r := Ok(text[i..open] + r.text); }
    }
  }
}
