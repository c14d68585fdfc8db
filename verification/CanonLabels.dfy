/** `canon_labels` of the verification harness: it renames local labels by first appearance, so that two
    bodies compare equal exactly when they differ only in label names. */
module CanonLabels {
  import opened Sequences

  // ------------------------------------------------------------ label tokens

  predicate Id(c: char) {
    ('A' <= c <= 'Z') || ('a' <= c <= 'z') || ('0' <= c <= '9') || c == '_' || c == '$'
  }

  /** A label starts here: ".L" and at least one identifier character. */
  predicate LabelStart(s: string) {
    |s| > 2 && s[0] == '.' && s[1] == 'L' && Id(s[2])
  }

  /** How many identifier characters the text starts with. */
  function Span(s: string): (n: nat)
    ensures n <= |s|
    ensures forall i :: 0 <= i < n ==> Id(s[i])
    ensures n < |s| ==> !Id(s[n])
  {
    if s == [] || !Id(s[0]) then 0 else 1 + Span(s[1..])
  }

  /** A body as characters and label tokens. */
  datatype Body = End | Chr(c: char, rest: Body) | Tok(name: string, rest: Body)

  function Lex(s: string): Body
    decreases |s|
  {
    if s == [] then End
    else if LabelStart(s) then
      var n := 2 + Span(s[2..]);
      Tok(s[..n], Lex(s[n..]))
    else Chr(s[0], Lex(s[1..]))
  }

  function Render(b: Body): string {
    match b
    case End => ""
    case Chr(c, rest) => [c] + Render(rest)
    case Tok(name, rest) => name + Render(rest)
  }

  predicate IsLabel(s: string) {
    |s| > 2 && s[0] == '.' && s[1] == 'L' && forall i :: 2 <= i < |s| ==> Id(s[i])
  }

  predicate StartsWithId(b: Body) {
    b.Chr? && Id(b.c)
  }

  /** A body that a text can be read as: labels are whole, and no label hides among the characters. */
  predicate Readable(b: Body) {
    match b
    case End => true
    case Tok(name, rest) => IsLabel(name) && !StartsWithId(rest) && Readable(rest)
    case Chr(c, rest) =>
      !(c == '.' && rest.Chr? && rest.c == 'L' && StartsWithId(rest.rest)) && Readable(rest)
  }

  /** A character position reads as that character, and no label hides behind a dot. */
  lemma LexChar(s: string)
    requires s != [] && !LabelStart(s)
    ensures var rest := Lex(s[1..]);
            && Lex(s) == Chr(s[0], rest)
            && !(s[0] == '.' && rest.Chr? && rest.c == 'L' && StartsWithId(rest.rest))
  {
    if |s| > 2 && s[0] == '.' && s[1] == 'L' {
      assert s[1..][1..] == s[2..];
      assert Lex(s[1..]) == Chr('L', Lex(s[2..]));
    }
  }

  lemma LexLabel(s: string)
    requires LabelStart(s)
    ensures var n := 2 + Span(s[2..]);
            Lex(s) == Tok(s[..n], Lex(s[n..])) && IsLabel(s[..n]) && !StartsWithId(Lex(s[n..]))
  {
    var n := 2 + Span(s[2..]);
    assert forall i :: 2 <= i < n ==> s[i] == s[2..][i - 2];
    if n < |s| { assert s[n..][0] == s[2..][n - 2]; }
  }

  lemma {:induction false} LexReads(s: string)
    ensures Readable(Lex(s)) && Render(Lex(s)) == s
    decreases |s|
  {
    if s != [] {
      if LabelStart(s) {
        LexLabel(s);
        LexReads(s[2 + Span(s[2..])..]);
      } else {
        LexChar(s);
        LexReads(s[1..]);
      }
    }
  }

  lemma {:induction false} RenderHead(b: Body)
    requires Readable(b)
    ensures Render(b) == [] <==> b.End?
    ensures b.Chr? ==> Render(b)[0] == b.c
    ensures b.Tok? ==> Render(b)[0] == '.'
  {
  }

  lemma {:induction false} SpanOf(s: string, rest: string)
    requires forall i :: 0 <= i < |s| ==> Id(s[i])
    requires rest != [] ==> !Id(rest[0])
    ensures Span(s + rest) == |s|
    decreases |s|
  {
    if s != [] {
      assert (s + rest)[1..] == s[1..] + rest;
      SpanOf(s[1..], rest);
    } else {
      assert s + rest == rest;
    }
  }

  lemma LexToken(name: string, r: string)
    requires IsLabel(name) && (r != [] ==> !Id(r[0]))
    ensures Lex(name + r) == Tok(name, Lex(r))
  {
    var s := name + r;
    assert s[2..] == name[2..] + r;
    SpanOf(name[2..], r);
    assert s[..|name|] == name && s[|name|..] == r;
  }

  lemma LexPlain(c: char, r: string)
    requires !LabelStart([c] + r)
    ensures Lex([c] + r) == Chr(c, Lex(r))
  {
    assert ([c] + r)[1..] == r;
  }

  lemma NoLabelHere(c: char, rest: Body)
    requires Readable(Chr(c, rest))
    ensures !LabelStart([c] + Render(rest))
  {
    var s, r := [c] + Render(rest), Render(rest);
    RenderHead(rest);
    if c == '.' && rest.Chr? && rest.c == 'L' {
      RenderHead(rest.rest);
      assert r == ['L'] + Render(rest.rest);
      assert |s| > 2 ==> s[2] == r[1] == Render(rest.rest)[0];
    } else if |s| > 2 {
      assert s[1] == r[0];
    }
  }

  /** Reading back what was rendered. */
  lemma {:induction false} LexRenders(b: Body)
    requires Readable(b)
    ensures Lex(Render(b)) == b
  {
    match b
    case End =>
    case Tok(name, rest) =>
      RenderHead(rest);
      LexToken(name, Render(rest));
      LexRenders(rest);
    case Chr(c, rest) =>
      NoLabelHere(c, rest);
      LexPlain(c, Render(rest));
      LexRenders(rest);
  }

  // ------------------------------------------------------------ renaming

  /** `f` renames local labels to local labels, no two to the same one. */
  ghost predicate Renaming(f: map<string, string>) {
    && (forall x :: x in f ==> IsLabel(f[x]))
    && (forall x, y :: x in f && y in f && f[x] == f[y] ==> x == y)
  }

  predicate Covers(f: map<string, string>, b: Body) {
    match b
    case End => true
    case Chr(_, rest) => Covers(f, rest)
    case Tok(name, rest) => name in f && Covers(f, rest)
  }

  function Rename(f: map<string, string>, b: Body): Body
    requires Covers(f, b)
  {
    match b
    case End => End
    case Chr(c, rest) => Chr(c, Rename(f, rest))
    case Tok(name, rest) => Tok(f[name], Rename(f, rest))
  }

  /** Two texts that differ only in the names of their local labels. */
  ghost predicate SameUpToLabels(a: string, b: string) {
    exists f :: Renaming(f) && Covers(f, Lex(a)) && Render(Rename(f, Lex(a))) == b
  }

  lemma {:induction false} RenameReadable(f: map<string, string>, b: Body)
    requires Renaming(f) && Covers(f, b) && Readable(b)
    ensures Readable(Rename(f, b))
    ensures StartsWithId(Rename(f, b)) == StartsWithId(b)
  {
    if b.Chr? || b.Tok? {
      RenameReadable(f, b.rest);
      if b.rest.Chr? { RenameReadable(f, b.rest.rest); }
    }
  }

  // ------------------------------------------------------------ canonical numbering

  function Digit(d: nat): char
    requires d < 10
  {
    '0' + d as char
  }

  /** `std::to_string`. */
  function Decimal(n: nat): (s: string)
    ensures s != []
    ensures forall i :: 0 <= i < |s| ==> '0' <= s[i] <= '9'
  {
    if n < 10 then [Digit(n)] else Decimal(n / 10) + [Digit(n % 10)]
  }

  function IndexOf(seen: seq<string>, name: string): (i: nat)
    ensures i <= |seen|
    ensures i < |seen| ==> seen[i] == name
    ensures i == |seen| <==> name !in seen
  {
    if seen == [] then 0 else if seen[0] == name then 0 else 1 + IndexOf(seen[1..], name)
  }

  function Noted(seen: seq<string>, name: string): seq<string> {
    if name in seen then seen else seen + [name]
  }

  /** A body with its labels numbered by first appearance. */
  datatype Numbered = NEnd | NChr(c: char, rest: Numbered) | NTok(n: nat, rest: Numbered)

  function Number(b: Body, seen: seq<string>): Numbered
    decreases b
  {
    match b
    case End => NEnd
    case Chr(c, rest) => NChr(c, Number(rest, seen))
    case Tok(name, rest) => NTok(IndexOf(seen, name), Number(rest, Noted(seen, name)))
  }

  function Canonical(n: nat): string { ".L#" + Decimal(n) }

  function Print(b: Numbered): string {
    match b
    case NEnd => ""
    case NChr(c, rest) => [c] + Print(rest)
    case NTok(n, rest) => Canonical(n) + Print(rest)
  }

  function Canon(body: string): string { Print(Number(Lex(body), [])) }

  // ------------------------------------------------------------ the loop

  /** The map the loop keeps, against the labels in order of first appearance. */
  ghost predicate Remembers(seen: map<string, string>, order: seq<string>) {
    && |seen| == |order|
    && (forall x :: x in seen <==> x in order)
    && (forall x :: x in order ==> seen[x] == Canonical(IndexOf(order, x)))
  }

  lemma {:induction false} NoteNew(order: seq<string>, tok: string)
    requires tok !in order
    ensures forall x :: x in order ==> IndexOf(order + [tok], x) == IndexOf(order, x)
    ensures IndexOf(order + [tok], tok) == |order|
    decreases |order|
  {
    if order != [] {
      assert (order + [tok])[1..] == order[1..] + [tok];
      NoteNew(order[1..], tok);
    }
  }

  lemma RemembersNew(seen: map<string, string>, order: seq<string>, tok: string)
    requires Remembers(seen, order) && tok !in order
    ensures Remembers(seen[tok := Canonical(|seen|)], order + [tok])
    ensures IndexOf(order, tok) == |order|
  {
    NoteNew(order, tok);
  }

  lemma SpanStep(body: string, j: nat)
    requires j < |body| && Id(body[j])
    ensures Span(body[j..]) == 1 + Span(body[j + 1..])
  {
    assert body[j..][1..] == body[j + 1..];
  }

  method ScanLabel(body: string, i: nat) returns (j: nat)
    requires i < |body| && LabelStart(body[i..])
    ensures j == i + 2 + Span(body[i + 2..])
  {
    j := i + 2;
    while j < |body| && Id(body[j])
      invariant i + 2 <= j <= |body|
      invariant i + 2 + Span(body[i + 2..]) == j + Span(body[j..])
    {
      SpanStep(body, j);
      j := j + 1;
    }
  }

  /** What is still to be written from position `i`, with the labels met so far. */
  ghost function Pending(body: string, i: nat, order: seq<string>): string
    requires i <= |body|
  {
    Print(Number(Lex(body[i..]), order))
  }

  lemma CharStep(body: string, i: nat, order: seq<string>)
    requires i < |body| && !LabelStart(body[i..])
    ensures Pending(body, i, order) == [body[i]] + Pending(body, i + 1, order)
  {
    assert body[i..][1..] == body[i + 1..];
  }

  lemma Slices(s: string, i: nat, j: nat)
    requires i + 2 <= j <= |s|
    ensures s[i..][2..] == s[i + 2..] && s[i..][..j - i] == s[i..j] && s[i..][j - i..] == s[j..]
  {
  }

  lemma LabelAt(body: string, i: nat, j: nat, order: seq<string>)
    requires i < |body| && LabelStart(body[i..]) && j == i + 2 + Span(body[i + 2..])
    ensures Pending(body, i, order) ==
            Canonical(IndexOf(order, body[i..j])) + Pending(body, j, Noted(order, body[i..j]))
  {
    Slices(body, i, j);
    var s, tok, rest := body[i..], body[i..j], body[j..];
    LexLabel(s);
    assert Lex(s) == Tok(tok, Lex(rest));
  }

  /** The label at position `i`: its end, its canonical name, and the map with it in. */
  method TakeLabel(body: string, i: nat, seen: map<string, string>, ghost order: seq<string>)
    returns (j: nat, name: string, seen': map<string, string>, ghost order': seq<string>)
    requires i < |body| && LabelStart(body[i..]) && Remembers(seen, order)
    ensures i < j <= |body| && Remembers(seen', order')
    ensures Pending(body, i, order) == name + Pending(body, j, order')
  {
    j := ScanLabel(body, i);
    var tok := body[i..j];
    LabelAt(body, i, j, order);
    seen', order' := seen, Noted(order, tok);
    if tok !in seen {
      RemembersNew(seen, order, tok);
      seen' := seen[tok := ".L#" + Decimal(|seen|)];
    }
    name := seen'[tok];
  }

  /** `canon_labels`. */
  method CanonLabelsLoop(body: string) returns (out: string)
    ensures out == Canon(body)
  {
    var seen: map<string, string> := map[];
    ghost var order: seq<string> := [];
    out := "";
    var i, n := 0, |body|;
    assert body[0..] == body;
    while i < n
      invariant 0 <= i <= n
      invariant Remembers(seen, order)
      invariant out + Pending(body, i, order) == Canon(body)
    {
      if body[i] == '.' && i + 2 < n && body[i + 1] == 'L' && Id(body[i + 2]) {
        var j, name;
        j, name, seen, order := TakeLabel(body, i, seen, order);
        Reassociate(out, name, Pending(body, j, order));
        out := out + name;
        i := j;
      } else {
        CharStep(body, i, order);
        Reassociate(out, [body[i]], Pending(body, i + 1, order));
        out := out + [body[i]];
        i := i + 1;
      }
    }
    assert Pending(body, n, order) == "";
  }

  // ------------------------------------------------------------ renaming leaves the canonical form alone

  function MapAll(f: map<string, string>, xs: seq<string>): (r: seq<string>)
    requires forall x :: x in xs ==> x in f
    ensures |r| == |xs|
  {
    if xs == [] then [] else [f[xs[0]]] + MapAll(f, xs[1..])
  }

  lemma {:induction false} IndexAfterMap(f: map<string, string>, seen: seq<string>, name: string)
    requires Renaming(f) && name in f && forall x :: x in seen ==> x in f
    ensures IndexOf(MapAll(f, seen), f[name]) == IndexOf(seen, name)
    decreases |seen|
  {
    if seen != [] && seen[0] != name {
      var less := seen[1..];
      assert seen[0] in seen && forall x :: x in less ==> x in seen;
      IndexAfterMap(f, less, name);
      assert MapAll(f, seen) == [f[seen[0]]] + MapAll(f, less);
    }
  }

  lemma {:induction false} MapSnoc(f: map<string, string>, seen: seq<string>, name: string)
    requires name in f && forall x :: x in seen ==> x in f
    ensures MapAll(f, seen + [name]) == MapAll(f, seen) + [f[name]]
    decreases |seen|
  {
    if seen != [] {
      assert forall x :: x in seen[1..] ==> x in seen;
      assert (seen + [name])[1..] == seen[1..] + [name];
      MapSnoc(f, seen[1..], name);
    }
  }

  lemma {:induction false} NumberRenamed(f: map<string, string>, b: Body, seen: seq<string>)
    requires Renaming(f) && Covers(f, b) && forall x :: x in seen ==> x in f
    ensures Number(Rename(f, b), MapAll(f, seen)) == Number(b, seen)
    decreases b
  {
    match b
    case End =>
    case Chr(_, rest) => NumberRenamed(f, rest, seen);
    case Tok(name, rest) =>
      IndexAfterMap(f, seen, name);
      MapSnoc(f, seen, name);
      NumberRenamed(f, rest, Noted(seen, name));
  }

  lemma RenamedIsSame(a: string, b: string)
    requires SameUpToLabels(a, b)
    ensures Canon(a) == Canon(b)
  {
    var f :| Renaming(f) && Covers(f, Lex(a)) && Render(Rename(f, Lex(a))) == b;
    LexReads(a);
    RenameReadable(f, Lex(a));
    LexRenders(Rename(f, Lex(a)));
    NumberRenamed(f, Lex(a), []);
  }

  // ------------------------------------------------------------ the canonical form gives a renaming

  ghost predicate NoHash(s: string) {
    forall i :: 0 <= i < |s| ==> s[i] != '#'
  }

  /** What the canonical form of a body without '#' looks like. */
  predicate Sound(x: Numbered) {
    match x
    case NEnd => true
    case NChr(c, rest) => c != '#' && Sound(rest)
    case NTok(_, rest) => !(rest.NChr? && Id(rest.c)) && Sound(rest)
  }

  lemma {:induction false} NumberSound(b: Body, seen: seq<string>)
    requires Readable(b) && NoHash(Render(b))
    ensures Sound(Number(b, seen))
    decreases b
  {
    match b
    case End =>
    case Chr(c, rest) =>
      assert Render(b)[0] == c && Render(b)[1..] == Render(rest);
      NumberSound(rest, seen);
    case Tok(name, rest) =>
      assert Render(b)[|name|..] == Render(rest);
      NumberSound(rest, Noted(seen, name));
  }

  ghost function Worth(s: string): int {
    if s == [] then 0 else 10 * Worth(s[..|s| - 1]) + (s[|s| - 1] as int - '0' as int)
  }

  lemma {:induction false} DecimalWorth(n: nat)
    ensures Worth(Decimal(n)) == n
  {
    if n < 10 {
      assert [Digit(n)][..0] == [];
      assert Worth([]) == 0;
    } else {
      DecimalWorth(n / 10);
      assert (Decimal(n / 10) + [Digit(n % 10)])[..|Decimal(n / 10)|] == Decimal(n / 10);
    }
  }

  ghost function DigitSpan(s: string): nat {
    if s == [] || !('0' <= s[0] <= '9') then 0 else 1 + DigitSpan(s[1..])
  }

  lemma {:induction false} DigitSpanOf(d: string, p: string)
    requires forall i :: 0 <= i < |d| ==> '0' <= d[i] <= '9'
    requires p != [] ==> !('0' <= p[0] <= '9')
    ensures DigitSpan(d + p) == |d|
    decreases |d|
  {
    if d == [] {
      assert d + p == p;
    } else {
      assert (d + p)[1..] == d[1..] + p;
      DigitSpanOf(d[1..], p);
    }
  }

  lemma SplitAt(d: string, p: string, d': string, p': string)
    requires d + p == d' + p' && |d| == |d'|
    ensures d == d' && p == p'
  {
    assert (d + p)[..|d|] == d && (d' + p')[..|d|] == d' && (d + p)[|d|..] == p && (d' + p')[|d|..] == p';
  }

  lemma PrintHead(x: Numbered)
    ensures Print(x) == [] <==> x.NEnd?
    ensures x.NChr? ==> Print(x)[0] == x.c && Print(x)[1..] == Print(x.rest)
    ensures x.NTok? ==> |Print(x)| > 3 && Print(x)[0] == '.' && Print(x)[1] == 'L' && Print(x)[2] == '#'
  {
  }

  lemma CharIsNoToken(x: Numbered)
    requires Sound(x) && x.NChr?
    ensures !(|Print(x)| > 2 && Print(x)[0] == '.' && Print(x)[1] == 'L' && Print(x)[2] == '#')
  {
    var s := Print(x);
    PrintHead(x);
    PrintHead(x.rest);
    if |s| > 2 && s[1] == 'L' {
      assert s[1] == Print(x.rest)[0];
      assert Sound(x.rest.rest);
      PrintHead(x.rest.rest);
      assert s[2] == Print(x.rest)[1] == Print(x.rest.rest)[0];
    }
  }

  lemma TokensMatch(n: nat, r: Numbered, n': nat, r': Numbered)
    requires Sound(NTok(n, r)) && Sound(NTok(n', r'))
    requires Print(NTok(n, r)) == Print(NTok(n', r'))
    ensures n == n' && Print(r) == Print(r')
  {
    PrintHead(r);
    PrintHead(r');
    Reassociate(".L#", Decimal(n), Print(r));
    Reassociate(".L#", Decimal(n'), Print(r'));
    SplitAt(".L#", Decimal(n) + Print(r), ".L#", Decimal(n') + Print(r'));
    DigitSpanOf(Decimal(n), Print(r));
    DigitSpanOf(Decimal(n'), Print(r'));
    SplitAt(Decimal(n), Print(r), Decimal(n'), Print(r'));
    DecimalWorth(n);
    DecimalWorth(n');
  }

  /** A canonical text is read in one way only. */
  lemma {:induction false} PrintIsInjective(x: Numbered, y: Numbered)
    requires Sound(x) && Sound(y) && Print(x) == Print(y)
    ensures x == y
  {
    PrintHead(x);
    PrintHead(y);
    if x.NChr? { CharIsNoToken(x); }
    if y.NChr? { CharIsNoToken(y); }
    if x.NChr? {
      PrintIsInjective(x.rest, y.rest);
    } else if x.NTok? {
      TokensMatch(x.n, x.rest, y.n, y.rest);
      PrintIsInjective(x.rest, y.rest);
    }
  }

  /** The labels of a body in order of first appearance. */
  function Labels(b: Body, seen: seq<string>): seq<string>
    decreases b
  {
    match b
    case End => seen
    case Chr(_, rest) => Labels(rest, seen)
    case Tok(name, rest) => Labels(rest, Noted(seen, name))
  }

  ghost predicate Distinct(xs: seq<string>) {
    forall i, j :: 0 <= i < j < |xs| ==> xs[i] != xs[j]
  }

  lemma {:induction false} LabelsGrow(b: Body, seen: seq<string>)
    requires Distinct(seen) && Readable(b) && forall x :: x in seen ==> IsLabel(x)
    ensures seen <= Labels(b, seen) && Distinct(Labels(b, seen))
    ensures forall x :: x in Labels(b, seen) ==> IsLabel(x)
    decreases b
  {
    match b
    case End =>
    case Chr(_, rest) => LabelsGrow(rest, seen);
    case Tok(name, rest) => LabelsGrow(rest, Noted(seen, name));
  }

  lemma IndexIs(xs: seq<string>, i: nat)
    requires Distinct(xs) && i < |xs|
    ensures IndexOf(xs, xs[i]) == i
  {
    var j := IndexOf(xs, xs[i]);
    assert xs[j] == xs[i];
  }

  function Zip(xs: seq<string>, ys: seq<string>): map<string, string>
    requires |xs| == |ys|
  {
    map x | x in xs :: ys[IndexOf(xs, x)]
  }

  /** Equal numberings: each label of one body stands exactly where its partner stands in the other. */
  lemma {:induction false} SameNumbersMatch(p: Body, q: Body, sa: seq<string>, sb: seq<string>)
    requires Readable(p) && Readable(q) && Number(p, sa) == Number(q, sb) && |sa| == |sb|
    requires Distinct(sa) && Distinct(sb)
    requires forall x :: x in sa || x in sb ==> IsLabel(x)
    ensures |Labels(p, sa)| == |Labels(q, sb)|
    ensures var f := Zip(Labels(p, sa), Labels(q, sb)); Covers(f, p) && Rename(f, p) == q
    decreases p
  {
    LabelsGrow(p, sa);
    LabelsGrow(q, sb);
    match p
    case End =>
    case Chr(_, rest) => SameNumbersMatch(rest, q.rest, sa, sb);
    case Tok(t, rest) =>
      var u := q.name;
      var k, sa', sb' := IndexOf(sa, t), Noted(sa, t), Noted(sb, u);
      assert sa'[k] == t && sb'[k] == u;
      SameNumbersMatch(rest, q.rest, sa', sb');
      LabelsGrow(rest, sa');
      LabelsGrow(q.rest, sb');
      var xs, ys := Labels(p, sa), Labels(q, sb);
      assert xs[k] == t && ys[k] == u;
      IndexIs(xs, k);
  }

  lemma ZipRenames(xs: seq<string>, ys: seq<string>)
    requires |xs| == |ys| && Distinct(ys) && forall y :: y in ys ==> IsLabel(y)
    ensures Renaming(Zip(xs, ys))
  {
    var f := Zip(xs, ys);
    forall x, y | x in f && y in f && f[x] == f[y] ensures x == y {
      var i, j := IndexOf(xs, x), IndexOf(xs, y);
      assert ys[i] == ys[j];
      assert i == j;
      assert xs[i] == x && xs[j] == y;
    }
  }

  lemma SameIsRenamed(a: string, b: string)
    requires NoHash(a) && NoHash(b) && Canon(a) == Canon(b)
    ensures SameUpToLabels(a, b)
  {
    LexReads(a);
    LexReads(b);
    NumberSound(Lex(a), []);
    NumberSound(Lex(b), []);
    PrintIsInjective(Number(Lex(a), []), Number(Lex(b), []));
    SameNumbersMatch(Lex(a), Lex(b), [], []);
    LabelsGrow(Lex(b), []);
    ZipRenames(Labels(Lex(a), []), Labels(Lex(b), []));
  }

  lemma HashParts(a: string, b: string)
    ensures NoHash(a + b) <==> NoHash(a) && NoHash(b)
  {
    if NoHash(a + b) {
      assert forall i :: 0 <= i < |a| ==> a[i] == (a + b)[i];
      assert forall i :: 0 <= i < |b| ==> b[i] == (a + b)[|a| + i];
    }
  }

  /** Renaming labels neither brings in a '#' nor takes one away. */
  lemma {:induction false} RenameKeepsHashes(f: map<string, string>, b: Body)
    requires Renaming(f) && Covers(f, b) && Readable(b)
    ensures NoHash(Render(Rename(f, b))) <==> NoHash(Render(b))
  {
    match b
    case End =>
    case Chr(c, rest) =>
      RenameKeepsHashes(f, rest);
      HashParts([c], Render(rest));
      HashParts([c], Render(Rename(f, rest)));
    case Tok(name, rest) =>
      RenameKeepsHashes(f, rest);
      HashParts(name, Render(rest));
      HashParts(f[name], Render(Rename(f, rest)));
  }

  /** For every body `a` without '#' and every text whatever, `canon_labels` agrees exactly on the renamings
      of `a` and on texts with a '#'; so between bodies without '#' it decides renaming. */
  lemma CanonDecidesRenaming(a: string, b: string)
    requires NoHash(a)
    ensures SameUpToLabels(a, b) <==> Canon(a) == Canon(b) && NoHash(b)
  {
    if SameUpToLabels(a, b) {
      RenamedIsSame(a, b);
      LexReads(a);
      var f :| Renaming(f) && Covers(f, Lex(a)) && Render(Rename(f, Lex(a))) == b;
      RenameKeepsHashes(f, Lex(a));
    }
    if Canon(a) == Canon(b) && NoHash(b) { SameIsRenamed(a, b); }
  }

  /** A text with a '#' that looks canonical already: it agrees with a body it is no renaming of. */
  lemma HashBreaksIt()
    ensures Canon(".L#0") == Canon(".L5") && !SameUpToLabels(".L#0", ".L5")
  {
    var a, b := ".L#0", ".L5";
    LexPlain('0', "");
    LexPlain('#', "0");
    LexPlain('L', "#0");
    LexPlain('.', "L#0");
    assert "L#0" == ['L'] + "#0" && "#0" == ['#'] + "0" && "0" == ['0'] + "" && a == ['.'] + "L#0";
    assert Lex("") == End;
    assert Lex(a) == Chr('.', Chr('L', Chr('#', Chr('0', End))));
    LexToken(".L5", "");
    assert b + "" == b;
    assert Lex(b) == Tok(b, End);
    assert Number(Lex(b), []) == NTok(0, NEnd);
    assert Decimal(0) == "0";
    assert Print(Number(Lex(b), [])) == ".L#0" + "" == a;
    LexReads(a);
    NoTokens(Lex(a), []);
    forall f | Renaming(f) && Covers(f, Lex(a)) ensures Render(Rename(f, Lex(a))) != b {
      assert Rename(f, Lex(a)) == Lex(a);
    }
  }

  /** The characters of a label: letters, digits, underscore and dollar. */
  ghost predicate LabelChar(c: char) {
    'A' <= c <= 'Z' || 'a' <= c <= 'z' || '0' <= c <= '9' || c == '_' || c == '$'
  }

  /** ".L" and any such characters, a "C" and a number among them, are one label, and it ends at the first
      character that is not one. */
  lemma LabelIsWhole(s: string, c: char)
    requires s != "" && forall i :: 0 <= i < |s| ==> LabelChar(s[i])
    ensures Canon(".L" + s) == ".L#0"
    ensures !LabelChar(c) ==> Canon(".L" + s + [c]) == ".L#0" + [c]
  {
    var name := ".L" + s;
    assert name + "" == name && Lex("") == End;
    assert IsLabel(name) by { assert forall i :: 2 <= i < |name| ==> name[i] == s[i - 2]; }
    LexToken(name, "");
    OneLabel(name, End);
    assert Print(NEnd) == "" && Canonical(0) + "" == ".L#0";
    if !LabelChar(c) {
      LexToken(name, [c]);
      assert [c] + "" == [c];
      LexPlain(c, "");
      OneLabel(name, Chr(c, End));
      assert Print(NChr(c, NEnd)) == [c];
    }
  }

  lemma OneLabel(name: string, rest: Body)
    requires rest.End? || (rest.Chr? && rest.rest.End?)
    ensures Number(Tok(name, rest), []) == NTok(0, if rest.End? then NEnd else NChr(rest.c, NEnd))
    ensures Canonical(0) == ".L#0"
  {
    assert Decimal(0) == "0";
    if rest.Chr? { assert Number(rest.rest, Noted([], name)) == NEnd; }
  }

  /** A body without labels is its own canonical form. */
  predicate Tokenless(b: Body) {
    match b
    case End => true
    case Chr(_, rest) => Tokenless(rest)
    case Tok(_, _) => false
  }

  lemma {:induction false} NoTokens(b: Body, seen: seq<string>)
    requires Tokenless(b)
    ensures Print(Number(b, seen)) == Render(b)
    ensures forall f :: Covers(f, b) ==> Rename(f, b) == b
    decreases b
  {
    if b.Chr? { NoTokens(b.rest, seen); }
  }

  // ------------------------------------------------------------ idempotence

  predicate Tidy(x: Numbered) {
    match x
    case NEnd => true
    case NTok(_, rest) => Tidy(rest)
    case NChr(c, rest) =>
      !(c == '.' && rest.NChr? && rest.c == 'L' && rest.rest.NChr? && Id(rest.rest.c)) && Tidy(rest)
  }

  lemma {:induction false} NumberTidy(b: Body, seen: seq<string>)
    requires Readable(b)
    ensures Tidy(Number(b, seen))
    decreases b
  {
    match b
    case End =>
    case Chr(_, rest) =>
      NumberTidy(rest, seen);
      assert rest.Chr? ==> Number(rest, seen).rest == Number(rest.rest, seen);
    case Tok(name, rest) => NumberTidy(rest, Noted(seen, name));
  }

  lemma {:induction false} InertPrefix(d: string, r: string)
    requires Tokenless(Lex(r)) && forall i :: 0 <= i < |d| ==> d[i] != '.'
    ensures Tokenless(Lex(d + r))
    decreases |d|
  {
    if d == [] {
      assert d + r == r;
    } else {
      InertPrefix(d[1..], r);
      assert d + r == [d[0]] + (d[1..] + r);
      LexPlain(d[0], d[1..] + r);
    }
  }

  lemma TokenPrintInert(n: nat, r: string)
    requires Tokenless(Lex(r))
    ensures Tokenless(Lex(Canonical(n) + r))
  {
    var d := "L#" + Decimal(n);
    InertPrefix(d, r);
    var s := d + r;
    assert ['.'] + s == Canonical(n) + r;
    assert s[1] == '#';
    LexPlain('.', s);
  }

  lemma CharPrintInert(c: char, rest: Numbered)
    requires Tidy(NChr(c, rest))
    ensures !LabelStart([c] + Print(rest))
  {
    var s, r := [c] + Print(rest), Print(rest);
    PrintHead(rest);
    if c == '.' && rest.NChr? && rest.c == 'L' {
      PrintHead(rest.rest);
      assert |s| > 2 ==> s[2] == r[1] == Print(rest.rest)[0];
    } else if |s| > 2 {
      assert s[1] == r[0];
    }
  }

  lemma {:induction false} PrintIsTokenless(x: Numbered)
    requires Tidy(x)
    ensures Tokenless(Lex(Print(x)))
  {
    match x
    case NEnd =>
    case NChr(c, rest) =>
      PrintIsTokenless(rest);
      CharPrintInert(c, rest);
      LexPlain(c, Print(rest));
    case NTok(n, rest) =>
      PrintIsTokenless(rest);
      TokenPrintInert(n, Print(rest));
  }

  /** Canonicalising twice changes nothing, for every body. */
  lemma CanonIsIdempotent(a: string)
    ensures Canon(Canon(a)) == Canon(a)
  {
    LexReads(a);
    NumberTidy(Lex(a), []);
    PrintIsTokenless(Number(Lex(a), []));
    LexReads(Canon(a));
    NoTokens(Lex(Canon(a)), []);
  }
}
