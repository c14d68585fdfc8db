/** `normalize`: one function's body cut out of a compiler's assembly output, and the comparison the
    harness makes of two such bodies. The input is the text's lines, as `std::getline` yields them. */
module Normalize {
  import opened Wrappers
  import opened Sequences
  import opened TextLines
  import opened CanonLabels

  predicate Blank(c: char) { c == ' ' || c == '\t' }

  function DropHead(s: string): string {
    if s != [] && Blank(s[0]) then DropHead(s[1..]) else s
  }

  function DropTail(s: string): string {
    if s != [] && Blank(s[|s| - 1]) then DropTail(s[..|s| - 1]) else s
  }

  function Trim(s: string): string { DropTail(DropHead(s)) }

  predicate StartsWith(t: string, p: string) {
    p == [] || (t != [] && t[0] == p[0] && StartsWith(t[1..], p[1..]))
  }

  predicate Contains(t: string, p: string) {
    StartsWith(t, p) || (t != [] && Contains(t[1..], p))
  }

  lemma {:induction false} StartsWithIsPrefix(t: string, p: string)
    ensures StartsWith(t, p) <==> p <= t
    decreases |p|
  {
    if p != [] && t != [] { StartsWithIsPrefix(t[1..], p[1..]); }
  }

  lemma {:induction false} ContainsIsOccurs(t: string, p: string)
    ensures Contains(t, p) <==> exists i :: 0 <= i <= |t| && p <= t[i..]
    decreases |t|
  {
    StartsWithIsPrefix(t, p);
    assert t[0..] == t;
    if t != [] {
      ContainsIsOccurs(t[1..], p);
      assert forall i :: 1 <= i <= |t| ==> t[1..][i - 1..] == t[i..];
      if i :| 0 <= i <= |t[1..]| && p <= t[1..][i..] { assert p <= t[i + 1..]; }
    }
  }

  /** The position of the first '#', or the length. */
  function HashAt(t: string): (h: nat)
    ensures h <= |t| && NoHash(t[..h]) && (h < |t| ==> t[h] == '#')
  {
    if t == [] || t[0] == '#' then 0
    else
      var h := 1 + HashAt(t[1..]);
      assert forall i :: 1 <= i < h ==> t[i] == t[1..][i - 1];
      h
  }

  /** A line of the body as it is kept: trimmed, and cut at a comment. */
  function Clean(line: string): string {
    var t := Trim(line);
    var h := HashAt(t);
    if h < |t| then Trim(t[..h]) else t
  }

  /** Neither empty nor a directive. */
  predicate Keep(t: string) {
    t != [] && !(t[0] == '.' && t[|t| - 1] != ':')
  }

  predicate IsLabelLine(t: string) { t != [] && t[|t| - 1] == ':' }

  /** Stack traffic, per architecture. */
  predicate X86Traffic(t: string) {
    Contains(t, "(%rsp)") || Contains(t, "(%rbp)") || StartsWith(t, "push") || StartsWith(t, "pop")
  }

  predicate ArmTraffic(t: string) {
    Contains(t, "[sp") || Contains(t, "[x29") || StartsWith(t, "stp") || StartsWith(t, "ldp")
  }

  function TrafficOn(arch: string): string -> bool {
    if arch == "x86_64" then X86Traffic else ArmTraffic
  }

  predicate EndsBody(line: string) {
    StartsWith(Trim(line), ".size") || StartsWith(Trim(line), ".cfi_endproc")
  }

  // ------------------------------------------------------------ what the tests mean

  ghost predicate Occurs(p: string, t: string) {
    exists i :: 0 <= i <= |t| && p <= t[i..]
  }

  /** An instruction that touches the stack, as the searches of the source mean it. */
  ghost predicate TouchesStack(arch: string, t: string) {
    if arch == "x86_64" then Occurs("(%rsp)", t) || Occurs("(%rbp)", t) || "push" <= t || "pop" <= t
    else Occurs("[sp", t) || Occurs("[x29", t) || "stp" <= t || "ldp" <= t
  }

  lemma TrafficTouchesStack(arch: string, t: string)
    ensures TrafficOn(arch)(t) <==> TouchesStack(arch, t)
  {
    if arch == "x86_64" {
      ContainsIsOccurs(t, "(%rsp)");
      ContainsIsOccurs(t, "(%rbp)");
      StartsWithIsPrefix(t, "push");
      StartsWithIsPrefix(t, "pop");
    } else {
      ContainsIsOccurs(t, "[sp");
      ContainsIsOccurs(t, "[x29");
      StartsWithIsPrefix(t, "stp");
      StartsWithIsPrefix(t, "ldp");
    }
  }

  lemma EndIsPrefix(line: string)
    ensures EndsBody(line) <==> ".size" <= Trim(line) || ".cfi_endproc" <= Trim(line)
  {
    StartsWithIsPrefix(Trim(line), ".size");
    StartsWithIsPrefix(Trim(line), ".cfi_endproc");
  }

  ghost predicate BlankChar(c: char) { c == ' ' || c == '\t' }

  ghost predicate AllBlank(s: string) {
    forall i :: 0 <= i < |s| ==> BlankChar(s[i])
  }

  /** `t` is `s` without the blanks at its ends. */
  ghost predicate TrimOf(s: string, t: string) {
    && (exists a, b :: s == a + t + b && AllBlank(a) && AllBlank(b))
    && (t != [] ==> !BlankChar(t[0]) && !BlankChar(t[|t| - 1]))
  }

  /** Trimming takes away the blanks at both ends, and nothing else; there is one way to do it. */
  lemma {:induction false} TrimMeans(s: string, t: string)
    ensures TrimOf(s, t) <==> t == Trim(s)
  {
    var a := HeadMeans(s);
    var b := TailMeans(DropHead(s));
    var u := DropHead(s);
    assert u == Trim(s) + b;
    assert s == a + Trim(s) + b;
    if Trim(s) != [] {
      assert Trim(s)[0] == u[0];
    }
    assert TrimOf(s, Trim(s));
    if TrimOf(s, t) {
      var a', b' :| s == a' + t + b' && AllBlank(a') && AllBlank(b');
      OneTrim(s, a, Trim(s), b, a', t, b');
    }
  }

  /** Two ways of taking blanks off both ends down to something that does not begin or end with one. */
  lemma OneTrim(s: string, a: string, t: string, b: string, a': string, t': string, b': string)
    requires s == a + t + b && AllBlank(a) && AllBlank(b) && (t != [] ==> !BlankChar(t[0]) && !BlankChar(t[|t| - 1]))
    requires s == a' + t' + b' && AllBlank(a') && AllBlank(b')
    requires t' != [] ==> !BlankChar(t'[0]) && !BlankChar(t'[|t'| - 1])
    ensures t == t'
  {
    if t == [] || t' == [] {
      if t != [] { BlankAround(s, a', b', a, t, b); }
      if t' != [] { BlankAround(s, a, b, a', t', b'); }
    } else {
      NotFurther(s, a, t, b, a', t', b');
      NotFurther(s, a', t', b', a, t, b);
      assert t == s[|a|..|a| + |t|] && t' == s[|a'|..|a'| + |t'|];
    }
  }

  /** A text of blanks has nothing else in it. */
  lemma BlankAround(s: string, a: string, b: string, a': string, t': string, b': string)
    requires s == a + b && AllBlank(a) && AllBlank(b) && s == a' + t' + b' && t' != []
    ensures BlankChar(t'[0])
  {
    assert s[|a'|] == t'[0];
    assert |a'| < |a| ==> s[|a'|] == a[|a'|];
    assert |a'| >= |a| ==> s[|a'|] == b[|a'| - |a|];
  }

  lemma NotFurther(s: string, a: string, t: string, b: string, a': string, t': string, b': string)
    requires s == a + t + b && AllBlank(a) && AllBlank(b) && t != [] && s == a' + t' + b' && t' != []
    requires !BlankChar(t'[0]) && !BlankChar(t'[|t'| - 1])
    ensures |a| <= |a'| && |b| <= |b'|
  {
    if |a'| < |a| { assert s[|a'|] == t'[0] && s[|a'|] == a[|a'|]; }
    var k := |a'| + |t'| - 1;
    assert s[k] == t'[|t'| - 1];
  }

  lemma {:induction false} HeadMeans(s: string) returns (a: string)
    ensures s == a + DropHead(s) && AllBlank(a)
    ensures DropHead(s) != [] ==> !BlankChar(DropHead(s)[0])
    decreases |s|
  {
    a := [];
    if s != [] && Blank(s[0]) {
      var rest := HeadMeans(s[1..]);
      a := [s[0]] + rest;
    }
  }

  lemma {:induction false} TailMeans(s: string) returns (b: string)
    ensures s == DropTail(s) + b && AllBlank(b)
    ensures DropTail(s) != [] ==> !BlankChar(DropTail(s)[|DropTail(s)| - 1])
    decreases |s|
  {
    b := [];
    if s != [] && Blank(s[|s| - 1]) {
      var rest := TailMeans(s[..|s| - 1]);
      b := rest + [s[|s| - 1]];
    }
  }

  // ------------------------------------------------------------ what is kept

  /** Where the function's label stands, or the number of lines. */
  function LabelLine(lines: seq<string>, start: string): (i: nat)
    ensures i <= |lines|
  {
    if lines == [] then 0 else if Trim(lines[0]) == start then 0 else 1 + LabelLine(lines[1..], start)
  }

  lemma {:induction false} LabelLineIsFirst(lines: seq<string>, start: string)
    ensures var i := LabelLine(lines, start);
            && (i < |lines| ==> Trim(lines[i]) == start)
            && (forall j :: 0 <= j < i ==> Trim(lines[j]) != start)
    decreases |lines|
  {
    if lines != [] && Trim(lines[0]) != start {
      LabelLineIsFirst(lines[1..], start);
      assert forall j :: 1 <= j < |lines| ==> lines[j] == lines[1..][j - 1];
    }
  }

  /** The kept lines of a body, up to the directive that ends it. */
  function KeptLines(lines: seq<string>): seq<string> {
    if lines == [] || EndsBody(lines[0]) then []
    else
      var t := Clean(lines[0]);
      (if Keep(t) then [t] else []) + KeptLines(lines[1..])
  }

  /** What is kept after the function's label. */
  function BodyLines(lines: seq<string>, start: string): seq<string> {
    if lines == [] then []
    else if Trim(lines[0]) == start then KeptLines(lines[1..])
    else BodyLines(lines[1..], start)
  }

  lemma {:induction false} BodyFollowsLabel(lines: seq<string>, start: string)
    ensures var i := LabelLine(lines, start);
            BodyLines(lines, start) == if i == |lines| then [] else KeptLines(lines[i + 1..])
    decreases |lines|
  {
    if lines != [] && Trim(lines[0]) != start {
      BodyFollowsLabel(lines[1..], start);
      var k := LabelLine(lines[1..], start);
      if k < |lines| - 1 { assert lines[1..][k + 1..] == lines[k + 2..]; }
    }
  }

  // ------------------------------------------------------------ which lines are kept, by position

  /** What is left of a line: trimmed, cut at its first '#', trimmed again. */
  ghost predicate IsRemainder(line: string, r: string) {
    exists t :: TrimOf(line, t) && if NoHash(t) then r == t else exists h :: FirstHash(t, h) && TrimOf(t[..h], r)
  }

  ghost predicate FirstHash(t: string, h: nat) {
    h < |t| && t[h] == '#' && NoHash(t[..h])
  }

  lemma CleanMeans(line: string, r: string)
    ensures IsRemainder(line, r) <==> r == Clean(line)
  {
    var t := Trim(line);
    var h := HashAt(t);
    TrimMeans(line, t);
    forall u | TrimOf(line, u) ensures u == t { TrimMeans(line, u); }
    if h < |t| {
      assert FirstHash(t, h) && !NoHash(t);
      forall k | FirstHash(t, k) ensures k == h { OneFirstHash(t, k, h); }
      TrimMeans(t[..h], r);
    } else {
      assert t[..h] == t;
    }
  }

  lemma OneFirstHash(t: string, k: nat, h: nat)
    requires FirstHash(t, k) && FirstHash(t, h)
    ensures k == h
  {
  }

  /** A remainder that goes into the text: not empty, and a label or no directive. */
  ghost predicate GoesIn(r: string) {
    r != "" && (r[0] != '.' || r[|r| - 1] == ':')
  }

  /** A line that ends the function. */
  ghost predicate IsEnd(line: string) {
    exists t :: TrimOf(line, t) && (".size" <= t || ".cfi_endproc" <= t)
  }

  lemma EndMeans(line: string)
    ensures EndsBody(line) <==> IsEnd(line)
  {
    EndIsPrefix(line);
    TrimMeans(line, Trim(line));
    forall t | TrimOf(line, t) ensures t == Trim(line) { TrimMeans(line, t); }
  }

  /** What a line gives, if anything. */
  function Contribution(line: string): Option<string> {
    if Keep(Clean(line)) then Some(Clean(line)) else None
  }

  lemma ContributionMeans(line: string, r: string)
    ensures Contribution(line) == Some(r) <==> IsRemainder(line, r) && GoesIn(r)
  {
    CleanMeans(line, r);
  }

  function Contributions(lines: seq<string>): (r: seq<Option<string>>)
    ensures |r| == |lines| && forall i :: 0 <= i < |r| ==> r[i] == Contribution(lines[i])
  {
    seq(|lines|, i requires 0 <= i < |lines| => Contribution(lines[i]))
  }

  /** The first line from `i` on that ends the function, or the number of lines. */
  function EndFrom(lines: seq<string>, i: nat): (e: nat)
    requires i <= |lines|
    ensures i <= e <= |lines| && (e < |lines| ==> EndsBody(lines[e]))
    ensures forall k :: i <= k < e ==> !EndsBody(lines[k])
    decreases |lines| - i
  {
    if i == |lines| || EndsBody(lines[i]) then i else EndFrom(lines, i + 1)
  }

  lemma {:induction false} KeptAreCollected(lines: seq<string>, i: nat)
    requires i <= |lines|
    ensures KeptLines(lines[i..]) == Collect(Contributions(lines), i, EndFrom(lines, i))
    decreases |lines| - i
  {
    if i < |lines| && !EndsBody(lines[i]) {
      KeptAreCollected(lines, i + 1);
      KeptStarts(lines, i);
      assert Contributions(lines)[i] == Contribution(lines[i]);
    }
  }

  lemma KeptStarts(lines: seq<string>, i: nat)
    requires i < |lines| && !EndsBody(lines[i])
    ensures var c := Contribution(lines[i]);
            KeptLines(lines[i..]) == (if c.Some? then [c.value] else []) + KeptLines(lines[i + 1..])
  {
    assert lines[i..][0] == lines[i] && lines[i..][1..] == lines[i + 1..];
  }

  /** The kept lines by position: `l` is the function's label line, `e` the first ending line after it, or the
      number of lines; in between a line contributes exactly when its remainder goes in, exactly that
      remainder, in order. */
  ghost predicate IsBody(lines: seq<string>, start: string, kept: seq<string>, l: nat, e: nat, ks: seq<nat>) {
    && l < e <= |lines| && TrimOf(lines[l], start) && (forall i :: 0 <= i < l ==> !TrimOf(lines[i], start))
    && (e < |lines| ==> IsEnd(lines[e])) && (forall i :: l < i < e ==> !IsEnd(lines[i]))
    && |ks| == |kept| && (forall j, k :: 0 <= j < k < |ks| ==> ks[j] < ks[k])
    && (forall j :: 0 <= j < |ks| ==> l < ks[j] < e && IsRemainder(lines[ks[j]], kept[j]) && GoesIn(kept[j]))
    && (forall i, r :: l < i < e && IsRemainder(lines[i], r) && GoesIn(r) ==> i in ks)
  }

  /** On every text the body is that, or nothing when no line is the function's label. */
  lemma BodyMeans(lines: seq<string>, start: string) returns (l: nat, e: nat, ks: seq<nat>)
    ensures LabelLine(lines, start) < |lines| ==> IsBody(lines, start, BodyLines(lines, start), l, e, ks)
    ensures LabelLine(lines, start) == |lines| ==>
              BodyLines(lines, start) == [] && forall i :: 0 <= i < |lines| ==> !TrimOf(lines[i], start)
  {
    l, e, ks := LabelLine(lines, start), 0, [];
    LabelMeans(lines, start);
    BodyFollowsLabel(lines, start);
    if l < |lines| { e, ks := KeptBody(lines, start, l); }
  }

  lemma KeptBody(lines: seq<string>, start: string, l: nat) returns (e: nat, ks: seq<nat>)
    requires l < |lines| && TrimOf(lines[l], start) && (forall i :: 0 <= i < l ==> !TrimOf(lines[i], start))
    ensures IsBody(lines, start, KeptLines(lines[l + 1..]), l, e, ks)
  {
    e := EndFrom(lines, l + 1);
    ks := CollectPlaces(Contributions(lines), l + 1, e);
    KeptAreCollected(lines, l + 1);
    PlacesAreBody(lines, start, KeptLines(lines[l + 1..]), l, e, ks);
  }

  lemma LabelMeans(lines: seq<string>, start: string)
    ensures var l := LabelLine(lines, start);
            (l < |lines| ==> TrimOf(lines[l], start)) && forall i :: 0 <= i < l ==> !TrimOf(lines[i], start)
  {
    LabelLineIsFirst(lines, start);
    forall i | 0 <= i < |lines| ensures TrimOf(lines[i], start) <==> Trim(lines[i]) == start {
      TrimMeans(lines[i], start);
    }
  }

  lemma PlacesAreBody(lines: seq<string>, start: string, kept: seq<string>, l: nat, e: nat, ks: seq<nat>)
    requires l < |lines| && TrimOf(lines[l], start) && (forall i :: 0 <= i < l ==> !TrimOf(lines[i], start))
    requires e == EndFrom(lines, l + 1) && Places(Contributions(lines), l + 1, e, kept, ks)
    ensures IsBody(lines, start, kept, l, e, ks)
  {
    forall i | l < i < |lines| ensures EndsBody(lines[i]) <==> IsEnd(lines[i]) { EndMeans(lines[i]); }
    forall j | 0 <= j < |ks| ensures IsRemainder(lines[ks[j]], kept[j]) && GoesIn(kept[j]) {
      ContributionMeans(lines[ks[j]], kept[j]);
    }
    forall i, r | l < i < e && IsRemainder(lines[i], r) && GoesIn(r) ensures i in ks {
      ContributionMeans(lines[i], r);
      assert Contributions(lines)[i].Some?;
    }
  }

  // ------------------------------------------------------------ the record

  /** The instructions are the kept lines that do not end with a colon. */
  lemma {:induction false} InstructionsCount(ts: seq<string>)
    ensures Instructions(ts) == |set i | 0 <= i < |ts| && !(ts[i] != "" && ts[i][|ts[i]| - 1] == ':')|
    decreases |ts|
  {
    if ts != [] {
      var k := |ts| - 1;
      var less := ts[..k];
      InstructionsCount(less);
      var a := set i | 0 <= i < |less| && !(less[i] != "" && less[i][|less[i]| - 1] == ':');
      var b := set i | 0 <= i < |ts| && !(ts[i] != "" && ts[i][|ts[i]| - 1] == ':');
      assert b == if IsLabelLine(ts[k]) then a else a + {k};
    }
  }

  function Instructions(ts: seq<string>): nat {
    if ts == [] then 0
    else Instructions(ts[..|ts| - 1]) + (if IsLabelLine(ts[|ts| - 1]) then 0 else 1)
  }

  ghost predicate Spills(ts: seq<string>, traffic: string -> bool) {
    exists i :: 0 <= i < |ts| && !IsLabelLine(ts[i]) && traffic(ts[i])
  }

  datatype Normalized = Normalized(text: string, instructions: nat, spilled: bool, found: bool)

  lemma Snoc(ts: seq<string>, t: string, traffic: string -> bool)
    ensures Terminated(ts + [t]) == Terminated(ts) + t + "\n"
    ensures Instructions(ts + [t]) == Instructions(ts) + (if IsLabelLine(t) then 0 else 1)
    ensures Spills(ts + [t], traffic) <==> Spills(ts, traffic) || (!IsLabelLine(t) && traffic(t))
  {
    TerminatedSnoc(ts, t);
    assert (ts + [t])[..|ts|] == ts;
    if Spills(ts, traffic) {
      var i :| 0 <= i < |ts| && !IsLabelLine(ts[i]) && traffic(ts[i]);
      assert (ts + [t])[i] == ts[i];
    }
    if !IsLabelLine(t) && traffic(t) { assert (ts + [t])[|ts|] == t; }
  }

  /** The record describes exactly the lines kept. */
  ghost predicate Describes(n: Normalized, kept: seq<string>, traffic: string -> bool) {
    n.text == Terminated(kept) && n.instructions == Instructions(kept) && (n.spilled <==> Spills(kept, traffic))
  }

  /** What is still to be kept, before or inside the body. */
  function Reading(lines: seq<string>, inside: bool, start: string): seq<string> {
    if lines == [] then []
    else if !inside then Reading(lines[1..], Trim(lines[0]) == start, start)
    else if EndsBody(lines[0]) then []
    else KeptOf(lines[0]) + Reading(lines[1..], true, start)
  }

  lemma {:induction false} ReadingIsKept(lines: seq<string>, start: string)
    ensures Reading(lines, true, start) == KeptLines(lines)
    decreases |lines|
  {
    if lines != [] { ReadingIsKept(lines[1..], start); }
  }

  lemma {:induction false} ReadingIsBody(lines: seq<string>, start: string)
    ensures Reading(lines, false, start) == BodyLines(lines, start)
    decreases |lines|
  {
    if lines != [] {
      ReadingIsBody(lines[1..], start);
      ReadingIsKept(lines[1..], start);
    }
  }

  lemma ReadingStep(lines: seq<string>, i: nat, inside: bool, start: string)
    requires i < |lines|
    ensures Reading(lines[i..], inside, start) ==
            if !inside then Reading(lines[i + 1..], Trim(lines[i]) == start, start)
            else if EndsBody(lines[i]) then []
            else KeptOf(lines[i]) + Reading(lines[i + 1..], true, start)
  {
    assert lines[i..][1..] == lines[i + 1..];
  }

  function KeptOf(line: string): seq<string> {
    if Keep(Clean(line)) then [Clean(line)] else []
  }

  /** One line inside the body: stop, skip it, or put it into the record. */
  method TakeLine(n: Normalized, line: string, traffic: string -> bool, ghost kept: seq<string>)
    returns (stop: bool, n': Normalized)
    requires Describes(n, kept, traffic)
    ensures stop <==> EndsBody(line)
    ensures n'.found == n.found
    ensures Describes(n', if stop then kept else kept + KeptOf(line), traffic)
  {
    stop, n' := false, n;
    if EndsBody(line) { return true, n; }
    var t := Clean(line);
    if t == [] || (t[0] == '.' && t[|t| - 1] != ':') {
      assert kept + [] == kept;
      return;
    }
    Snoc(kept, t, traffic);
    n' := n.(text := n.text + t + "\n");
    if t[|t| - 1] == ':' { return; }
    n' := n'.(instructions := n.instructions + 1);
    if traffic(t) { n' := n'.(spilled := true); }
  }

  ghost predicate SomeTouchesStack(kept: seq<string>, arch: string) {
    exists i :: 0 <= i < |kept| && !IsLabelLine(kept[i]) && TouchesStack(arch, kept[i])
  }

  lemma SpilledMeans(n: Normalized, kept: seq<string>, arch: string)
    requires Describes(n, kept, TrafficOn(arch))
    ensures n.spilled <==> SomeTouchesStack(kept, arch)
  {
    forall i | 0 <= i < |kept| ensures TrafficOn(arch)(kept[i]) <==> TouchesStack(arch, kept[i]) {
      TrafficTouchesStack(arch, kept[i]);
    }
  }

  /** One turn of the loop: look for the label, or take a line of the body. */
  method ReadLine(n: Normalized, inside: bool, line: string, start: string, traffic: string -> bool,
                  ghost kept: seq<string>)
    returns (stop: bool, n': Normalized, inside': bool, ghost kept': seq<string>)
    requires n.found == inside && Describes(n, kept, traffic)
    ensures n'.found == inside' && Describes(n', kept', traffic)
    ensures stop <==> inside && EndsBody(line)
    ensures inside' <==> inside || Trim(line) == start
    ensures kept' == if inside && !stop then kept + KeptOf(line) else kept
  {
    stop, n', inside', kept' := false, n, inside, kept;
    if !inside {
      if Trim(line) == start {
        inside' := true;
        n' := n.(found := true);
      }
    } else {
      stop, n' := TakeLine(n, line, traffic, kept);
      if !stop { kept' := kept + KeptOf(line); }
    }
  }

  lemma KeptStep(lines: seq<string>, i: nat, inside: bool, start: string, kept: seq<string>)
    requires i < |lines|
    ensures kept + Reading(lines[i..], inside, start) ==
            if !inside then kept + Reading(lines[i + 1..], Trim(lines[i]) == start, start)
            else if EndsBody(lines[i]) then kept
            else (kept + KeptOf(lines[i])) + Reading(lines[i + 1..], true, start)
  {
    ReadingStep(lines, i, inside, start);
    if inside && !EndsBody(lines[i]) { Reassociate(kept, KeptOf(lines[i]), Reading(lines[i + 1..], true, start)); }
  }

  lemma LabelStep(lines: seq<string>, i: nat, start: string)
    requires i < |lines|
    ensures LabelLine(lines, start) <= i <==> LabelLine(lines, start) < i || Trim(lines[i]) == start
  {
    LabelLineIsFirst(lines, start);
  }

  /** Where the loop is: what it has kept, and what is still to come, are the whole body. */
  ghost predicate LoopAt(lines: seq<string>, start: string, i: nat, inside: bool, kept: seq<string>) {
    && i <= |lines| && BodyLines(lines, start) == kept + Reading(lines[i..], inside, start)
    && (inside <==> LabelLine(lines, start) < i)
  }

  lemma LoopStarts(lines: seq<string>, start: string)
    ensures LoopAt(lines, start, 0, false, [])
  {
    assert lines[0..] == lines;
    ReadingIsBody(lines, start);
  }

  lemma LoopGoesOn(lines: seq<string>, start: string, i: nat, inside: bool, kept: seq<string>)
    requires i < |lines| && LoopAt(lines, start, i, inside, kept)
    ensures if inside && EndsBody(lines[i]) then BodyLines(lines, start) == kept && LabelLine(lines, start) < |lines|
            else LoopAt(lines, start, i + 1, inside || Trim(lines[i]) == start, if inside then kept + KeptOf(lines[i]) else kept)
  {
    KeptStep(lines, i, inside, start, kept);
    LabelStep(lines, i, start);
  }

  lemma LoopEnds(lines: seq<string>, start: string, inside: bool, kept: seq<string>)
    requires LoopAt(lines, start, |lines|, inside, kept)
    ensures BodyLines(lines, start) == kept
  {
    assert lines[|lines|..] == [];
  }

  /** The loop over the lines. */
  method NormalizeScan(lines: seq<string>, start: string, traffic: string -> bool) returns (n: Normalized)
    ensures n.found <==> LabelLine(lines, start) < |lines|
    ensures Describes(n, BodyLines(lines, start), traffic)
  {
    var i, inside := 0, false;
    ghost var kept: seq<string> := [];
    n := Normalized("", 0, false, false);
    LoopStarts(lines, start);
    while i < |lines|
      invariant 0 <= i <= |lines| && n.found == inside
      invariant Describes(n, kept, traffic)
      invariant LoopAt(lines, start, i, inside, kept)
    {
      LoopGoesOn(lines, start, i, inside, kept);
      var stop;
      stop, n, inside, kept := ReadLine(n, inside, lines[i], start, traffic, kept);
      if stop { return; }
      i := i + 1;
    }
    LoopEnds(lines, start, inside, kept);
  }

  /** `normalize`. */
  method NormalizeLoop(lines: seq<string>, symbol: string, arch: string) returns (n: Normalized)
    ensures n.found <==> LabelLine(lines, symbol + ":") < |lines|
    ensures Describes(n, BodyLines(lines, symbol + ":"), TrafficOn(arch))
    ensures n.spilled <==> SomeTouchesStack(BodyLines(lines, symbol + ":"), arch)
  {
    n := NormalizeScan(lines, symbol + ":", TrafficOn(arch));
    SpilledMeans(n, BodyLines(lines, symbol + ":"), arch);
  }

  // ------------------------------------------------------------ what the comparison means

  lemma {:induction false} TrimKeepsNoHash(s: string)
    requires NoHash(s)
    ensures NoHash(Trim(s))
  {
    HeadKeepsNoHash(s);
    TailKeepsNoHash(DropHead(s));
  }

  lemma {:induction false} HeadKeepsNoHash(s: string)
    requires NoHash(s)
    ensures NoHash(DropHead(s))
    decreases |s|
  {
    if s != [] && Blank(s[0]) { HeadKeepsNoHash(s[1..]); }
  }

  lemma {:induction false} TailKeepsNoHash(s: string)
    requires NoHash(s)
    ensures NoHash(DropTail(s))
    decreases |s|
  {
    if s != [] && Blank(s[|s| - 1]) { TailKeepsNoHash(s[..|s| - 1]); }
  }

  lemma CleanHasNoHash(line: string)
    ensures NoHash(Clean(line))
  {
    var t := Trim(line);
    var h := HashAt(t);
    if h < |t| { TrimKeepsNoHash(t[..h]); } else { assert t[..h] == t; }
  }

  lemma {:induction false} KeptHaveNoHash(lines: seq<string>)
    ensures forall i :: 0 <= i < |KeptLines(lines)| ==> NoHash(KeptLines(lines)[i])
    decreases |lines|
  {
    if lines != [] && !EndsBody(lines[0]) {
      KeptHaveNoHash(lines[1..]);
      CleanHasNoHash(lines[0]);
    }
  }

  lemma {:induction false} JoinHasNoHash(ts: seq<string>)
    requires forall i :: 0 <= i < |ts| ==> NoHash(ts[i])
    ensures NoHash(Terminated(ts))
    decreases |ts|
  {
    if ts != [] {
      JoinHasNoHash(ts[1..]);
      assert NoHash(ts[0]);
    }
  }

  lemma NormalizedHasNoHash(lines: seq<string>, start: string)
    ensures NoHash(Terminated(BodyLines(lines, start)))
  {
    BodyFollowsLabel(lines, start);
    var i := LabelLine(lines, start);
    if i < |lines| { KeptHaveNoHash(lines[i + 1..]); }
    JoinHasNoHash(BodyLines(lines, start));
  }

  /** The harness reports two functions identical exactly when one body is the other with its local
      labels renamed: for every pair of assembly texts and symbols. */
  lemma IdenticalMeansRenamed(linesA: seq<string>, startA: string, linesB: seq<string>, startB: string)
    ensures var a, b := Terminated(BodyLines(linesA, startA)), Terminated(BodyLines(linesB, startB));
            Canon(a) == Canon(b) <==> SameUpToLabels(a, b)
  {
    NormalizedHasNoHash(linesA, startA);
    NormalizedHasNoHash(linesB, startB);
    CanonDecidesRenaming(Terminated(BodyLines(linesA, startA)), Terminated(BodyLines(linesB, startB)));
  }
}
