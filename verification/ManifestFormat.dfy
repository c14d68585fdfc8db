/** The manifest format byte by byte, in numbers, and what the parser makes of every buffer, whoever wrote
    it: the header, an entry's fields, a whole entry, the search by name. */
module ManifestFormat {
  import opened Wrappers
  import opened ByteStrings
  import opened Manifest

  // ------------------------------------------------------------ the header

  /** "MFST". */
  ghost predicate HasMagic(b: Bytes) {
    |b| >= 4 && b[0] == 77 && b[1] == 70 && b[2] == 83 && b[3] == 84
  }

  ghost predicate GoodHeader(b: Bytes) {
    && |b| >= 7 && HasMagic(b) && b[4] == 1
    && b[5] != 0 && b[6] != 0 && 7 + b[6] as int <= |b|
  }

  /** When a header is refused with the code. */
  ghost predicate HeaderRefused(b: Bytes, code: Code) {
    match code
    case ManifestTruncated => |b| < 6 || (|b| == 6 && HasMagic(b) && b[4] == 1 && b[5] != 0)
    case HeaderBad => |b| >= 6 && !HasMagic(b)
    case VersionUnsupported => |b| >= 6 && HasMagic(b) && b[4] != 1
    case EntryMalformed =>
      && |b| >= 6 && HasMagic(b) && b[4] == 1
      && (b[5] == 0 || (|b| >= 7 && (b[6] == 0 || 7 + b[6] as int > |b|)))
    case _ => false
  }

  lemma MagicMeans(b: Bytes)
    requires |b| >= 4
    ensures b[..4] == MAGIC <==> HasMagic(b)
  {
    var m := b[..4];
    assert m[0] == b[0] && m[1] == b[1] && m[2] == b[2] && m[3] == b[3];
  }

  /** The header is taken exactly when it is good, and refused with each code exactly when it should be. */
  lemma HeaderMeans(b: Bytes, code: Code)
    ensures HeaderFault(b).None? <==> GoodHeader(b)
    ensures HeaderFault(b) == Some(code) <==> HeaderRefused(b, code)
  {
    if |b| >= 4 { MagicMeans(b); }
  }

  // ------------------------------------------------------------ an entry

  /** The fields of an entry stand at `p`: a length in four bytes, 32 of digest, a counted reference. */
  ghost predicate HasFields(b: Bytes, p: nat, f: Fields) {
    && p + 37 <= |b| && f.image == p + 37 + b[p + 36] as int <= |b|
    && f.length == b[p] as int + 256 * b[p + 1] as int + 65536 * b[p + 2] as int + 16777216 * b[p + 3] as int
    && f.digest == b[p + 4..p + 36] && f.ref == b[p + 37..f.image]
  }

  lemma FieldsMean(b: Bytes, p: nat, f: Fields)
    ensures FieldsAt(b, p) == Some(f) <==> HasFields(b, p, f)
    ensures FieldsAt(b, p).None? <==> p + 37 > |b| || p + 37 + b[p + 36] as int > |b|
  {
  }

  /** A whole entry stands at `p`: a counted name, its fields, and as much image as they say. */
  ghost predicate HasEntry(b: Bytes, p: nat, e: Span) {
    && p < |b| && e.body == p + 1 + b[p] as int <= |b| && e.name == b[p + 1..e.body]
    && exists f :: HasFields(b, e.body, f) && e.next == f.image + f.length <= |b|
  }

  lemma EntryMeans(b: Bytes, p: nat, e: Span)
    ensures EntryAt(b, p) == Some(e) <==> HasEntry(b, p, e)
  {
    if p < |b| && p + 1 + b[p] as int <= |b| {
      var body := p + 1 + b[p] as int;
      forall f ensures FieldsAt(b, body) == Some(f) <==> HasFields(b, body, f) { FieldsMean(b, body, f); }
      if EntryAt(b, p) == Some(e) { assert HasFields(b, body, FieldsAt(b, body).value); }
    }
  }

  // ------------------------------------------------------------ the search

  /** The entries stand one behind the other, the first at `p`; `has` says what stands where. */
  ghost predicate InARow(has: (nat, Span) -> bool, p: nat, es: seq<Span>)
    decreases |es|
  {
    es == [] || (has(p, es[0]) && InARow(has, es[0].next, es[1..]))
  }

  /** The last of these entries is the first with the name. */
  ghost predicate EndsAtFirst(es: seq<Span>, want: Bytes, body: nat) {
    && es != [] && es[|es| - 1].name == want && es[|es| - 1].body == body
    && forall k :: 0 <= k < |es| - 1 ==> es[k].name != want
  }

  lemma FirstIsFurtherOn(es: seq<Span>, want: Bytes, body: nat)
    requires |es| > 1
    ensures EndsAtFirst(es, want, body) <==> es[0].name != want && EndsAtFirst(es[1..], want, body)
  {
    var rest := es[1..];
    assert forall k :: 0 <= k < |rest| ==> rest[k] == es[k + 1];
    if es[0].name != want && EndsAtFirst(rest, want, body) {
      assert forall k :: 1 <= k < |es| - 1 ==> es[k] == rest[k - 1];
    }
    if EndsAtFirst(es, want, body) {
      assert forall k :: 0 <= k < |rest| - 1 ==> rest[k] == es[k + 1];
    }
  }

  /** `find` goes from entry to entry. */
  ghost predicate StepsThrough(find: (nat, nat) -> Option<nat>, has: (nat, Span) -> bool, want: Bytes) {
    forall p: nat, n: nat, e {:trigger find(p, n), has(p, e)} :: n > 0 && has(p, e) ==>
      find(p, n) == if e.name == want then Some(e.body) else find(e.next, n - 1)
  }

  lemma {:induction false} RowIsFound(find: (nat, nat) -> Option<nat>, has: (nat, Span) -> bool, p: nat, count: nat,
                                      want: Bytes, es: seq<Span>, body: nat)
    requires StepsThrough(find, has, want) && |es| <= count && InARow(has, p, es) && EndsAtFirst(es, want, body)
    ensures find(p, count) == Some(body)
    decreases |es|
  {
    var e := es[0];
    assert has(p, e) && find(p, count) == if e.name == want then Some(e.body) else find(e.next, count - 1);
    if |es| > 1 {
      FirstIsFurtherOn(es, want, body);
      RowIsFound(find, has, es[0].next, count - 1, want, es[1..], body);
    }
  }

  /** A find comes with the entries up to it. */
  lemma {:induction false} FoundInRow(b: Bytes, p: nat, count: nat, want: Bytes) returns (es: seq<Span>)
    requires Search(b, p, count, want).Some?
    ensures |es| <= count && InARow(Standing(b), p, es) && EndsAtFirst(es, want, Search(b, p, count, want).value)
    decreases count
  {
    var e := EntryAt(b, p).value;
    EntryMeans(b, p, e);
    if e.name == want {
      es := [e];
    } else {
      var rest := FoundInRow(b, e.next, count - 1, want);
      es := [e] + rest;
      assert es[1..] == rest;
      FirstIsFurtherOn(es, want, Search(b, p, count, want).value);
    }
  }

  /** What stands where in a buffer. */
  ghost function Standing(b: Bytes): (nat, Span) -> bool {
    (p: nat, e: Span) => HasEntry(b, p, e)
  }

  lemma SearchSteps(b: Bytes, want: Bytes)
    ensures StepsThrough((p: nat, n: nat) => Search(b, p, n, want), Standing(b), want)
  {
    forall p: nat, n: nat, e | n > 0 && HasEntry(b, p, e)
      ensures Search(b, p, n, want) == if e.name == want then Some(e.body) else Search(b, e.next, n - 1, want)
    {
      EntryMeans(b, p, e);
      SearchStep(b, p, n, want);
    }
  }

  /** On every buffer: a name is found at a place exactly when whole entries stand in a row from the sixth
      byte up to there, no more of them than the header counts, the last being the first with the name. */
  lemma FindMeans(b: Bytes, want: Bytes, body: nat)
    ensures FindEntry(b, want) == Some(body) <==>
            |b| >= 6 && exists es :: |es| <= b[5] as int && InARow(Standing(b), 6, es) && EndsAtFirst(es, want, body)
  {
    if |b| >= 6 {
      if FindEntry(b, want) == Some(body) { var es := FoundInRow(b, 6, b[5], want); }
      forall es | |es| <= b[5] as int && InARow(Standing(b), 6, es) && EndsAtFirst(es, want, body)
        ensures FindEntry(b, want) == Some(body)
      {
        SearchSteps(b, want);
        RowIsFound((p: nat, n: nat) => Search(b, p, n, want), Standing(b), 6, b[5], want, es, body);
      }
    }
  }
}
