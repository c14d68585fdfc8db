/** What a verdict means, for every buffer: a success is exactly a sound reference chain, a fault exactly the
    first thing wrong on the way down the chain or, when nothing is, on the way back up. */
module ManifestTheorems {
  import opened Wrappers
  import opened ByteStrings
  import opened Manifest
  import opened ManifestFormat

  // ------------------------------------------------------------ what success means

  /** An entry on the reference chain: its name and where its fields are. */
  datatype Link = Link(name: Bytes, body: nat)

  /** The entry's image is in bounds, of a plausible length, and has the digest the entry states. */
  ghost predicate GoodLink(b: Bytes, H: Bytes -> Bytes, x: Link) {
    match FieldsAt(b, x.body)
    case None => false
    case Some(f) =>
      && 1 <= f.length <= 0x10_0000 && f.image + f.length <= |b|
      && H(b[f.image..f.image + f.length]) == f.digest
  }

  /** `x` refers to `y`, and `y` is where the manifest has that name. */
  ghost predicate Follows(b: Bytes, x: Link, y: Link) {
    match FieldsAt(b, x.body)
    case None => false
    case Some(f) => f.ref != [] && y.name == f.ref && FindEntry(b, f.ref) == Some(y.body)
  }

  ghost predicate Ends(b: Bytes, x: Link) {
    match FieldsAt(b, x.body)
    case None => false
    case Some(f) => f.ref == []
  }

  /** What a chain is made of, with the buffer and the hash out of sight. */
  datatype Rules = Rules(good: Link -> bool, follows: (Link, Link) -> bool, ends: Link -> bool, alloc: nat -> bool)

  ghost function RulesOf(b: Bytes, H: Bytes -> Bytes, alloc: nat -> bool): Rules {
    Rules(x => GoodLink(b, H, x), (x, y) => Follows(b, x, y), x => Ends(b, x), alloc)
  }

  /** The reference chain below a path, as the descent meets it. */
  ghost predicate Descends(r: Rules, path: seq<Bytes>, c: seq<Link>)
    decreases |c|
  {
    && c != [] && c[0].name !in path && |path| <= MAX_DEPTH && r.alloc(|path|)
    && r.good(c[0])
    && (if |c| == 1 then r.ends(c[0])
        else r.follows(c[0], c[1]) && Descends(r, path + [c[0].name], c[1..]))
  }

  /** The reference chain, link by link. */
  ghost predicate IsChain(r: Rules, c: seq<Link>) {
    && 0 < |c| <= 7
    && (forall i :: 0 <= i < |c| ==> r.good(c[i]))
    && (forall i :: 0 <= i < |c| ==> r.alloc(i))
    && (forall i :: 0 <= i < |c| - 1 ==> r.follows(c[i], c[i + 1]))
    && r.ends(c[|c| - 1])
    && (forall i, j :: 0 <= i < j < |c| ==> c[i].name != c[j].name)
  }

  ghost function Names(c: seq<Link>): seq<Bytes> {
    seq(|c|, i requires 0 <= i < |c| => c[i].name)
  }

  lemma NotSeenBefore(r: Rules, c: seq<Link>, k: nat)
    requires IsChain(r, c) && k < |c|
    ensures c[k].name !in Names(c[..k])
  {
    var before := Names(c[..k]);
    assert forall i :: 0 <= i < k ==> before[i] == c[i].name;
  }

  lemma Onward(c: seq<Link>, k: nat)
    requires k + 1 < |c|
    ensures c[k..][0] == c[k] && c[k..][1] == c[k + 1] && c[k..][1..] == c[k + 1..]
    ensures Names(c[..k]) + [c[k].name] == Names(c[..k + 1])
  {
  }

  lemma DescendMore(r: Rules, path: seq<Bytes>, c: seq<Link>)
    requires |c| > 1 && c[0].name !in path && |path| <= MAX_DEPTH && r.alloc(|path|) && r.good(c[0])
    requires r.follows(c[0], c[1]) && Descends(r, path + [c[0].name], c[1..])
    ensures Descends(r, path, c)
  {
  }

  lemma {:induction false} LinksDescend(r: Rules, c: seq<Link>, k: nat)
    requires IsChain(r, c) && k < |c|
    ensures Descends(r, Names(c[..k]), c[k..])
    decreases |c| - k
  {
    NotSeenBefore(r, c, k);
    assert r.good(c[k]);
    if k + 1 < |c| {
      LinksDescend(r, c, k + 1);
      assert r.follows(c[k], c[k + 1]);
      Onward(c, k);
      DescendMore(r, Names(c[..k]), c[k..]);
    } else {
      assert c[k..] == [c[k]];
    }
  }

  lemma {:induction false} DescentLinks(r: Rules, path: seq<Bytes>, c: seq<Link>)
    requires Descends(r, path, c)
    ensures |path| + |c| <= MAX_DEPTH + 1
    ensures forall i :: 0 <= i < |c| ==> r.good(c[i]) && c[i].name !in path
    ensures forall k :: |path| <= k < |path| + |c| ==> r.alloc(k)
    ensures forall i :: 0 <= i < |c| - 1 ==> r.follows(c[i], c[i + 1])
    ensures r.ends(c[|c| - 1])
    ensures forall i, j :: 0 <= i < j < |c| ==> c[i].name != c[j].name
    decreases |c|
  {
    if |c| > 1 {
      var rest, path' := c[1..], path + [c[0].name];
      DescentLinks(r, path', rest);
      assert c[0].name in path' && forall p :: p in path ==> p in path';
      assert forall i :: 1 <= i < |c| ==> c[i] == rest[i - 1];
      forall i | 0 <= i < |c| ensures r.good(c[i]) && c[i].name !in path {
        if i > 0 { assert r.good(rest[i - 1]) && rest[i - 1].name !in path'; }
      }
    }
  }

  lemma DescentFromTop(r: Rules, c: seq<Link>)
    ensures Descends(r, [], c) <==> IsChain(r, c)
  {
    var top: seq<Bytes> := [];
    if Descends(r, top, c) {
      DescentLinks(r, top, c);
    }
    if IsChain(r, c) {
      LinksDescend(r, c, 0);
      assert c[..0] == [] && c[0..] == c && Names([]) == top;
    }
  }

  /** The verdict on one entry, given the verdict on its reference. */
  ghost function Judge(b: Bytes, H: Bytes -> Bytes, alloc: nat -> bool, path: seq<Bytes>, x: Link, below: Verdict): Verdict {
    if x.name in path then Fault(ReferenceCycle, |path|, x.name)
    else if !alloc(|path|) then Fault(DigestUnavailable, |path|, NO_DIGEST)
    else
      match FieldsAt(b, x.body)
      case None => Fault(ManifestTruncated, |path|, x.name)
      case Some(f) =>
        if f.length == 0 || f.length > MAX_IMAGE then Fault(LengthImplausible, |path|, x.name)
        else if below.Fault? then below
        else CheckImage(b, H, f, x.name, |path|, below.count)
  }

  ghost function RefOf(b: Bytes, x: Link): Bytes {
    match FieldsAt(b, x.body) case None => [] case Some(f) => f.ref
  }

  lemma CheckIsJudge(b: Bytes, H: Bytes -> Bytes, alloc: nat -> bool, path: seq<Bytes>, x: Link)
    requires |path| <= MAX_DEPTH
    ensures Check(b, H, alloc, path, x.name, x.body) ==
            Judge(b, H, alloc, path, x, CheckRef(b, H, alloc, path + [x.name], RefOf(b, x)))
  {
  }

  lemma JudgeVerifiedIff(b: Bytes, H: Bytes -> Bytes, alloc: nat -> bool, path: seq<Bytes>, x: Link, below: Verdict)
    ensures var v := Judge(b, H, alloc, path, x, below);
            && (v.Verified? <==> x.name !in path && alloc(|path|) && GoodLink(b, H, x) && below.Verified?)
            && (v.Verified? ==> v.count == below.count + 1)
  {
  }

  /** One entry on its own: what `Check` asks of it besides its reference. */
  lemma CheckOne(b: Bytes, H: Bytes -> Bytes, alloc: nat -> bool, path: seq<Bytes>, x: Link)
    requires |path| <= MAX_DEPTH
    ensures var v, below := Check(b, H, alloc, path, x.name, x.body), CheckRef(b, H, alloc, path + [x.name], RefOf(b, x));
            && (v.Verified? <==> x.name !in path && alloc(|path|) && GoodLink(b, H, x) && below.Verified?)
            && (v.Verified? ==> v.count == below.count + 1)
  {
    CheckIsJudge(b, H, alloc, path, x);
    JudgeVerifiedIff(b, H, alloc, path, x, CheckRef(b, H, alloc, path + [x.name], RefOf(b, x)));
  }

  lemma {:induction false} VerifiedDescends(b: Bytes, H: Bytes -> Bytes, alloc: nat -> bool, path: seq<Bytes>, x: Link)
    returns (c: seq<Link>)
    requires |path| <= MAX_DEPTH + 1 && Check(b, H, alloc, path, x.name, x.body).Verified?
    ensures |c| == Check(b, H, alloc, path, x.name, x.body).count && c != [] && c[0] == x
    ensures Descends(RulesOf(b, H, alloc), path, c)
    decreases MAX_DEPTH + 1 - |path|
  {
    CheckOne(b, H, alloc, path, x);
    var f := FieldsAt(b, x.body).value;
    c := [x];
    if f.ref != [] {
      var rest := VerifiedDescends(b, H, alloc, path + [x.name], Link(f.ref, FindEntry(b, f.ref).value));
      c := [x] + rest;
      assert c[1..] == rest;
    }
  }

  lemma {:induction false} DescentVerifies(b: Bytes, H: Bytes -> Bytes, alloc: nat -> bool, path: seq<Bytes>, c: seq<Link>)
    requires Descends(RulesOf(b, H, alloc), path, c)
    ensures Check(b, H, alloc, path, c[0].name, c[0].body) == Verified(|c|)
    decreases |c|
  {
    CheckOne(b, H, alloc, path, c[0]);
    if |c| > 1 { DescentVerifies(b, H, alloc, path + [c[0].name], c[1..]); }
  }

  /** The first entry: its name behind its length byte at position 6. */
  ghost function First(b: Bytes): Link
    requires GoodHeader(b)
  {
    Link(b[7..7 + b[6] as int], 7 + b[6] as int)
  }

  /** Past a good header the verdict is that on the first entry. */
  lemma VerifyEnters(b: Bytes, H: Bytes -> Bytes, alloc: nat -> bool)
    ensures if GoodHeader(b) then Verify(b, H, alloc) == Check(b, H, alloc, [], First(b).name, First(b).body)
            else Verify(b, H, alloc).Fault?
  {
    HeaderMeans(b, HeaderBad);
  }

  lemma CheckFirst(b: Bytes, H: Bytes -> Bytes, alloc: nat -> bool, x: Link, n: nat)
    ensures Check(b, H, alloc, [], x.name, x.body) == Verified(n) <==>
            exists c :: |c| == n && c != [] && c[0] == x && IsChain(RulesOf(b, H, alloc), c)
  {
    var r := RulesOf(b, H, alloc);
    if Check(b, H, alloc, [], x.name, x.body) == Verified(n) {
      var c := VerifiedDescends(b, H, alloc, [], x);
      DescentFromTop(r, c);
    }
    forall c | |c| == n && c != [] && c[0] == x && IsChain(r, c)
      ensures Check(b, H, alloc, [], x.name, x.body) == Verified(n)
    {
      DescentFromTop(r, c);
      DescentVerifies(b, H, alloc, [], c);
    }
  }

  /** A manifest verifies with count n exactly when its header is good and the reference chain from the
      first entry has n <= 7 entries with pairwise distinct names, ends without a reference, and every
      image on it is in bounds, of length 1 to 2^20, and has its digest. */
  lemma VerifiedIffChain(b: Bytes, H: Bytes -> Bytes, alloc: nat -> bool, n: nat)
    ensures Verify(b, H, alloc) == Verified(n) <==>
            GoodHeader(b) &&
            exists c :: |c| == n && c != [] && c[0] == First(b) && IsChain(RulesOf(b, H, alloc), c)
  {
    VerifyEnters(b, H, alloc);
    if GoodHeader(b) { CheckFirst(b, H, alloc, First(b), n); }
  }

  // ------------------------------------------------------------ what a fault means

  /** Nothing is wrong with the entry on the way in, below the names of `path`. */
  ghost predicate Enters(b: Bytes, alloc: nat -> bool, path: seq<Bytes>, x: Link) {
    && x.name !in path && |path| <= 6 && alloc(|path|)
    && FieldsAt(b, x.body).Some? && 1 <= FieldsAt(b, x.body).value.length <= 0x10_0000
  }

  /** The entry is refused on the way in, with the code and the name reported. */
  ghost predicate FailsIn(b: Bytes, alloc: nat -> bool, path: seq<Bytes>, x: Link, code: Code, who: Bytes) {
    match code
    case ReferenceCycle => x.name in path && who == x.name
    case NestingTooDeep => x.name !in path && |path| > 6 && who == x.name
    case DigestUnavailable =>
      x.name !in path && |path| <= 6 && !alloc(|path|) && who == [100, 105, 103, 101, 115, 116]
    case ManifestTruncated =>
      x.name !in path && |path| <= 6 && alloc(|path|) && FieldsAt(b, x.body).None? && who == x.name
    case LengthImplausible =>
      && x.name !in path && |path| <= 6 && alloc(|path|) && who == x.name && FieldsAt(b, x.body).Some?
      && !(1 <= FieldsAt(b, x.body).value.length <= 0x10_0000)
    case ReferenceMissing => Enters(b, alloc, path, x) && RefOf(b, x) == who != [] && FindEntry(b, who).None?
    case _ => false
  }

  /** The entry is refused on the way out, when everything below it has verified. */
  ghost predicate FailsOut(b: Bytes, H: Bytes -> Bytes, x: Link, code: Code, who: Bytes) {
    match FieldsAt(b, x.body)
    case None => false
    case Some(f) =>
      var end := f.image + f.length;
      && who == x.name
      && ((code == ManifestTruncated && end > |b|)
          || (code == DigestMismatch && end <= |b| && H(b[f.image..end]) != f.digest))
  }

  /** The chain leads to the fault: to an entry refused on the way in, or to one refused on the way out
      above a part that verifies. */
  ghost predicate LeadsToFault(b: Bytes, H: Bytes -> Bytes, alloc: nat -> bool, path: seq<Bytes>, c: seq<Link>,
                               code: Code, depth: nat, who: Bytes)
    decreases |c|
  {
    c != [] &&
    if |c| == 1 then
      depth == |path|
      && (FailsIn(b, alloc, path, c[0], code, who)
          || (Enters(b, alloc, path, c[0]) && Ends(b, c[0]) && FailsOut(b, H, c[0], code, who)))
    else
      && Enters(b, alloc, path, c[0]) && Follows(b, c[0], c[1])
      && (LeadsToFault(b, H, alloc, path + [c[0].name], c[1..], code, depth, who)
          || (depth == |path| && FailsOut(b, H, c[0], code, who)
              && Descends(RulesOf(b, H, alloc), path + [c[0].name], c[1..])))
  }

  /** Where an entry lets the descent through, its verdict is its reference's or its image's. */
  lemma EnteredVerdict(b: Bytes, H: Bytes -> Bytes, alloc: nat -> bool, path: seq<Bytes>, x: Link)
    requires Enters(b, alloc, path, x)
    ensures var f := FieldsAt(b, x.body).value;
            var below := CheckRef(b, H, alloc, path + [x.name], f.ref);
            Check(b, H, alloc, path, x.name, x.body) ==
            if below.Fault? then below else CheckImage(b, H, f, x.name, |path|, below.count)
  {
  }

  lemma RefusedVerdict(b: Bytes, H: Bytes -> Bytes, alloc: nat -> bool, path: seq<Bytes>, x: Link, code: Code, who: Bytes)
    requires |path| <= 7
    ensures FailsIn(b, alloc, path, x, code, who) ==>
              Check(b, H, alloc, path, x.name, x.body) == Fault(code, |path|, who)
    ensures !Enters(b, alloc, path, x) && Check(b, H, alloc, path, x.name, x.body) == Fault(code, |path|, who) ==>
              FailsIn(b, alloc, path, x, code, who)
    ensures !Enters(b, alloc, path, x) ==>
              Check(b, H, alloc, path, x.name, x.body).Fault? && Check(b, H, alloc, path, x.name, x.body).depth == |path|
  {
    if Enters(b, alloc, path, x) { EnteredVerdict(b, H, alloc, path, x); }
  }

  lemma ImageVerdict(b: Bytes, H: Bytes -> Bytes, x: Link, depth: nat, below: nat, code: Code, d: nat, who: Bytes)
    requires FieldsAt(b, x.body).Some?
    ensures CheckImage(b, H, FieldsAt(b, x.body).value, x.name, depth, below) == Fault(code, d, who) <==>
            FailsOut(b, H, x, code, who) && d == depth
  {
  }

  lemma {:induction false} FaultIsOnChain(b: Bytes, H: Bytes -> Bytes, alloc: nat -> bool, path: seq<Bytes>, x: Link)
    returns (c: seq<Link>)
    requires |path| <= 7 && Check(b, H, alloc, path, x.name, x.body).Fault?
    ensures c != [] && c[0] == x
    ensures var v := Check(b, H, alloc, path, x.name, x.body);
            LeadsToFault(b, H, alloc, path, c, v.code, v.depth, v.name)
    decreases 7 - |path|
  {
    var v := Check(b, H, alloc, path, x.name, x.body);
    c := [x];
    RefusedVerdict(b, H, alloc, path, x, v.code, v.name);
    if Enters(b, alloc, path, x) {
      var f := FieldsAt(b, x.body).value;
      EnteredVerdict(b, H, alloc, path, x);
      var below := CheckRef(b, H, alloc, path + [x.name], f.ref);
      if below.Verified? { ImageVerdict(b, H, x, |path|, below.count, v.code, v.depth, v.name); }
      if f.ref != [] && FindEntry(b, f.ref).Some? {
        c := FaultBelow(b, H, alloc, path, x, Link(f.ref, FindEntry(b, f.ref).value));
      }
    }
  }

  /** The entry has a reference `y`. */
  lemma {:induction false} FaultBelow(b: Bytes, H: Bytes -> Bytes, alloc: nat -> bool, path: seq<Bytes>, x: Link, y: Link)
    returns (c: seq<Link>)
    requires Enters(b, alloc, path, x) && Follows(b, x, y) && Check(b, H, alloc, path, x.name, x.body).Fault?
    ensures c != [] && c[0] == x
    ensures var v := Check(b, H, alloc, path, x.name, x.body);
            LeadsToFault(b, H, alloc, path, c, v.code, v.depth, v.name)
    decreases 7 - |path|, 0
  {
    var v := Check(b, H, alloc, path, x.name, x.body);
    EnteredVerdict(b, H, alloc, path, x);
    var below := Check(b, H, alloc, path + [x.name], y.name, y.body);
    var rest;
    if below.Fault? {
      rest := FaultIsOnChain(b, H, alloc, path + [x.name], y);
    } else {
      ImageVerdict(b, H, x, |path|, below.count, v.code, v.depth, v.name);
      rest := VerifiedDescends(b, H, alloc, path + [x.name], y);
    }
    c := [x] + rest;
    assert c[1..] == rest;
  }

  lemma {:induction false} ChainIsFault(b: Bytes, H: Bytes -> Bytes, alloc: nat -> bool, path: seq<Bytes>, c: seq<Link>,
                                        code: Code, depth: nat, who: Bytes)
    requires |path| <= 7 && LeadsToFault(b, H, alloc, path, c, code, depth, who)
    ensures Check(b, H, alloc, path, c[0].name, c[0].body) == Fault(code, depth, who)
    decreases |c|
  {
    var x := c[0];
    RefusedVerdict(b, H, alloc, path, x, code, who);
    if Enters(b, alloc, path, x) && !FailsIn(b, alloc, path, x, code, who) {
      EnteredVerdict(b, H, alloc, path, x);
      if |c| == 1 {
        ImageVerdict(b, H, x, |path|, 0, code, depth, who);
      } else if LeadsToFault(b, H, alloc, path + [x.name], c[1..], code, depth, who) {
        ChainIsFault(b, H, alloc, path + [x.name], c[1..], code, depth, who);
      } else {
        DescentVerifies(b, H, alloc, path + [x.name], c[1..]);
        ImageVerdict(b, H, x, |path|, |c| - 1, code, depth, who);
      }
    }
  }

  /** Every fault on every buffer: the code, depth and name are those of a refused header, or of what the
      chain from the first entry leads to. */
  lemma FaultIffFirst(b: Bytes, H: Bytes -> Bytes, alloc: nat -> bool, code: Code, depth: nat, who: Bytes)
    ensures Verify(b, H, alloc) == Fault(code, depth, who) <==>
            || (HeaderRefused(b, code) && depth == 0 && who == [114, 111, 111, 116])
            || (GoodHeader(b) && exists c :: c != [] && c[0] == First(b)
                                             && LeadsToFault(b, H, alloc, [], c, code, depth, who))
  {
    VerifyEnters(b, H, alloc);
    HeaderMeans(b, code);
    if GoodHeader(b) {
      var x := First(b);
      if Verify(b, H, alloc) == Fault(code, depth, who) { var c := FaultIsOnChain(b, H, alloc, [], x); }
      forall c | c != [] && c[0] == x && LeadsToFault(b, H, alloc, [], c, code, depth, who)
        ensures Verify(b, H, alloc) == Fault(code, depth, who)
      {
        ChainIsFault(b, H, alloc, [], c, code, depth, who);
      }
    }
  }
}
