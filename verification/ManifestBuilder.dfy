/** The host side's manifest builder, and the round trip: for every manifest it can write, the verifier's
    verdict on the bytes is the verdict on the entries themselves. */
module ManifestBuilder {
  import opened Wrappers
  import opened Sequences
  import opened ByteStrings
  import opened Manifest
  import T = ManifestTheorems

  // ------------------------------------------------------------ what the builder writes

  /** One entry as the host states it; an empty `ref` is no reference. */
  datatype Item = Item(name: Bytes, digest: Bytes, ref: Bytes, image: Bytes)

  /** Four bytes, little endian. */
  function Little(v: nat): (r: Bytes)
    ensures |r| == 4
  {
    [v % 0x100, v / 0x100 % 0x100, v / 0x1_0000 % 0x100, v / 0x100_0000 % 0x100]
  }

  /** An entry's bytes, up to its reference; the length bytes keep the low eight bits of a length. */
  function Front(it: Item): (r: Bytes)
    ensures |r| == 1 + |it.name| + 4 + |it.digest|
  {
    [|it.name| % 0x100] + it.name + Little(|it.image|) + it.digest
  }

  function Back(it: Item): (r: Bytes)
    ensures |r| == 1 + |it.ref| + |it.image|
  {
    [|it.ref| % 0x100] + it.ref + it.image
  }

  function Encode(it: Item): (r: Bytes)
    ensures |r| == 6 + |it.name| + |it.digest| + |it.ref| + |it.image|
  {
    Front(it) + Back(it)
  }

  function EncodeAll(its: seq<Item>): Bytes {
    if its == [] then [] else EncodeAll(its[..|its| - 1]) + Encode(its[|its| - 1])
  }

  function Header(magic: Bytes, version: Byte, count: Byte): Bytes { magic + [version, count] }

  /** The builder's buffer. Writing past it is the caller's fault in the source, so it is a precondition. */
  class Builder {
    const buf: array<Byte>
    var len: nat

    ghost predicate Valid()
      reads this
    {
      buf.Length == 4096 && len <= buf.Length
    }

    ghost function Written(): Bytes
      requires Valid()
      reads this, buf
    {
      buf[..len]
    }

    constructor ()
      ensures Valid() && len == 0 && fresh(buf)
    {
      buf := new Byte[4096](_ => 0);
      len := 0;
    }

    method Put(p: Bytes)
      requires Valid() && len + |p| <= buf.Length
      modifies this, buf
      ensures Valid() && Written() == old(Written()) + p && len == old(len) + |p|
    {
      var i := 0;
      ghost var before := Written();
      while i < |p|
        invariant 0 <= i <= |p| && Valid() && len == old(len)
        invariant buf[..len + i] == before + p[..i]
      {
        buf[len + i] := p[i];
        assert buf[..len + i + 1] == buf[..len + i] + [p[i]];
        assert p[..i + 1] == p[..i] + [p[i]];
        i := i + 1;
      }
      assert p[..i] == p;
      len := len + |p|;
    }

    method PutU8(v: nat)
      requires Valid() && len + 1 <= buf.Length
      modifies this, buf
      ensures Valid() && Written() == old(Written()) + [v % 0x100] && len == old(len) + 1
    {
      Put([v % 0x100]);
    }

    method PutU32(v: nat)
      requires Valid() && len + 4 <= buf.Length
      modifies this, buf
      ensures Valid() && Written() == old(Written()) + Little(v) && len == old(len) + 4
    {
      Put(Little(v));
    }

    method Begin(count: Byte, magic: Bytes, version: Byte)
      requires Valid() && |magic| == 4
      modifies this, buf
      ensures Valid() && Written() == Header(magic, version, count)
    {
      len := 0;
      Put(magic);
      PutU8(version);
      PutU8(count);
    }

    method PutFront(name: Bytes, length: nat, digest: Bytes)
      requires Valid() && len + 1 + |name| + 4 + |digest| <= buf.Length
      modifies this, buf
      ensures Valid() && Written() == old(Written()) + ([|name| % 0x100] + name + Little(length) + digest)
      ensures len == old(len) + 1 + |name| + 4 + |digest|
    {
      ghost var w, n, l := Written(), [|name| % 0x100], Little(length);
      PutU8(|name|);
      Put(name);
      PutU32(length);
      Put(digest);
      Reassociate(w, n, name);
      Reassociate(w, n + name, l);
      Reassociate(w, n + name + l, digest);
    }

    method PutBack(ref: Option<Bytes>, image: Bytes)
      requires Valid() && len + 1 + (if ref.Some? then |ref.value| else 0) + |image| <= buf.Length
      modifies this, buf
      ensures Valid()
      ensures Written() == old(Written()) + ((if ref.None? then [0] else [|ref.value| % 0x100] + ref.value) + image)
    {
      ghost var w := Written();
      if ref.Some? {
        PutU8(|ref.value|);
        Put(ref.value);
        Reassociate(w, [|ref.value| % 0x100], ref.value);
        Put(image);
        Reassociate(w, [|ref.value| % 0x100] + ref.value, image);
      } else {
        PutU8(0);
        Put(image);
        Reassociate(w, [0], image);
      }
    }

    /** `entry`: a counted name, the length, the digest, a counted reference or none, and as many bytes of
        the image at hand as the length declares. */
    method Entry(name: Bytes, length: nat, digest: Bytes, ref: Option<Bytes>, image: Bytes)
      requires Valid() && length <= |image|
      requires len + 6 + |name| + |digest| + (if ref.Some? then |ref.value| else 0) + length <= buf.Length
      modifies this, buf
      ensures Valid()
      ensures Written() == old(Written())
                           + ([|name| % 0x100] + name + Little(length) + digest)
                           + ((if ref.None? then [0] else [|ref.value| % 0x100] + ref.value) + image[..length])
    {
      PutFront(name, length, digest);
      PutBack(ref, image[..length]);
    }

    /** A whole manifest. */
    method Write(its: seq<Item>)
      requires Valid() && |its| < 0x100
      requires |Build(its)| <= 4096
      modifies this, buf
      ensures Valid() && Written() == Build(its)
    {
      Begin(|its|, MAGIC, 1);
      var i := 0;
      while i < |its|
        invariant 0 <= i <= |its| && Valid()
        invariant Written() == Partial(its, i)
      {
        WriteStep(its, i);
        var it := its[i];
        ghost var w := Written();
        assert it.image[..|it.image|] == it.image;
        Entry(it.name, |it.image|, it.digest, Some(it.ref), it.image);
        Reassociate(w, Front(it), Back(it));
        i := i + 1;
      }
      assert its[..i] == its;
    }
  }

  /** The manifest's bytes up to entry `i`. */
  ghost function Partial(its: seq<Item>, i: nat): Bytes
    requires |its| < 0x100 && i <= |its|
  {
    Header(MAGIC, 1, |its|) + EncodeAll(its[..i])
  }

  lemma WriteStep(its: seq<Item>, i: nat)
    requires |its| < 0x100 && i < |its|
    ensures Partial(its, i) + Encode(its[i]) == Partial(its, i + 1)
    ensures |Partial(its, i)| + |Encode(its[i])| <= |Build(its)|
  {
    EncodeMore(its, i);
    EncodePrefix(its, i + 1);
    var h, a, x := Header(MAGIC, 1, |its|), EncodeAll(its[..i]), Encode(its[i]);
    assert (h + a) + x == h + (a + x);
  }

  function Build(its: seq<Item>): Bytes
    requires |its| < 0x100
  {
    Header(MAGIC, 1, |its|) + EncodeAll(its)
  }

  lemma EncodeMore(its: seq<Item>, i: nat)
    requires i < |its|
    ensures EncodeAll(its[..i + 1]) == EncodeAll(its[..i]) + Encode(its[i])
  {
    assert its[..i + 1][..i] == its[..i];
  }

  lemma {:induction false} EncodePrefix(its: seq<Item>, i: nat)
    requires i <= |its|
    ensures EncodeAll(its[..i]) <= EncodeAll(its)
    decreases |its| - i
  {
    if i < |its| {
      EncodeMore(its, i);
      EncodePrefix(its, i + 1);
    } else {
      assert its[..i] == its;
    }
  }

  // ------------------------------------------------------------ reading it back

  lemma HoldsByte(b: Bytes, p: nat, v: Byte)
    requires Holds(b, p, [v])
    ensures b[p] == v
  {
    assert b[p..p + 1][0] == b[p];
  }

  lemma LittleReads(b: Bytes, p: nat, v: nat)
    requires Holds(b, p, Little(v)) && v < 0x1_0000_0000
    ensures U32(b, p) == v
  {
    var s := b[p..p + 4];
    assert s[0] == b[p] && s[1] == b[p + 1] && s[2] == b[p + 2] && s[3] == b[p + 3];
    Radix(v);
  }

  lemma Radix(v: nat)
    requires v < 0x1_0000_0000
    ensures v == v % 0x100 + 0x100 * (v / 0x100 % 0x100) + 0x1_0000 * (v / 0x1_0000 % 0x100)
                 + 0x100_0000 * (v / 0x100_0000 % 0x100)
  {
    assert v / 0x1_0000 == v / 0x100 / 0x100 && v / 0x100_0000 == v / 0x1_0000 / 0x100;
    assert v / 0x100_0000 < 0x100;
  }

  /** The lengths fit their length bytes. */
  predicate Fits(it: Item) {
    |it.name| < 0x100 && |it.ref| < 0x100 && |it.digest| == DIGEST && |it.image| < 0x1_0000_0000
  }

  function BodyOf(p: nat, it: Item): nat { p + 1 + |it.name| }

  function ImageOf(p: nat, it: Item): nat { BodyOf(p, it) + 4 + DIGEST + 1 + |it.ref| }

  lemma SplitEncoded(b: Bytes, p: nat, it: Item)
    requires Fits(it) && Holds(b, p, Encode(it))
    ensures var q := BodyOf(p, it);
            && Holds(b, p, [|it.name|]) && Holds(b, p + 1, it.name) && Holds(b, q, Little(|it.image|))
            && Holds(b, q + 4, it.digest) && Holds(b, q + 4 + DIGEST, [|it.ref|])
            && Holds(b, q + 4 + DIGEST + 1, it.ref) && Holds(b, ImageOf(p, it), it.image)
  {
    HoldsSplit(b, p, Front(it), Back(it));
    SplitFront(b, p, it);
    SplitBack(b, p + |Front(it)|, it);
  }

  lemma SplitFront(b: Bytes, p: nat, it: Item)
    requires |it.name| < 0x100 && Holds(b, p, Front(it))
    ensures Holds(b, p, [|it.name|]) && Holds(b, p + 1, it.name)
    ensures Holds(b, p + 1 + |it.name|, Little(|it.image|)) && Holds(b, p + 1 + |it.name| + 4, it.digest)
  {
    var a1 := [|it.name|] + it.name;
    var a2 := a1 + Little(|it.image|);
    HoldsSplit(b, p, a2, it.digest);
    HoldsSplit(b, p, a1, Little(|it.image|));
    HoldsSplit(b, p, [|it.name|], it.name);
  }

  lemma SplitBack(b: Bytes, p: nat, it: Item)
    requires |it.ref| < 0x100 && Holds(b, p, Back(it))
    ensures Holds(b, p, [|it.ref|]) && Holds(b, p + 1, it.ref) && Holds(b, p + 1 + |it.ref|, it.image)
  {
    HoldsSplit(b, p, [|it.ref|] + it.ref, it.image);
    HoldsSplit(b, p, [|it.ref|], it.ref);
  }

  /** The verifier reads from the bytes of an entry exactly what the builder was given. */
  lemma EntryReadsBack(b: Bytes, p: nat, it: Item)
    requires Fits(it) && Holds(b, p, Encode(it))
    ensures FieldsAt(b, BodyOf(p, it)) == Some(Fields(|it.image|, it.digest, it.ref, ImageOf(p, it)))
    ensures ImageOf(p, it) + |it.image| <= |b| && b[ImageOf(p, it)..ImageOf(p, it) + |it.image|] == it.image
    ensures EntryAt(b, p) == Some(Span(it.name, BodyOf(p, it), p + |Encode(it)|))
  {
    SplitEncoded(b, p, it);
    var q := BodyOf(p, it);
    HoldsByte(b, p, |it.name|);
    HoldsByte(b, q + 4 + DIGEST, |it.ref|);
    LittleReads(b, q, |it.image|);
  }

  // ------------------------------------------------------------ the whole manifest

  /** Reading back what one call of `entry` wrote, wherever it stands: the fields are those given, the image
      is its first `length` bytes, and the reference is empty exactly when none was given. */
  lemma CallReadsBack(b: Bytes, p: nat, name: Bytes, length: nat, digest: Bytes, ref: Option<Bytes>, image: Bytes)
    requires length <= |image| && length < 0x1_0000_0000 && |name| < 0x100 && |digest| == DIGEST
    requires ref.Some? ==> 0 < |ref.value| < 0x100
    requires Holds(b, p, ([|name| % 0x100] + name + Little(length) + digest)
                         + ((if ref.None? then [0] else [|ref.value| % 0x100] + ref.value) + image[..length]))
    ensures var f := FieldsAt(b, p + 1 + |name|);
            && f.Some? && f.value.length == length && f.value.digest == digest
            && (f.value.ref == [] <==> ref.None?) && (ref.Some? ==> f.value.ref == ref.value)
            && f.value.image + length <= |b| && b[f.value.image..f.value.image + length] == image[..length]
  {
    CallIsItem(name, length, digest, ref, image);
    ItemReadsBack(b, p, CalledItem(name, length, digest, ref, image));
  }

  ghost function CalledItem(name: Bytes, length: nat, digest: Bytes, ref: Option<Bytes>, image: Bytes): (it: Item)
    requires length <= |image|
    ensures it.name == name && it.digest == digest && it.image == image[..length] && |it.image| == length
    ensures it.ref == if ref.Some? then ref.value else []
  {
    Item(name, digest, if ref.Some? then ref.value else [], image[..length])
  }

  lemma CallIsItem(name: Bytes, length: nat, digest: Bytes, ref: Option<Bytes>, image: Bytes)
    requires length <= |image|
    ensures ([|name| % 0x100] + name + Little(length) + digest)
            + ((if ref.None? then [0] else [|ref.value| % 0x100] + ref.value) + image[..length])
         == Encode(CalledItem(name, length, digest, ref, image))
  {
    if ref.None? { assert [0] + [] == [0]; }
  }

  lemma ItemReadsBack(b: Bytes, p: nat, it: Item)
    requires Fits(it) && Holds(b, p, Encode(it))
    ensures var f := FieldsAt(b, p + 1 + |it.name|);
            && f.Some? && f.value.length == |it.image| && f.value.digest == it.digest && f.value.ref == it.ref
            && f.value.image + |it.image| <= |b| && b[f.value.image..f.value.image + |it.image|] == it.image
  {
    EntryReadsBack(b, p, it);
  }

  ghost predicate AllFit(its: seq<Item>) {
    |its| < 0x100 && forall i :: 0 <= i < |its| ==> Fits(its[i])
  }

  /** Where the builder wrote entry `i`. */
  ghost function Offset(its: seq<Item>, i: nat): nat
    requires i <= |its|
  {
    6 + |EncodeAll(its[..i])|
  }

  lemma ItemStands(its: seq<Item>, i: nat)
    requires AllFit(its) && i < |its|
    ensures Holds(Build(its), Offset(its, i), Encode(its[i]))
    ensures Offset(its, i + 1) == Offset(its, i) + |Encode(its[i])|
  {
    EncodeMore(its, i);
    EncodePrefix(its, i + 1);
    var h, a, x := Header(MAGIC, 1, |its|), EncodeAll(its[..i]), Encode(its[i]);
    var rest := EncodeAll(its)[|a + x|..];
    assert EncodeAll(its) == (a + x) + rest;
    assert Build(its) == (h + a) + x + rest;
    Inside(h + a, x, rest);
  }

  lemma Inside(a: Bytes, x: Bytes, z: Bytes)
    ensures Holds(a + x + z, |a|, x)
  {
  }

  /** What the parser sees of entry `i`. */
  ghost predicate Reads(b: Bytes, its: seq<Item>, i: nat)
    requires i < |its|
  {
    var it, p := its[i], Offset(its, i);
    && EntryAt(b, p) == Some(Span(it.name, BodyOf(p, it), Offset(its, i + 1)))
    && FieldsAt(b, BodyOf(p, it)) == Some(Fields(|it.image|, it.digest, it.ref, ImageOf(p, it)))
    && ImageOf(p, it) + |it.image| <= |b|
    && b[ImageOf(p, it)..ImageOf(p, it) + |it.image|] == it.image
  }

  /** The buffer reads as these entries. */
  ghost predicate ReadsAs(b: Bytes, its: seq<Item>) {
    && |b| >= 6 && b[5] == |its|
    && forall i :: 0 <= i < |its| ==> Reads(b, its, i)
  }

  lemma BuiltReadsAs(its: seq<Item>)
    requires AllFit(its)
    ensures ReadsAs(Build(its), its)
  {
    BuiltHeader(its);
    forall i | 0 <= i < |its| ensures Reads(Build(its), its, i) { BuiltReadsOne(its, i); }
  }

  lemma BuiltReadsOne(its: seq<Item>, i: nat)
    requires AllFit(its) && i < |its|
    ensures Reads(Build(its), its, i)
  {
    ItemStands(its, i);
    StandingReads(Build(its), its, i);
  }

  lemma StandingReads(b: Bytes, its: seq<Item>, i: nat)
    requires i < |its| && Fits(its[i]) && Holds(b, Offset(its, i), Encode(its[i]))
    requires Offset(its, i + 1) == Offset(its, i) + |Encode(its[i])|
    ensures Reads(b, its, i)
  {
    EntryReadsBack(b, Offset(its, i), its[i]);
  }

  lemma BuiltHeader(its: seq<Item>)
    requires |its| < 0x100
    ensures |Build(its)| >= 6 && Build(its)[..4] == MAGIC && Build(its)[4] == 1 && Build(its)[5] == |its|
  {
  }

  /** The first entry at or after `i` with the name. */
  function FirstNamed(its: seq<Item>, i: nat, want: Bytes): (r: Option<nat>)
    requires i <= |its|
    ensures r.Some? ==> i <= r.value < |its| && its[r.value].name == want
    ensures forall j :: i <= j < (if r.Some? then r.value else |its|) ==> its[j].name != want
    decreases |its| - i
  {
    if i == |its| then None else if its[i].name == want then Some(i) else FirstNamed(its, i + 1, want)
  }

  ghost function Where(its: seq<Item>, r: Option<nat>): Option<nat>
    requires r.Some? ==> r.value < |its|
  {
    if r.None? then None else Some(BodyOf(Offset(its, r.value), its[r.value]))
  }

  /** The entries from `i` on, as spans of the buffer. */
  ghost function Spans(its: seq<Item>, i: nat): (r: seq<Span>)
    requires i <= |its|
    ensures |r| == |its| - i
    decreases |its| - i
  {
    if i == |its| then []
    else
      var it, p := its[i], Offset(its, i);
      [Span(it.name, BodyOf(p, it), Offset(its, i + 1))] + Spans(its, i + 1)
  }

  /** The buffer holds these entries one after the other. */
  ghost predicate Listed(b: Bytes, pos: nat, spans: seq<Span>)
    decreases |spans|
  {
    spans == [] || (EntryAt(b, pos) == Some(spans[0]) && Listed(b, spans[0].next, spans[1..]))
  }

  ghost function FirstSpan(spans: seq<Span>, want: Bytes): Option<nat> {
    if spans == [] then None else if spans[0].name == want then Some(spans[0].body) else FirstSpan(spans[1..], want)
  }

  lemma {:induction false} SearchListed(b: Bytes, pos: nat, spans: seq<Span>, want: Bytes)
    requires Listed(b, pos, spans)
    ensures Search(b, pos, |spans|, want) == FirstSpan(spans, want)
    decreases |spans|
  {
    if spans != [] {
      SearchStep(b, pos, |spans|, want);
      SearchListed(b, spans[0].next, spans[1..], want);
    }
  }

  lemma {:induction false} ItemsListed(b: Bytes, its: seq<Item>, i: nat)
    requires ReadsAs(b, its) && i <= |its|
    ensures Listed(b, Offset(its, i), Spans(its, i))
    decreases |its| - i
  {
    if i < |its| {
      assert Reads(b, its, i);
      ItemsListed(b, its, i + 1);
    }
  }

  lemma {:induction false} FirstSpanIsFirstNamed(its: seq<Item>, i: nat, want: Bytes)
    requires i <= |its|
    ensures FirstSpan(Spans(its, i), want) == Where(its, FirstNamed(its, i, want))
    decreases |its| - i
  {
    if i < |its| { FirstSpanIsFirstNamed(its, i + 1, want); }
  }

  /** `find_entry` recovers an entry at the offset the builder wrote it. */
  lemma FindRecovers(b: Bytes, its: seq<Item>, want: Bytes)
    requires ReadsAs(b, its)
    ensures FindEntry(b, want) == Where(its, FirstNamed(its, 0, want))
  {
    assert its[..0] == [];
    ItemsListed(b, its, 0);
    SearchListed(b, 6, Spans(its, 0), want);
    FirstSpanIsFirstNamed(its, 0, want);
  }

  // ------------------------------------------------------------ the verdict on the entries

  /** The verdict on one entry, given the verdict on its reference. */
  function JudgeItem(it: Item, H: Bytes -> Bytes, alloc: nat -> bool, path: seq<Bytes>, below: Verdict): Verdict {
    var depth := |path|;
    if it.name in path then Fault(ReferenceCycle, depth, it.name)
    else if !alloc(depth) then Fault(DigestUnavailable, depth, NO_DIGEST)
    else if it.image == [] || |it.image| > MAX_IMAGE then Fault(LengthImplausible, depth, it.name)
    else if below.Fault? then below
    else if H(it.image) != it.digest then Fault(DigestMismatch, depth, it.name)
    else Verified(below.count + 1)
  }

  /** Verification of the entries themselves, without bytes: entry `i`, below the names of `path`. */
  function Judge(its: seq<Item>, H: Bytes -> Bytes, alloc: nat -> bool, path: seq<Bytes>, i: nat): Verdict
    requires |path| <= MAX_DEPTH + 1 && i < |its|
    decreases MAX_DEPTH + 1 - |path|, 0
  {
    var it := its[i];
    if |path| <= MAX_DEPTH then JudgeItem(it, H, alloc, path, JudgeRef(its, H, alloc, path + [it.name], it.ref))
    else if it.name in path then Fault(ReferenceCycle, |path|, it.name)
    else Fault(NestingTooDeep, |path|, it.name)
  }

  function JudgeRef(its: seq<Item>, H: Bytes -> Bytes, alloc: nat -> bool, path: seq<Bytes>, ref: Bytes): Verdict
    requires 0 < |path| <= MAX_DEPTH + 1
    decreases MAX_DEPTH + 1 - |path|, 1
  {
    if ref == [] then Verified(0)
    else
      match FirstNamed(its, 0, ref)
      case None => Fault(ReferenceMissing, |path| - 1, ref)
      case Some(j) => Judge(its, H, alloc, path, j)
  }

  lemma OneJudges(b: Bytes, it: Item, p: nat, H: Bytes -> Bytes, alloc: nat -> bool, path: seq<Bytes>, below: Verdict)
    requires FieldsAt(b, BodyOf(p, it)) == Some(Fields(|it.image|, it.digest, it.ref, ImageOf(p, it)))
    requires ImageOf(p, it) + |it.image| <= |b| && b[ImageOf(p, it)..ImageOf(p, it) + |it.image|] == it.image
    ensures T.RefOf(b, T.Link(it.name, BodyOf(p, it))) == it.ref
    ensures T.Judge(b, H, alloc, path, T.Link(it.name, BodyOf(p, it)), below) == JudgeItem(it, H, alloc, path, below)
  {
  }

  lemma {:induction false} CheckJudges(b: Bytes, its: seq<Item>, H: Bytes -> Bytes, alloc: nat -> bool,
                                       path: seq<Bytes>, i: nat)
    requires ReadsAs(b, its) && |path| <= MAX_DEPTH + 1 && i < |its|
    ensures Check(b, H, alloc, path, its[i].name, BodyOf(Offset(its, i), its[i])) == Judge(its, H, alloc, path, i)
    decreases MAX_DEPTH + 1 - |path|, 0
  {
    var it, p := its[i], Offset(its, i);
    assert Reads(b, its, i);
    if |path| <= MAX_DEPTH {
      RefJudges(b, its, H, alloc, path + [it.name], it.ref);
      T.CheckIsJudge(b, H, alloc, path, T.Link(it.name, BodyOf(p, it)));
      OneJudges(b, it, p, H, alloc, path, JudgeRef(its, H, alloc, path + [it.name], it.ref));
    }
  }

  lemma {:induction false} RefJudges(b: Bytes, its: seq<Item>, H: Bytes -> Bytes, alloc: nat -> bool,
                                     path: seq<Bytes>, ref: Bytes)
    requires ReadsAs(b, its) && 0 < |path| <= MAX_DEPTH + 1
    ensures CheckRef(b, H, alloc, path, ref) == JudgeRef(its, H, alloc, path, ref)
    decreases MAX_DEPTH + 1 - |path|, 1
  {
    FindRecovers(b, its, ref);
    var r := FirstNamed(its, 0, ref);
    if r.Some? { CheckJudges(b, its, H, alloc, path, r.value); }
  }

  /** The verdict on a built manifest, fault or success, is the verdict on its entries. */
  lemma BuiltVerdict(its: seq<Item>, H: Bytes -> Bytes, alloc: nat -> bool)
    requires AllFit(its)
    ensures Verify(Build(its), H, alloc) ==
            if its == [] || its[0].name == [] then Fault(EntryMalformed, 0, ROOT)
            else Judge(its, H, alloc, [], 0)
  {
    var b := Build(its);
    BuiltHeader(its);
    if its != [] {
      ItemStands(its, 0);
      assert its[..0] == [];
      SplitEncoded(b, 6, its[0]);
      HoldsByte(b, 6, |its[0].name|);
      BuiltReadsAs(its);
      CheckJudges(b, its, H, alloc, [], 0);
    }
  }

  // ------------------------------------------------------------ the round trip

  /** A chain of entries by position: each refers to the next by name, the last refers to nothing. */
  ghost predicate RefChain(its: seq<Item>, c: seq<nat>) {
    && c != [] && (forall k :: 0 <= k < |c| ==> c[k] < |its|)
    && (forall k :: 0 <= k < |c| - 1 ==> its[c[k]].ref != [] && its[c[k]].ref == its[c[k + 1]].name)
    && its[c[|c| - 1]].ref == []
  }

  ghost predicate UniqueNames(its: seq<Item>) {
    forall i, j :: 0 <= i < j < |its| ==> its[i].name != its[j].name
  }

  ghost predicate Sound(its: seq<Item>, H: Bytes -> Bytes) {
    forall i :: 0 <= i < |its| ==> 1 <= |its[i].image| <= MAX_IMAGE && H(its[i].image) == its[i].digest
  }

  ghost function NamesOf(its: seq<Item>, c: seq<nat>): seq<Bytes>
    requires forall k :: 0 <= k < |c| ==> c[k] < |its|
  {
    seq(|c|, k requires 0 <= k < |c| => its[c[k]].name)
  }

  lemma {:induction false} ChainJudged(its: seq<Item>, H: Bytes -> Bytes, alloc: nat -> bool, c: seq<nat>, k: nat)
    requires UniqueNames(its) && Sound(its, H) && (forall d: nat :: alloc(d)) && RefChain(its, c)
    requires |c| <= MAX_DEPTH + 1 && k < |c|
    requires forall i, j :: 0 <= i < j < |c| ==> c[i] != c[j]
    ensures Judge(its, H, alloc, NamesOf(its, c[..k]), c[k]) == Verified(|c| - k)
    decreases |c| - k
  {
    var path, it := NamesOf(its, c[..k]), its[c[k]];
    assert it.name !in path by {
      forall i | 0 <= i < |path| ensures path[i] != it.name {
        assert path[i] == its[c[i]].name && c[i] != c[k];
      }
    }
    if k + 1 < |c| {
      var next := c[k + 1];
      assert it.ref == its[next].name;
      var r := FirstNamed(its, 0, it.ref);
      assert r == Some(next);
      ChainJudged(its, H, alloc, c, k + 1);
      assert path + [it.name] == NamesOf(its, c[..k + 1]);
    }
  }

  /** Any manifest the builder writes that fits the format, with unique names, correct digests and an
      acyclic chain of at most 7 entries from the first, verifies with the chain length as its count. */
  lemma RoundTrip(its: seq<Item>, H: Bytes -> Bytes, alloc: nat -> bool, c: seq<nat>)
    requires AllFit(its) && its != [] && its[0].name != [] && UniqueNames(its) && Sound(its, H)
    requires (forall d: nat :: alloc(d)) && RefChain(its, c) && c[0] == 0 && |c| <= MAX_DEPTH + 1
    requires forall i, j :: 0 <= i < j < |c| ==> c[i] != c[j]
    ensures Verify(Build(its), H, alloc) == Verified(|c|)
    ensures forall i :: 0 <= i < |its| ==>
              FindEntry(Build(its), its[i].name) == Some(BodyOf(Offset(its, i), its[i]))
  {
    BuiltVerdict(its, H, alloc);
    ChainJudged(its, H, alloc, c, 0);
    assert NamesOf(its, c[..0]) == [];
    forall i | 0 <= i < |its|
      ensures FindEntry(Build(its), its[i].name) == Some(BodyOf(Offset(its, i), its[i]))
    {
      FindsItsOwn(its, i);
    }
  }

  lemma FindsItsOwn(its: seq<Item>, i: nat)
    requires AllFit(its) && UniqueNames(its) && i < |its|
    ensures FindEntry(Build(its), its[i].name) == Some(BodyOf(Offset(its, i), its[i]))
  {
    BuiltReadsAs(its);
    FindRecovers(Build(its), its, its[i].name);
    var r := FirstNamed(its, 0, its[i].name);
    assert r == Some(i);
  }
}
