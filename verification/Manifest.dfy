/** The secure-world manifest verifier: recursive descent over an untrusted buffer, with a visit path and
    hash contexts that must be released on every way out.

    SHA-256 is a function parameter and the allocation of hash contexts an oracle by depth. A fault
    escapes through the unwind arm; here it is a verdict that every frame returns after its guards have
    run. */
module Manifest {
  import opened Wrappers
  import opened ByteStrings

  datatype Code =
    | ManifestTruncated | HeaderBad | VersionUnsupported | EntryMalformed | LengthImplausible
    | DigestMismatch | ReferenceMissing | ReferenceCycle | NestingTooDeep | DigestUnavailable

  /** How many entries verified, or the first fault with its depth and the name it is about. */
  datatype Verdict = Verified(count: nat) | Fault(code: Code, depth: nat, name: Bytes)

  const MAX_DEPTH: nat := 6
  const MAX_NAME: nat := 24
  const MAX_IMAGE: nat := 0x10_0000
  const DIGEST: nat := 32

  const MAGIC: Bytes := [77, 70, 83, 84]                   // "MFST"
  const ROOT: Bytes := [114, 111, 111, 116]                // "root"
  const NO_DIGEST: Bytes := [100, 105, 103, 101, 115, 116] // "digest"

  // ------------------------------------------------------------ the format

  function At(b: Bytes, p: nat): nat
    requires p < |b|
  {
    b[p] as int
  }

  function U32(b: Bytes, p: nat): nat
    requires p + 4 <= |b|
  {
    At(b, p) + 0x100 * At(b, p + 1) + 0x1_0000 * At(b, p + 2) + 0x100_0000 * At(b, p + 3)
  }

  /** What follows an entry's name: length, digest, reference, and where the image starts. */
  datatype Fields = Fields(length: nat, digest: Bytes, ref: Bytes, image: nat)

  function FieldsAt(b: Bytes, body: nat): Option<Fields> {
    if body + 4 + DIGEST + 1 > |b| then None
    else
      var n := b[body + 4 + DIGEST];
      var at := body + 4 + DIGEST + 1;
      if at + n > |b| then None
      else Some(Fields(U32(b, body), b[body + 4..body + 4 + DIGEST], b[at..at + n], at + n))
  }

  datatype Span = Span(name: Bytes, body: nat, next: nat)

  /** A whole entry at a position, image included. */
  function EntryAt(b: Bytes, pos: nat): (r: Option<Span>)
    ensures r.Some? ==> pos < r.value.next <= |b|
  {
    if pos + 1 > |b| || pos + 1 + b[pos] > |b| then None
    else
      var body := pos + 1 + b[pos];
      match FieldsAt(b, body)
      case None => None
      case Some(f) =>
        if f.image + f.length > |b| then None else Some(Span(b[pos + 1..body], body, f.image + f.length))
  }

  /** The entry with the name, looking at no more than `count` entries from `pos` and stopping at the
      first one that does not fit. */
  function Search(b: Bytes, pos: nat, count: nat, want: Bytes): Option<nat>
    decreases count
  {
    if count == 0 then None
    else
      match EntryAt(b, pos)
      case None => None
      case Some(e) => if e.name == want then Some(e.body) else Search(b, e.next, count - 1, want)
  }

  function FindEntry(b: Bytes, want: Bytes): Option<nat> {
    if |b| < 6 then None else Search(b, 6, b[5], want)
  }

  // ------------------------------------------------------------ verification

  /** One entry and everything it refers to; `path` holds the names being verified above it. */
  function Check(b: Bytes, H: Bytes -> Bytes, alloc: nat -> bool, path: seq<Bytes>, name: Bytes, body: nat): Verdict
    requires |path| <= MAX_DEPTH + 1
    decreases MAX_DEPTH + 1 - |path|, 0
  {
    var depth := |path|;
    if name in path then Fault(ReferenceCycle, depth, name)
    else if depth > MAX_DEPTH then Fault(NestingTooDeep, depth, name)
    else if !alloc(depth) then Fault(DigestUnavailable, depth, NO_DIGEST)
    else
      match FieldsAt(b, body)
      case None => Fault(ManifestTruncated, depth, name)
      case Some(f) =>
        if f.length == 0 || f.length > MAX_IMAGE then Fault(LengthImplausible, depth, name)
        else
          var below := CheckRef(b, H, alloc, path + [name], f.ref);
          if below.Fault? then below else CheckImage(b, H, f, name, depth, below.count)
  }

  /** The image, once everything below has verified. */
  function CheckImage(b: Bytes, H: Bytes -> Bytes, f: Fields, name: Bytes, depth: nat, below: nat): Verdict {
    if f.image + f.length > |b| then Fault(ManifestTruncated, depth, name)
    else if H(b[f.image..f.image + f.length]) != f.digest then Fault(DigestMismatch, depth, name)
    else Verified(below + 1)
  }

  /** What the reference, if any, gives. */
  function CheckRef(b: Bytes, H: Bytes -> Bytes, alloc: nat -> bool, path: seq<Bytes>, ref: Bytes): Verdict
    requires 0 < |path| <= MAX_DEPTH + 1
    decreases MAX_DEPTH + 1 - |path|, 1
  {
    if ref == [] then Verified(0)
    else
      match FindEntry(b, ref)
      case None => Fault(ReferenceMissing, |path| - 1, ref)
      case Some(at) => Check(b, H, alloc, path, ref, at)
  }

  /** What is wrong before the first entry's fields, if anything. */
  function HeaderFault(b: Bytes): Option<Code> {
    if |b| < 6 then Some(ManifestTruncated)
    else if b[..4] != MAGIC then Some(HeaderBad)
    else if b[4] != 1 then Some(VersionUnsupported)
    else if b[5] == 0 then Some(EntryMalformed)
    else if |b| < 7 then Some(ManifestTruncated)
    else if b[6] == 0 || 7 + At(b, 6) > |b| then Some(EntryMalformed)
    else None
  }

  function Verify(b: Bytes, H: Bytes -> Bytes, alloc: nat -> bool): Verdict {
    match HeaderFault(b)
    case Some(code) => Fault(code, 0, ROOT)
    case None => Check(b, H, alloc, [], b[7..7 + At(b, 6)], 7 + At(b, 6))
  }

  // ------------------------------------------------------------ the verifier object

  /** The bounded cursor; every read is inside the buffer or the call is not allowed. */
  class Reader {
    const base: Bytes
    var pos: nat

    constructor (base: Bytes)
      ensures this.base == base && pos == 0
    {
      this.base, pos := base, 0;
    }

    predicate Has(n: nat)
      reads this
    {
      pos + n <= |base|
    }

    method Seek(p: nat)
      modifies this
      ensures pos == p
    {
      pos := p;
    }

    method U8() returns (v: Byte)
      requires Has(1)
      modifies this
      ensures v == base[old(pos)] && pos == old(pos) + 1
    {
      v := base[pos];
      pos := pos + 1;
    }

    method ReadU32() returns (v: nat)
      requires Has(4)
      modifies this
      ensures v == U32(base, old(pos)) && pos == old(pos) + 4
    {
      v := At(base, pos) + 0x100 * At(base, pos + 1) + 0x1_0000 * At(base, pos + 2) + 0x100_0000 * At(base, pos + 3);
      pos := pos + 4;
    }

    method Take(n: nat) returns (s: Bytes)
      requires Has(n)
      modifies this
      ensures s == base[old(pos)..old(pos) + n] && pos == old(pos) + n
    {
      s := base[pos..pos + n];
      pos := pos + n;
    }
  }

  /** The fields behind a name, up to the image. */
  method ReadFields(rd: Reader) returns (r: Option<Fields>)
    modifies rd
    ensures r == FieldsAt(rd.base, old(rd.pos))
    ensures r.Some? ==> rd.pos == r.value.image <= |rd.base|
  {
    ghost var body := rd.pos;
    if !rd.Has(4 + DIGEST + 1) { return None; }
    var length := rd.ReadU32();
    var digest := rd.Take(DIGEST);
    var refLen := rd.U8();
    if !rd.Has(refLen) { return None; }
    var ref := rd.Take(refLen);
    return Some(Fields(length, digest, ref, rd.pos));
  }

  /** A whole entry. */
  method ReadEntry(rd: Reader) returns (r: Option<Span>)
    requires rd.pos <= |rd.base|
    modifies rd
    ensures r == EntryAt(rd.base, old(rd.pos))
    ensures r.Some? ==> rd.pos == r.value.next <= |rd.base|
  {
    if !rd.Has(1) { return None; }
    var nameLen := rd.U8();
    if !rd.Has(nameLen) { return None; }
    var name := rd.Take(nameLen);
    var body := rd.pos;
    var f := ReadFields(rd);
    if f.None? || !rd.Has(f.value.length) { return None; }
    var _ := rd.Take(f.value.length);
    return Some(Span(name, body, rd.pos));
  }

  lemma SearchStep(b: Bytes, pos: nat, count: nat, want: Bytes)
    requires count > 0
    ensures var e := EntryAt(b, pos);
            Search(b, pos, count, want) ==
            if e.None? then None
            else if e.value.name == want then Some(e.value.body)
            else Search(b, e.value.next, count - 1, want)
  {
  }

  /** The loop of `find_entry`. */
  method SearchScan(rd: Reader, count: nat, want: Bytes) returns (r: Option<nat>)
    requires rd.pos <= |rd.base|
    modifies rd
    ensures r == Search(rd.base, old(rd.pos), count, want)
  {
    ghost var answer := Search(rd.base, rd.pos, count, want);
    var left := count;
    while left > 0
      invariant rd.pos <= |rd.base| && answer == Search(rd.base, rd.pos, left, want)
    {
      var done;
      done, r := SearchTurn(rd, left, want, answer);
      if done { return; }
      left := left - 1;
    }
    return None;
  }

  /** One entry of the loop: the search is over, or goes on behind it. */
  method SearchTurn(rd: Reader, ghost left: nat, want: Bytes, ghost answer: Option<nat>)
    returns (done: bool, r: Option<nat>)
    requires rd.pos <= |rd.base| && left > 0 && answer == Search(rd.base, rd.pos, left, want)
    modifies rd
    ensures done ==> r == answer
    ensures !done ==> rd.pos <= |rd.base| && answer == Search(rd.base, rd.pos, left - 1, want)
  {
    SearchStep(rd.base, rd.pos, left, want);
    var e := ReadEntry(rd);
    if e.None? { return true, None; }
    if e.value.name == want { return true, Some(e.value.body); }
    return false, None;
  }

  /** `find_entry`. */
  method FindEntryScan(b: Bytes, want: Bytes) returns (r: Option<nat>)
    ensures r == FindEntry(b, want)
  {
    var rd := new Reader(b);
    if !rd.Has(6) { return None; }
    var _ := rd.Take(4);
    var _ := rd.U8();
    var count := rd.U8();
    r := SearchScan(rd, count, want);
  }

  /** The checks before the first entry, in order, and that entry's name. */
  method ReadHeader(rd: Reader) returns (code: Option<Code>, first: Bytes)
    requires rd.pos == 0
    modifies rd
    ensures code == HeaderFault(rd.base)
    ensures code.None? ==> first == rd.base[7..7 + At(rd.base, 6)] && rd.pos == 7 + At(rd.base, 6)
  {
    first := [];
    if !rd.Has(6) { return Some(ManifestTruncated), []; }
    var magic := rd.Take(4);
    assert magic == rd.base[..4];
    if magic != MAGIC { return Some(HeaderBad), []; }
    var version := rd.U8();
    if version != 1 { return Some(VersionUnsupported), []; }
    var count := rd.U8();
    if count == 0 { return Some(EntryMalformed), []; }
    if !rd.Has(1) { return Some(ManifestTruncated), []; }
    var firstLen := rd.U8();
    if firstLen == 0 || !rd.Has(firstLen) { return Some(EntryMalformed), []; }
    code := None;
    first := rd.Take(firstLen);
  }

  /** `note_name`: as much of a name as the report holds. */
  function Shown(name: Bytes): (r: Bytes)
    ensures r <= name && |r| == if |name| < 24 then |name| else 24
  {
    if |name| < MAX_NAME then name else name[..MAX_NAME]
  }

  class Verifier {
    const slots: array<Bytes>        // the visit path
    var pathLen: nat
    var faultName: Bytes
    var entriesVerified: nat
    var deepest: nat
    ghost var acquired: nat
    ghost var freed: nat

    ghost predicate Valid()
      reads this
    {
      slots.Length == MAX_DEPTH + 1 && pathLen <= slots.Length
    }

    ghost function Path(): seq<Bytes>
      requires Valid()
      reads this, slots
    {
      slots[..pathLen]
    }

    /** Nothing is held: the path is empty and every hash context is released. */
    ghost predicate Clean()
      reads this
    {
      Valid() && pathLen == 0 && acquired == freed
    }

    constructor ()
      ensures Clean() && fresh(slots)
    {
      slots := new Bytes[MAX_DEPTH + 1](_ => []);
      pathLen, entriesVerified, deepest, acquired, freed := 0, 0, 0, 0, 0;
      faultName := [];
    }

    /** `fail`: the name, cut to what the report holds, is left beside the payload. */
    method Fail(code: Code, name: Bytes, depth: nat) returns (v: Verdict)
      modifies this`faultName
      ensures v == Fault(code, depth, name)
      ensures faultName == Shown(name)
    {
      faultName := Shown(name);
      v := Fault(code, depth, name);
    }

    /** The scan of the visit path. */
    method OnPath(name: Bytes) returns (found: bool)
      requires Valid()
      ensures found <==> name in Path()
    {
      var i := 0;
      while i < pathLen
        invariant 0 <= i <= pathLen && name !in slots[..i]
      {
        if slots[i] == name {
          assert Path()[i] == name;
          return true;
        }
        i := i + 1;
      }
      return false;
    }

    /** `verify_entry`: the verdict, with the path and the hash contexts as they were on entry. */
    method VerifyEntry(b: Bytes, H: Bytes -> Bytes, alloc: nat -> bool, name: Bytes, body: nat, depth: nat)
      returns (v: Verdict)
      requires Valid() && depth == pathLen
      modifies this, slots
      ensures Valid() && Path() == old(Path()) && pathLen == old(pathLen)
      ensures v == Check(b, H, alloc, old(Path()), name, body)
      ensures acquired - freed == old(acquired) - old(freed)
      ensures v.Verified? ==> entriesVerified == old(entriesVerified) + v.count && faultName == old(faultName)
      ensures v.Fault? ==> faultName == Shown(v.name)
      decreases MAX_DEPTH + 1 - depth, 3
    {
      if depth > deepest { deepest := depth; }
      var cycle := OnPath(name);
      if cycle {
        v := Fail(ReferenceCycle, name, depth);
        return;
      }
      if pathLen > MAX_DEPTH {
        v := Fail(NestingTooDeep, name, depth);
        return;
      }
      ghost var path := Path();
      slots[pathLen] := name;
      pathLen := pathLen + 1;
      assert Path() == path + [name];
      if !alloc(depth) {
        v := Fail(DigestUnavailable, NO_DIGEST, depth);
      } else {
        acquired := acquired + 1;
        v := VerifyHeld(b, H, alloc, name, body, depth);
        freed := freed + 1;            // the hash context dies on every way out
      }
      pathLen := pathLen - 1;          // and so does the visit mark
      assert Path() == (path + [name])[..pathLen];
    }

    /** The rest of `verify_entry`, with the visit mark and the hash context held. */
    method VerifyHeld(b: Bytes, H: Bytes -> Bytes, alloc: nat -> bool, name: Bytes, body: nat, depth: nat)
      returns (v: Verdict)
      requires Valid() && depth + 1 == pathLen && alloc(depth)
      requires Path()[depth] == name && name !in Path()[..depth]
      modifies this, slots
      ensures Valid() && Path() == old(Path()) && pathLen == old(pathLen)
      ensures v == Check(b, H, alloc, old(Path())[..depth], name, body)
      ensures acquired - freed == old(acquired) - old(freed)
      ensures v.Verified? ==> entriesVerified == old(entriesVerified) + v.count && faultName == old(faultName)
      ensures v.Fault? ==> faultName == Shown(v.name)
      decreases MAX_DEPTH + 1 - depth, 2
    {
      ghost var path := Path();
      assert path[..depth] + [name] == path;
      var rd := new Reader(b);
      rd.Seek(body);
      var fields := ReadFields(rd);
      if fields.None? {
        v := Fail(ManifestTruncated, name, depth);
        return;
      }
      var f := fields.value;
      if f.length == 0 || f.length > MAX_IMAGE {
        v := Fail(LengthImplausible, name, depth);
        return;
      }
      v := VerifyRef(b, H, alloc, f.ref, depth);
      if v.Fault? { return; }
      v := VerifyImage(rd, H, f, name, depth, v.count);
    }

    /** The image bytes follow the reference. */
    method VerifyImage(rd: Reader, H: Bytes -> Bytes, f: Fields, name: Bytes, depth: nat, below: nat)
      returns (v: Verdict)
      requires rd.pos == f.image
      modifies rd, this`entriesVerified, this`faultName
      ensures v == CheckImage(rd.base, H, f, name, depth, below)
      ensures v.Verified? ==> entriesVerified == old(entriesVerified) + 1 && faultName == old(faultName)
      ensures v.Fault? ==> faultName == Shown(v.name)
    {
      if !rd.Has(f.length) {
        v := Fail(ManifestTruncated, name, depth);
        return;
      }
      var image := rd.Take(f.length);
      var actual := H(image);
      if actual != f.digest {
        v := Fail(DigestMismatch, name, depth);
        return;
      }
      entriesVerified := entriesVerified + 1;
      v := Verified(below + 1);
    }

    /** The descent into the reference, when there is one. */
    method VerifyRef(b: Bytes, H: Bytes -> Bytes, alloc: nat -> bool, ref: Bytes, depth: nat)
      returns (v: Verdict)
      requires Valid() && depth + 1 == pathLen
      modifies this, slots
      ensures Valid() && Path() == old(Path()) && pathLen == old(pathLen)
      ensures v == CheckRef(b, H, alloc, old(Path()), ref)
      ensures acquired - freed == old(acquired) - old(freed)
      ensures v.Verified? ==> entriesVerified == old(entriesVerified) + v.count && faultName == old(faultName)
      ensures v.Fault? ==> faultName == Shown(v.name)
      decreases MAX_DEPTH + 1 - depth, 1
    {
      if |ref| == 0 { return Verified(0); }
      var target := FindEntryScan(b, ref);
      if target.None? {
        v := Fail(ReferenceMissing, ref, depth);
        return;
      }
      v := VerifyEntry(b, H, alloc, ref, target.value, depth + 1);
    }

    /** `verify_manifest`: the verdict depends on the buffer alone, and whatever it is nothing is held
        afterwards, so the instance is fit for the next request. */
    method VerifyManifest(b: Bytes, H: Bytes -> Bytes, alloc: nat -> bool) returns (v: Verdict)
      requires Clean()
      modifies this, slots
      ensures Clean()
      ensures v == Verify(b, H, alloc)
      ensures v.Verified? ==> entriesVerified == v.count && faultName == []
      ensures v.Fault? ==> faultName == Shown(v.name)
    {
      faultName, entriesVerified, deepest := [], 0, 0;
      var rd := new Reader(b);
      var code, first := ReadHeader(rd);
      if code.Some? {
        v := Fail(code.value, ROOT, 0);
        return;
      }
      assert Path() == [];
      v := VerifyEntry(b, H, alloc, first, rd.pos, 0);
    }
  }
}
