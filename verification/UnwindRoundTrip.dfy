/** Writers for everything the unwind-table decoder reads, and the way back: encoded pointers in every format
    and relative to everything the decoder knows, and whole data areas around call-site tables. */
module UnwindRoundTrip {
  import opened ByteStrings
  import opened UnwindTables

  // ------------------------------------------------------------ fixed widths

  /** The low `n` bytes of a number, little endian. */
  function LittleBytes(v: int, n: nat): (r: Bytes)
    ensures |r| == n
    decreases n
  {
    if n == 0 then [] else [v % 256] + LittleBytes(v / 256, n - 1)
  }

  lemma {:induction false} FixedReadsBack(d: Bytes, p: nat, n: nat, v: int)
    requires 0 <= v < Pow256(n) && Holds(d, p, LittleBytes(v, n))
    ensures Fixed(d, p, n) == v
    decreases n
  {
    if n > 0 {
      HoldsCons(d, p, v % 256, LittleBytes(v / 256, n - 1));
      FixedReadsBack(d, p + 1, n - 1, v / 256);
    }
  }

  /** A negative number has the bytes of its complement. */
  lemma {:induction false} Complement(v: int, n: nat)
    ensures LittleBytes(v + Pow256(n), n) == LittleBytes(v, n)
    decreases n
  {
    if n > 0 {
      var m := Pow256(n - 1);
      assert (v + 256 * m) % 256 == v % 256 && (v + 256 * m) / 256 == v / 256 + m;
      Complement(v / 256, n - 1);
    }
  }

  lemma UnsignedReadsBack(d: Bytes, p: nat, n: nat, v: int)
    requires 0 <= v < Pow256(n) && Holds(d, p, LittleBytes(v, n))
    ensures FixedAt(d, p, n, false) == Got(v, p + n)
  {
    FixedReadsBack(d, p, n, v);
  }

  lemma SignedReadsBack(d: Bytes, p: nat, n: nat, v: int)
    requires n > 0 && -Pow256(n) <= 2 * v < Pow256(n) && Holds(d, p, LittleBytes(v, n))
    ensures FixedAt(d, p, n, true) == Got(v, p + n)
  {
    assert Pow256(n) == 256 * Pow256(n - 1);
    if v < 0 {
      Complement(v, n);
      FixedReadsBack(d, p, n, v + Pow256(n));
    } else {
      FixedReadsBack(d, p, n, v);
    }
  }

  lemma Powers()
    ensures Pow256(2) == 0x1_0000 && Pow256(4) == 0x1_0000_0000 && Pow256(8) == 0x1_0000_0000_0000_0000
  {
    assert Pow256(1) == 256 && Pow256(2) == 256 * 256;
    assert Pow256(3) == 256 * Pow256(2) && Pow256(4) == 256 * Pow256(3);
    assert Pow256(5) == 256 * Pow256(4) && Pow256(6) == 256 * Pow256(5);
    assert Pow256(7) == 256 * Pow256(6) && Pow256(8) == 256 * Pow256(7);
  }

  // ------------------------------------------------------------ encoded pointers

  datatype Format = AbsPtr | Uleb128 | Udata2 | Udata4 | Udata8 | Sleb128 | Sdata2 | Sdata4 | Sdata8

  datatype Relative = Absolute | PcRel | DataRel | FuncRel

  /** An encoding: how the number is written, what it is relative to, and the indirect bit. */
  datatype Encoding = Encoding(format: Format, relative: Relative, indirect: bool)

  function FormatCode(f: Format): int {
    match f
    case AbsPtr => 0x00 case Uleb128 => 0x01 case Udata2 => 0x02 case Udata4 => 0x03 case Udata8 => 0x04
    case Sleb128 => 0x09 case Sdata2 => 0x0A case Sdata4 => 0x0B case Sdata8 => 0x0C
  }

  function RelativeCode(r: Relative): int {
    match r case Absolute => 0x00 case PcRel => 0x10 case DataRel => 0x30 case FuncRel => 0x40
  }

  function ByteOf(e: Encoding): Byte {
    FormatCode(e.format) + RelativeCode(e.relative) + if e.indirect then 0x80 else 0
  }

  /** The numbers a format can hold. */
  predicate Fits(f: Format, v: int, w: Width) {
    match f
    case AbsPtr => 0 <= v < (if w.W32? then 0x1_0000_0000 else 0x1_0000_0000_0000_0000)
    case Uleb128 => 0 <= v
    case Udata2 => 0 <= v < 0x1_0000
    case Udata4 => 0 <= v < 0x1_0000_0000
    case Udata8 => 0 <= v < 0x1_0000_0000_0000_0000
    case Sleb128 => true
    case Sdata2 => -0x8000 <= v < 0x8000
    case Sdata4 => -0x8000_0000 <= v < 0x8000_0000
    case Sdata8 => -0x8000_0000_0000_0000 <= v < 0x8000_0000_0000_0000
  }

  function Write(f: Format, v: int, w: Width): Bytes
    requires Fits(f, v, w)
  {
    match f
    case AbsPtr => LittleBytes(v, if w.W32? then 4 else 8)
    case Uleb128 => EncodeU(v)
    case Sleb128 => EncodeS(v)
    case Udata2 => LittleBytes(v, 2)
    case Sdata2 => LittleBytes(v, 2)
    case Udata4 => LittleBytes(v, 4)
    case Sdata4 => LittleBytes(v, 4)
    case Udata8 => LittleBytes(v, 8)
    case Sdata8 => LittleBytes(v, 8)
  }

  lemma FormattedReadsBack(d: Bytes, p: nat, f: Format, v: int, w: Width)
    requires Fits(f, v, w) && Holds(d, p, Write(f, v, w))
    ensures Formatted(d, p, FormatCode(f), w) == Got(v, p + |Write(f, v, w)|)
  {
    match f
    case Uleb128 => UlebRoundTrip(d, p, v);
    case Sleb128 => SlebRoundTrip(d, p, v);
    case Sdata2 => SignedFormatReadsBack(d, p, f, v, w);
    case Sdata4 => SignedFormatReadsBack(d, p, f, v, w);
    case Sdata8 => SignedFormatReadsBack(d, p, f, v, w);
    case _ => UnsignedFormatReadsBack(d, p, f, v, w);
  }

  lemma UnsignedFormatReadsBack(d: Bytes, p: nat, f: Format, v: int, w: Width)
    requires (f.AbsPtr? || f.Udata2? || f.Udata4? || f.Udata8?) && Fits(f, v, w) && Holds(d, p, Write(f, v, w))
    ensures Formatted(d, p, FormatCode(f), w) == Got(v, p + |Write(f, v, w)|)
  {
    Powers();
    match f
    case AbsPtr => UnsignedReadsBack(d, p, if w.W32? then 4 else 8, v);
    case Udata2 => UnsignedReadsBack(d, p, 2, v);
    case Udata4 => UnsignedReadsBack(d, p, 4, v);
    case Udata8 => UnsignedReadsBack(d, p, 8, v);
  }

  lemma SignedFormatReadsBack(d: Bytes, p: nat, f: Format, v: int, w: Width)
    requires (f.Sdata2? || f.Sdata4? || f.Sdata8?) && Fits(f, v, w) && Holds(d, p, Write(f, v, w))
    ensures Formatted(d, p, FormatCode(f), w) == Got(v, p + |Write(f, v, w)|)
  {
    Powers();
    match f
    case Sdata2 => SignedReadsBack(d, p, 2, v);
    case Sdata4 => SignedReadsBack(d, p, 4, v);
    case Sdata8 => SignedReadsBack(d, p, 8, v);
  }

  /** What a number at position `p` is relative to. */
  function Origin(r: Relative, base: int, p: nat, func: int): int {
    match r case Absolute => 0 case DataRel => 0 case PcRel => base + p case FuncRel => func
  }

  /** A number as a pointer of the file's width. */
  function Wrap(v: int, w: Width): int {
    v % (if w.W32? then 0x1_0000_0000 else 0x1_0000_0000_0000_0000)
  }

  lemma ByteParts(e: Encoding)
    ensures ByteOf(e) as int % 16 == FormatCode(e.format) && ByteOf(e) as int / 16 % 8 == RelativeCode(e.relative) / 16
    ensures ByteOf(e) != 0xFF
  {
  }

  /** Every encoded pointer, in every format and relative to everything: what was written comes back plus
      what it is relative to, cut to the pointer size, and exactly the written bytes are consumed. */
  lemma EncodedReadsBack(d: Bytes, base: int, p: nat, e: Encoding, w: Width, func: int, v: int)
    requires Fits(e.format, v, w) && Holds(d, p, Write(e.format, v, w))
    ensures Encoded(d, base, p, ByteOf(e), w, func) ==
            Got(Wrap(v + Origin(e.relative, base, p, func), w), p + |Write(e.format, v, w)|)
  {
    FormattedReadsBack(d, p, e.format, v, w);
    ByteParts(e);
  }

  /** An omitted pointer reads as 0 and takes no byte; a format or a relation the decoder does not know is
      refused, whatever the data. */
  lemma UnknownIsRefused(d: Bytes, base: int, p: nat, enc: Byte, w: Width, func: int)
    ensures Encoded(d, base, p, 0xFF, w, func) == Got(0, p)
    ensures enc != 0xFF && (enc as int % 16 !in {0, 1, 2, 3, 4, 9, 10, 11, 12} || enc as int / 16 % 8 !in {0, 1, 3, 4}) ==>
              Encoded(d, base, p, enc, w, func).Raised?
  {
  }

  /** A LEB number is refused exactly when the data ends before a byte without the top bit. */
  lemma {:induction false} LebRaisesIff(d: Bytes, p: nat)
    ensures Uleb(d, p).Raised? <==> forall k :: p <= k < |d| ==> d[k] >= 128
    ensures Sleb(d, p).Raised? <==> forall k :: p <= k < |d| ==> d[k] >= 128
    decreases |d| - p
  {
    if p < |d| && d[p] >= 128 { LebRaisesIff(d, p + 1); }
  }

  // ------------------------------------------------------------ tables, there and back

  datatype Site = Site(start: int, length: int, pad: int, action: nat)

  predicate SiteFits(f: Format, w: Width, x: Site) {
    Fits(f, x.start, w) && Fits(f, x.length, w) && Fits(f, x.pad, w)
  }

  predicate SitesFit(f: Format, w: Width, xs: seq<Site>) {
    forall i :: 0 <= i < |xs| ==> SiteFits(f, w, xs[i])
  }

  function EncodeSite(f: Format, w: Width, x: Site): (r: Bytes)
    requires SiteFits(f, w, x)
    ensures r != []
  {
    Write(f, x.start, w) + Write(f, x.length, w) + Write(f, x.pad, w) + EncodeU(x.action)
  }

  function EncodeSites(f: Format, w: Width, xs: seq<Site>): Bytes
    requires SitesFit(f, w, xs)
  {
    if xs == [] then [] else EncodeSite(f, w, xs[0]) + EncodeSites(f, w, xs[1..])
  }

  /** The counts of a table, with the landing pads as the pointer size leaves them. */
  function CountSites(xs: seq<Site>, w: Width, c: Counts): Counts {
    if xs == [] then c
    else
      var x := xs[0];
      var padded := Wrap(x.pad, w) != 0;
      CountSites(xs[1..], w, Counts(c.sites + 1, if padded then c.pads + 1 else c.pads,
                                    if padded && x.action == 0 then c.cleanups + 1 else c.cleanups))
  }

  /** An encoding the rows of a table can have: relative to nothing that changes from row to row. */
  predicate TableEncoding(e: Encoding) { !e.relative.PcRel? }

  lemma PointerReadsBack(d: Bytes, base: int, p: nat, e: Encoding, w: Width, v: int)
    requires TableEncoding(e) && Fits(e.format, v, w) && Holds(d, p, Write(e.format, v, w))
    ensures Pointers(d, base, ByteOf(e), w)(p) == Got(Wrap(v, w), p + |Write(e.format, v, w)|)
  {
    EncodedReadsBack(d, base, p, e, w, 0, v);
  }

  lemma RowFrom(ptr: nat -> Parsed, num: nat -> Parsed, p: nat, p1: nat, p2: nat, p3: nat, pad: int, action: Parsed)
    requires ptr(p).Got? && ptr(p).pos == p1 && ptr(p1).Got? && ptr(p1).pos == p2
    requires ptr(p2) == Got(pad, p3) && num(p3) == action && action.Got?
    ensures RowAt(ptr, num, p) == Row(pad, action.value, action.pos)
  {
  }

  lemma HoldsFour(d: Bytes, p: nat, a: Bytes, b: Bytes, c: Bytes, e: Bytes)
    requires Holds(d, p, a + b + c + e)
    ensures Holds(d, p, a) && Holds(d, p + |a|, b) && Holds(d, p + |a| + |b|, c) && Holds(d, p + |a| + |b| + |c|, e)
  {
    HoldsSplit(d, p, a + b + c, e);
    HoldsSplit(d, p, a + b, c);
    HoldsSplit(d, p, a, b);
  }

  lemma SiteReadsBack(d: Bytes, base: int, p: nat, e: Encoding, w: Width, x: Site)
    requires TableEncoding(e) && SiteFits(e.format, w, x) && Holds(d, p, EncodeSite(e.format, w, x))
    ensures RowAt(Pointers(d, base, ByteOf(e), w), Numbers(d), p)
         == Row(Wrap(x.pad, w), x.action, p + |EncodeSite(e.format, w, x)|)
  {
    var a, b, c := Write(e.format, x.start, w), Write(e.format, x.length, w), Write(e.format, x.pad, w);
    FourReadBack(d, base, p, e, w, x, a, b, c, EncodeU(x.action));
  }

  lemma FourReadBack(d: Bytes, base: int, p: nat, e: Encoding, w: Width, x: Site, a: Bytes, b: Bytes, c: Bytes, n: Bytes)
    requires TableEncoding(e) && SiteFits(e.format, w, x) && Holds(d, p, a + b + c + n) && n == EncodeU(x.action)
    requires a == Write(e.format, x.start, w) && b == Write(e.format, x.length, w) && c == Write(e.format, x.pad, w)
    ensures RowAt(Pointers(d, base, ByteOf(e), w), Numbers(d), p)
         == Row(Wrap(x.pad, w), x.action, p + |a| + |b| + |c| + |n|)
  {
    var p1, p2, p3 := p + |a|, p + |a| + |b|, p + |a| + |b| + |c|;
    HoldsFour(d, p, a, b, c, n);
    PointerReadsBack(d, base, p, e, w, x.start);
    PointerReadsBack(d, base, p1, e, w, x.length);
    PointerReadsBack(d, base, p2, e, w, x.pad);
    UlebRoundTrip(d, p3, x.action);
    RowFrom(Pointers(d, base, ByteOf(e), w), Numbers(d), p, p1, p2, p3, Wrap(x.pad, w), Got(x.action, p3 + |n|));
  }

  /** Rows one after the other, whatever reads them; `ends` are where they end. */
  ghost predicate Listed(ptr: nat -> Parsed, num: nat -> Parsed, w: Width, p: nat, xs: seq<Site>, ends: seq<nat>)
    decreases |xs|
  {
    |ends| == |xs| &&
    (xs == [] ||
     (p < ends[0] && RowAt(ptr, num, p) == Row(Wrap(xs[0].pad, w), xs[0].action, ends[0]) &&
      Listed(ptr, num, w, ends[0], xs[1..], ends[1..])))
  }

  lemma ListedMore(ptr: nat -> Parsed, num: nat -> Parsed, w: Width, p: nat, q: nat, xs: seq<Site>, rest: seq<nat>)
    requires xs != [] && p < q && RowAt(ptr, num, p) == Row(Wrap(xs[0].pad, w), xs[0].action, q)
    requires Listed(ptr, num, w, q, xs[1..], rest)
    ensures Listed(ptr, num, w, p, xs, [q] + rest)
  {
    assert ([q] + rest)[1..] == rest;
  }

  /** Where a list of rows ends. */
  ghost function EndOf(p: nat, ends: seq<nat>): nat {
    if ends == [] then p else ends[|ends| - 1]
  }

  ghost predicate TableListed(d: Bytes, base: int, e: Encoding, w: Width, p: nat, xs: seq<Site>, ends: seq<nat>) {
    Listed(Pointers(d, base, ByteOf(e), w), Numbers(d), w, p, xs, ends)
  }

  lemma {:induction false} SitesListed(d: Bytes, base: int, p: nat, e: Encoding, w: Width, xs: seq<Site>)
    returns (ends: seq<nat>)
    requires TableEncoding(e) && SitesFit(e.format, w, xs) && Holds(d, p, EncodeSites(e.format, w, xs))
    ensures TableListed(d, base, e, w, p, xs, ends)
    ensures EndOf(p, ends) == p + |EncodeSites(e.format, w, xs)|
    decreases |xs|
  {
    ends := [];
    if xs != [] {
      TableSplits(e.format, w, xs);
      var first, more := EncodeSite(e.format, w, xs[0]), EncodeSites(e.format, w, xs[1..]);
      HoldsSplit(d, p, first, more);
      var rest := SitesListed(d, base, p + |first|, e, w, xs[1..]);
      FirstListed(d, base, p, p + |first|, e, w, xs, rest);
      ends := [p + |first|] + rest;
      EndsLast(p, p + |first|, rest);
    }
  }

  lemma TableSplits(f: Format, w: Width, xs: seq<Site>)
    requires xs != [] && SitesFit(f, w, xs)
    ensures SiteFits(f, w, xs[0]) && SitesFit(f, w, xs[1..])
    ensures EncodeSites(f, w, xs) == EncodeSite(f, w, xs[0]) + EncodeSites(f, w, xs[1..])
  {
  }

  lemma FirstListed(d: Bytes, base: int, p: nat, q: nat, e: Encoding, w: Width, xs: seq<Site>, rest: seq<nat>)
    requires xs != [] && TableEncoding(e) && SiteFits(e.format, w, xs[0]) && Holds(d, p, EncodeSite(e.format, w, xs[0]))
    requires q == p + |EncodeSite(e.format, w, xs[0])| && TableListed(d, base, e, w, q, xs[1..], rest)
    ensures TableListed(d, base, e, w, p, xs, [q] + rest)
  {
    SiteReadsBack(d, base, p, e, w, xs[0]);
    ListedMore(Pointers(d, base, ByteOf(e), w), Numbers(d), w, p, q, xs, rest);
  }

  lemma EndsLast(p: nat, q: nat, rest: seq<nat>)
    ensures EndOf(p, [q] + rest) == EndOf(q, rest)
  {
  }

  lemma {:induction false} ListedCounts(ptr: nat -> Parsed, num: nat -> Parsed, size: nat, w: Width, p: nat, end: nat,
                                        xs: seq<Site>, ends: seq<nat>, c: Counts)
    requires Forward(ptr, num, size) && p <= size && Listed(ptr, num, w, p, xs, ends)
    requires end == EndOf(p, ends)
    ensures Rows(ptr, num, size, p, end, c) == Table(CountSites(xs, w, c), end)
    ensures p <= end
    decreases |xs|
  {
    if xs != [] {
      var x := xs[0];
      RowMoves(ptr, num, size, p);
      var padded := Wrap(x.pad, w) != 0;
      var c' := Counts(c.sites + 1, if padded then c.pads + 1 else c.pads,
                       if padded && x.action == 0 then c.cleanups + 1 else c.cleanups);
      ListedCounts(ptr, num, size, w, ends[0], end, xs[1..], ends[1..], c');
      assert Count(c, Wrap(x.pad, w), x.action) == c';
    }
  }

  // ------------------------------------------------------------ whole areas

  datatype Types = NoTypes | TypesAt(enc: Byte, offset: nat)

  /** What stands behind the landing-pad base: with or without a type table, and the call-site table in the
      encoding named. */
  datatype Area = Area(types: Types, encoding: Encoding, sites: seq<Site>)

  function EncodeTypes(t: Types): Bytes { if t.NoTypes? then [0xFF] else [t.enc] + EncodeU(t.offset) }

  /** The bytes of an area around the bytes of its table. */
  function Framed(types: Types, enc: Byte, table: Bytes): Bytes {
    EncodeTypes(types) + ([enc] + (EncodeU(|table|) + table))
  }

  predicate GoodArea(a: Area, w: Width) {
    && (a.types.TypesAt? ==> a.types.enc != 0xFF)
    && TableEncoding(a.encoding) && SitesFit(a.encoding.format, w, a.sites)
  }

  function EncodeArea(a: Area, w: Width): Bytes
    requires GoodArea(a, w)
  {
    Framed(a.types, ByteOf(a.encoding), EncodeSites(a.encoding.format, w, a.sites))
  }

  lemma TypesReadBack(d: Bytes, p: nat, t: Types)
    requires (t.TypesAt? ==> t.enc != 0xFF) && Holds(d, p, EncodeTypes(t))
    ensures PastTypes(d, p).Got? && PastTypes(d, p).pos == p + |EncodeTypes(t)|
  {
    if t.NoTypes? {
      assert [0xFF] + [] == [0xFF];
      HoldsCons(d, p, 0xFF, []);
    } else {
      HoldsCons(d, p, t.enc, EncodeU(t.offset));
      UlebRoundTrip(d, p + 1, t.offset);
    }
  }

  lemma HoldsThree(d: Bytes, p: nat, y: Bytes, v: Byte, n: Bytes, t: Bytes)
    requires Holds(d, p, y + ([v] + (n + t)))
    ensures Holds(d, p, y)
    ensures var q := p + |y|;
            q < |d| && d[q] == v && Holds(d, q + 1, n) && Holds(d, q + 1 + |n|, t)
  {
    HoldsSplit(d, p, y, [v] + (n + t));
    HoldsCons(d, p + |y|, v, n + t);
    HoldsSplit(d, p + |y| + 1, n, t);
  }

  lemma HeadAfterReadsBack(d: Bytes, v: int, q: nat, t: Types, enc: Byte, n: nat)
    requires (t.TypesAt? ==> t.enc != 0xFF) && Holds(d, q, EncodeTypes(t))
    requires var q2 := q + |EncodeTypes(t)|; q2 < |d| && d[q2] == enc && Holds(d, q2 + 1, EncodeU(n))
    ensures var q3 := q + |EncodeTypes(t)| + 1 + |EncodeU(n)|;
            HeadAfter(d, Got(v, q)) == Head(v, enc, q3, q3 + n)
  {
    TypesReadBack(d, q, t);
    var q2 := q + |EncodeTypes(t)|;
    UlebRoundTrip(d, q2 + 1, n);
    HeadAfterIs(d, v, q, q2, n, q2 + 1 + |EncodeU(n)|);
  }

  lemma HeadAfterIs(d: Bytes, v: int, q: nat, q2: nat, n: nat, q3: nat)
    requires PastTypes(d, q).Got? && PastTypes(d, q).pos == q2 < |d| && Uleb(d, q2 + 1) == Got(n, q3)
    ensures HeadAfter(d, Got(v, q)) == Head(v, d[q2], q3, q3 + n)
  {
  }

  lemma FramedParts(d: Bytes, q: nat, types: Types, enc: Byte, table: Bytes)
    requires Holds(d, q, Framed(types, enc, table))
    ensures Holds(d, q, EncodeTypes(types))
    ensures var q2 := q + |EncodeTypes(types)|;
            && q2 < |d| && d[q2] == enc && Holds(d, q2 + 1, EncodeU(|table|))
            && Holds(d, q2 + 1 + |EncodeU(|table|)|, table)
            && q2 + 1 + |EncodeU(|table|)| + |table| == q + |Framed(types, enc, table)|
  {
    HoldsThree(d, q, EncodeTypes(types), enc, EncodeU(|table|), table);
  }

  lemma HeadReadsBack(d: Bytes, v: int, q: nat, types: Types, enc: Byte, table: Bytes) returns (h: Head)
    requires (types.TypesAt? ==> types.enc != 0xFF) && Holds(d, q, Framed(types, enc, table))
    ensures h.Head? && h.enc == enc && h.lpStart == v
    ensures Holds(d, h.pos, table) && h.end == h.pos + |table| == q + |Framed(types, enc, table)|
    ensures h == HeadAfter(d, Got(v, q))
  {
    FramedParts(d, q, types, enc, table);
    HeadAfterReadsBack(d, v, q, types, enc, |table|);
    h := HeadAfter(d, Got(v, q));
  }

  lemma TableIsRows(d: Bytes, base: int, w: Width, h: Head)
    requires h.Head? && h.pos <= |d|
    ensures Forward(Pointers(d, base, h.enc, w), Numbers(d), |d|)
    ensures TableAt(d, base, h, w) ==
            Rows(Pointers(d, base, h.enc, w), Numbers(d), |d|, h.pos, h.end, Counts(0, 0, 0))
  {
    ReadingGoesForward(d, base, h.enc, w);
  }

  lemma LsdaReadsBack(d: Bytes, base: int, w: Width, h: Head, e: Encoding, xs: seq<Site>)
    requires h.Head? && h.enc == ByteOf(e) && TableEncoding(e) && SitesFit(e.format, w, xs)
    requires Holds(d, h.pos, EncodeSites(e.format, w, xs)) && h.end == h.pos + |EncodeSites(e.format, w, xs)|
    ensures LsdaOf(d, base, h, w) == Lsda(CountSites(xs, w, Counts(0, 0, 0)), h.lpStart, h.end)
  {
    var ends := SitesListed(d, base, h.pos, e, w, xs);
    TableIsRows(d, base, w, h);
    ListedCounts(Pointers(d, base, h.enc, w), Numbers(d), |d|, w, h.pos, h.end, xs, ends, Counts(0, 0, 0));
  }

  lemma ParseIsLsdaOf(d: Bytes, base: int, p: nat, w: Width, func: int, h: Head)
    requires h == HeadAfter(d, LpStart(d, base, p, w, func))
    ensures h.Head? ==> h.pos <= |d|
    ensures ParseLsda(d, base, p, w, func) == LsdaOf(d, base, h, w)
  {
  }

  /** On every area, wherever it stands, however its landing-pad base is encoded and whatever encoding its
      table has, the decoder returns the counts of the table, the base, and stops at the table's end. */
  lemma AreaReadsBack(d: Bytes, base: int, p: nat, w: Width, func: int, v: int, q: nat, a: Area)
    requires LpStart(d, base, p, w, func) == Got(v, q) && GoodArea(a, w) && Holds(d, q, EncodeArea(a, w))
    ensures ParseLsda(d, base, p, w, func) ==
            Lsda(CountSites(a.sites, w, Counts(0, 0, 0)), v, q + |EncodeArea(a, w)|)
  {
    var h := HeadReadsBack(d, v, q, a.types, ByteOf(a.encoding), EncodeSites(a.encoding.format, w, a.sites));
    LsdaReadsBack(d, base, w, h, a.encoding, a.sites);
    ParseIsLsdaOf(d, base, p, w, func, h);
  }

  /** A landing-pad base left out is the function's start; one written in any encoding is read back. */
  lemma LpReadsBack(d: Bytes, base: int, p: nat, w: Width, func: int, e: Encoding, v: int)
    requires Fits(e.format, v, w)
    ensures Holds(d, p, [0xFF]) ==> LpStart(d, base, p, w, func) == Got(func, p + 1)
    ensures Holds(d, p, [ByteOf(e)] + Write(e.format, v, w)) ==>
              LpStart(d, base, p, w, func) ==
              Got(Wrap(v + Origin(e.relative, base, p + 1, func), w), p + 1 + |Write(e.format, v, w)|)
  {
    if Holds(d, p, [0xFF]) {
      assert [0xFF] + [] == [0xFF];
      HoldsCons(d, p, 0xFF, []);
    }
    if Holds(d, p, [ByteOf(e)] + Write(e.format, v, w)) {
      HoldsCons(d, p, ByteOf(e), Write(e.format, v, w));
      ByteParts(e);
      EncodedReadsBack(d, base, p + 1, e, w, func, v);
    }
  }

  /** When the landing pads fit the pointer size the counts are the table's own. */
  lemma {:induction false} CountsAreExact(xs: seq<Site>, w: Width, c: Counts)
    requires forall i :: 0 <= i < |xs| ==> Fits(AbsPtr, xs[i].pad, w)
    ensures CountSites(xs, w, c) ==
            Counts(c.sites + |xs|, c.pads + |Padded(xs)|, c.cleanups + |Cleaning(xs)|)
    decreases |xs|
  {
    if xs != [] {
      var x := xs[0];
      assert Fits(AbsPtr, x.pad, w) && Wrap(x.pad, w) == x.pad;
      CountsAreExact(xs[1..], w, Counts(c.sites + 1, if x.pad != 0 then c.pads + 1 else c.pads,
                                        if x.pad != 0 && x.action == 0 then c.cleanups + 1 else c.cleanups));
    }
  }

  function Padded(xs: seq<Site>): seq<Site> {
    if xs == [] then [] else (if xs[0].pad != 0 then [xs[0]] else []) + Padded(xs[1..])
  }

  function Cleaning(xs: seq<Site>): seq<Site> {
    if xs == [] then [] else (if xs[0].pad != 0 && xs[0].action == 0 then [xs[0]] else []) + Cleaning(xs[1..])
  }
}
