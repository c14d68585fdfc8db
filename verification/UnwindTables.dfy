/** The audit's decoder for unwind tables: LEB128 numbers (section 7.6 of DWARF 5), the encoded pointers
    of the exception tables, and the call-site table of a language-specific data area. */
module UnwindTables {
  import opened ByteStrings

  /** A number and the position behind it, or the exception that reading it raises. */
  datatype Parsed = Got(value: int, pos: nat) | Raised

  // ------------------------------------------------------------ LEB128

  /** Unsigned: seven bits per byte, low ones first, the top bit set on all but the last. */
  function Uleb(d: Bytes, p: nat): (r: Parsed)
    ensures r.Got? ==> p < r.pos <= |d| && r.value >= 0
    decreases |d| - p
  {
    if p >= |d| then Raised
    else if d[p] < 128 then Got(d[p], p + 1)
    else
      match Uleb(d, p + 1)
      case Raised => Raised
      case Got(v, q) => Got(d[p] % 128 + 128 * v, q)
  }

  /** Signed: the same, with bit 6 of the last byte the sign. */
  function Sleb(d: Bytes, p: nat): (r: Parsed)
    ensures r.Got? ==> p < r.pos <= |d|
    decreases |d| - p
  {
    if p >= |d| then Raised
    else if d[p] < 128 then Got(if d[p] < 64 then d[p] else (d[p] as int) - 128, p + 1)
    else
      match Sleb(d, p + 1)
      case Raised => Raised
      case Got(v, q) => Got(d[p] % 128 + 128 * v, q)
  }

  function EncodeU(n: nat): (r: Bytes)
    ensures r != []
  {
    if n < 128 then [n] else [n % 128 + 128] + EncodeU(n / 128)
  }

  function EncodeS(n: int): (r: Bytes)
    ensures r != []
    decreases if n < 0 then -n else n
  {
    if -64 <= n < 64 then [n % 128] else [n % 128 + 128] + EncodeS(n / 128)
  }

  lemma HoldsCons(d: Bytes, p: nat, v: Byte, x: Bytes)
    requires Holds(d, p, [v] + x)
    ensures d[p] == v && Holds(d, p + 1, x)
  {
    var s := d[p..p + 1 + |x|];
    assert s[0] == d[p] && s[1..] == d[p + 1..p + 1 + |x|];
  }

  /** Decoding inverts encoding and consumes exactly the encoded bytes, for every natural. */
  lemma {:induction false} UlebRoundTrip(d: Bytes, p: nat, n: nat)
    requires Holds(d, p, EncodeU(n))
    ensures Uleb(d, p) == Got(n, p + |EncodeU(n)|)
    decreases n
  {
    if n < 128 {
      assert [n] + [] == [n];
      HoldsCons(d, p, n, []);
    } else {
      HoldsCons(d, p, n % 128 + 128, EncodeU(n / 128));
      UlebRoundTrip(d, p + 1, n / 128);
    }
  }

  /** And for every integer. */
  lemma {:induction false} SlebRoundTrip(d: Bytes, p: nat, n: int)
    requires Holds(d, p, EncodeS(n))
    ensures Sleb(d, p) == Got(n, p + |EncodeS(n)|)
    decreases if n < 0 then -n else n
  {
    if -64 <= n < 64 {
      assert [n % 128] + [] == [n % 128];
      HoldsCons(d, p, n % 128, []);
    } else {
      HoldsCons(d, p, n % 128 + 128, EncodeS(n / 128));
      SlebRoundTrip(d, p + 1, n / 128);
    }
  }

  // ------------------------------------------------------------ encoded pointers

  const OMIT: Byte := 0xFF

  /** The pointer width of the file. */
  datatype Width = W32 | W64

  function Size(w: Width): nat { if w.W32? then 4 else 8 }

  function Cut(v: int, w: Width): int {
    if w.W32? then v % 0x1_0000_0000 else v % 0x1_0000_0000_0000_0000
  }

  /** Fixed-width little-endian, `n` bytes. */
  function Fixed(d: Bytes, p: nat, n: nat): int
    requires p + n <= |d|
    decreases n
  {
    if n == 0 then 0 else d[p] as int + 256 * Fixed(d, p + 1, n - 1)
  }

  function Pow256(n: nat): (r: int)
    ensures r >= 1
  {
    if n == 0 then 1 else 256 * Pow256(n - 1)
  }

  /** `fixed`: the width and signedness of a format, or a raised exception when the data ends. */
  function FixedAt(d: Bytes, p: nat, n: nat, signed: bool): Parsed {
    if p + n > |d| then Raised
    else
      var v := Fixed(d, p, n);
      Got(if signed && n > 0 && v >= Pow256(n) / 2 then v - Pow256(n) else v, p + n)
  }

  /** The low four bits of an encoding say how the number is written. */
  function Formatted(d: Bytes, p: nat, fmt: int, w: Width): Parsed {
    if fmt == 0 then FixedAt(d, p, Size(w), false)
    else if fmt == 1 then Uleb(d, p)
    else if fmt == 9 then Sleb(d, p)
    else if fmt == 2 then FixedAt(d, p, 2, false)
    else if fmt == 3 then FixedAt(d, p, 4, false)
    else if fmt == 4 then FixedAt(d, p, 8, false)
    else if fmt == 10 then FixedAt(d, p, 2, true)
    else if fmt == 11 then FixedAt(d, p, 4, true)
    else if fmt == 12 then FixedAt(d, p, 8, true)
    else Raised
  }

  /** The next three say what it is relative to; the sum is cut to the pointer size. */
  function Encoded(d: Bytes, base: int, p: nat, enc: Byte, w: Width, func: int): (r: Parsed)
    ensures r.Got? ==> p <= r.pos && (p <= |d| ==> r.pos <= |d|)
  {
    if enc == OMIT then Got(0, p)
    else
      match Formatted(d, p, enc % 16, w)
      case Raised => Raised
      case Got(v, q) =>
        var app := enc / 16 % 8;
        if app == 1 then Got(Cut(v + base + p, w), q)
        else if app == 4 then Got(Cut(v + func, w), q)
        else if app == 0 || app == 3 then Got(Cut(v, w), q)
        else Raised
  }

  // ------------------------------------------------------------ the call-site table

  datatype Counts = Counts(sites: nat, pads: nat, cleanups: nat)

  datatype Table = Table(counts: Counts, pos: nat) | Broken

  function Count(c: Counts, pad: int, action: int): Counts {
    Counts(c.sites + 1, c.pads + (if pad != 0 then 1 else 0),
           c.cleanups + (if pad != 0 && action == 0 then 1 else 0))
  }

  /** One row: three encoded pointers, then the action. */
  datatype Row = Row(pad: int, action: int, pos: nat) | NoRow

  /** Reading an encoded pointer, and reading a number, from a position. */
  function Pointers(d: Bytes, base: int, enc: Byte, w: Width): nat -> Parsed {
    (p: nat) => Encoded(d, base, p, enc, w, 0)
  }

  function Numbers(d: Bytes): nat -> Parsed { (p: nat) => Uleb(d, p) }

  function RowAt(ptr: nat -> Parsed, num: nat -> Parsed, p: nat): Row {
    var start := ptr(p);
    if start.Raised? then NoRow else
    var len := ptr(start.pos);
    if len.Raised? then NoRow else
    var pad := ptr(len.pos);
    if pad.Raised? then NoRow else
    var action := num(pad.pos);
    if action.Raised? then NoRow else Row(pad.value, action.value, action.pos)
  }

  /** Pointers never go back, numbers always go forward, and neither leaves the data. */
  ghost predicate Forward(ptr: nat -> Parsed, num: nat -> Parsed, size: nat) {
    && (forall p: nat :: p <= size && ptr(p).Got? ==> p <= ptr(p).pos <= size)
    && (forall p: nat :: p <= size && num(p).Got? ==> p < num(p).pos <= size)
  }

  lemma ReadingGoesForward(d: Bytes, base: int, enc: Byte, w: Width)
    ensures Forward(Pointers(d, base, enc, w), Numbers(d), |d|)
  {
  }

  function Rows(ptr: nat -> Parsed, num: nat -> Parsed, size: nat, p: nat, end: nat, c: Counts): Table
    requires Forward(ptr, num, size) && p <= size
    decreases size - p
  {
    if p >= end then Table(c, p)
    else
      match RowAt(ptr, num, p)
      case NoRow => Broken
      case Row(pad, action, q) => Rows(ptr, num, size, q, end, Count(c, pad, action))
  }

  /** The landing-pad base: the function's start, or an encoded pointer. */
  function LpStart(d: Bytes, base: int, p: nat, w: Width, func: int): (r: Parsed)
    ensures r.Got? ==> p < r.pos <= |d|
  {
    if p >= |d| then Raised
    else if d[p] == OMIT then Got(func, p + 1)
    else Encoded(d, base, p + 1, d[p], w, func)
  }

  /** Past the offset of the type table, which the audit does not need. */
  function PastTypes(d: Bytes, p: nat): (r: Parsed)
    ensures r.Got? ==> p < r.pos <= |d|
  {
    if p >= |d| then Raised else if d[p] == OMIT then Got(0, p + 1) else Uleb(d, p + 1)
  }

  /** What stands before the table: the base, the table's encoding, where it starts and where it ends. */
  datatype Head = Head(lpStart: int, enc: Byte, pos: nat, end: nat) | NoHead

  function HeadAt(d: Bytes, base: int, p: nat, w: Width, func: int): (r: Head)
    ensures r.Head? ==> r.pos <= |d|
  {
    HeadAfter(d, LpStart(d, base, p, w, func))
  }

  /** The rest of the header, behind the landing-pad base. */
  function HeadAfter(d: Bytes, lp: Parsed): (r: Head)
    ensures r.Head? ==> r.pos <= |d|
  {
    if lp.Raised? then NoHead else
    var tt := PastTypes(d, lp.pos);
    if tt.Raised? || tt.pos >= |d| then NoHead else
    var len := Uleb(d, tt.pos + 1);
    if len.Raised? then NoHead else Head(lp.value, d[tt.pos], len.pos, len.pos + len.value)
  }

  function TableAt(d: Bytes, base: int, h: Head, w: Width): Table
    requires h.Head? && h.pos <= |d|
  {
    ReadingGoesForward(d, base, h.enc, w);
    Rows(Pointers(d, base, h.enc, w), Numbers(d), |d|, h.pos, h.end, Counts(0, 0, 0))
  }

  /** What `parse_lsda` makes of the area at `p`: the counts and the landing-pad base. */
  datatype Lsda = Lsda(counts: Counts, lpStart: int, pos: nat) | Failure

  function ParseLsda(d: Bytes, base: int, p: nat, w: Width, func: int): Lsda {
    LsdaOf(d, base, HeadAt(d, base, p, w, func), w)
  }

  function LsdaOf(d: Bytes, base: int, h: Head, w: Width): Lsda
    requires h.Head? ==> h.pos <= |d|
  {
    if h.NoHead? then Failure
    else
      match TableAt(d, base, h, w)
      case Broken => Failure
      case Table(c, q) => Lsda(c, h.lpStart, q)
  }

  // ------------------------------------------------------------ the reader object

  function Pow128(k: nat): (r: int)
    ensures r >= 1
  {
    if k == 0 then 1 else 128 * Pow128(k - 1)
  }

  class Reader {
    const data: Bytes
    const base: int
    var pos: nat

    constructor (data: Bytes, base: int, pos: nat)
      ensures this.data == data && this.base == base && this.pos == pos
    {
      this.data, this.base, this.pos := data, base, pos;
    }

    /** `uleb`. The bits each byte contributes are above all the bits so far, so the `|=` of the source is
        an addition. */
    method ReadUleb() returns (r: Parsed)
      modifies this
      ensures r == Uleb(data, old(pos))
      ensures r.Got? ==> pos == r.pos
    {
      var result: int := 0;
      var scale: int, k: nat := 1, 0;
      ghost var whole := Uleb(data, pos);
      while true
        invariant scale == Pow128(k) && 0 <= result < scale
        invariant Scaled(whole, Uleb(data, pos), result, scale)
        decreases |data| - pos
      {
        if pos >= |data| { return Raised; }
        var byte: int := data[pos] as int;
        pos := pos + 1;
        if byte < 128 {
          LastByte(whole, Got(byte, pos), result, scale, byte % 128);
          return Got(result + (byte % 128) * scale, pos);
        }
        ScaleStep(whole, Uleb(data, pos - 1), Uleb(data, pos), result, scale, byte % 128);
        result := result + (byte % 128) * scale;
        BitsAbove(result, scale, byte % 128);
        scale, k := 128 * scale, k + 1;
      }
    }

    /** `sleb`. */
    method ReadSleb() returns (r: Parsed)
      modifies this
      ensures r == Sleb(data, old(pos))
      ensures r.Got? ==> pos == r.pos
    {
      var result: int := 0;
      var scale: int, k: nat := 1, 0;
      ghost var whole := Sleb(data, pos);
      while true
        invariant scale == Pow128(k) && 0 <= result < scale
        invariant Scaled(whole, Sleb(data, pos), result, scale)
        decreases |data| - pos
      {
        if pos >= |data| { return Raised; }
        var byte: int := data[pos] as int;
        pos := pos + 1;
        if byte < 128 {
          SignBit(whole, Got(if byte < 64 then byte else byte - 128, pos), result, scale, byte % 128);
          result := result + (byte % 128) * scale;
          if byte >= 64 { result := result - 128 * scale; }
          return Got(result, pos);
        }
        ScaleStep(whole, Sleb(data, pos - 1), Sleb(data, pos), result, scale, byte % 128);
        result := result + (byte % 128) * scale;
        BitsAbove(result, scale, byte % 128);
        scale, k := 128 * scale, k + 1;
      }
    }

    method ReadFixed(n: nat, signed: bool) returns (r: Parsed)
      modifies this
      ensures r == FixedAt(data, old(pos), n, signed)
      ensures r.Got? ==> pos == r.pos
    {
      if pos + n > |data| { return Raised; }
      var i, value := n, 0;
      while i > 0
        invariant 0 <= i <= n && pos == old(pos) && value == Fixed(data, pos + i, n - i)
      {
        i := i - 1;
        value := data[pos + i] as int + 256 * value;
      }
      if signed && n > 0 && value >= Pow256(n) / 2 { value := value - Pow256(n); }
      pos := pos + n;
      r := Got(value, pos);
    }

    /** `encoded`. */
    method ReadEncoded(enc: Byte, w: Width, func: int) returns (r: Parsed)
      modifies this
      ensures r == Encoded(data, base, old(pos), enc, w, func)
      ensures r.Got? ==> pos == r.pos
    {
      if enc == OMIT { return Got(0, pos); }
      var here := base + pos;
      var fmt: int := enc as int % 16;
      if fmt == 0 {
        r := ReadFixed(Size(w), false);
      } else if fmt == 1 {
        r := ReadUleb();
      } else if fmt == 9 {
        r := ReadSleb();
      } else if fmt == 2 || fmt == 3 || fmt == 4 {
        r := ReadFixed(if fmt == 2 then 2 else if fmt == 3 then 4 else 8, false);
      } else if fmt == 10 || fmt == 11 || fmt == 12 {
        r := ReadFixed(if fmt == 10 then 2 else if fmt == 11 then 4 else 8, true);
      } else {
        return Raised;
      }
      if r.Raised? { return; }
      var app := enc / 16 % 8;
      var value := r.value;
      if app == 1 {
        value := value + here;
      } else if app == 4 {
        value := value + func;
      } else if app != 0 && app != 3 {
        return Raised;
      }
      r := Got(Cut(value, w), r.pos);
    }

    method ReadRow(enc: Byte, w: Width) returns (r: Row)
      modifies this
      ensures r == RowAt(Pointers(data, base, enc, w), Numbers(data), old(pos))
      ensures r.Row? ==> pos == r.pos
    {
      ghost var ptr, num := Pointers(data, base, enc, w), Numbers(data);
      var start := ReadEncoded(enc, w, 0);
      assert start == ptr(old(pos));
      if start.Raised? { return NoRow; }
      var len := ReadEncoded(enc, w, 0);
      assert len == ptr(start.pos);
      if len.Raised? { return NoRow; }
      var pad := ReadEncoded(enc, w, 0);
      assert pad == ptr(len.pos);
      if pad.Raised? { return NoRow; }
      var action := ReadUleb();
      assert action == num(pad.pos);
      if action.Raised? { return NoRow; }
      r := Row(pad.value, action.value, action.pos);
    }

    /** The loop over the call sites. */
    method ReadRows(enc: Byte, end: nat, w: Width) returns (t: Table)
      requires pos <= |data|
      modifies this
      ensures Forward(Pointers(data, base, enc, w), Numbers(data), |data|)
      ensures t == Rows(Pointers(data, base, enc, w), Numbers(data), |data|, old(pos), end, Counts(0, 0, 0))
      ensures t.Table? ==> pos == t.pos
    {
      ReadingGoesForward(data, base, enc, w);
      ghost var ptr, num := Pointers(data, base, enc, w), Numbers(data);
      var c := Counts(0, 0, 0);
      ghost var whole := Rows(ptr, num, |data|, pos, end, c);
      while pos < end
        invariant pos <= |data|
        invariant whole == Rows(ptr, num, |data|, pos, end, c)
        decreases |data| - pos
      {
        RowMoves(ptr, num, |data|, pos);
        var row := ReadRow(enc, w);
        if row.NoRow? { return Broken; }
        c := Count(c, row.pad, row.action);
      }
      t := Table(c, pos);
    }

    method ReadLp(w: Width, func: int) returns (r: Parsed)
      modifies this
      ensures r == LpStart(data, base, old(pos), w, func)
      ensures r.Got? ==> pos == r.pos
    {
      if pos >= |data| { return Raised; }
      var enc := data[pos];
      pos := pos + 1;
      if enc == OMIT { return Got(func, pos); }
      r := ReadEncoded(enc, w, func);
    }

    method SkipTypes() returns (r: Parsed)
      modifies this
      ensures r == PastTypes(data, old(pos))
      ensures r.Got? ==> pos == r.pos
    {
      if pos >= |data| { return Raised; }
      var enc := data[pos];
      pos := pos + 1;
      if enc == OMIT { return Got(0, pos); }
      r := ReadUleb();
    }

    method ReadHead(w: Width, func: int) returns (r: Head)
      modifies this
      ensures r == HeadAt(data, base, old(pos), w, func)
      ensures r.Head? ==> pos == r.pos
    {
      var lp := ReadLp(w, func);
      if lp.Raised? { return NoHead; }
      var tt := SkipTypes();
      if tt.Raised? || pos >= |data| { return NoHead; }
      var enc := data[pos];
      pos := pos + 1;
      var len := ReadUleb();
      if len.Raised? { return NoHead; }
      r := Head(lp.value, enc, pos, pos + len.value);
    }
  }

  lemma RowMoves(ptr: nat -> Parsed, num: nat -> Parsed, size: nat, p: nat)
    requires Forward(ptr, num, size) && p <= size
    ensures var r := RowAt(ptr, num, p); r.Row? ==> p < r.pos <= size
  {
  }

  /** `parse_lsda`, once the section that holds the area has been found. */
  method ParseLsdaScan(d: Bytes, base: int, p: nat, w: Width, func: int) returns (r: Lsda)
    ensures r == ParseLsda(d, base, p, w, func)
  {
    var rd := new Reader(d, base, p);
    var h := rd.ReadHead(w, func);
    if h.NoHead? { return Failure; }
    var t := rd.ReadRows(h.enc, h.end, w);
    assert t == TableAt(d, base, h, w);
    if t.Broken? { return Failure; }
    r := Lsda(t.counts, h.lpStart, t.pos);
  }

  /** What remains to be read, scaled, on top of what has been read. */
  ghost predicate Scaled(whole: Parsed, rest: Parsed, result: int, scale: int) {
    if rest.Raised? then whole.Raised? else whole == Got(result + rest.value * scale, rest.pos)
  }

  lemma ScaleStep(whole: Parsed, now: Parsed, rest: Parsed, result: int, scale: int, low: int)
    requires Scaled(whole, now, result, scale)
    requires if rest.Raised? then now.Raised? else now == Got(low + 128 * rest.value, rest.pos)
    ensures Scaled(whole, rest, result + low * scale, 128 * scale)
  {
    if rest.Got? {
      assert (low + 128 * rest.value) * scale == low * scale + rest.value * (128 * scale);
    }
  }

  lemma BitsAbove(result: int, scale: int, low: int)
    requires 0 <= result - low * scale < scale && 0 <= low < 128
    ensures 0 <= result < 128 * scale
  {
    assert 0 <= low * scale <= 127 * scale;
  }

  lemma LastByte(whole: Parsed, last: Parsed, result: int, scale: int, low: int)
    requires Scaled(whole, last, result, scale) && last.Got? && last.value == low
    ensures whole == Got(result + low * scale, last.pos)
  {
  }

  lemma SignBit(whole: Parsed, last: Parsed, result: int, scale: int, low: int)
    requires Scaled(whole, last, result, scale) && last.Got? && 0 <= low < 128
    requires last.value == if low < 64 then low else low - 128
    ensures whole == Got(if low < 64 then result + low * scale else result + low * scale - 128 * scale, last.pos)
  {
    assert (low - 128) * scale == low * scale - 128 * scale;
  }
}
