/** Byte strings, and what stands in one at a position. */
module ByteStrings {

  type Byte = x: int | 0 <= x < 256
  type Bytes = seq<Byte>

  /** `x` stands in the buffer at `p`. */
  ghost predicate Holds(b: Bytes, p: nat, x: Bytes) {
    p + |x| <= |b| && b[p..p + |x|] == x
  }

  lemma HoldsSplit(b: Bytes, p: nat, x: Bytes, y: Bytes)
    requires Holds(b, p, x + y)
    ensures Holds(b, p, x) && Holds(b, p + |x|, y)
  {
    var s := b[p..p + |x + y|];
    assert b[p..p + |x|] == s[..|x|] && b[p + |x|..p + |x| + |y|] == s[|x|..];
  }
}
