/**
 Octets and the unsigned 32-bit big-endian integers that every header field
 of the wire format is made of (Node's `writeUInt32BE` / `readUInt32BE`).
 */
module Bytes {

  /** One octet of a Node `Buffer`. */
  type byte = x: int | 0 <= x < 0x100

  /** Exclusive upper bound of an unsigned 32-bit integer. */
  const U32Limit: int := 0x1_0000_0000

  /** A value `writeUInt32BE` accepts without a range error. */
  type u32 = x: int | 0 <= x < U32Limit

  /** The four octets `writeUInt32BE(x)` stores, most significant first. */
  function WriteU32BE(x: u32): (r: seq<byte>)
    ensures |r| == 4
  {
    [x / 0x100_0000, (x / 0x1_0000) % 0x100, (x / 0x100) % 0x100, x % 0x100]
  }

  /** The value `readUInt32BE(off)` reads from the four octets starting at `off`. */
  function ReadU32BE(s: seq<byte>, off: nat): (r: u32)
    requires off + 4 <= |s|
  {
    (s[off] as int) * 0x100_0000 + (s[off + 1] as int) * 0x1_0000 + (s[off + 2] as int) * 0x100 + s[off + 3]
  }

  /** Reading back what was written yields the original value. */
  lemma ReadWriteU32BE(x: u32)
    ensures ReadU32BE(WriteU32BE(x), 0) == x
  {
    var w := WriteU32BE(x);
    var hi := x / 0x1_0000;
    var lo := x % 0x1_0000;
    assert x == hi * 0x1_0000 + lo;
    assert hi == (w[0] as int) * 0x100 + w[1];
    assert lo == (w[2] as int) * 0x100 + w[3];
  }

  /** Writing what was read reproduces the four octets: the encoding is onto. */
  lemma WriteReadU32BE(s: seq<byte>, off: nat)
    requires off + 4 <= |s|
    ensures WriteU32BE(ReadU32BE(s, off)) == s[off..off + 4]
  {
    OctetsOfValue(s[off], s[off + 1], s[off + 2], s[off + 3]);
  }

  /** The four octets of `a b c d` read as a big-endian value. */
  lemma OctetsOfValue(a: byte, b: byte, c: byte, d: byte)
    ensures var v := (a as int) * 0x100_0000 + (b as int) * 0x1_0000 + (c as int) * 0x100 + d;
            && v / 0x100_0000 == a
            && (v / 0x1_0000) % 0x100 == b
            && (v / 0x100) % 0x100 == c
            && v % 0x100 == d
  {
    var v := (a as int) * 0x100_0000 + (b as int) * 0x1_0000 + (c as int) * 0x100 + d;
    var ab := (a as int) * 0x100 + b;
    var abc := ab * 0x100 + c;
    DivModUnique(v, 0x100_0000, a, (b as int) * 0x1_0000 + (c as int) * 0x100 + d);
    DivModUnique(v, 0x1_0000, ab, (c as int) * 0x100 + d);
    DivModUnique(ab, 0x100, a, b);
    DivModUnique(v, 0x100, abc, d);
    DivModUnique(abc, 0x100, ab, c);
  }

  /** Distinct values have distinct encodings. */
  lemma WriteU32BEInjective(x: u32, y: u32)
    ensures WriteU32BE(x) == WriteU32BE(y) <==> x == y
  {
    if WriteU32BE(x) == WriteU32BE(y) {
      ReadWriteU32BE(x);
      ReadWriteU32BE(y);
    }
  }

  /** Reading at `off` only looks at the four octets there. */
  lemma ReadU32BEFrame(s: seq<byte>, t: seq<byte>, off: nat, offT: nat)
    requires off + 4 <= |s| && offT + 4 <= |t|
    requires s[off..off + 4] == t[offT..offT + 4]
    ensures ReadU32BE(s, off) == ReadU32BE(t, offT)
  {
    assert s[off] == s[off..off + 4][0] == t[offT..offT + 4][0] == t[offT];
    assert s[off + 1] == s[off..off + 4][1] == t[offT..offT + 4][1] == t[offT + 1];
    assert s[off + 2] == s[off..off + 4][2] == t[offT..offT + 4][2] == t[offT + 2];
    assert s[off + 3] == s[off..off + 4][3] == t[offT..offT + 4][3] == t[offT + 3];
  }

  /** Euclidean division is determined by a quotient and an in-range remainder. */
  lemma DivModUnique(n: int, d: int, q: int, r: int)
    requires d > 0 && 0 <= r < d && n == q * d + r
    ensures n / d == q && n % d == r
  {
    var q' := n / d;
    var r' := n % d;
    assert n == q' * d + r';
    assert (q - q') * d == r' - r;
    if q > q' {
      MulAtLeast(q - q', d);
    } else if q < q' {
      MulAtLeast(q' - q, d);
    }
  }

  lemma MulAtLeast(a: int, d: int)
    requires a >= 1 && d > 0
    ensures a * d >= d
  {
    assert a * d == (a - 1) * d + d;
  }
}
