/**
 * Bytes and fixed-width big-endian integers, as read and written by the DNS,
 * PSP and byteorder code (`read_u16::<BigEndian>`, `u16::from_be_bytes`,
 * `u32be`, `u64be`).
 */
module Bytes {
  type byte = x: int | 0 <= x < 256

  /** 256 to the power n: the number of values an n-byte field holds. */
  function Pow256(n: nat): (p: nat)
    ensures p >= 1
  {
    if n == 0 then 1 else 256 * Pow256(n - 1)
  }

  /** The unsigned value of `s` read most significant byte first. */
  function BigEndian(s: seq<byte>): (v: nat)
    ensures v < Pow256(|s|)
  {
    if s == [] then 0 else BigEndian(s[..|s| - 1]) * 256 + s[|s| - 1]
  }

  /** The `n`-byte big-endian encoding of `v` (`to_be_bytes`). */
  function ToBigEndian(v: nat, n: nat): (s: seq<byte>)
    requires v < Pow256(n)
    ensures |s| == n
  {
    if n == 0 then [] else ToBigEndian(v / 256, n - 1) + [v % 256]
  }

  /** Reading one more byte shifts the value up by one byte. */
  lemma BigEndianSnoc(s: seq<byte>, c: byte)
    ensures BigEndian(s + [c]) == BigEndian(s) * 256 + c
  {
    assert (s + [c])[..|s|] == s;
  }

  /** Encoding: the encoding of the quotient, then the remainder. */
  lemma ToBigEndianSnoc(v: nat, n: nat)
    requires n >= 1 && v < Pow256(n)
    ensures v / 256 < Pow256(n - 1)
    ensures ToBigEndian(v, n) == ToBigEndian(v / 256, n - 1) + [v % 256]
  {
    DivBound(v, 256, Pow256(n - 1));
  }

  /** Encoding then reading back gives the value. */
  lemma {:induction false} BigEndianOfToBigEndian(v: nat, n: nat)
    requires v < Pow256(n)
    ensures BigEndian(ToBigEndian(v, n)) == v
  {
    if n > 0 {
      ToBigEndianSnoc(v, n);
      BigEndianOfToBigEndian(v / 256, n - 1);
      BigEndianSnoc(ToBigEndian(v / 256, n - 1), v % 256);
      DivMod(v, 256);
    }
  }

  /** The two bytes of a 16-bit value: the high byte, then the low byte. */
  lemma ToBigEndian2(v: nat)
    requires v < 0x1_0000
    ensures ToBigEndian(v, 2) == [v / 256, v % 256]
  {
    DivBound(v, 256, 256);
    DivModUnique(v / 256, 256, 0, v / 256);
    assert ToBigEndian(v / 256, 1) == ToBigEndian(v / 256 / 256, 0) + [v / 256 % 256];
  }

  /** Reading then encoding at the same width gives the bytes back. */
  lemma {:induction false} ToBigEndianOfBigEndian(s: seq<byte>)
    ensures ToBigEndian(BigEndian(s), |s|) == s
  {
    if s != [] {
      var n := |s| - 1;
      var init := s[..n];
      var v, hi := BigEndian(s), BigEndian(init);
      assert v == hi * 256 + s[n];
      DivModUnique(v, 256, hi, s[n]);
      ToBigEndianOfBigEndian(init);
      assert ToBigEndian(v, |s|) == ToBigEndian(hi, n) + [s[n]];
      assert s == init + [s[n]];
    }
  }

  // ------------------------------------------------------------------
  // Proof helpers for BigEndianAppend: arithmetic and sequence steps
  // ------------------------------------------------------------------

  /** The arithmetic of one more byte on the right of a concatenation. */
  lemma ShiftByte(x: int, p: int, y: int, c: int, e: int, q: int, r: int)
    requires e == (x * p + y) * 256 + c && q == 256 * p && r == y * 256 + c
    ensures e == x * q + r
  {
  }

  lemma SnocSplit(a: seq<byte>, b: seq<byte>)
    requires b != []
    ensures a + b == (a + b[..|b| - 1]) + [b[|b| - 1]] && b == b[..|b| - 1] + [b[|b| - 1]]
  {
  }

  /** Reading a concatenation: the first part is shifted up by the second's width. */
  lemma {:induction false} BigEndianAppend(a: seq<byte>, b: seq<byte>)
    ensures BigEndian(a + b) == BigEndian(a) * Pow256(|b|) + BigEndian(b)
    decreases |b|
  {
    if b == [] {
      assert a + b == a;
    } else {
      var n := |b| - 1;
      var init, c := b[..n], b[n];
      BigEndianAppend(a, init);
      SnocSplit(a, b);
      BigEndianSnoc(a + init, c);
      BigEndianSnoc(init, c);
      ShiftByte(BigEndian(a), Pow256(n), BigEndian(init), c, BigEndian(a + b), Pow256(|b|), BigEndian(b));
    }
  }

  /** The two-byte and four-byte readers used by the parsers. */
  function BE16(s: seq<byte>, at: nat): (v: nat)
    requires at + 2 <= |s|
    ensures v < 0x1_0000
    ensures v == (s[at] as int) * 256 + s[at + 1]
  {
    var w := s[at..at + 2];
    assert w[..1] == [s[at]] && w[..1][..0] == [];
    assert BigEndian(w[..1]) == s[at];
    BigEndian(w)
  }

  // ------------------------------------------------------------------
  // Proof helpers: multiplication and division facts used by the
  // byte-order and parsing lemmas of the other modules
  // ------------------------------------------------------------------

  lemma MulAtLeast(d: nat, k: nat)
    requires k >= 1
    ensures d * k >= d
  {
  }

  lemma MulLessCancel(d: nat, x: nat, y: nat)
    requires d >= 1 && d * x < d * y
    ensures x < y
  {
  }

  lemma DivMod(v: nat, k: nat)
    requires k >= 1
    ensures v == k * (v / k) + v % k && v == (v / k) * k + v % k
  {
  }

  /** A value below `k * p` has a quotient by `k` below `p`. */
  lemma DivBound(v: nat, k: nat, p: nat)
    requires k >= 1 && v < k * p
    ensures 0 <= v / k < p
  {
  }

  /** A value of at least `d * t` has a quotient by `d` of at least `t`. */
  lemma DivAtLeast(a: nat, d: nat, t: nat)
    requires d >= 1 && d * t <= a
    ensures t <= a / d
  {
    var q := a / d;
    assert a == d * q + a % d;
    assert d * (q + 1) == d * q + d;
    MulLessCancel(d, t, q + 1);
  }

  /** Division is unique: a quotient and a remainder in range are `/` and `%`. */
  lemma DivModUnique(a: nat, d: nat, t: nat, s: nat)
    requires d >= 1 && s < d && a == d * t + s
    ensures a / d == t && a % d == s
  {
    assert d * (t + 1) == d * t + d;
    DivBound(a, d, t + 1);
    DivAtLeast(a, d, t);
    assert a == d * (a / d) + a % d;
  }
}
