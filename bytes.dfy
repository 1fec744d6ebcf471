/** Bytes, byte strings and the 32-bit accumulator both demo folds use. */
module Bytes {

  /** Go's `byte` / `uint8`. */
  type byte = x: int | 0 <= x < 0x100

  /** 2^32: the range of Go's `uint32`. */
  const UINT32: nat := 0x1_0000_0000

  /** 256 to the power n: the range of an n-byte big-endian number. */
  function Pow256(n: nat): (r: nat)
    ensures r >= 1
  {
    if n == 0 then 1 else 256 * Pow256(n - 1)
  }

  /** Sum of the bytes of s as an unbounded integer, peeled from the end so that
      a loop adding one byte at a time follows it step by step. */
  function Sum(s: seq<byte>): nat
  {
    if s == [] then 0 else Sum(s[..|s| - 1]) + s[|s| - 1]
  }

  lemma {:induction false} SumConcat(a: seq<byte>, b: seq<byte>)
    ensures Sum(a + b) == Sum(a) + Sum(b)
  {
    if b == [] {
      assert a + b == a;
    } else {
      assert (a + b)[..|a + b| - 1] == a + b[..|b| - 1];
      SumConcat(a, b[..|b| - 1]);
    }
  }

  /** The value of s read as a big-endian unsigned number. */
  function BigEndian(s: seq<byte>): nat
  {
    if s == [] then 0 else BigEndian(s[..|s| - 1]) * 256 + s[|s| - 1]
  }

  lemma {:induction false} BigEndianBound(s: seq<byte>)
    ensures BigEndian(s) < Pow256(|s|)
  {
    if s != [] {
      BigEndianBound(s[..|s| - 1]);
    }
  }

  /** Splitting a big-endian number: the high part is shifted past the low part's bytes. */
  lemma {:induction false} BigEndianConcat(p: seq<byte>, q: seq<byte>)
    ensures BigEndian(p + q) == BigEndian(p) * Pow256(|q|) + BigEndian(q)
  {
    if q == [] {
      assert p + q == p;
    } else {
      var q' := q[..|q| - 1];
      assert (p + q)[..|p + q| - 1] == p + q';
      BigEndianConcat(p, q');
      calc {
        BigEndian(p + q);
        BigEndian(p + q') * 256 + q[|q| - 1];
        (BigEndian(p) * Pow256(|q'|) + BigEndian(q')) * 256 + q[|q| - 1];
        BigEndian(p) * (Pow256(|q'|) * 256) + (BigEndian(q') * 256 + q[|q| - 1]);
        BigEndian(p) * Pow256(|q|) + BigEndian(q);
      }
    }
  }

  /** Go's `acc <<= 8; acc |= uint32(b)` on a `uint32`: the shift keeps the low three
      bytes, moved up by one, and clears the low byte, which the OR then sets to b. */
  function ShiftIn(acc: nat, b: byte): (r: nat)
    requires acc < UINT32
    ensures r < UINT32
    ensures r % 0x100 == b
  {
    (acc % 0x100_0000) * 0x100 + b
  }

  /** Shifting a byte into a 32-bit accumulator that holds the low 32 bits of a
      big-endian number gives the low 32 bits of the number with the byte appended. */
  lemma ShiftInBigEndian(s: seq<byte>, b: byte)
    ensures ShiftIn(BigEndian(s) % UINT32, b) == BigEndian(s + [b]) % UINT32
  {
    var x := BigEndian(s);
    assert (s + [b])[..|s + [b]| - 1] == s;
    assert BigEndian(s + [b]) == x * 256 + b;
    var q, r := x / 0x100_0000, x % 0x100_0000;
    assert x == q * 0x100_0000 + r;
    assert (x % UINT32) % 0x100_0000 == r by {
      var q2 := x / UINT32;
      assert x == q2 * UINT32 + x % UINT32;
      assert x % UINT32 == (q - 256 * q2) * 0x100_0000 + r;
    }
    assert x * 256 + b == q * UINT32 + (r * 256 + b);
    assert 0 <= r * 256 + b < UINT32;
  }

  /** Folding bytes big-endian into a uint32 starting from 0 keeps exactly the
      last four bytes: earlier bytes are shifted out at the top. */
  lemma BigEndianLow32(s: seq<byte>)
    requires |s| >= 4
    ensures BigEndian(s) % UINT32 == BigEndian(s[|s| - 4..])
  {
    var p, q := s[..|s| - 4], s[|s| - 4..];
    assert s == p + q;
    BigEndianConcat(p, q);
    BigEndianBound(q);
    assert Pow256(4) == 0x1_0000_0000;
    DropHigh32(BigEndian(p), BigEndian(q));
  }

  lemma DropHigh32(hi: nat, lo: nat)
    requires lo < 0x1_0000_0000
    ensures (hi * 0x1_0000_0000 + lo) % UINT32 == lo
  {
  }

  /** A number of at most four bytes fits a uint32 unchanged. */
  lemma BigEndianFits32(s: seq<byte>)
    requires |s| <= 4
    ensures BigEndian(s) < UINT32
    ensures BigEndian(s) % UINT32 == BigEndian(s)
  {
    BigEndianBound(s);
    assert Pow256(|s|) <= Pow256(4) by {
      if |s| < 4 { Pow256Monotone(|s|, 4); }
    }
  }

  lemma {:induction false} Pow256Monotone(m: nat, n: nat)
    requires m <= n
    ensures Pow256(m) <= Pow256(n)
  {
    if m < n {
      Pow256Monotone(m, n - 1);
    }
  }

  /** The four bytes of a 4-byte big-endian number, read back by shifting and masking. */
  lemma BigEndianBytes4(s: seq<byte>)
    requires |s| == 4
    ensures BigEndian(s) == s[0] as int * 0x100_0000 + s[1] as int * 0x1_0000 + s[2] as int * 0x100 + s[3]
    ensures (BigEndian(s) / 0x100_0000) % 0x100 == s[0]
    ensures (BigEndian(s) / 0x1_0000) % 0x100 == s[1]
    ensures (BigEndian(s) / 0x100) % 0x100 == s[2]
    ensures BigEndian(s) % 0x100 == s[3]
  {
    var v := BigEndian(s);
    assert s[..3][..2][..1][..0] == [];
    assert s[..1][..0] == [] && s[..2][..1] == s[..1] && s[..3][..2] == s[..2] && s[..3] == s[..|s| - 1];
    assert BigEndian(s[..1]) == s[0];
    assert BigEndian(s[..2]) == s[0] as int * 0x100 + s[1];
    assert BigEndian(s[..3]) == s[0] as int * 0x1_0000 + s[1] as int * 0x100 + s[2];
    assert v / 0x100 == s[0] as int * 0x1_0000 + s[1] as int * 0x100 + s[2];
    assert v / 0x1_0000 == s[0] as int * 0x100 + s[1];
    assert v / 0x100_0000 == s[0];
  }
}
