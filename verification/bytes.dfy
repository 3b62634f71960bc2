/** Bytes, powers of 256, and the reference big-endian reading of a byte sequence. */
module Bytes {

  type byte = x: int | 0 <= x < 256

  const Two16: nat := 65536
  const Two32: nat := 4294967296
  const Two64: nat := 18446744073709551616

  /** Storing a number into a Node Buffer keeps its low 8 bits. */
  function Store(x: nat): byte {
    x % 256
  }

  function Pow256(n: nat): (p: nat)
    ensures p > 0
  {
    if n == 0 then 1 else 256 * Pow256(n - 1)
  }

  lemma Pow256Values()
    ensures Pow256(1) == 256 && Pow256(2) == Two16
    ensures Pow256(4) == Two32 && Pow256(8) == Two64
  {
    assert Pow256(2) == Two16;
    assert Pow256(4) == Two32;
    assert Pow256(6) == 281474976710656;
  }

  /** The unsigned integer a byte sequence denotes, most significant byte first. */
  function BeValue(s: seq<byte>): nat {
    if |s| == 0 then 0 else BeValue(s[..|s| - 1]) * 256 + s[|s| - 1]
  }

  lemma {:induction false} BeValueBound(s: seq<byte>)
    ensures BeValue(s) < Pow256(|s|)
  {
    if |s| > 0 {
      BeValueBound(s[..|s| - 1]);
    }
  }

  /** Appending bytes shifts the value of the prefix left by whole bytes. */
  lemma {:induction false} BeValueAppend(a: seq<byte>, b: seq<byte>)
    ensures BeValue(a + b) == BeValue(a) * Pow256(|b|) + BeValue(b)
  {
    if |b| == 0 {
      assert a + b == a;
    } else {
      var b' := b[..|b| - 1];
      assert (a + b)[..|a + b| - 1] == a + b';
      BeValueAppend(a, b');
      var x, p, y, last := BeValue(a), Pow256(|b'|), BeValue(b'), b[|b| - 1];
      assert (a + b)[|a + b| - 1] == last;
      assert BeValue(a + b) == BeValue(a + b') * 256 + last;
      assert BeValue(a + b') == x * p + y;
      assert BeValue(b) == y * 256 + last;
      assert Pow256(|b|) == 256 * p;
      ShiftByte(x, p, y, last);
    }
  }

  /** One more byte after a shifted prefix: the shift grows by a factor of 256. */
  lemma ShiftByte(x: int, p: int, y: int, last: int)
    ensures (x * p + y) * 256 + last == x * (256 * p) + (y * 256 + last)
  {
  }

  lemma ModBelow(v: nat, m: nat)
    requires v < m
    ensures v % m == v
  {
  }

  /** Quotient and remainder are determined by the division identity. */
  lemma DivModUnique(v: int, d: int, a: int, c: int)
    requires d > 0 && 0 <= c < d && v == d * a + c
    ensures v / d == a && v % d == c
  {
    var q, r := v / d, v % d;
    assert d * (q - a) == c - r;
    if q > a {
      MulAtLeast(d, q - a);
    } else if q < a {
      MulAtLeast(d, a - q);
    }
  }

  lemma MulAtLeast(d: int, x: int)
    requires d > 0 && x >= 1
    ensures d * x >= d
  {
  }

  /** The remainder modulo k * m splits into a digit base k and a remainder modulo k. */
  lemma SplitMod(v: nat, k: nat, m: nat)
    requires k > 0 && m > 0
    ensures v % (k * m) == (v / k % m) * k + v % k
  {
    var q, r := v / k, v % k;
    var a, b := q / m, q % m;
    assert v == (k * m) * a + (b * k + r) by {
      assert v == k * q + r;
      assert q == m * a + b;
    }
    assert b * k <= (m - 1) * k;
    DivModUnique(v, k * m, a, b * k + r);
  }
}
