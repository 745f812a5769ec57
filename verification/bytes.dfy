/** Bytes and 64-bit words, and the fixed little-endian layout the model
    gives to the counter's sixteen bytes. */
module Bytes {

  type Byte = x: int | 0 <= x < 256

  const WORD_SIZE: nat := 0x1_0000_0000_0000_0000

  type Word64 = x: int | 0 <= x < WORD_SIZE

  function Pow256(k: nat): (r: nat)
    ensures r > 0
  {
    if k == 0 then 1 else 256 * Pow256(k - 1)
  }

  lemma Pow256Eight()
    ensures Pow256(8) == WORD_SIZE
  {
    assert Pow256(4) == 0x1_0000_0000;
  }

  /** The low `n` bytes of `w`, least significant first. */
  function LeBytes(w: nat, n: nat): (r: seq<Byte>)
    ensures |r| == n
  {
    if n == 0 then [] else [w % 256] + LeBytes(w / 256, n - 1)
  }

  /** The number a little-endian byte string denotes. */
  function LeValue(s: seq<Byte>): nat {
    if |s| == 0 then 0 else s[0] + 256 * LeValue(s[1..])
  }

  lemma {:induction false} LeValueBound(s: seq<Byte>)
    ensures LeValue(s) < Pow256(|s|)
  {
    if |s| > 0 {
      LeValueBound(s[1..]);
    }
  }

  /** Decoding what was encoded gives the number back, reduced to `n` bytes. */
  lemma {:induction false} LeValueOfBytes(w: nat, n: nat)
    ensures LeValue(LeBytes(w, n)) == w % Pow256(n)
  {
    if n > 0 {
      LeValueOfBytes(w / 256, n - 1);
      var p := Pow256(n - 1);
      assert LeBytes(w, n)[1..] == LeBytes(w / 256, n - 1);
      calc {
        LeValue(LeBytes(w, n));
        w % 256 + 256 * ((w / 256) % p);
        { DivModNested(w, 256, p); }
        w % (256 * p);
      }
    }
  }

  lemma DivModNested(w: nat, a: nat, b: nat)
    requires a > 0 && b > 0
    ensures w % a + a * ((w / a) % b) == w % (a * b)
  {
    var q := w / a;
    var r := w % a;
    var q2 := q / b;
    var r2 := q % b;
    assert w == a * (b * q2 + r2) + r;
    assert w == (a * b) * q2 + (a * r2 + r) by {
      assert a * (b * q2 + r2) == (a * b) * q2 + a * r2;
    }
    assert a * r2 + r < a * b by {
      assert r2 <= b - 1;
      assert a * r2 <= a * (b - 1);
    }
    LemmaModUnique(w, a * b, q2, a * r2 + r);
  }

  lemma LemmaModUnique(w: int, m: int, q: int, r: int)
    requires m > 0 && 0 <= r < m && w == m * q + r
    ensures w % m == r && w / m == q
  {
    var q', r' := w / m, w % m;
    assert m * q' + r' == m * q + r;
    if q' > q {
      MulAtLeast(m, q' - q);
    } else if q' < q {
      MulAtLeast(m, q - q');
    }
  }

  lemma MulAtLeast(m: int, a: int)
    requires m > 0 && a >= 1
    ensures m * a >= m
  {
    assert m * a == m + m * (a - 1);
  }

  /** Encoding a decoded byte string gives the bytes back. */
  lemma {:induction false} LeBytesOfValue(s: seq<Byte>)
    ensures LeBytes(LeValue(s), |s|) == s
  {
    if |s| > 0 {
      LeBytesOfValue(s[1..]);
      var v := LeValue(s);
      assert v % 256 == s[0] && v / 256 == LeValue(s[1..]) by {
        LemmaModUnique(v, 256, LeValue(s[1..]), s[0]);
      }
    }
  }

  function Pow2(n: nat): (r: nat)
    ensures r > 0
  {
    if n == 0 then 1 else 2 * Pow2(n - 1)
  }

  /** Little-endian concatenation: the second part counts `256^|a|` times. */
  lemma {:induction false} LeValueAppend(a: seq<Byte>, b: seq<Byte>)
    ensures LeValue(a + b) == LeValue(a) + Pow256(|a|) * LeValue(b)
  {
    if |a| > 0 {
      LeValueAppend(a[1..], b);
      assert (a + b)[1..] == a[1..] + b;
      ScaleSum(a[0], LeValue(a[1..]), Pow256(|a| - 1), LeValue(b), LeValue(a + b), LeValue(a), Pow256(|a|));
    } else {
      assert a + b == b;
    }
  }

  lemma ScaleSum(h: int, x: int, p: int, y: int, ab: int, va: int, pa: int)
    requires ab == h + 256 * (x + p * y) && va == h + 256 * x && pa == 256 * p
    ensures ab == va + pa * y
  {
  }

  /** Bitwise exclusive or of the low `n` bits of `a` and `b`. */
  function XorBits(a: nat, b: nat, n: nat): (r: nat)
    ensures r < Pow2(n)
  {
    if n == 0 then 0 else (a % 2 + b % 2) % 2 + 2 * XorBits(a / 2, b / 2, n - 1)
  }

  lemma {:induction false} XorBitsInvolution(a: nat, b: nat, n: nat)
    ensures XorBits(XorBits(a, b, n), b, n) == a % Pow2(n)
  {
    if n > 0 {
      var x := XorBits(a, b, n);
      XorBitsStep(a, b, n);
      ParityCancel(a, b);
      XorBitsInvolution(a / 2, b / 2, n - 1);
      assert XorBits(x, b, n) == a % 2 + 2 * ((a / 2) % Pow2(n - 1));
      DivModNested(a, 2, Pow2(n - 1));
    }
  }

  /** The lowest bit of the exclusive or, and the bits above it. */
  lemma XorBitsStep(a: nat, b: nat, n: nat)
    requires n > 0
    ensures XorBits(a, b, n) % 2 == (a % 2 + b % 2) % 2
    ensures XorBits(a, b, n) / 2 == XorBits(a / 2, b / 2, n - 1)
  {
    LemmaModUnique(XorBits(a, b, n), 2, XorBits(a / 2, b / 2, n - 1), (a % 2 + b % 2) % 2);
  }

  lemma ParityCancel(a: nat, b: nat)
    ensures ((a % 2 + b % 2) % 2 + b % 2) % 2 == a % 2
  {
  }

  /** Bitwise exclusive or of two bytes. */
  function XorByte(a: Byte, b: Byte): (r: Byte)
  {
    Pow2Eight();
    XorBits(a, b, 8)
  }

  lemma Pow2Eight()
    ensures Pow2(8) == 256
  {
    assert Pow2(4) == 16;
  }

  lemma XorByteInvolution(a: Byte, b: Byte)
    ensures XorByte(XorByte(a, b), b) == a
  {
    Pow2Eight();
    XorBitsInvolution(a, b, 8);
    LemmaModUnique(a, 256, 0, a);
  }

  /** Position-wise exclusive or of two equally long byte strings. */
  function Xor(a: seq<Byte>, b: seq<Byte>): (r: seq<Byte>)
    requires |a| == |b|
    ensures |r| == |a|
    ensures forall i :: 0 <= i < |a| ==> r[i] == XorByte(a[i], b[i])
  {
    seq(|a|, i requires 0 <= i < |a| => XorByte(a[i], b[i]))
  }

  /** Masking twice with the same bytes restores the original. */
  lemma XorInvolution(a: seq<Byte>, b: seq<Byte>)
    requires |a| == |b|
    ensures Xor(Xor(a, b), b) == a
  {
    forall i | 0 <= i < |a| {
      XorByteInvolution(a[i], b[i]);
    }
  }
}
