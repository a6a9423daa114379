/**
 * Integer facts used by the OTP engines: machine widths, powers, the
 * big-endian byte encoding of an integer and the zero-padded decimal
 * rendering of a number, each with its inverse.
 */
module Numeric {

  const U64_MAX: int := 0xffff_ffff_ffff_ffff

  /** An unsigned 64-bit integer (Rust `u64`). */
  type u64 = x: int | 0 <= x <= U64_MAX

  /** One byte of a message or digest. */
  type byte = x: int | 0 <= x < 0x100

  function Pow(b: nat, e: nat): (p: nat)
    ensures b > 0 ==> p > 0
  {
    if e == 0 then 1 else b * Pow(b, e - 1)
  }

  /** Division by a product is division by its factors in turn. */
  lemma DivDiv(v: nat, p: nat, q: nat)
    requires p > 0 && q > 0
    ensures v / p / q == v / (p * q)
  {
    var a := v / p;
    var b := a / q;
    var low := (a % q) * p + v % p;
    assert v == a * p + v % p;
    assert a * p == (b * q + a % q) * p;
    assert (b * q + a % q) * p == b * (p * q) + (a % q) * p;
    MulLeft(a % q, q - 1, p);
    assert (q - 1) * p == p * q - p;
    DivModUnique(v, p * q, b, low);
  }

  lemma MulAtLeast(a: int, d: int)
    requires a >= 1 && d > 0
    ensures a * d >= d
  {
  }

  lemma MulLeft(a: int, b: int, d: int)
    requires a <= b && d >= 0
    ensures a * d <= b * d
  {
  }

  /** Quotient and remainder are the only pair that decomposes `v`. */
  lemma DivModUnique(v: int, d: int, q: int, r: int)
    requires d > 0 && 0 <= r < d && v == q * d + r
    ensures v / d == q && v % d == r
  {
    var q', r' := v / d, v % d;
    assert q' * d + r' == q * d + r;
    if q' > q {
      assert (q' - q) * d == r - r';
      MulAtLeast(q' - q, d);
    } else if q' < q {
      assert (q - q') * d == r' - r;
      MulAtLeast(q - q', d);
    }
  }

  /** The part of `v` below `10 * p` is its digit at `p` and the part below `p`. */
  lemma ModSplit(v: nat, p: nat)
    requires p > 0
    ensures v % (10 * p) == (v / p) % 10 * p + v % p
  {
    var a := v / p;
    assert v == a * p + v % p;
    assert a * p == (a / 10 * 10 + a % 10) * p;
    assert (a / 10 * 10 + a % 10) * p == a / 10 * (10 * p) + (a % 10) * p;
    MulLeft(a % 10, 9, p);
    DivModUnique(v, 10 * p, a / 10, (a % 10) * p + v % p);
  }

  // ---------------------------------------------------------------------
  // Big-endian byte encoding (`u64::to_be_bytes`)
  // ---------------------------------------------------------------------


  /** The `n` low-order base-256 digits of `x`, most significant first. */
  function ToBigEndian(x: nat, n: nat): (r: seq<byte>)
    ensures |r| == n
  {
    if n == 0 then [] else ToBigEndian(x / 256, n - 1) + [x % 256]
  }

  /** The number whose base-256 digits, most significant first, are `s`. */
  function FromBigEndian(s: seq<byte>): (x: nat)
    ensures x < Pow(256, |s|)
  {
    if s == [] then 0
    else
      var hi := FromBigEndian(s[..|s| - 1]);
      assert hi * 256 + s[|s| - 1] < Pow(256, |s|) by {
        assert hi <= Pow(256, |s| - 1) - 1;
        assert hi * 256 <= Pow(256, |s| - 1) * 256 - 256;
      }
      hi * 256 + s[|s| - 1]
  }

  lemma {:induction false} FromToBigEndian(x: nat, n: nat)
    requires x < Pow(256, n)
    ensures FromBigEndian(ToBigEndian(x, n)) == x
  {
    if n > 0 {
      var r := ToBigEndian(x, n);
      assert r[..n - 1] == ToBigEndian(x / 256, n - 1);
      assert x / 256 < Pow(256, n - 1);
      FromToBigEndian(x / 256, n - 1);
      assert r[n - 1] == x % 256;
      assert FromBigEndian(r) == x / 256 * 256 + x % 256;
    }
  }

  lemma {:induction false} ToFromBigEndian(s: seq<byte>)
    ensures ToBigEndian(FromBigEndian(s), |s|) == s
  {
    if s != [] {
      var n := |s|;
      var hi := FromBigEndian(s[..n - 1]);
      var x := hi * 256 + s[n - 1];
      DivModUnique(x, 256, hi, s[n - 1]);
      ToFromBigEndian(s[..n - 1]);
      assert s == s[..n - 1] + [s[n - 1]];
    }
  }

  // ---------------------------------------------------------------------
  // Zero-padded decimal rendering
  // ---------------------------------------------------------------------

  /** The decimal alphabet; a digit's index is its value. */
  const Alphabet: string := "0123456789"

  predicate IsDigit(c: char) {
    '0' <= c <= '9'
  }

  predicate IsDecimal(s: string) {
    forall k :: 0 <= k < |s| ==> IsDigit(s[k])
  }

  function DigitValue(c: char): (d: nat)
    requires IsDigit(c)
    ensures d < 10 && Alphabet[d] == c
  {
    c as int - '0' as int
  }

  /**
   * The `n` low-order decimal digits of `v`, most significant first and
   * padded on the left with '0': the reference for the rendering loop.
   */
  function Pad(v: nat, n: nat): (s: string)
  {
    if n == 0 then [] else [Alphabet[(v / Pow(10, n - 1)) % 10]] + Pad(v, n - 1)
  }

  /** The value of a decimal string, most significant digit first. */
  function Parse(s: string): (v: nat)
    requires IsDecimal(s)
    ensures v < Pow(10, |s|)
  {
    if s == [] then 0
    else
      var d := DigitValue(s[0]);
      var rest := Parse(s[1..]);
      assert d * Pow(10, |s| - 1) + rest < Pow(10, |s|) by {
        assert d * Pow(10, |s| - 1) <= 9 * Pow(10, |s| - 1);
      }
      d * Pow(10, |s| - 1) + rest
  }

  lemma {:induction false} PadShape(v: nat, n: nat)
    ensures |Pad(v, n)| == n && IsDecimal(Pad(v, n))
  {
    if n > 0 {
      PadShape(v, n - 1);
    }
  }

  /** Rendering `v` to `n` digits and parsing it back yields `v mod 10^n`. */
  lemma {:induction false} ParsePad(v: nat, n: nat)
    ensures IsDecimal(Pad(v, n)) && Parse(Pad(v, n)) == v % Pow(10, n)
  {
    PadShape(v, n);
    if n > 0 {
      var p := Pow(10, n - 1);
      var s := Pad(v, n);
      assert s[1..] == Pad(v, n - 1);
      ParsePad(v, n - 1);
      assert DigitValue(s[0]) == (v / p) % 10;
      ModSplit(v, p);
    }
  }

  /** A decimal string is the padded rendering of its own value. */
  lemma {:induction false} PadParse(s: string)
    requires IsDecimal(s)
    ensures Pad(Parse(s), |s|) == s
  {
    if s != [] {
      var n := |s|;
      var p := Pow(10, n - 1);
      var d := DigitValue(s[0]);
      var rest := Parse(s[1..]);
      var v := d * p + rest;
      assert Parse(s) == v;
      DivModUnique(v, p, d, rest);
      DivModUnique(d, 10, 0, d);
      assert Alphabet[(v / p) % 10] == s[0];
      PadLow(v, d, n - 1);
      assert v - d * p == rest;
      PadParse(s[1..]);
      assert Pad(v, n) == [s[0]] + s[1..];
    }
  }

  /** The rendering to `m` digits ignores multiples of `10^m`. */
  lemma {:induction false} PadLow(v: nat, k: nat, m: nat)
    requires v >= k * Pow(10, m)
    decreases m
    ensures Pad(v, m) == Pad(v - k * Pow(10, m), m)
  {
    if m > 0 {
      var p := Pow(10, m - 1);
      var w := v - k * Pow(10, m);
      assert v == w + (10 * k) * p;
      DivModUnique(v, p, w / p + 10 * k, w % p);
      assert (w / p + 10 * k) % 10 == (w / p) % 10 by {
        DivModUnique(w / p + 10 * k, 10, (w / p) / 10 + k, (w / p) % 10);
      }
      PadLow(v, 10 * k, m - 1);
    }
  }
}
