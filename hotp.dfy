/**
 * Counter-based one-time passwords (RFC 4226): the counter is encoded as
 * eight big-endian bytes, authenticated with HMAC-SHA1 under the shared
 * secret, dynamically truncated to a 31-bit integer (section 5.3 of
 * RFC 4226) and rendered as a fixed number of decimal digits.
 *
 * HMAC-SHA1 itself is a parameter of the model (`Mac`): an abstract
 * primitive that accepts or rejects a key and returns a 20-byte tag.
 */
module Hotp {
  import opened Error
  import opened Numeric

  /** Length in bytes of a SHA-1 digest, hence of an HMAC-SHA1 tag. */
  const DigestLength: nat := 20

  type Digest = s: seq<byte> | |s| == DigestLength witness seq(20, _ => 0)

  /**
   * HMAC-SHA1: whether keying the MAC with a secret succeeds, and the tag
   * of a message under a secret. Keying depends on the secret alone.
   */
  datatype Mac = Mac(acceptsKey: seq<byte> -> bool, tag: (seq<byte>, seq<byte>) -> Digest)

  /**
   * The error raised when the MAC cannot be keyed with the secret. The
   * source prints the MAC crate's own error after "HMAC error: "; that
   * text is not part of this model, so the reason here is a placeholder.
   */
  const KeyRejected: AppError := Internal("HMAC error: invalid key length")

  /**
   * The largest digit count for which `10^digits` fits the 32-bit working
   * integer: 10^9 < 2^32 <= 10^10.
   */
  const MaxDigits: nat := 9

  /** An HOTP generator: the shared secret and the code length. */
  datatype Hotp = Hotp(secret: seq<byte>, digits: nat)

  /** A generator over the decimal alphabet `Alphabet`. */
  function New(secret: seq<byte>, digits: nat): (h: Hotp)
    ensures h.secret == secret && h.digits == digits
  {
    Hotp(secret, digits)
  }

  /** The HMAC message: the counter as 8 big-endian bytes. */
  function EncodeCounter(counter: u64): (b: seq<byte>)
    ensures |b| == 8 && FromBigEndian(b) == counter
  {
    assert Pow(256, 8) == U64_MAX + 1;
    FromToBigEndian(counter, 8);
    ToBigEndian(counter, 8)
  }

  /**
   * The truncation offset: the low four bits of the last tag byte. On
   * bytes held as integers `& 0xf` is `% 0x10`.
   */
  function Offset(d: Digest): (o: nat)
    ensures o <= 15 && o + 3 < |d|
  {
    d[|d| - 1] % 0x10
  }

  /**
   * Dynamic truncation: the four tag bytes from the offset, read as a
   * big-endian integer with the top bit of the first one cleared.
   */
  function Truncate(d: Digest): (b: nat)
    ensures b < 0x8000_0000
    ensures b == FromBigEndian([d[Offset(d)] % 0x80, d[Offset(d) + 1], d[Offset(d) + 2], d[Offset(d) + 3]])
  {
    var o := Offset(d);
    Masked31(d[o], d[o + 1], d[o + 2], d[o + 3])
  }

  /**
   * The 32-bit word `(a & 0x7f) << 24 | b << 16 | c << 8 | e`. The shifted
   * fields do not overlap, so each `|` is a `+`, and `& 0x7f` on a byte is
   * `% 0x80`.
   */
  function Masked31(a: byte, b: byte, c: byte, e: byte): (v: nat)
    ensures v < 0x8000_0000
    ensures v == FromBigEndian([a % 0x80, b, c, e])
  {
    FourBytes(a % 0x80, b, c, e);
    (a % 0x80) * 0x100_0000 + b * 0x1_0000 + c * 0x100 + e
  }

  /**
   * The source's bit operations on bytes agree with the arithmetic used
   * above: `& 0xf` on the last tag byte is `% 0x10` (Offset), and the
   * masked, shifted and or-ed 32-bit word is Masked31.
   */
  lemma LowNibble(x: bv8)
    ensures (x & 0xf) as int == (x as int) % 0x10
  {
  }

  lemma Word(a: bv8, b: bv8, c: bv8, e: bv8)
    ensures ((((a & 0x7f) as bv32) << 24) | ((b as bv32) << 16) | ((c as bv32) << 8) | (e as bv32)) as int
            == ((a as int) % 0x80) * 0x100_0000 + (b as int) * 0x1_0000 + (c as int) * 0x100 + (e as int)
  {
  }

  lemma FourBytes(a: byte, b: byte, c: byte, e: byte)
    ensures FromBigEndian([a, b, c, e]) == ((a * 0x100 + b) * 0x100 + c) * 0x100 + e
  {
    var s1, s2, s3, s4 := [a], [a, b], [a, b, c], [a, b, c, e];
    assert s1[..0] == [] && s2[..1] == s1 && s3[..2] == s2 && s4[..3] == s3;
    assert FromBigEndian(s1) == a;
    assert FromBigEndian(s2) == a * 0x100 + b;
    assert FromBigEndian(s3) == (a * 0x100 + b) * 0x100 + c;
  }

  // ---------------------------------------------------------------------
  // Code generation
  // ---------------------------------------------------------------------

  /**
   * The code for `counter`: the truncated tag reduced modulo `10^digits`
   * and rendered as exactly `digits` decimal digits, most significant
   * first and padded with '0'; an internal error when the MAC refuses the
   * secret.
   */
  function Code(h: Hotp, mac: Mac, counter: u64): (r: Result<string, AppError>)
    requires h.digits <= MaxDigits
    ensures r.Err? <==> !mac.acceptsKey(h.secret)
    ensures r.Err? ==> r.error == KeyRejected
    ensures r.Ok? ==> |r.value| == h.digits && IsDecimal(r.value)
    ensures r.Ok? ==> Parse(r.value) == Truncate(mac.tag(h.secret, EncodeCounter(counter))) % Pow(10, h.digits)
  {
    if !mac.acceptsKey(h.secret) then Err(KeyRejected)
    else
      var value := Truncate(mac.tag(h.secret, EncodeCounter(counter))) % Pow(10, h.digits);
      ParsePad(value, h.digits);
      PadShape(value, h.digits);
      DivModUnique(value, Pow(10, h.digits), 0, value);
      Ok(Pad(value, h.digits))
  }

  /**
   * `Hotp::generate`: encode the counter, key the MAC, truncate, reduce and
   * render digit by digit, prepending the least significant digit each
   * round.
   */
  method Generate(h: Hotp, mac: Mac, counter: u64) returns (r: Result<string, AppError>)
    requires h.digits <= MaxDigits
    ensures r == Code(h, mac, counter)
  {
    var counterBytes := EncodeCounter(counter);
    if !mac.acceptsKey(h.secret) {
      return Err(KeyRejected);
    }
    var result := mac.tag(h.secret, counterBytes);
    var binary := Truncate(result);
    var base := |Alphabet|;
    var code := "";
    var value := binary % Pow(base, h.digits);
    ghost var reduced := value;
    for i := 0 to h.digits
      invariant value == reduced / Pow(10, i)
      invariant code == Pad(reduced, i)
    {
      var idx := value % base;
      code := [Alphabet[idx]] + code;
      DivDiv(reduced, Pow(10, i), 10);
      value := value / base;
    }
    return Ok(code);
  }

  // ---------------------------------------------------------------------
  // Verification
  // ---------------------------------------------------------------------

  /** ASCII lower-casing of one character. */
  function Lower(c: char): (l: char)
    ensures IsDigit(l) <==> IsDigit(c)
    ensures IsDigit(c) ==> l == c
  {
    if 'A' <= c <= 'Z' then (c as int + 32) as char else c
  }

  function ToLower(s: string): (t: string)
    ensures |t| == |s|
  {
    seq(|s|, k requires 0 <= k < |s| => Lower(s[k]))
  }

  /** Lower-casing leaves a string of digits as it is, and makes no other string one. */
  lemma ToLowerDecimal(s: string)
    ensures IsDecimal(ToLower(s)) <==> IsDecimal(s)
    ensures IsDecimal(s) ==> ToLower(s) == s
  {
    if IsDecimal(ToLower(s)) {
      forall k | 0 <= k < |s| ensures IsDigit(s[k]) {
        assert IsDigit(ToLower(s)[k]);
      }
    }
  }

  /** `Hotp::verify`: regenerate the code and compare it with the lower-cased candidate. */
  function Verify(h: Hotp, mac: Mac, code: string, counter: u64): (r: Result<bool, AppError>)
    requires h.digits <= MaxDigits
    ensures r.Err? <==> !mac.acceptsKey(h.secret)
    ensures r.Err? ==> r.error == KeyRejected
  {
    match Code(h, mac, counter)
    case Err(e) => Err(e)
    case Ok(generated) => Ok(generated == ToLower(code))
  }

  /** A generated code verifies at its own counter. */
  lemma VerifyGenerated(h: Hotp, mac: Mac, counter: u64)
    requires h.digits <= MaxDigits && mac.acceptsKey(h.secret)
    ensures Code(h, mac, counter).Ok?
    ensures Verify(h, mac, Code(h, mac, counter).value, counter) == Ok(true)
  {
    ToLowerDecimal(Code(h, mac, counter).value);
  }

  /**
   * Verification accepts exactly the generated code: since the generated
   * code is all digits, lower-casing the candidate never makes a difference.
   */
  lemma VerifyExact(h: Hotp, mac: Mac, code: string, counter: u64)
    requires h.digits <= MaxDigits
    ensures Verify(h, mac, code, counter) == Ok(true) <==> Code(h, mac, counter) == Ok(code)
    ensures Verify(h, mac, code, counter) == Ok(false) <==> Code(h, mac, counter).Ok? && Code(h, mac, counter) != Ok(code)
  {
    ToLowerDecimal(code);
  }

  /**
   * The code reads the MAC only at the secret and the encoded counter: it
   * is a function of the secret, the digit count and the counter.
   */
  lemma CodeDependsOnlyOnTag(h: Hotp, mac1: Mac, mac2: Mac, counter: u64)
    requires h.digits <= MaxDigits
    requires mac1.acceptsKey(h.secret) == mac2.acceptsKey(h.secret)
    requires mac1.tag(h.secret, EncodeCounter(counter)) == mac2.tag(h.secret, EncodeCounter(counter))
    ensures Code(h, mac1, counter) == Code(h, mac2, counter)
  {
  }
}
