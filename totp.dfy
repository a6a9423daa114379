/**
 * Time-based one-time passwords (RFC 6238): the HOTP counter is the number
 * of whole time steps since the epoch (section 4 of RFC 6238), and a code
 * is accepted when it matches any counter within `skew` steps of the
 * current one (section 5.2 of RFC 6238).
 *
 * The wall clock is not modelled: every operation takes the timestamp.
 */
module Totp {
  import opened Error
  import opened Numeric
  import Hotp

  /** A TOTP generator: the wrapped HOTP generator, the step in seconds and the tolerated skew in steps. */
  datatype Totp = Totp(hotp: Hotp.Hotp, timeStep: u64, skew: u64)

  /** The skew a new generator tolerates: one step before and after. */
  const DefaultSkew: u64 := 1

  /** The preconditions the engine's arithmetic needs: a non-zero step and `10^digits` within 32 bits. */
  predicate Usable(t: Totp) {
    t.timeStep > 0 && t.hotp.digits <= Hotp.MaxDigits
  }

  function New(secret: seq<byte>, digits: nat, timeStep: u64): (t: Totp)
    ensures t.hotp == Hotp.New(secret, digits) && t.timeStep == timeStep
    ensures t.skew == DefaultSkew
  {
    Totp(Hotp.New(secret, digits), timeStep, DefaultSkew)
  }

  /** The builder that sets the skew: nothing else changes. */
  function WithSkew(t: Totp, skew: u64): (t': Totp)
    ensures t'.skew == skew
    ensures t'.hotp == t.hotp && t'.timeStep == t.timeStep
  {
    t.(skew := skew)
  }

  /** The time-step counter: the number of whole steps up to `timestamp` (floor division). */
  function CalculateCounter(t: Totp, timestamp: u64): (c: u64)
    requires t.timeStep > 0
    ensures c * t.timeStep <= timestamp < (c + 1) * t.timeStep
  {
    timestamp / t.timeStep
  }

  /** `u64::saturating_sub`. */
  function SaturatingSub(a: u64, b: u64): (r: u64)
    ensures b <= a ==> r == a - b
    ensures b > a ==> r == 0
  {
    if b <= a then a - b else 0
  }

  /** `u64::saturating_add`. */
  function SaturatingAdd(a: u64, b: u64): (r: u64)
    ensures a + b <= U64_MAX ==> r == a + b
    ensures a + b > U64_MAX ==> r == U64_MAX
  {
    if a + b <= U64_MAX then a + b else U64_MAX
  }

  /** The first counter of the verification window. */
  function WindowLow(t: Totp, timestamp: u64): u64
    requires t.timeStep > 0
  {
    SaturatingSub(CalculateCounter(t, timestamp), t.skew)
  }

  /** The last counter of the verification window (inclusive). */
  function WindowHigh(t: Totp, timestamp: u64): u64
    requires t.timeStep > 0
  {
    SaturatingAdd(CalculateCounter(t, timestamp), t.skew)
  }

  /** The window holds the current counter, clamps at both ends of `u64` and spans at most `2 * skew + 1` counters. */
  lemma WindowBounds(t: Totp, timestamp: u64)
    requires t.timeStep > 0
    ensures var c := CalculateCounter(t, timestamp);
      && WindowLow(t, timestamp) <= c <= WindowHigh(t, timestamp)
      && WindowLow(t, timestamp) == (if t.skew > c then 0 else c - t.skew)
      && WindowHigh(t, timestamp) == (if c + t.skew > U64_MAX then U64_MAX else c + t.skew)
      && WindowHigh(t, timestamp) - WindowLow(t, timestamp) + 1 <= 2 * t.skew + 1
  {
  }

  /** `generate_at`: the HOTP code at the time-step counter of `timestamp`. */
  method GenerateAt(t: Totp, mac: Hotp.Mac, timestamp: u64) returns (r: Result<string, AppError>)
    requires Usable(t)
    ensures r == Hotp.Code(t.hotp, mac, CalculateCounter(t, timestamp))
  {
    var counter := CalculateCounter(t, timestamp);
    r := Hotp.Generate(t.hotp, mac, counter);
  }

  /**
   * What `verify_at` promises: an internal error when the MAC refuses the
   * secret, otherwise whether the candidate verifies at some counter of the
   * window.
   */
  ghost function Accepts(t: Totp, mac: Hotp.Mac, code: string, timestamp: u64): Result<bool, AppError>
    requires Usable(t)
  {
    if !mac.acceptsKey(t.hotp.secret) then Err(Hotp.KeyRejected)
    else Ok(exists i: u64 :: WindowLow(t, timestamp) <= i <= WindowHigh(t, timestamp)
                            && Hotp.Verify(t.hotp, mac, code, i) == Ok(true))
  }

  /**
   * `verify_at`: try the window's counters in increasing order, returning
   * at the first error or the first match. `probed` lists the counters
   * tried.
   */
  method VerifyAt(t: Totp, mac: Hotp.Mac, code: string, timestamp: u64)
    returns (r: Result<bool, AppError>, ghost probed: seq<u64>)
    requires Usable(t)
    ensures r == Accepts(t, mac, code, timestamp)
    ensures 1 <= |probed| <= 2 * t.skew + 1
    ensures forall k :: 0 <= k < |probed| ==> probed[k] == WindowLow(t, timestamp) + k
    ensures forall k :: 0 <= k < |probed| - 1 ==> Hotp.Verify(t.hotp, mac, code, probed[k]) == Ok(false)
    ensures r.Err? ==> |probed| == 1
    ensures r.Ok? && r.value ==> Hotp.Verify(t.hotp, mac, code, probed[|probed| - 1]) == Ok(true)
    ensures r.Ok? && !r.value ==> |probed| == WindowHigh(t, timestamp) - WindowLow(t, timestamp) + 1
  {
    var counter := CalculateCounter(t, timestamp);
    var lo, hi := SaturatingSub(counter, t.skew), SaturatingAdd(counter, t.skew);
    probed := [];
    var i: int := lo;
    while i <= hi
      invariant lo <= i <= hi as int + 1
      invariant |probed| == i - lo
      invariant forall k :: 0 <= k < |probed| ==> probed[k] == lo + k
      invariant forall j: u64 :: lo <= j < i ==> Hotp.Verify(t.hotp, mac, code, j) == Ok(false)
    {
      probed := probed + [i];
      var verified := Hotp.Verify(t.hotp, mac, code, i);
      match verified
      case Err(e) =>
        AcceptsError(t, mac, code, timestamp, i);
        return Err(e), probed;
      case Ok(true) =>
        AcceptsHit(t, mac, code, timestamp, i);
        return Ok(true), probed;
      case Ok(false) =>
        i := i + 1;
    }
    AcceptsMiss(t, mac, code, timestamp);
    return Ok(false), probed;
  }

  lemma AcceptsError(t: Totp, mac: Hotp.Mac, code: string, timestamp: u64, i: u64)
    requires Usable(t) && WindowLow(t, timestamp) <= i
    requires Hotp.Verify(t.hotp, mac, code, i).Err?
    requires forall j: u64 :: WindowLow(t, timestamp) <= j < i ==> Hotp.Verify(t.hotp, mac, code, j) == Ok(false)
    ensures i == WindowLow(t, timestamp)
    ensures Accepts(t, mac, code, timestamp) == Hotp.Verify(t.hotp, mac, code, i)
  {
    assert Hotp.Verify(t.hotp, mac, code, WindowLow(t, timestamp)).Err?;
  }

  lemma AcceptsHit(t: Totp, mac: Hotp.Mac, code: string, timestamp: u64, i: u64)
    requires Usable(t) && WindowLow(t, timestamp) <= i <= WindowHigh(t, timestamp)
    requires Hotp.Verify(t.hotp, mac, code, i) == Ok(true)
    ensures Accepts(t, mac, code, timestamp) == Ok(true)
  {
  }

  lemma AcceptsMiss(t: Totp, mac: Hotp.Mac, code: string, timestamp: u64)
    requires Usable(t)
    requires forall j: u64 :: WindowLow(t, timestamp) <= j <= WindowHigh(t, timestamp) ==> Hotp.Verify(t.hotp, mac, code, j) == Ok(false)
    ensures Accepts(t, mac, code, timestamp) == Ok(false)
  {
    WindowBounds(t, timestamp);
    assert Hotp.Verify(t.hotp, mac, code, WindowLow(t, timestamp)) == Ok(false);
  }

  /** Accepted codes are exactly the codes generated at a counter of the window. */
  lemma AcceptsGenerated(t: Totp, mac: Hotp.Mac, code: string, timestamp: u64)
    requires Usable(t) && mac.acceptsKey(t.hotp.secret)
    ensures Accepts(t, mac, code, timestamp) == Ok(true)
        <==> exists i: u64 :: WindowLow(t, timestamp) <= i <= WindowHigh(t, timestamp)
                               && Hotp.Code(t.hotp, mac, i) == Ok(code)
  {
    forall i: u64 {
      Hotp.VerifyExact(t.hotp, mac, code, i);
    }
  }

  /** A code generated at `t0` is accepted at every `t1` whose counter is within `skew` steps. */
  lemma AcceptsNeighbour(t: Totp, mac: Hotp.Mac, t0: u64, t1: u64)
    requires Usable(t) && mac.acceptsKey(t.hotp.secret)
    requires -(t.skew as int) <= CalculateCounter(t, t0) as int - CalculateCounter(t, t1) as int <= t.skew as int
    ensures Hotp.Code(t.hotp, mac, CalculateCounter(t, t0)).Ok?
    ensures Accepts(t, mac, Hotp.Code(t.hotp, mac, CalculateCounter(t, t0)).value, t1) == Ok(true)
  {
    var c0 := CalculateCounter(t, t0);
    Hotp.VerifyGenerated(t.hotp, mac, c0);
    assert WindowLow(t, t1) <= c0 <= WindowHigh(t, t1);
  }

  /** With no skew only the current counter is tried, so verification is HOTP verification at that counter. */
  lemma NoSkewIsExact(t: Totp, mac: Hotp.Mac, code: string, timestamp: u64)
    requires Usable(t) && t.skew == 0
    ensures Accepts(t, mac, code, timestamp) == Hotp.Verify(t.hotp, mac, code, CalculateCounter(t, timestamp))
  {
    var c := CalculateCounter(t, timestamp);
    if mac.acceptsKey(t.hotp.secret) && Hotp.Verify(t.hotp, mac, code, c) == Ok(true) {
      assert WindowLow(t, timestamp) <= c <= WindowHigh(t, timestamp);
    }
  }
}
