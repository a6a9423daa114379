# OTP engine and replay store, modelled in Dafny

This project models the core of an OTP service written in Rust: the
counter-based engine (HOTP, RFC 4226), the time-based engine built on it
(TOTP, RFC 6238) and the Redis-backed replay store that records consumed
codes. It proves properties of that model.

- `error.dfy`: module `Error`. The `Result` type and the application error
  `AppError` (internal or validation).
- `numeric.dfy`: module `Numeric`. The `u64` and `byte` types, powers, the
  big-endian byte encoding with its inverse, and the zero-padded decimal
  rendering `Pad` with its inverse `Parse`. The division lemmas the proofs
  need live here too.
- `hotp.dfy`: module `Hotp`. `Hotp::new`, `generate` and `verify`. The
  counter is encoded as 8 big-endian bytes. HMAC-SHA1 is an abstract
  parameter `Mac`: it either accepts or rejects the secret as a key, and it
  maps (secret, message) to a 20-byte tag. Dynamic truncation follows
  section 5.3 of RFC 4226. Bytes are integers 0..255, so the model writes
  `& 0xf` as `% 0x10` and the masked shift/or word as a weighted sum of
  the four bytes. The lemmas `Hotp.LowNibble` and `Hotp.Word` prove these
  equal to the source's bit operations on 8- and 32-bit words. `Code` is the functional
  specification of `generate`. `Generate` is the source's loop, which
  prepends one digit per round, proved equal to `Code`.
- `totp.dfy`: module `Totp`. `Totp::new`, `with_skew`, `calculate_counter`,
  `generate_at` and `verify_at`. `VerifyAt` is the source's loop over the
  window from `saturating_sub(counter, skew)` to `saturating_add(counter,
  skew)` with early return. It is proved equal to `Accepts`: "some counter in
  the window verifies", or the HMAC error. A ghost output records which
  counters were tried.
- `storage.dfy`: module `Storage`. The retry loop of `RedisStore::new` runs
  against a given sequence of connect/PING outcomes and records the delays
  it would sleep. The Redis server is an object that maps keys to expiry
  instants. `RedisStore` has `mark_used` (SETEX) and `is_used` (EXISTS),
  both on the key `"otp:" + code`. Each request is given the outcome of
  its one connection.

Behaviour of the code that the model keeps:

- `verify` lower-cases the candidate before comparing.
  `Hotp.VerifyExact` proves that, because generated codes are all digits,
  verification still accepts exactly the generated code.
- Digit count 0 is accepted and yields the empty code.
- The replay key is `"otp:" + code` for every caller.
- The only store is the Redis-backed one.
- Bootstrap failure is fatal: construction returns an error.
- The failure message says "after 5 attempts", which is `max_retries`,
  but a failing bootstrap makes 6 attempts. The model keeps the reported
  number as `MaxRetries` (`Storage.Exhausted`).

## Model

| member | source | states |
|---|---|---|
| Hotp.New | src/otp/hotp.rs:17-26 | The generator keeps the given secret and digit count. The alphabet is always decimal. |
| Hotp.EncodeCounter | src/otp/hotp.rs:40 | The counter becomes exactly 8 bytes, and reading them big-endian gives the counter back. |
| Numeric.FromToBigEndian | src/otp/hotp.rs:40 | Decoding the big-endian encoding of any value below 256^n gives that value. |
| Numeric.ToFromBigEndian | src/otp/hotp.rs:40 | Encoding the decoded value of any byte string, at its own length, gives the same bytes. Together with FromToBigEndian, the encoding is a bijection. |
| Hotp.Offset | src/otp/hotp.rs:53 | The offset is the low four bits of the last tag byte, so it is at most 15 and offset + 3 < 20. Every truncation index is inside the SHA-1 tag. |
| Hotp.Truncate | src/otp/hotp.rs:53-59 | The truncated value is below 2^31. It equals the big-endian reading of the four bytes at the offset, with the first byte's top bit cleared. |
| Hotp.Masked31 | src/otp/hotp.rs:56-59 | The or of the shifted bytes, the first one masked with 0x7f, is below 2^31 and is their big-endian value. |
| Hotp.LowNibble | src/otp/hotp.rs:53 | `& 0xf` on a byte is its value mod 16, which is how Offset computes the offset. |
| Hotp.Word | src/otp/hotp.rs:56-59 | Shifting four bytes into a 32-bit word, the first masked with 0x7f, and or-ing them gives the weighted sum of their values that Masked31 computes. |
| Hotp.Code | src/otp/hotp.rs:38-73 | For digits ≤ 9: an error exactly when the MAC rejects the key (and then the HMAC internal error). Otherwise exactly `digits` characters, all decimal digits, whose value is the truncated tag of the encoded counter mod 10^digits. |
| Hotp.Generate | src/otp/hotp.rs:38-73 | The prepend-a-digit loop returns exactly Code: the most-significant-first, zero-padded rendering of binary mod 10^digits, or the HMAC error. |
| Numeric.PadShape | src/otp/hotp.rs:63-70 | The rendering to n digits has n characters, each in '0'..'9'. |
| Numeric.ParsePad | src/otp/hotp.rs:63-70 | Parsing the n-digit rendering of v gives v mod 10^n. |
| Numeric.PadParse | src/otp/hotp.rs:63-70 | Every decimal string is the rendering of its own value at its own length. So the rendering at a fixed length is a bijection onto digit strings. |
| Numeric.PadLow | src/otp/hotp.rs:63-70 | The rendering to m digits ignores multiples of 10^m, so only the low m digits are shown. |
| Hotp.Lower | src/otp/hotp.rs:78 | Lower-casing turns a character into a digit exactly when it already was one, and leaves digits unchanged. |
| Hotp.ToLowerDecimal | src/otp/hotp.rs:78 | The lower-cased string is decimal exactly when the string is, and lower-casing is the identity on decimal strings. |
| Hotp.Verify | src/otp/hotp.rs:76-79 | An error exactly when the MAC rejects the key: the error of generate is propagated. |
| Hotp.VerifyGenerated | src/otp/hotp.rs:76-79 | A generated code verifies at its own counter (the round trip checked by the test at src/otp/hotp.rs:125-126). |
| Hotp.VerifyExact | src/otp/hotp.rs:76-79 | Verify is Ok(true) iff generate returns exactly the candidate. It is Ok(false) iff generate succeeds with a different string. Both directions. |
| Hotp.CodeDependsOnlyOnTag | src/otp/hotp.rs:38-73 | The code depends only on whether the key is accepted and on the one tag of (secret, encoded counter). No other input is read. |
| Totp.New | src/otp/totp.rs:15-22 | A new generator wraps Hotp.New(secret, digits), keeps the step and tolerates a skew of 1. |
| Totp.WithSkew | src/otp/totp.rs:25-28 | Only the skew changes. The HOTP generator and the step are kept. |
| Totp.CalculateCounter | src/otp/totp.rs:39-41 | For a non-zero step, the counter c is the floor of timestamp / step: c·step ≤ timestamp < (c+1)·step. |
| Totp.WindowBounds | src/otp/totp.rs:67 | The window contains the counter. Its low bound is 0 when skew > counter, and its high bound is min(counter + skew, u64::MAX). It spans at most 2·skew + 1 counters. |
| Totp.GenerateAt | src/otp/totp.rs:51-54 | generate_at(t) is the HOTP code at counter t / step. |
| Totp.VerifyAt | src/otp/totp.rs:63-74 | The result is the HMAC error, or Ok(b) where b holds iff some counter in the saturated window verifies. Counters are tried in increasing order from the low bound, at most 2·skew + 1 of them. All but the last tried failed to match. An error is returned at the first counter and nothing later is tried. A true result stops at the first match. A false result tried the whole window. |
| Totp.AcceptsError | src/otp/totp.rs:68 | An HMAC error can only occur at the first counter of the window, and it is the result. |
| Totp.AcceptsHit | src/otp/totp.rs:68-70 | A counter in the window that verifies makes the result Ok(true). |
| Totp.AcceptsMiss | src/otp/totp.rs:67-73 | If no counter in the window verifies, the result is Ok(false). |
| Totp.AcceptsGenerated | src/otp/totp.rs:63-74 | When the key is accepted, a candidate is accepted iff it is exactly the code generated at some counter in the window. Both directions. |
| Totp.AcceptsNeighbour | src/otp/totp.rs:63-74 | A code generated at t0 is accepted at every t1 whose counter is within skew steps of t0's (the case of the test at src/otp/totp.rs:122-124). |
| Totp.NoSkewIsExact | src/otp/totp.rs:67 | With skew 0, verify_at is HOTP verify at the current counter, so only the current step's code is accepted (the case of the test at src/otp/totp.rs:127-129). |
| Storage.BackoffClosedForm | src/storage.rs:46-93 | The delay after failed attempt k is min(1000·2^k, 30000) ms. |
| Storage.BackoffMonotone | src/storage.rs:93 | Delays never decrease and never exceed 30000 ms. |
| Storage.BackoffSchedule | src/storage.rs:46-93 | The delays are 1000, 2000, 4000, 8000 and 16000 ms. The cap is never reached within the retry budget. |
| Storage.Exhausted | src/storage.rs:65-81 | A final failure is reported as a connect or a ping failure, matching how the last attempt failed (connect exactly when the connection failed). The count in the message is max_retries, and the last failure's reason is carried. |
| Storage.Bootstrap | src/storage.rs:44-94 | 1 to 6 attempts are made. Every attempt before the last failed. The result is Ok iff the last attempt connected and answered PING, and that happens iff some attempt among the first 6 succeeds. An error means all 6 failed, and it carries the last failure. The delay after failed attempt k is Backoff(k). There is one delay fewer than attempts, so nothing is slept after the final failure. |
| Storage.Open | src/storage.rs:38-95 | A malformed URL fails before any attempt. Otherwise the bootstrap decides the result. A store is returned only after a successful PING, as a new handle on the given server. |
| Storage.Key | src/storage.rs:109 | The key is "otp:" followed by the code. |
| Storage.KeyInjective | src/storage.rs:109-127 | Two codes share a key iff they are equal. |
| Storage.RedisServer.SetEx | src/storage.rs:108-114 | SETEX with a TTL in 1..i64::MAX/1000 sets the key's expiry to now + TTL. Any other TTL is refused and nothing changes. A TTL above i64::MAX is not an integer to Redis. Zero, or a TTL whose milliseconds overflow, is an invalid expiry. |
| Storage.RedisStore.MarkUsed | src/storage.rs:100-117 | One connection and no retry. A refused or broken connection is an error with the source's message, and the server is unchanged. Otherwise "otp:" + code expires after the given TTL, or, for a TTL the server refuses, the server's refusal is returned with the source's prefix. |
| Storage.RedisStore.IsUsed | src/storage.rs:119-132 | One connection and no retry. Connection failures are errors with the source's messages. Otherwise the result is whether "otp:" + code is live on the server now. |
| Storage.LiveUntilExpiry | src/storage.rs:11-15 | After marking a code with TTL ttl at time m, its key is live at every later instant before m + ttl, and not from m + ttl on. |
| Storage.MarkIsolated | src/storage.rs:11-15 | Marking one code does not change whether any other code is live. |
| Storage.MarkThenCheck | src/storage.rs:11-15 | The trait's contract through the store's own requests, for every TTL Redis accepts. Marking succeeds, and marking again succeeds. is_used is then true exactly until ttl seconds have elapsed. |

## Left out

- HMAC-SHA1 (the `hmac` and `sha1` crates) is not implemented. It is the abstract `Hotp.Mac` parameter. So the RFC 4226 and RFC 6238 test vectors in the source's tests cannot be checked. Neither can the negative tests that depend on actual codes differing (hotp.rs:127, totp.rs:119, totp.rs:129). The key-initialisation failure is an abstract outcome that depends only on the secret.
- Hotp.Code and Hotp.Generate require digits ≤ 9. For 10 or more digits, `u32::pow` overflows: it panics in debug builds and wraps in release builds. Neither behaviour is modelled.
- Totp.CalculateCounter, Totp.GenerateAt and Totp.VerifyAt require a non-zero time step, and Totp.GenerateAt and Totp.VerifyAt also require digits ≤ 9 (through `Totp.Usable`, for the reason given for Hotp.Code). In the source, a zero step makes `timestamp / time_step` panic with a division by zero. `Totp::new` accepts 0, and the step comes unchecked from configuration. The panic is not modelled.
- Hotp.KeyRejected, Storage.NotAnInteger and Storage.InvalidExpire are placeholder texts. The source prints the MAC crate's key error and the Redis client's rendering of the server's reply, and neither wording is part of this model. `Hmac<Sha1>` accepts keys of any length, so with the real MAC the key-rejected path is never taken. The model keeps that path because the source handles it.
- Storage.RedisServer.SetEx: Redis also refuses a TTL whose expiry instant in milliseconds, now plus TTL, overflows a signed 64-bit integer. That check depends on the server's millisecond clock and is not modelled. Only the bound on the TTL itself is.
- Hotp.Lower lower-cases ASCII letters only. Rust's `to_lowercase` is full Unicode. No Unicode lower-casing produces an ASCII digit, so the accepted codes are the same.
- The custom-alphabet constructor is commented out in the source. The alphabet is the constant "0123456789" rather than a field.
- The wall-clock variants (`current_timestamp`, `Totp::generate`, `Totp::verify`) are not modelled. Only the `_at` variants exist, with the timestamp as a parameter.
- The `Debug` implementations are formatting only.
- Totp.VerifyAt: the loop variable is an unbounded integer. Rust's inclusive range reaches u64::MAX without overflowing, and the model tries the same counters.
- Calls into Redis, async/await, `tokio::time::sleep` and logging are not performed. The outcomes are inputs (`Attempt`, `Link`, `ClientOpen`), the sleeps are recorded in `sleptMs`, and the Redis clock is the `now` parameter.
- Storage.RedisStore.MarkUsed: a reply lost after the server applied SETEX is not modelled. `Broken` means the command did not reach the server.
- Redis's own expiry mechanics, concurrency between requests, and atomicity of SETEX across clients are not modelled. Keys are live while `now` is before their expiry instant.
- The `OtpStore` trait and the `OtpStorage` factory are not modelled as such (traits are not used). RedisStore is the only implementation, and its two requests carry the trait's contract.
- The handler layer, configuration, error mapping to HTTP, `main` and routing are not modelled: src/server/handlers.rs is not part of this model.
