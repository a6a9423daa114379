/**
 * The replay store: a record of consumed one-time codes, each expiring
 * after a time-to-live, kept in Redis under the key "otp:" + code.
 *
 * The Redis server is modelled as an object holding each key's absolute
 * expiry instant. The network is an input: the outcome of each bootstrap
 * attempt, and of each request's connection, is given to the operation
 * instead of being observed; sleeping is recorded rather than performed.
 */
module Storage {
  import opened Error
  import opened Numeric

  // ---------------------------------------------------------------------
  // Construction: connect with retry and capped exponential backoff
  // ---------------------------------------------------------------------

  /** Retries after the first attempt; the bootstrap makes at most `MaxRetries + 1` attempts. */
  const MaxRetries: nat := 5
  /** The delay after the first failed attempt, in milliseconds. */
  const InitialBackoffMs: nat := 1000
  /** No delay exceeds this, in milliseconds. */
  const BackoffCapMs: nat := 30000

  /** The outcome of one bootstrap attempt: opening a connection, then a PING on it. */
  datatype Attempt = ConnectFailed(reason: string) | PingFailed(reason: string) | Connected

  /**
   * Why construction failed. `reported` is the attempt count written into
   * the message ("... after 5 attempts: ..."), which is `MaxRetries`.
   */
  datatype BootError =
    | InvalidUrl(reason: string)
    | ConnectExhausted(reported: nat, reason: string)
    | PingExhausted(reported: nat, reason: string)

  /** Parsing the server URL when the client is created. */
  datatype ClientOpen = Opened | Malformed(reason: string)

  function Min(a: nat, b: nat): nat {
    if a <= b then a else b
  }

  /** The delay slept after failed attempt `k` (counted from 0): doubled each time, capped. */
  function Backoff(k: nat): (ms: nat)
  {
    if k == 0 then InitialBackoffMs else Min(Backoff(k - 1) * 2, BackoffCapMs)
  }

  /** The delay after failed attempt `k` is the initial delay doubled `k` times, up to the cap. */
  lemma {:induction false} BackoffClosedForm(k: nat)
    ensures Backoff(k) == Min(InitialBackoffMs * Pow(2, k), BackoffCapMs)
  {
    if k > 0 {
      BackoffClosedForm(k - 1);
      assert InitialBackoffMs * Pow(2, k) == InitialBackoffMs * Pow(2, k - 1) * 2;
    }
  }

  /** Delays never decrease and never exceed the cap. */
  lemma {:induction false} BackoffMonotone(j: nat, k: nat)
    requires j <= k
    ensures Backoff(j) <= Backoff(k) <= BackoffCapMs
  {
    if j < k {
      BackoffMonotone(j, k - 1);
    }
  }

  /** The delays a full run of failures sleeps: 1, 2, 4, 8 and 16 seconds; the cap is never reached. */
  lemma BackoffSchedule()
    ensures Backoff(0) == 1000 && Backoff(1) == 2000 && Backoff(2) == 4000
    ensures Backoff(3) == 8000 && Backoff(4) == 16000
    ensures Backoff(MaxRetries - 1) < BackoffCapMs
  {
  }

  /** The message of a construction failure after the last attempt, by how that attempt failed. */
  function Exhausted(a: Attempt): (e: BootError)
    requires !a.Connected?
    ensures e.ConnectExhausted? || e.PingExhausted?
    ensures e.ConnectExhausted? <==> a.ConnectFailed?
    ensures e.reported == MaxRetries && e.reason == a.reason
  {
    match a
    case ConnectFailed(reason) => ConnectExhausted(MaxRetries, reason)
    case PingFailed(reason) => PingExhausted(MaxRetries, reason)
  }

  /**
   * The retry loop of `RedisStore::new`. `attempt(k)` is the outcome of
   * attempt `k`; `attempts` is how many were made and `sleptMs` the delays
   * slept between them.
   */
  method Bootstrap(attempt: nat -> Attempt) returns (r: Result<(), BootError>, attempts: nat, sleptMs: seq<nat>)
    ensures 1 <= attempts <= MaxRetries + 1
    ensures forall k :: 0 <= k < attempts - 1 ==> !attempt(k).Connected?
    ensures r.Ok? <==> attempt(attempts - 1).Connected?
    ensures r.Ok? <==> exists k :: 0 <= k <= MaxRetries && attempt(k).Connected?
    ensures r.Err? ==> attempts == MaxRetries + 1 && r.error == Exhausted(attempt(MaxRetries))
    ensures |sleptMs| == attempts - 1
    ensures forall k :: 0 <= k < |sleptMs| ==> sleptMs[k] == Backoff(k)
  {
    var retryCount: nat := 0;
    var backoffMs: nat := InitialBackoffMs;
    sleptMs := [];
    while true
      invariant retryCount <= MaxRetries
      invariant |sleptMs| == retryCount
      invariant forall k :: 0 <= k < retryCount ==> sleptMs[k] == Backoff(k) && !attempt(k).Connected?
      invariant backoffMs == Backoff(retryCount)
      decreases MaxRetries - retryCount
    {
      var outcome := attempt(retryCount);
      if outcome.Connected? {
        return Ok(()), retryCount + 1, sleptMs;
      }
      if retryCount >= MaxRetries {
        return Err(Exhausted(outcome)), retryCount + 1, sleptMs;
      }
      retryCount := retryCount + 1;
      sleptMs := sleptMs + [backoffMs];
      backoffMs := Min(backoffMs * 2, BackoffCapMs);
    }
  }

  // ---------------------------------------------------------------------
  // The Redis server and the store's two requests
  // ---------------------------------------------------------------------

  /** The namespace of replay records in Redis. */
  const KeyPrefix: string := "otp:"

  /** The Redis key recording that `otp` was used. */
  function Key(otp: string): (k: string)
    ensures |k| == |KeyPrefix| + |otp|
    ensures k[..|KeyPrefix|] == KeyPrefix && k[|KeyPrefix|..] == otp
  {
    KeyPrefix + otp
  }

  /** Distinct codes never share a key. */
  lemma KeyInjective(a: string, b: string)
    ensures Key(a) == Key(b) <==> a == b
  {
    if Key(a) == Key(b) {
      assert a == Key(a)[|KeyPrefix|..];
    }
  }

  /** The largest signed 64-bit integer: Redis reads every integer argument as one. */
  const I64Max: int := 0x7fff_ffff_ffff_ffff

  /**
   * The largest TTL in seconds SETEX takes: the expiry in milliseconds
   * must fit a signed 64-bit integer, so the TTL may be at most
   * `I64Max / 1000`.
   */
  const MaxExpireSeconds: int := I64Max / 1000

  /**
   * The rendering of the server's refusals. The client library's exact
   * wording is not part of this model: these texts are placeholders that
   * keep the two refusals apart.
   */
  const NotAnInteger: string := "value is not an integer or out of range"
  const InvalidExpire: string := "invalid expire time in 'setex' command"

  /** A TTL SETEX accepts: positive and at most `MaxExpireSeconds`. */
  predicate ValidExpire(seconds: u64) {
    0 < seconds <= MaxExpireSeconds
  }

  /**
   * Why SETEX refuses a TTL: one above `I64Max` is not an integer to
   * Redis; any other outside the valid range is an invalid expiry.
   */
  function Refusal(seconds: u64): string {
    if seconds > I64Max then NotAnInteger else InvalidExpire
  }

  const ConnectFailure: string := "Failed to connect to Redis: "
  const SetFailure: string := "Failed to set OTP in Redis: "
  const CheckFailure: string := "Failed to check OTP in Redis: "

  /** A key is live at `now` while its expiry instant lies ahead. */
  predicate Live(expiry: map<string, int>, key: string, now: int) {
    key in expiry && now < expiry[key]
  }

  /** The Redis instance: the absolute expiry instant, in seconds, of every key set with a TTL. */
  class RedisServer {
    var expiry: map<string, int>

    constructor ()
      ensures expiry == map[]
    {
      expiry := map[];
    }

    /** EXISTS: whether `key` is live at `now`. */
    predicate Exists(key: string, now: int)
      reads this
    {
      Live(expiry, key, now)
    }

    /**
     * SETEX: set `key` to expire `seconds` from `now`; a TTL of zero, or
     * one too large for Redis's millisecond clock, is refused.
     */
    method SetEx(key: string, seconds: u64, now: int) returns (r: Result<(), string>)
      modifies this
      ensures !ValidExpire(seconds) ==> r == Err(Refusal(seconds)) && expiry == old(expiry)
      ensures ValidExpire(seconds) ==> r == Ok(()) && expiry == old(expiry)[key := now + seconds]
    {
      if seconds > I64Max {
        return Err(NotAnInteger);
      }
      if seconds == 0 || seconds > MaxExpireSeconds {
        return Err(InvalidExpire);
      }
      expiry := expiry[key := now + seconds];
      return Ok(());
    }
  }

  /**
   * The connection a single request obtains: usable, refused when opened,
   * or broken before the command reached the server.
   */
  datatype Link = Up | Refused(reason: string) | Broken(reason: string)

  /** `RedisStore`: a client handle on one Redis server. */
  class RedisStore {
    const server: RedisServer

    constructor (server: RedisServer)
      ensures this.server == server
    {
      this.server := server;
    }

    /** `mark_used`: SETEX "otp:" + otp to expire after `expirySeconds`, on one connection, without retry. */
    method MarkUsed(otp: string, expirySeconds: u64, link: Link, now: int) returns (r: Result<(), string>)
      modifies server
      ensures link.Refused? ==> r == Err(ConnectFailure + link.reason) && server.expiry == old(server.expiry)
      ensures link.Broken? ==> r == Err(SetFailure + link.reason) && server.expiry == old(server.expiry)
      ensures link.Up? && !ValidExpire(expirySeconds) ==>
        r == Err(SetFailure + Refusal(expirySeconds)) && server.expiry == old(server.expiry)
      ensures link.Up? && ValidExpire(expirySeconds) ==>
        r == Ok(()) && server.expiry == old(server.expiry)[Key(otp) := now + expirySeconds]
    {
      match link
      case Refused(reason) =>
        return Err(ConnectFailure + reason);
      case Broken(reason) =>
        return Err(SetFailure + reason);
      case Up =>
        var reply := server.SetEx(Key(otp), expirySeconds, now);
        match reply
        case Err(reason) =>
          return Err(SetFailure + reason);
        case Ok(_) =>
          return Ok(());
    }

    /** `is_used`: EXISTS "otp:" + otp, on one connection, without retry. */
    method IsUsed(otp: string, link: Link, now: int) returns (r: Result<bool, string>)
      ensures link.Refused? ==> r == Err(ConnectFailure + link.reason)
      ensures link.Broken? ==> r == Err(CheckFailure + link.reason)
      ensures link.Up? ==> r == Ok(server.Exists(Key(otp), now))
    {
      match link
      case Refused(reason) =>
        return Err(ConnectFailure + reason);
      case Broken(reason) =>
        return Err(CheckFailure + reason);
      case Up =>
        return Ok(server.Exists(Key(otp), now));
    }
  }

  /**
   * `RedisStore::new`: create the client from the URL, then run the
   * bootstrap against the server; the store exists only once a PING has
   * been answered.
   */
  method Open(url: ClientOpen, attempt: nat -> Attempt, server: RedisServer)
    returns (r: Result<RedisStore, BootError>, attempts: nat, sleptMs: seq<nat>)
    ensures url.Malformed? ==> r == Err(InvalidUrl(url.reason)) && attempts == 0 && sleptMs == []
    ensures url.Opened? ==> 1 <= attempts <= MaxRetries + 1 && |sleptMs| == attempts - 1
    ensures url.Opened? ==> (r.Ok? <==> exists k :: 0 <= k <= MaxRetries && attempt(k).Connected?)
    ensures url.Opened? && r.Err? ==> r.error == Exhausted(attempt(MaxRetries))
    ensures r.Ok? ==> fresh(r.value) && r.value.server == server
  {
    if url.Malformed? {
      return Err(InvalidUrl(url.reason)), 0, [];
    }
    var boot;
    boot, attempts, sleptMs := Bootstrap(attempt);
    match boot
    case Err(e) =>
      r := Err(e);
    case Ok(_) =>
      var store := new RedisStore(server);
      r := Ok(store);
  }

  // ---------------------------------------------------------------------
  // The replay-store contract
  // ---------------------------------------------------------------------

  /** Marking a key keeps it live at every instant before its TTL has elapsed, and not after. */
  lemma LiveUntilExpiry(expiry: map<string, int>, otp: string, ttl: u64, markedAt: int, later: int)
    requires ttl > 0 && markedAt <= later
    ensures Live(expiry[Key(otp) := markedAt + ttl], Key(otp), later) <==> later < markedAt + ttl
  {
  }

  /** Marking one code leaves every other code's record as it was. */
  lemma MarkIsolated(expiry: map<string, int>, otp: string, other: string, ttl: u64, markedAt: int, now: int)
    requires other != otp
    ensures Live(expiry[Key(otp) := markedAt + ttl], Key(other), now) == Live(expiry, Key(other), now)
  {
    KeyInjective(otp, other);
  }

  /**
   * The store's contract through its two requests, for a TTL Redis
   * accepts: after a successful `mark_used(otp, ttl)`, `is_used(otp)` reports true until `ttl` seconds
   * have elapsed and false afterwards; marking again succeeds as well.
   */
  method MarkThenCheck(store: RedisStore, otp: string, ttl: u64, markedAt: int, checkedAt: int)
    returns (marked: Result<(), string>, again: Result<(), string>, used: Result<bool, string>)
    requires ValidExpire(ttl) && markedAt <= checkedAt
    modifies store.server
    ensures marked == Ok(()) && again == Ok(())
    ensures used == Ok(checkedAt < markedAt + ttl)
  {
    marked := store.MarkUsed(otp, ttl, Up, markedAt);
    again := store.MarkUsed(otp, ttl, Up, markedAt);
    used := store.IsUsed(otp, Up, checkedAt);
    LiveUntilExpiry(old(store.server.expiry), otp, ttl, markedAt, checkedAt);
  }
}
