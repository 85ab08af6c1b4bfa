/** The `useSecureTransaction` hook: the browser side of a coin transaction.
    It refuses to send without a signed-in user or when the local limiter
    says no, then builds the request body the server gate checks: a fresh
    nonce, the current time, the hash over both, and the coupon code
    encrypted under a one-off key that travels with it.  The toasts, the
    loading flag and the handling of the server's reply are left out. */
module Client {
  import opened Common
  import Crypto
  import Hex
  import Gate
  import Ledger
  import Backend

  datatype Kind = Earn | Redeem

  /** The `type` field as sent. */
  function KindName(k: Kind): (name: string)
    ensures name == "earn" || name == "redeem"
    ensures name == "earn" <==> k == Earn
  {
    match k
    case Earn => "earn"
    case Redeem => "redeem"
  }

  datatype Params = Params(amount: int, kind: Kind, description: string, couponCode: Option<string>)

  datatype User = User(id: string)

  /** Everything ambient one call reads: the signed-in user, local storage, the two
      `Date.now()` readings, the random bytes and whether a session exists. */
  datatype Env = Env(
    user: Option<User>,
    storage: Crypto.Storage,
    limiterNow: int,
    timestamp: int,
    nonceBytes: seq<uint8>,
    keyBytes: seq<uint8>,
    ivBytes: seq<uint8>,
    hasSession: bool)

  /** Environments the browser can produce: right-sized random arrays. */
  predicate WellFormedEnv(env: Env) {
    |env.nonceBytes| == Crypto.NonceBytes && |env.keyBytes| == Crypto.KeyBytes && |env.ivBytes| == Crypto.IvBytes
  }

  datatype Outcome =
    | InvalidCoupon
    | NotSignedIn
    | RateLimited
    | EncryptionFailed
    | NoSession
    | Sent(request: Gate.Request)

  datatype Prepared = Prepared(storage: Crypto.Storage, outcome: Outcome)

  const RateOperation := "transaction"
  const RateMaxAttempts := 10
  const RateWindowMs := 60000

  /** `${encryptedData}:${iv}:${keyString}`: the coupon payload sent to the server. */
  function CouponPayload(e: Crypto.Encrypted, key: Crypto.AesKey): string {
    e.encryptedData + ":" + e.iv + ":" + Crypto.ExportKey(key)
  }

  /** The request body; `couponCode` is what the hook put in that field. */
  function BuildRequest(env: Env, userId: string, params: Params, couponCode: Option<string>, sha: Crypto.Sha256): (req: Gate.Request)
    requires WellFormedEnv(env)
    ensures Crypto.VerifyTransactionHash(sha, req.userId, req.amount, req.nonce, req.timestamp, req.hash)
    ensures req.userId == userId && req.amount == params.amount && req.timestamp == env.timestamp
    ensures |req.nonce| == 64 && Hex.Decode(req.nonce) == env.nonceBytes
    ensures forall i :: 0 <= i < |req.nonce| ==> Hex.IsLowerHexDigit(req.nonce[i])
  {
    var nonce := Crypto.GenerateTransactionNonce(env.nonceBytes);
    var hash := Crypto.CreateTransactionHash(sha, userId, params.amount, nonce, env.timestamp);
    Gate.Request(userId, params.amount, KindName(params.kind), params.description, nonce, env.timestamp, hash, couponCode)
  }

  /** The hook's one limiter call: 10 "transaction" attempts per minute. */
  function Limiter(env: Env): Crypto.RateDecision {
    Crypto.CheckRateLimit(env.storage, RateOperation, RateMaxAttempts, RateWindowMs, env.limiterNow)
  }

  /** The coupon is to be encrypted (it is present and not empty) and the cipher fails. */
  predicate SealFails(env: Env, params: Params, seal: Crypto.Seal)
    requires WellFormedEnv(env)
  {
    && params.couponCode.Some? && params.couponCode.value != ""
    && seal(params.couponCode.value, Crypto.GenerateEncryptionKey(env.keyBytes), env.ivBytes).None?
  }

  /** `processSecureTransaction` up to the `invoke` call. */
  function ProcessSecureTransaction(env: Env, params: Params, sha: Crypto.Sha256, seal: Crypto.Seal): (r: Prepared)
    requires WellFormedEnv(env)
    ensures env.user.None? <==> r.outcome == NotSignedIn
    ensures env.user.None? ==> r.storage == env.storage
    ensures env.user.Some? ==>
      && (!Limiter(env).allowed <==> r.outcome == RateLimited)
      && r.storage == Limiter(env).storage
    // Sent exactly when the user, the limiter, the cipher and the session all permit it.
    ensures r.outcome.Sent? <==>
      env.user.Some? && Limiter(env).allowed && !SealFails(env, params, seal) && env.hasSession
    ensures r.outcome == NoSession <==>
      env.user.Some? && Limiter(env).allowed && !SealFails(env, params, seal) && !env.hasSession
    ensures r.outcome.Sent? ==>
      var req := r.outcome.request;
      && env.user.Some? && env.hasSession
      && req.userId == env.user.value.id
      && req.amount == params.amount
      && req.kind == KindName(params.kind)
      && req.description == params.description
      && req.timestamp == env.timestamp
      && req.nonce == Crypto.GenerateTransactionNonce(env.nonceBytes)
      && Crypto.VerifyTransactionHash(sha, req.userId, req.amount, req.nonce, req.timestamp, req.hash)
    ensures r.outcome.Sent? && (params.couponCode.None? || params.couponCode == Some("")) ==>
      r.outcome.request.couponCode == params.couponCode
    ensures r.outcome.Sent? && params.couponCode.Some? && params.couponCode.value != "" ==>
      var key := Crypto.GenerateEncryptionKey(env.keyBytes);
      var e := Crypto.EncryptCouponCode(seal, params.couponCode.value, key, env.ivBytes);
      e.Some? && r.outcome.request.couponCode == Some(CouponPayload(e.value, key))
    ensures r.outcome == EncryptionFailed <==>
      env.user.Some? && Limiter(env).allowed && SealFails(env, params, seal)
  {
    match env.user
    case None => Prepared(env.storage, NotSignedIn)
    case Some(user) =>
      var limit := Limiter(env);
      if !limit.allowed then Prepared(env.storage, RateLimited)
      else
        var coupon: Option<Option<string>> :=
          if params.couponCode.Some? && params.couponCode.value != "" then
            var key := Crypto.GenerateEncryptionKey(env.keyBytes);
            match Crypto.EncryptCouponCode(seal, params.couponCode.value, key, env.ivBytes)
            case None => None
            case Some(e) => Some(Some(CouponPayload(e, key)))
          else Some(params.couponCode);
        if coupon.None? then Prepared(limit.storage, EncryptionFailed)
        else if !env.hasSession then Prepared(limit.storage, NoSession)
        else Prepared(limit.storage, Sent(BuildRequest(env, user.id, params, coupon.value, sha)))
  }

  // ---------------------------------------------------------------------------
  // Coupons and rewards

  const MinCouponLength := 8
  const MaxCouponLength := 16

  /** `/^[A-Z0-9]{8,16}$/.test(code)`. */
  predicate IsValidCouponCode(code: string) {
    MinCouponLength <= |code| <= MaxCouponLength && forall i :: 0 <= i < |code| ==> Crypto.IsCouponChar(code[i])
  }

  /** `code.split('').reduce((acc, c) => acc + c.charCodeAt(0), 0)`. */
  function CharSum(code: string): (n: int)
    ensures n >= 0
  {
    if |code| == 0 then 0 else CharSum(code[..|code| - 1]) + code[|code| - 1] as int
  }

  /** `calculateCouponValue`: a value from 10 to 100 derived from the characters. */
  function CalculateCouponValue(code: string): (points: int)
    ensures 10 <= points <= 100
  {
    CharSum(code) % 91 + 10
  }

  /** `redeemCoupon`: format check, then an "earn" of the coupon's value. */
  function RedeemCoupon(env: Env, code: string, description: string, sha: Crypto.Sha256, seal: Crypto.Seal): (r: Prepared)
    requires WellFormedEnv(env)
    ensures !IsValidCouponCode(code) <==> r.outcome == InvalidCoupon
    ensures !IsValidCouponCode(code) ==> r.storage == env.storage
    ensures IsValidCouponCode(code) ==>
      && (env.user.None? <==> r.outcome == NotSignedIn)
      && r.storage == (if env.user.Some? then Limiter(env).storage else env.storage)
      && (r.outcome == RateLimited <==> env.user.Some? && !Limiter(env).allowed)
    // A well-formed code is sent exactly when the user, the limiter, the cipher and the session permit it.
    ensures r.outcome.Sent? <==>
      && IsValidCouponCode(code) && env.user.Some? && Limiter(env).allowed && env.hasSession
      && seal(code, Crypto.GenerateEncryptionKey(env.keyBytes), env.ivBytes).Some?
    ensures r.outcome.Sent? ==>
      && r.outcome.request.kind == "earn"
      && r.outcome.request.amount == CalculateCouponValue(code)
      && 10 <= r.outcome.request.amount <= 100
      && r.outcome.request.description == description + " - Coupon: " + code
    ensures r.outcome.Sent? ==>
      var key := Crypto.GenerateEncryptionKey(env.keyBytes);
      var e := Crypto.EncryptCouponCode(seal, code, key, env.ivBytes);
      e.Some? && r.outcome.request.couponCode == Some(CouponPayload(e.value, key))
  {
    if !IsValidCouponCode(code) then Prepared(env.storage, InvalidCoupon)
    else
      var params := Params(CalculateCouponValue(code), Earn, description + " - Coupon: " + code, Some(code));
      ProcessSecureTransaction(env, params, sha, seal)
  }

  /** `redeemReward`: a "redeem" of the reward's cost, without coupon. */
  function RedeemReward(env: Env, rewardId: string, cost: int, description: string, sha: Crypto.Sha256, seal: Crypto.Seal): (r: Prepared)
    requires WellFormedEnv(env)
    ensures r.outcome != InvalidCoupon && r.outcome != EncryptionFailed
    ensures env.user.None? <==> r.outcome == NotSignedIn
    ensures r.storage == (if env.user.Some? then Limiter(env).storage else env.storage)
    ensures r.outcome == RateLimited <==> env.user.Some? && !Limiter(env).allowed
    // Without a coupon nothing is encrypted, so only the user, the limiter and the session decide.
    ensures r.outcome.Sent? <==> env.user.Some? && Limiter(env).allowed && env.hasSession
    ensures r.outcome.Sent? ==>
      && r.outcome.request.kind == "redeem"
      && r.outcome.request.amount == cost
      && r.outcome.request.description == "Redeemed: " + description
      && r.outcome.request.couponCode.None?
  {
    ProcessSecureTransaction(env, Params(cost, Redeem, "Redeemed: " + description, None), sha, seal)
  }

  // ---------------------------------------------------------------------------
  // Properties

  /** The coupon value depends only on which characters occur, not on their order. */
  lemma {:induction false} CouponValueIgnoresOrder(a: string, b: string)
    requires multiset(a) == multiset(b)
    ensures CalculateCouponValue(a) == CalculateCouponValue(b)
  {
    CharSumPermutation(a, b);
  }

  lemma {:induction false} CharSumAppend(a: string, b: string)
    ensures CharSum(a + b) == CharSum(a) + CharSum(b)
    decreases |b|
  {
    if |b| == 0 {
      assert a + b == a;
    } else {
      assert (a + b)[..|a + b| - 1] == a + b[..|b| - 1];
      CharSumAppend(a, b[..|b| - 1]);
    }
  }

  lemma {:induction false} CharSumPermutation(a: string, b: string)
    requires multiset(a) == multiset(b)
    ensures CharSum(a) == CharSum(b)
    decreases |a|
  {
    if |a| > 0 {
      var x := a[|a| - 1];
      var a' := a[..|a| - 1];
      assert a == a' + [x];
      assert multiset(a) == multiset(a') + multiset{x};
      assert x in multiset(b);
      var j :| 0 <= j < |b| && b[j] == x;
      var b' := b[..j] + b[j + 1..];
      assert b == b[..j] + [x] + b[j + 1..];
      assert multiset(b) == multiset(b[..j]) + multiset{x} + multiset(b[j + 1..]);
      assert multiset(b') == multiset(b[..j]) + multiset(b[j + 1..]);
      assert multiset(a') == multiset(a) - multiset{x};
      assert multiset(b') == multiset(b) - multiset{x};
      CharSumPermutation(a', b');
      CharSumAppend(b[..j] + [x], b[j + 1..]);
      CharSumAppend(b[..j], [x]);
      CharSumAppend(b[..j], b[j + 1..]);
      assert CharSum([x]) == x as int by {
        assert [x][..0] == [];
      }
    }
  }

  /** Codes from `generateSecureCouponCode` of length 8 to 16 (the default is 12)
      pass the hook's format check. */
  lemma GeneratedCouponsAreValid(random: seq<uint8>)
    requires MinCouponLength <= |random| <= MaxCouponLength
    ensures IsValidCouponCode(Crypto.GenerateSecureCouponCode(random))
  {
  }

  /** The format check accepts exactly the codes `generateSecureCouponCode` can
      produce with 8 to 16 random bytes. */
  lemma ValidIffGenerated(code: string)
    ensures IsValidCouponCode(code) <==>
      exists random: seq<uint8> :: MinCouponLength <= |random| <= MaxCouponLength && Crypto.GenerateSecureCouponCode(random) == code
  {
    if IsValidCouponCode(code) {
      var random := seq(|code|, i requires 0 <= i < |code| => Crypto.CouponIndex(code[i]));
      Crypto.EveryCouponCodeIsGenerated(code);
      assert Crypto.GenerateSecureCouponCode(random) == code;
    }
    if exists random: seq<uint8> :: MinCouponLength <= |random| <= MaxCouponLength && Crypto.GenerateSecureCouponCode(random) == code {
      var random: seq<uint8> :| MinCouponLength <= |random| <= MaxCouponLength && Crypto.GenerateSecureCouponCode(random) == code;
      GeneratedCouponsAreValid(random);
    }
  }

  /** The body the hook sends passes the server's identity, hash and freshness
      checks whenever the server authenticates the same user and receives it
      within five minutes; any rejection is for a later check. */
  lemma SentRequestPassesServerChecks(env: Env, params: Params, sha: Crypto.Sha256, seal: Crypto.Seal,
                                      s: Backend.Store, serverNow: int, faults: Gate.Faults)
    requires WellFormedEnv(env)
    ensures var o := ProcessSecureTransaction(env, params, sha, seal).outcome;
            o.Sent? && Gate.IsFresh(env.timestamp, serverNow) ==>
              var r := Gate.Step(s, Some(env.user.value.id), serverNow, o.request, faults, sha);
              r.outcome.Rejected? ==> Gate.Rank(r.outcome.reason) > Gate.Rank(Gate.StaleTimestamp) || r.outcome.reason == Gate.NonceReplayed
  {
    var o := ProcessSecureTransaction(env, params, sha, seal).outcome;
    if o.Sent? && Gate.IsFresh(env.timestamp, serverNow) {
      var req := o.request;
      var auth := Some(env.user.value.id);
      assert Gate.Passes(Gate.Unauthenticated, s, auth, serverNow, req, faults, sha);
      assert Gate.Passes(Gate.Unauthorized, s, auth, serverNow, req, faults, sha);
      assert Gate.Passes(Gate.HashMismatch, s, auth, serverNow, req, faults, sha);
      assert Gate.Passes(Gate.StaleTimestamp, s, auth, serverNow, req, faults, sha);
    }
  }

  /** The hook only sends "earn" and "redeem", for which the corrected handler and
      the deployed one agree. */
  lemma SentRequestsUnaffectedByDebitCheck(env: Env, params: Params, sha: Crypto.Sha256, seal: Crypto.Seal,
                                           s: Backend.Store, auth: Option<string>, serverNow: int, faults: Gate.Faults)
    requires WellFormedEnv(env)
    ensures var o := ProcessSecureTransaction(env, params, sha, seal).outcome;
            o.Sent? ==> Ledger.CheckedStep(s, auth, serverNow, o.request, faults, sha) == Gate.Step(s, auth, serverNow, o.request, faults, sha)
  {
  }

  /** The coupon payload ends with the hex of the key that encrypted it, so anyone
      holding the payload can import the key. */
  lemma CouponPayloadCarriesKey(e: Crypto.Encrypted, key: Crypto.AesKey)
    requires |key.raw| == Crypto.KeyBytes
    ensures var p := CouponPayload(e, key);
            |p| >= 64 && Crypto.ImportKey(p[|p| - 64..]) == Some(key)
  {
    var p := CouponPayload(e, key);
    assert p[|p| - 64..] == Crypto.ExportKey(key);
    Crypto.ImportExportedKey(key);
  }
}
