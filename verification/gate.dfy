/** The `secure-transaction` edge function: one request against the database,
    yielding the next database and either the new balance or a rejection.

    The checks run in the order the handler has them and the first failing
    one ends the request: caller authenticated, caller owns the request, hash,
    nonce unused, timestamp fresh, rate limit, profile present, funds,
    non-zero amount, then the ledger writes.  The database calls that can fail
    are given as `Faults`; a failed query returns no data, which is how the
    handler sees it. */
module Gate {
  import opened Common
  import opened Backend
  import Crypto

  const FreshnessWindowMs := 5 * 60 * 1000
  const RateWindowMs := 60000
  const MaxRecentTransactions := 10

  /** The JSON body the client posts.  `kind` is the `type` field: the handler
      reads it as an arbitrary string. */
  datatype Request = Request(
    userId: UserId,
    amount: int,
    kind: string,
    description: string,
    nonce: string,
    timestamp: int,
    hash: string,
    couponCode: Option<string>)

  /** Which database calls fail during this request. */
  datatype Faults = Faults(
    nonceQueryFails: bool,
    rateQueryFails: bool,
    profileQueryFails: bool,
    insertFails: bool,
    updateFails: bool,
    rollbackFails: bool)

  const NoFaults := Faults(false, false, false, false, false, false)

  /** Why a request was refused, one per `throw` of the handler. */
  datatype Reason =
    | Unauthenticated   // no or invalid bearer token
    | Unauthorized      // body's user id is not the caller's
    | HashMismatch
    | NonceReplayed
    | StaleTimestamp
    | RateLimited
    | ProfileNotFound
    | InsufficientCoins
    | ZeroAmount
    | InsertFailed
    | UpdateFailed

  datatype Outcome = Accepted(newBalance: int, record: TxRecord) | Rejected(reason: Reason)

  datatype Response = Response(store: Store, outcome: Outcome)

  /** Position of each check in the handler. */
  function Rank(c: Reason): (k: nat)
    ensures k < CheckCount
  {
    match c
    case Unauthenticated => 0
    case Unauthorized => 1
    case HashMismatch => 2
    case NonceReplayed => 3
    case StaleTimestamp => 4
    case RateLimited => 5
    case ProfileNotFound => 6
    case InsufficientCoins => 7
    case ZeroAmount => 8
    case InsertFailed => 9
    case UpdateFailed => 10
  }

  /** At most 5 minutes between the body's timestamp and the server clock, in
      either direction. */
  function IsFresh(timestamp: int, now: int): (ok: bool)
    ensures ok <==> Abs(now - timestamp) <= FreshnessWindowMs
  {
    -FreshnessWindowMs <= now - timestamp <= FreshnessWindowMs
  }

  /** The hash the request carries is the one recomputed from its fields. */
  predicate HashOk(req: Request, sha: Crypto.Sha256) {
    Crypto.VerifyTransactionHash(sha, req.userId, req.amount, req.nonce, req.timestamp, req.hash)
  }

  /** The replay query found no row (or failed, returning no data). */
  predicate NonceOk(s: Store, req: Request, faults: Faults) {
    faults.nonceQueryFails || !SingleNonceRow(s.transactions, req.nonce)
  }

  /** Fewer than 10 rows of the caller in the last minute (or the query failed). */
  predicate RateOk(s: Store, req: Request, now: int, faults: Faults) {
    faults.rateQueryFails || CreatedSince(s.transactions, req.userId, now - RateWindowMs) < MaxRecentTransactions
  }

  /** A redeem does not exceed the stored balance. */
  predicate FundsOk(s: Store, req: Request) {
    req.userId in s.profiles && req.kind == "redeem" ==> Abs(req.amount) <= Coins(s.profiles[req.userId])
  }

  /** The condition check `c` demands, stated on its own. */
  predicate Passes(c: Reason, s: Store, auth: Option<UserId>, now: int, req: Request, faults: Faults, sha: Crypto.Sha256) {
    match c
    case Unauthenticated => auth.Some?
    case Unauthorized => auth == Some(req.userId)
    case HashMismatch => HashOk(req, sha)
    case NonceReplayed => NonceOk(s, req, faults)
    case StaleTimestamp => IsFresh(req.timestamp, now)
    case RateLimited => RateOk(s, req, now, faults)
    case ProfileNotFound => !faults.profileQueryFails && req.userId in s.profiles
    case InsufficientCoins => FundsOk(s, req)
    case ZeroAmount => req.amount != 0
    case InsertFailed => !faults.insertFails
    case UpdateFailed => !faults.updateFails
  }

  const CheckCount := 11

  /** Every check of rank below `k` passes, spelled out check by check. */
  predicate PassesBelow(k: nat, s: Store, auth: Option<UserId>, now: int, req: Request, faults: Faults, sha: Crypto.Sha256) {
    && (k > 0 ==> Passes(Unauthenticated, s, auth, now, req, faults, sha))
    && (k > 1 ==> Passes(Unauthorized, s, auth, now, req, faults, sha))
    && (k > 2 ==> Passes(HashMismatch, s, auth, now, req, faults, sha))
    && (k > 3 ==> Passes(NonceReplayed, s, auth, now, req, faults, sha))
    && (k > 4 ==> Passes(StaleTimestamp, s, auth, now, req, faults, sha))
    && (k > 5 ==> Passes(RateLimited, s, auth, now, req, faults, sha))
    && (k > 6 ==> Passes(ProfileNotFound, s, auth, now, req, faults, sha))
    && (k > 7 ==> Passes(InsufficientCoins, s, auth, now, req, faults, sha))
    && (k > 8 ==> Passes(ZeroAmount, s, auth, now, req, faults, sha))
    && (k > 9 ==> Passes(InsertFailed, s, auth, now, req, faults, sha))
    && (k > 10 ==> Passes(UpdateFailed, s, auth, now, req, faults, sha))
  }

  /** `PassesBelow` is the quantified statement it abbreviates. */
  lemma PassesBelowMeans(k: nat, s: Store, auth: Option<UserId>, now: int, req: Request, faults: Faults, sha: Crypto.Sha256)
    ensures PassesBelow(k, s, auth, now, req, faults, sha) <==> forall c :: Rank(c) < k ==> Passes(c, s, auth, now, req, faults, sha)
  {
    var p := c => Passes(c, s, auth, now, req, faults, sha);
    BelowMeans(k, p);
    assert PassesBelow(k, s, auth, now, req, faults, sha) == HoldsBelow(k, p);
  }

  /** The shape of `PassesBelow` for an arbitrary per-check verdict `p`, so that its
      meaning can be shown without unfolding the checks themselves. */
  predicate HoldsBelow(k: nat, p: Reason -> bool) {
    && (k > 0 ==> p(Unauthenticated))
    && (k > 1 ==> p(Unauthorized))
    && (k > 2 ==> p(HashMismatch))
    && (k > 3 ==> p(NonceReplayed))
    && (k > 4 ==> p(StaleTimestamp))
    && (k > 5 ==> p(RateLimited))
    && (k > 6 ==> p(ProfileNotFound))
    && (k > 7 ==> p(InsufficientCoins))
    && (k > 8 ==> p(ZeroAmount))
    && (k > 9 ==> p(InsertFailed))
    && (k > 10 ==> p(UpdateFailed))
  }

  lemma BelowMeans(k: nat, p: Reason -> bool)
    ensures HoldsBelow(k, p) <==> forall c :: Rank(c) < k ==> p(c)
  {
    if HoldsBelow(k, p) {
      forall c | Rank(c) < k
        ensures p(c)
      {
        match c
        case Unauthenticated =>
        case Unauthorized =>
        case HashMismatch =>
        case NonceReplayed =>
        case StaleTimestamp =>
        case RateLimited =>
        case ProfileNotFound =>
        case InsufficientCoins =>
        case ZeroAmount =>
        case InsertFailed =>
        case UpdateFailed =>
      }
    }
  }

  /** The signed amount stored for a request: positive for "earn", negative otherwise. */
  function SignedAmount(req: Request): (a: int)
    ensures Abs(a) == Abs(req.amount)
    ensures req.amount != 0 ==> (a > 0 <==> req.kind == "earn")
  {
    if req.kind == "earn" then Abs(req.amount) else -Abs(req.amount)
  }

  /** `decryptedCouponCode`: a non-empty coupon is passed through unchanged. */
  function StoredCoupon(c: Option<string>): (r: Option<string>)
    ensures r.Some? <==> c.Some? && c.value != ""
    ensures r.Some? ==> r.value == c.value
  {
    if c.Some? && c.value != "" then c else None
  }

  function NewRecord(s: Store, req: Request, now: int): TxRecord {
    TxRecord(FreshId(s.transactions), req.userId, SignedAmount(req), req.kind, req.description,
             req.nonce, req.hash, StoredCoupon(req.couponCode), "completed", now)
  }

  /** The checks on the request itself and on the two queries (lines 42-93): the
      first one that fails, if any. */
  function RequestFailure(s: Store, auth: Option<UserId>, now: int, req: Request, faults: Faults, sha: Crypto.Sha256): (r: Option<Reason>)
    ensures r.None? ==> PassesBelow(Rank(ProfileNotFound), s, auth, now, req, faults, sha)
    ensures r.Some? ==>
      && Rank(r.value) < Rank(ProfileNotFound)
      && !Passes(r.value, s, auth, now, req, faults, sha)
      && PassesBelow(Rank(r.value), s, auth, now, req, faults, sha)
  {
    if auth.None? then Some(Unauthenticated)
    else if req.userId != auth.value then Some(Unauthorized)
    // The handler's own `createTransactionHash` (lines 203-216) builds the same text
    // and digest as the browser's, so both are `Crypto.CreateTransactionHash`.
    else if !HashOk(req, sha) then Some(HashMismatch)
    else if !NonceOk(s, req, faults) then Some(NonceReplayed)
    else if Abs(now - req.timestamp) > FreshnessWindowMs then Some(StaleTimestamp)
    else if !RateOk(s, req, now, faults) then Some(RateLimited)
    else None
  }

  /** The checks against the caller's profile (lines 106-126).  Any error of the
      profile query, a failed query included, is reported as a missing profile. */
  function BalanceFailure(s: Store, req: Request, faults: Faults): (r: Option<Reason>)
    ensures r.None? ==> !faults.profileQueryFails && req.userId in s.profiles && FundsOk(s, req) && req.amount != 0
    ensures r == Some(ProfileNotFound) <==> faults.profileQueryFails || req.userId !in s.profiles
    ensures r == Some(InsufficientCoins) ==> req.userId in s.profiles && !FundsOk(s, req)
    ensures r == Some(ZeroAmount) ==> req.userId in s.profiles && FundsOk(s, req) && req.amount == 0
    ensures r.Some? ==> r.value in {ProfileNotFound, InsufficientCoins, ZeroAmount}
  {
    if faults.profileQueryFails || req.userId !in s.profiles then Some(ProfileNotFound)
    else
      var currentCoins := Coins(s.profiles[req.userId]);
      if req.kind == "redeem" && currentCoins < Abs(req.amount) then Some(InsufficientCoins)
      else if req.amount == 0 then Some(ZeroAmount)
      else None
  }

  /** The handler's checks before it writes anything (lines 42-126): the first
      one that fails, if any. */
  function FirstFailure(s: Store, auth: Option<UserId>, now: int, req: Request, faults: Faults, sha: Crypto.Sha256): (r: Option<Reason>)
    ensures r.None? ==> PassesBelow(Rank(InsertFailed), s, auth, now, req, faults, sha)
    ensures r.Some? ==>
      && Rank(r.value) < Rank(InsertFailed)
      && !Passes(r.value, s, auth, now, req, faults, sha)
      && PassesBelow(Rank(r.value), s, auth, now, req, faults, sha)
  {
    match RequestFailure(s, auth, now, req, faults, sha)
    case Some(reason) => Some(reason)
    case None => BalanceFailure(s, req, faults)
  }

  /** The ledger writes (lines 128-167): insert the row, then update the balance,
      deleting the row again if the update fails. */
  function Commit(s: Store, now: int, req: Request, faults: Faults): (r: Response)
    requires req.userId in s.profiles
    requires req.amount != 0
    ensures r.outcome.Rejected? ==> r.outcome.reason == (if faults.insertFails then InsertFailed else UpdateFailed)
    ensures r.outcome.Accepted? <==> !faults.insertFails && !faults.updateFails
    ensures faults.insertFails ==> r.store == s
    ensures r.outcome == Rejected(UpdateFailed) ==>
      && r.store.profiles == s.profiles
      && r.store.transactions == (if faults.rollbackFails then s.transactions + [NewRecord(s, req, now)] else s.transactions)
    ensures r.outcome.Accepted? ==>
      var rec := r.outcome.record;
      && rec == NewRecord(s, req, now)
      && r.store.transactions == s.transactions + [rec]
      && r.store.profiles == s.profiles[req.userId := s.profiles[req.userId].(loyaltyCoins := Some(r.outcome.newBalance))]
      && r.outcome.newBalance == Coins(s.profiles[req.userId]) + rec.amount
  {
    var currentCoins := Coins(s.profiles[req.userId]);
    var newBalance := if req.kind == "earn" then currentCoins + Abs(req.amount) else currentCoins - Abs(req.amount);
    var record := NewRecord(s, req, now);
    if faults.insertFails then Response(s, Rejected(InsertFailed))
    else
      var inserted := s.transactions + [record];
      if faults.updateFails then
        // The compensating delete's own result is ignored by the handler.
        RemoveFreshIdRestores(s.transactions, record);
        var rolledBack := if faults.rollbackFails then inserted else RemoveId(inserted, record.id);
        Response(s.(transactions := rolledBack), Rejected(UpdateFailed))
      else
        var profile := s.profiles[req.userId].(loyaltyCoins := Some(newBalance));
        Response(Store(s.profiles[req.userId := profile], inserted), Accepted(newBalance, record))
  }

  /** The handler, from the parsed body to its response. */
  function Step(s: Store, auth: Option<UserId>, now: int, req: Request, faults: Faults, sha: Crypto.Sha256): (r: Response)
    // Outcome: accepted only when every check passes; otherwise the reason
    // is a failing check and every earlier check passed.
    ensures r.outcome.Accepted? ==> PassesBelow(CheckCount, s, auth, now, req, faults, sha)
    ensures r.outcome.Rejected? ==>
      && !Passes(r.outcome.reason, s, auth, now, req, faults, sha)
      && PassesBelow(Rank(r.outcome.reason), s, auth, now, req, faults, sha)
    // Effect on the database: nothing, except the row a failed update leaves when
    // its rollback fails too, or one row plus the matching balance.
    ensures r.outcome.Rejected? && r.outcome.reason != UpdateFailed ==> r.store == s
    ensures r.outcome == Rejected(UpdateFailed) ==>
      && r.store.profiles == s.profiles
      && r.store.transactions == (if faults.rollbackFails then s.transactions + [NewRecord(s, req, now)] else s.transactions)
    ensures r.outcome.Accepted? ==>
      var rec := r.outcome.record;
      && req.userId in s.profiles
      && rec == NewRecord(s, req, now)
      && r.store.transactions == s.transactions + [rec]
      && r.store.profiles == s.profiles[req.userId := s.profiles[req.userId].(loyaltyCoins := Some(r.outcome.newBalance))]
      && r.outcome.newBalance == Coins(s.profiles[req.userId]) + rec.amount
      && rec.userId == req.userId && rec.nonce == req.nonce && rec.createdAt == now
      && Abs(rec.amount) == Abs(req.amount) && rec.amount != 0
      && (rec.amount > 0 <==> req.kind == "earn")
    ensures r.outcome.Accepted? && req.kind == "redeem" && Coins(s.profiles[req.userId]) >= 0 ==>
      r.outcome.newBalance >= 0
  {
    match FirstFailure(s, auth, now, req, faults, sha)
    case Some(reason) => Response(s, Rejected(reason))
    case None =>
      assert Passes(ProfileNotFound, s, auth, now, req, faults, sha) && Passes(ZeroAmount, s, auth, now, req, faults, sha);
      Commit(s, now, req, faults)
  }

  /** Both directions: a request is accepted exactly when every check passes. */
  lemma AcceptedIffAllPass(s: Store, auth: Option<UserId>, now: int, req: Request, faults: Faults, sha: Crypto.Sha256)
    ensures Step(s, auth, now, req, faults, sha).outcome.Accepted? <==> forall c :: Passes(c, s, auth, now, req, faults, sha)
  {
    PassesBelowMeans(CheckCount, s, auth, now, req, faults, sha);
  }
}
