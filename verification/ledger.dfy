/** What the server gate guarantees across requests: replay protection,
    the balance/ledger correspondence over any run, and where those
    guarantees stop (failed queries, a failed rollback, request kinds other
    than "earn" and "redeem"). */
module Ledger {
  import opened Common
  import opened Backend
  import opened Gate
  import Crypto

  // ---------------------------------------------------------------------------
  // Single requests

  /** A body naming another user is refused before anything else is looked at. */
  lemma ForeignUserRejectedFirst(s: Store, caller: UserId, now: int, req: Request, faults: Faults, sha: Crypto.Sha256)
    requires req.userId != caller
    ensures Step(s, Some(caller), now, req, faults, sha) == Response(s, Rejected(Unauthorized))
  {
  }

  /** The freshness window is closed and symmetric: exactly five minutes in the
      past or the future passes, one millisecond more does not. */
  lemma FreshnessBoundary(now: int)
    ensures IsFresh(now - FreshnessWindowMs, now) && IsFresh(now + FreshnessWindowMs, now)
    ensures !IsFresh(now - FreshnessWindowMs - 1, now) && !IsFresh(now + FreshnessWindowMs + 1, now)
  {
  }

  /** An accepted request is one the caller could only have built knowing the digest
      of exactly its own fields. */
  lemma AcceptedCarriesValidHash(s: Store, auth: Option<UserId>, now: int, req: Request, faults: Faults, sha: Crypto.Sha256)
    ensures Step(s, auth, now, req, faults, sha).outcome.Accepted? ==>
      && req.hash == Crypto.CreateTransactionHash(sha, req.userId, req.amount, req.nonce, req.timestamp)
      && auth == Some(req.userId)
      && IsFresh(req.timestamp, now) && req.amount != 0
  {
    if Step(s, auth, now, req, faults, sha).outcome.Accepted? {
      assert Passes(HashMismatch, s, auth, now, req, faults, sha);
      assert Passes(Unauthorized, s, auth, now, req, faults, sha);
      assert Passes(StaleTimestamp, s, auth, now, req, faults, sha);
      assert Passes(ZeroAmount, s, auth, now, req, faults, sha);
    }
  }

  /** Rate limit boundary: with ten rows of the caller in the last minute the
      request is refused (when the query succeeds); with nine it is not refused
      for that reason. */
  lemma RateLimitBoundary(s: Store, auth: Option<UserId>, now: int, req: Request, faults: Faults, sha: Crypto.Sha256)
    requires !faults.rateQueryFails
    ensures CreatedSince(s.transactions, req.userId, now - RateWindowMs) >= MaxRecentTransactions ==>
      Step(s, auth, now, req, faults, sha).outcome.Rejected?
    ensures CreatedSince(s.transactions, req.userId, now - RateWindowMs) < MaxRecentTransactions ==>
      Step(s, auth, now, req, faults, sha).outcome != Rejected(RateLimited)
  {
    var limited := !Passes(RateLimited, s, auth, now, req, faults, sha);
    assert limited <==> CreatedSince(s.transactions, req.userId, now - RateWindowMs) >= MaxRecentTransactions;
  }

  // ---------------------------------------------------------------------------
  // Replay

  /** Once accepted, the same body is refused on every later submission, as a
      replay when the same caller sends it again, and nothing is written.  This
      needs the nonce query to have succeeded both times and the table to hold
      each nonce at most once (see `StepKeepsNoncesUnique`). */
  lemma ReplayRejected(s: Store, auth: Option<UserId>, now: int, req: Request, faults: Faults, sha: Crypto.Sha256,
                       auth': Option<UserId>, now': int, faults': Faults)
    requires NoncesUnique(s.transactions)
    requires !faults.nonceQueryFails && !faults'.nonceQueryFails
    requires Step(s, auth, now, req, faults, sha).outcome.Accepted?
    ensures var s' := Step(s, auth, now, req, faults, sha).store;
            var again := Step(s', auth', now', req, faults', sha);
            && again.outcome.Rejected?
            && again.store == s'
            && (auth' == Some(req.userId) ==> again.outcome == Rejected(NonceReplayed))
  {
    var first := Step(s, auth, now, req, faults, sha);
    var rec := first.outcome.record;
    assert Passes(NonceReplayed, s, auth, now, req, faults, sha);
    UniqueNonceMatchesAtMostOne(s.transactions, req.nonce);
    NonceMatchesAppend(s.transactions, rec, req.nonce);
    assert SingleNonceRow(first.store.transactions, req.nonce);
    var again := Step(first.store, auth', now', req, faults', sha);
    assert !Passes(NonceReplayed, first.store, auth', now', req, faults', sha);
    if again.outcome.Accepted? {
      assert false;
    }
    assert Rank(again.outcome.reason) <= Rank(NonceReplayed);
  }

  /** The handler never stores a nonce twice, provided its nonce query succeeds.
      (The check and the insert are separate calls; two requests racing between
      them are outside this one-request-at-a-time model.) */
  lemma StepKeepsNoncesUnique(s: Store, auth: Option<UserId>, now: int, req: Request, faults: Faults, sha: Crypto.Sha256)
    requires NoncesUnique(s.transactions)
    requires !faults.nonceQueryFails
    ensures NoncesUnique(Step(s, auth, now, req, faults, sha).store.transactions)
  {
    var r := Step(s, auth, now, req, faults, sha);
    if r.store.transactions != s.transactions {
      assert r.store.transactions == s.transactions + [NewRecord(s, req, now)];
      assert r.outcome.Accepted? || Rank(r.outcome.reason) == Rank(UpdateFailed);
      assert Passes(NonceReplayed, s, auth, now, req, faults, sha);
      UniqueNonceMatchesAtMostOne(s.transactions, req.nonce);
      AppendFreshNonce(s.transactions, NewRecord(s, req, now));
    }
  }

  /** The replay query uses `.single()`, which returns no row when SEVERAL rows
      match: a nonce already stored twice is not recognised as used. */
  lemma DuplicatedNonceNotDetected(s: Store, auth: Option<UserId>, now: int, req: Request, faults: Faults, sha: Crypto.Sha256)
    requires NonceMatches(s.transactions, req.nonce) == 2
    ensures Passes(NonceReplayed, s, auth, now, req, faults, sha)
  {
  }

  // ---------------------------------------------------------------------------
  // Runs of requests

  datatype Event = Event(auth: Option<UserId>, now: int, req: Request, faults: Faults)

  /** The database after handling `events` in order. */
  function Run(s: Store, events: seq<Event>, sha: Crypto.Sha256): Store
    decreases |events|
  {
    if |events| == 0 then s
    else
      var e := events[0];
      Run(Step(s, e.auth, e.now, e.req, e.faults, sha).store, events[1..], sha)
  }

  /** Sum of the signed amounts of `userId`'s rows. */
  function SumFor(txs: seq<TxRecord>, userId: UserId): int {
    if |txs| == 0 then 0
    else (if txs[0].userId == userId then txs[0].amount else 0) + SumFor(txs[1..], userId)
  }

  lemma {:induction false} SumForAppend(a: seq<TxRecord>, b: seq<TxRecord>, userId: UserId)
    ensures SumFor(a + b, userId) == SumFor(a, userId) + SumFor(b, userId)
    decreases |a|
  {
    if |a| == 0 {
      assert a + b == b;
    } else {
      assert (a + b)[1..] == a[1..] + b;
      SumForAppend(a[1..], b, userId);
    }
  }

  /** The rollback did not itself fail after a failed balance update. */
  predicate NoOrphan(e: Event) {
    !(e.faults.updateFails && e.faults.rollbackFails)
  }

  /** One request appends its rows and moves every balance by exactly the amounts
      of that user's appended rows. */
  lemma StepConserves(s: Store, e: Event, sha: Crypto.Sha256)
    requires NoOrphan(e)
    ensures var s' := Step(s, e.auth, e.now, e.req, e.faults, sha).store;
      && s'.profiles.Keys == s.profiles.Keys
      && |s.transactions| <= |s'.transactions|
      && s'.transactions[..|s.transactions|] == s.transactions
      && forall u :: u in s.profiles ==>
           Coins(s'.profiles[u]) == Coins(s.profiles[u]) + SumFor(s'.transactions[|s.transactions|..], u)
  {
    var r := Step(s, e.auth, e.now, e.req, e.faults, sha);
    var s' := r.store;
    if r.outcome.Accepted? {
      var rec := r.outcome.record;
      assert s'.transactions[|s.transactions|..] == [rec];
      assert s'.transactions[..|s.transactions|] == s.transactions;
      assert [rec][1..] == [];
      forall u | u in s.profiles
        ensures Coins(s'.profiles[u]) == Coins(s.profiles[u]) + SumFor([rec], u)
      {
      }
    } else {
      assert s'.transactions[|s.transactions|..] == [];
    }
  }

  /** Balance conservation: over any run in which no rollback fails, each user's
      balance moves by exactly the sum of the rows added for that user; rejected
      requests contribute nothing. */
  lemma {:induction false} RunConserves(s: Store, events: seq<Event>, sha: Crypto.Sha256)
    requires forall i :: 0 <= i < |events| ==> NoOrphan(events[i])
    ensures var s' := Run(s, events, sha);
      && s'.profiles.Keys == s.profiles.Keys
      && |s.transactions| <= |s'.transactions|
      && s'.transactions[..|s.transactions|] == s.transactions
      && forall u :: u in s.profiles ==>
           Coins(s'.profiles[u]) == Coins(s.profiles[u]) + SumFor(s'.transactions[|s.transactions|..], u)
    decreases |events|
  {
    if |events| > 0 {
      var e := events[0];
      var mid := Step(s, e.auth, e.now, e.req, e.faults, sha).store;
      StepConserves(s, e, sha);
      RunConserves(mid, events[1..], sha);
      assert Run(s, events, sha) == Run(mid, events[1..], sha);
      ConservedTrans(s, mid, Run(mid, events[1..], sha));
    }
  }

  /** Balances moved exactly by the ledger rows appended between `s` and `s'`. */
  predicate Conserved(s: Store, s': Store) {
    && s'.profiles.Keys == s.profiles.Keys
    && |s.transactions| <= |s'.transactions|
    && s'.transactions[..|s.transactions|] == s.transactions
    && forall u :: u in s.profiles ==>
         Coins(s'.profiles[u]) == Coins(s.profiles[u]) + SumFor(s'.transactions[|s.transactions|..], u)
  }

  lemma ConservedTrans(s: Store, mid: Store, s': Store)
    requires Conserved(s, mid) && Conserved(mid, s')
    ensures Conserved(s, s')
  {
    var n, m := |s.transactions|, |mid.transactions|;
    assert s'.transactions[..m] == mid.transactions;
    assert s'.transactions[..n] == mid.transactions[..n];
    forall u | u in s.profiles
      ensures Coins(s'.profiles[u]) == Coins(s.profiles[u]) + SumFor(s'.transactions[n..], u)
    {
      assert s'.transactions[n..] == mid.transactions[n..] + s'.transactions[m..];
      SumForAppend(mid.transactions[n..], s'.transactions[m..], u);
    }
  }

  /** Where all-or-nothing stops: if the balance update fails and so does the
      compensating delete, the row stays while the balance does not move. */
  lemma FailedRollbackLeavesOrphan(s: Store, auth: Option<UserId>, now: int, req: Request, faults: Faults, sha: Crypto.Sha256)
    requires forall c :: Rank(c) < Rank(InsertFailed) ==> Passes(c, s, auth, now, req, faults, sha)
    requires !faults.insertFails && faults.updateFails && faults.rollbackFails
    ensures var r := Step(s, auth, now, req, faults, sha);
      && r.outcome == Rejected(UpdateFailed)
      && r.store.profiles == s.profiles
      && r.store.transactions == s.transactions + [NewRecord(s, req, now)]
      && NewRecord(s, req, now).amount != 0
  {
    assert Passes(ZeroAmount, s, auth, now, req, faults, sha);
    assert Passes(ProfileNotFound, s, auth, now, req, faults, sha);
  }

  // ---------------------------------------------------------------------------
  // Request kinds other than "earn" and "redeem"

  /** The body's `type` is not validated.  The balance arithmetic debits every kind
      but "earn", while the funds check only looks at "redeem": a valid request with
      `type` "bonus" takes a balance of 5 to -5. */
  lemma UnknownKindOverdraws(sha: Crypto.Sha256)
    ensures var req := Request("u", 10, "bonus", "", "n", 0, Crypto.CreateTransactionHash(sha, "u", 10, "n", 0), None);
            var s := Store(map["u" := Profile(Some(5), None)], []);
            Step(s, Some("u"), 0, req, NoFaults, sha).outcome.Accepted?
            && Step(s, Some("u"), 0, req, NoFaults, sha).outcome.newBalance == -5
  {
    var req := Request("u", 10, "bonus", "", "n", 0, Crypto.CreateTransactionHash(sha, "u", 10, "n", 0), None);
    var s := Store(map["u" := Profile(Some(5), None)], []);
    assert "bonus" != "redeem" && "bonus" != "earn";
    assert PassesBelow(CheckCount, s, Some("u"), 0, req, NoFaults, sha);
    PassesBelowMeans(CheckCount, s, Some("u"), 0, req, NoFaults, sha);
    AcceptedIffAllPass(s, Some("u"), 0, req, NoFaults, sha);
  }

  /** The funds check applied to every debit: a kind other than "earn" is handled,
      and recorded, as a "redeem". */
  function AsDebit(req: Request): (r: Request)
    ensures r.kind == "earn" || r.kind == "redeem"
    ensures r.kind == "earn" <==> req.kind == "earn"
    ensures r.(kind := req.kind) == req
  {
    if req.kind == "earn" then req else req.(kind := "redeem")
  }

  /** The handler with the funds check covering every debit. */
  function CheckedStep(s: Store, auth: Option<UserId>, now: int, req: Request, faults: Faults, sha: Crypto.Sha256): (r: Response)
    ensures r.outcome.Accepted? ==> req.userId in s.profiles
    ensures r.outcome.Accepted? && r.outcome.record.amount < 0 ==>
      Abs(r.outcome.record.amount) <= Coins(s.profiles[req.userId])
    ensures r.outcome.Accepted? && Coins(s.profiles[req.userId]) >= 0 ==> r.outcome.newBalance >= 0
    ensures req.kind == "earn" || req.kind == "redeem" ==> r == Step(s, auth, now, req, faults, sha)
  {
    var r := Step(s, auth, now, AsDebit(req), faults, sha);
    assert r.outcome.Accepted? ==> Passes(InsufficientCoins, s, auth, now, AsDebit(req), faults, sha);
    r
  }

  predicate BalancesNonNegative(s: Store) {
    forall u :: u in s.profiles ==> Coins(s.profiles[u]) >= 0
  }

  lemma CheckedStepKeepsBalancesNonNegative(s: Store, e: Event, sha: Crypto.Sha256)
    requires BalancesNonNegative(s)
    ensures BalancesNonNegative(CheckedStep(s, e.auth, e.now, e.req, e.faults, sha).store)
  {
    var r := CheckedStep(s, e.auth, e.now, e.req, e.faults, sha);
    var d := AsDebit(e.req);
    assert r == Step(s, e.auth, e.now, d, e.faults, sha);
    if r.outcome.Accepted? {
      forall u | u in r.store.profiles
        ensures Coins(r.store.profiles[u]) >= 0
      {
        if u == d.userId {
          assert Coins(r.store.profiles[u]) == r.outcome.newBalance;
        } else {
          assert r.store.profiles[u] == s.profiles[u];
        }
      }
    }
  }

  function CheckedRun(s: Store, events: seq<Event>, sha: Crypto.Sha256): Store
    decreases |events|
  {
    if |events| == 0 then s
    else
      var e := events[0];
      CheckedRun(CheckedStep(s, e.auth, e.now, e.req, e.faults, sha).store, events[1..], sha)
  }

  /** With the corrected check no run of requests, whatever fails along the way,
      drives a non-negative balance below zero. */
  lemma {:induction false} CheckedRunKeepsBalancesNonNegative(s: Store, events: seq<Event>, sha: Crypto.Sha256)
    requires BalancesNonNegative(s)
    ensures BalancesNonNegative(CheckedRun(s, events, sha))
    decreases |events|
  {
    if |events| > 0 {
      var e := events[0];
      CheckedStepKeepsBalancesNonNegative(s, e, sha);
      CheckedRunKeepsBalancesNonNegative(CheckedStep(s, e.auth, e.now, e.req, e.faults, sha).store, events[1..], sha);
    }
  }

  // ---------------------------------------------------------------------------
  // A worked scenario

  /** User U1 holds 100 coins.  A redeem of 150 is refused for insufficient coins
      and changes nothing; a redeem of 50 with a fresh nonce and a valid hash is
      accepted and leaves 50. */
  lemma RedeemScenario(sha: Crypto.Sha256)
    ensures var s := Store(map["U1" := Profile(Some(100), Some("Bronze"))], []);
            var big := Request("U1", 150, "redeem", "", "n1", 1000, Crypto.CreateTransactionHash(sha, "U1", 150, "n1", 1000), None);
            var r1 := Step(s, Some("U1"), 1000, big, NoFaults, sha);
            var small := Request("U1", 50, "redeem", "", "n2", 2000, Crypto.CreateTransactionHash(sha, "U1", 50, "n2", 2000), None);
            var r2 := Step(r1.store, Some("U1"), 2000, small, NoFaults, sha);
            && r1 == Response(s, Rejected(InsufficientCoins))
            && r2.outcome.Accepted? && r2.outcome.newBalance == 50
            && r2.store.profiles["U1"].loyaltyCoins == Some(50)
  {
    var s := Store(map["U1" := Profile(Some(100), Some("Bronze"))], []);
    var small := Request("U1", 50, "redeem", "", "n2", 2000, Crypto.CreateTransactionHash(sha, "U1", 50, "n2", 2000), None);
    assert PassesBelow(CheckCount, s, Some("U1"), 2000, small, NoFaults, sha);
    PassesBelowMeans(CheckCount, s, Some("U1"), 2000, small, NoFaults, sha);
    AcceptedIffAllPass(s, Some("U1"), 2000, small, NoFaults, sha);
  }
}
