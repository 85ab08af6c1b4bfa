/** The rows of the hosted database the core reads and writes, and the
    queries it runs against them.  The database itself is an immutable value
    here: every operation returns the next one. */
module Backend {
  import opened Common

  type UserId = string

  /** A row of `profiles`, restricted to the columns the core reads. */
  datatype Profile = Profile(loyaltyCoins: Option<int>, membershipTier: Option<string>)

  /** A row of `transactions` as the server gate inserts it.  The `id` stands for the
      key the database assigns; `createdAt` for its `created_at` default, in ms. */
  datatype TxRecord = TxRecord(
    id: nat,
    userId: UserId,
    amount: int,
    kind: string,
    description: string,
    nonce: string,
    hash: string,
    couponCode: Option<string>,
    status: string,
    createdAt: int)

  datatype Store = Store(profiles: map<UserId, Profile>, transactions: seq<TxRecord>)

  /** `profile.loyalty_coins || 0`: a missing (null) balance reads as 0. */
  function Coins(p: Profile): (c: int)
    ensures p.loyaltyCoins.None? ==> c == 0
    ensures p.loyaltyCoins.Some? ==> c == p.loyaltyCoins.value
  {
    p.loyaltyCoins.GetOr(0)
  }

  /** A key larger than every key in use. */
  function FreshId(txs: seq<TxRecord>): (id: nat)
    ensures forall i :: 0 <= i < |txs| ==> txs[i].id < id
  {
    if |txs| == 0 then 1
    else
      var rest := FreshId(txs[1..]);
      if txs[0].id < rest then rest else txs[0].id + 1
  }

  /** `.delete().eq('id', id)`. */
  function RemoveId(txs: seq<TxRecord>, id: nat): (r: seq<TxRecord>)
    ensures forall i :: 0 <= i < |r| ==> r[i].id != id && r[i] in txs
    ensures forall i :: 0 <= i < |txs| && txs[i].id != id ==> txs[i] in r
  {
    if |txs| == 0 then []
    else (if txs[0].id != id then [txs[0]] else []) + RemoveId(txs[1..], id)
  }

  /** Deleting a just-inserted row with a fresh key restores the table exactly. */
  lemma {:induction false} RemoveFreshIdRestores(txs: seq<TxRecord>, rec: TxRecord)
    requires forall i :: 0 <= i < |txs| ==> txs[i].id < rec.id
    ensures RemoveId(txs + [rec], rec.id) == txs
    decreases |txs|
  {
    if |txs| == 0 {
      assert [] + [rec] == [rec];
      assert [rec][1..] == [];
    } else {
      assert (txs + [rec])[1..] == txs[1..] + [rec];
      RemoveFreshIdRestores(txs[1..], rec);
      assert [txs[0]] + txs[1..] == txs;
    }
  }

  /** Rows whose `nonce` column equals `nonce`. */
  function NonceMatches(txs: seq<TxRecord>, nonce: string): (n: nat)
    ensures n <= |txs|
    ensures n == 0 <==> forall i :: 0 <= i < |txs| ==> txs[i].nonce != nonce
  {
    if |txs| == 0 then 0
    else (if txs[0].nonce == nonce then 1 else 0) + NonceMatches(txs[1..], nonce)
  }

  /** The replay query `.select('id').eq('nonce', n).single()` yields a row only
      when exactly one row matches: none and several are both an error with no data. */
  predicate SingleNonceRow(txs: seq<TxRecord>, nonce: string) {
    NonceMatches(txs, nonce) == 1
  }

  /** The row at `i` is the only one carrying `nonce`. */
  predicate OnlyNonceAt(txs: seq<TxRecord>, nonce: string, i: int) {
    && 0 <= i < |txs| && txs[i].nonce == nonce
    && forall j :: 0 <= j < |txs| && j != i ==> txs[j].nonce != nonce
  }

  /** `.single()` finds a row exactly when one row, and no other, carries the nonce. */
  lemma {:induction false} SingleNonceRowMeans(txs: seq<TxRecord>, nonce: string)
    ensures SingleNonceRow(txs, nonce) <==> exists i :: OnlyNonceAt(txs, nonce, i)
    decreases |txs|
  {
    if |txs| > 0 {
      var rest := txs[1..];
      SingleNonceRowMeans(rest, nonce);
      if txs[0].nonce == nonce {
        if NonceMatches(rest, nonce) == 0 {
          forall j | 0 <= j < |txs| && j != 0 ensures txs[j].nonce != nonce {
            assert txs[j] == rest[j - 1];
          }
          assert OnlyNonceAt(txs, nonce, 0);
        } else {
          var j :| 0 <= j < |rest| && rest[j].nonce == nonce;
          assert txs[j + 1].nonce == nonce;
          assert forall i :: !OnlyNonceAt(txs, nonce, i);
        }
      } else {
        if exists i :: OnlyNonceAt(txs, nonce, i) {
          var i :| OnlyNonceAt(txs, nonce, i);
          forall j | 0 <= j < |rest| && j != i - 1 ensures rest[j].nonce != nonce {
            assert rest[j] == txs[j + 1];
          }
          assert OnlyNonceAt(rest, nonce, i - 1);
        }
        if exists i :: OnlyNonceAt(rest, nonce, i) {
          var i :| OnlyNonceAt(rest, nonce, i);
          forall j | 0 <= j < |txs| && j != i + 1 ensures txs[j].nonce != nonce {
            if j > 0 {
              assert txs[j] == rest[j - 1];
            }
          }
          assert OnlyNonceAt(txs, nonce, i + 1);
        }
      }
    }
  }

  /** Rows of `userId` created at or after `since` (the rate-limit query). */
  function CreatedSince(txs: seq<TxRecord>, userId: UserId, since: int): (n: nat)
    ensures n <= |txs|
    ensures n == 0 <==> forall i :: 0 <= i < |txs| ==> !(txs[i].userId == userId && txs[i].createdAt >= since)
    ensures n == |txs| <==> forall i :: 0 <= i < |txs| ==> txs[i].userId == userId && txs[i].createdAt >= since
  {
    if |txs| == 0 then 0
    else (if txs[0].userId == userId && txs[0].createdAt >= since then 1 else 0) + CreatedSince(txs[1..], userId, since)
  }

  /** No two rows share a nonce. */
  predicate NoncesUnique(txs: seq<TxRecord>) {
    forall i, j :: 0 <= i < j < |txs| ==> txs[i].nonce != txs[j].nonce
  }

  lemma {:induction false} NonceMatchesAppend(txs: seq<TxRecord>, rec: TxRecord, nonce: string)
    ensures NonceMatches(txs + [rec], nonce) == NonceMatches(txs, nonce) + (if rec.nonce == nonce then 1 else 0)
    decreases |txs|
  {
    if |txs| == 0 {
      assert [] + [rec] == [rec];
      assert [rec][1..] == [];
    } else {
      assert (txs + [rec])[1..] == txs[1..] + [rec];
      NonceMatchesAppend(txs[1..], rec, nonce);
    }
  }

  lemma {:induction false} CreatedSinceAppend(txs: seq<TxRecord>, rec: TxRecord, userId: UserId, since: int)
    ensures CreatedSince(txs + [rec], userId, since)
         == CreatedSince(txs, userId, since) + (if rec.userId == userId && rec.createdAt >= since then 1 else 0)
    decreases |txs|
  {
    if |txs| == 0 {
      assert [] + [rec] == [rec];
      assert [rec][1..] == [];
    } else {
      assert (txs + [rec])[1..] == txs[1..] + [rec];
      CreatedSinceAppend(txs[1..], rec, userId, since);
    }
  }

  /** With unique nonces the single-row query finds a nonce exactly when it is present. */
  lemma {:induction false} UniqueNonceMatchesAtMostOne(txs: seq<TxRecord>, nonce: string)
    requires NoncesUnique(txs)
    ensures NonceMatches(txs, nonce) <= 1
    ensures SingleNonceRow(txs, nonce) <==> exists i :: 0 <= i < |txs| && txs[i].nonce == nonce
    decreases |txs|
  {
    if |txs| > 0 {
      UniqueNonceMatchesAtMostOne(txs[1..], nonce);
      if txs[0].nonce == nonce {
        assert forall i :: 0 <= i < |txs[1..]| ==> txs[1..][i].nonce != nonce by {
          forall i | 0 <= i < |txs[1..]|
            ensures txs[1..][i].nonce != nonce
          {
            assert txs[1..][i] == txs[i + 1];
          }
        }
      } else {
        if exists i :: 0 <= i < |txs| && txs[i].nonce == nonce {
          var i :| 0 <= i < |txs| && txs[i].nonce == nonce;
          assert txs[1..][i - 1] == txs[i];
        }
      }
    }
  }

  /** Appending a row whose nonce is absent keeps nonces unique. */
  lemma AppendFreshNonce(txs: seq<TxRecord>, rec: TxRecord)
    requires NoncesUnique(txs)
    requires NonceMatches(txs, rec.nonce) == 0
    ensures NoncesUnique(txs + [rec])
  {
    var t := txs + [rec];
    forall i, j | 0 <= i < j < |t|
      ensures t[i].nonce != t[j].nonce
    {
      if j == |txs| {
        assert t[i] == txs[i];
      } else {
        assert t[i] == txs[i] && t[j] == txs[j];
      }
    }
  }
}
