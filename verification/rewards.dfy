/** The reward catalogue page: the search and category filter, the category
    list, the affordability badge and the client-side redemption, which writes
    to three tables directly instead of going through the transaction gate. */
module Rewards {
  import opened Common

  datatype Reward = Reward(id: string, title: string, description: string, pointsRequired: int, category: string)

  // ---------------------------------------------------------------------------
  // Text matching (ASCII case mapping)

  function LowerChar(c: char): char {
    if 'A' <= c <= 'Z' then (c as int - 'A' as int + 'a' as int) as char else c
  }

  /** `toLowerCase`, restricted to the ASCII letters. */
  function ToLower(s: string): (r: string)
    ensures |r| == |s|
    ensures forall i :: 0 <= i < |s| ==> r[i] == LowerChar(s[i])
  {
    seq(|s|, i requires 0 <= i < |s| => LowerChar(s[i]))
  }

  /** `s.includes(t)`, scanning start positions left to right. */
  predicate Includes(s: string, t: string)
    decreases |s|
  {
    |t| <= |s| && (s[..|t|] == t || (|s| > 0 && Includes(s[1..], t)))
  }

  /** `t` occurs in `s` at position `k`. */
  predicate OccursAt(s: string, t: string, k: int) {
    0 <= k && k + |t| <= |s| && s[k..k + |t|] == t
  }

  /** The scan finds `t` exactly when `t` occurs somewhere in `s`; in particular
      the empty string is found everywhere. */
  lemma {:induction false} IncludesIffOccurs(s: string, t: string)
    ensures Includes(s, t) <==> exists k :: OccursAt(s, t, k)
    decreases |s|
  {
    if |t| <= |s| && s[..|t|] == t {
      assert OccursAt(s, t, 0);
    } else if |t| <= |s| {
      IncludesIffOccurs(s[1..], t);
      if k :| OccursAt(s[1..], t, k) {
        assert s[k + 1..k + 1 + |t|] == s[1..][k..k + |t|];
        assert OccursAt(s, t, k + 1);
      }
      if k :| OccursAt(s, t, k) {
        assert k != 0;
        assert s[1..][k - 1..k - 1 + |t|] == s[k..k + |t|];
        assert OccursAt(s[1..], t, k - 1);
      }
    }
  }

  // ---------------------------------------------------------------------------
  // Filtering

  predicate MatchesSearch(r: Reward, term: string) {
    Includes(ToLower(r.title), ToLower(term)) || Includes(ToLower(r.description), ToLower(term))
  }

  /** The condition a reward must meet to stay in the list: an empty search and the
      category "all" impose nothing. */
  predicate Keep(r: Reward, term: string, category: string) {
    (term == "" || MatchesSearch(r, term)) && (category == "all" || r.category == category)
  }

  /** `filterRewards`: the search filter when the term is non-empty, then the
      category filter when a category is selected. */
  function FilterRewards(rewards: seq<Reward>, term: string, category: string): (shown: seq<Reward>)
    ensures |shown| <= |rewards|
    ensures forall i :: 0 <= i < |shown| ==> shown[i] in rewards && Keep(shown[i], term, category)
    ensures forall i :: 0 <= i < |rewards| && Keep(rewards[i], term, category) ==> rewards[i] in shown
  {
    var searched := if term != "" then Filter(rewards, r => MatchesSearch(r, term)) else rewards;
    if category != "all" then Filter(searched, (r: Reward) => r.category == category) else searched
  }

  /** The two filter stages are one order-preserving pass with the combined condition. */
  lemma FilterRewardsIsOnePass(rewards: seq<Reward>, term: string, category: string)
    ensures FilterRewards(rewards, term, category) == Filter(rewards, (r: Reward) => Keep(r, term, category))
    ensures IsSubsequence(FilterRewards(rewards, term, category), rewards)
  {
    var keep := (r: Reward) => Keep(r, term, category);
    if term != "" && category != "all" {
      SearchThenCategory(rewards, term, category);
    } else if term != "" {
      FilterCongruent(rewards, (r: Reward) => MatchesSearch(r, term), keep);
    } else if category != "all" {
      FilterCongruent(rewards, (r: Reward) => r.category == category, keep);
    } else {
      FilterKeepsAll(rewards, keep);
    }
    FilterIsSubsequence(rewards, keep);
  }

  lemma SearchThenCategory(rewards: seq<Reward>, term: string, category: string)
    requires term != "" && category != "all"
    ensures Filter(Filter(rewards, (r: Reward) => MatchesSearch(r, term)), (r: Reward) => r.category == category)
         == Filter(rewards, (r: Reward) => Keep(r, term, category))
  {
    FilterFilter(rewards, (r: Reward) => MatchesSearch(r, term), (r: Reward) => r.category == category,
                 (r: Reward) => Keep(r, term, category));
  }

  /** With no search text and every category, the whole catalogue is shown in order. */
  lemma FilterRewardsShowsAll(rewards: seq<Reward>)
    ensures FilterRewards(rewards, "", "all") == rewards
  {
  }

  // ---------------------------------------------------------------------------
  // Categories

  /** Index of the first occurrence of `x` in `s`, or `|s|` when absent. */
  function IndexOf(s: seq<string>, x: string): (k: nat)
    ensures k <= |s|
    ensures k < |s| <==> x in s
    ensures k < |s| ==> s[k] == x && x !in s[..k]
  {
    if |s| == 0 then 0 else if s[0] == x then 0 else 1 + IndexOf(s[1..], x)
  }

  /** `Array.from(new Set(values))`: each value once, ordered by first occurrence. */
  function Distinct(values: seq<string>): (r: seq<string>)
    ensures forall x :: x in r <==> x in values
    ensures forall i, j :: 0 <= i < j < |r| ==> r[i] != r[j]
    ensures forall i, j :: 0 <= i < j < |r| ==> IndexOf(values, r[i]) < IndexOf(values, r[j])
  {
    if |values| == 0 then []
    else
      var prev := Distinct(values[..|values| - 1]);
      var x := values[|values| - 1];
      PrefixIndexOf(values);
      if x in prev then prev else prev + [x]
  }

  /** Values of a prefix keep their first-occurrence index; a value new at the last
      position has that position. */
  lemma {:induction false} PrefixIndexOf(values: seq<string>)
    requires |values| > 0
    ensures forall y :: y in values[..|values| - 1] ==> IndexOf(values, y) == IndexOf(values[..|values| - 1], y)
    ensures values[|values| - 1] !in values[..|values| - 1] ==> IndexOf(values, values[|values| - 1]) == |values| - 1
  {
    forall y | y in values[..|values| - 1]
      ensures IndexOf(values, y) == IndexOf(values[..|values| - 1], y)
    {
      IndexOfPrefix(values, |values| - 1, y);
    }
  }

  lemma {:induction false} IndexOfPrefix(s: seq<string>, n: nat, y: string)
    requires n <= |s| && y in s[..n]
    ensures IndexOf(s, y) == IndexOf(s[..n], y)
    decreases n
  {
    if s[0] != y {
      assert s[..n][1..] == s[1..][..n - 1];
      assert y in s[1..][..n - 1] by {
        var k :| 0 <= k < n && s[..n][k] == y;
        assert s[1..][..n - 1][k - 1] == y;
      }
      IndexOfPrefix(s[1..], n - 1, y);
    }
  }

  /** `categories`: the distinct reward categories, in catalogue order. */
  function Categories(rewards: seq<Reward>): (cats: seq<string>)
    ensures forall c :: c in cats <==> exists i :: 0 <= i < |rewards| && rewards[i].category == c
    ensures forall i, j :: 0 <= i < j < |cats| ==> cats[i] != cats[j]
    ensures forall i, j :: 0 <= i < j < |cats| ==>
      IndexOf(CategoryColumn(rewards), cats[i]) < IndexOf(CategoryColumn(rewards), cats[j])
  {
    Distinct(CategoryColumn(rewards))
  }

  /** `rewards.map(r => r.category)`. */
  function CategoryColumn(rewards: seq<Reward>): (all: seq<string>)
    ensures |all| == |rewards|
    ensures forall i :: 0 <= i < |rewards| ==> all[i] == rewards[i].category
  {
    seq(|rewards|, i requires 0 <= i < |rewards| => rewards[i].category)
  }

  // ---------------------------------------------------------------------------
  // Affordability and redemption

  /** The badge and card styling: whether the displayed balance covers the price. */
  predicate CanAfford(userCoins: int, reward: Reward) {
    userCoins >= reward.pointsRequired
  }

  /** The three writes `handleRedeem` issues, in order. */
  datatype Write =
    | InsertRedemption(userId: Option<string>, rewardId: string, pointsUsed: int, status: string)
    | InsertTransaction(userId: Option<string>, kind: string, pointsAmount: int, rewardId: string, description: string)
    | UpdateCoins(userId: Option<string>, loyaltyCoins: int)

  /** Which of the three writes the database refuses. */
  datatype WriteFaults = WriteFaults(redemptionFails: bool, transactionFails: bool, updateFails: bool)

  datatype RedeemResult =
    | Insufficient(shortfall: int)
    | Redeemed(persisted: seq<Write>, displayedCoins: int)
    | Failed(persisted: seq<Write>)

  function RedeemWrites(userId: Option<string>, userCoins: int, reward: Reward): seq<Write> {
    [ InsertRedemption(userId, reward.id, reward.pointsRequired, "pending"),
      InsertTransaction(userId, "redeem", reward.pointsRequired, reward.id, "Redeemed: " + reward.title),
      UpdateCoins(userId, userCoins - reward.pointsRequired) ]
  }

  /** `handleRedeem`: refuse when the displayed balance is short, otherwise issue the
      writes one after another and stop at the first refused one. */
  function HandleRedeem(userId: Option<string>, userCoins: int, reward: Reward, faults: WriteFaults): (r: RedeemResult)
    ensures r.Insufficient? <==> userCoins < reward.pointsRequired
    ensures r.Insufficient? ==> r.shortfall == reward.pointsRequired - userCoins > 0
    ensures r.Redeemed? ==>
      && r.persisted == RedeemWrites(userId, userCoins, reward)
      && r.persisted[2].loyaltyCoins == r.displayedCoins == userCoins - reward.pointsRequired
      && r.displayedCoins >= 0
    ensures r.Failed? ==>
      && |r.persisted| == (if faults.redemptionFails then 0 else if faults.transactionFails then 1 else 2)
      && r.persisted == RedeemWrites(userId, userCoins, reward)[..|r.persisted|]
    ensures !r.Insufficient? ==> (r.Redeemed? <==> !faults.redemptionFails && !faults.transactionFails && !faults.updateFails)
  {
    if userCoins < reward.pointsRequired then Insufficient(reward.pointsRequired - userCoins)
    else
      var writes := RedeemWrites(userId, userCoins, reward);
      if faults.redemptionFails then Failed([])
      else if faults.transactionFails then Failed(writes[..1])
      else if faults.updateFails then Failed(writes[..2])
      else Redeemed(writes, userCoins - reward.pointsRequired)
  }

  /** A card is shown as affordable exactly when redeeming it passes the balance guard. */
  lemma CanAffordIffNotRefused(userId: Option<string>, userCoins: int, reward: Reward, faults: WriteFaults)
    ensures CanAfford(userCoins, reward) <==> !HandleRedeem(userId, userCoins, reward, faults).Insufficient?
  {
  }

  /** The writes are not atomic: a refused balance update leaves the redemption and the
      transaction row in place with the balance untouched. */
  lemma RedeemIsNotAtomic(userId: Option<string>, userCoins: int, reward: Reward)
    requires CanAfford(userCoins, reward)
    ensures var r := HandleRedeem(userId, userCoins, reward, WriteFaults(false, false, true));
            r.Failed? && |r.persisted| == 2
            && r.persisted[0].InsertRedemption? && r.persisted[1].InsertTransaction?
            && forall i :: 0 <= i < |r.persisted| ==> !r.persisted[i].UpdateCoins?
  {
  }
}
