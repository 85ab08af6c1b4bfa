/** The membership-tier progress card on the dashboard: the tier table, the
    lookup of the next tier above the current balance, the coins still needed
    and the capped progress percentage, with JavaScript's division by zero
    kept visible. */
module Dashboard {
  import opened Common
  import Backend

  /** A tier's band; `max` is `None` for the unbounded top tier (`Infinity`). */
  datatype Tier = Tier(name: string, min: int, max: Option<int>)

  /** The table in key order, which is the order `Object.keys` returns. */
  const Tiers: seq<Tier> := [
    Tier("Bronze", 0, Some(1000)),
    Tier("Silver", 1000, Some(5000)),
    Tier("Gold", 5000, Some(15000)),
    Tier("Platinum", 15000, None)
  ]

  const TopTier := "Platinum"
  const DefaultTier := "Bronze"

  /** A JavaScript number as far as this computation needs one: an exact real or one
      of the special values a division can produce. */
  datatype Number = Finite(value: real) | PlusInfinity | MinusInfinity | NaN

  /** `n / d` on integers. */
  function Divide(n: int, d: int): (q: Number)
    ensures q == NaN <==> n == 0 && d == 0
    ensures q == MinusInfinity <==> n < 0 && d == 0
    ensures q == PlusInfinity <==> n > 0 && d == 0
    ensures q.Finite? ==> q.value * d as real == n as real
  {
    if d != 0 then Finite(n as real / d as real)
    else if n > 0 then PlusInfinity
    else if n < 0 then MinusInfinity
    else NaN
  }

  function Times100(x: Number): Number {
    match x
    case Finite(v) => Finite(v * 100.0)
    case _ => x
  }

  /** `Math.min(x, 100)`: NaN wins, everything else is capped at 100. */
  function Min100(x: Number): (m: Number)
    ensures m == NaN <==> x == NaN
    ensures m != PlusInfinity
    ensures m.Finite? ==> m.value <= 100.0
    ensures x.Finite? && x.value <= 100.0 ==> m == x
    ensures (x.Finite? && x.value > 100.0) || x == PlusInfinity ==> m == Finite(100.0)
    ensures x == MinusInfinity ==> m == MinusInfinity
  {
    match x
    case NaN => NaN
    case MinusInfinity => MinusInfinity
    case PlusInfinity => Finite(100.0)
    case Finite(v) => if v <= 100.0 then x else Finite(100.0)
  }

  /** Position of the first tier satisfying the search, or `|tiers|`. */
  function FindByName(tiers: seq<Tier>, name: string): (k: nat)
    ensures k <= |tiers|
    ensures k < |tiers| ==> tiers[k].name == name
    ensures forall j :: 0 <= j < k ==> tiers[j].name != name
  {
    if |tiers| == 0 then 0 else if tiers[0].name == name then 0 else 1 + FindByName(tiers[1..], name)
  }

  /** `Object.keys(tiers).find(tier => tiers[tier].min > currentCoins)`, as a position. */
  function FindAbove(tiers: seq<Tier>, coins: int): (k: nat)
    ensures k <= |tiers|
    ensures k < |tiers| ==> tiers[k].min > coins
    ensures forall j :: 0 <= j < k ==> tiers[j].min <= coins
  {
    if |tiers| == 0 then 0 else if tiers[0].min > coins then 0 else 1 + FindAbove(tiers[1..], coins)
  }

  /** `profile?.loyalty_coins || 0`. */
  function CurrentCoins(profile: Option<Backend.Profile>): (coins: int)
    ensures coins == 0 <==> profile.None? || profile.value.loyaltyCoins in {None, Some(0)}
    ensures coins != 0 ==> profile.Some? && profile.value.loyaltyCoins == Some(coins)
  {
    match profile
    case None => 0
    case Some(p) => Backend.Coins(p)
  }

  /** `profile?.membership_tier || 'Bronze'`: a missing or empty name is Bronze. */
  function CurrentTierName(profile: Option<Backend.Profile>): (name: string)
    ensures name != ""
    ensures name == DefaultTier <==>
      profile.None? || profile.value.membershipTier in {None, Some(""), Some(DefaultTier)}
    ensures name != DefaultTier ==> profile.Some? && profile.value.membershipTier == Some(name)
  {
    if profile.Some? && profile.value.membershipTier.Some? && profile.value.membershipTier.value != "" then
      profile.value.membershipTier.value
    else DefaultTier
  }

  datatype TierProgress = TierProgress(progress: Number, nextTier: Option<string>, coinsNeeded: int)

  /** `tiers[currentTier]`, `undefined` becoming `None`. */
  function LookupTier(name: string): (t: Option<Tier>)
    ensures t.None? <==> forall i :: 0 <= i < |Tiers| ==> Tiers[i].name != name
    ensures t.Some? ==> FindByName(Tiers, name) < |Tiers| && t.value == Tiers[FindByName(Tiers, name)]
    ensures t.Some? && name != TopTier ==> FindByName(Tiers, name) < |Tiers| - 1
  {
    var k := FindByName(Tiers, name);
    if k == |Tiers| then None
    else
      assert Tiers[3].name == TopTier;
      Some(Tiers[k])
  }

  /** The non-top-tier part of `getTierProgress`: next tier, target, coins needed and
      the capped percentage through the current band. */
  function ProgressWithin(k: nat, coins: int): (r: TierProgress)
    requires k < |Tiers| - 1
    ensures r.nextTier.None? <==> forall i :: 0 <= i < |Tiers| ==> Tiers[i].min <= coins
    ensures r.nextTier.Some? ==>
      var i := FindByName(Tiers, r.nextTier.value);
      && i < |Tiers| && Tiers[i].min > coins
      && (forall j :: 0 <= j < i ==> Tiers[j].min <= coins)
      && r.coinsNeeded == Tiers[i].min - coins
      && r.coinsNeeded > 0
    ensures r.nextTier.None? ==> r.coinsNeeded <= 0
    ensures r.progress != NaN && r.progress != PlusInfinity
    ensures r.progress.Finite? ==> r.progress.value <= 100.0
    ensures r.progress == MinusInfinity ==> coins < Tiers[k].min
  {
    var tier := Tiers[k];
    assert k == 0 || k == 1 || k == 2;
    assert tier.max.Some? && tier.min < tier.max.value <= Tiers[3].min;
    var n := FindAbove(Tiers, coins);
    NamesDistinct(n);
    var target := if n < |Tiers| then Tiers[n].min else tier.max.value;
    var nextName := if n < |Tiers| then Some(Tiers[n].name) else None;
    TierProgress(Min100(Times100(Divide(coins - tier.min, target - tier.min))), nextName, target - coins)
  }

  /** Tier names identify their position in the table. */
  lemma NamesDistinct(k: nat)
    ensures k < |Tiers| ==> FindByName(Tiers, Tiers[k].name) == k
  {
  }

  /** `getTierProgress`; `None` stands for the TypeError thrown when the stored tier
      name is not in the table. */
  function GetTierProgress(profile: Option<Backend.Profile>): (r: Option<TierProgress>)
    ensures CurrentTierName(profile) == TopTier ==> r == Some(TierProgress(Finite(100.0), None, 0))
    ensures r.None? <==> forall i :: 0 <= i < |Tiers| ==> Tiers[i].name != CurrentTierName(profile)
    ensures r.Some? && CurrentTierName(profile) != TopTier ==>
      var coins := CurrentCoins(profile);
      var next := r.value.nextTier;
      && (next.None? <==> forall i :: 0 <= i < |Tiers| ==> Tiers[i].min <= coins)
      && (next.Some? ==>
            var i := FindByName(Tiers, next.value);
            && i < |Tiers| && Tiers[i].min > coins
            && (forall j :: 0 <= j < i ==> Tiers[j].min <= coins)
            && r.value.coinsNeeded == Tiers[i].min - coins
            && r.value.coinsNeeded > 0)
      && (next.None? ==> r.value.coinsNeeded <= 0)
    ensures r.Some? ==>
      && r.value.progress != NaN && r.value.progress != PlusInfinity
      && (r.value.progress.Finite? ==> r.value.progress.value <= 100.0)
    ensures r.Some? && r.value.progress == MinusInfinity ==>
      CurrentCoins(profile) < LookupTier(CurrentTierName(profile)).value.min
  {
    var name := CurrentTierName(profile);
    assert Tiers[3].name == TopTier;
    if name == TopTier then Some(TierProgress(Finite(100.0), None, 0))
    else
      match LookupTier(name)
      case None => None
      case Some(tier) => Some(ProgressWithin(FindByName(Tiers, name), CurrentCoins(profile)))
  }

  /** For a balance inside its own tier's band the card shows the following tier,
      the distance to its threshold and a progress from 0 up to (not including) 100. */
  lemma ConsistentTierProgress(profile: Option<Backend.Profile>, k: nat)
    requires k < |Tiers| - 1 && Tiers[k].name == CurrentTierName(profile)
    requires Tiers[k].min <= CurrentCoins(profile) < Tiers[k + 1].min
    ensures var r := GetTierProgress(profile);
            && r.Some?
            && r.value.nextTier == Some(Tiers[k + 1].name)
            && r.value.coinsNeeded == Tiers[k + 1].min - CurrentCoins(profile)
            && r.value.progress.Finite?
            && 0.0 <= r.value.progress.value < 100.0
  {
    NamesDistinct(k);
    NamesDistinct(3);
    assert LookupTier(CurrentTierName(profile)) == Some(Tiers[k]);
    ProgressInBand(k, CurrentCoins(profile));
  }

  lemma ProgressInBand(k: nat, coins: int)
    requires k < |Tiers| - 1 && Tiers[k].min <= coins < Tiers[k + 1].min
    ensures var r := ProgressWithin(k, coins);
            && r.nextTier == Some(Tiers[k + 1].name)
            && r.coinsNeeded == Tiers[k + 1].min - coins
            && r.progress.Finite?
            && 0.0 <= r.progress.value < 100.0
  {
    assert FindAbove(Tiers, coins) == k + 1 by {
      assert k == 0 || k == 1 || k == 2;
    }
    BelowOne(coins - Tiers[k].min, Tiers[k + 1].min - Tiers[k].min);
  }

  lemma BelowOne(n: int, d: int)
    requires 0 <= n < d
    ensures 0.0 <= (n as real / d as real) * 100.0 < 100.0
  {
    var q := n as real / d as real;
    assert q * d as real == n as real;
  }

  /** A Silver member whose balance has dropped below 1000 is shown Silver as the
      next tier, with a progress of minus infinity. */
  lemma BelowOwnBand()
    ensures GetTierProgress(Some(Backend.Profile(Some(500), Some("Silver"))))
         == Some(TierProgress(MinusInfinity, Some("Silver"), 500))
  {
    var p := Some(Backend.Profile(Some(500), Some("Silver")));
    assert FindByName(Tiers, "Silver") == 1;
    assert FindAbove(Tiers, 500) == 1;
  }
}
