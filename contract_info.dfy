/** The overview panel of the weighted-lock farming pool: whether the reward
    token is the staked token, the rewards left in the contract, and when the
    pool-average and personal APRs are defined and how they compare. */
module ContractInfo {

  import opened Common
  import opened Apr

  /** Estimated blocks per year at roughly 3 seconds per block. */
  const BlocksPerYearBsc: nat := 10512000

  // ---------------------------------------------------------------------
  // Same-token test
  // ---------------------------------------------------------------------

  function ToLowerChar(c: char): char
  {
    if 'A' <= c <= 'Z' then (c as int + 32) as char else c
  }

  /** Lower-casing of an address (ASCII letters only: addresses are hex). */
  function ToLower(s: string): (r: string)
    ensures |r| == |s|
    ensures forall i :: 0 <= i < |s| ==> r[i] == ToLowerChar(s[i])
  {
    seq(|s|, i requires 0 <= i < |s| => ToLowerChar(s[i]))
  }

  /** `isSameToken`: both addresses known and equal after lower-casing. */
  predicate IsSameToken(rewardToken: Option<Address>, poolToken: Option<Address>)
  {
    Truthy(rewardToken) && Truthy(poolToken) && ToLower(rewardToken.value) == ToLower(poolToken.value)
  }

  lemma ToLowerIdempotent(s: string)
    ensures ToLower(ToLower(s)) == ToLower(s)
  {
    forall i | 0 <= i < |s| ensures ToLower(ToLower(s))[i] == ToLower(s)[i] {
      var c := s[i];
      if 'A' <= c <= 'Z' {
        assert 'a' <= ToLowerChar(c) <= 'z';
      }
    }
  }

  /** The test ignores letter case, is symmetric, and holds of a known
      address compared with itself. */
  lemma SameTokenProperties(a: Option<Address>, b: Option<Address>)
    ensures IsSameToken(a, b) <==> IsSameToken(b, a)
    ensures Truthy(a) ==> IsSameToken(a, a)
    ensures Truthy(a) ==> (IsSameToken(Some(ToLower(a.value)), b) <==> IsSameToken(a, b))
  {
    if Truthy(a) {
      ToLowerIdempotent(a.value);
    }
  }

  lemma SameTokenExamples()
    ensures IsSameToken(Some("0xAbC"), Some("0xaBc"))
    ensures !IsSameToken(Some("0xAbC"), Some("0xAbD"))
    ensures !IsSameToken(None, Some("0xabc")) && !IsSameToken(Some("0xabc"), None)
  {
    assert ToLower("0xAbC") == "0xabc";
    assert ToLower("0xaBc") == "0xabc";
    assert ToLower("0xAbD")[4] == 'd';
  }

  // ---------------------------------------------------------------------
  // Remaining rewards
  // ---------------------------------------------------------------------

  /** `remainingRewards`, as the integer before decimal scaling: unknown
      until the balance is read; when rewards are paid in the staked token,
      the staked principal is not counted (saturating at 0), otherwise the
      whole balance is reward. */
  function RemainingRewards(balance: Option<nat>, sameToken: bool, totalDeposited: Option<nat>): (r: Option<int>)
    ensures r.None? <==> balance.None?
    ensures r.Some? ==> 0 <= r.value <= balance.value
    ensures r.Some? && sameToken && totalDeposited.Some? ==>
      r.value == if balance.value > totalDeposited.value then balance.value - totalDeposited.value else 0
    ensures r.Some? && !(sameToken && totalDeposited.Some?) ==> r.value == balance.value
  {
    match balance
    case None => None
    case Some(b) =>
      if sameToken && totalDeposited.Some? then
        var td := totalDeposited.value;
        Some(if b > td then b - td else 0)
      else Some(b)
  }

  /** With one token, principal plus remaining rewards account for the whole
      balance, exactly so when the balance covers the principal. */
  lemma RemainingSplitsBalance(balance: nat, totalDeposited: nat)
    ensures var r := RemainingRewards(Some(balance), true, Some(totalDeposited)).value;
      && r + totalDeposited >= balance
      && (balance >= totalDeposited ==> r + totalDeposited == balance)
  {
  }

  /** More balance never means fewer remaining rewards. */
  lemma RemainingMonotone(b1: nat, b2: nat, sameToken: bool, totalDeposited: Option<nat>)
    requires b1 <= b2
    ensures RemainingRewards(Some(b1), sameToken, totalDeposited).value
            <= RemainingRewards(Some(b2), sameToken, totalDeposited).value
  {
  }

  // ---------------------------------------------------------------------
  // APRs
  // ---------------------------------------------------------------------

  /** Yearly reward flow times 100, in token units (the token's decimals
      cancel against those of the deposit). */
  function YearlyFlow(rewardRate: nat): nat
  {
    rewardRate * BlocksPerYearBsc * 100
  }

  predicate PoolAprDefined(rewardRate: Option<nat>, totalWeight: Option<nat>, totalDeposited: Option<nat>)
  {
    rewardRate.Some? && totalWeight.Some? && totalWeight.value > 0
    && totalDeposited.Some? && totalDeposited.value > 0
  }

  /** `poolAvgApr`, in exact arithmetic: it divides the whole flow by the
      whole deposit, as if every deposit had weight 1x. */
  function PoolAvgApr(rewardRate: Option<nat>, totalWeight: Option<nat>, totalDeposited: Option<nat>): (apr: Option<real>)
    ensures apr.Some? <==> PoolAprDefined(rewardRate, totalWeight, totalDeposited)
    ensures apr.Some? ==> apr.value >= 0.0 && (apr.value > 0.0 <==> rewardRate.value > 0)
  {
    if PoolAprDefined(rewardRate, totalWeight, totalDeposited) then
      Some(YearlyFlow(rewardRate.value) as real / totalDeposited.value as real)
    else None
  }

  /** `userApr`, in exact arithmetic: the user's weight share of the flow
      divided by the user's own deposit. */
  function UserApr(rewardRate: Option<nat>, totalWeight: Option<nat>, totalDeposited: Option<nat>,
                   userDeposited: Option<nat>, userWeight: Option<nat>): (apr: Option<real>)
    ensures apr.Some? <==>
      PoolAprDefined(rewardRate, totalWeight, totalDeposited)
      && userDeposited.Some? && userDeposited.value > 0 && userWeight.Some? && userWeight.value > 0
    ensures apr.Some? ==> PoolAvgApr(rewardRate, totalWeight, totalDeposited).Some?
  {
    if PoolAprDefined(rewardRate, totalWeight, totalDeposited)
       && userDeposited.Some? && userDeposited.value > 0 && userWeight.Some? && userWeight.value > 0 then
      Some((YearlyFlow(rewardRate.value) * userWeight.value) as real
           / (totalWeight.value * userDeposited.value) as real)
    else None
  }

  /** The "boost vs avg" note. */
  predicate BoostBadge(userApr: Option<real>, poolAvgApr: Option<real>)
  {
    userApr.Some? && poolAvgApr.Some? && userApr.value > poolAvgApr.value
  }

  lemma ScaledCompare(k: real, a: real, b: real, c: real, d: real)
    requires k > 0.0 && b > 0.0 && c > 0.0 && d > 0.0 && a > 0.0
    ensures (k * a) / (b * c) > k / d <==> a * d > b * c
    ensures (k * a) / (b * c) == k / d <==> a * d == b * c
  {
    var lhs := (k * a) / (b * c);
    var rhs := k / d;
    assert lhs * (b * c) == k * a;
    assert rhs * d == k;
    assert lhs * (b * c * d) == k * a * d;
    assert rhs * (b * c * d) == k * (b * c);
    if lhs > rhs {
      assert lhs * (b * c * d) > rhs * (b * c * d);
    } else if lhs < rhs {
      assert lhs * (b * c * d) < rhs * (b * c * d);
    }
  }

  lemma RealOfProduct(x: nat, y: nat)
    ensures (x * y) as real == x as real * y as real
  {
  }

  /** The boost note appears exactly when rewards flow and the user's share
      of the weight exceeds their share of the deposits; equal shares give
      equal APRs. */
  lemma BoostBadgeIff(rewardRate: Option<nat>, totalWeight: Option<nat>, totalDeposited: Option<nat>,
                      userDeposited: Option<nat>, userWeight: Option<nat>)
    requires UserApr(rewardRate, totalWeight, totalDeposited, userDeposited, userWeight).Some?
    ensures var u := UserApr(rewardRate, totalWeight, totalDeposited, userDeposited, userWeight);
      var p := PoolAvgApr(rewardRate, totalWeight, totalDeposited);
      && (BoostBadge(u, p) <==>
            (rewardRate.value > 0
             && userWeight.value * totalDeposited.value > totalWeight.value * userDeposited.value))
      && (userWeight.value * totalDeposited.value == totalWeight.value * userDeposited.value ==> u == p)
  {
    var flow := YearlyFlow(rewardRate.value);
    var uw, tw, td, ud := userWeight.value, totalWeight.value, totalDeposited.value, userDeposited.value;
    var u := UserApr(rewardRate, totalWeight, totalDeposited, userDeposited, userWeight).value;
    var p := PoolAvgApr(rewardRate, totalWeight, totalDeposited).value;
    RealOfProduct(flow, uw);
    RealOfProduct(tw, ud);
    RealOfProduct(uw, td);
    assert u == (flow as real * uw as real) / (tw as real * ud as real);
    assert p == flow as real / td as real;
    if flow > 0 {
      ScaledCompare(flow as real, uw as real, tw as real, ud as real, td as real);
      assert rewardRate.value > 0;
    } else {
      assert u == 0.0 && p == 0.0;
    }
  }

  /** No badge without both APRs. */
  lemma BoostBadgeNeedsBoth(u: Option<real>, p: Option<real>)
    ensures BoostBadge(u, p) ==> u.Some? && p.Some?
    ensures BoostBadge(u, p) ==> FormatApr(u) != Dash && FormatApr(p) != Dash
  {
  }
}
