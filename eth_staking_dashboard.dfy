/** The multi-pool staking dashboard on Ethereum: four reads per pool
    batched into one multicall and demapped by offset, the token metadata
    batch looked up by address, the pool APR guard, and the write handlers. */
module EthStakingDashboard {

  import opened Common
  import opened Calls
  import opened Apr

  /** Estimated blocks per year at roughly 12 seconds per block. */
  const BlocksPerYearEth: nat := 2628000

  /** An unread pool count counts as zero pools. */
  function PoolCount(poolCount: Option<nat>): nat
  {
    if poolCount.Some? then poolCount.value else 0
  }

  // ---------------------------------------------------------------------
  // Batch 1: four reads per pool
  // ---------------------------------------------------------------------

  /** Field `k` of pool `i`: token, total deposited, reward weight, reward rate. */
  function PoolFieldCall(i: nat, k: nat): ReadCall
    requires k < 4
  {
    if k == 0 then GetPoolToken(i)
    else if k == 1 then GetPoolTotalDeposited(i)
    else if k == 2 then GetPoolRewardWeight(i)
    else GetPoolRewardRate(i)
  }

  /** `poolInfoContracts`: the 4 x count reads, pool by pool. */
  function PoolInfoContracts(count: nat): (calls: seq<ReadCall>)
    ensures |calls| == 4 * count
    ensures forall j :: 0 <= j < |calls| ==> calls[j] == PoolFieldCall(j / 4, j % 4)
    decreases count
  {
    if count == 0 then []
    else
      var i := count - 1;
      var earlier := PoolInfoContracts(i);
      var calls := earlier + [GetPoolToken(i), GetPoolTotalDeposited(i), GetPoolRewardWeight(i), GetPoolRewardRate(i)];
      assert forall j :: 0 <= j < |earlier| ==> calls[j] == earlier[j];
      assert forall j :: |earlier| <= j < |calls| ==> j / 4 == i && j % 4 == j - 4 * i;
      calls
  }

  /** The same layout read at offset 4i+k. */
  lemma PoolInfoOffsets(count: nat, i: nat, k: nat)
    requires i < count && k < 4
    ensures 4 * i + k < |PoolInfoContracts(count)|
    ensures PoolInfoContracts(count)[4 * i + k] == PoolFieldCall(i, k)
  {
    var j := 4 * i + k;
    assert j / 4 == i && j % 4 == k;
  }

  /** Before the pool count is read no pool read is requested; once read,
      four per counted pool. */
  lemma UnreadPoolCountReadsNothing(poolCount: Option<nat>)
    ensures poolCount.None? ==> PoolInfoContracts(PoolCount(poolCount)) == []
    ensures poolCount.Some? ==> |PoolInfoContracts(PoolCount(poolCount))| == 4 * poolCount.value
  {
  }

  /** `poolTokenAddresses`: the token of every pool, or null where its read
      failed; nothing at all before the batch has answered. */
  method PoolTokenAddresses(raw: Option<seq<CallResult>>, count: nat) returns (addrs: seq<Option<Address>>)
    ensures raw.None? ==> addrs == []
    ensures raw.Some? ==> |addrs| == count
    ensures raw.Some? ==> forall i :: 0 <= i < count ==> addrs[i] == AddressOrNull(ResultAt(raw.value, 4 * i))
  {
    addrs := [];
    if raw.Some? {
      var i := 0;
      while i < count
        invariant 0 <= i <= count
        invariant |addrs| == i
        invariant forall j :: 0 <= j < i ==> addrs[j] == AddressOrNull(ResultAt(raw.value, 4 * j))
      {
        var tokenResult := ResultAt(raw.value, i * 4);
        if tokenResult.Success? && tokenResult.result.Addr? {
          addrs := addrs + [Some(tokenResult.result.addr)];
        } else {
          addrs := addrs + [None];
        }
        i := i + 1;
      }
    }
  }

  // ---------------------------------------------------------------------
  // Batch 2: symbol and decimals per token address
  // ---------------------------------------------------------------------

  /** `filter(Boolean)`: the addresses that are present and non-empty, in
      order, duplicates kept. */
  function Present(addrs: seq<Option<Address>>): (present: seq<Address>)
    ensures |present| <= |addrs|
    ensures forall j :: 0 <= j < |present| ==> present[j] != "" && Some(present[j]) in addrs
    ensures forall i :: 0 <= i < |addrs| && Truthy(addrs[i]) ==> addrs[i].value in present
    decreases |addrs|
  {
    if |addrs| == 0 then []
    else
      var rest := Present(addrs[1..]);
      assert forall i :: 1 <= i < |addrs| ==> addrs[i] == addrs[1..][i - 1];
      assert forall x :: x in addrs[1..] ==> x in addrs;
      if Truthy(addrs[0]) then [addrs[0].value] + rest else rest
  }

  /** The filter works entry by entry: filtering a concatenation is the
      concatenation of the filtered parts, and one entry is kept, once,
      exactly when it is present and non-empty. Together these fix the
      order and the multiplicity of what is kept. */
  lemma {:induction false} PresentAppend(a: seq<Option<Address>>, b: seq<Option<Address>>)
    ensures Present(a + b) == Present(a) + Present(b)
    ensures |a| == 1 ==> Present(a) == if Truthy(a[0]) then [a[0].value] else []
    decreases |a|
  {
    if |a| == 0 {
      assert a + b == b;
    } else {
      assert (a + b)[1..] == a[1..] + b;
      PresentAppend(a[1..], b);
      if |a| == 1 {
        assert a[1..] == [];
      }
    }
  }

  /** The positions whose address is present and non-empty. */
  ghost function PresentPositions(addrs: seq<Option<Address>>): set<nat>
  {
    set i: nat | i < |addrs| && Truthy(addrs[i])
  }

  /** One kept address per present position, so one symbol and one decimals
      read per pool with a token, repeated tokens included. */
  lemma {:induction false} PresentCount(addrs: seq<Option<Address>>)
    ensures |Present(addrs)| == |PresentPositions(addrs)|
    ensures |TokenInfoContracts(Present(addrs))| == 2 * |PresentPositions(addrs)|
    decreases |addrs|
  {
    if |addrs| == 0 {
      assert PresentPositions(addrs) == {};
    } else {
      var n := |addrs| - 1;
      var init, last := addrs[..n], [addrs[n]];
      assert addrs == init + last;
      PresentAppend(init, last);
      PresentAppend(last, []);
      PresentCount(init);
      assert forall i :: 0 <= i < n ==> init[i] == addrs[i];
      if Truthy(addrs[n]) {
        assert PresentPositions(addrs) == PresentPositions(init) + {n};
        assert n !in PresentPositions(init);
      } else {
        assert PresentPositions(addrs) == PresentPositions(init);
      }
    }
  }

  /** `tokenInfoContracts`: symbol then decimals for every present address. */
  function TokenInfoContracts(present: seq<Address>): (calls: seq<ReadCall>)
    ensures |calls| == 2 * |present|
    ensures forall j :: 0 <= j < |calls| ==>
      calls[j] == if j % 2 == 0 then Symbol(present[j / 2]) else Decimals(present[j / 2])
    decreases |present|
  {
    if |present| == 0 then []
    else
      var i := |present| - 1;
      var earlier := TokenInfoContracts(present[..i]);
      var calls := earlier + [Symbol(present[i]), Decimals(present[i])];
      assert forall j :: 0 <= j < |earlier| ==> calls[j] == earlier[j] && present[..i][j / 2] == present[j / 2];
      calls
  }

  /** Duplicated tokens are read once per pool: two pools on one token give
      four reads, not two. */
  lemma DuplicatesNotRemoved(a: Address)
    requires a != ""
    ensures Present([Some(a), None, Some(a)]) == [a, a]
    ensures |TokenInfoContracts(Present([Some(a), None, Some(a)]))| == 4
  {
    var addrs := [Some(a), None, Some(a)];
    assert addrs[1..][1..] == [Some(a)];
    assert addrs[1..][1..][1..] == [];
  }

  /** `indexOf`: the first position of `x`, or -1. */
  function IndexOf(xs: seq<Address>, x: Address): (r: int)
    ensures -1 <= r < |xs|
    ensures r >= 0 ==> xs[r] == x && forall j :: 0 <= j < r ==> xs[j] != x
    ensures r == -1 <==> x !in xs
    decreases |xs|
  {
    if |xs| == 0 then -1
    else if xs[0] == x then 0
    else
      var r := IndexOf(xs[1..], x);
      if r == -1 then -1 else r + 1
  }

  // ---------------------------------------------------------------------
  // Demapping into pools
  // ---------------------------------------------------------------------

  datatype Pool = Pool(
    id: nat, tokenAddr: Option<Address>, totalDeposited: nat, rewardWeight: nat,
    poolRewardRate: nat, symbol: string, decimals: nat)

  /** Symbol and decimals of a pool's token: looked up at the first
      occurrence `si` of the address, at offsets 2si and 2si+1, with
      "Token" and 18 as defaults. */
  function TokenMeta(tokenAddr: Option<Address>, present: seq<Address>,
                     tokenInfo: Option<seq<CallResult>>): (meta: (string, nat))
  {
    if Truthy(tokenAddr) && tokenInfo.Some? then
      var si := IndexOf(present, tokenAddr.value);
      (if si >= 0 then StrOr(ResultAt(tokenInfo.value, si * 2), "Token") else "Token",
       if si >= 0 then UintOr(ResultAt(tokenInfo.value, si * 2 + 1), 18) else 18)
    else ("Token", 18)
  }

  /** Pool `i` as built from the two batches: each field read only from its
      own offset 4i+k, with null or 0 when that read failed. */
  function PoolAt(raw: seq<CallResult>, present: seq<Address>, tokenInfo: Option<seq<CallResult>>, i: nat): Pool
  {
    var base := i * 4;
    var tokenAddr := AddressOrNull(ResultAt(raw, base));
    var meta := TokenMeta(tokenAddr, present, tokenInfo);
    Pool(i, tokenAddr, UintOr(ResultAt(raw, base + 1), 0), UintOr(ResultAt(raw, base + 2), 0),
         UintOr(ResultAt(raw, base + 3), 0), meta.0, meta.1)
  }

  /** The `pools` loop: none before the first batch has answered, otherwise
      one per pool, pool `i` with id `i`. */
  method BuildPools(raw: Option<seq<CallResult>>, count: nat, present: seq<Address>,
                    tokenInfo: Option<seq<CallResult>>) returns (pools: seq<Pool>)
    ensures raw.None? ==> pools == []
    ensures raw.Some? ==> |pools| == count
    ensures raw.Some? ==> forall i :: 0 <= i < count ==> pools[i] == PoolAt(raw.value, present, tokenInfo, i)
    ensures forall i :: 0 <= i < |pools| ==> pools[i].id == i
  {
    pools := [];
    var i := 0;
    while i < count
      invariant 0 <= i <= count
      invariant raw.None? ==> pools == []
      invariant raw.Some? ==> |pools| == i
      invariant raw.Some? ==> forall j :: 0 <= j < i ==> pools[j] == PoolAt(raw.value, present, tokenInfo, j)
    {
      if raw.None? {
        break;
      }
      var base := i * 4;
      var tokenAddr := AddressOrNull(ResultAt(raw.value, base));
      var totalDep := UintOr(ResultAt(raw.value, base + 1), 0);
      var weight := UintOr(ResultAt(raw.value, base + 2), 0);
      var poolRR := UintOr(ResultAt(raw.value, base + 3), 0);
      var sym, dec := "Token", 18;
      if Truthy(tokenAddr) && tokenInfo.Some? {
        var si := IndexOf(present, tokenAddr.value);
        if si >= 0 && ResultAt(tokenInfo.value, si * 2).Success? && ResultAt(tokenInfo.value, si * 2).result.Str? {
          sym := ResultAt(tokenInfo.value, si * 2).result.s;
        }
        if si >= 0 && ResultAt(tokenInfo.value, si * 2 + 1).Success? && ResultAt(tokenInfo.value, si * 2 + 1).result.Uint? {
          dec := ResultAt(tokenInfo.value, si * 2 + 1).result.n;
        }
      }
      pools := pools + [Pool(i, tokenAddr, totalDep, weight, poolRR, sym, dec)];
      i := i + 1;
    }
  }

  /** `raw` holds, position by position, what the chain answered to `calls`. */
  ghost predicate Answers(raw: seq<CallResult>, calls: seq<ReadCall>, answer: ReadCall -> CallResult)
  {
    |raw| == |calls| && forall j :: 0 <= j < |raw| ==> raw[j] == answer(calls[j])
  }

  /** Demapping is positionally correct: when the batch answers the pool
      reads, every field of pool `i` is the answer to that pool's own read. */
  lemma DemapIsPositional(raw: seq<CallResult>, count: nat, answer: ReadCall -> CallResult,
                          present: seq<Address>, tokenInfo: Option<seq<CallResult>>, i: nat)
    requires Answers(raw, PoolInfoContracts(count), answer)
    requires i < count
    ensures var p := PoolAt(raw, present, tokenInfo, i);
      && p.id == i
      && p.tokenAddr == AddressOrNull(answer(GetPoolToken(i)))
      && p.totalDeposited == UintOr(answer(GetPoolTotalDeposited(i)), 0)
      && p.rewardWeight == UintOr(answer(GetPoolRewardWeight(i)), 0)
      && p.poolRewardRate == UintOr(answer(GetPoolRewardRate(i)), 0)
  {
    PoolInfoOffsets(count, i, 0);
    PoolInfoOffsets(count, i, 1);
    PoolInfoOffsets(count, i, 2);
    PoolInfoOffsets(count, i, 3);
  }

  /** A failed read only resets its own field: every other field of every
      pool is unchanged, and the failed one takes its default. */
  lemma FailureIsLocal(raw: seq<CallResult>, p: nat, present: seq<Address>,
                       tokenInfo: Option<seq<CallResult>>, i: nat)
    requires p < |raw|
    ensures var before := PoolAt(raw, present, tokenInfo, i);
      var after := PoolAt(raw[p := Failure], present, tokenInfo, i);
      && (4 * i != p ==> after.tokenAddr == before.tokenAddr && after.symbol == before.symbol
                         && after.decimals == before.decimals)
      && (4 * i + 1 != p ==> after.totalDeposited == before.totalDeposited)
      && (4 * i + 2 != p ==> after.rewardWeight == before.rewardWeight)
      && (4 * i + 3 != p ==> after.poolRewardRate == before.poolRewardRate)
      && (4 * i == p ==> after.tokenAddr == None && after.symbol == "Token" && after.decimals == 18)
      && (4 * i + 1 == p ==> after.totalDeposited == 0)
      && (4 * i + 2 == p ==> after.rewardWeight == 0)
      && (4 * i + 3 == p ==> after.poolRewardRate == 0)
  {
  }

  /** The token lookup never misses: every present pool token is in the
      filtered list, and the metadata batch, answered in order, yields the
      symbol and decimals read for that very address. */
  lemma TokenMetaIsPositional(raw: seq<CallResult>, count: nat, answer: ReadCall -> CallResult,
                              addrs: seq<Option<Address>>, tokenInfo: seq<CallResult>, i: nat)
    requires |addrs| == count && i < count
    requires forall j :: 0 <= j < count ==> addrs[j] == AddressOrNull(ResultAt(raw, 4 * j))
    requires Answers(tokenInfo, TokenInfoContracts(Present(addrs)), answer)
    ensures var p := PoolAt(raw, Present(addrs), Some(tokenInfo), i);
      Truthy(p.tokenAddr) ==>
        && 0 <= IndexOf(Present(addrs), p.tokenAddr.value)
        && p.symbol == StrOr(answer(Symbol(p.tokenAddr.value)), "Token")
        && p.decimals == UintOr(answer(Decimals(p.tokenAddr.value)), 18)
  {
    var p := PoolAt(raw, Present(addrs), Some(tokenInfo), i);
    if Truthy(p.tokenAddr) {
      assert addrs[i] == p.tokenAddr;
      MetaFromAnswers(Present(addrs), tokenInfo, answer, p.tokenAddr.value);
    }
  }

  /** Looking an address up in an answered metadata batch reads the answers
      to that address's own symbol and decimals calls. */
  lemma MetaFromAnswers(present: seq<Address>, tokenInfo: seq<CallResult>,
                        answer: ReadCall -> CallResult, a: Address)
    requires Answers(tokenInfo, TokenInfoContracts(present), answer)
    requires a in present && a != ""
    ensures TokenMeta(Some(a), present, Some(tokenInfo))
            == (StrOr(answer(Symbol(a)), "Token"), UintOr(answer(Decimals(a)), 18))
  {
    var si := IndexOf(present, a);
    var calls := TokenInfoContracts(present);
    assert (si * 2) / 2 == si && (si * 2) % 2 == 0;
    assert (si * 2 + 1) / 2 == si && (si * 2 + 1) % 2 == 1;
    assert calls[si * 2] == Symbol(a);
    assert calls[si * 2 + 1] == Decimals(a);
  }

  // ---------------------------------------------------------------------
  // Selected pool: APR guard, buttons and handlers
  // ---------------------------------------------------------------------

  /** `pools[selectedPool]`, undefined past the end. */
  function CurrentPool(pools: seq<Pool>, selected: nat): (p: Option<Pool>)
    ensures p.Some? <==> selected < |pools|
  {
    if selected < |pools| then Some(pools[selected]) else None
  }

  /** The pool APR, in exact arithmetic: the token's decimals cancel out,
      leaving rate x blocks per year / total deposited x 100. */
  function PoolApr(pool: Option<Pool>): (apr: Option<real>)
    ensures apr.Some? <==> pool.Some? && pool.value.poolRewardRate > 0 && pool.value.totalDeposited > 0
    ensures apr.Some? ==> apr.value > 0.0
  {
    if pool.Some? && pool.value.poolRewardRate > 0 && pool.value.totalDeposited > 0 then
      Some((pool.value.poolRewardRate * BlocksPerYearEth * 100) as real / pool.value.totalDeposited as real)
    else None
  }

  /** The pool APR card shows a dash exactly when the guard fails. */
  lemma PoolAprDashIff(pool: Option<Pool>)
    ensures FormatApr(PoolApr(pool)) == Dash <==>
      pool.None? || pool.value.poolRewardRate == 0 || pool.value.totalDeposited == 0
  {
  }

  /** Claim needs a known, non-zero unclaimed reward. */
  predicate ClaimEnabled(working: bool, unclaimed: Option<nat>)
  {
    !(working || unclaimed.None? || unclaimed.value == 0)
  }

  /** Exit needs a known, non-zero deposit. */
  predicate ExitEnabled(working: bool, deposited: Option<nat>)
  {
    !(working || deposited.None? || deposited.value == 0)
  }

  lemma ClaimExitGuards(working: bool, unclaimed: Option<nat>, deposited: Option<nat>)
    ensures ClaimEnabled(working, unclaimed) <==> !working && unclaimed.Some? && unclaimed.value > 0
    ensures ExitEnabled(working, deposited) <==> !working && deposited.Some? && deposited.value > 0
  {
  }

  /** The dashboard's form state: the selected pool and the two amount fields. */
  class PoolForm {
    var selected: nat
    var depositAmount: AmountInput
    var withdrawAmount: AmountInput

    constructor ()
      ensures selected == 0 && depositAmount == Blank && withdrawAmount == Blank
    {
      selected := 0;
      depositAmount := Blank;
      withdrawAmount := Blank;
    }

    /** A click on a pool button selects it and clears both amounts. */
    method SelectPool(id: nat)
      modifies this
      ensures selected == id && depositAmount == Blank && withdrawAmount == Blank
    {
      selected := id;
      depositAmount := Blank;
      withdrawAmount := Blank;
    }
  }

  /** Right after a pool is selected neither amount button is enabled, and a
      click on either would send nothing. */
  lemma FreshSelectionSendsNothing(working: bool, allowance: Option<nat>, pool: Pool, selected: nat)
    ensures !AmountButtonEnabled(working, Blank)
    ensures DepositCalls(DepositGate(Blank, allowance), pool, selected) == []
    ensures WithdrawCalls(Blank, selected) == []
  {
  }

  /** The calls one deposit click sends: the approval names the pool's token,
      the deposit takes (poolId, amount). */
  function DepositCalls(step: DepositStep, pool: Pool, selected: nat): (calls: seq<WriteCall>)
    ensures |calls| <= 1
    ensures step.NeedsApproval? ==> calls == [Approve(pool.tokenAddr, StakingPoolsAddress, step.amount)]
    ensures step.Deposit? ==> calls == [PoolDeposit(selected, step.amount)]
    ensures calls == [] <==> step.NoCall? || step.ParseError?
  {
    match step
    case NeedsApproval(a) => [Approve(pool.tokenAddr, StakingPoolsAddress, a)]
    case Deposit(a) => [PoolDeposit(selected, a)]
    case _ => []
  }

  /** `handleDeposit`, reachable only while a pool is selected. */
  method HandleDeposit(wallet: Wallet, input: AmountInput, allowance: Option<nat>,
                       pool: Pool, selected: nat) returns (failed: bool)
    modifies wallet
    ensures wallet.sent == old(wallet.sent) + DepositCalls(DepositGate(input, allowance), pool, selected)
    ensures failed <==> DepositGate(input, allowance) == ParseError
  {
    failed := false;
    if input.Blank? || !input.positive {
      return;
    }
    if input.scaled.None? {
      failed := true;
      return;
    }
    var amount := input.scaled.value;
    if allowance.None? || allowance.value < amount {
      wallet.WriteContract(Approve(pool.tokenAddr, StakingPoolsAddress, amount));
      return;
    }
    wallet.WriteContract(PoolDeposit(selected, amount));
  }

  /** The calls one withdraw click sends. */
  function WithdrawCalls(input: AmountInput, selected: nat): (calls: seq<WriteCall>)
    ensures Ignored(input) || input.scaled.None? <==> calls == []
    ensures !Ignored(input) && input.scaled.Some? ==> calls == [PoolWithdraw(selected, input.scaled.value)]
  {
    if Ignored(input) || input.scaled.None? then [] else [PoolWithdraw(selected, input.scaled.value)]
  }

  /** `handleWithdraw`: nothing for an empty or non-positive amount; a failing
      `parseUnits` stops the handler. */
  method HandleWithdraw(wallet: Wallet, input: AmountInput, selected: nat) returns (failed: bool)
    modifies wallet
    ensures wallet.sent == old(wallet.sent) + WithdrawCalls(input, selected)
    ensures failed <==> !Ignored(input) && input.scaled.None?
  {
    failed := false;
    if input.Blank? || !input.positive {
      return;
    }
    if input.scaled.None? {
      failed := true;
      return;
    }
    wallet.WriteContract(PoolWithdraw(selected, input.scaled.value));
  }

  method HandleClaim(wallet: Wallet, selected: nat)
    modifies wallet
    ensures wallet.sent == old(wallet.sent) + [PoolClaim(selected)]
  {
    wallet.WriteContract(PoolClaim(selected));
  }

  method HandleExit(wallet: Wallet, selected: nat)
    modifies wallet
    ensures wallet.sent == old(wallet.sent) + [PoolExit(selected)]
  {
    wallet.WriteContract(PoolExit(selected));
  }
}
