/** The calls the dashboards hand to the chain: read calls batched into one
    multicall, write calls handed to the wallet, and the allowance rule both
    staking dashboards apply before a deposit. */
module Calls {

  import opened Common

  /** Address of the weighted-lock farming contract on BSC. */
  const BoostPoolAddress: Address := "0x3Dcd32Dd2b225749Aa830Ca3B4F2411BFEB03DB4"
  /** Address of the multi-pool staking contract on Ethereum. */
  const StakingPoolsAddress: Address := "0x99E4eA9eF6bf396C49B35FF9478EbB8890aEF581"

  /** Read-only calls that are issued through a batch. */
  datatype ReadCall =
    | GetPoolToken(pool: nat)
    | GetPoolTotalDeposited(pool: nat)
    | GetPoolRewardWeight(pool: nat)
    | GetPoolRewardRate(pool: nat)
    | Symbol(token: Address)
    | Decimals(token: Address)
    | GetUserDepositOrderByIndex(account: Address, index: nat)

  /** State-changing calls handed to the wallet for signature. */
  datatype WriteCall =
    | Approve(token: Option<Address>, spender: Address, amount: nat)
    | BoostDeposit(amount: nat, lockIndex: nat)
    | BoostWithdraw(indices: seq<nat>)
    | StartCoolDown
    | BoostClaim
    | ClaimImmediately
    | PoolDeposit(poolId: nat, amount: nat)
    | PoolWithdraw(poolId: nat, amount: nat)
    | PoolClaim(poolId: nat)
    | PoolExit(poolId: nat)

  /** The wallet's write entry point (`writeContract`): every call handed to
      it is recorded, in order. */
  class Wallet {
    var sent: seq<WriteCall>

    constructor ()
      ensures sent == []
    {
      sent := [];
    }

    method WriteContract(c: WriteCall)
      modifies this
      ensures sent == old(sent) + [c]
    {
      sent := sent + [c];
    }
  }

  /** An amount text field. `Blank` is the empty string; otherwise `positive`
      says whether `!(Number(text) <= 0)`, which holds for a text that is not
      a number, and `scaled` is the integer that `parseUnits(text, decimals)`
      yields, or None when it throws. */
  datatype AmountInput = Blank | Typed(positive: bool, scaled: Option<nat>)

  /** True when the handler returns at once: `!text || Number(text) <= 0`. */
  predicate Ignored(input: AmountInput)
  {
    input.Blank? || !input.positive
  }

  /** An amount button (deposit, or withdraw on the multi-pool panel) is
      disabled while a transaction is in flight or while its field is empty. */
  predicate AmountButtonEnabled(working: bool, input: AmountInput)
  {
    !(working || input.Blank?)
  }

  /** What a click on the deposit button leads to. */
  datatype DepositStep =
    | NoCall                  // blank or non-positive amount
    | ParseError              // parseUnits throws; nothing is sent
    | NeedsApproval(amount: nat)
    | Deposit(amount: nat)

  /** The allowance rule shared by both staking dashboards. */
  function DepositGate(input: AmountInput, allowance: Option<nat>): (g: DepositStep)
    ensures g == NoCall <==> Ignored(input)
    ensures g == ParseError <==> !Ignored(input) && input.scaled.None?
    ensures g.NeedsApproval? <==>
      !Ignored(input) && input.scaled.Some? && (allowance.None? || allowance.value < input.scaled.value)
    ensures g.Deposit? <==>
      !Ignored(input) && input.scaled.Some? && allowance.Some? && allowance.value >= input.scaled.value
    ensures (g.NeedsApproval? || g.Deposit?) ==> g.amount == input.scaled.value
  {
    if Ignored(input) then NoCall
    else if input.scaled.None? then ParseError
    else if allowance.None? || allowance.value < input.scaled.value then NeedsApproval(input.scaled.value)
    else Deposit(input.scaled.value)
  }

  /** The deposit button's label; a parse failure falls back to "Stake". */
  function DepositLabel(input: AmountInput, allowance: Option<nat>): string
  {
    if Ignored(input) then "Stake"
    else match input.scaled
      case None => "Stake"
      case Some(a) => if allowance.None? || allowance.value < a then "Approve Token" else "Stake"
  }

  /** The button guard is weaker than the handler's: an idle button is
      enabled exactly for a non-empty field, so a typed "0" can be clicked,
      and the click then sends nothing. */
  lemma AmountButtonAdmitsIgnored(working: bool, input: AmountInput, allowance: Option<nat>)
    ensures AmountButtonEnabled(working, input) <==> !working && input.Typed?
    ensures !AmountButtonEnabled(working, input) && !working ==> DepositGate(input, allowance) == NoCall
    ensures input.Typed? && !input.positive ==>
      AmountButtonEnabled(false, input) && DepositGate(input, allowance) == NoCall
  {
  }

  /** The label announces an approval exactly when a click would send one. */
  lemma LabelAnnouncesApproval(input: AmountInput, allowance: Option<nat>)
    ensures DepositLabel(input, allowance) == "Approve Token" <==> DepositGate(input, allowance).NeedsApproval?
    ensures DepositLabel(input, allowance) != "Approve Token" ==> DepositLabel(input, allowance) == "Stake"
  {
  }

  /** Approving exactly the requested amount is enough: with that allowance
      the same input deposits the same amount and the label reads "Stake". */
  lemma ApprovalUnlocksDeposit(input: AmountInput, allowance: Option<nat>, granted: nat)
    requires DepositGate(input, allowance).NeedsApproval?
    requires granted >= DepositGate(input, allowance).amount
    ensures DepositGate(input, Some(granted)) == Deposit(DepositGate(input, allowance).amount)
    ensures DepositLabel(input, Some(granted)) == "Stake"
  {
  }

  /** A larger allowance never turns a deposit back into an approval. */
  lemma DepositMonotoneInAllowance(input: AmountInput, a: nat, b: nat)
    requires a <= b
    requires DepositGate(input, Some(a)).Deposit?
    ensures DepositGate(input, Some(b)) == DepositGate(input, Some(a))
  {
  }
}
