# NAOS staking dashboard — a Dafny model

This project models the logic of a React dashboard for two staking contracts:

- **BoostPool**, a weighted-lock yield farm on BSC. The user deposits with a lock configuration. Each deposit becomes an *order* with an expiry time. Rewards are claimed either immediately, at a penalty, or in full inside a claim window that opens after a cooldown.
- **StakingPools**, a multi-pool staking contract on Ethereum. Pool data is read through one batched *multicall*, and the token metadata through a second batch.

The model covers the values the components compute from chain data and the calls they hand to the wallet:

- the countdown text and its parser;
- the cooldown phases and the claim buttons they enable;
- the allowance rule that turns a deposit click into an approval or a deposit;
- decoding the order batch and building the "withdraw all unlocked" list;
- demapping the multi-pool batch by offset and looking up token metadata;
- whether the reward token is the staked token, and the remaining rewards;
- when each APR is defined, and when the "boost vs avg" note shows;
- APR formatting;
- the network tabs and the chain switch they request;
- the wallet widget.

Modules:

- `Common`: nullable values, per-call batch results, and the chain ids (1 Ethereum mainnet, 56 BSC, 97 BSC testnet).
- `Text`: decimal rendering and parsing, join and split.
- `Calls`: the read and write calls, the `Wallet` that records every write call, and the deposit gate both staking panels share.
- `UserDashboard`, `EthStakingDashboard`, `ContractInfo`, `App` and `WalletConnect`: one module per component.
- `Apr`: `formatApr`. ContractInfo.jsx and EthStakingDashboard.jsx (`fmtApr`) define it identically.

State that the source changes in place is modelled with classes. The wallet's `writeContract` is a `Wallet` whose `sent` sequence grows by one call per write. The shell's tab state is `App.AppState`, and the multi-pool form is `EthStakingDashboard.PoolForm`. The handlers are methods that say exactly which calls they append. The two loops of the multi-pool dashboard are methods with loop invariants, proved against the functions `PoolAt` and `AddressOrNull ∘ ResultAt`. Those functions are in turn proved positionally correct against the batch layout.

An amount text field is modelled by what the handlers observe of it:

- `Blank` is the empty string.
- Otherwise `positive` says whether `!(Number(text) <= 0)`. This also holds for a text that is not a number, which then reaches `parseUnits` and throws.
- `scaled` is the integer `parseUnits` yields, or `None` when it throws.

A throw in `handleDeposit` and `handleWithdraw` escapes, and nothing is sent; the methods report it as `failed`. The deposit label catches the same throw and falls back to "Stake".

Two behaviours worth noting:

- Token metadata reads are not de-duplicated: two pools on one token give four reads (`EthStakingDashboard.DuplicatesNotRemoved`, `EthStakingDashboard.PresentCount`).
- "Start Cooldown" is disabled during both the cooldown and the claim window (`UserDashboard.CooldownButtonsExclusive`).

APRs are exact rationals (`real`). The decimal scaling by `formatUnits` cancels out of every ratio the components compute, so the model uses the raw integers.

## Model

| member | source | states |
|---|---|---|
| Common.ResultAt | src/components/EthStakingDashboard.jsx:80-83 | an index past the end of a batch reads as a failed call; otherwise the entry itself |
| Text.NatToString | src/components/UserDashboard.jsx:17-20 | the decimal rendering of a count is non-empty, all digits, and has two or more digits exactly when the count is at least 10 |
| Text.ParseNatToString | src/components/UserDashboard.jsx:17-20 | parsing the rendering of any count gives back that count |
| Text.SplitJoin | src/components/UserDashboard.jsx:21 | joining one or more separator-free words and splitting the result gives back exactly those words |
| Calls.Wallet.constructor | src/components/UserDashboard.jsx:117 | a fresh wallet has sent nothing |
| Calls.Wallet.WriteContract | src/components/UserDashboard.jsx:117 | every write call is appended, in order, and nothing else changes |
| Calls.DepositGate | src/components/UserDashboard.jsx:141-149 | no call for an empty or non-positive amount; a parse failure when `parseUnits` throws; an approval exactly when the allowance is unread or below the amount; otherwise a deposit; both carry exactly the parsed amount |
| Calls.LabelAnnouncesApproval | src/components/UserDashboard.jsx:172-179 | `DepositLabel`: the button reads "Approve Token" exactly when a click would send an approval, and "Stake" otherwise, including when parsing fails |
| Calls.ApprovalUnlocksDeposit | src/components/UserDashboard.jsx:144-148 | once the allowance covers the amount, the same input deposits that amount and the label reads "Stake" |
| Calls.AmountButtonAdmitsIgnored | src/components/UserDashboard.jsx:330 | `AmountButtonEnabled` (also EthStakingDashboard.jsx:280 and 301): an idle button is enabled exactly for a non-empty field; a typed non-positive amount can be clicked and sends nothing |
| Calls.DepositMonotoneInAllowance | src/components/EthStakingDashboard.jsx:160-164 | raising the allowance never turns a deposit back into an approval |
| UserDashboard.Decompose | src/components/UserDashboard.jsx:12-15 | the split into days, hours, minutes and seconds keeps each unit in range and recomposes to the input |
| UserDashboard.RecomposeDecomposes | src/components/UserDashboard.jsx:12-15 | every in-range duration is what the split of its own total yields, so the split is the unique one |
| UserDashboard.CountdownParts | src/components/UserDashboard.jsx:16-20 | there is always at least one part, and the last one is the seconds |
| UserDashboard.FormatCountdown | src/components/UserDashboard.jsx:10-22 | building the parts step by step yields the countdown text `CountdownText`; it is "Ready!" exactly when no time remains, and otherwise splits back into its parts |
| UserDashboard.CountdownSplits | src/components/UserDashboard.jsx:21 | the joined countdown splits on spaces into exactly its parts |
| UserDashboard.CountdownRoundTrip | src/components/UserDashboard.jsx:10-22 | reading the countdown text back gives the number of seconds it was made from |
| UserDashboard.CountdownReadyIff | src/components/UserDashboard.jsx:11 | "Ready!" is shown exactly when the remaining time is zero or negative |
| UserDashboard.CountdownUnitShown | src/components/UserDashboard.jsx:17-19 | a day, hour or minute part appears exactly when its count is non-zero, so a zero unit between two shown ones is dropped |
| UserDashboard.CountdownExamples | src/components/UserDashboard.jsx:10-22 | 0 and -5 give "Ready!", 5 gives "5s", 86405 gives "1d 5s", 90065 gives "1d 1h 1m 5s" |
| UserDashboard.Cooldown | src/components/UserDashboard.jsx:132-137 | a cooldown exists exactly when the period was read and one bound is non-zero; cooling down, in window and expired are before start, inside [start, end] and after end, and all false without a cooldown |
| UserDashboard.PhasesExclusive | src/components/UserDashboard.jsx:134-137 | for a window with start no later than end, at most one phase holds, and exactly one while a cooldown exists |
| UserDashboard.InvertedWindowOverlaps | src/components/UserDashboard.jsx:135-137 | with end before start, "cooling down" and "expired" hold together |
| UserDashboard.PhaseExamples | src/components/UserDashboard.jsx:135-137 | for a one-day window, the second before it, its first second and the second after it fall in the three phases |
| UserDashboard.CooldownCardNeverEmpty | src/components/UserDashboard.jsx:234-256 | `CooldownCard`: the card's final null branch is unreachable; the countdown to the window never reads "Ready!"; the countdown to its end reads "Ready!" only at its last second |
| UserDashboard.CooldownButtonsExclusive | src/components/UserDashboard.jsx:268-284 | `StartCooldownEnabled` and `FullClaimEnabled`: "Start Cooldown" and "Claim Full Rewards" are never enabled together; when idle, one of them is enabled unless cooling down; without an active cooldown, "Start Cooldown" is enabled |
| UserDashboard.ClaimImmediatelyIgnoresPhase | src/components/UserDashboard.jsx:293 | `ClaimImmediatelyEnabled`: "Claim Immediately" is enabled exactly when idle with a known non-zero immediate reward, whatever the phase |
| UserDashboard.DepositCalls | src/components/UserDashboard.jsx:141-149 | an approval of exactly the amount, naming the pool token and the BoostPool contract, or a deposit of the amount with the chosen lock index; nothing otherwise |
| UserDashboard.HandleDeposit | src/components/UserDashboard.jsx:141-149 | the wallet receives exactly the calls the gate prescribes, and the handler fails exactly on a parse error |
| UserDashboard.HandleWithdraw | src/components/UserDashboard.jsx:151-153 | one withdraw call carrying the given indices |
| UserDashboard.HandleStartCooldown | src/components/UserDashboard.jsx:155-157 | one `startCoolDown` call |
| UserDashboard.HandleClaim | src/components/UserDashboard.jsx:159-161 | one `claim` call |
| UserDashboard.HandleClaimImmediately | src/components/UserDashboard.jsx:163-165 | one `claimImmediately` call |
| UserDashboard.OrderContracts | src/components/UserDashboard.jsx:102-109 | one order read per index, for the connected account, in index order |
| UserDashboard.OrdersOf | src/components/UserDashboard.jsx:185-189 | no orders before the batch answers; then every order is the successful read at its own index, and every successful read appears |
| UserDashboard.UnreadCountShowsNothing | src/components/UserDashboard.jsx:99-113 | `OrderCount`: an unread count requests no order reads and shows nothing withdrawable; a read count requests one read per order |
| UserDashboard.DecodeOrders | src/components/UserDashboard.jsx:185-189 | every decoded order is the successful read at its own batch index; indices strictly ascend; every successful read appears |
| UserDashboard.WithdrawableIndices | src/components/UserDashboard.jsx:191 | an index is listed exactly when some order with that index is unlocked; the list is no longer than the orders |
| UserDashboard.WithdrawableAscending | src/components/UserDashboard.jsx:191 | taken from orders with ascending indices, the list is strictly ascending, so it has no duplicates |
| UserDashboard.WithdrawableFromBatch | src/components/UserDashboard.jsx:185-191 | read off the batch, the list is exactly the positions of successful, not-withdrawn orders that expired strictly before now, ascending |
| UserDashboard.WithdrawableExample | src/components/UserDashboard.jsx:191 | of an order expired 10 s ago, one expiring in 10 s and one already withdrawn, only index 0 is withdrawable |
| UserDashboard.ExpiringNowIsLocked | src/components/UserDashboard.jsx:191 | an order expiring exactly now is not withdrawable (strict comparison) |
| UserDashboard.RowButtonMatchesBulk | src/components/UserDashboard.jsx:389-394 | the per-row Withdraw button shows exactly for orders the bulk button would withdraw |
| UserDashboard.OrderBadgeOf | src/components/UserDashboard.jsx:378-387 | "Withdrawn" exactly for withdrawn orders; "Unlocked" exactly for unlocked ones; otherwise a non-negative countdown to expiry |
| UserDashboard.LockedBadgeReadsReady | src/components/UserDashboard.jsx:385 | a locked badge reads "Ready!" exactly in the second the order expires, while the order is still locked |
| Apr.FormatApr | src/components/ContractInfo.jsx:130-135 | a dash exactly when the APR is unknown; otherwise mantissa times the suffix's scale is the APR, with "M" above 1,000,000, "K" above 1,000 up to 1,000,000, and no suffix up to 1,000 |
| Apr.MantissaRange | src/components/ContractInfo.jsx:132-133 | a scaled mantissa is above 1, and at most 1000 in thousands |
| Apr.AprExamples | src/components/EthStakingDashboard.jsx:149-154 | 1500 gives 1.5 K, 2,500,000 gives 2.5 M, 1000 and 999 and 0 get no suffix, unknown gives a dash |
| EthStakingDashboard.PoolInfoContracts | src/components/EthStakingDashboard.jsx:42-47 | 4 x count reads; read j is field j mod 4 of pool j div 4 |
| EthStakingDashboard.UnreadPoolCountReadsNothing | src/components/EthStakingDashboard.jsx:39-47 | `PoolCount`: an unread count requests no pool reads; a read count requests four per pool |
| EthStakingDashboard.PoolInfoOffsets | src/components/EthStakingDashboard.jsx:79-83 | offset 4i+k holds field k of pool i |
| EthStakingDashboard.PoolTokenAddresses | src/components/EthStakingDashboard.jsx:55-62 | nothing before the batch answers; then one entry per pool, the token read at offset 4i or null where it failed |
| EthStakingDashboard.Present | src/components/EthStakingDashboard.jsx:64 | keeps only present, non-empty addresses, and every one of them |
| EthStakingDashboard.PresentAppend | src/components/EthStakingDashboard.jsx:64 | filtering distributes over concatenation and keeps one entry exactly when it is present and non-empty, so the order and the repetitions of the input are kept |
| EthStakingDashboard.PresentCount | src/components/EthStakingDashboard.jsx:64-67 | one kept address, and two metadata reads, per pool position with a token, repeated tokens counted each time |
| EthStakingDashboard.TokenInfoContracts | src/components/EthStakingDashboard.jsx:64-67 | two reads per present address: symbol at 2i, decimals at 2i+1 |
| EthStakingDashboard.DuplicatesNotRemoved | src/components/EthStakingDashboard.jsx:64-67 | two pools on one token produce four metadata reads, not two |
| EthStakingDashboard.IndexOf | src/components/EthStakingDashboard.jsx:87 | the first position of the address, or -1 exactly when it is absent |
| EthStakingDashboard.BuildPools | src/components/EthStakingDashboard.jsx:75-93 | no pools before the batch answers; then pool i has id i and is built from offsets 4i..4i+3 and its token's metadata |
| EthStakingDashboard.DemapIsPositional | src/components/EthStakingDashboard.jsx:79-83 | `PoolAt`: when the batch answers the pool reads, every field of pool i is the answer to pool i's own read of that field |
| EthStakingDashboard.FailureIsLocal | src/components/EthStakingDashboard.jsx:80-83 | a failed read resets only its own field, to null or 0, leaving every other field of every pool unchanged |
| EthStakingDashboard.TokenMetaIsPositional | src/components/EthStakingDashboard.jsx:86-89 | `TokenMeta`: a pool with a token always finds it in the filtered list and gets the symbol and decimals read for that address |
| EthStakingDashboard.MetaFromAnswers | src/components/EthStakingDashboard.jsx:87-89 | looking an address up in an answered metadata batch reads the answers to its own symbol and decimals calls |
| EthStakingDashboard.CurrentPool | src/components/EthStakingDashboard.jsx:95 | a pool is selected exactly when the index is in range |
| EthStakingDashboard.PoolApr | src/components/EthStakingDashboard.jsx:142-147 | defined exactly for a selected pool with positive reward rate and deposits, and then positive |
| EthStakingDashboard.PoolAprDashIff | src/components/EthStakingDashboard.jsx:142-154 | the APR card shows a dash exactly when the guard fails |
| EthStakingDashboard.ClaimExitGuards | src/components/EthStakingDashboard.jsx:312-316 | `ClaimEnabled`, `ExitEnabled`: Claim and Exit are enabled exactly when idle with a known non-zero reward, respectively deposit |
| EthStakingDashboard.PoolForm.constructor | src/components/EthStakingDashboard.jsx:12-14 | pool 0 is selected and both amounts are empty |
| EthStakingDashboard.PoolForm.SelectPool | src/components/EthStakingDashboard.jsx:201 | selecting a pool sets it and clears both amount fields |
| EthStakingDashboard.FreshSelectionSendsNothing | src/components/EthStakingDashboard.jsx:280 | after a selection, the amount buttons are disabled and a click would send nothing |
| EthStakingDashboard.DepositCalls | src/components/EthStakingDashboard.jsx:157-165 | an approval of the amount naming the pool's token and the StakingPools contract, or a deposit of (pool id, amount); nothing otherwise |
| EthStakingDashboard.HandleDeposit | src/components/EthStakingDashboard.jsx:157-165 | the wallet receives exactly the calls the gate prescribes, and the handler fails exactly on a parse error |
| EthStakingDashboard.WithdrawCalls | src/components/EthStakingDashboard.jsx:167-170 | nothing for an empty, non-positive or unparsable amount; otherwise one withdraw of (pool id, parsed amount) |
| EthStakingDashboard.HandleWithdraw | src/components/EthStakingDashboard.jsx:167-170 | the wallet receives exactly those calls, and the handler fails exactly when parsing throws |
| EthStakingDashboard.HandleClaim | src/components/EthStakingDashboard.jsx:172-174 | one claim of the selected pool |
| EthStakingDashboard.HandleExit | src/components/EthStakingDashboard.jsx:176-178 | one exit of the selected pool |
| ContractInfo.ToLower | src/components/ContractInfo.jsx:85 | lower-casing keeps the length and maps each character on its own |
| ContractInfo.ToLowerIdempotent | src/components/ContractInfo.jsx:85 | lower-casing twice equals lower-casing once |
| ContractInfo.SameTokenProperties | src/components/ContractInfo.jsx:85 | `IsSameToken`: the same-token test is symmetric, reflexive on known addresses, and blind to letter case |
| ContractInfo.SameTokenExamples | src/components/ContractInfo.jsx:85 | mixed-case spellings of one address match; different addresses do not; an unknown address never matches |
| ContractInfo.RemainingRewards | src/components/ContractInfo.jsx:88-96 | unknown exactly until the balance is read; never negative and never above the balance; balance minus deposits, floored at 0, for a same-token pool with known deposits; otherwise the whole balance |
| ContractInfo.RemainingSplitsBalance | src/components/ContractInfo.jsx:90-91 | for a same-token pool, deposits plus remaining rewards cover the balance, exactly when the balance covers the deposits |
| ContractInfo.RemainingMonotone | src/components/ContractInfo.jsx:88-96 | a larger balance never shows fewer remaining rewards |
| ContractInfo.PoolAvgApr | src/components/ContractInfo.jsx:111-117 | defined exactly when the rate is read and total weight and deposits are positive; never negative, and positive exactly when the rate is |
| ContractInfo.UserApr | src/components/ContractInfo.jsx:119-127 | defined exactly when the pool APR's guard holds and the user's deposit and weight are positive, and never without the pool APR |
| ContractInfo.BoostBadgeIff | src/components/ContractInfo.jsx:189 | `BoostBadge`: the boost note shows exactly when rewards flow and the user's weight share exceeds their deposit share; equal shares give equal APRs |
| ContractInfo.BoostBadgeNeedsBoth | src/components/ContractInfo.jsx:189 | the note never shows next to a dash |
| App.FindNetwork | src/App.jsx:26 | finds a tab exactly when one has the id, and then the first such tab |
| App.NetworksWellFormed | src/App.jsx:10-13 | tab ids and chain ids are pairwise distinct; "eth" is mainnet and "bsc" is BSC |
| App.InitialTab | src/App.jsx:18-22 | Ethereum exactly when connected to mainnet; BSC otherwise, also with no chain |
| App.InitialTabMatchesChain | src/App.jsx:18-22 | the start-up tab always exists and, when the chain has a tab, it is that chain's tab |
| App.SwitchRequestFor | src/App.jsx:27-29 | at most one request; one exactly when the tab exists, the wallet is connected, a switch function exists and the chain differs (an unknown chain differs); it asks for the tab's chain |
| App.SwitchSettles | src/App.jsx:27 | once the wallet is on the requested chain, a second click requests nothing |
| App.MainContent | src/App.jsx:109-117 | the connect prompt exactly when disconnected; the BSC pair exactly on tab "bsc"; the Ethereum dashboard on any other tab |
| App.AtMostOneDot | src/App.jsx:95 | `OnChainDot`: at most one tab carries the on-chain dot |
| App.AppState.constructor | src/App.jsx:18-22 | starts on the tab for the connected chain with no switch requested |
| App.AppState.HandleTabSwitch | src/App.jsx:24-30 | the tab is always selected, even an unknown one, and exactly the requests `SwitchRequestFor` prescribes are added |
| App.AppState.CurrentNetwork | src/App.jsx:32 | the tab whose id is the active one, or none when no tab has it |
| App.SwitchToBscTab | src/App.jsx:24-30 | choosing "bsc" off BSC while connected shows the BSC pair and requests chain 56; disconnected it requests nothing |
| App.UnknownTab | src/App.jsx:24-30 | an unknown tab id requests nothing and shows the Ethereum dashboard |
| WalletConnect.Head | src/components/WalletConnect.jsx:7 | `slice(0, n)` is a prefix of length min(n, length) |
| WalletConnect.Tail | src/components/WalletConnect.jsx:7 | `slice(-n)` is the suffix of length min(n, length) |
| WalletConnect.FormatAddress | src/components/WalletConnect.jsx:5-8 | empty for a missing or empty address; otherwise the first six characters, "..." and the last four |
| WalletConnect.FormatAddressShape | src/components/WalletConnect.jsx:5-8 | an address of ten or more characters shortens to 13 characters: its first six, "...", its last four |
| WalletConnect.FormatAddressKeepsEnds | src/components/WalletConnect.jsx:5-8 | two long addresses shorten alike exactly when they share their first six and last four characters |
| WalletConnect.FormatAddressExamples | src/components/WalletConnect.jsx:5-8 | no address and the empty string give ""; a 4-character address appears on both sides of the ellipsis |
| WalletConnect.NetworkBadge | src/components/WalletConnect.jsx:17-30 | with `IsBscNetwork`: "BSC Mainnet" exactly on 56, "BSC Testnet" exactly on 97, "Wrong Network" exactly elsewhere |
| WalletConnect.FindInjected | src/components/WalletConnect.jsx:60 | no connector exactly when none is injected; otherwise the first injected one |
| WalletConnect.WalletWidget | src/components/WalletConnect.jsx:19-72 | connected: the badge, the short address and, exactly off BSC, an offer to switch to chain 56; disconnected: the connect button, disabled and reading "Connecting..." exactly while pending |
| WalletConnect.SwitchOfferSettles | src/components/WalletConnect.jsx:37-45 | accepting the offer lands on BSC Mainnet, where no offer is shown |
| WalletConnect.ConnectExamples | src/components/WalletConnect.jsx:60-66 | the first injected connector is used even after a non-injected one; with none, the click does nothing |

## Left out

- React hooks, polling intervals, refetch-after-confirmation and the one-second clock. The current time, the chain's answers and the pending/confirming flags are parameters.
- `parseUnits`/`formatUnits` and decimal scaling. An amount field is represented by whether it is positive and by its parsed integer (or a parse failure). Displayed amounts (`toLocaleString`, `toFixed`) are not rendered.
- Floating point. APRs are exact reals, so rounding in `Number(...)` and in the division is not modelled. `Apr.FormatApr` returns the mantissa and suffix rather than the two-decimal string.
- ContractInfo.RemainingRewards: returns the integer before decimal scaling, not the `Number` the component displays.
- The chain ids 1, 56 and 97 come from the wallet library's chain definitions. Those definitions are not part of this model.
- Common.ResultAt, UintOr, AddressOrNull, StrOr: a successful result of the wrong ABI type reads as the default. The library never yields one.
- UserDashboard.DecodeOrders: a successful read with a falsy `result` is not modelled, because a tuple result is always truthy.
- The cooldown length in days, the lock-configuration dropdown, the "Max" buttons and balance display, the symbol defaults, and the disconnect button are displays or direct setters with no logic to prove.
- ContractInfo.ToLower: ASCII-only lower-casing. The compared values are hex addresses, so Unicode case mapping (which can change a string's length) is not modelled.
- App.SwitchRequestFor: a missing `switchChain` function is the `canSwitch` flag.
