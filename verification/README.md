# Pair, factory and syscall machine: a Dafny model

This project models two contracts and one virtual-machine host, and proves what they keep.

* **The pair** (`uniswap-rust/src/pair.rs`, `uniswap-rust/src/math.rs`): an automated market maker
  with its own LP token. `pair_spec.dfy` gives every branch of `call` as a function of the pair's
  storage slots and of two honest EIP-20 ledgers, in 256-bit arithmetic that wraps, with reverts
  and traps kept apart; `pair.dfy` is the contract in its own form, a class that overwrites slots
  one by one with token calls in between, and each method is proved to agree with that function.
  `pair_effects.dfy` says of every call that completes, from any state, what has become of every token
  account, LP account, allowance and slot, without naming the functions that do it, and when a call traps;
  `pair_safety.dfy` and `pair_trades.dfy` prove what every step and run keeps and what a trade can get,
  `pair_supply.dfy` and `pair_reach.dfy` follow the stored supply against the LP balances through every
  reachable state; `pair_mask.dfy` says what the 128-bit mask does to skim and to both kinds of mint, and
  `pair_wrap.dfy` what it does to the check of swap;
  `pair_reentrancy.dfy` replaces the honest tokens by arbitrary ones that may call back into the
  pair at any point.
* **The factory** (`uniswap-rust/src/factory.rs`): the registry of pairs, as a state machine over
  `createPair`, arbitrary calls to the pairs on the chain, and foreign deployments.
* **The storage layout** (`uniswap-rust/src/lib.rs`): scalar slots, hashed mapping keys and array
  elements in one flat map from 32 bytes to 32 bytes, byte by byte (`Layout.KeyBytes` gives the 64 bytes that
  are hashed for each entry, place by place). `pair_storage.dfy` and
  `factory_storage.dfy` carry whole runs of both contracts down to those cells, and `pair_cells.dfy` runs
  every call of the pair on them, reads included.
* **The PolkaVM host** (`pvm/src/polkavm_runner.rs`): guest memory and registers, seventeen
  syscalls, the interrupt loop, and the sparse storage map. `polkavm_laws.dfy` says what each syscall, pass,
  run and returned result is by register and memory byte.

## Two lines that depart from their purpose

Both are kept as they are; `Variant` selects the second reading of each, and every theorem says
which it is about (`AS_WRITTEN` is both lines as they stand; a lemma with a parameter `v` holds
for all four combinations unless it requires one).

* `get_reserves` masks reserve1 with 128 bits although the field has 112
  (`uniswap-rust/src/pair.rs:98`, `uniswap-rust/IUniswapV2Pair.sol:26`), so the low 16 bits of
  reserve0 leak into it. `PackedReserves.DecodeIsExact` and `RoundTrip` say exactly when the decode
  is right (`ExactDecode`): the mask is narrow, or reserve0 is a multiple of 2^16. Burn, sync and the LP
  token do not depend on it, and a skim that reads wrong reverts while balances have 112 bits (`PairMask.SkimWorksIff`), so the run
  theorems ask for it before a mint only; before a swap they ask that 1000000 * reserve0 * reserve1, over
  the reserves as they are read, be below 2^256 (`CheckFits`). Under the 112-bit mask both always hold.
  Without them "the value of a share never falls" is false of the code, and so is "a swap never lowers
  the product":
  * In a later mint balance1 - reserve1 wraps and token1 no longer limits it (`PairMask.InexactMintIff`); a
    deposit of token0 alone, which a right decode always refuses, is accepted and dilutes every holder
    (`PairMask.OneSidedMintIff`). `PairMask.SomeDepositDilutesIff` is the exact condition and
    `PairMask.OneSidedDepositDilutes` a run from a new pair; with the whole first supply stored, the same
    mint also leaves supply^2 above reserve0 * reserve1.
  * In a first mint over reserves that were left over or synced, any deposit of token0 is accepted and credits
    at least 2^127 - 1000 shares (`PairMask.InexactFirstMintIff`, `PairMask.FirstMintAfterSync`).
  * In a swap, where the right-hand side of the check does wrap, only its residue modulo 2^256 counts
    (`PairTrades.SwapExact`). `PairWrap.SomeSwapFailsIff` says for which residues some swap fails to raise
    the product, `PairWrap.DrainIff` for which one unit of token0 buys all of token1 but one unit, and
    `PairWrap.DrainRun` is a run from a new pair in which it does.
* The first mint stores a supply of 1000 only (`uniswap-rust/src/pair.rs:322`) but credits 1000 and
  the rest of the root (`uniswap-rust/src/pair.rs:323`, `uniswap-rust/src/pair.rs:338`). As written,
  supply and the sum of balances agree exactly until the first mint and differ by
  floor(sqrt(amount0 * amount1)) - 1000 afterwards (`UnmintedIsEmpty`, `AsWrittenSupply`, and modulo
  2^256 from any state `AsWrittenGapStays`); with the whole amount stored they agree always
  (`ReachableAddsUp`). Solvency survives this: a burn of more shares than the stored supply always
  reverts in a solvent pair (`UncoveredBurnHalts`), so `ReachableIsSolvent` holds for both readings.
  But a burn of exactly the stored supply pays out both whole balances, however many other shares there
  are (`WholeSupplyBurnEmpties`): after the first mint of a new pair, 1000 of the first depositor's
  shares already redeem for everything (`FirstMintCanBeEmptied`). "Value per share" at `AS_WRITTEN` is
  therefore reserve0 * reserve1 over the square of the stored supply, not of the shares credited.

The design source for both is the Uniswap v2 Core whitepaper: section 3.4 (initial supply),
section 3.2.1 (fee-adjusted check), section 3.7 (112-bit reserves).

Hypotheses that appear in the run theorems (`InRange`, call by call): token balances of the pair below 2^112
before a mint, burn, swap or sync, the two conditions above before a mint and a swap, tokens that never
debit the pair on their own (`TokensMove`), and, for the repaired supply line, calls that are not signed
by the zero address. As written the first-mint branch can run again once the stored supply is burned, each
time crediting up to 2^112 shares beyond it; the theorems from creation on ask that it run fewer than 2^32
times, which keeps the shares the pair holds at most 2^144 + 2^32 (`HeldInRange`, asked before a burn by
the theorems from an arbitrary solvent state). `PairWrap.HeldBoundIsSharp` shows that with one share more a
burn of more than the supply can go through. The other bounds (supply below 2^112, no product wraps) are
proved, not assumed.

Word products and quotients are spelled out by recursion in `words.dfy`, with lemmas saying they are the
usual ones. A division by zero traps, and so does a conversion to u128 or u32 that does not fit; the block time
is a parameter of each step. `PairSafety.EqualDepositMints` exhibits runs that meet the hypotheses.

## Model

| member | source | states |
|---|---|---|
| Words.WMulIsModular | uniswap-rust/Cargo.toml:37 | word multiplication, spelled out by recursion, is the product modulo 2^256 |
| Words.QuotientIsDivision | uniswap-rust/src/pair.rs:328-329 | word division, spelled out by repeated subtraction, is the floored quotient |
| Sqrt.SqrtU256 | uniswap-rust/src/math.rs:6-20 | the loop returns the floor square root of every word after at most bit-length(y) passes |
| Sqrt.FloorSqrtUnique | uniswap-rust/src/math.rs:5-6 | the reference root is the one z with z^2 <= y < (z+1)^2 |
| Sqrt.LoopPass | uniswap-rust/src/math.rs:10-13 | in a pass y/x + x does not overflow, the guess never drops below the root, and its distance to it loses at least one bit |
| Sqrt.FirstGuess | uniswap-rust/src/math.rs:8-9 | the start value y/2 + 1, which need not be a Newton iterate, is not below the root, and its distance to it has fewer bits than y |
| Sqrt.WordBitLength | uniswap-rust/src/math.rs:8-14 | so the loop runs at most 256 times |
| PackedReserves.RoundTrip | uniswap-rust/src/pair.rs:95-106 | get after set returns (r0, r1 + 2^112 (r0 mod 2^16), ts); exact if and only if 2^16 divides r0, and always under the 112-bit mask |
| PackedReserves.DecodeIsExact | uniswap-rust/src/pair.rs:95-101 | for any stored word the decode reads the declared 112/112/32-bit fields exactly under that condition |
| PackedReserves.StoredExactlyIff | uniswap-rust/src/pair.rs:103-106 | set_reserves takes 128-bit numbers unchecked; what it stores is what it was given if and only if both reserves are below 2^112 |
| Ledgers.TransferConserves | uniswap-rust/src/pair.rs:134-144 | an honest transfer conserves the token total and moves exactly the value, self-transfers included |
| Ledgers.TransferSucceeds | uniswap-rust/src/pair.rs:134-144 | with a token supply below 2^256 it succeeds exactly when the sender can pay |
| PairEffects.CallEffect | uniswap-rust/src/pair.rs:200-534 | every call that completes, from any state: each account of both tokens gains and loses exactly the amounts sent from the pair to the recipient (burn: the amounts returned; swap: the outputs asked; skim: the excess over the reserves), each LP account and allowance, the supply, the fields of the reserves slot and the data are what they should be, and nothing else changes |
| PairEffects.BurnMoves | uniswap-rust/src/pair.rs:369-375 | both amounts that a burn returns go from the pair to the recipient, and no other account changes |
| PairEffects.SwapDoes | uniswap-rust/src/pair.rs:378-444 | an accepted swap takes each output from the pair's account and adds it to the recipient's, in both tokens, and changes only the reserves slot |
| PairEffects.SkimDoes | uniswap-rust/src/pair.rs:446-468 | a skim that completes moves exactly the excess of each balance over its reserve to the recipient |
| PairEffects.TrapsIff | uniswap-rust/src/pair.rs:103-106 | in range a call panics, rather than reverts, exactly when its time has more than 32 bits and it would succeed otherwise, or when it burns shares against a zero supply |
| PairReach.ReachableIsSolvent | uniswap-rust/src/pair.rs:294-488 | in every state reachable from creation, in both readings of both lines, with each call in its range: balances cover reserves, supply^2 <= reserve0 * reserve1, and nothing wraps in the next call |
| PairReach.ReachableShareValue | uniswap-rust/src/pair.rs:325-488 | from any reachable state on, while the stored supply stays positive, k' * supply^2 >= k * supply'^2; a wrong decode matters before a mint only, a wrapping check before a swap only |
| PairReach.RunIsGood | uniswap-rust/src/pair.rs:315-531 | from any solvent state: the shares the pair holds stay in range, solvency is kept, and the excess of the shares over the supply grows by at most 2^112 per first mint and otherwise not at all |
| PairReach.StepExcess | uniswap-rust/src/pair.rs:315-531 | in range, every step but a successful first mint leaves (sum of balances - supply) alone as an integer |
| PairReach.AsWrittenSupply | uniswap-rust/src/pair.rs:322-338 | as written, after the first mint of a new pair the balances sum to supply + floor(sqrt(amount0 * amount1)) - 1000 in every later state until that branch runs again |
| PairReach.WholeSupplyBurnEmpties | uniswap-rust/src/pair.rs:351-373 | a burn of exactly the stored supply succeeds, pays both whole balances and leaves supply 0, whatever other shares exist |
| PairReach.FirstMintCanBeEmptied | uniswap-rust/src/pair.rs:315-373 | as written, after the first mint of a new pair a transfer of 1000 shares to the pair and a burn pay out everything, with root - 2000 shares still credited |
| PairSafety.RunIsSolvent | uniswap-rust/src/pair.rs:294-531 | every state of a run with each call in its range is solvent, and nothing wraps in the call made from it |
| PairSafety.StepKeeps | uniswap-rust/src/pair.rs:266-531 | every action in its range keeps solvency and, while supply is positive, never lowers k / supply^2, whatever the reserves decode to for anything but a mint |
| PairSafety.SolventMeansExact | uniswap-rust/src/pair.rs:312-438 | in a solvent pair supply < 2^112, no product of the call in range that is made wraps (for swap the adjusted balances and their product included, for all it can leave), and no divisor is zero while supply is positive |
| PairSafety.ShareValueNeverFalls | uniswap-rust/src/pair.rs:325-488 | across any run in range from a solvent state, with the stored supply positive before each step, k' * supply^2 >= k * supply'^2 |
| PairSafety.EqualDepositMints | uniswap-rust/src/pair.rs:294-342 | an equal deposit b > 1000 into a new pair mints b - 1000 shares, and the next mint is in range if and only if 2^16 divides b or the mask is narrow |
| PairSafety.MintExact | uniswap-rust/src/pair.rs:294-342 | mint in plain integers: it succeeds exactly when unlocked, the floored shares are positive and the time fits; what it returns and stores |
| PairSafety.MintKeeps | uniswap-rust/src/pair.rs:294-342 | mint keeps solvency and dilutes nobody |
| PairSafety.BurnExact | uniswap-rust/src/pair.rs:344-376 | burn succeeds exactly when unlocked, 0 < shares <= supply, both floored shares of the balances are positive and the time fits |
| PairSafety.UncoveredBurnHalts | uniswap-rust/src/pair.rs:351-368 | in a solvent pair a burn of more shares than the stored supply reverts, because one of its two transfers cannot be paid |
| PairSafety.BurnEffect | uniswap-rust/src/pair.rs:344-376 | a burn that succeeds returns floor(liquidity * balance / supply) of each token, moves exactly that from the pair to the recipient in both ledgers with every other account unchanged, lowers the supply by the liquidity, and stores the balances left |
| PairSafety.BurnKeeps | uniswap-rust/src/pair.rs:361-373 | burn keeps solvency and dilutes nobody |
| PairSafety.SwapCheckExact | uniswap-rust/src/pair.rs:419-441 | the swap check: neither adjusted balance underflows, their product does not wrap, and it is compared with 1000000 * reserve0 * reserve1 modulo 2^256 |
| PairSafety.SwapGrows | uniswap-rust/src/pair.rs:390-441 | whatever reserve1 reads, while the right-hand side of the check does not wrap, a successful swap stores the balances it leaves, and their product is strictly above that of the declared reserves |
| PairSafety.SwapRunGrows | uniswap-rust/src/pair.rs:378-444 | over a run of swaps and token moves in which some swap succeeds, the pair never ends with both reserves no larger than at the start |
| PairSafety.SkimKeeps | uniswap-rust/src/pair.rs:446-468 | for any decode, skim leaves storage alone, brings the balances down to the reserves it read and keeps solvency |
| PairMask.SkimWorksIff | uniswap-rust/src/pair.rs:451-465 | in a solvent unlocked pair skim succeeds if and only if the decode is exact |
| PairMask.InexactMintIff | uniswap-rust/src/pair.rs:312-334 | with an inexact decode a later mint succeeds if and only if token0's share is positive, whatever was paid of token1, and credits at most that share |
| PairMask.OneSidedMintIff | uniswap-rust/src/pair.rs:312-334 | a deposit of token0 alone is accepted if and only if the decode is inexact and the deposit is worth a share, and then k' / supply'^2 falls |
| PairMask.SomeDepositDilutesIff | uniswap-rust/src/pair.rs:97-99 | over all two-token deposits into a pair whose reserves are its balances: some accepted one dilutes the holders if and only if the decode is inexact and the most token0 there is room for is worth a share |
| PairMask.OneSidedDepositDilutes | uniswap-rust/src/pair.rs:97-334 | a run from a new pair that reaches such a mint; with the whole first supply stored it also leaves supply^2 above reserve0 * reserve1 |
| PairMask.InexactFirstMintIff | uniswap-rust/src/pair.rs:312-338 | with no supply, reserves left over and an inexact decode, mint succeeds if and only if some token0 was paid, and credits the root of the wrapped product, at least 2^127, less 1000; with the whole first supply stored solvency is lost |
| PairMask.FirstMintAfterSync | uniswap-rust/src/pair.rs:312-486 | a new pair that is synced before its first mint reaches that case |
| PairSafety.SyncKeeps | uniswap-rust/src/pair.rs:470-488 | for any decode, sync stores the balances, keeps the timestamp, and dilutes nobody |
| PairTrades.SwapExact | uniswap-rust/src/pair.rs:378-444 | swap succeeds exactly when its guards against the reserves as read, the two payouts and the fee inequality against the residue modulo 2^256 hold, for arbitrary outputs and recipient, the pair itself included |
| PairWrap.SomeSwapFailsIff | uniswap-rust/src/pair.rs:433-441 | over all deposits and outputs, to anyone outside: some accepted swap fails to raise reserve0 * reserve1 if the residue of the check is at most 1000000 k - 3000 reserve1, only if it is at most 1000000 k - 3000 min(reserve0, reserve1), hence exactly when reserve1 <= reserve0 |
| PairWrap.DrainIff | uniswap-rust/src/pair.rs:378-441 | one unit of token0 buys all of token1 but one unit if and only if that residue is at most 1000 (1000 (reserve0 + 1) - 3) |
| PairWrap.DrainRun | uniswap-rust/src/pair.rs:294-441 | a run from a new pair, under the 128-bit mask, in which it does |
| PairWrap.HeldBoundIsSharp | uniswap-rust/src/pair.rs:351-368 | with 2^144 + 2^32 + 1 held shares a burn above the supply goes through in a solvent pair, and the stored supply wraps |
| PairTrades.SellToken0Iff | uniswap-rust/src/pair.rs:385-440 | selling token0 is accepted exactly up to floor(997 in r1 / (1000 r0 + 997 in)), and never against an empty reserve0 |
| PairTrades.SellToken1Iff | uniswap-rust/src/pair.rs:385-440 | the same for selling token1 |
| PairTrades.ConstantProduct | uniswap-rust/src/pair.rs:433-440 | the adjusted-product inequality is that quote |
| PairTrades.DepositAndLeave | uniswap-rust/src/pair.rs:325-370 | a later mint, sending just those shares in and burning them pays at most what was deposited |
| PairSupply.StepGap | uniswap-rust/src/pair.rs:294-531 | from any state, every step but a successful first mint keeps (sum of balances - supply) mod 2^256, with self-transfers and aliased accounts |
| PairSupply.MintGap | uniswap-rust/src/pair.rs:315-338 | what a mint does to that gap, the first one included, in both variants |
| PairSupply.RunGap | uniswap-rust/src/pair.rs:294-531 | the gap is constant over runs without a first mint |
| PairSupply.FreshFirstMintGap | uniswap-rust/src/pair.rs:315-338 | as written, the first mint of a new pair sets the gap to floor(sqrt(amount0 * amount1)) - 1000 > 0 |
| PairSupply.AsWrittenGapStays | uniswap-rust/src/pair.rs:322-338 | as written, supply then stays that far behind the balances over every later run without another first mint |
| PairSupply.UnmintedIsEmpty | uniswap-rust/src/pair.rs:491-531 | until the first mint supply and the sum of balances are both zero |
| PairSupply.LpTransferExact | uniswap-rust/src/pair.rs:499-511 | an LP transfer succeeds exactly when the sender can pay, conserves the total and moves exactly the value |
| PairSupply.LpTransferFromExact | uniswap-rust/src/pair.rs:512-531 | transferFrom also needs the allowance unless unlimited and uses it up by exactly the value |
| PairSupply.ReachableAddsUp | uniswap-rust/src/pair.rs:315-368 | with the repaired line, supply is the sum of the balances in every reachable state and the zero address keeps its 1000 |
| PairSupply.RunAddsUp | uniswap-rust/src/pair.rs:315-531 | with the repaired line, supply is the sum of the balances all along, and a positive supply stays at least 1000, so the first mint runs at most once |
| PairSupply.RepairedShareValue | uniswap-rust/src/pair.rs:325-488 | with the repaired line, value per share never falls over any run after the first mint |
| PairReentrancy.LockedRefuses | uniswap-rust/src/pair.rs:167-172 | a guarded call made while the lock is held reverts |
| PairReentrancy.LockedStandsStill | uniswap-rust/src/pair.rs:266-488 | any calls a token makes while a guarded operation is in flight leave reserves, tokens, supply and lock unchanged |
| PairReentrancy.NestedCallsAreInvisible | uniswap-rust/src/pair.rs:294-488 | a call with arbitrary nested calls has the verdict, returned data, reserves, supply, tokens and lock of the same call without them |
| PairReentrancy.LockIsFreeOutside | uniswap-rust/src/pair.rs:167-197 | from any unlocked state the lock is 1 at every outermost call boundary, on success and on revert |
| PairReentrancy.TokensAreFixed | uniswap-rust/src/pair.rs:266-292 | once named, token0 and token1 never change, whatever is called |
| PairReentrancy.HonestStepIsACall | uniswap-rust/src/pair.rs:266-531 | a step over honest ledgers is the reentrant call with their answers |
| PairContract.Pair.Deploy | uniswap-rust/src/pair.rs:185-197 | deploy records the caller as factory and frees the lock |
| PairContract.Pair.Initialize | uniswap-rust/src/pair.rs:266-292 | the slot-by-slot branch agrees with its function of the state |
| PairContract.Pair.Mint | uniswap-rust/src/pair.rs:294-342 | the slot-by-slot branch, with the square-root loop, agrees with its function of the state |
| PairContract.Pair.Burn | uniswap-rust/src/pair.rs:344-376 | the same for burn; what its two token transfers do to every account is CallEffect |
| PairContract.Pair.Swap | uniswap-rust/src/pair.rs:378-444 | the same for swap; who is paid what is CallEffect |
| PairContract.Pair.Skim | uniswap-rust/src/pair.rs:446-468 | the same for skim; who is paid what is CallEffect |
| PairContract.Pair.Sync | uniswap-rust/src/pair.rs:470-488 | the same for sync |
| PairContract.Pair.Approve | uniswap-rust/src/pair.rs:491-498 | approve sets one allowance |
| PairContract.Pair.Transfer | uniswap-rust/src/pair.rs:499-511 | the same for the LP token's transfer |
| PairContract.Pair.TransferFrom | uniswap-rust/src/pair.rs:512-531 | the same for transferFrom |
| PairContract.Pair.Call | uniswap-rust/src/pair.rs:200-534 | a whole transaction is one step, and one that halts changes nothing |
| FactorySpec.RegistryIsExact | uniswap-rust/src/factory.rs:175-235 | over every run: allPairs lists each created address once in creation order, its length counts them and cannot wrap, and each pair names its strictly sorted tokens for good |
| FactorySpec.CreateExact | uniswap-rust/src/factory.rs:175-235 | createPair succeeds exactly for two different non-zero tokens without a pair, with pair code set and an instantiation that works, reverts otherwise, and changes both getPair orders, one array element, the length and the new pair only |
| FactorySpec.NewPairIsCreated | uniswap-rust/src/factory.rs:198-234 | createPair leaves the new pair in the state from which the pair's run theorems start |
| FactorySpec.GetPairIsExact | uniswap-rust/src/factory.rs:53-67 | getPair is symmetric and non-zero exactly for the unordered token pairs created |
| FactorySpec.EntriesAreStable | uniswap-rust/src/factory.rs:82-89 | a longer run only appends to allPairs and keeps every getPair answer |
| FactorySpec.LogIsShort | uniswap-rust/src/factory.rs:82-89 | distinct non-zero addresses are fewer than 2^160, so the length slot never wraps |
| FactorySpec.StepAgrees | uniswap-rust/src/factory.rs:138-284 | every event, calls to the pairs with arbitrary tokens included, keeps the registry invariant |
| FactoryContract.Factory.CreatePair | uniswap-rust/src/factory.rs:175-235 | the method form agrees with the step and changes nothing when it reverts |
| FactoryContract.Factory.GetPair | uniswap-rust/src/factory.rs:155-164 | in a factory that agrees with a creation log, the answer for two tokens in either order is the pair created for them, and zero exactly when there is none |
| FactoryContract.Factory.AllPairsPush | uniswap-rust/src/factory.rs:82-89 | whatever creations the array lists, a push lists those and one more, in order, and nothing beyond |
| FactoryContract.Factory.SetFeeTo | uniswap-rust/src/factory.rs:237-258 | only the setter changes feeTo |
| FactoryContract.Factory.SetFeeToSetter | uniswap-rust/src/factory.rs:260-281 | only the setter hands over |
| FactoryStorage.CreatePair | uniswap-rust/src/factory.rs:175-235 | createPair on the 32-byte cells through the accessors: same answer as the registry's function, and the cells then show its new registry or are unchanged |
| FactoryStorage.RunHolds | uniswap-rust/src/factory.rs:138-284 | over any run of events the factory's cells hold its registry |
| Layout.KeysDiffer | uniswap-rust/src/lib.rs:11-51 | touched entries of one contract share a cell only if they are the same, given no collision on the touched inputs and hash values of at least 2^160 |
| Layout.ReadsLastWrite | uniswap-rust/src/lib.rs:36-51 | after any writes each touched entry reads as its last write |
| Layout.PutView | uniswap-rust/src/lib.rs:46-51 | one write changes its entry, to exactly the value, and no other |
| Layout.KeyBytes | uniswap-rust/src/lib.rs:11-51 | the cell of every entry from its bytes: mapping input with the key at 12..32 and the slot number at 44..48, outer input with the key at 12..32 and the inner hash (slot number plus one) at 32..64, array input with the slot number at 28..32 and the index at 32..64, zeros elsewhere |
| ContractStorage.TableCells | uniswap-rust/src/pair.rs:108-132 | with those bytes, balances hash slot number 9, allowances 11 inside, getPair 3 inside, allPairs 3 |
| Bytes.ToBytesAt | uniswap-rust/src/lib.rs:14 | big-endian: place i of an n-byte form is the digit of weight 256^(n-1-i) |
| Layout.ElementMeetsOuter | uniswap-rust/src/factory.rs:92-104 | an array input equals an outer mapping input exactly when the address is the base and the index is the inner hash |
| Layout.ArrayRunsIntoGetPair | uniswap-rust/src/factory.rs:92-104 | so without the index bound allPairs does run into getPair of token address 3 |
| PairStorage.StepIsItsWrites | uniswap-rust/src/pair.rs:266-531 | each call's list of storage writes, in the code's order, takes the abstract storage exactly to the step's result; a halted call writes nothing |
| PairCells.Call | uniswap-rust/src/pair.rs:200-534 | a whole transaction on the 32-byte cells, every read and write through the accessors, is one step: same verdict, data, tokens and storage shown, nothing kept of a call that halts |
| PairCells.Mint | uniswap-rust/src/pair.rs:294-342 | mint on the cells agrees with its function of the storage they hold |
| PairCells.Burn | uniswap-rust/src/pair.rs:344-376 | the same for burn, whose effect on every account is CallEffect |
| PairCells.Swap | uniswap-rust/src/pair.rs:378-444 | the same for swap, whose effect on every account is CallEffect |
| PairStorage.RunRefines | uniswap-rust/src/pair.rs:266-531 | over any run of calls the writes of the branches leave cells that hold the abstract storage |
| ContractStorage.WritesRefine | uniswap-rust/src/pair.rs:103-132 | the flat store follows the pair's abstract storage through any sequence of its writes |
| ContractStorage.PairCellsHold | uniswap-rust/src/pair.rs:18-132 | where the pair's data lies, key by key: scalars at the keys ending in 0, 1, 2, 3, 7 and 8, balances and allowances at the hashes of their bytes |
| FactoryStorage.FactoryCellsHold | uniswap-rust/src/factory.rs:16-104 | the same for the factory: scalars at 0, 1, 3 and 4, getPair and allPairs at the hashes of their bytes |
| ContractStorage.DeployRefines | uniswap-rust/src/pair.rs:185-197 | the two writes of deploy into an empty store leave a deployed pair |
| ContractStorage.Store.StorageSetU256 | uniswap-rust/src/lib.rs:46-51 | a scalar write updates that entry alone |
| ContractStorage.Store.SetBalance | uniswap-rust/src/pair.rs:115-119 | a balance write updates that entry alone |
| ContractStorage.Store.SetAllowance | uniswap-rust/src/pair.rs:128-132 | an allowance write updates that entry alone |
| ContractStorage.Store.SetPair | uniswap-rust/src/factory.rs:62-67 | a getPair write updates that entry alone |
| ContractStorage.Store.AllPairsPush | uniswap-rust/src/factory.rs:82-89 | a push updates the element at the old length and the length |
| ContractStorage.Store.GetPairInternal | uniswap-rust/src/factory.rs:53-60 | a read returns the low 20 bytes of the entry |
| ContractStorage.AddressCell | uniswap-rust/src/factory.rs:64-65 | a right-aligned address is the cell of that number |
| PolkaVmProofs.SameDispatch | pvm/src/polkavm_runner.rs:280-635 | dispatch on the precomputed id is dispatch on the name, for every name |
| PolkaVmProofs.SameRun | pvm/src/polkavm_runner.rs:225-251 | for every guest, import list, calldata and starting state, both ways of dispatching give the same trace and outcome |
| PolkaVmLaws.SyscallMeaning | pvm/src/polkavm_runner.rs:280-438 | each of the seventeen syscalls, by name: which registers it reads, the bytes it reads and stores in guest memory, its answer in a0, its effect on storage, and whether it ends the run and with what flags and data; any other name does nothing |
| PolkaVmLaws.RunMeaning | pvm/src/polkavm_runner.rs:225-251 | every run of every guest: each pass is the guest's own step and then that syscall, every pass but the last goes on, and the last does only when the interrupts are used up |
| PolkaVmLaws.ResultMeaning | pvm/src/polkavm_runner.rs:253-271 | the caller gets success exactly when the last interrupt was Finished, or a seal_return with an even flag word, with 300000000 less the gas left and no data or the bytes at a1 of length a2; an error in every other case |
| PolkaVmProofs.StorageIsATotalMap | pvm/src/polkavm_runner.rs:171-271 | over any calls and resets the sparse map reads as a total map with default zero and holds no zero value |
| PolkaVmProofs.CallIsFoldOfSets | pvm/src/polkavm_runner.rs:225-271 | a call's effect on storage is the in-order effect of its set syscalls, whatever its outcome |
| PolkaVmProofs.EveryAnswerIsCurrent | pvm/src/polkavm_runner.rs:358-388 | in any pass of any call after any calls and resets, a get stores at a2 the value of the last set to the 32 bytes at a1 so far, or zero, and a set answers 32 or the sentinel according to that value and stores the 32 bytes at a2; the history, too, is of bytes in guest memory |
| PolkaVmProofs.SparseIsCanonical | pvm/src/polkavm_runner.rs:382-386 | sparse storages that read the same are the same map |
| PolkaVmProofs.CopyIsWindow | pvm/src/polkavm_runner.rs:308-324 | call_data_copy writes exactly the zero-extended window at any offset, and nothing else |
| PolkaVmProofs.LoadIsReversedWindow | pvm/src/polkavm_runner.rs:294-306 | call_data_load writes the reversed window, the little-endian form of its big-endian integer |
| PolkaVmRunner.FromModule | pvm/src/polkavm_runner.rs:112-121 | the table built in one pass holds the id of every import |
| PolkaVmRunner.Executor.HandleSyscallById | pvm/src/polkavm_runner.rs:280-438 | the mutating handler agrees with the function of machine and storage that SyscallMeaning describes |
| PolkaVmRunner.Executor.CallWithDispatchTable | pvm/src/polkavm_runner.rs:202-272 | the loop ends in the last host of the specified trace, and its result is the one ResultMeaning describes, for every import list the table was built from |
| PolkaVmRunner.Executor.CallWithData | pvm/src/polkavm_runner.rs:192-196 | a call from its imports: the passes made, the state left and the caller's result, by registers and bytes |
| PolkaVmRunner.Executor.ResetStorage | pvm/src/polkavm_runner.rs:171-173 | reset empties storage |

## Left out

- ABI decoding, selectors and return encoding: each step starts from decoded arguments and returns words.
- View functions of the pair: plain reads of one slot.
- Keccak itself: a parameter, with a hypothesis on the finitely many inputs touched.
- Block time and its byte order: a parameter of the step that traps when it exceeds 32 bits.
- Price accumulators, kLast, fee switch, events and the flash-swap callback: the code never writes or performs them.
- Tokens that take fees, rebase or lie: excluded from the arithmetic theorems, allowed in those about the lock.
- A pair whose token0 and token1 are the same contract: the factory never creates one; the ledgers are taken to be two.
- LP balances and allowances under nested calls: NestedCallsAreInvisible covers everything else, since those two tables are not guarded by the lock.
- PairContract.Pair.Call: works over two honest Token objects; arbitrary tokens are modelled on values.
- PairStorage.RunRefines: follows the writes of whole runs; the reads of each call are in PairCells.Call, transaction by transaction.
- Addresses of the two tokens: the token objects stand for the contracts at the addresses in slots 1 and 2, which are read for the recipient check only.
- PolkaVM engine, module parsing and gas accounting: a guest is any function from its machine to its next machine and interrupt.
- PolkaVmRunner.Executor.CallWithDispatchTable: runs for a given number of interrupts, because a guest need not stop; the theorems hold for every such number.
- Overflow checks of the runner's own u32 addition `out_ptr + written`: it wraps, as in a release build.
- Partial effects of a guest memory access that touches an unmapped byte: such an access is taken to do nothing and to read zeros.
- The EVM runner, the file-loading main program, the benchmark contracts and the deployment scripts: wrappers or easy loops.
