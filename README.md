# Currency policy engine

This project models the policy engine of a CryptoNote coin, found in `src/core/Currency.cpp`. Every decision is an integer function of an immutable parameter set, the `Currency`. A `CurrencyBuilder` fills that set in once. The policies covered are:

- fixed-point amount text;
- the block reward and the emission curve;
- deposit interest, input amounts and transaction fees;
- the two difficulty retargeting algorithms;
- the coinbase (miner) transaction's outputs;
- fusion transactions;
- the block size limit and the input-count estimate;
- the proof-of-work version dispatch;
- the validating builder setters.

C++ unsigned arithmetic is written out modulo 2^64 (`Add64`, `Sub64`, `Mul64` in `util.dfy`). In `nextDifficulty`, signed int64_t overflow and division by zero are undefined behaviour in C++, and the model gives them an explicit `Undefined` outcome. The other undefined operations are listed under "Left out": a shift by 64 in the base reward, `std::abs(INT64_MIN)` in `formatAmount(int64_t)`, the division by a zero input size in `getApproximateMaximumInputCount`, and the division by a zero growth-speed denominator in `maxBlockCumulativeSize`. C++ `assert`s become preconditions.

The reward rules do not keep the generated coins within the money supply. The early tail floor pays `5*COIN` even when less than that is left, and past the supply `m_moneySupply - alreadyGeneratedCoins` wraps on uint64_t. The lemmas about decay and exact tail rewards therefore state the supply bound as a hypothesis, and two more lemmas show what happens beyond it.

Functions whose code is outside this model are function-typed parameters with only the contract the calling code relies on:

- `getPenalizedAmount` is `penalize`;
- `decomposeAmount` and `decompose_amount_into_digits` are `decompose`;
- key derivation is `deriveOutputKey`;
- hashing and merge-mining parsing are the fields of `PowOracle`.

The compile-time constants of the configuration header are fields of `Currency` (`coinConstant`, `currentBlockMajor`, `nextBlockMajorLimit`, `fullRewardZoneV0`). These are `COIN`, `CURRENT_BLOCK_MAJOR`, `NEXT_BLOCK_MAJOR_LIMIT` and `CRYPTONOTE_BLOCK_GRANTED_FULL_REWARD_ZONE_v0`; the configuration header itself is not part of this model.

Files:

- `util.dfy`: machine integers, sums, insertion sort.
- `currency.dfy`: the parameter set.
- `amount_codec.dfy`: amount text.
- `reward.dfy`: upgrade heights, the block reward and the block size limit.
- `transactions.dfy`: interest, input amounts, fees and the input-count estimate.
- `difficulty.dfy`: difficulty retargeting.
- `fusion.dfy`: fusion transactions.
- `miner_tx.dfy`: the coinbase transaction.
- `proof_of_work.dfy`: the proof-of-work checks.
- `builder.dfy`: the builder.

## Model

| member | source | states |
|---|---|---|
| AmountCodec.FormatAmount | src/core/Currency.cpp:458-466 | the text has at least `dp + 2` characters, a `.` exactly `dp` characters from the end, and digits everywhere else |
| AmountCodec.FormatSignedAmount | src/core/Currency.cpp:468-476 | the text starts with `-` exactly when the amount is negative, and the rest is the unsigned rendering of its magnitude |
| AmountCodec.FormatSplit | src/core/Currency.cpp:458-466 | the output is an integer part of at least one digit, a point and exactly `dp` fractional digits, the integer part has no leading zero unless it is the single digit `0`, and these digits denote the amount |
| AmountCodec.FormatParseRoundTrip | src/core/Currency.cpp:458-514 | parsing the formatted text of any amount yields that amount |
| AmountCodec.ParseAmount | src/core/Currency.cpp:478-514 | the trim, erase-zeros, remove-point, pad and convert steps compute `ParseAmountSpec` |
| AmountCodec.EraseExcessZeros | src/core/Currency.cpp:485-491 | the erase loop leaves the text up to the point plus the fraction with its trailing zeros beyond `dp` places removed, and reports the new fraction size |
| AmountCodec.ParseRejectsBlank | src/core/Currency.cpp:478-503 | text that is empty after trimming is rejected |
| AmountCodec.ParseRejectsNonDigit | src/core/Currency.cpp:482-507 | text with any non-digit besides the first point (a second point included) is rejected |
| AmountCodec.ParseRejectsExcessDigit | src/core/Currency.cpp:485-494 | a fraction with a nonzero digit beyond `dp` places is rejected |
| AmountCodec.ParseAmountAccepts | src/core/Currency.cpp:478-514 | `I.F` with digit strings `I`, `F` (not both empty), `|F| <= dp` and a value below 2^64 parses to `I*10^dp + F*10^(dp-|F|)`, the fraction padded with zeros |
| AmountCodec.ParseRejectsOverflow | src/core/Currency.cpp:478-514 | `I.F` with digit strings `I`, `F` (not both empty) and `|F| <= dp` whose value `I*10^dp + F*10^(dp-|F|)` reaches 2^64 is rejected |
| AmountCodec.ParseIntegerAccepts | src/core/Currency.cpp:478-514 | digits `I` without a point parse to `I * 10^dp` when that is below 2^64 |
| AmountCodec.ParseIgnoresPadding | src/core/Currency.cpp:478-514 | blanks around `I.F` and zeros appended to a fraction of at most `dp` digits do not change the result |
| AmountCodec.TwoDecimalPlacesFormat | src/core/Currency.cpp:458-466 | with 2 places, 12345 prints as `123.45` |
| AmountCodec.TwoDecimalPlacesParse | src/core/Currency.cpp:478-514 | with 2 places, `123.450` parses to 12345 |
| AmountCodec.TwoDecimalPlacesReject | src/core/Currency.cpp:485-494 | with 2 places, `123.456` is rejected |
| Reward.UpgradeHeight | src/core/Currency.cpp:102-114 | an unrecognised version gets `0xFFFFFFFF` |
| Reward.UpgradeHeightTable | src/core/Currency.cpp:102-114 | a recognised version gets the height at the position of its first occurrence among `CURRENT_BLOCK_MAJOR+1..+3, NEXT_BLOCK_MAJOR_LIMIT` |
| Reward.FullRewardZone | src/core/Currency.cpp:116-122 | versions from `CURRENT_BLOCK_MAJOR + 2` on get the configured zone, all older versions the v0 zone |
| Reward.FullRewardZoneMonotone | src/core/Currency.cpp:116-122 | if the configured zone is at least the v0 zone, a newer version never gets a smaller zone |
| Reward.BaseReward | src/core/Currency.cpp:127-141 | height 1 gives the genesis reward; heights 2..300000 give the `5*COIN` floor or the shifted remaining supply, whichever applies, and never less than the floor; every other height gives the shifted remaining supply |
| Reward.TailWindowReward | src/core/Currency.cpp:133-141 | at heights 2..300000, with generated coins up to the supply, the base reward is exactly `5*COIN` |
| Reward.ShiftedRewardBounds | src/core/Currency.cpp:128 | the shifted reward is the floor of `(supply - generated) / 2^emissionSpeedFactor` |
| Reward.BaseRewardNonIncreasing | src/core/Currency.cpp:127-141 | at a fixed height, while the generated coins stay within the supply, more generated coins never give a larger base reward |
| Reward.TailOvershootsSupply | src/core/Currency.cpp:133-141 | at heights 2..300000 with less than `5*COIN` left, the base reward is still `5*COIN`, so the generated total passes the supply |
| Reward.OvershootWraps | src/core/Currency.cpp:128-141 | once the generated coins pass the supply, the remaining supply wraps to `2^64 - overshoot` before the shift, and at every height but 1 that wrapped value is the base reward whenever it is at least the tail floor and adding the floor to the generated coins does not wrap |
| Reward.ValidRewardParams | src/core/Currency.cpp:127 | the builder's invariant meets the emission-speed assert of the reward rules |
| Reward.GetBlockReward | src/core/Currency.cpp:124-162 | fails exactly when `currentBlockSize > 2*max(medianSize, zone)`; on success, coin version 1 pays the penalized base plus the whole fee and emits the penalized base, other versions pay the penalized base plus the penalized fee and emit the penalized base less the fee's penalty; in both, reward minus emission change is the fee modulo 2^64 |
| Reward.RewardBalance | src/core/Currency.cpp:150-159 | in both fee-handling branches, `reward - emissionChange ≡ fee (mod 2^64)` |
| Reward.NoPenaltyReward | src/core/Currency.cpp:143-159 | without a size penalty, the reward is `base + fee` and the emission change is `base` |
| Reward.MaxBlockCumulativeSize | src/core/Currency.cpp:271-278 | the limit is `initial + height*num/den` modulo 2^64; it is at least the initial size exactly when that sum does not wrap |
| Reward.MaxBlockCumulativeSizeMonotone | src/core/Currency.cpp:271-278 | while the sum does not wrap, the limit is at least the initial size and never shrinks as the height grows |
| Transactions.CalculateInterest | src/core/Currency.cpp:164-189 | the interest is `floor(amount*(term*maxRate - minFactor) / (100*maxTerm))`, times `multiFac` from height `edMultiFac` on |
| Transactions.InterestIsFloor | src/core/Currency.cpp:168-176 | before the multiplier, `r*d <= amount*a < (r+1)*d` |
| Transactions.InterestMonotoneInAmount | src/core/Currency.cpp:164-189 | a larger deposit never earns less interest |
| Transactions.InterestMultiplier | src/core/Currency.cpp:178-187 | interest from height `edMultiFac` on is `multiFac` times the interest before it |
| Transactions.InputAmount | src/core/Currency.cpp:206-222 | a base input gives 0; a key input or zero-term multisignature input gives its face amount; in every case the amount is face plus interest on uint64_t |
| Transactions.GetTransactionAllInputsAmount | src/core/Currency.cpp:224-231 | the loop computes the uint64_t sum of the input amounts |
| Transactions.CalculateTotalTransactionInterest | src/core/Currency.cpp:192-204 | the loop computes the uint64_t sum of the interest of nonzero-term multisignature inputs |
| Transactions.AllInputsAmountSplit | src/core/Currency.cpp:192-231 | the inputs' total is (face total + total interest) modulo 2^64 |
| Transactions.AllInputsAmountExact | src/core/Currency.cpp:192-231 | without wrap-around, the inputs' total is the face total plus the total interest |
| Transactions.TransactionFee | src/core/Currency.cpp:233-260 | outputs ≤ inputs gives `in - out`; outputs > inputs succeeds with the minimum fee exactly when both lists are nonempty and `out > in + minimumFee` |
| Transactions.FeeBalances | src/core/Currency.cpp:233-260 | an accepted fee balances the transaction (`in == out + fee`) or is the minimum fee of a withdrawal whose outputs exceed its inputs |
| Transactions.GetTransactionFee | src/core/Currency.cpp:233-260 | the two summing loops and the branch compute `TransactionFee` |
| Transactions.GetTransactionFeeOrZero | src/core/Currency.cpp:262-269 | yields the fee, or 0 when the fee rule fails |
| Transactions.GetApproximateMaximumInputCount | src/core/Currency.cpp:675-696 | without wrap-around, the estimate is the largest input count whose inputs, header and outputs fit in the size |
| Difficulty.Windowed | src/core/Currency.cpp:521-524 | with more timestamps than the window, both vectors are resized to the window; otherwise they are unchanged |
| Difficulty.CutWindow | src/core/Currency.cpp:535-544 | `cutBegin + 2 <= cutEnd <= length`; the window keeps `min(length, window - 2*cut)` samples, centred, with the front cut equal to the back cut or one larger |
| Difficulty.TimeSpan | src/core/Currency.cpp:545-548 | the time span is at least 1 |
| Difficulty.TimeSpanIsDifference | src/core/Currency.cpp:533-548 | over the sorted timestamps, the span is `max(1, last - first)` of the trimmed window |
| Difficulty.Retarget | src/core/Currency.cpp:553-559 | overflow of the 128-bit product or of the rounding add gives 0; otherwise the result is `ceil(work*target/span)` |
| Difficulty.NextDifficulty1 | src/core/Currency.cpp:517-560 | needs only a window of at least 2 to return 1 with at most one sample, and the cut setting only when there are two or more; otherwise `Retarget` of the unsorted window's work and the sorted window's span |
| Difficulty.SolveTime | src/core/Currency.cpp:587 | the solve time is defined exactly when the timestamp difference, `6*T` and `-FTL` fit int64_t, and it is then the clamped difference |
| Difficulty.ClampBounds | src/core/Currency.cpp:587 | every clamped solve time lies in `[-FTL, 6*T]` |
| Difficulty.AccumulateDefined | src/core/Currency.cpp:585-591 | for timestamps below 2^62, non-negative `T` and `FTL` and `(6*T + FTL) * N^2` below 2^63, the loop never overflows and yields `L` and the sum of the last three solve times |
| Difficulty.AccumulateExact | src/core/Currency.cpp:585-591 | without overflow, the loop yields the position-weighted sum `L` and the sum of the last three solve times |
| Difficulty.NextDifficulty | src/core/Currency.cpp:563-603 | the loop and the formula compute `Lwma2` |
| Difficulty.LwmaBootstrap | src/core/Currency.cpp:579-582 | with at most `N` samples the result is 1 |
| Difficulty.LwmaDefined | src/core/Currency.cpp:563-603 | under the same bounds, past the bootstrap `nextDifficulty` is the LWMA-2 formula applied to `L` and the last three solve times |
| Difficulty.LwmaDamping | src/core/Currency.cpp:593-600 | the result is `prevD*110/100` exactly when the last three solve times sum below `8*T/10`, and the weighted formula otherwise |
| Difficulty.EqualTimestampsUndefined | src/core/Currency.cpp:585-594 | identical timestamps make `L` zero, so the formula divides by zero |
| Fusion.PrettyAmounts | src/core/Currency.cpp:24-45 | the 172 entries are `d * 10^k` for the digits 1..9 and k = 0..18, then 10^19 |
| Fusion.PrettyAmountsIncreasing | src/core/Currency.cpp:24-45 | the table is strictly increasing |
| Fusion.LowerBound | src/core/Currency.cpp:427 | the first position whose entry is not below the amount |
| Fusion.IsAmountApplicable | src/core/Currency.cpp:418-434 | applicable exactly when `dust <= amount < threshold` and the amount is in the table |
| Fusion.ApplicablePower | src/core/Currency.cpp:418-434 | an applicable amount at table position i reports `i/9`, and `10^(i/9) <= amount < 10^(i/9+1)` |
| Fusion.ApplicableExample | src/core/Currency.cpp:418-434 | with dust 100, 500 below threshold 1000 is applicable with power 2 |
| Fusion.IsFusionTransaction | src/core/Currency.cpp:367-395 | the checks, the dust-rejecting summing loop and the sorted comparison compute `IsFusion` |
| Fusion.FusionCharacterised | src/core/Currency.cpp:367-395 | a fusion transaction is within the size and count limits, has no dust input, and has sorted outputs that are, as a multiset, the decomposition of the inputs' total |
| Fusion.FusionPreservesAmount | src/core/Currency.cpp:367-395 | if the decomposition sums to its input, the outputs of a fusion transaction sum to the inputs' total |
| MinerTx.MergedSum | src/core/Currency.cpp:315-318 | the merge loop keeps the uint64_t total of the amounts |
| MinerTx.MergedShape | src/core/Currency.cpp:315-318 | the loop keeps the first `maxOuts - 1` amounts and puts the total of the rest last |
| MinerTx.Merged | src/core/Currency.cpp:315-318 | at most `maxOuts` amounts remain |
| MinerTx.MergeOutAmounts | src/core/Currency.cpp:315-318 | the loop computes `Merged` |
| MinerTx.ConstructMinerTx | src/core/Currency.cpp:280-365 | the reward, decomposition, merge loop, output loop and sum check compute `MinerTxOutcome` |
| MinerTx.MinerTxShape | src/core/Currency.cpp:305-363 | on success the input index is the height, there are at most `maxOuts` outputs, they sum to the block reward, and the unlock time is `height + minedMoneyUnlockWindow` |
| MinerTx.ZeroMaxOutsRejected | src/core/Currency.cpp:310-313 | `maxOuts == 0` is rejected |
| MinerTx.MinerTxSucceeds | src/core/Currency.cpp:305-358 | if the decomposition sums to its input, the final sum check never fails |
| ProofOfWork.CheckProofOfWorkV1 | src/core/Currency.cpp:605-616 | accepts exactly a block of the current version whose long hash exists and meets the difficulty |
| ProofOfWork.CheckProofOfWorkV2 | src/core/Currency.cpp:618-657 | accepts exactly a later-version block whose long hash meets the difficulty, whose parent carries a merge-mining tag, whose branch is at most 256 deep, and whose auxiliary header hash, hashed up the branch, is the tag's merkle root |
| ProofOfWork.CheckProofOfWork | src/core/Currency.cpp:659-673 | the current version is checked by V1, the next three versions and the limit version by V2, and any other version is rejected |
| ProofOfWork.AcceptedMeetsDifficulty | src/core/Currency.cpp:605-673 | an accepted block has a long hash that meets the difficulty |
| ProofOfWork.AcceptedMergeMined | src/core/Currency.cpp:618-657 | an accepted block after the current version has a branch at most 256 deep, and its auxiliary hash leads to the parent's merkle root |
| ProofOfWork.DeepBranchRejected | src/core/Currency.cpp:638-640 | a branch deeper than 256 is rejected |
| Builder.CurrencyBuilder.EmissionSpeedFactor | src/core/Currency.cpp:782-789 | accepts exactly 1..64; stores the value or changes nothing; keeps the parameters valid |
| Builder.CurrencyBuilder.NumberOfDecimalPlaces | src/core/Currency.cpp:791-799 | stores the place count and sets the coin to `10^d mod 2^64` |
| Builder.CurrencyBuilder.DifficultyWindow | src/core/Currency.cpp:801-808 | accepts exactly windows of at least 2 |
| Builder.CurrencyBuilder.UpgradeVotingThreshold | src/core/Currency.cpp:810-817 | accepts exactly 1..100 |
| Builder.CurrencyBuilder.UpgradeWindowUnchecked | src/core/Currency.cpp:819-826 | rejects only 0, and stores the value truncated to 32 bits |
| Builder.UpgradeWindowAsWritten | src/core/Currency.cpp:819-826 | rejects only 0; otherwise the stored window is `val mod 2^32` |
| Builder.UpgradeWindowStoresZero | src/core/Currency.cpp:819-826 | `val = 2^32` is accepted and stored as 0 |
| Builder.UpgradeWindowAgrees | src/core/Currency.cpp:819-826 | the corrected check differs from the written one only for values of 2^32 or more, and whatever it accepts it stores as written |
| Builder.UpgradeWindowChecked | src/core/Currency.cpp:819-826 | corrected check: rejects 0 and values of 2^32 or more; the stored window equals `val` and is positive |
| Builder.CurrencyBuilder.UpgradeWindow | src/core/Currency.cpp:819-826 | the corrected setter keeps the parameters valid |

## Left out

- The `init`, `generateGenesisBlock` and `generateGenesisTransaction` functions are left out. They deserialise hex, hash blocks and build the genesis transaction.
- The builder constructor is left out: it passes the configuration constants, which are not part of this model, to every setter. `CurrencyBuilder.constructor` takes the initial parameters instead.
- The Base58 address functions (`accountAddressAsString`, `parseAccountAddressString`) are left out. They are encoding glue.
- All logging is left out.
- The `isFusionTransaction(transaction[, size])` overloads are left out. They only collect the amounts and the binary size before calling the amount-vector form.
- The single-argument `isAmountApplicableInFusionTransactionInput` overload is left out. It discards the power of ten.
- The key pair, the extra field and the transaction version of `constructMinerTx` are left out. The outcome of adding the extra nonce is the parameter `extraNonceFits`.
- `deriveOutputKey` stands for both key-derivation calls. The first call's failure therefore appears at the first output.
- On failure the C++ leaves a partly built transaction, which this model does not represent.
- `checkProofOfWork` is left abstract. The long hash, `check_hash`, the merge-mining tag, the auxiliary header hash and `tree_hash_from_branch` are the `PowOracle` fields. The `proofOfWork` out-parameter is not returned.
- `getBlockReward` line 151 computes `penalizedFee` for the coin-version-1 branch, which never reads it. The model leaves that computation out.
- `ShiftedReward`: an emission speed factor of 64 passes the C++ assert and the builder, but `x >> 64` on uint64_t is undefined behaviour in C++ (x86 masks the count and returns `x`). The model yields 0 for it, as a division by 2^64, instead of an undefined outcome.
- `FormatSignedAmount`: `std::abs(INT64_MIN)` is undefined behaviour in C++. The model uses the magnitude 2^63.
- `FormatAmount` does not model the size_t wrap of `m_numberOfDecimalPlaces + 1`, because it takes `dp + 1` exactly.
- `ParseAmount` models `Common::fromString`, which is not part of this model, as success exactly when the digits denote a value below 2^64.
- `CalculateInterest`: its asserts (term range, positive rate factor, `100*maxTerm` fitting 32 bits, results below 2^64) are preconditions. The model has no release-build behaviour past a failing assert.
- `MaxBlockCumulativeSize` requires a nonzero growth-speed numerator and denominator. The C++ divides by the numerator inside its first assert and by the denominator outside any assert, so either being 0 is undefined behaviour there. Its first assert is a precondition. The second assert (`maxSize >= initial`) is not assumed; the contract states exactly when it holds.
- `GetApproximateMaximumInputCount` requires the input size (computed on size_t) to be nonzero. For some mixin counts that size wraps to exactly 0, and the C++ would then divide by zero.
- `Lwma2` and `NextDifficulty` require a vector size below 2^63, so that `static_cast<uint64_t>(N)` compares as the C++ does.
- `NextDifficulty1` does not make the `totalWork > 0` assert a precondition, so it follows the release-build behaviour.
- `penalize` (`getPenalizedAmount`) is not part of this model and carries no contract.
- `decompose` carries one contract, that the parts sum to the amount. It is assumed only where a lemma states it as a precondition.

## Findings

| source | as written | input that shows it | evidently intended | confidence | as-written member | corrected member |
|---|---|---|---|---|---|---|
| src/core/Currency.cpp:819-826 | `upgradeWindow(size_t val)` rejects only `val == 0`, then stores `static_cast<uint32_t>(val)` | `val = 2^32` passes the check and stores a window of 0 | the stored window is positive and equal to the requested value | high (not executed) | Builder.UpgradeWindowStoresZero | Builder.UpgradeWindowChecked |
