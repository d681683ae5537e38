/** The coinbase transaction of a block: `constructMinerTx` splits the block reward into
    outputs, merges the last amount into the one before it until at most `maxOuts` remain,
    and pays each to a one-time key of the miner. */
module MinerTx {
  import opened Util
  import opened CurrencyParams
  import opened Reward

  datatype KeyOutput = KeyOutput(amount: u64, key: Hash)

  /** The parts of the miner transaction this model follows: the base input's block index,
      the outputs and the unlock time. */
  datatype MinerTransaction = MinerTransaction(blockIndex: u32, outputs: seq<KeyOutput>, unlockTime: u64)

  // ---------------------------------------------------------------- the merge loop

  /** One iteration of the merge loop: the last amount is added (on uint64_t) into the one
      before it and removed. */
  function MergeOnce(s: seq<u64>): (r: seq<u64>)
    requires |s| >= 2
    ensures |r| == |s| - 1
  {
    s[..|s| - 2] + [Add64(s[|s| - 2], s[|s| - 1])]
  }

  /** The amounts after the merge loop `while (maxOuts < outAmounts.size())`. */
  function Merged(s: seq<u64>, maxOuts: nat): (r: seq<u64>)
    requires maxOuts >= 1
    ensures |r| == if |s| > maxOuts then maxOuts else |s|
    decreases |s|
  {
    if maxOuts < |s| then Merged(MergeOnce(s), maxOuts) else s
  }

  /** Merging keeps the uint64_t total. */
  lemma MergeOnceSum(s: seq<u64>)
    requires |s| >= 2
    ensures Sum64(MergeOnce(s)) == Sum64(s)
  {
    var n := |s|;
    var p := s[..n - 2];
    var r := MergeOnce(s);
    assert r[..|r| - 1] == p;
    assert s[..n - 1][..n - 2] == p;
    Add64Assoc(Sum64(p), s[n - 2], s[n - 1]);
  }

  lemma {:induction false} MergedSum(s: seq<u64>, maxOuts: nat)
    requires maxOuts >= 1
    ensures Sum64(Merged(s, maxOuts)) == Sum64(s)
    decreases |s|
  {
    if maxOuts < |s| {
      MergeOnceSum(s);
      MergedSum(MergeOnce(s), maxOuts);
    }
  }

  /** The result of the merge loop: the first `maxOuts - 1` amounts unchanged, and the
      uint64_t total of the others as the last amount. */
  lemma {:induction false} MergedShape(s: seq<u64>, maxOuts: nat)
    requires 1 <= maxOuts < |s|
    ensures Merged(s, maxOuts) == s[..maxOuts - 1] + [Sum64(s[maxOuts - 1..])]
    decreases |s|
  {
    var n := |s|;
    var m := MergeOnce(s);
    var tail := s[maxOuts - 1..];
    if maxOuts == n - 1 {
      assert tail == [s[n - 2], s[n - 1]];
      assert tail[..1] == [s[n - 2]];
      assert Sum64(tail[..1]) == s[n - 2] by {
        assert tail[..1][..0] == [];
      }
    } else {
      MergedShape(m, maxOuts);
      assert m[..maxOuts - 1] == s[..maxOuts - 1];
      var mt := m[maxOuts - 1..];
      var core := s[maxOuts - 1..n - 2];
      assert m == s[..n - 2] + [Add64(s[n - 2], s[n - 1])];
      assert s[..n - 2][maxOuts - 1..] == core;
      assert mt == core + [Add64(s[n - 2], s[n - 1])];
      assert mt[..|mt| - 1] == core;
      assert tail[..|tail| - 1] == core + [s[n - 2]];
      assert (core + [s[n - 2]])[..|core|] == core;
      Add64Assoc(Sum64(core), s[n - 2], s[n - 1]);
    }
  }

  /** The merge loop of `constructMinerTx`. */
  method MergeOutAmounts(outAmounts: seq<u64>, maxOuts: u64) returns (merged: seq<u64>)
    requires maxOuts >= 1
    ensures merged == Merged(outAmounts, maxOuts)
  {
    merged := outAmounts;
    while maxOuts < |merged|
      invariant Merged(merged, maxOuts) == Merged(outAmounts, maxOuts)
      decreases |merged|
    {
      merged := merged[..|merged| - 2] + [Add64(merged[|merged| - 2], merged[|merged| - 1])];
    }
  }

  // ---------------------------------------------------------------- constructMinerTx

  /** The outputs for the first `n` amounts, each paid to the key derived for its index. */
  function Outputs(amounts: seq<u64>, deriveOutputKey: nat -> Option<Hash>, n: nat): (outs: seq<KeyOutput>)
    requires n <= |amounts|
    requires forall k :: 0 <= k < n ==> deriveOutputKey(k).Some?
    ensures |outs| == n
    ensures forall k :: 0 <= k < n ==> outs[k] == KeyOutput(amounts[k], deriveOutputKey(k).value)
  {
    if n == 0 then [] else Outputs(amounts, deriveOutputKey, n - 1) + [KeyOutput(amounts[n - 1], deriveOutputKey(n - 1).value)]
  }

  function Amounts(outs: seq<KeyOutput>): (r: seq<u64>)
    ensures |r| == |outs| && forall k :: 0 <= k < |outs| ==> r[k] == outs[k].amount
  {
    seq(|outs|, k requires 0 <= k < |outs| => outs[k].amount)
  }

  /** What `constructMinerTx` produces; None is the `false` return. `penalize` stands for
      `getPenalizedAmount`, `decompose(amount, dust)` for `decompose_amount_into_digits`, and
      `deriveOutputKey(no)` for the key derivation of output `no` (None when
      `generate_key_derivation` or `derive_public_key` fails). `extraNonceFits` is false when
      a nonempty extra nonce could not be added to the extra field. */
  function MinerTxOutcome(c: Currency, penalize: (u64, u64, u64) -> u64, decompose: (u64, u64) -> seq<u64>,
                          deriveOutputKey: nat -> Option<Hash>, blockMajorVersion: u8, height: u32,
                          medianSize: u64, generated: u64, currentBlockSize: u64, fee: u64,
                          extraNonceFits: bool, maxOuts: u64): Option<MinerTransaction>
    requires 0 < c.emissionSpeedFactor <= 64
  {
    if !extraNonceFits then None
    else
      var br := GetBlockReward(c, penalize, blockMajorVersion, medianSize, currentBlockSize, generated, fee, height);
      if br.None? || maxOuts < 1 then None
      else
        var amounts := Merged(decompose(br.value.reward, c.defaultDustThreshold), maxOuts);
        if exists k :: 0 <= k < |amounts| && deriveOutputKey(k).None? then None
        else if Sum64(amounts) != br.value.reward then None
        else Some(MinerTransaction(height, Outputs(amounts, deriveOutputKey, |amounts|),
                                   Add64(height, c.minedMoneyUnlockWindow)))
  }

  /** `constructMinerTx`: the reward, the decomposition, the merge loop, one output per
      amount while summing them, and the final check that the outputs sum to the reward. */
  method ConstructMinerTx(c: Currency, penalize: (u64, u64, u64) -> u64, decompose: (u64, u64) -> seq<u64>,
                          deriveOutputKey: nat -> Option<Hash>, blockMajorVersion: u8, height: u32,
                          medianSize: u64, generated: u64, currentBlockSize: u64, fee: u64,
                          extraNonceFits: bool, maxOuts: u64)
    returns (tx: Option<MinerTransaction>)
    requires 0 < c.emissionSpeedFactor <= 64
    ensures tx == MinerTxOutcome(c, penalize, decompose, deriveOutputKey, blockMajorVersion, height,
                                 medianSize, generated, currentBlockSize, fee, extraNonceFits, maxOuts)
  {
    if !extraNonceFits {
      return None;
    }
    var br := GetBlockReward(c, penalize, blockMajorVersion, medianSize, currentBlockSize, generated, fee, height);
    if br.None? {
      return None;
    }
    var blockReward := br.value.reward;
    var outAmounts := decompose(blockReward, c.defaultDustThreshold);
    if !(1 <= maxOuts) {
      return None;
    }
    outAmounts := MergeOutAmounts(outAmounts, maxOuts);
    var summaryAmounts: u64 := 0;
    var outputs: seq<KeyOutput> := [];
    var no := 0;
    while no < |outAmounts|
      invariant no <= |outAmounts|
      invariant forall k :: 0 <= k < no ==> deriveOutputKey(k).Some?
      invariant outputs == Outputs(outAmounts, deriveOutputKey, no)
      invariant summaryAmounts == Sum64(outAmounts[..no])
    {
      var key := deriveOutputKey(no);
      if key.None? {
        return None;
      }
      assert outAmounts[..no + 1][..no] == outAmounts[..no];
      summaryAmounts := Add64(summaryAmounts, outAmounts[no]);
      outputs := outputs + [KeyOutput(outAmounts[no], key.value)];
      no := no + 1;
    }
    assert outAmounts[..no] == outAmounts;
    if !(summaryAmounts == blockReward) {
      return None;
    }
    tx := Some(MinerTransaction(height, outputs, Add64(height, c.minedMoneyUnlockWindow)));
  }

  /** A successful miner transaction has the block height as its input's index, at most
      `maxOuts` outputs, outputs summing on uint64_t to the
      block reward, and the unlock time `height + minedMoneyUnlockWindow`. */
  lemma MinerTxShape(c: Currency, penalize: (u64, u64, u64) -> u64, decompose: (u64, u64) -> seq<u64>,
                     deriveOutputKey: nat -> Option<Hash>, blockMajorVersion: u8, height: u32,
                     medianSize: u64, generated: u64, currentBlockSize: u64, fee: u64,
                     extraNonceFits: bool, maxOuts: u64)
    requires 0 < c.emissionSpeedFactor <= 64
    requires MinerTxOutcome(c, penalize, decompose, deriveOutputKey, blockMajorVersion, height,
                            medianSize, generated, currentBlockSize, fee, extraNonceFits, maxOuts).Some?
    ensures var tx := MinerTxOutcome(c, penalize, decompose, deriveOutputKey, blockMajorVersion, height,
                                     medianSize, generated, currentBlockSize, fee, extraNonceFits, maxOuts).value;
      var br := GetBlockReward(c, penalize, blockMajorVersion, medianSize, currentBlockSize, generated, fee, height);
      && br.Some?
      && tx.blockIndex == height
      && |tx.outputs| <= maxOuts
      && Sum64(Amounts(tx.outputs)) == br.value.reward
      && tx.unlockTime == Add64(height, c.minedMoneyUnlockWindow)
  {
    var br := GetBlockReward(c, penalize, blockMajorVersion, medianSize, currentBlockSize, generated, fee, height);
    var amounts := Merged(decompose(br.value.reward, c.defaultDustThreshold), maxOuts);
    var tx := MinerTxOutcome(c, penalize, decompose, deriveOutputKey, blockMajorVersion, height,
                             medianSize, generated, currentBlockSize, fee, extraNonceFits, maxOuts).value;
    assert Amounts(tx.outputs) == amounts;
  }

  /** `maxOuts == 0` is rejected. */
  lemma ZeroMaxOutsRejected(c: Currency, penalize: (u64, u64, u64) -> u64, decompose: (u64, u64) -> seq<u64>,
                            deriveOutputKey: nat -> Option<Hash>, blockMajorVersion: u8, height: u32,
                            medianSize: u64, generated: u64, currentBlockSize: u64, fee: u64,
                            extraNonceFits: bool)
    requires 0 < c.emissionSpeedFactor <= 64
    ensures MinerTxOutcome(c, penalize, decompose, deriveOutputKey, blockMajorVersion, height,
                           medianSize, generated, currentBlockSize, fee, extraNonceFits, 0).None?
  {
  }

  /** When the decomposition sums to its input, the final sum check never fails: the
      transaction is built whenever the extra nonce fits, the block is not too big, `maxOuts`
      is positive and every key derivation succeeds. */
  lemma MinerTxSucceeds(c: Currency, penalize: (u64, u64, u64) -> u64, decompose: (u64, u64) -> seq<u64>,
                        deriveOutputKey: nat -> Option<Hash>, blockMajorVersion: u8, height: u32,
                        medianSize: u64, generated: u64, currentBlockSize: u64, fee: u64, maxOuts: u64)
    requires 0 < c.emissionSpeedFactor <= 64
    requires forall a, d :: Sum(decompose(a, d)) == a
    requires forall k :: deriveOutputKey(k).Some?
    requires GetBlockReward(c, penalize, blockMajorVersion, medianSize, currentBlockSize, generated, fee, height).Some?
    requires maxOuts >= 1
    ensures MinerTxOutcome(c, penalize, decompose, deriveOutputKey, blockMajorVersion, height,
                           medianSize, generated, currentBlockSize, fee, true, maxOuts).Some?
  {
    var br := GetBlockReward(c, penalize, blockMajorVersion, medianSize, currentBlockSize, generated, fee, height);
    var parts := decompose(br.value.reward, c.defaultDustThreshold);
    MergedSum(parts, maxOuts);
    Sum64IsSumMod(parts);
  }
}
