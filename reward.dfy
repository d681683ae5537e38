/** Emission and block-reward rules: the version-indexed upgrade heights and reward
    zones, the base reward with its genesis override and early tail floor, the block
    reward with its size check and fee handling, and the block-size growth limit. */
module Reward {
  import opened Util
  import opened CurrencyParams

  /** `static_cast<uint32_t>(-1)`: the height returned for a version with no scheduled upgrade. */
  const NO_UPGRADE: u32 := 0xFFFF_FFFF

  /** The last height at which the tail floor applies. */
  const TAIL_FLOOR_LAST_HEIGHT: int := 300000

  // ---------------------------------------------------------------- upgradeHeight

  /** The block versions `upgradeHeight` recognises, in the order it tests them; they are
      also the versions `checkProofOfWork` sends to the merge-mining check. The
      comparisons are made on `int`, so `CURRENT_BLOCK_MAJOR + k` does not wrap. */
  function UpgradeVersions(c: Currency): seq<int> {
    [c.currentBlockMajor + 1, c.currentBlockMajor + 2, c.currentBlockMajor + 3, c.nextBlockMajorLimit]
  }

  /** The configured upgrade heights, position by position with `UpgradeVersions`. */
  function UpgradeHeights(c: Currency): seq<u32> {
    [c.upgradeHeightV0, c.upgradeHeightV1, c.upgradeHeightV2, c.upgradeHeightV3]
  }

  /** `upgradeHeight(majorVersion)`: the height configured for the first recognised
      version equal to `majorVersion`, or the sentinel for any other version. */
  function UpgradeHeight(c: Currency, majorVersion: u8): (h: u32)
    ensures majorVersion !in UpgradeVersions(c) ==> h == NO_UPGRADE
  {
    if majorVersion == c.currentBlockMajor + 1 then c.upgradeHeightV0
    else if majorVersion == c.currentBlockMajor + 2 then c.upgradeHeightV1
    else if majorVersion == c.currentBlockMajor + 3 then c.upgradeHeightV2
    else if majorVersion == c.nextBlockMajorLimit then c.upgradeHeightV3
    else NO_UPGRADE
  }

  /** A recognised version gets the height at the position of its first occurrence among
      the recognised versions: earlier tests win when two versions coincide. */
  lemma UpgradeHeightTable(c: Currency, majorVersion: u8, k: nat)
    requires k < 4 && UpgradeVersions(c)[k] == majorVersion && majorVersion !in UpgradeVersions(c)[..k]
    ensures UpgradeHeight(c, majorVersion) == UpgradeHeights(c)[k]
  {
    var vs := UpgradeVersions(c);
    if k > 0 { assert vs[0] in vs[..k]; }
    if k > 1 { assert vs[1] in vs[..k]; }
    if k > 2 { assert vs[2] in vs[..k]; }
  }

  // ---------------------------------------------------------------- reward zone

  /** `blockGrantedFullRewardZoneByBlockVersion`: versions from `CURRENT_BLOCK_MAJOR + 2`
      on use the configured zone, older versions the v0 constant. */
  function FullRewardZone(c: Currency, majorVersion: u8): (z: u64)
    ensures majorVersion as int >= c.currentBlockMajor as int + 2 ==> z == c.blockGrantedFullRewardZone
    ensures majorVersion as int < c.currentBlockMajor as int + 2 ==> z == c.fullRewardZoneV0
  {
    if majorVersion >= c.currentBlockMajor + 2 then c.blockGrantedFullRewardZone else c.fullRewardZoneV0
  }

  /** When the configured zone is at least the v0 zone, newer versions never get a smaller zone. */
  lemma FullRewardZoneMonotone(c: Currency, v1: u8, v2: u8)
    requires v1 <= v2 && c.fullRewardZoneV0 <= c.blockGrantedFullRewardZone
    ensures FullRewardZone(c, v1) <= FullRewardZone(c, v2)
  {
  }

  // ---------------------------------------------------------------- base reward

  /** `uint64_t(5 * COIN)`, the early tail floor; it uses the compile-time COIN. */
  function TailReward(c: Currency): u64 {
    Mul64(5, c.coinConstant)
  }

  /** `(m_moneySupply - alreadyGeneratedCoins) >> m_emissionSpeedFactor` on uint64_t.
      A shift by 64 is modelled as a division by 2^64, which yields 0. */
  function ShiftedReward(c: Currency, generated: u64): (r: u64)
    requires 0 < c.emissionSpeedFactor <= 64
  {
    ShiftRight(Sub64(c.moneySupply, generated), c.emissionSpeedFactor)
  }

  /** `x >> n` on uint64_t, as a division by 2^n. */
  function ShiftRight(x: u64, n: nat): (r: u64)
  {
    Pow2Positive(n);
    DivBounds(x, Pow2(n));
    x / Pow2(n)
  }

  /** The base reward before any size penalty: the shifted remaining supply, replaced by the
      genesis reward at height 1 and, at heights 2..300000, by the tail floor whenever the
      floor fits under the supply or the shifted reward is below it. */
  function BaseReward(c: Currency, generated: u64, height: u32): (r: u64)
    requires 0 < c.emissionSpeedFactor <= 64
    ensures height == 1 ==> r == c.genesisBlockReward
    ensures 2 <= height <= TAIL_FLOOR_LAST_HEIGHT ==> r >= TailReward(c)
    ensures 2 <= height <= TAIL_FLOOR_LAST_HEIGHT ==> r == TailReward(c) || r == ShiftedReward(c, generated)
    ensures (height == 0 || height > TAIL_FLOOR_LAST_HEIGHT) ==> r == ShiftedReward(c, generated)
  {
    var r0 := if height == 1 then c.genesisBlockReward else ShiftedReward(c, generated);
    var tail := TailReward(c);
    if 2 <= height <= TAIL_FLOOR_LAST_HEIGHT && (Add64(generated, tail) <= c.moneySupply || r0 < tail)
    then tail
    else r0
  }

  /** At heights 2..300000, while the generated coins do not exceed the supply, the base
      reward is exactly the tail floor whatever the shifted reward is. */
  lemma TailWindowReward(c: Currency, generated: u64, height: u32)
    requires 0 < c.emissionSpeedFactor <= 64
    requires 2 <= height <= TAIL_FLOOR_LAST_HEIGHT && generated <= c.moneySupply
    ensures BaseReward(c, generated, height) == TailReward(c)
  {
    var tail := TailReward(c);
    if Add64(generated, tail) > c.moneySupply {
      var rest := c.moneySupply - generated;
      assert rest < tail;
      Pow2Positive(c.emissionSpeedFactor);
      DivBounds(rest, Pow2(c.emissionSpeedFactor));
      assert ShiftedReward(c, generated) < tail;
    }
  }

  /** The shifted reward is the remaining supply divided by 2^emissionSpeedFactor, rounded down. */
  lemma ShiftedRewardBounds(c: Currency, generated: u64)
    requires 0 < c.emissionSpeedFactor <= 64 && generated <= c.moneySupply
    ensures var r := ShiftedReward(c, generated);
      var d := Pow2(c.emissionSpeedFactor);
      r * d <= c.moneySupply - generated < (r + 1) * d
  {
    var x := c.moneySupply - generated;
    var d := Pow2(c.emissionSpeedFactor);
    Pow2Positive(c.emissionSpeedFactor);
    assert x == (x / d) * d + x % d;
  }

  /** The emission curve decays: at a fixed height the base reward never grows as more
      coins have been generated (up to the supply). */
  lemma BaseRewardNonIncreasing(c: Currency, g1: u64, g2: u64, height: u32)
    requires 0 < c.emissionSpeedFactor <= 64
    requires g1 <= g2 <= c.moneySupply
    ensures BaseReward(c, g2, height) <= BaseReward(c, g1, height)
  {
    if 2 <= height <= TAIL_FLOOR_LAST_HEIGHT {
      TailWindowReward(c, g1, height);
      TailWindowReward(c, g2, height);
    } else if height != 1 {
      Pow2Positive(c.emissionSpeedFactor);
      DivMonotone(c.moneySupply - g2, c.moneySupply - g1, Pow2(c.emissionSpeedFactor));
    }
  }

  /** Currencies the validating builder produces meet the precondition of every reward rule. */
  lemma ValidRewardParams(c: Currency)
    requires Valid(c)
    ensures 0 < c.emissionSpeedFactor <= 64
  {
  }

  /** The tail floor does not respect the supply: at heights 2..300000 a block with less
      than `5*COIN` left to mine still gets `5*COIN`, so the generated total passes the supply. */
  lemma TailOvershootsSupply(c: Currency, generated: u64, height: u32)
    requires 0 < c.emissionSpeedFactor <= 64
    requires 2 <= height <= TAIL_FLOOR_LAST_HEIGHT
    requires generated <= c.moneySupply < generated + TailReward(c)
    ensures BaseReward(c, generated, height) == TailReward(c)
    ensures generated + BaseReward(c, generated, height) > c.moneySupply
  {
    TailWindowReward(c, generated, height);
  }

  /** Past the supply, `m_moneySupply - alreadyGeneratedCoins` wraps on uint64_t: the shifted
      reward becomes `(2^64 - overshoot) >> emissionSpeedFactor`, and at every height but 1
      that wrapped value is the base reward whenever it is at least the tail floor (and
      adding the floor to the generated coins does not wrap). */
  lemma OvershootWraps(c: Currency, generated: u64, height: u32)
    requires 0 < c.emissionSpeedFactor <= 64
    requires c.moneySupply < generated
    ensures ShiftedReward(c, generated) == ShiftRight(TWO_64 - (generated - c.moneySupply), c.emissionSpeedFactor)
    ensures height != 1 && generated + TailReward(c) < TWO_64 && ShiftedReward(c, generated) >= TailReward(c) ==>
      BaseReward(c, generated, height) == ShiftedReward(c, generated)
  {
    assert Sub64(c.moneySupply, generated) == TWO_64 - (generated - c.moneySupply);
  }

  // ---------------------------------------------------------------- getBlockReward

  /** The two results `getBlockReward` writes on success. */
  datatype BlockReward = BlockReward(reward: u64, emissionChange: i64)

  function Max(a: u64, b: u64): u64 {
    if a < b then b else a
  }

  /** `getBlockReward`. `penalize(amount, medianSize, currentBlockSize)` stands for
      `getPenalizedAmount`, which is not part of this model. None is the `false` return. */
  function GetBlockReward(c: Currency, penalize: (u64, u64, u64) -> u64, majorVersion: u8,
                          medianSize: u64, currentBlockSize: u64, generated: u64, fee: u64,
                          height: u32): (r: Option<BlockReward>)
    requires 0 < c.emissionSpeedFactor <= 64
    ensures r.None? <==> currentBlockSize > Mul64(2, Max(medianSize, FullRewardZone(c, majorVersion)))
    ensures r.Some? ==> (r.value.reward - r.value.emissionChange) % TWO_64 == fee
    ensures var m := Max(medianSize, FullRewardZone(c, majorVersion));
      var pb := penalize(BaseReward(c, generated, height), m, currentBlockSize);
      r.Some? && c.cryptonoteCoinVersion == 1 ==> r.value == BlockReward(Add64(pb, fee), ToInt64(pb))
    ensures var m := Max(medianSize, FullRewardZone(c, majorVersion));
      var pb := penalize(BaseReward(c, generated, height), m, currentBlockSize);
      var pf := penalize(fee, m, currentBlockSize);
      r.Some? && c.cryptonoteCoinVersion != 1 ==>
        r.value == BlockReward(Add64(pb, pf), ToInt64(Sub64(pb, Sub64(fee, pf))))
  {
    var base := BaseReward(c, generated, height);
    var median := Max(medianSize, FullRewardZone(c, majorVersion));
    if currentBlockSize > Mul64(2, median) then None
    else
      var penalizedBase := penalize(base, median, currentBlockSize);
      var br := if c.cryptonoteCoinVersion == 1 then
        BlockReward(Add64(penalizedBase, fee), ToInt64(penalizedBase))
      else
        var penalizedFee := penalize(fee, median, currentBlockSize);
        BlockReward(Add64(penalizedBase, penalizedFee), ToInt64(Sub64(penalizedBase, Sub64(fee, penalizedFee))));
      RewardBalance(br, penalizedBase, fee, c.cryptonoteCoinVersion == 1, penalize(fee, median, currentBlockSize));
      Some(br)
  }

  /** Reward minus emission change is the fee modulo 2^64 in both fee-handling branches. */
  lemma RewardBalance(br: BlockReward, pb: u64, fee: u64, coinV1: bool, pf: u64)
    requires coinV1 ==> br == BlockReward(Add64(pb, fee), ToInt64(pb))
    requires !coinV1 ==> br == BlockReward(Add64(pb, pf), ToInt64(Sub64(pb, Sub64(fee, pf))))
    ensures (br.reward - br.emissionChange) % TWO_64 == fee
  {
    if coinV1 {
      assert br.reward - br.emissionChange == fee + (if pb + fee >= TWO_64 then -TWO_64 else 0) + (if pb >= TWO_63 then TWO_64 else 0);
    } else {
      var k := (if pb + pf >= TWO_64 then -TWO_64 else 0)
             + (if fee < pf then TWO_64 else 0)
             + (if pb < Sub64(fee, pf) then -TWO_64 else 0)
             + (if Sub64(pb, Sub64(fee, pf)) >= TWO_63 then TWO_64 else 0);
      assert br.reward - br.emissionChange == fee + k;
    }
  }

  /** Without a size penalty both coin versions agree: the reward is the base reward plus
      the fee and the emission change is the base reward. */
  lemma NoPenaltyReward(c: Currency, penalize: (u64, u64, u64) -> u64, majorVersion: u8,
                        medianSize: u64, currentBlockSize: u64, generated: u64, fee: u64, height: u32)
    requires 0 < c.emissionSpeedFactor <= 64
    requires forall a: u64, m: u64 :: penalize(a, m, currentBlockSize) == a
    requires currentBlockSize <= Mul64(2, Max(medianSize, FullRewardZone(c, majorVersion)))
    ensures var base := BaseReward(c, generated, height);
      GetBlockReward(c, penalize, majorVersion, medianSize, currentBlockSize, generated, fee, height)
        == Some(BlockReward(Add64(base, fee), ToInt64(base)))
  {
    var base := BaseReward(c, generated, height);
    var median := Max(medianSize, FullRewardZone(c, majorVersion));
    assert penalize(base, median, currentBlockSize) == base;
    assert penalize(fee, median, currentBlockSize) == fee;
  }

  // ---------------------------------------------------------------- maxBlockCumulativeSize

  /** `maxBlockCumulativeSize(height)`: the initial size plus the linear growth term, summed
      on uint64_t. The assertion on the height becomes a precondition; the product cannot wrap. */
  function MaxBlockCumulativeSize(c: Currency, height: u64): (r: u64)
    requires c.maxBlockSizeGrowthSpeedNumerator > 0 && c.maxBlockSizeGrowthSpeedDenominator > 0
    requires height <= U64_MAX / c.maxBlockSizeGrowthSpeedNumerator
    ensures r >= c.maxBlockSizeInitial <==> c.maxBlockSizeInitial + GrowthTerm(c, height) < TWO_64
    ensures r % TWO_64 == (c.maxBlockSizeInitial + GrowthTerm(c, height)) % TWO_64
  {
    GrowthTermBound(c, height);
    Add64(c.maxBlockSizeInitial, GrowthTerm(c, height))
  }

  /** `(height * numerator) / denominator`, computed exactly. */
  function GrowthTerm(c: Currency, height: u64): int
    requires c.maxBlockSizeGrowthSpeedDenominator > 0
  {
    (height * c.maxBlockSizeGrowthSpeedNumerator) / c.maxBlockSizeGrowthSpeedDenominator
  }

  lemma GrowthTermBound(c: Currency, height: u64)
    requires c.maxBlockSizeGrowthSpeedNumerator > 0 && c.maxBlockSizeGrowthSpeedDenominator > 0
    requires height <= U64_MAX / c.maxBlockSizeGrowthSpeedNumerator
    ensures height * c.maxBlockSizeGrowthSpeedNumerator <= U64_MAX
    ensures GrowthTerm(c, height) <= U64_MAX
  {
    var n := c.maxBlockSizeGrowthSpeedNumerator;
    assert (U64_MAX / n) * n <= U64_MAX;
    MulMonotone(height, U64_MAX / n, n);
    DivBounds(height * n, c.maxBlockSizeGrowthSpeedDenominator);
  }

  /** While the sum does not wrap the size limit never shrinks as the height grows. */
  lemma MaxBlockCumulativeSizeMonotone(c: Currency, h1: u64, h2: u64)
    requires c.maxBlockSizeGrowthSpeedNumerator > 0 && c.maxBlockSizeGrowthSpeedDenominator > 0
    requires h1 <= h2 <= U64_MAX / c.maxBlockSizeGrowthSpeedNumerator
    requires c.maxBlockSizeInitial + GrowthTerm(c, h2) < TWO_64
    ensures c.maxBlockSizeInitial <= MaxBlockCumulativeSize(c, h1) <= MaxBlockCumulativeSize(c, h2)
  {
    var n := c.maxBlockSizeGrowthSpeedNumerator;
    MulMonotone(h1, h2, n);
    DivMonotone(h1 * n, h2 * n, c.maxBlockSizeGrowthSpeedDenominator);
  }
}
