/** The parameter set of a `Currency` object. Every policy function of the core reads
    these values and none changes them; only the builder writes them. */
module CurrencyParams {
  import opened Util

  type Hash = seq<byte>

  datatype Currency = Currency(
    // Emission
    moneySupply: u64,
    emissionSpeedFactor: u32,
    genesisBlockReward: u64,
    cryptonoteCoinVersion: u64,
    blockGrantedFullRewardZone: u64,
    minedMoneyUnlockWindow: u64,
    maxBlockSizeInitial: u64,
    maxBlockSizeGrowthSpeedNumerator: u64,
    maxBlockSizeGrowthSpeedDenominator: u64,
    // Amounts and fees
    numberOfDecimalPlaces: u64,
    coin: u64,
    minimumFee: u64,
    defaultDustThreshold: u64,
    // Difficulty
    difficultyTarget: u64,
    difficultyWindow: u64,
    difficultyWindowV1: u64,
    difficultyCut: u64,
    blockFutureTimeLimit: u64,
    // Deposits
    depositMinTerm: u32,
    depositMaxTerm: u32,
    depositMinTotalRateFactor: u64,
    depositMaxTotalRate: u64,
    multiFac: u64,
    edMultiFac: u32,
    // Fusion transactions
    fusionTxMaxSize: u64,
    fusionTxMinInputCount: u64,
    fusionTxMinInOutCountRatio: u64,
    // Upgrades
    upgradeHeightV0: u32,
    upgradeHeightV1: u32,
    upgradeHeightV2: u32,
    upgradeHeightV3: u32,
    upgradeVotingThreshold: u32,
    upgradeWindow: u32,
    genesisBlockHash: Hash,
    // Compile-time constants of the configuration header, which is not part of this model:
    // COIN, CURRENT_BLOCK_MAJOR, NEXT_BLOCK_MAJOR_LIMIT and CRYPTONOTE_BLOCK_GRANTED_FULL_REWARD_ZONE_v0.
    coinConstant: u64,
    currentBlockMajor: u8,
    nextBlockMajorLimit: u8,
    fullRewardZoneV0: u64
  )

  /** The invariant the validating builder establishes. */
  predicate Valid(c: Currency) {
    && 0 < c.emissionSpeedFactor <= 64
    && c.difficultyWindow >= 2
    && 0 < c.upgradeVotingThreshold <= 100
    && c.upgradeWindow > 0
    && c.coin == Pow10(c.numberOfDecimalPlaces) % TWO_64
  }
}
