/** Proof-of-work checks: the version dispatch of `checkProofOfWork` and the two checks it
    dispatches to. Hashing and the parsing of the merge-mining data are not part of this
    model: a `PowOracle` carries what those calls return for the block at hand. */
module ProofOfWork {
  import opened Util
  import opened CurrencyParams
  import opened Reward

  /** The block header fields the checks read: the major and minor versions and the size of
      the parent block's blockchain branch. */
  datatype Block = Block(majorVersion: u8, minorVersion: u8, blockchainBranchSize: nat)

  /** What the hashing and parsing calls return for one block:
      `longHash` from `get_block_longhash` (None when it fails),
      `checkHash(hash, difficulty)` for `check_hash`,
      `mergeMiningRoot` the merkle root of the merge-mining tag in the parent block's miner
      transaction (None when `getMergeMiningTagFromExtra` finds none),
      `auxHeaderHash` from `get_aux_block_header_hash` (None when it fails), and
      `treeHash(auxHash)` for `tree_hash_from_branch` over the block's branch and the
      genesis block hash. */
  datatype PowOracle = PowOracle(
    longHash: Option<Hash>,
    checkHash: (Hash, u64) -> bool,
    mergeMiningRoot: Option<Hash>,
    auxHeaderHash: Option<Hash>,
    treeHash: Hash -> Hash
  )

  /** `8 * sizeof(m_genesisBlockHash)`: the number of bits of a 32-byte hash, the deepest
      merge-mining branch accepted. */
  const MAX_BRANCH_DEPTH: nat := 8 * 32

  /** `checkProofOfWorkV1`: a block of the current major version whose long hash meets the
      difficulty. */
  function CheckProofOfWorkV1(c: Currency, block: Block, oracle: PowOracle, difficulty: u64): (ok: bool)
    ensures ok <==>
      && block.majorVersion == c.currentBlockMajor
      && oracle.longHash.Some? && oracle.checkHash(oracle.longHash.value, difficulty)
  {
    if c.currentBlockMajor != block.majorVersion then false
    else if oracle.longHash.None? then false
    else oracle.checkHash(oracle.longHash.value, difficulty)
  }

  /** `checkProofOfWorkV2`: a merge-mined block of a later major version whose long hash
      meets the difficulty and whose auxiliary header hash, hashed up the branch, is the
      merkle root found in the parent block. */
  function CheckProofOfWorkV2(c: Currency, block: Block, oracle: PowOracle, difficulty: u64): (ok: bool)
    ensures ok <==>
      && block.majorVersion > c.currentBlockMajor
      && oracle.longHash.Some? && oracle.checkHash(oracle.longHash.value, difficulty)
      && oracle.mergeMiningRoot.Some?
      && block.blockchainBranchSize <= MAX_BRANCH_DEPTH
      && oracle.auxHeaderHash.Some?
      && oracle.treeHash(oracle.auxHeaderHash.value) == oracle.mergeMiningRoot.value
  {
    if block.majorVersion < c.currentBlockMajor as int + 1 then false
    else if oracle.longHash.None? then false
    else if !oracle.checkHash(oracle.longHash.value, difficulty) then false
    else if oracle.mergeMiningRoot.None? then false
    else if MAX_BRANCH_DEPTH < block.blockchainBranchSize then false
    else if oracle.auxHeaderHash.None? then false
    else oracle.treeHash(oracle.auxHeaderHash.value) == oracle.mergeMiningRoot.value
  }

  /** `checkProofOfWork`: the current major version goes to the V1 check, the next three and
      `NEXT_BLOCK_MAJOR_LIMIT` to the V2 check, any other version is rejected. */
  function CheckProofOfWork(c: Currency, block: Block, oracle: PowOracle, difficulty: u64): (ok: bool)
    ensures block.majorVersion == c.currentBlockMajor ==> ok == CheckProofOfWorkV1(c, block, oracle, difficulty)
    ensures block.majorVersion != c.currentBlockMajor && block.majorVersion as int in UpgradeVersions(c) ==>
      ok == CheckProofOfWorkV2(c, block, oracle, difficulty)
    ensures block.majorVersion != c.currentBlockMajor && block.majorVersion as int !in UpgradeVersions(c) ==> !ok
  {
    var v := block.majorVersion as int;
    var cur := c.currentBlockMajor as int;
    if v == cur then CheckProofOfWorkV1(c, block, oracle, difficulty)
    else if v == cur + 1 || v == cur + 2 || v == cur + 3 || v == c.nextBlockMajorLimit as int then
      CheckProofOfWorkV2(c, block, oracle, difficulty)
    else false
  }

  /** Whatever the version, an accepted block has a long hash that meets the difficulty. */
  lemma AcceptedMeetsDifficulty(c: Currency, block: Block, oracle: PowOracle, difficulty: u64)
    requires CheckProofOfWork(c, block, oracle, difficulty)
    ensures oracle.longHash.Some? && oracle.checkHash(oracle.longHash.value, difficulty)
  {
  }

  /** An accepted block of a version after the current one is merge-mined: its branch is at
      most 256 deep and its auxiliary header hash leads to the parent's merkle root. */
  lemma AcceptedMergeMined(c: Currency, block: Block, oracle: PowOracle, difficulty: u64)
    requires CheckProofOfWork(c, block, oracle, difficulty)
    requires block.majorVersion != c.currentBlockMajor
    ensures block.majorVersion > c.currentBlockMajor
    ensures block.blockchainBranchSize <= MAX_BRANCH_DEPTH
    ensures oracle.mergeMiningRoot.Some? && oracle.auxHeaderHash.Some?
    ensures oracle.treeHash(oracle.auxHeaderHash.value) == oracle.mergeMiningRoot.value
  {
  }

  /** A branch deeper than 256 is rejected whatever the oracle says. */
  lemma DeepBranchRejected(c: Currency, block: Block, oracle: PowOracle, difficulty: u64)
    requires block.blockchainBranchSize > MAX_BRANCH_DEPTH
    ensures block.majorVersion != c.currentBlockMajor ==> !CheckProofOfWork(c, block, oracle, difficulty)
    ensures !CheckProofOfWorkV2(c, block, oracle, difficulty)
  {
  }
}
