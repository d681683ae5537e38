/** Fusion transactions: the table of "pretty" amounts, the test whether an amount may be
    an input of a fusion transaction, and the test whether a transaction is one. */
module Fusion {
  import opened Util
  import opened CurrencyParams

  // ---------------------------------------------------------------- PRETTY_AMOUNTS

  /** Entry `i` of the table: the digits 1..9 times `10^(i/9)`, nine per power of ten from
      10^0 to 10^18, then 10^19 alone. */
  function PrettyAmount(i: nat): nat {
    (i % 9 + 1) * Pow10(i / 9)
  }

  const PRETTY_AMOUNT_COUNT: nat := 172

  lemma Pow10Eighteen()
    ensures Pow10(18) == 1_000_000_000_000_000_000
    ensures Pow10(19) == 10_000_000_000_000_000_000
  {
    assert Pow10(1) == 10;
    assert Pow10(2) == 100;
    assert Pow10(3) == 1000;
    assert Pow10(4) == 10000;
    assert Pow10(5) == 100000;
    assert Pow10(6) == 1000000;
    assert Pow10(7) == 10000000;
    assert Pow10(8) == 100000000;
    assert Pow10(9) == 1000000000;
    assert Pow10(10) == 10000000000;
    assert Pow10(11) == 100000000000;
    assert Pow10(12) == 1000000000000;
    assert Pow10(13) == 10000000000000;
    assert Pow10(14) == 100000000000000;
    assert Pow10(15) == 1000000000000000;
    assert Pow10(16) == 10000000000000000;
    assert Pow10(17) == 100000000000000000;
  }

  /** Every entry fits in uint64_t; the last one is 10^19. */
  lemma PrettyAmountBound(i: nat)
    requires i < PRETTY_AMOUNT_COUNT
    ensures PrettyAmount(i) < TWO_64
  {
    Pow10Eighteen();
    if i / 9 <= 18 {
      Pow10Monotone(i / 9, 18);
      MulMonotone(Pow10(i / 9), Pow10(18), i % 9 + 1);
    } else {
      assert i == 171;
    }
  }

  /** `Currency::PRETTY_AMOUNTS`. */
  function PrettyAmounts(): (s: seq<u64>)
    ensures |s| == PRETTY_AMOUNT_COUNT
    ensures forall i :: 0 <= i < |s| ==> s[i] == PrettyAmount(i)
  {
    seq(PRETTY_AMOUNT_COUNT, i requires 0 <= i < PRETTY_AMOUNT_COUNT => Entry(i))
  }

  function Entry(i: nat): (a: u64)
    requires i < PRETTY_AMOUNT_COUNT
    ensures a == PrettyAmount(i)
  {
    PrettyAmountBound(i);
    PrettyAmount(i)
  }

  /** Consecutive entries increase: within a power of ten the digit grows, and `9 * 10^k`
      is below `10^(k+1)`. */
  lemma PrettyAmountStep(i: nat)
    ensures PrettyAmount(i) < PrettyAmount(i + 1)
  {
    var p := Pow10(i / 9);
    Pow10Positive(i / 9);
    if (i + 1) % 9 == 0 {
      assert (i + 1) / 9 == i / 9 + 1;
      assert PrettyAmount(i + 1) == 10 * p;
      MulMonotone(i % 9 + 1, 9, p);
    } else {
      assert (i + 1) / 9 == i / 9 && (i + 1) % 9 == i % 9 + 1;
      assert PrettyAmount(i + 1) == PrettyAmount(i) + p;
    }
  }

  predicate StrictlyIncreasing(s: seq<u64>) {
    forall i, j :: 0 <= i < j < |s| ==> s[i] < s[j]
  }

  /** The table is strictly increasing, as `std::lower_bound` needs. */
  lemma PrettyAmountsIncreasing()
    ensures StrictlyIncreasing(PrettyAmounts())
  {
    forall i, j | 0 <= i < j < PRETTY_AMOUNT_COUNT
      ensures PrettyAmount(i) < PrettyAmount(j)
    {
      PrettyAmountOrder(i, j);
    }
  }

  lemma {:induction false} PrettyAmountOrder(i: nat, j: nat)
    requires i < j
    ensures PrettyAmount(i) < PrettyAmount(j)
  {
    PrettyAmountStep(j - 1);
    if i < j - 1 {
      PrettyAmountOrder(i, j - 1);
    }
  }

  /** An entry's power-of-ten bucket `i / 9` is its number of decimal digits minus one. */
  lemma PrettyAmountMagnitude(i: nat)
    ensures Pow10(i / 9) <= PrettyAmount(i) < Pow10(i / 9 + 1)
  {
    Pow10Positive(i / 9);
    MulMonotone(1, i % 9 + 1, Pow10(i / 9));
    MulMonotone(i % 9 + 1, 9, Pow10(i / 9));
  }

  // ---------------------------------------------------------------- isAmountApplicableInFusionTransactionInput

  /** `std::lower_bound`: the first position whose element is not below `x`, or `|s|`. */
  function LowerBound(s: seq<u64>, x: u64): (r: nat)
    ensures r <= |s|
    ensures forall k :: 0 <= k < r ==> s[k] < x
    ensures r < |s| ==> s[r] >= x
  {
    if s == [] || s[0] >= x then 0 else 1 + LowerBound(s[1..], x)
  }

  /** In a strictly increasing sequence, `x` occurs exactly at its lower bound, if at all. */
  lemma LowerBoundFinds(s: seq<u64>, x: u64)
    requires StrictlyIncreasing(s)
    ensures x in s <==> LowerBound(s, x) < |s| && s[LowerBound(s, x)] == x
    ensures forall k :: 0 <= k < |s| && s[k] == x ==> k == LowerBound(s, x)
  {
  }

  /** `isAmountApplicableInFusionTransactionInput(amount, threshold, amountPowerOfTen)`: the
      power-of-ten bucket of an amount in `[dust, threshold)` that is a table entry, or None
      (the `false` return). */
  function IsAmountApplicable(c: Currency, amount: u64, threshold: u64): (r: Option<u8>)
    ensures r.Some? <==> c.defaultDustThreshold <= amount < threshold && amount in PrettyAmounts()
  {
    if amount >= threshold then None
    else if amount < c.defaultDustThreshold then None
    else
      var table := PrettyAmounts();
      var it := LowerBound(table, amount);
      PrettyAmountsIncreasing();
      LowerBoundFinds(table, amount);
      if it == |table| || amount != table[it] then None
      else Some((it / 9) as u8)
  }

  /** An applicable amount reports the bucket of its table position, which is its power of
      ten: `10^p <= amount < 10^(p+1)`. */
  lemma ApplicablePower(c: Currency, amount: u64, threshold: u64, i: nat)
    requires i < PRETTY_AMOUNT_COUNT && PrettyAmounts()[i] == amount
    requires c.defaultDustThreshold <= amount < threshold
    ensures IsAmountApplicable(c, amount, threshold) == Some((i / 9) as u8)
    ensures Pow10(i / 9) <= amount < Pow10(i / 9 + 1)
  {
    PrettyAmountsIncreasing();
    LowerBoundFinds(PrettyAmounts(), amount);
    PrettyAmountMagnitude(i);
  }

  /** With a dust threshold of 100, the amount 500 below a threshold of 1000 is applicable
      in the bucket 10^2. */
  lemma ApplicableExample(c: Currency)
    requires c.defaultDustThreshold == 100
    ensures IsAmountApplicable(c, 500, 1000) == Some(2)
  {
    assert PrettyAmount(22) == 500 by {
      assert Pow10(2) == 100;
    }
    ApplicablePower(c, 500, 1000, 22);
  }

  // ---------------------------------------------------------------- isFusionTransaction

  /** `isFusionTransaction(inputsAmounts, outputsAmounts, size)`. `decompose(amount, dust)`
      stands for `decomposeAmount`, which is not part of this model. The product of the
      output count and the ratio is on size_t. */
  function IsFusion(c: Currency, decompose: (u64, u64) -> seq<u64>, inputsAmounts: seq<u64>,
                    outputsAmounts: seq<u64>, size: u64): bool
    requires |outputsAmounts| < TWO_64
  {
    if size > c.fusionTxMaxSize then false
    else if |inputsAmounts| < c.fusionTxMinInputCount then false
    else if |inputsAmounts| < Mul64(|outputsAmounts|, c.fusionTxMinInOutCountRatio) then false
    else if exists k :: 0 <= k < |inputsAmounts| && inputsAmounts[k] < c.defaultDustThreshold then false
    else SortAsc(decompose(Sum64(inputsAmounts), c.defaultDustThreshold)) == outputsAmounts
  }

  /** A fusion transaction is exactly one within the size and count limits, without dust
      inputs, whose outputs are sorted and are, as a multiset, the decomposition of the
      inputs' uint64_t total. */
  lemma FusionCharacterised(c: Currency, decompose: (u64, u64) -> seq<u64>, inputsAmounts: seq<u64>,
                            outputsAmounts: seq<u64>, size: u64)
    requires |outputsAmounts| < TWO_64
    ensures IsFusion(c, decompose, inputsAmounts, outputsAmounts, size) <==>
      && size <= c.fusionTxMaxSize
      && |inputsAmounts| >= c.fusionTxMinInputCount
      && |inputsAmounts| >= Mul64(|outputsAmounts|, c.fusionTxMinInOutCountRatio)
      && (forall k :: 0 <= k < |inputsAmounts| ==> inputsAmounts[k] >= c.defaultDustThreshold)
      && IsSorted(outputsAmounts)
      && multiset(outputsAmounts) == multiset(decompose(Sum64(inputsAmounts), c.defaultDustThreshold))
  {
    SortAscCharacterised(decompose(Sum64(inputsAmounts), c.defaultDustThreshold), outputsAmounts);
  }

  /** When `decompose` splits an amount into parts summing to it, a fusion transaction's
      outputs add up to its inputs' uint64_t total. */
  lemma FusionPreservesAmount(c: Currency, decompose: (u64, u64) -> seq<u64>, inputsAmounts: seq<u64>,
                              outputsAmounts: seq<u64>, size: u64)
    requires |outputsAmounts| < TWO_64
    requires forall a, d :: Sum(decompose(a, d)) == a
    requires IsFusion(c, decompose, inputsAmounts, outputsAmounts, size)
    ensures Sum(outputsAmounts) == Sum64(inputsAmounts)
  {
    SortAscSum(decompose(Sum64(inputsAmounts), c.defaultDustThreshold));
  }

  /** `isFusionTransaction`: the size and count checks, then a pass over the inputs that
      rejects dust and totals them, then the comparison with the sorted decomposition. */
  method IsFusionTransaction(c: Currency, decompose: (u64, u64) -> seq<u64>, inputsAmounts: seq<u64>,
                             outputsAmounts: seq<u64>, size: u64)
    returns (r: bool)
    requires |outputsAmounts| < TWO_64
    ensures r == IsFusion(c, decompose, inputsAmounts, outputsAmounts, size)
  {
    if size > c.fusionTxMaxSize {
      return false;
    }
    if |inputsAmounts| < c.fusionTxMinInputCount {
      return false;
    }
    if |inputsAmounts| < Mul64(|outputsAmounts|, c.fusionTxMinInOutCountRatio) {
      return false;
    }
    var inputAmount: u64 := 0;
    var i := 0;
    while i < |inputsAmounts|
      invariant i <= |inputsAmounts|
      invariant forall k :: 0 <= k < i ==> inputsAmounts[k] >= c.defaultDustThreshold
      invariant inputAmount == Sum64(inputsAmounts[..i])
    {
      var amount := inputsAmounts[i];
      if amount < c.defaultDustThreshold {
        return false;
      }
      assert inputsAmounts[..i + 1][..i] == inputsAmounts[..i];
      inputAmount := Add64(inputAmount, amount);
      i := i + 1;
    }
    assert inputsAmounts[..i] == inputsAmounts;
    var expectedOutputsAmounts := SortAsc(decompose(inputAmount, c.defaultDustThreshold));
    r := expectedOutputsAmounts == outputsAmounts;
  }
}
