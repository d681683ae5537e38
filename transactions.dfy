/** Deposit interest and the amount and fee accounting of transactions: the value each
    kind of input contributes, the interest of term deposits, the fee rule with its
    special case for interest-paying withdrawals, and the input-count estimate. */
module Transactions {
  import opened Util
  import opened CurrencyParams

  /** The kinds of transaction input. A key input's key image and output indexes and a
      multisignature input's signature count and output index play no part here. */
  datatype TransactionInput =
    | BaseInput(blockIndex: u32)
    | KeyInput(amount: u64)
    | MultisignatureInput(amount: u64, term: u32)

  // ---------------------------------------------------------------- calculateInterest

  /** `term * m_depositMaxTotalRate - m_depositMinTotalRateFactor`, the product on uint64_t. */
  function RateFactor(c: Currency, term: u32): nat
    requires Mul64(term, c.depositMaxTotalRate) > c.depositMinTotalRateFactor
  {
    Mul64(term, c.depositMaxTotalRate) - c.depositMinTotalRateFactor
  }

  /** The exact quotient `amount * a / (100 * maxTerm)` that `mul128` and `div128_32` compute. */
  function RawInterest(c: Currency, amount: u64, term: u32): nat
    requires Mul64(term, c.depositMaxTotalRate) > c.depositMinTotalRateFactor
    requires c.depositMaxTerm > 0
  {
    var product: nat := amount * RateFactor(c, term);
    var divisor: nat := 100 * c.depositMaxTerm;
    DivBounds(product, divisor);
    product / divisor
  }

  /** The conditions `calculateInterest` asserts: the term lies in the deposit range, the
      rate factor is positive, `100 * maxTerm` fits a uint32_t and the quotient, and after
      the early-depositor multiplier the product, fit in 64 bits. */
  predicate InterestDefined(c: Currency, amount: u64, term: u32, height: u32) {
    && c.depositMinTerm <= term <= c.depositMaxTerm
    && Mul64(term, c.depositMaxTotalRate) > c.depositMinTotalRateFactor
    && (TWO_32 - 1) / 100 > c.depositMaxTerm
    && RawInterest(c, amount, term) < TWO_64
    && (height >= c.edMultiFac ==> RawInterest(c, amount, term) * c.multiFac < TWO_64)
  }

  /** `calculateInterest(amount, term, height)`: the rate quotient, multiplied by
      `m_multiFac` from height `m_edMultiFac` on. */
  function CalculateInterest(c: Currency, amount: u64, term: u32, height: u32): (r: u64)
    requires InterestDefined(c, amount, term, height)
    ensures height < c.edMultiFac ==> r == RawInterest(c, amount, term)
    ensures height >= c.edMultiFac ==> r == RawInterest(c, amount, term) * c.multiFac
  {
    var q := RawInterest(c, amount, term);
    if height >= c.edMultiFac then q * c.multiFac else q
  }

  /** A larger deposit never earns less interest. */
  lemma InterestMonotoneInAmount(c: Currency, a1: u64, a2: u64, term: u32, height: u32)
    requires a1 <= a2
    requires InterestDefined(c, a1, term, height) && InterestDefined(c, a2, term, height)
    ensures CalculateInterest(c, a1, term, height) <= CalculateInterest(c, a2, term, height)
  {
    var f := RateFactor(c, term);
    var d := 100 * c.depositMaxTerm;
    MulMonotone(a1, a2, f);
    DivMonotone(a1 * f, a2 * f, d);
    MulMonotone(RawInterest(c, a1, term), RawInterest(c, a2, term), c.multiFac);
  }

  /** The early-depositor multiplier: from height `m_edMultiFac` on the interest is
      `m_multiFac` times what it was before that height. */
  lemma InterestMultiplier(c: Currency, amount: u64, term: u32, before: u32, after: u32)
    requires before < c.edMultiFac <= after
    requires InterestDefined(c, amount, term, before) && InterestDefined(c, amount, term, after)
    ensures CalculateInterest(c, amount, term, after) == c.multiFac * CalculateInterest(c, amount, term, before)
  {
  }

  /** The interest is the floor of `amount * a / (100 * maxTerm)` (before the multiplier). */
  lemma InterestIsFloor(c: Currency, amount: u64, term: u32, height: u32)
    requires InterestDefined(c, amount, term, height) && height < c.edMultiFac
    ensures var r := CalculateInterest(c, amount, term, height);
      var d := 100 * c.depositMaxTerm;
      r * d <= amount * RateFactor(c, term) < (r + 1) * d
  {
    var x := amount * RateFactor(c, term);
    var d := 100 * c.depositMaxTerm;
    assert x == (x / d) * d + x % d;
  }

  // ---------------------------------------------------------------- input amounts

  /** The interest an input earns: only a multisignature input with a nonzero term earns any. */
  predicate EarnsInterest(input: TransactionInput) {
    input.MultisignatureInput? && input.term != 0
  }

  predicate InputDefined(c: Currency, input: TransactionInput, height: u32) {
    EarnsInterest(input) ==> InterestDefined(c, input.amount, input.term, height)
  }

  predicate InputsDefined(c: Currency, inputs: seq<TransactionInput>, height: u32) {
    forall i :: 0 <= i < |inputs| ==> InputDefined(c, inputs[i], height)
  }

  /** The face amount of an input; a base input has none. */
  function Face(input: TransactionInput): u64 {
    match input
    case BaseInput(_) => 0
    case KeyInput(amount) => amount
    case MultisignatureInput(amount, _) => amount
  }

  function InputInterest(c: Currency, input: TransactionInput, height: u32): u64
    requires InputDefined(c, input, height)
  {
    if EarnsInterest(input) then CalculateInterest(c, input.amount, input.term, height) else 0
  }

  /** `getTransactionInputAmount`. */
  function InputAmount(c: Currency, input: TransactionInput, height: u32): (r: u64)
    requires InputDefined(c, input, height)
    ensures input.BaseInput? ==> r == 0
    ensures (input.KeyInput? || (input.MultisignatureInput? && input.term == 0)) ==> r == input.amount
    ensures r == Add64(Face(input), InputInterest(c, input, height))
  {
    match input
    case KeyInput(amount) => amount
    case MultisignatureInput(amount, term) =>
      if term == 0 then amount else Add64(amount, CalculateInterest(c, amount, term, height))
    case BaseInput(_) => 0
  }

  function InputAmounts(c: Currency, inputs: seq<TransactionInput>, height: u32): (r: seq<u64>)
    requires InputsDefined(c, inputs, height)
    ensures |r| == |inputs| && forall i :: 0 <= i < |inputs| ==> r[i] == InputAmount(c, inputs[i], height)
  {
    seq(|inputs|, i requires 0 <= i < |inputs| => InputAmount(c, inputs[i], height))
  }

  function Interests(c: Currency, inputs: seq<TransactionInput>, height: u32): (r: seq<u64>)
    requires InputsDefined(c, inputs, height)
    ensures |r| == |inputs| && forall i :: 0 <= i < |inputs| ==> r[i] == InputInterest(c, inputs[i], height)
  {
    seq(|inputs|, i requires 0 <= i < |inputs| => InputInterest(c, inputs[i], height))
  }

  function Faces(inputs: seq<TransactionInput>): (r: seq<u64>)
    ensures |r| == |inputs| && forall i :: 0 <= i < |inputs| ==> r[i] == Face(inputs[i])
  {
    seq(|inputs|, i requires 0 <= i < |inputs| => Face(inputs[i]))
  }

  /** `getTransactionAllInputsAmount`: the uint64_t sum of the input amounts. */
  method GetTransactionAllInputsAmount(c: Currency, inputs: seq<TransactionInput>, height: u32)
    returns (amount: u64)
    requires InputsDefined(c, inputs, height)
    ensures amount == Sum64(InputAmounts(c, inputs, height))
  {
    ghost var amounts := InputAmounts(c, inputs, height);
    amount := 0;
    var i := 0;
    while i < |inputs|
      invariant i <= |inputs|
      invariant amount == Sum64(amounts[..i])
    {
      assert amounts[..i + 1][..i] == amounts[..i];
      amount := Add64(amount, InputAmount(c, inputs[i], height));
      i := i + 1;
    }
    assert amounts[..i] == amounts;
  }

  /** `calculateTotalTransactionInterest`: the uint64_t sum of the interest of the
      multisignature inputs with a nonzero term. */
  method CalculateTotalTransactionInterest(c: Currency, inputs: seq<TransactionInput>, height: u32)
    returns (interest: u64)
    requires InputsDefined(c, inputs, height)
    ensures interest == Sum64(Interests(c, inputs, height))
  {
    ghost var interests := Interests(c, inputs, height);
    interest := 0;
    var i := 0;
    while i < |inputs|
      invariant i <= |inputs|
      invariant interest == Sum64(interests[..i])
    {
      assert interests[..i + 1][..i] == interests[..i];
      var input := inputs[i];
      if input.MultisignatureInput? {
        if input.term != 0 {
          interest := Add64(interest, CalculateInterest(c, input.amount, input.term, height));
        } else {
          assert interests[i] == 0;
        }
      } else {
        assert interests[i] == 0;
      }
      i := i + 1;
    }
    assert interests[..i] == interests;
  }

  /** The inputs' total is their face total plus their total interest, modulo 2^64. */
  lemma AllInputsAmountSplit(c: Currency, inputs: seq<TransactionInput>, height: u32)
    requires InputsDefined(c, inputs, height)
    ensures Sum64(InputAmounts(c, inputs, height))
      == (Sum(Faces(inputs)) + Sum(Interests(c, inputs, height))) % TWO_64
  {
    var amounts := InputAmounts(c, inputs, height);
    Sum64IsSumMod(amounts);
    var q := SumOfAdd64(amounts, Faces(inputs), Interests(c, inputs, height));
    ModAddMultiple(Sum(amounts), q);
  }

  /** Element-wise uint64_t sums: the exact totals differ by a multiple of 2^64. */
  lemma {:induction false} SumOfAdd64(a: seq<u64>, f: seq<u64>, i: seq<u64>) returns (q: int)
    requires |a| == |f| == |i|
    requires forall k :: 0 <= k < |a| ==> a[k] == Add64(f[k], i[k])
    ensures Sum(f) + Sum(i) == Sum(a) + q * TWO_64
  {
    if a == [] {
      q := 0;
    } else {
      var n := |a| - 1;
      var q0 := SumOfAdd64(a[..n], f[..n], i[..n]);
      var w := if f[n] + i[n] < TWO_64 then 0 else 1;
      q := q0 + w;
    }
  }

  /** With sums that do not wrap, the inputs' total is the face total plus the interest
      that `calculateTotalTransactionInterest` reports. */
  lemma AllInputsAmountExact(c: Currency, inputs: seq<TransactionInput>, height: u32)
    requires InputsDefined(c, inputs, height)
    requires Sum(Faces(inputs)) + Sum(Interests(c, inputs, height)) < TWO_64
    ensures Sum64(InputAmounts(c, inputs, height)) == Sum(Faces(inputs)) + Sum(Interests(c, inputs, height))
  {
    AllInputsAmountSplit(c, inputs, height);
    SumNonNegative(Faces(inputs));
    SumNonNegative(Interests(c, inputs, height));
  }

  // ---------------------------------------------------------------- getTransactionFee

  /** What `getTransactionFee(tx, fee, height)` decides, on the uint64_t totals: the
      difference when the outputs do not exceed the inputs; otherwise the minimum fee, but
      only for a transaction with inputs and outputs whose outputs exceed the inputs by
      more than the minimum fee; None is the `false` return. The ensures below state that
      decision on the totals; `FeeBalances` states what an accepted fee means for the
      inputs and outputs. */
  function TransactionFee(c: Currency, inputs: seq<TransactionInput>, outputs: seq<u64>, height: u32): (r: Option<u64>)
    requires InputsDefined(c, inputs, height)
    ensures var amountIn, amountOut := Sum64(InputAmounts(c, inputs, height)), Sum64(outputs);
      && (amountOut <= amountIn ==> r == Some(amountIn - amountOut))
      && (amountOut > amountIn ==>
            (r.Some? <==> |inputs| > 0 && |outputs| > 0 && amountOut > Add64(amountIn, c.minimumFee))
            && (r.Some? ==> r.value == c.minimumFee))
  {
    var amountIn := Sum64(InputAmounts(c, inputs, height));
    var amountOut := Sum64(outputs);
    if amountOut > amountIn then
      if |inputs| > 0 && |outputs| > 0 && amountOut > Add64(amountIn, c.minimumFee) then Some(c.minimumFee) else None
    else
      Some(amountIn - amountOut)
  }

  /** An accepted fee balances the transaction: inputs equal outputs plus the fee when the
      outputs do not exceed the inputs, and a withdrawal paying out interest always pays
      exactly the minimum fee. */
  lemma FeeBalances(c: Currency, inputs: seq<TransactionInput>, outputs: seq<u64>, height: u32)
    requires InputsDefined(c, inputs, height)
    requires TransactionFee(c, inputs, outputs, height).Some?
    ensures var amountIn, amountOut := Sum64(InputAmounts(c, inputs, height)), Sum64(outputs);
      var fee := TransactionFee(c, inputs, outputs, height).value;
      amountIn == amountOut + fee || (amountOut > amountIn && fee == c.minimumFee)
  {
  }

  /** `getTransactionFee(tx, fee, height)`: sums inputs and outputs and applies the fee rule. */
  method GetTransactionFee(c: Currency, inputs: seq<TransactionInput>, outputs: seq<u64>, height: u32)
    returns (fee: Option<u64>)
    requires InputsDefined(c, inputs, height)
    ensures fee == TransactionFee(c, inputs, outputs, height)
  {
    var amountIn := GetTransactionAllInputsAmount(c, inputs, height);
    var amountOut: u64 := 0;
    var i := 0;
    while i < |outputs|
      invariant i <= |outputs|
      invariant amountOut == Sum64(outputs[..i])
    {
      assert outputs[..i + 1][..i] == outputs[..i];
      amountOut := Add64(amountOut, outputs[i]);
      i := i + 1;
    }
    assert outputs[..i] == outputs;
    if amountOut > amountIn {
      if |inputs| > 0 && |outputs| > 0 && amountOut > Add64(amountIn, c.minimumFee) {
        fee := Some(c.minimumFee);
      } else {
        fee := None;
      }
    } else {
      fee := Some(amountIn - amountOut);
    }
  }

  /** `getTransactionFee(tx, height)`: the fee, or 0 when the fee rule rejects. */
  method GetTransactionFeeOrZero(c: Currency, inputs: seq<TransactionInput>, outputs: seq<u64>, height: u32)
    returns (r: u64)
    requires InputsDefined(c, inputs, height)
    ensures TransactionFee(c, inputs, outputs, height).None? ==> r == 0
    ensures TransactionFee(c, inputs, outputs, height).Some? ==> r == TransactionFee(c, inputs, outputs, height).value
  {
    var fee := GetTransactionFee(c, inputs, outputs, height);
    r := if fee.Some? then fee.value else 0;
  }

  // ---------------------------------------------------------------- getApproximateMaximumInputCount

  /** Serialized sizes: a transaction header (version, unlock time, extra tag, public key),
      one key output (tag, key, varint amount) and one key input without ring members (tag,
      varint amount, key image, signature, index-vector size, first index); each ring
      member adds an index difference and a signature. */
  const HEADER_SIZE: u64 := 1 + 8 + 1 + 32
  const OUTPUT_SIZE: u64 := 1 + 32 + (8 + 2)
  const INPUT_BASE_SIZE: u64 := 1 + (8 + 2) + 32 + 64 + 1 + 4
  const MIXIN_SIZE: u64 := 4 + 64

  /** The size of one input with `mixinCount` ring members, on size_t. */
  function InputSize(mixinCount: u64): u64 {
    Add64(INPUT_BASE_SIZE, Mul64(mixinCount, MIXIN_SIZE))
  }

  /** `getApproximateMaximumInputCount`: the room left after the header and the outputs,
      divided by the size of one input, all on size_t. When nothing wraps, the estimate is
      the largest number of inputs that fit: that many inputs, the header and the outputs
      fit in the size, one more input does not. */
  function GetApproximateMaximumInputCount(transactionSize: u64, outputCount: u64, mixinCount: u64): (r: u64)
    requires InputSize(mixinCount) != 0
    ensures var used := HEADER_SIZE + outputCount * OUTPUT_SIZE;
      var input := INPUT_BASE_SIZE + mixinCount * MIXIN_SIZE;
      input < TWO_64 && used <= transactionSize ==>
        used + r * input <= transactionSize < used + (r + 1) * input
  {
    var room := Sub64(Sub64(transactionSize, HEADER_SIZE), Mul64(outputCount, OUTPUT_SIZE));
    var q := Div64(room, InputSize(mixinCount));
    SizesExact(transactionSize, outputCount, mixinCount);
    q
  }

  /** Without wrap-around the size_t room and input size are the exact ones. */
  lemma SizesExact(transactionSize: u64, outputCount: u64, mixinCount: u64)
    ensures INPUT_BASE_SIZE + mixinCount * MIXIN_SIZE < TWO_64 ==>
      InputSize(mixinCount) == INPUT_BASE_SIZE + mixinCount * MIXIN_SIZE
    ensures HEADER_SIZE + outputCount * OUTPUT_SIZE <= transactionSize ==>
      Sub64(Sub64(transactionSize, HEADER_SIZE), Mul64(outputCount, OUTPUT_SIZE))
        == transactionSize - (HEADER_SIZE + outputCount * OUTPUT_SIZE)
  {
    if INPUT_BASE_SIZE + mixinCount * MIXIN_SIZE < TWO_64 {
      assert Mul64(mixinCount, MIXIN_SIZE) == mixinCount * MIXIN_SIZE;
    }
    if HEADER_SIZE + outputCount * OUTPUT_SIZE <= transactionSize {
      assert Mul64(outputCount, OUTPUT_SIZE) == outputCount * OUTPUT_SIZE;
    }
  }
}
