/** `CurrencyBuilder`: fills in a `Currency` one parameter at a time; the validating setters
    reject out-of-range values (the C++ throws `std::invalid_argument`, here the setter
    returns false and leaves the parameters unchanged). */
module Builder {
  import opened Util
  import opened CurrencyParams

  /** The uint32_t the `upgradeWindow` setter stores for `val`, or None when it throws:
      it rejects only 0 and then truncates the size_t to 32 bits. */
  function UpgradeWindowAsWritten(val: u64): (r: Option<u32>)
    ensures r.None? <==> val == 0
    ensures r.Some? ==> r.value == val % TWO_32
  {
    if val <= 0 then None else Some(val % TWO_32)
  }

  /** The truncation lets a positive window through as 0. */
  lemma UpgradeWindowStoresZero()
    ensures UpgradeWindowAsWritten(TWO_32) == Some(0)
  {
  }

  /** The check the setter evidently intends: the stored window is the requested one and is
      positive, so a window that does not fit in 32 bits is rejected too. */
  function UpgradeWindowChecked(val: u64): (r: Option<u32>)
    ensures r.None? <==> val == 0 || val >= TWO_32
    ensures r.Some? ==> r.value == val && r.value > 0
  {
    if val <= 0 || val >= TWO_32 then None else Some(val)
  }

  /** The checked setter accepts exactly the values the original both accepts and stores
      unchanged: it agrees with it below 2^32. */
  lemma UpgradeWindowAgrees(val: u64)
    ensures val < TWO_32 ==> UpgradeWindowChecked(val) == UpgradeWindowAsWritten(val)
    ensures UpgradeWindowChecked(val).Some? ==> UpgradeWindowAsWritten(val) == UpgradeWindowChecked(val)
  {
  }

  /** `m_coin *= 10` on uint64_t carries `10^i mod 2^64` to `10^(i+1) mod 2^64`. */
  lemma CoinStep(i: nat)
    ensures Mul64(Pow10(i) % TWO_64, 10) == Pow10(i + 1) % TWO_64
  {
    var x := Pow10(i);
    var r := x % TWO_64;
    var q := x / TWO_64;
    assert x * 10 == r * 10 + (q * 10) * TWO_64;
    ModAddMultiple(r * 10, q * 10);
  }

  class CurrencyBuilder {
    var currency: Currency

    /** The parameters start from `initial`: the C++ constructor runs every setter with the
        configuration constants, which are not part of this model. */
    constructor(initial: Currency)
      ensures currency == initial
    {
      currency := initial;
    }

    /** `emissionSpeedFactor(val)`: accepts 1..64, `8 * sizeof(uint64_t)`. */
    method EmissionSpeedFactor(val: u32) returns (ok: bool)
      modifies this
      ensures ok <==> 0 < val <= 64
      ensures ok ==> currency == old(currency).(emissionSpeedFactor := val)
      ensures !ok ==> currency == old(currency)
      ensures old(Valid(currency)) ==> Valid(currency)
    {
      if val <= 0 || val > 8 * 8 {
        return false;
      }
      currency := currency.(emissionSpeedFactor := val);
      return true;
    }

    /** `numberOfDecimalPlaces(val)`: stores `val` and recomputes the coin as 10^val by
        repeated multiplication on uint64_t; no value is rejected. */
    method NumberOfDecimalPlaces(val: u64)
      modifies this
      ensures currency == old(currency).(numberOfDecimalPlaces := val, coin := Pow10(val) % TWO_64)
      ensures old(Valid(currency)) ==> Valid(currency)
    {
      currency := currency.(numberOfDecimalPlaces := val);
      currency := currency.(coin := 1);
      var i: u64 := 0;
      while i < currency.numberOfDecimalPlaces
        invariant i <= val && currency.numberOfDecimalPlaces == val
        invariant currency == old(currency).(numberOfDecimalPlaces := val, coin := Pow10(i) % TWO_64)
      {
        CoinStep(i);
        currency := currency.(coin := Mul64(currency.coin, 10));
        i := i + 1;
      }
    }

    /** `difficultyWindow(val)`: accepts at least two samples. */
    method DifficultyWindow(val: u64) returns (ok: bool)
      modifies this
      ensures ok <==> val >= 2
      ensures ok ==> currency == old(currency).(difficultyWindow := val)
      ensures !ok ==> currency == old(currency)
      ensures old(Valid(currency)) ==> Valid(currency)
    {
      if val < 2 {
        return false;
      }
      currency := currency.(difficultyWindow := val);
      return true;
    }

    /** `upgradeVotingThreshold(val)`: accepts a percentage 1..100. */
    method UpgradeVotingThreshold(val: u32) returns (ok: bool)
      modifies this
      ensures ok <==> 0 < val <= 100
      ensures ok ==> currency == old(currency).(upgradeVotingThreshold := val)
      ensures !ok ==> currency == old(currency)
      ensures old(Valid(currency)) ==> Valid(currency)
    {
      if val <= 0 || val > 100 {
        return false;
      }
      currency := currency.(upgradeVotingThreshold := val);
      return true;
    }

    /** `upgradeWindow(val)` as the C++ writes it: rejects 0, then stores `val` truncated to
        uint32_t, which is 0 for `val == 2^32`, so the parameters can lose validity. */
    method UpgradeWindowUnchecked(val: u64) returns (ok: bool)
      modifies this
      ensures ok <==> UpgradeWindowAsWritten(val).Some?
      ensures ok ==> currency == old(currency).(upgradeWindow := UpgradeWindowAsWritten(val).value)
      ensures !ok ==> currency == old(currency)
    {
      if val <= 0 {
        return false;
      }
      currency := currency.(upgradeWindow := val % TWO_32);
      return true;
    }

    /** `upgradeWindow(val)` with the range check it evidently intends: rejects 0 and any
        value that does not fit the uint32_t field, so the parameters stay valid. */
    method UpgradeWindow(val: u64) returns (ok: bool)
      modifies this
      ensures ok <==> UpgradeWindowChecked(val).Some?
      ensures ok ==> currency == old(currency).(upgradeWindow := val)
      ensures !ok ==> currency == old(currency)
      ensures old(Valid(currency)) ==> Valid(currency)
    {
      if val <= 0 || val >= TWO_32 {
        return false;
      }
      currency := currency.(upgradeWindow := val);
      return true;
    }
  }
}
