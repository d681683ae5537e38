/** Fixed-point decimal text for token amounts: `formatAmount` renders a raw integer
    amount with exactly `numberOfDecimalPlaces` fractional digits and `parseAmount`
    reads such text back. */
module AmountCodec {
  import opened Util
  import opened CurrencyParams

  predicate IsDigit(ch: char) {
    '0' <= ch <= '9'
  }

  predicate AllDigits(s: string) {
    forall i :: 0 <= i < |s| ==> IsDigit(s[i])
  }

  /** `std::isspace` in the "C" locale, as used by `boost::algorithm::trim`. */
  predicate IsSpace(ch: char) {
    ch == ' ' || ch == '\t' || ch == '\n' || ch == '\U{B}' || ch == '\U{C}' || ch == '\r'
  }

  function DigitChar(d: nat): (ch: char)
    requires d < 10
    ensures IsDigit(ch)
  {
    (('0' as int) + d) as char
  }

  function DigitValue(ch: char): (d: nat)
    requires IsDigit(ch)
    ensures d < 10 && DigitChar(d) == ch
  {
    (ch as int) - ('0' as int)
  }

  function Zeros(k: nat): (s: string)
    ensures |s| == k && forall i :: 0 <= i < k ==> s[i] == '0'
  {
    seq(k, _ => '0')
  }

  /** `std::to_string` of an unsigned integer: its decimal digits without leading zeros. */
  function DecimalString(n: nat): (s: string)
    ensures |s| >= 1 && AllDigits(s)
    ensures (s[0] == '0') == (n == 0)
    ensures n == 0 ==> s == "0"
  {
    if n < 10 then [DigitChar(n)] else DecimalString(n / 10) + [DigitChar(n % 10)]
  }

  /** The number a string of decimal digits denotes (leading zeros allowed). */
  function DigitsValue(s: string): nat
    requires AllDigits(s)
  {
    if s == [] then 0 else DigitsValue(s[..|s| - 1]) * 10 + DigitValue(s[|s| - 1])
  }

  lemma {:induction false} DecimalStringValue(n: nat)
    ensures DigitsValue(DecimalString(n)) == n
  {
    if n >= 10 {
      var s := DecimalString(n);
      assert s[..|s| - 1] == DecimalString(n / 10);
      DecimalStringValue(n / 10);
    }
  }

  lemma {:induction false} DigitsValueAppend(a: string, b: string)
    requires AllDigits(a) && AllDigits(b)
    ensures DigitsValue(a + b) == DigitsValue(a) * Pow10(|b|) + DigitsValue(b)
  {
    if b == [] {
      assert a + b == a;
    } else {
      var b' := b[..|b| - 1];
      var ab := a + b;
      assert ab[..|ab| - 1] == a + b';
      assert ab[|ab| - 1] == b[|b| - 1];
      DigitsValueAppend(a, b');
      ShiftDigit(DigitsValue(a), Pow10(|b'|), DigitsValue(b'), DigitValue(b[|b| - 1]));
    }
  }

  lemma ShiftDigit(va: int, pw: int, vb: int, y: int)
    ensures (va * pw + vb) * 10 + y == va * (pw * 10) + (vb * 10 + y)
  {
  }

  lemma {:induction false} ZerosValue(k: nat)
    ensures DigitsValue(Zeros(k)) == 0
  {
    if k > 0 {
      assert Zeros(k)[..k - 1] == Zeros(k - 1);
      ZerosValue(k - 1);
    }
  }

  // ---------------------------------------------------------------- formatAmount

  /** `formatAmount(uint64_t)` with `c.numberOfDecimalPlaces` fractional digits. */
  function FormatAmount(c: Currency, amount: u64): (s: string)
    ensures |s| >= c.numberOfDecimalPlaces + 2
    ensures s[|s| - c.numberOfDecimalPlaces - 1] == '.'
    ensures forall i :: 0 <= i < |s| && i != |s| - c.numberOfDecimalPlaces - 1 ==> IsDigit(s[i])
  {
    var dp: nat := c.numberOfDecimalPlaces;
    var p := PadDigits(DecimalString(amount), dp + 1);
    p[..|p| - dp] + "." + p[|p| - dp..]
  }

  /** Left-pads a digit string with '0' up to `width` characters. */
  function PadDigits(d: string, width: nat): (p: string)
    ensures |p| >= width && |p| >= |d|
    ensures AllDigits(d) ==> AllDigits(p)
  {
    if |d| < width then Zeros(width - |d|) + d else d
  }

  /** The magnitude `static_cast<uint64_t>(std::abs(amount))`; for INT64_MIN this is 2^63. */
  function Magnitude(amount: i64): u64 {
    var m: int := amount;
    if m < 0 then -m else m
  }

  /** `formatAmount(int64_t)`: the unsigned rendering of the magnitude, with `-` in front of negative amounts. */
  function FormatSignedAmount(c: Currency, amount: i64): (s: string)
    ensures |s| > 0 && (s[0] == '-' <==> amount < 0)
    ensures s[(if amount < 0 then 1 else 0)..] == FormatAmount(c, Magnitude(amount))
  {
    var u := FormatAmount(c, Magnitude(amount));
    if amount < 0 then "-" + u else u
  }

  // ---------------------------------------------------------------- parseAmount

  function TrimLeft(s: string): string {
    if s != [] && IsSpace(s[0]) then TrimLeft(s[1..]) else s
  }

  function TrimRight(s: string): string {
    if s != [] && IsSpace(s[|s| - 1]) then TrimRight(s[..|s| - 1]) else s
  }

  /** `boost::algorithm::trim`: drops leading and trailing white space. */
  function Trim(s: string): string {
    TrimRight(TrimLeft(s))
  }

  lemma TrimNoSpaces(s: string)
    requires s != [] && !IsSpace(s[0]) && !IsSpace(s[|s| - 1])
    ensures Trim(s) == s
  {
  }

  /** `find_first_of(ch)`: the position of the first occurrence, or none. */
  function FirstIndexOf(s: string, ch: char): (r: Option<nat>)
    ensures r.None? ==> forall k :: 0 <= k < |s| ==> s[k] != ch
    ensures r.Some? ==> r.value < |s| && s[r.value] == ch && forall k :: 0 <= k < r.value ==> s[k] != ch
  {
    if s == [] then None
    else if s[0] == ch then Some(0)
    else match FirstIndexOf(s[1..], ch)
      case None => None
      case Some(k) => Some(k + 1)
  }

  /** Drops trailing '0' characters from a fraction for as long as it is longer than `dp`. */
  function StripExcessZeros(frac: string, dp: nat): (r: string)
    ensures |r| <= |frac| && r == frac[..|r|]
    ensures forall k :: |r| <= k < |frac| ==> frac[k] == '0'
    ensures |r| > dp ==> r[|r| - 1] != '0'
    ensures |frac| <= dp ==> r == frac
  {
    if dp < |frac| && frac[|frac| - 1] == '0' then StripExcessZeros(frac[..|frac| - 1], dp) else frac
  }

  /** The last steps of `parseAmount`: reject an empty or non-digit string, pad the fraction
      with zeros to `dp` places, and read the digits as a uint64_t (which fails on overflow). */
  function DigitsToAmount(digits: string, fractionSize: nat, dp: nat): Option<u64>
    requires fractionSize <= dp
  {
    if digits == [] || !AllDigits(digits) then None
    else
      var v := DigitsValue(digits + Zeros(dp - fractionSize));
      if v < TWO_64 then Some(v) else None
  }

  /** Removes the first '.' after stripping excess trailing zeros from the fraction,
      giving the digits and the number of fractional digits among them; none when a
      nonzero digit is left beyond `dp` fractional places. */
  function SplitAtPoint(t: string, dp: nat): (r: Option<(string, nat)>)
    ensures r.Some? ==> r.value.1 <= dp
  {
    match FirstIndexOf(t, '.')
    case Some(p) =>
      var frac := StripExcessZeros(t[p + 1..], dp);
      if dp < |frac| then None else Some((t[..p] + frac, |frac|))
    case None => Some((t, 0))
  }

  /** What `parseAmount` computes, stated on values. */
  function ParseAmountSpec(c: Currency, str: string): Option<u64> {
    match SplitAtPoint(Trim(str), c.numberOfDecimalPlaces)
    case None => None
    case Some(split) => DigitsToAmount(split.0, split.1, c.numberOfDecimalPlaces)
  }

  /** `parseAmount`: trims the text, erases excess trailing zeros of the fraction one
      character at a time, removes the point and converts the digits. */
  method ParseAmount(c: Currency, str: string) returns (amount: Option<u64>)
    ensures amount == ParseAmountSpec(c, str)
  {
    var dp: nat := c.numberOfDecimalPlaces;
    var strAmount := Trim(str);
    ghost var t := strAmount;
    var pointIndex := FirstIndexOf(strAmount, '.');
    var fractionSize: nat;
    if pointIndex.Some? {
      var p := pointIndex.value;
      strAmount, fractionSize := EraseExcessZeros(strAmount, p, dp);
      if dp < fractionSize {
        assert SplitAtPoint(t, dp) == None;
        return None;
      }
      ghost var frac := StripExcessZeros(t[p + 1..], dp);
      assert strAmount[..p] == t[..p] && strAmount[p + 1..] == frac;
      strAmount := strAmount[..p] + strAmount[p + 1..];
      SplitAfterStrip(t, p, frac, dp);
    } else {
      fractionSize := 0;
    }
    assert SplitAtPoint(t, dp) == Some((strAmount, fractionSize));
    assert ParseAmountSpec(c, str) == DigitsToAmount(strAmount, fractionSize, dp);
    if strAmount == [] {
      return None;
    }
    if !AllDigits(strAmount) {
      return None;
    }
    var full := strAmount + Zeros(dp - fractionSize);
    var v := DigitsValue(full);
    amount := if v < TWO_64 then Some(v) else None;
  }

  /** The erase loop of `parseAmount`: while the fraction after the point at `p` is longer
      than `dp`, a trailing '0' is removed. */
  method EraseExcessZeros(t: string, p: nat, dp: nat) returns (s: string, fractionSize: nat)
    requires p < |t|
    ensures fractionSize == |StripExcessZeros(t[p + 1..], dp)|
    ensures s == t[..p + 1] + StripExcessZeros(t[p + 1..], dp)
  {
    ghost var f := t[p + 1..];
    s := t;
    fractionSize := |t| - p - 1;
    assert f[..fractionSize] == f;
    while dp < fractionSize && s[|s| - 1] == '0'
      invariant fractionSize <= |f|
      invariant s == t[..p + 1] + f[..fractionSize]
      invariant StripExcessZeros(f, dp) == StripExcessZeros(f[..fractionSize], dp)
      decreases fractionSize
    {
      StripStep(f, fractionSize, dp);
      assert s[..|s| - 1] == t[..p + 1] + f[..fractionSize - 1];
      s := s[..|s| - 1];
      fractionSize := fractionSize - 1;
    }
    assert StripExcessZeros(f[..fractionSize], dp) == f[..fractionSize];
  }

  /** The split `SplitAtPoint` makes once the fraction is stripped to `frac`. */
  lemma SplitAfterStrip(t: string, p: nat, frac: string, dp: nat)
    requires FirstIndexOf(t, '.') == Some(p)
    requires frac == StripExcessZeros(t[p + 1..], dp) && |frac| <= dp
    ensures SplitAtPoint(t, dp) == Some((t[..p] + frac, |frac|))
  {
  }

  /** One erased trailing zero does not change what stripping yields. */
  lemma StripStep(f: string, n: nat, dp: nat)
    requires dp < n <= |f| && f[n - 1] == '0'
    ensures StripExcessZeros(f[..n], dp) == StripExcessZeros(f[..n - 1], dp)
  {
    assert f[..n][..n - 1] == f[..n - 1];
  }

  // ---------------------------------------------------------------- properties

  /** Parsing what `formatAmount` printed gives the amount back. */
  lemma FormatParseRoundTrip(c: Currency, amount: u64)
    ensures ParseAmountSpec(c, FormatAmount(c, amount)) == Some(amount)
  {
    var dp: nat := c.numberOfDecimalPlaces;
    var i, f := FormatSplit(c, amount);
    DigitsValueAppend(i, f);
    assert Pow10(dp - |f|) == 1;
    assert FixedPointValue(i, f, dp) == DigitsValue(i + f);
    ParseAmountAccepts(c, i, f);
  }

  /** The printed amount is an integer part, a point and exactly `dp` fractional digits
      whose digits together denote the amount. */
  lemma FormatSplit(c: Currency, amount: u64) returns (i: string, f: string)
    ensures FormatAmount(c, amount) == i + "." + f
    ensures AllDigits(i) && AllDigits(f) && |f| == c.numberOfDecimalPlaces && |i| >= 1
    ensures |i| == 1 || i[0] != '0'
    ensures DigitsValue(i + f) == amount
  {
    var d := DecimalString(amount);
    DecimalStringValue(amount);
    PadDigitsValue(d, c.numberOfDecimalPlaces + 1);
    i, f := FormatShape(c, amount);
    AllDigitsSplit(i, f);
  }

  /** `formatAmount` cuts the padded digits `dp` places from the end and puts a point there. */
  lemma FormatShape(c: Currency, amount: u64) returns (i: string, f: string)
    ensures FormatAmount(c, amount) == i + "." + f
    ensures i + f == PadDigits(DecimalString(amount), c.numberOfDecimalPlaces + 1)
    ensures |f| == c.numberOfDecimalPlaces && |i| >= 1
    ensures |i| == 1 || i[0] != '0'
  {
    var dp: nat := c.numberOfDecimalPlaces;
    var p := PadDigits(DecimalString(amount), dp + 1);
    i, f := p[..|p| - dp], p[|p| - dp..];
    assert p == i + f;
  }

  lemma AllDigitsSplit(i: string, f: string)
    requires AllDigits(i + f)
    ensures AllDigits(i) && AllDigits(f)
  {
    assert forall k :: 0 <= k < |i| ==> i[k] == (i + f)[k];
    assert forall k :: 0 <= k < |f| ==> f[k] == (i + f)[|i| + k];
  }

  /** Left-padding with zeros keeps the value of a digit string. */
  lemma PadDigitsValue(d: string, width: nat)
    requires AllDigits(d)
    ensures DigitsValue(PadDigits(d, width)) == DigitsValue(d)
  {
    if |d| < width {
      var z := Zeros(width - |d|);
      DigitsValueAppend(z, d);
      ZerosValue(width - |d|);
      ZeroTimes(Pow10(|d|));
    }
  }

  lemma ZeroTimes(x: int)
    ensures 0 * x == 0
  {
  }

  /** `parseAmount` rejects blank text. */
  lemma ParseRejectsBlank(c: Currency, str: string)
    requires Trim(str) == []
    ensures ParseAmountSpec(c, str) == None
  {
  }

  /** `parseAmount` rejects text with a non-digit besides the first point (a second point
      included). */
  lemma ParseRejectsNonDigit(c: Currency, str: string)
    ensures FirstIndexOf(Trim(str), '.').None? && !AllDigits(Trim(str)) ==> ParseAmountSpec(c, str) == None
    ensures FirstIndexOf(Trim(str), '.').Some? ==>
      var t := Trim(str);
      var p := FirstIndexOf(t, '.').value;
      !AllDigits(t[..p] + t[p + 1..]) ==> ParseAmountSpec(c, str) == None
  {
    var t := Trim(str);
    var dp: nat := c.numberOfDecimalPlaces;
    if FirstIndexOf(t, '.').Some? {
      var p := FirstIndexOf(t, '.').value;
      var f := t[p + 1..];
      var frac := StripExcessZeros(f, dp);
      if !AllDigits(t[..p] + f) && |frac| <= dp {
        var i :| 0 <= i < |t[..p] + f| && !IsDigit((t[..p] + f)[i]);
        if i >= p {
          assert f[i - p] != '0';
          assert i - p < |frac|;
          assert (t[..p] + frac)[i] == f[i - p];
        } else {
          assert (t[..p] + frac)[i] == t[i];
        }
      }
    }
  }

  /** `parseAmount` rejects a fraction with a nonzero digit beyond `dp` places. */
  lemma ParseRejectsExcessDigit(c: Currency, str: string, j: nat)
    requires FirstIndexOf(Trim(str), '.').Some?
    requires var t := Trim(str);
      var f := t[FirstIndexOf(t, '.').value + 1..];
      c.numberOfDecimalPlaces <= j < |f| && f[j] != '0'
    ensures ParseAmountSpec(c, str) == None
  {
    var t := Trim(str);
    var p := FirstIndexOf(t, '.').value;
    var f := t[p + 1..];
    assert j < |StripExcessZeros(f, c.numberOfDecimalPlaces)|;
  }

  /** Well-formed text `I.F` with at most `dp` fractional digits denotes `I * 10^dp + F * 10^(dp - |F|)`. */
  lemma ParseAmountAccepts(c: Currency, i: string, f: string)
    requires AllDigits(i) && AllDigits(f) && i + f != []
    requires |f| <= c.numberOfDecimalPlaces
    requires FixedPointValue(i, f, c.numberOfDecimalPlaces) < TWO_64
    ensures ParseAmountSpec(c, i + "." + f) == Some(FixedPointValue(i, f, c.numberOfDecimalPlaces))
  {
    var dp: nat := c.numberOfDecimalPlaces;
    var s := i + "." + f;
    PointSplit(i, f);
    assert ParseAmountSpec(c, s) == DigitsToAmount(i + f, |f|, dp);
    FixedPointDigits(i, f, dp);
  }

  /** Well-formed text `I.F` with at most `dp` fractional digits whose value reaches 2^64 is
      rejected: the conversion overflows uint64_t. */
  lemma ParseRejectsOverflow(c: Currency, i: string, f: string)
    requires AllDigits(i) && AllDigits(f) && i + f != []
    requires |f| <= c.numberOfDecimalPlaces
    requires FixedPointValue(i, f, c.numberOfDecimalPlaces) >= TWO_64
    ensures ParseAmountSpec(c, i + "." + f) == None
  {
    var dp: nat := c.numberOfDecimalPlaces;
    var s := i + "." + f;
    PointSplit(i, f);
    assert ParseAmountSpec(c, s) == DigitsToAmount(i + f, |f|, dp);
    FixedPointDigits(i, f, dp);
  }

  /** Digits without a point denote a whole number of coins: `I` parses to `I * 10^dp`. */
  lemma ParseIntegerAccepts(c: Currency, i: string)
    requires AllDigits(i) && i != []
    requires DigitsValue(i) * Pow10(c.numberOfDecimalPlaces) < TWO_64
    ensures ParseAmountSpec(c, i) == Some(DigitsValue(i) * Pow10(c.numberOfDecimalPlaces))
  {
    var dp: nat := c.numberOfDecimalPlaces;
    TrimNoSpaces(i);
    NoPointInDigits(i);
    assert SplitAtPoint(Trim(i), dp) == Some((i, 0));
    WholeDigitsValue(i, dp);
  }

  /** Appending `dp` zeros multiplies the value by `10^dp`. */
  lemma WholeDigitsValue(i: string, dp: nat)
    requires AllDigits(i)
    ensures AllDigits(i + Zeros(dp))
    ensures DigitsValue(i + Zeros(dp)) == DigitsValue(i) * Pow10(dp)
  {
    DigitsValueAppend(i, Zeros(dp));
    ZerosValue(dp);
  }

  /** Digit strings contain no point. */
  lemma NoPointInDigits(s: string)
    requires AllDigits(s)
    ensures FirstIndexOf(s, '.') == None
  {
  }

  /** Blanks around the text and zeros appended to a fraction of at most `dp` digits do not
      change what `parseAmount` yields. */
  lemma ParseIgnoresPadding(c: Currency, lead: string, i: string, f: string, k: nat, trail: string)
    requires forall j :: 0 <= j < |lead| ==> IsSpace(lead[j])
    requires forall j :: 0 <= j < |trail| ==> IsSpace(trail[j])
    requires AllDigits(i) && AllDigits(f) && i + f != []
    requires |f| <= c.numberOfDecimalPlaces
    ensures ParseAmountSpec(c, lead + i + "." + f + Zeros(k) + trail) == ParseAmountSpec(c, i + "." + f)
  {
    var dp: nat := c.numberOfDecimalPlaces;
    var m := PaddedSplit(dp, lead, i, f, k, trail);
    PointSplit(i, f);
    assert SplitAtPoint(Trim(i + "." + f), dp) == Some((i + f, |f|));
    DigitsToAmountZeros(i + f, m, |f|, dp);
    assert i + (f + Zeros(m)) == i + f + Zeros(m);
  }

  /** The split of padded text: the digits gain the `m` appended zeros that survive stripping. */
  lemma PaddedSplit(dp: nat, lead: string, i: string, f: string, k: nat, trail: string) returns (m: nat)
    requires forall j :: 0 <= j < |lead| ==> IsSpace(lead[j])
    requires forall j :: 0 <= j < |trail| ==> IsSpace(trail[j])
    requires AllDigits(i) && AllDigits(f) && i + f != []
    requires |f| <= dp
    ensures |f| + m <= dp
    ensures SplitAtPoint(Trim(lead + i + "." + f + Zeros(k) + trail), dp) == Some((i + (f + Zeros(m)), |f| + m))
  {
    var fz := f + Zeros(k);
    PaddedTrim(lead, i, fz, trail);
    assert lead + i + "." + f + Zeros(k) + trail == lead + (i + "." + fz) + trail;
    PointSlices(i, fz);
    PointFirst(i, fz);
    m := StripZeros(f, k, dp);
  }

  /** Trimming padded text `I.F` gives `I.F` back. */
  lemma PaddedTrim(lead: string, i: string, f: string, trail: string)
    requires forall j :: 0 <= j < |lead| ==> IsSpace(lead[j])
    requires forall j :: 0 <= j < |trail| ==> IsSpace(trail[j])
    requires AllDigits(i) && AllDigits(f)
    ensures Trim(lead + (i + "." + f) + trail) == i + "." + f
  {
    var s := i + "." + f;
    assert s[0] == if |i| > 0 then i[0] else '.';
    assert s[|s| - 1] == if |f| > 0 then f[|f| - 1] else '.';
    TrimPadding(lead, s, trail);
  }

  /** Zeros moved from the padding into the digits do not change the amount. */
  lemma DigitsToAmountZeros(d: string, m: nat, fs: nat, dp: nat)
    requires AllDigits(d) && d != [] && fs + m <= dp
    ensures DigitsToAmount(d + Zeros(m), fs + m, dp) == DigitsToAmount(d, fs, dp)
  {
    ZerosAppend(m, dp - fs - m);
    assert (d + Zeros(m)) + Zeros(dp - (fs + m)) == d + Zeros(dp - fs);
    assert AllDigits(d + Zeros(m));
  }

  /** `Zeros(a) + Zeros(b)` is `Zeros(a + b)`. */
  lemma ZerosAppend(a: nat, b: nat)
    ensures Zeros(a) + Zeros(b) == Zeros(a + b)
  {
  }

  /** Stripping a fraction of at most `dp` digits followed by `k` zeros leaves the fraction
      followed by `m = min(k, dp - |f|)` zeros. */
  lemma {:induction false} StripZeros(f: string, k: nat, dp: nat) returns (m: nat)
    requires |f| <= dp
    ensures m <= k && |f| + m <= dp && (m < k ==> |f| + m == dp)
    ensures StripExcessZeros(f + Zeros(k), dp) == f + Zeros(m)
  {
    if |f| + k <= dp {
      m := k;
    } else {
      assert (f + Zeros(k))[..|f| + k - 1] == f + Zeros(k - 1);
      m := StripZeros(f, k - 1, dp);
    }
  }

  /** Trimming removes blanks around text that starts and ends with a non-blank. */
  lemma TrimPadding(lead: string, s: string, trail: string)
    requires forall j :: 0 <= j < |lead| ==> IsSpace(lead[j])
    requires forall j :: 0 <= j < |trail| ==> IsSpace(trail[j])
    requires s != [] && !IsSpace(s[0]) && !IsSpace(s[|s| - 1])
    ensures Trim(lead + s + trail) == s
  {
    TrimLeftPadding(lead, s + trail);
    assert lead + s + trail == lead + (s + trail);
    TrimRightPadding(s, trail);
  }

  lemma {:induction false} TrimLeftPadding(lead: string, s: string)
    requires forall j :: 0 <= j < |lead| ==> IsSpace(lead[j])
    requires s != [] && !IsSpace(s[0])
    ensures TrimLeft(lead + s) == s
  {
    if lead != [] {
      assert (lead + s)[1..] == lead[1..] + s;
      TrimLeftPadding(lead[1..], s);
    }
  }

  lemma {:induction false} TrimRightPadding(s: string, trail: string)
    requires forall j :: 0 <= j < |trail| ==> IsSpace(trail[j])
    requires s != [] && !IsSpace(s[|s| - 1])
    ensures TrimRight(s + trail) == s
  {
    if trail != [] {
      var t := trail[..|trail| - 1];
      assert (s + trail)[..|s + trail| - 1] == s + t;
      TrimRightPadding(s, t);
    }
  }

  /** The number `I.F` denotes with `dp` fractional places. */
  function FixedPointValue(i: string, f: string, dp: nat): nat
    requires AllDigits(i) && AllDigits(f) && |f| <= dp
  {
    DigitsValue(i) * Pow10(dp) + DigitsValue(f) * Pow10(dp - |f|)
  }

  lemma PointSplit(i: string, f: string)
    requires AllDigits(i) && AllDigits(f) && i + f != []
    ensures Trim(i + "." + f) == i + "." + f
    ensures FirstIndexOf(i + "." + f, '.') == Some(|i|)
    ensures (i + "." + f)[..|i|] == i && (i + "." + f)[|i| + 1..] == f
  {
    PointTrim(i, f);
    PointSlices(i, f);
    PointFirst(i, f);
  }

  lemma PointTrim(i: string, f: string)
    requires AllDigits(i) && AllDigits(f)
    ensures Trim(i + "." + f) == i + "." + f
  {
    var s := i + "." + f;
    assert s[0] == if |i| > 0 then i[0] else '.';
    assert s[|s| - 1] == if |f| > 0 then f[|f| - 1] else '.';
    TrimNoSpaces(s);
  }

  lemma PointSlices(i: string, f: string)
    ensures (i + "." + f)[..|i|] == i && (i + "." + f)[|i| + 1..] == f
  {
  }

  lemma PointFirst(i: string, f: string)
    requires AllDigits(i)
    ensures FirstIndexOf(i + "." + f, '.') == Some(|i|)
  {
    var s := i + "." + f;
    assert forall k :: 0 <= k < |i| ==> s[k] == i[k];
    FirstIndexOfAt(s, '.', |i|);
  }

  lemma FirstIndexOfAt(s: string, ch: char, p: nat)
    requires p < |s| && s[p] == ch
    requires forall k :: 0 <= k < p ==> s[k] != ch
    ensures FirstIndexOf(s, ch) == Some(p)
  {
    var r := FirstIndexOf(s, ch);
    if r.Some? {
      assert !(r.value < p);
    }
  }

  lemma FixedPointDigits(i: string, f: string, dp: nat)
    requires AllDigits(i) && AllDigits(f) && |f| <= dp
    ensures AllDigits(i + f + Zeros(dp - |f|))
    ensures DigitsValue(i + f + Zeros(dp - |f|)) == FixedPointValue(i, f, dp)
  {
    var z := Zeros(dp - |f|);
    assert i + f + z == i + (f + z);
    DigitsValueAppend(i, f + z);
    DigitsValueAppend(f, z);
    ZerosValue(dp - |f|);
    Pow10Add(|f|, dp - |f|);
    assert DigitsValue(f + z) == DigitsValue(f) * Pow10(dp - |f|);
    assert Pow10(|f + z|) == Pow10(|f|) * Pow10(dp - |f|);
  }

  lemma {:induction false} Pow10Add(a: nat, b: nat)
    ensures Pow10(a + b) == Pow10(a) * Pow10(b)
  {
    if a > 0 {
      Pow10Add(a - 1, b);
    }
  }

  /** Two decimal places: 12345 prints as "123.45". */
  lemma TwoDecimalPlacesFormat(c: Currency)
    requires c.numberOfDecimalPlaces == 2
    ensures FormatAmount(c, 12345) == "123.45"
  {
    DecimalTwelveThousand();
    var p := PadDigits("12345", 3);
    assert p == "12345";
    assert p[..3] == "123" && p[3..] == "45";
  }

  lemma DecimalTwelveThousand()
    ensures DecimalString(12345) == "12345"
  {
    assert DecimalString(1) == "1";
    assert DecimalString(12) == "12";
    assert DecimalString(123) == "123";
    assert DecimalString(1234) == "1234";
  }

  /** Two decimal places: "123.450" reads as 12345, the excess zero being dropped. */
  lemma TwoDecimalPlacesParse(c: Currency)
    requires c.numberOfDecimalPlaces == 2
    ensures ParseAmountSpec(c, "123.450") == Some(12345)
  {
    TrimNoSpaces("123.450");
    FirstIndexOfAt("123.450", '.', 3);
    assert "123.450"[4..] == "450";
    assert StripExcessZeros("450", 2) == "45";
    assert "123.450"[..3] + "45" == "12345";
    assert "12345" + Zeros(0) == "12345";
    assert DigitsValue("12345") == 12345 by {
      DecimalTwelveThousand();
      DecimalStringValue(12345);
    }
  }

  /** Two decimal places: "123.456" is rejected, its third fractional digit being nonzero. */
  lemma TwoDecimalPlacesReject(c: Currency)
    requires c.numberOfDecimalPlaces == 2
    ensures ParseAmountSpec(c, "123.456") == None
  {
    TrimNoSpaces("123.456");
    FirstIndexOfAt("123.456", '.', 3);
    assert "123.456"[4..][2] != '0';
    ParseRejectsExcessDigit(c, "123.456", 2);
  }
}
