/** Difficulty retargeting: the legacy trimmed-window average `nextDifficulty1` and the
    linearly weighted moving average `nextDifficulty` (LWMA-2). */
module Difficulty {
  import opened Util
  import opened CurrencyParams

  // ================================================================ nextDifficulty1

  /** The conditions `nextDifficulty1` asserts on the parameters: a window of at least two
      samples, and `2 * cut` (on size_t) leaving at least two samples of it. */
  predicate CutParamsValid(c: Currency) {
    c.difficultyWindow >= 2 && Mul64(2, c.difficultyCut) <= c.difficultyWindow - 2
  }

  /** The number of samples the trimmed window keeps: `m_difficultyWindow - 2 * m_difficultyCut`. */
  function KeptSamples(c: Currency): nat
    requires CutParamsValid(c)
  {
    c.difficultyWindow - Mul64(2, c.difficultyCut)
  }

  /** `std::vector::resize(n)`: truncates, or pads with zeros. */
  function Resize(s: seq<u64>, n: nat): (r: seq<u64>)
    ensures |r| == n
    ensures forall i :: 0 <= i < n ==> r[i] == if i < |s| then s[i] else 0
  {
    if |s| >= n then s[..n] else s + seq(n - |s|, _ => 0)
  }

  /** A vector after the truncation step: when there are more timestamps than the window,
      both vectors are resized to the window (the cumulative difficulties padded with zeros
      if they are shorter); otherwise the vector is left as it is. */
  function Windowed(c: Currency, timestamps: seq<u64>, s: seq<u64>): (r: seq<u64>)
    ensures |r| == if |timestamps| > c.difficultyWindow then c.difficultyWindow else |s|
    ensures |timestamps| <= c.difficultyWindow ==> r == s
    ensures forall i :: 0 <= i < |r| && i < |s| ==> r[i] == s[i]
  {
    if |timestamps| > c.difficultyWindow then Resize(s, c.difficultyWindow) else s
  }

  function Max(a: int, b: int): int { if a < b then b else a }

  /** The trimmed window `[cutBegin, cutEnd)` of `length` samples: all of them when there
      are at most `KeptSamples`, otherwise `KeptSamples` of them taken from the middle, the
      extra sample (for an odd excess) being dropped from the front. */
  function CutWindow(c: Currency, length: nat): (r: (nat, nat))
    requires CutParamsValid(c) && 2 <= length <= c.difficultyWindow
    ensures r.0 + 2 <= r.1 <= length
    ensures r.1 - r.0 == if length <= KeptSamples(c) then length else KeptSamples(c)
    ensures length - r.1 <= r.0 <= length - r.1 + 1
  {
    var k := KeptSamples(c);
    if length <= k then (0, length)
    else
      var cutBegin := (length - k + 1) / 2;
      (cutBegin, cutBegin + k)
  }

  /** The sorted, truncated timestamps. */
  function SortedWindow(c: Currency, timestamps: seq<u64>): (ts: seq<u64>)
    ensures |ts| == |Windowed(c, timestamps, timestamps)|
    ensures IsSorted(ts) && multiset(ts) == multiset(Windowed(c, timestamps, timestamps))
  {
    SortAscProperties(Windowed(c, timestamps, timestamps));
    SortAsc(Windowed(c, timestamps, timestamps))
  }

  /** The time spanned by the trimmed window of the sorted timestamps, at least 1. */
  function TimeSpan(c: Currency, timestamps: seq<u64>): (span: u64)
    requires CutParamsValid(c) && |timestamps| >= 2
    ensures span >= 1
  {
    var ts := SortedWindow(c, timestamps);
    var (b, e) := CutWindow(c, |ts|);
    var span := Sub64(ts[e - 1], ts[b]);
    if span == 0 then 1 else span
  }

  /** Since the timestamps are sorted, the span is the exact difference of the trimmed
      window's last and first timestamps, or 1 when they are equal. */
  lemma TimeSpanIsDifference(c: Currency, timestamps: seq<u64>)
    requires CutParamsValid(c) && |timestamps| >= 2
    ensures var ts := SortedWindow(c, timestamps);
      var (b, e) := CutWindow(c, |ts|);
      ts[b] <= ts[e - 1] && TimeSpan(c, timestamps) == Max(1, ts[e - 1] - ts[b])
  {
  }

  /** The work of the trimmed window, read from the cumulative difficulties in their
      original order (they are not sorted with the timestamps); the difference is on uint64_t. */
  function TotalWork(c: Currency, timestamps: seq<u64>, cumulativeDifficulties: seq<u64>): u64
    requires CutParamsValid(c) && |timestamps| >= 2
    requires |timestamps| <= c.difficultyWindow ==> |cumulativeDifficulties| == |timestamps|
  {
    var cds := Windowed(c, timestamps, cumulativeDifficulties);
    var (b, e) := CutWindow(c, |Windowed(c, timestamps, timestamps)|);
    Sub64(cds[e - 1], cds[b])
  }

  /** True when `mul128(work, target)` has a nonzero high part or `low + span - 1` wraps. */
  predicate RetargetOverflows(work: u64, target: u64, span: u64) {
    work * target >= TWO_64 || work * target + span - 1 >= TWO_64
  }

  /** The last step of `nextDifficulty1`: `ceil(work * target / span)`, or 0 on overflow. */
  function Retarget(work: u64, target: u64, span: u64): (d: u64)
    requires span >= 1
    ensures RetargetOverflows(work, target, span) ==> d == 0
    ensures !RetargetOverflows(work, target, span) ==> (d - 1) * span < work * target <= d * span
  {
    var product := work * target;
    var low := product % TWO_64;
    var high := product / TWO_64;
    ProductHalves(product);
    WrapCheck(low, span);
    if high != 0 || Sub64(Add64(low, span), 1) < low then 0
    else
      CeilDiv(low, span);
      Sub64(Add64(low, span), 1) / span
  }

  /** The high half of a 128-bit product is zero exactly when the product fits in 64 bits. */
  lemma ProductHalves(p: nat)
    ensures p / TWO_64 == 0 <==> p < TWO_64
    ensures p < TWO_64 ==> p % TWO_64 == p
  {
  }

  /** `low + span - 1 < low` on uint64_t detects exactly the wrap-around of the exact sum. */
  lemma WrapCheck(low: u64, span: u64)
    requires span >= 1
    ensures Sub64(Add64(low, span), 1) < low <==> low + span - 1 >= TWO_64
    ensures low + span - 1 < TWO_64 ==> Sub64(Add64(low, span), 1) == low + span - 1
  {
  }

  lemma CeilDiv(x: nat, span: nat)
    requires span >= 1 && x + span - 1 < TWO_64
    ensures var d := (x + span - 1) / span;
      d < TWO_64 && (d - 1) * span < x <= d * span
  {
    var y := x + span - 1;
    var d := y / span;
    assert y == d * span + y % span;
    DivBounds(y, span);
  }

  /** `nextDifficulty1`: truncates both windows, sorts the timestamps alone, trims the
      window, and divides the window's work times the target by its time span, rounding
      up; 1 with fewer than two samples and 0 on overflow. */
  method NextDifficulty1(c: Currency, timestamps: seq<u64>, cumulativeDifficulties: seq<u64>)
    returns (d: u64)
    requires c.difficultyWindow >= 2
    requires |timestamps| >= 2 ==> CutParamsValid(c)
    requires |timestamps| <= c.difficultyWindow ==> |cumulativeDifficulties| == |timestamps|
    ensures |timestamps| <= 1 ==> d == 1
    ensures |timestamps| >= 2 ==>
      d == Retarget(TotalWork(c, timestamps, cumulativeDifficulties), c.difficultyTarget, TimeSpan(c, timestamps))
  {
    var ts := timestamps;
    var cds := cumulativeDifficulties;
    if |ts| > c.difficultyWindow {
      ts := Resize(ts, c.difficultyWindow);
      cds := Resize(cds, c.difficultyWindow);
    }
    assert ts == Windowed(c, timestamps, timestamps);
    assert cds == Windowed(c, timestamps, cumulativeDifficulties);
    var length := |ts|;
    if length <= 1 {
      return 1;
    }
    ts := SortedWindow(c, timestamps);
    var cutBegin: nat, cutEnd: nat := CutBounds(c, length);
    var timeSpan := Sub64(ts[cutEnd - 1], ts[cutBegin]);
    if timeSpan == 0 {
      timeSpan := 1;
    }
    assert timeSpan == TimeSpan(c, timestamps);
    var totalWork := Sub64(cds[cutEnd - 1], cds[cutBegin]);
    assert totalWork == TotalWork(c, timestamps, cumulativeDifficulties);
    d := RetargetSteps(totalWork, c.difficultyTarget, timeSpan);
  }

  /** The branch computing `cutBegin` and `cutEnd`. */
  method CutBounds(c: Currency, length: nat) returns (cutBegin: nat, cutEnd: nat)
    requires CutParamsValid(c) && 2 <= length <= c.difficultyWindow
    ensures (cutBegin, cutEnd) == CutWindow(c, length)
  {
    var kept := c.difficultyWindow - Mul64(2, c.difficultyCut);
    if length <= kept {
      cutBegin, cutEnd := 0, length;
    } else {
      cutBegin := (length - kept + 1) / 2;
      cutEnd := cutBegin + kept;
    }
  }

  /** The 128-bit product and the rounding-up division. */
  method RetargetSteps(totalWork: u64, target: u64, timeSpan: u64) returns (d: u64)
    requires timeSpan >= 1
    ensures d == Retarget(totalWork, target, timeSpan)
  {
    var product := totalWork * target;
    var low := product % TWO_64;
    var high := product / TWO_64;
    if high != 0 || Sub64(Add64(low, timeSpan), 1) < low {
      return 0;
    }
    d := Sub64(Add64(low, timeSpan), 1) / timeSpan;
  }

  // ================================================================ nextDifficulty (LWMA-2)

  /** Result of `nextDifficulty`: a difficulty, or `Undefined` where the C++ code has
      undefined behaviour (a signed 64-bit overflow or a division by zero). */
  datatype Lwma = Difficulty(value: u64) | Undefined

  /** The signed parameters: `T`, `N = difficultyWindowV1 - 1` and `FTL`, each converted to int64_t. */
  function LwmaT(c: Currency): i64 { ToInt64(c.difficultyTarget) }
  function LwmaN(c: Currency): i64 { ToInt64(Sub64(c.difficultyWindowV1, 1)) }
  function LwmaFtl(c: Currency): i64 { ToInt64(c.blockFutureTimeLimit) }

  function Min(a: int, b: int): int { if a < b then a else b }

  /** The clamped solve time of block `i`, computed exactly. */
  function Clamped(ts: seq<u64>, i: nat, t: int, ftl: int): int
    requires 1 <= i < |ts|
  {
    Max(-ftl, Min(ToInt64(ts[i]) as int - ToInt64(ts[i - 1]) as int, 6 * t))
  }

  /** The clamped solve time as int64_t arithmetic yields it, or None on signed overflow. */
  function SolveTime(ts: seq<u64>, i: nat, t: int, ftl: int): (r: Option<int>)
    requires 1 <= i < |ts|
    ensures r.Some? <==> InI64(ToInt64(ts[i]) as int - ToInt64(ts[i - 1]) as int) && InI64(6 * t) && InI64(-ftl)
    ensures r.Some? ==> r.value == Clamped(ts, i, t, ftl) && InI64(r.value)
  {
    var diff := ToInt64(ts[i]) as int - ToInt64(ts[i - 1]) as int;
    if !InI64(diff) || !InI64(6 * t) || !InI64(-ftl) then None
    else Some(Clamped(ts, i, t, ftl))
  }

  /** Each clamped solve time lies in `[-FTL, 6*T]` when that range is not empty. */
  lemma ClampBounds(ts: seq<u64>, i: nat, t: int, ftl: int)
    requires 1 <= i < |ts| && -ftl <= 6 * t
    ensures -ftl <= Clamped(ts, i, t, ftl) <= 6 * t
  {
  }

  /** One iteration of the weighting loop: `L += ST * i` and, for the last three blocks,
      `sum_3_ST += ST`; None on signed overflow. */
  function Step(state: (int, int), st: int, i: nat, bigN: int): Option<(int, int)> {
    var w := st * i;
    if !InI64(w) || !InI64(state.0 + w) then None
    else if i > bigN - 3 then
      if InI64(state.1 + st) then Some((state.0 + w, state.1 + st)) else None
    else Some((state.0 + w, state.1))
  }

  /** The state `(L, sum_3_ST)` of the weighting loop after iterations `1..n`, or None once
      a signed 64-bit operation has overflowed. */
  function Accumulate(ts: seq<u64>, t: int, ftl: int, bigN: nat, n: nat): Option<(int, int)>
    requires n <= bigN < |ts|
  {
    if n == 0 then Some((0, 0))
    else
      var prev := Accumulate(ts, t, ftl, bigN, n - 1);
      var st := SolveTime(ts, n, t, ftl);
      if prev.None? || st.None? then None else Step(prev.value, st.value, n, bigN)
  }

  /** `L`: the solve times weighted by their position, the most recent weighing most. */
  function WeightedSum(ts: seq<u64>, t: int, ftl: int, n: nat): int
    requires n < |ts|
  {
    if n == 0 then 0 else WeightedSum(ts, t, ftl, n - 1) + Clamped(ts, n, t, ftl) * n
  }

  /** `sum_3_ST`: the clamped solve times of the blocks after `bigN - 3` up to `n`. */
  function RecentSum(ts: seq<u64>, t: int, ftl: int, bigN: int, n: nat): int
    requires n < |ts|
  {
    if n == 0 then 0
    else RecentSum(ts, t, ftl, bigN, n - 1) + (if n > bigN - 3 then Clamped(ts, n, t, ftl) else 0)
  }

  /** When the loop does not overflow it computes the weighted sum and the recent sum. */
  lemma {:induction false} AccumulateExact(ts: seq<u64>, t: int, ftl: int, bigN: nat, n: nat)
    requires n <= bigN < |ts| && Accumulate(ts, t, ftl, bigN, n).Some?
    ensures Accumulate(ts, t, ftl, bigN, n).value
      == (WeightedSum(ts, t, ftl, n), RecentSum(ts, t, ftl, bigN, n))
  {
    if n > 0 {
      var prev := Accumulate(ts, t, ftl, bigN, n - 1);
      var st := SolveTime(ts, n, t, ftl);
      assert prev.Some? && st.Some?;
      AccumulateExact(ts, t, ftl, bigN, n - 1);
      var cl := Clamped(ts, n, t, ftl);
      assert st.value == cl;
      var r := Step(prev.value, cl, n, bigN);
      assert Accumulate(ts, t, ftl, bigN, n) == r;
      assert WeightedSum(ts, t, ftl, n) == prev.value.0 + cl * n;
      assert RecentSum(ts, t, ftl, bigN, n) == prev.value.1 + (if n > bigN - 3 then cl else 0);
    }
  }

  /** Once a step has overflowed, every later state is undefined too. */
  lemma {:induction false} AccumulateFails(ts: seq<u64>, t: int, ftl: int, bigN: nat, n: nat, m: nat)
    requires n <= m <= bigN < |ts| && Accumulate(ts, t, ftl, bigN, n).None?
    ensures Accumulate(ts, t, ftl, bigN, m).None?
  {
    if m > n {
      AccumulateFails(ts, t, ftl, bigN, n, m - 1);
    }
  }

  /** With non-negative `T` and `FTL`, every clamped solve time times `k` lies within
      `(6*T + FTL) * k` of zero. */
  lemma ClampedMagnitude(ts: seq<u64>, i: nat, t: int, ftl: int, k: nat)
    requires 1 <= i < |ts| && 0 <= t && 0 <= ftl
    ensures -((6 * t + ftl) * k) <= Clamped(ts, i, t, ftl) * k <= (6 * t + ftl) * k
  {
    var b := 6 * t + ftl;
    var cl := Clamped(ts, i, t, ftl);
    if cl >= 0 {
      MulMonotone(cl, b, k);
    } else {
      MulMonotone(-cl, b, k);
      assert (-cl) * k == -(cl * k);
    }
  }

  /** `L` after `n` iterations lies within `(6*T + FTL) * n^2` of zero. */
  lemma {:induction false} WeightedSumBound(ts: seq<u64>, t: int, ftl: int, n: nat)
    requires n < |ts| && 0 <= t && 0 <= ftl
    ensures -((6 * t + ftl) * (n * n)) <= WeightedSum(ts, t, ftl, n) <= (6 * t + ftl) * (n * n)
  {
    if n > 0 {
      WeightedSumBound(ts, t, ftl, n - 1);
      ClampedMagnitude(ts, n, t, ftl, n);
      SquareStep(WeightedSum(ts, t, ftl, n - 1), Clamped(ts, n, t, ftl) * n, 6 * t + ftl, n);
    }
  }

  /** Adding a term within `b * n` to a value within `b * (n-1)^2` stays within `b * n^2`. */
  lemma SquareStep(prev: int, x: int, b: nat, n: nat)
    requires n >= 1
    requires -(b * ((n - 1) * (n - 1))) <= prev <= b * ((n - 1) * (n - 1))
    requires -(b * n) <= x <= b * n
    ensures -(b * (n * n)) <= prev + x <= b * (n * n)
  {
    var m := (n - 1) * (n - 1);
    assert m + n <= n * n;
    MulMonotone(m + n, n * n, b);
    assert (m + n) * b == b * m + b * n;
  }

  /** `sum_3_ST` after `n` iterations lies within `(6*T + FTL) * n` of zero. */
  lemma {:induction false} RecentSumBound(ts: seq<u64>, t: int, ftl: int, bigN: int, n: nat)
    requires n < |ts| && 0 <= t && 0 <= ftl
    ensures -((6 * t + ftl) * n) <= RecentSum(ts, t, ftl, bigN, n) <= (6 * t + ftl) * n
  {
    if n > 0 {
      RecentSumBound(ts, t, ftl, bigN, n - 1);
      ClampedMagnitude(ts, n, t, ftl, 1);
      assert (6 * t + ftl) * n == (6 * t + ftl) * (n - 1) + (6 * t + ftl);
    }
  }

  /** A value within `b * k` of zero, where `b * K` is below 2^63 and `k <= K`, is an int64_t. */
  lemma FitsI64(x: int, b: nat, k: nat, bigK: nat)
    requires -(b * k) <= x <= b * k && k <= bigK && b * bigK < TWO_63
    ensures InI64(x)
  {
    MulMonotone(k, bigK, b);
  }

  /** `n <= n^2 <= N^2` for `1 <= n <= N`. */
  lemma SquareBounds(n: nat, bigN: nat)
    requires 1 <= n <= bigN
    ensures n <= n * n <= bigN * bigN
  {
    MulMonotone(1, n, n);
    MulMonotone(n, bigN, n);
    MulMonotone(n, bigN, bigN);
  }

  /** The weighting loop never overflows for timestamps below 2^62 and non-negative `T` and
      `FTL` with `(6*T + FTL) * N^2` below 2^63: it computes `L` and `sum_3_ST` exactly. */
  lemma {:induction false} AccumulateDefined(ts: seq<u64>, t: int, ftl: int, bigN: nat, n: nat)
    requires n <= bigN < |ts|
    requires forall i :: 0 <= i < |ts| ==> ts[i] < TWO_62
    requires 0 <= t && 0 <= ftl && (6 * t + ftl) * (bigN * bigN) < TWO_63
    ensures Accumulate(ts, t, ftl, bigN, n)
      == Some((WeightedSum(ts, t, ftl, n), RecentSum(ts, t, ftl, bigN, n)))
  {
    if n > 0 {
      AccumulateDefined(ts, t, ftl, bigN, n - 1);
      var b: nat := 6 * t + ftl;
      var bigK := bigN * bigN;
      var cl := Clamped(ts, n, t, ftl);
      var ws, rs := WeightedSum(ts, t, ftl, n), RecentSum(ts, t, ftl, bigN, n);
      assert ts[n] < TWO_62 && ts[n - 1] < TWO_62;
      SquareBounds(n, bigN);
      FitsI64(6 * t, b, 1, bigK);
      FitsI64(-ftl, b, 1, bigK);
      assert SolveTime(ts, n, t, ftl) == Some(cl);
      ClampedMagnitude(ts, n, t, ftl, n);
      FitsI64(cl * n, b, n, bigK);
      WeightedSumBound(ts, t, ftl, n);
      FitsI64(ws, b, n * n, bigK);
      RecentSumBound(ts, t, ftl, bigN, n);
      FitsI64(rs, b, n, bigK);
      assert ws == WeightedSum(ts, t, ftl, n - 1) + cl * n;
      assert rs == RecentSum(ts, t, ftl, bigN, n - 1) + (if n > bigN - 3 then cl else 0);
      assert Accumulate(ts, t, ftl, bigN, n)
        == Step((WeightedSum(ts, t, ftl, n - 1), RecentSum(ts, t, ftl, bigN, n - 1)), cl, n, bigN);
    }
  }

  /** What `nextDifficulty` computes; a vector's size is below 2^63. */
  function Lwma2(c: Currency, timestamps: seq<u64>, cumulativeDifficulties: seq<u64>): Lwma
    requires |cumulativeDifficulties| == |timestamps| < TWO_63
  {
    var t, bigN, ftl := LwmaT(c), LwmaN(c), LwmaFtl(c);
    if |timestamps| <= ToU64(bigN) then Difficulty(1)
    else
      var state := Accumulate(timestamps, t, ftl, bigN, bigN);
      if state.None? then Undefined
      else LwmaFinish(t, bigN, state.value.0, state.value.1, cumulativeDifficulties)
  }

  /** `(cumulativeDifficulties[N] - cumulativeDifficulties[0]) * T * (N + 1) * 99` on uint64_t. */
  function LwmaNumerator(cds: seq<u64>, t: i64, bigN: nat): u64
    requires bigN < |cds| && InI64(bigN + 1)
  {
    var work := Sub64(cds[bigN], cds[0]);
    Mul64(Mul64(Mul64(work, ToU64(t)), ToU64(bigN + 1)), 99)
  }

  /** `prev_D * 110 / 100` on int64_t, converted to uint64_t; Undefined on overflow. */
  function Damped(prevD: i64): Lwma {
    if InI64(prevD * 110) then Difficulty(ToU64(TruncDiv(prevD * 110, 100))) else Undefined
  }

  /** The tail of `nextDifficulty` once the loop is done: the weighted formula, replaced by
      the damped previous difficulty when the last three solve times are short. */
  function LwmaFinish(t: i64, bigN: nat, l: int, sum3: int, cds: seq<u64>): Lwma
    requires bigN < |cds|
    requires bigN == 0 ==> l == 0
  {
    if !InI64(200 * l) || l == 0 || !InI64(bigN + 1) || !InI64(8 * t) then Undefined
    else
      var nextD := ToInt64(Div64(LwmaNumerator(cds, t, bigN), ToU64(200 * l)));
      var prevD := ToInt64(Sub64(cds[bigN], cds[bigN - 1]));
      if sum3 < TruncDiv(8 * t, 10) then Damped(prevD) else Difficulty(ToU64(nextD))
  }

  /** `nextDifficulty`: below `N + 1` samples the initial guess 1; otherwise the weighting loop
      over the last `N` solve times followed by the LWMA formula and the LWMA-2 damping. The
      height is not used. */
  method NextDifficulty(c: Currency, timestamps: seq<u64>, cumulativeDifficulties: seq<u64>, height: u64)
    returns (r: Lwma)
    requires |cumulativeDifficulties| == |timestamps| < TWO_63
    ensures r == Lwma2(c, timestamps, cumulativeDifficulties)
  {
    var t: int := LwmaT(c);
    var bigN: int := LwmaN(c);
    var ftl: int := LwmaFtl(c);
    var l: int := 0;
    var sum3: int := 0;
    if |timestamps| <= ToU64(bigN) {
      return Difficulty(1);
    }
    var i: nat := 1;
    while i <= bigN
      invariant 1 <= i <= bigN + 1
      invariant Accumulate(timestamps, t, ftl, bigN, i - 1) == Some((l, sum3))
    {
      var diff := ToInt64(timestamps[i]) as int - ToInt64(timestamps[i - 1]) as int;
      if !InI64(diff) || !InI64(6 * t) || !InI64(-ftl) {
        assert SolveTime(timestamps, i, t, ftl).None?;
        AccumulateFails(timestamps, t, ftl, bigN, i, bigN);
        return Undefined;
      }
      var st := Max(-ftl, Min(diff, 6 * t));
      assert SolveTime(timestamps, i, t, ftl) == Some(st);
      ghost var next := Step((l, sum3), st, i, bigN);
      assert Accumulate(timestamps, t, ftl, bigN, i) == next;
      if !InI64(st * i) || !InI64(l + st * i) {
        AccumulateFails(timestamps, t, ftl, bigN, i, bigN);
        return Undefined;
      }
      l := l + st * i;
      if i > bigN - 3 {
        if !InI64(sum3 + st) {
          AccumulateFails(timestamps, t, ftl, bigN, i, bigN);
          return Undefined;
        }
        sum3 := sum3 + st;
      }
      assert next == Some((l, sum3));
      i := i + 1;
    }
    r := LwmaFinish(t, bigN, l, sum3, cumulativeDifficulties);
  }

  /** Bootstrap: with at most `N` samples the result is the initial guess 1, whatever the samples hold. */
  lemma LwmaBootstrap(c: Currency, timestamps: seq<u64>, cumulativeDifficulties: seq<u64>)
    requires |cumulativeDifficulties| == |timestamps| < TWO_63
    requires 0 <= LwmaN(c) && |timestamps| <= LwmaN(c)
    ensures Lwma2(c, timestamps, cumulativeDifficulties) == Difficulty(1)
  {
  }

  /** Past the bootstrap, with timestamps below 2^62 and `(6*T + FTL) * N^2` below 2^63,
      `nextDifficulty` is the LWMA-2 formula applied to the weighted sum `L` of the clamped
      solve times and the sum of the last three. */
  lemma LwmaDefined(c: Currency, timestamps: seq<u64>, cumulativeDifficulties: seq<u64>)
    requires |cumulativeDifficulties| == |timestamps| < TWO_63
    requires 0 <= LwmaN(c) < |timestamps|
    requires LwmaT(c) >= 0 && LwmaFtl(c) >= 0
    requires (6 * LwmaT(c) + LwmaFtl(c)) * (LwmaN(c) * LwmaN(c)) < TWO_63
    requires forall i :: 0 <= i < |timestamps| ==> timestamps[i] < TWO_62
    ensures var t, bigN, ftl := LwmaT(c), LwmaN(c), LwmaFtl(c);
      Lwma2(c, timestamps, cumulativeDifficulties)
        == LwmaFinish(t, bigN, WeightedSum(timestamps, t, ftl, bigN),
                      RecentSum(timestamps, t, ftl, bigN, bigN), cumulativeDifficulties)
  {
    var t, bigN, ftl := LwmaT(c), LwmaN(c), LwmaFtl(c);
    AccumulateDefined(timestamps, t, ftl, bigN, bigN);
  }

  /** LWMA-2 damping: once the formula is defined, the result is the damped previous
      difficulty exactly when the last three clamped solve times sum to less than `8*T/10`,
      and the weighted formula otherwise. */
  lemma LwmaDamping(t: i64, bigN: nat, l: int, sum3: int, cds: seq<u64>)
    requires bigN < |cds| && (bigN == 0 ==> l == 0)
    requires InI64(200 * l) && l != 0 && InI64(bigN + 1) && InI64(8 * t)
    ensures sum3 < TruncDiv(8 * t, 10) ==>
      LwmaFinish(t, bigN, l, sum3, cds) == Damped(ToInt64(Sub64(cds[bigN], cds[bigN - 1])))
    ensures sum3 >= TruncDiv(8 * t, 10) ==>
      LwmaFinish(t, bigN, l, sum3, cds) == Difficulty(ToU64(ToInt64(Div64(LwmaNumerator(cds, t, bigN), ToU64(200 * l)))))
  {
  }

  /** Identical timestamps give every solve time 0 (with non-negative `T` and `FTL`), so
      `L` is 0 and the formula would divide by zero. */
  lemma {:induction false} EqualTimestampsZeroWeight(ts: seq<u64>, t: int, ftl: int, n: nat)
    requires n < |ts| && t >= 0 && ftl >= 0
    requires forall i :: 0 <= i < |ts| ==> ts[i] == ts[0]
    ensures WeightedSum(ts, t, ftl, n) == 0
  {
    if n > 0 {
      EqualTimestampsZeroWeight(ts, t, ftl, n - 1);
      assert ts[n] == ts[n - 1];
    }
  }

  /** With identical timestamps (and non-negative `T` and `FTL`) and enough samples to leave
      the bootstrap, `L` is 0 and the C++ divides by zero: the result is undefined. */
  lemma EqualTimestampsUndefined(c: Currency, timestamps: seq<u64>, cumulativeDifficulties: seq<u64>)
    requires |cumulativeDifficulties| == |timestamps| < TWO_63
    requires 0 <= LwmaN(c) < |timestamps|
    requires LwmaT(c) >= 0 && LwmaFtl(c) >= 0
    requires forall i :: 0 <= i < |timestamps| ==> timestamps[i] == timestamps[0]
    ensures Lwma2(c, timestamps, cumulativeDifficulties) == Undefined
  {
    var t, bigN, ftl := LwmaT(c), LwmaN(c), LwmaFtl(c);
    var state := Accumulate(timestamps, t, ftl, bigN, bigN);
    if state.Some? {
      AccumulateExact(timestamps, t, ftl, bigN, bigN);
      EqualTimestampsZeroWeight(timestamps, t, ftl, bigN);
    }
  }
}
