/** Fixed-width integers, wrap-around arithmetic, sums and sorting shared by the
    currency-policy modules. C++ unsigned arithmetic wraps modulo 2^64; each such
    operation of the source is written with one of the helpers below. */
module Util {

  const TWO_32: int := 0x1_0000_0000
  const TWO_62: int := 0x4000_0000_0000_0000
  const TWO_63: int := 0x8000_0000_0000_0000
  const TWO_64: int := 0x1_0000_0000_0000_0000
  const U64_MAX: int := TWO_64 - 1

  type u8 = x: int | 0 <= x < 256
  type u32 = x: int | 0 <= x < 0x1_0000_0000
  type u64 = x: int | 0 <= x < 0x1_0000_0000_0000_0000
  type i64 = x: int | -0x8000_0000_0000_0000 <= x < 0x8000_0000_0000_0000
  type byte = u8

  datatype Option<T> = None | Some(value: T)

  /** `a + b` on uint64_t. */
  function Add64(a: u64, b: u64): u64 {
    if a + b < TWO_64 then a + b else a + b - TWO_64
  }

  /** `a - b` on uint64_t. */
  function Sub64(a: u64, b: u64): u64 {
    if a >= b then a - b else a - b + TWO_64
  }

  /** `a * b` on uint64_t. */
  function Mul64(a: u64, b: u64): u64 {
    (a * b) % TWO_64
  }

  /** Conversion of a uint64_t to int64_t (two's complement). */
  function ToInt64(x: u64): i64 {
    if x < TWO_63 then x else x - TWO_64
  }

  /** Conversion of an int64_t to uint64_t (two's complement). */
  function ToU64(x: i64): u64 {
    if x >= 0 then x else x + TWO_64
  }

  /** `a / b` on uint64_t. */
  function Div64(a: u64, b: u64): (q: u64)
    requires b != 0
    ensures q * b <= a < (q + 1) * b
  {
    DivBounds(a, b);
    a / b
  }

  predicate InI64(x: int) {
    -TWO_63 <= x < TWO_63
  }

  /** C++ integer division, which truncates toward zero (Dafny's `/` is Euclidean). */
  function TruncDiv(a: int, b: int): int
    requires b != 0
  {
    var q := (if a < 0 then -a else a) / (if b < 0 then -b else b);
    if (a < 0) != (b < 0) then -q else q
  }

  function Pow10(n: nat): nat {
    if n == 0 then 1 else 10 * Pow10(n - 1)
  }

  function Pow2(n: nat): nat {
    if n == 0 then 1 else 2 * Pow2(n - 1)
  }

  lemma Pow10Positive(n: nat)
    ensures Pow10(n) >= 1
  {
  }

  /** Powers of ten grow with the exponent. */
  lemma {:induction false} Pow10Monotone(a: nat, b: nat)
    requires a <= b
    ensures Pow10(a) <= Pow10(b)
  {
    if a < b {
      Pow10Monotone(a, b - 1);
    }
  }

  lemma Pow2Positive(n: nat)
    ensures Pow2(n) >= 1
  {
  }

  /** Division of a natural by a positive natural gives a natural no larger than the dividend. */
  lemma DivBounds(x: nat, d: nat)
    requires d >= 1
    ensures 0 <= x / d <= x
  {
  }

  lemma MulMonotone(a: nat, b: nat, k: nat)
    requires a <= b
    ensures a * k <= b * k
  {
  }

  /** Euclidean division of naturals is monotone in the dividend. */
  lemma DivMonotone(a: nat, b: nat, d: nat)
    requires a <= b && d >= 1
    ensures a / d <= b / d
  {
    var qa, qb := a / d, b / d;
    assert a == qa * d + a % d;
    assert b == qb * d + b % d;
    if qb < qa {
      MulMonotone(qb + 1, qa, d);
      assert false;
    }
  }

  /** Exact (unbounded) sum, accumulated left to right. */
  function Sum(s: seq<int>): int {
    if s == [] then 0 else Sum(s[..|s| - 1]) + s[|s| - 1]
  }

  /** The same sum as a uint64_t accumulator computes it: `acc += x` for each x. */
  function Sum64(s: seq<u64>): u64 {
    if s == [] then 0 else Add64(Sum64(s[..|s| - 1]), s[|s| - 1])
  }

  /** Adding a multiple of 2^64 does not change a value modulo 2^64. */
  lemma ModAddMultiple(x: int, q: int)
    ensures (x + q * TWO_64) % TWO_64 == x % TWO_64
  {
    var r := x % TWO_64;
    var d := x / TWO_64;
    assert x + q * TWO_64 == (d + q) * TWO_64 + r;
  }

  /** Addition on uint64_t is associative. */
  lemma Add64Assoc(x: u64, y: u64, z: u64)
    ensures Add64(Add64(x, y), z) == Add64(x, Add64(y, z))
  {
  }

  /** The wrapping accumulator is the exact sum reduced modulo 2^64. */
  lemma {:induction false} Sum64IsSumMod(s: seq<u64>)
    ensures Sum64(s) == Sum(s) % TWO_64
  {
    if s != [] {
      Sum64IsSumMod(s[..|s| - 1]);
    }
  }

  /** The sum of a prefix extended by one element. */
  lemma SumSnoc(s: seq<int>, x: int)
    ensures Sum(s + [x]) == Sum(s) + x
  {
    assert (s + [x])[..|s|] == s;
  }

  /** The sum of a concatenation. */
  lemma {:induction false} SumAppend(a: seq<int>, b: seq<int>)
    ensures Sum(a + b) == Sum(a) + Sum(b)
  {
    if b != [] {
      calc {
        Sum(a + b);
        { assert (a + b)[..|a + b| - 1] == a + b[..|b| - 1]; }
        Sum(a + b[..|b| - 1]) + b[|b| - 1];
        { SumAppend(a, b[..|b| - 1]); }
        Sum(a) + Sum(b[..|b| - 1]) + b[|b| - 1];
      }
    } else {
      assert a + b == a;
    }
  }

  /** Every element of a sequence of naturals is bounded by the sum. */
  lemma {:induction false} SumBoundsElement(s: seq<u64>, k: nat)
    requires k < |s|
    ensures s[k] <= Sum(s)
  {
    SumNonNegative(s[..|s| - 1]);
    if k < |s| - 1 {
      SumBoundsElement(s[..|s| - 1], k);
    }
  }

  lemma {:induction false} SumNonNegative(s: seq<u64>)
    ensures Sum(s) >= 0
  {
    if s != [] {
      SumNonNegative(s[..|s| - 1]);
    }
  }

  /** While the exact sum stays below 2^64 the uint64_t accumulator never wraps. */
  lemma Sum64Exact(s: seq<u64>)
    requires Sum(s) < TWO_64
    ensures Sum64(s) == Sum(s)
  {
    Sum64IsSumMod(s);
    SumNonNegative(s);
  }

  predicate IsSorted(s: seq<int>) {
    forall i, j :: 0 <= i < j < |s| ==> s[i] <= s[j]
  }

  /** Inserts `x` in front of the first element that is not smaller. */
  function Insert(x: u64, s: seq<u64>): seq<u64> {
    if s == [] || x <= s[0] then [x] + s else [s[0]] + Insert(x, s[1..])
  }

  lemma {:induction false} InsertProperties(x: u64, s: seq<u64>)
    ensures |Insert(x, s)| == |s| + 1
    ensures Insert(x, s)[0] == if s == [] || x <= s[0] then x else s[0]
    ensures multiset(Insert(x, s)) == multiset(s) + multiset{x}
    ensures IsSorted(s) ==> IsSorted(Insert(x, s))
  {
    if s == [] || x <= s[0] {
    } else {
      var rest := Insert(x, s[1..]);
      InsertProperties(x, s[1..]);
      assert Insert(x, s) == [s[0]] + rest;
      assert s == [s[0]] + s[1..];
      assert multiset(Insert(x, s)) == multiset{s[0]} + multiset(rest);
      if IsSorted(s) {
        assert IsSorted(s[1..]);
        assert s[0] <= rest[0];
        assert IsSorted(rest);
        SortedCons(s[0], rest);
      }
    }
  }

  lemma SortedCons(a: u64, r: seq<u64>)
    requires IsSorted(r) && (r != [] ==> a <= r[0])
    ensures IsSorted([a] + r)
  {
    var t := [a] + r;
    forall i, j | 0 <= i < j < |t| ensures t[i] <= t[j] {
      if i == 0 {
        assert t[j] == r[j - 1];
        assert r[0] <= r[j - 1];
      } else {
        assert t[i] == r[i - 1] && t[j] == r[j - 1];
      }
    }
  }

  /** Ascending sort, the effect of `std::sort` on a vector of uint64_t. */
  function SortAsc(s: seq<u64>): seq<u64> {
    if s == [] then [] else Insert(s[0], SortAsc(s[1..]))
  }

  lemma {:induction false} SortAscProperties(s: seq<u64>)
    ensures IsSorted(SortAsc(s))
    ensures multiset(SortAsc(s)) == multiset(s)
    ensures |SortAsc(s)| == |s|
  {
    if s != [] {
      SortAscProperties(s[1..]);
      InsertProperties(s[0], SortAsc(s[1..]));
      assert s == [s[0]] + s[1..];
    }
  }

  /** Two sorted sequences with the same elements are equal: sorting determines its result. */
  lemma {:induction false} SortedUnique(a: seq<u64>, b: seq<u64>)
    requires IsSorted(a) && IsSorted(b)
    requires multiset(a) == multiset(b)
    ensures a == b
  {
    assert |a| == |multiset(a)| == |multiset(b)| == |b|;
    if a != [] {
      assert a[0] in multiset(b);
      assert a[0] in b;
      assert b[0] in multiset(a);
      assert b[0] in a;
      assert b[0] <= a[0];
      assert a[0] <= b[0];
      assert a == [a[0]] + a[1..];
      assert b == [b[0]] + b[1..];
      calc {
        multiset(a[1..]);
        multiset(a) - multiset{a[0]};
        multiset(b) - multiset{b[0]};
        multiset(b[1..]);
      }
      SortedUnique(a[1..], b[1..]);
    }
  }

  /** Inserting an element adds it to the sum. */
  lemma {:induction false} InsertSum(x: u64, s: seq<u64>)
    ensures Sum(Insert(x, s)) == x + Sum(s)
  {
    if s == [] || x <= s[0] {
      SumAppend([x], s);
    } else {
      InsertSum(x, s[1..]);
      SumAppend([s[0]], Insert(x, s[1..]));
      SumAppend([s[0]], s[1..]);
      assert s == [s[0]] + s[1..];
    }
  }

  /** Sorting does not change the sum. */
  lemma {:induction false} SortAscSum(s: seq<u64>)
    ensures Sum(SortAsc(s)) == Sum(s)
  {
    if s != [] {
      SortAscSum(s[1..]);
      InsertSum(s[0], SortAsc(s[1..]));
      SumAppend([s[0]], s[1..]);
      assert s == [s[0]] + s[1..];
    }
  }

  /** `SortAsc(x) == y` exactly when `y` is sorted and has the same elements as `x`. */
  lemma SortAscCharacterised(x: seq<u64>, y: seq<u64>)
    ensures SortAsc(x) == y <==> IsSorted(y) && multiset(y) == multiset(x)
  {
    SortAscProperties(x);
    if IsSorted(y) && multiset(y) == multiset(x) {
      SortedUnique(SortAsc(x), y);
    }
  }
}
