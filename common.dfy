/** Small value-level helpers shared by the hex conversions and the Base58 codec. */
module Common {

  datatype Option<T> = None | Some(value: T)

  /** `base` raised to `e`, as Ruby's `base**e` on non-negative integers. */
  function Pow(base: nat, e: nat): nat
  {
    if e == 0 then 1 else base * Pow(base, e - 1)
  }

  lemma {:induction false} PowPositive(base: nat, e: nat)
    requires base > 0
    ensures Pow(base, e) > 0
  {
    if e > 0 {
      PowPositive(base, e - 1);
    }
  }

  /** Regrouping used by positional-notation proofs. */
  lemma Regroup(a: int, p: int, c: int, d: int, base: int)
    ensures (a * p + c) * base + d == a * (p * base) + (c * base + d)
  {
  }

  lemma MulPositive(a: int, b: int)
    requires a > 0 && b > 0
    ensures a * b > 0
  {
  }

  lemma EvenPredecessor(n: int)
    requires n % 2 == 0
    ensures (n - 1) % 2 == 1
  {
  }

  /** Halving `z` rounded down, for `z` at most an even `n`. */
  lemma HalfDown(z: nat, n: nat)
    requires z <= n && n % 2 == 0
    ensures 2 * (z / 2) <= z <= 2 * (z / 2) + 1
    ensures z == n ==> 2 * (z / 2) == z
    ensures (n - 2 * (z / 2)) % 2 == 0
    ensures z < n ==> n - 2 * (z / 2) >= 2
  {
  }

  /** `k` copies of `x`, as Ruby's `"1" * k`. */
  function Repeat<T>(x: T, k: nat): seq<T>
  {
    seq(k, _ => x)
  }

  /** Length of the leading run of `x` in `s`: the size of the match of `/^(x+)/`, 0 when it does not match. */
  function LeadingCount<T(==)>(s: seq<T>, x: T): (n: nat)
    ensures n <= |s|
    ensures forall i :: 0 <= i < n ==> s[i] == x
    ensures n < |s| ==> s[n] != x
  {
    if s != [] && s[0] == x then 1 + LeadingCount(s[1..], x) else 0
  }

  /** The leading run is exactly `Repeat(x, n)`, and the rest does not start with `x`. */
  lemma LeadingCountSplit<T>(s: seq<T>, x: T)
    ensures s == Repeat(x, LeadingCount(s, x)) + s[LeadingCount(s, x)..]
    ensures s[LeadingCount(s, x)..] == [] || s[LeadingCount(s, x)..][0] != x
  {
    var n := LeadingCount(s, x);
    assert s[..n] == Repeat(x, n);
    assert s == s[..n] + s[n..];
  }

  /** Dropping `m` elements of the leading run leaves a run shorter by `m`. */
  lemma LeadingRunDrop<T>(s: seq<T>, x: T, m: nat)
    requires m <= LeadingCount(s, x)
    ensures s == Repeat(x, m) + s[m..]
    ensures LeadingCount(s[m..], x) == LeadingCount(s, x) - m
  {
    assert s[..m] == Repeat(x, m);
    assert s == s[..m] + s[m..];
    LeadingCountAfterRepeat(x, m, s[m..]);
  }

  lemma ParityMinusTwo(n: int)
    ensures (n - 2) % 2 == n % 2
  {
  }

  lemma EvenSum(a: int, b: int)
    requires a % 2 == 0 && b % 2 == 0
    ensures (a + b) % 2 == 0
  {
  }

  /** Dropping an even number of elements from an even-length sequence leaves an even length. */
  lemma EvenSuffix<T>(s: seq<T>, k: nat)
    requires |s| % 2 == 0 && 2 * k <= |s|
    ensures |s[2 * k..]| % 2 == 0
  {
    assert |s[2 * k..]| == |s| - 2 * k;
  }

  /** A sequence of at least two elements, taken apart at its first two. */
  lemma SplitTwo<T>(s: seq<T>, t: seq<T>)
    requires |s| >= 2
    ensures s == [s[0], s[1]] + s[2..]
    ensures s + t == [s[0], s[1]] + (s[2..] + t)
  {
    assert s == [s[0], s[1]] + s[2..];
  }

  lemma EvenPositive(n: int)
    requires n % 2 == 0 && n > 0
    ensures n >= 2
  {
  }

  /** Prefixing `k` copies of `x` adds exactly `k` to the leading run. */
  lemma {:induction false} LeadingCountAfterRepeat<T>(x: T, k: nat, t: seq<T>)
    ensures LeadingCount(Repeat(x, k) + t, x) == k + LeadingCount(t, x)
  {
    if k > 0 {
      assert (Repeat(x, k) + t)[1..] == Repeat(x, k - 1) + t;
      LeadingCountAfterRepeat(x, k - 1, t);
    } else {
      assert Repeat(x, k) + t == t;
    }
  }
}
