/** Java's 32-bit `int`, as far as the marker id counter needs it: the
    post-increment `id++` wraps from the largest int to the smallest. */
module JavaInt {

  const MinInt: int := -0x8000_0000
  const MaxInt: int := 0x7fff_ffff
  const Modulus: int := 0x1_0000_0000

  predicate IsInt(x: int)
  {
    MinInt <= x <= MaxInt
  }

  /** `x + 1` evaluated in Java `int` arithmetic. */
  function Inc(x: int): (r: int)
    requires IsInt(x)
    ensures IsInt(r)
    ensures r == x + 1 || (x == MaxInt && r == MinInt)
  {
    if x == MaxInt then MinInt else x + 1
  }

  /** The value of a counter that starts at 0 after `n` increments. */
  function CounterAfter(n: nat): (r: int)
    ensures IsInt(r)
  {
    if n == 0 then 0 else Inc(CounterAfter(n - 1))
  }

  /** The counter after `n` increments differs from `n` by a whole number
      `k` of wraps of 2^32. */
  lemma {:induction false} CounterOffset(n: nat) returns (k: int)
    ensures CounterAfter(n) == n - k * Modulus
  {
    if n == 0 {
      k := 0;
    } else {
      k := CounterOffset(n - 1);
      if CounterAfter(n - 1) == MaxInt {
        k := k + 1;
      }
    }
  }

  /** Until it first wraps, the counter equals the number of increments. */
  lemma {:induction false} CounterBeforeWrap(n: nat)
    requires n <= MaxInt
    ensures CounterAfter(n) == n
  {
    if n > 0 {
      CounterBeforeWrap(n - 1);
    }
  }

  /** The first 2^32 values the counter takes are pairwise distinct; the
      first 2^31 are strictly increasing. */
  lemma CounterDistinct(i: nat, j: nat)
    requires i < j < Modulus
    ensures CounterAfter(i) != CounterAfter(j)
    ensures j <= MaxInt ==> CounterAfter(i) < CounterAfter(j)
  {
    var ki := CounterOffset(i);
    var kj := CounterOffset(j);
    assert CounterAfter(j) - CounterAfter(i) == (j - i) - (kj - ki) * Modulus;
    if j <= MaxInt {
      CounterBeforeWrap(i);
      CounterBeforeWrap(j);
    }
  }
}
