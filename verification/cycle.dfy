/** `itertools.cycle` over a finite, non-empty sequence, observed through the
    first `k` values it yields. */
module Cycle {

  /** The first `k` values of `cycle(xs)`: copies of `xs` laid end to end, the
      last one cut short. */
  function CycleTake<T>(xs: seq<T>, k: nat): (drawn: seq<T>)
    requires |xs| > 0
    ensures |drawn| == k
    decreases k
  {
    if k <= |xs| then xs[..k] else xs + CycleTake(xs, k - |xs|)
  }

  /** The j-th value drawn from the cycle is `xs[j mod |xs|]`. */
  lemma {:induction false} CycleTakeAt<T>(xs: seq<T>, k: nat, j: nat)
    requires |xs| > 0 && j < k
    ensures CycleTake(xs, k)[j] == xs[j % |xs|]
    decreases k
  {
    var n := |xs|;
    if k > n {
      var rest := CycleTake(xs, k - n);
      assert CycleTake(xs, k) == xs + rest;
      if j >= n {
        CycleTakeAt(xs, k - n, j - n);
        assert (xs + rest)[j] == rest[j - n];
        ModMinus(j, n);
      } else {
        ModUnique(j, n, 0, j);
      }
    } else {
      ModUnique(j, n, 0, j);
    }
  }

  /** Drawing more values extends the values already drawn. */
  lemma CycleTakePrefix<T>(xs: seq<T>, k: nat, m: nat)
    requires |xs| > 0 && k <= m
    ensures CycleTake(xs, k) == CycleTake(xs, m)[..k]
  {
    forall j | 0 <= j < k
      ensures CycleTake(xs, k)[j] == CycleTake(xs, m)[j]
    {
      CycleTakeAt(xs, k, j);
      CycleTakeAt(xs, m, j);
    }
  }

  /** Two values drawn five times: x, y, x, y, x. */
  lemma CycleExample<T>(x: T, y: T)
    ensures CycleTake([x, y], 5) == [x, y, x, y, x]
  {
    var drawn := CycleTake([x, y], 5);
    forall j | 0 <= j < 5
      ensures drawn[j] == [x, y, x, y, x][j]
    {
      CycleTakeAt([x, y], 5, j);
    }
  }

  lemma {:induction false} MulAtLeast(a: int, b: int)
    requires a >= 1 && b > 0
    ensures a * b >= b
  {
    if a > 1 {
      MulAtLeast(a - 1, b);
      assert a * b == (a - 1) * b + b;
    }
  }

  /** Euclidean division has one remainder. */
  lemma ModUnique(j: int, n: int, q: int, r: int)
    requires 0 < n && 0 <= r < n && j == q * n + r
    ensures j % n == r
  {
    var q', r' := j / n, j % n;
    assert j == q' * n + r';
    assert (q - q') * n == r' - r;
    if q > q' {
      MulAtLeast(q - q', n);
    } else if q < q' {
      MulAtLeast(q' - q, n);
    }
  }

  lemma ModMinus(j: nat, n: nat)
    requires 0 < n <= j
    ensures (j - n) % n == j % n
  {
    var q, r := (j - n) / n, (j - n) % n;
    assert j - n == q * n + r;
    assert j == (q + 1) * n + r;
    ModUnique(j, n, q + 1, r);
  }
}
