/** Index arithmetic of the navigation functions. JavaScript's `%` truncates
    toward zero (the remainder takes the sign of the dividend); Dafny's `%`
    is Euclidean, so the JavaScript operator is written out. */
module Wrap {

  /** JavaScript's `a % b` for a positive divisor (`-0` is read as 0): the
      remainder keeps the dividend's sign, and it differs from the Euclidean
      remainder by at most one divisor. */
  function JsRem(a: int, b: int): (r: int)
    requires b > 0
    ensures -b < r < b
    ensures r == 0 || (r > 0 <==> a > 0)
    ensures r == a % b || r == a % b - b
  {
    if a >= 0 then
      assert a == 0 ==> a % b == 0;
      a % b
    else
      var m := (-a) % b;
      NegatedRemainder(a, b);
      assert 0 <= m < b;
      -m
  }

  /** The Euclidean remainder of `a` is `b` minus that of `-a`, or 0. */
  lemma NegatedRemainder(a: int, b: int)
    requires b > 0
    ensures a % b == (if (-a) % b == 0 then 0 else b - (-a) % b)
  {
    var q, m := (-a) / b, (-a) % b;
    assert -a == q * b + m;
    if m == 0 {
      assert a == (-q) * b + 0;
      EuclidUnique(a, b, -q, 0);
    } else {
      assert a == (-q - 1) * b + (b - m);
      EuclidUnique(a, b, -q - 1, b - m);
    }
  }

  /** Quotient and remainder are the only ones with `0 <= r < b`. */
  lemma EuclidUnique(a: int, b: int, q: int, r: int)
    requires b > 0 && a == q * b + r && 0 <= r < b
    ensures a % b == r
  {
    var q', r' := a / b, a % b;
    assert a == q' * b + r';
    assert (q - q') * b == r' - r;
    MultipleBound(q - q', b);
  }

  /** A nonzero multiple of `b` is at least `b` away from 0. */
  lemma MultipleBound(d: int, b: int)
    requires b > 0
    ensures d > 0 ==> d * b >= b
    ensures d < 0 ==> d * b <= -b
    decreases if d < 0 then -d else d
  {
    if d > 1 {
      MultipleBound(d - 1, b);
      assert d * b == (d - 1) * b + b;
    } else if d < -1 {
      MultipleBound(d + 1, b);
      assert d * b == (d + 1) * b - b;
    }
  }

  /** `(i + 1) % n`, as `nextRow` and `nextCol` compute it. */
  function NextIndex(i: int, n: int): (r: int)
    requires n > 0
    ensures -1 <= i < n ==> 0 <= r < n && r == (if i == n - 1 then 0 else i + 1)
  {
    JsRem(i + 1, n)
  }

  /** `(i - 1 + n) % n`, as `prevRow` and `prevCol` compute it. From -1 (a
      column that was not found) it lands on `n - 2`, or on 0 when `n == 1`. */
  function PrevIndex(i: int, n: int): (r: int)
    requires n > 0
    ensures 0 <= i < n ==> 0 <= r < n && r == (if i == 0 then n - 1 else i - 1)
    ensures i == -1 ==> r == (if n == 1 then 0 else n - 2)
  {
    JsRem(i - 1 + n, n)
  }

  /** A backward move undoes a forward move, over the wrap too. */
  lemma PrevUndoesNext(i: int, n: int)
    requires 0 <= i < n
    ensures PrevIndex(NextIndex(i, n), n) == i
  {
  }

  /** A forward move undoes a backward move, over the wrap too. */
  lemma NextUndoesPrev(i: int, n: int)
    requires 0 <= i < n
    ensures NextIndex(PrevIndex(i, n), n) == i
  {
  }
}
