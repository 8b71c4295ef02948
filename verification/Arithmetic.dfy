/** The larger of two numbers, and facts about products and quotients of variables that the solver needs spelled out once. */
module Arithmetic {

  function Max(x: int, y: int): int {
    if x < y then y else x
  }

  lemma {:induction false} Multiple(n: nat, x: nat)
    requires n > 0
    ensures n * x >= x
    ensures n > 1 && x > 0 ==> n * x > x
  {
    if n == 1 {
    } else {
      Multiple(n - 1, x);
      assert n * x == (n - 1) * x + x;
    }
  }

  lemma Product(n: nat, x: int, y: int)
    requires x <= y
    ensures n * x <= n * y
  {
    assert n * (y - x) >= 0;
  }

  lemma DivModUnique(k: int, n: int, q: int, r: int)
    requires n > 0 && k == q * n + r && 0 <= r < n
    ensures k / n == q && k % n == r
  {
    var d := k / n - q;
    assert d * n == r - k % n;
    assert d >= 1 ==> d * n >= n;
    assert d <= -1 ==> d * n <= -n;
  }

  lemma ModStep(k: int, n: int)
    requires n > 0
    ensures (k + 1) % n == if k % n + 1 == n then 0 else k % n + 1
    ensures (k + 1) / n == if k % n + 1 == n then k / n + 1 else k / n
  {
    var q, r := k / n, k % n;
    assert k == q * n + r;
    if r + 1 == n {
      assert k + 1 == (q + 1) * n;
      DivModUnique(k + 1, n, q + 1, 0);
    } else {
      DivModUnique(k + 1, n, q, r + 1);
    }
  }

  /** An index that runs through 1, ..., n and wraps from n to 0 before use follows a count modulo n. */
  lemma CyclicIndex(index: int, n: int, a: nat)
    requires n > 0 && 0 <= index <= n && index % n == a % n
    ensures
      var i := if index == n then 0 else index;
      && i == a % n
      && 0 <= i + 1 <= n
      && (i + 1) % n == (a + 1) % n
  {
    DivModUnique(n, n, 1, 0);
    if index < n {
      DivModUnique(index, n, 0, index);
    }
    ModStep(a, n);
    var i := a % n;
    if i + 1 < n {
      DivModUnique(i + 1, n, 0, i + 1);
    }
  }
}
