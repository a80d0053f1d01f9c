/**
 * Circular next/prev stepping of `switchMatch` (FindReplacePanel.jsx).
 */
module Navigator {
  datatype Direction = Next | Prev

  /** JavaScript's integer quotient: truncated toward zero. */
  function JsQuot(a: int, n: int): int
    requires n > 0
  {
    if a >= 0 then a / n else -((-a) / n)
  }

  /**
   * JavaScript's `%`: with the truncated quotient `q`, `a == n * q + r`,
   * the remainder is smaller than `n` in size and takes the sign of the
   * dividend.
   */
  function JsRem(a: int, n: int): (r: int)
    requires n > 0
    ensures a == n * JsQuot(a, n) + r
    ensures -n < r < n
    ensures a >= 0 ==> r >= 0
    ensures a <= 0 ==> r <= 0
  {
    if a >= 0 then a % n else -((-a) % n)
  }

  /** On `0 <= a < 2 * n` the remainder wraps `a` past `n` at most once. */
  lemma RemWrap(a: int, n: int)
    requires 0 <= a < 2 * n
    ensures JsRem(a, n) == if a < n then a else a - n
  {
    ModWrap(a, n);
  }

  lemma ModWrap(a: int, n: int)
    requires 0 <= a < 2 * n
    ensures a % n == if a < n then a else a - n
  {
    if a < n {
      assert a == n * 0 + a;
    } else {
      assert a == n * 1 + (a - n);
    }
  }

  /**
   * `(i + 1) % n` for next and `(i - 1 + n) % n` for prev. The index is
   * the current match index, -1 when there is none.
   */
  function Step(i: int, n: int, d: Direction): (r: int)
    requires n > 0 && -1 <= i < n
    ensures 0 <= r < n
    ensures d == Next ==> r == (if i == n - 1 then 0 else i + 1)
    ensures d == Prev && i >= 0 ==> r == (if i == 0 then n - 1 else i - 1)
    ensures d == Prev && i == -1 ==> r == (if n == 1 then 0 else n - 2)
  {
    match d
    case Next =>
      RemWrap(i + 1, n);
      JsRem(i + 1, n)
    case Prev =>
      if i - 1 + n >= 0 then RemWrap(i - 1 + n, n); JsRem(i - 1 + n, n) else JsRem(i - 1 + n, n)
  }

  /** Stepping back undoes stepping forward, and the other way round. */
  lemma StepsUndo(i: int, n: int)
    requires 0 <= i < n
    ensures Step(Step(i, n, Next), n, Prev) == i
    ensures Step(Step(i, n, Prev), n, Next) == i
  {
  }

  /** The index reached after `k` steps forward. */
  function Advance(i: int, n: int, k: nat): (r: int)
    requires 0 <= i < n
    ensures 0 <= r < n
  {
    if k == 0 then i else Step(Advance(i, n, k - 1), n, Next)
  }

  /** Within one cycle, `k` steps forward from `i` land on `i + k`, wrapped past the end once. */
  lemma {:induction false} AdvanceWithinCycle(i: int, n: int, k: nat)
    requires 0 <= i < n && k <= n
    ensures Advance(i, n, k) == if i + k < n then i + k else i + k - n
  {
    if k > 0 {
      AdvanceWithinCycle(i, n, k - 1);
    }
  }

  /** Navigation is circular: `n` steps forward return to the starting index. */
  lemma FullCycle(i: int, n: int)
    requires 0 <= i < n
    ensures Advance(i, n, n) == i
  {
    AdvanceWithinCycle(i, n, n);
  }

  /** Stepping is periodic with period `n`, whatever the number of steps. */
  lemma {:induction false} AdvancePeriodic(i: int, n: int, k: nat)
    requires 0 <= i < n
    ensures Advance(i, n, k + n) == Advance(i, n, k)
  {
    if k == 0 {
      FullCycle(i, n);
    } else {
      AdvancePeriodic(i, n, k - 1);
      assert Advance(i, n, k + n) == Step(Advance(i, n, k - 1 + n), n, Next);
    }
  }
}
