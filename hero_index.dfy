/** Slide-index arithmetic of the hero slider (`goTo`, `next`, `prev` in app/components/Hero.tsx). */
module HeroIndex {

  /** JavaScript's `%`: the quotient is truncated toward zero, so the remainder has the sign of `a`. */
  function JsRem(a: int, n: int): (r: int)
    requires n > 0
    ensures -n < r < n
    ensures a >= 0 ==> 0 <= r
    ensures a <= 0 ==> r <= 0
    ensures (a - r) % n == 0
  {
    if a >= 0 then
      ModUnique(a - a % n, n, a / n, 0);
      a % n
    else
      ModUnique(a + (-a) % n, n, -((-a) / n), 0);
      -((-a) % n)
  }

  /** `((i % N) + N) % N` as `goTo` computes it, with JavaScript's `%`. */
  function NormalizeIndex(i: int, n: int): (to: int)
    requires n > 0
    ensures 0 <= to < n
    ensures to == i % n
  {
    var r := JsRem(i, n);
    MulAddRemainder(i - r - n, 1, n);
    SameRemainder(i, r + n, n);
    JsRem(r + n, n)
  }

  /** The quotient and remainder of Euclidean division are unique. */
  lemma ModUnique(a: int, n: int, q: int, r: int)
    requires n > 0 && 0 <= r < n
    requires a == n * q + r
    ensures a % n == r && a / n == q
  {
    var q0, r0 := a / n, a % n;
    assert a == n * q0 + r0;
    var d := q - q0;
    assert n * q - n * q0 == n * d;
    assert n * d == r0 - r;
  }

  /** Adding a multiple of `n` does not change the remainder. */
  lemma MulAddRemainder(b: int, q: int, n: int)
    requires n > 0
    ensures (b + n * q) % n == b % n
  {
    var bq, br := b / n, b % n;
    assert b == n * bq + br;
    assert n * bq + n * q == n * (bq + q);
    ModUnique(b + n * q, n, bq + q, br);
  }

  /** Two integers whose difference is a multiple of `n` leave the same remainder. */
  lemma SameRemainder(a: int, b: int, n: int)
    requires n > 0
    requires (a - b) % n == 0
    ensures a % n == b % n
  {
    var q := (a - b) / n;
    assert a - b == n * q + (a - b) % n;
    MulAddRemainder(b, q, n);
  }

  /** The slide `next()` moves to. */
  function NextIndex(k: int, n: int): (r: int)
    requires n > 0
    ensures 0 <= r < n
    ensures r == (k + 1) % n
  {
    NormalizeIndex(k + 1, n)
  }

  /** The slide `prev()` moves to. */
  function PrevIndex(k: int, n: int): (r: int)
    requires n > 0
    ensures 0 <= r < n
    ensures r == (k - 1) % n
  {
    NormalizeIndex(k - 1, n)
  }

  /** A target already in `[0, n)` is its own normalisation: `goTo(k)` for a valid slide goes to `k`. */
  lemma NormalizeFixesValid(k: int, n: int)
    requires 0 <= k < n
    ensures NormalizeIndex(k, n) == k
  {
    ModUnique(k, n, 0, k);
  }

  /** From slide `k`, `next()` goes to `k + 1`, or wraps from the last slide to `0`. */
  lemma NextStep(k: int, n: int)
    requires 0 <= k < n
    ensures NextIndex(k, n) == if k + 1 < n then k + 1 else 0
  {
    if k + 1 < n { ModUnique(k + 1, n, 0, k + 1); } else { ModUnique(k + 1, n, 1, 0); }
  }

  /** From slide `k`, `prev()` goes to `k - 1`, or wraps from the first slide to the last. */
  lemma PrevStep(k: int, n: int)
    requires 0 <= k < n
    ensures PrevIndex(k, n) == if k > 0 then k - 1 else n - 1
  {
    if k > 0 { ModUnique(k - 1, n, 0, k - 1); } else { ModUnique(k - 1, n, -1, n - 1); }
  }

  /** `prev()` undoes `next()` and `next()` undoes `prev()`. */
  lemma PrevUndoesNext(k: int, n: int)
    requires 0 <= k < n
    ensures PrevIndex(NextIndex(k, n), n) == k
    ensures NextIndex(PrevIndex(k, n), n) == k
  {
    NextStep(k, n);
    PrevStep(NextIndex(k, n), n);
    PrevStep(k, n);
    NextStep(PrevIndex(k, n), n);
  }

  /** The slide reached from `k` after `m` successive `next()` calls. */
  function Advance(k: int, m: nat, n: int): int
    requires n > 0
  {
    if m == 0 then k else NextIndex(Advance(k, m - 1, n), n)
  }

  /** The slide reached from `k` after `m` successive `prev()` calls. */
  function Retreat(k: int, m: nat, n: int): int
    requires n > 0
  {
    if m == 0 then k else PrevIndex(Retreat(k, m - 1, n), n)
  }

  /** `m` calls of `next()` move `m` slides forward, wrapping around. */
  lemma {:induction false} AdvanceIsShift(k: int, m: nat, n: int)
    requires 0 <= k < n
    ensures Advance(k, m, n) == (k + m) % n
  {
    if m > 0 {
      AdvanceIsShift(k, m - 1, n);
      NextOfRemainder(k + m - 1, n);
    }
  }

  lemma NextOfRemainder(x: int, n: int)
    requires n > 0
    ensures NextIndex(x % n, n) == (x + 1) % n
  {
    var a, q := x % n, x / n;
    assert x == n * q + a;
    NextStep(a, n);
    if a + 1 < n {
      ModUnique(x + 1, n, q, a + 1);
    } else {
      assert x + 1 == n * (q + 1) + 0;
      ModUnique(x + 1, n, q + 1, 0);
    }
  }

  /** `n` calls of `next()` on `n` slides return to the starting slide. */
  lemma FullCycleReturns(k: int, n: int)
    requires 0 <= k < n
    ensures Advance(k, n as nat, n) == k
  {
    AdvanceIsShift(k, n as nat, n);
    ModUnique(k + n, n, 1, k);
  }

  /** `m` calls of `prev()` undo `m` calls of `next()`. */
  lemma {:induction false} RetreatUndoesAdvance(k: int, m: nat, n: int)
    requires 0 <= k < n
    ensures Retreat(Advance(k, m, n), m, n) == k
  {
    if m > 0 {
      var a := Advance(k, m - 1, n);
      AdvanceInRange(k, m - 1, n);
      RetreatShift(a, m - 1, n);
      RetreatUndoesAdvance(k, m - 1, n);
    }
  }

  lemma {:induction false} AdvanceInRange(k: int, m: nat, n: int)
    requires 0 <= k < n
    ensures 0 <= Advance(k, m, n) < n
  {
    if m > 0 { AdvanceInRange(k, m - 1, n); }
  }

  /** Peeling the first `prev()` off a run of `m + 1`: `Retreat(next(a), m + 1) == Retreat(a, m)`. */
  lemma {:induction false} RetreatShift(a: int, m: nat, n: int)
    requires 0 <= a < n
    ensures Retreat(NextIndex(a, n), m + 1, n) == Retreat(a, m, n)
  {
    if m == 0 {
      PrevUndoesNext(a, n);
    } else {
      RetreatShift(a, m - 1, n);
    }
  }
}
