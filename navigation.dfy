/**
 * The lightbox's wrap-around index arithmetic. The component never changes the
 * current index itself: it proposes the previous or next index to its owner
 * through `onNavigate`, so these are pure functions of the current index `i`
 * and the number of images `n`.
 */
module Navigation {

  /**
   * The index proposed by `goToPrevious`: one step back, wrapping from the
   * first image to the last. Dafny's `%` is Euclidean, so `(i - 1) % n` is the
   * cyclic predecessor even for `i == 0`; JavaScript's `%` is not, which is why
   * the component spells out the wrap as a branch.
   */
  function Prev(i: int, n: int): (r: int)
    requires 0 <= i < n
    ensures 0 <= r < n
    ensures r == (i - 1) % n
  {
    if i == 0 then n - 1 else i - 1
  }

  /** The index proposed by `goToNext`: one step forward, wrapping from the last image to the first. */
  function Next(i: int, n: int): (r: int)
    requires 0 <= i < n
    ensures 0 <= r < n
    ensures r == (i + 1) % n
  {
    if i == n - 1 then 0 else i + 1
  }

  /** Stepping back from the first image proposes the last; stepping on from the last proposes the first. */
  lemma WrapAround(n: int)
    requires n >= 1
    ensures Prev(0, n) == n - 1
    ensures Next(n - 1, n) == 0
  {
  }

  /** Away from the ends, the proposals are the neighbouring indices. */
  lemma Interior(i: int, n: int)
    requires 0 <= i < n
    ensures i != 0 ==> Prev(i, n) == i - 1
    ensures i != n - 1 ==> Next(i, n) == i + 1
  {
  }

  /** Going back and then forward (or forward and then back) returns to the same image. */
  lemma MutuallyInverse(i: int, n: int)
    requires 0 <= i < n
    ensures Next(Prev(i, n), n) == i
    ensures Prev(Next(i, n), n) == i
  {
  }

  /** The index reached from `i` after `k` presses of "next". */
  function NextTimes(i: int, n: int, k: nat): (r: int)
    requires 0 <= i < n
    ensures 0 <= r < n
    decreases k
  {
    if k == 0 then i else Next(NextTimes(i, n, k - 1), n)
  }

  /** The index reached from `i` after `k` presses of "previous". */
  function PrevTimes(i: int, n: int, k: nat): (r: int)
    requires 0 <= i < n
    ensures 0 <= r < n
    decreases k
  {
    if k == 0 then i else Prev(PrevTimes(i, n, k - 1), n)
  }

  /** A nonzero multiple of `n` is at least `n` away from zero. */
  lemma MultipleBounds(d: int, n: int)
    requires n > 0
    ensures d >= 1 ==> d * n >= n
    ensures d <= -1 ==> d * n <= -n
  {
  }

  /** Euclidean remainders are unique: any decomposition `q * n + r` with `0 <= r < n` gives `a % n`. */
  lemma ModUnique(a: int, n: int, q: int, r: int)
    requires n > 0 && 0 <= r < n && a == q * n + r
    ensures a % n == r
  {
    var q', r' := a / n, a % n;
    assert a == q' * n + r';
    assert (q - q') * n == r' - r;
    MultipleBounds(q - q', n);
  }

  /** Reducing modulo `n` before or after adding `d` gives the same residue. */
  lemma ModShift(a: int, d: int, n: int)
    requires n > 0
    ensures (a % n + d) % n == (a + d) % n
  {
    var q, s := a / n, a % n + d;
    assert a == q * n + a % n;
    var t := s / n;
    assert s == t * n + s % n;
    assert a + d == (q + t) * n + s % n by {
      assert (q + t) * n == q * n + t * n;
    }
    ModUnique(a + d, n, q + t, s % n);
  }

  /** `k` presses of "next" move `k` places forward around the cycle. */
  lemma {:induction false} NextTimesShifts(i: int, n: int, k: nat)
    requires 0 <= i < n
    ensures NextTimes(i, n, k) == (i + k) % n
  {
    if k > 0 {
      NextTimesShifts(i, n, k - 1);
      ModShift(i + k - 1, 1, n);
    }
  }

  /** `k` presses of "previous" move `k` places backward around the cycle. */
  lemma {:induction false} PrevTimesShifts(i: int, n: int, k: nat)
    requires 0 <= i < n
    ensures PrevTimes(i, n, k) == (i - k) % n
  {
    if k > 0 {
      PrevTimesShifts(i, n, k - 1);
      ModShift(i - k + 1, -1, n);
    }
  }

  /** `n` presses in either direction bring the viewer back to the image it started on. */
  lemma FullCycle(i: int, n: int)
    requires 0 <= i < n
    ensures NextTimes(i, n, n) == i
    ensures PrevTimes(i, n, n) == i
  {
    NextTimesShifts(i, n, n);
    PrevTimesShifts(i, n, n);
    ModUnique(i + n, n, 1, i);
    ModUnique(i - n, n, -1, i);
  }

  /** Every image can be reached from every other by fewer than `n` presses of "next". */
  lemma EveryImageReachable(i: int, j: int, n: int)
    requires 0 <= i < n && 0 <= j < n
    ensures var k := if i <= j then j - i else j - i + n;
            k < n && NextTimes(i, n, k) == j
  {
    var k := if i <= j then j - i else j - i + n;
    NextTimesShifts(i, n, k);
    ModUnique(i + k, n, if i <= j then 0 else 1, j);
  }
}
