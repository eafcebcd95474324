/** Small facts about integer products and averages used by the height statistics. */
module Arith {
  lemma MulMonotone(a: int, b: int, c: int)
    requires 0 <= a && b <= c
    ensures a * b <= a * c
  {
    assert a * c - a * b == a * (c - b);
  }

  /**
   * The inductive step of a level-sum bound: a node at level `h` over children of
   * sizes `sl`, `sr` and heights `hl`, `hr` whose level sums are `al`, `ar`.
   */
  lemma LevelStep(h: int, sl: nat, sr: nat, hl: nat, hr: nat, hn: nat, al: int, ar: int)
    requires hn == 1 + (if hl >= hr then hl else hr)
    requires al <= sl * (h + hl) && ar <= sr * (h + hr)
    ensures h + al + ar <= (1 + sl + sr) * (h + hn - 1)
  {
    var m := h + hn - 1;
    assert sl * (h + hl) <= sl * m by { MulMonotone(sl, h + hl, m); }
    assert sr * (h + hr) <= sr * m by { MulMonotone(sr, h + hr, m); }
    assert (1 + sl + sr) * m == m + sl * m + sr * m;
  }

  /** An average of `count` values each at most `bound` is at most `bound`. */
  lemma DivBound(total: int, count: int, bound: int)
    requires count > 0 && 0 <= total <= count * bound
    ensures 0.0 <= total as real / count as real <= bound as real
  {
    assert (count * bound) as real == count as real * bound as real;
    assert total as real <= count as real * bound as real;
  }

  /** Concatenation regroups; stated once, away from any context. */
  lemma ConcatAssoc<T>(a: seq<T>, b: seq<T>, c: seq<T>)
    ensures a + b + c == a + (b + c)
  {
  }

  /** Moving one element across a concatenation boundary. */
  lemma ConcatShift<T>(v: seq<T>, x: T, a: seq<T>, b: seq<T>, c: seq<T>)
    ensures v + ([x] + a + b + c) == v + [x] + (a + b + c)
  {
  }
}
