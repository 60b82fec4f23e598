/** Integer facts shared by the two counting loops of the frame loop: the update
    catch-up and the cell-timer countdown both add a fixed step until a value
    passes a bound, and both are specified by the closed form StepsToPass. */
module Arith {

  /** Multiplication by a non-negative factor is monotone. */
  lemma MulMono(x: int, y: int, p: int)
    requires x <= y && 0 <= p
    ensures x * p <= y * p
  {
  }

  /** Multiplication distributes over subtraction. */
  lemma MulSub(x: int, y: int, p: int)
    ensures x * p - y * p == (x - y) * p
  {
  }

  /** Euclidean division is determined by the bracket q*p <= a < (q+1)*p. */
  lemma DivUnique(a: int, p: int, q: int)
    requires 0 < p
    requires q * p <= a < (q + 1) * p
    ensures a / p == q
  {
    var r := a / p;
    assert r * p <= a < (r + 1) * p;
    if r < q {
      MulMono(r + 1, q, p);
      assert false;
    } else if r > q {
      MulMono(q + 1, r, p);
      assert false;
    }
  }

  /** How many steps of size p are needed before a value that starts `gap` below
      the bound lies strictly above it: the least k with gap < k * p. */
  function StepsToPass(gap: int, p: int): (k: nat)
    requires 0 < p
    ensures gap < k * p
    ensures k == 0 <==> gap < 0
    ensures 0 < k ==> (k - 1) * p <= gap
  {
    if gap < 0 then 0 else gap / p + 1
  }

  /** One step taken: a non-negative gap needs one step more than the gap that
      remains after it. */
  lemma StepsToPassStep(gap: int, p: int)
    requires 0 < p && 0 <= gap
    ensures StepsToPass(gap, p) == 1 + StepsToPass(gap - p, p)
  {
    if gap - p < 0 {
      DivUnique(gap, p, 0);
    } else {
      var q := (gap - p) / p;
      assert q * p <= gap - p < (q + 1) * p;
      DivUnique(gap, p, q + 1);
    }
  }
}
