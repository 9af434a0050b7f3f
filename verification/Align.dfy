/** Rounding to a multiple of a block, as `ALIGN_UP` does for power-of-two blocks.  The definitions
    count blocks, so that reasoning about them stays linear for a block size that varies. */
module Align {

  predicate Multiple(x: nat, b: nat)
    requires b > 0
  {
    x == 0 || (x >= b && Multiple(x - b, b))
  }

  function AlignUp(x: nat, b: nat): (r: nat)
    requires b > 0
  {
    if x == 0 then 0 else if x <= b then b else b + AlignUp(x - b, b)
  }

  lemma {:induction false} MultipleAdd(x: nat, y: nat, b: nat)
    requires b > 0 && Multiple(x, b) && Multiple(y, b)
    ensures Multiple(x + y, b)
  {
    if x > 0 {
      MultipleAdd(x - b, y, b);
    }
  }

  /** Distinct multiples are a block apart. */
  lemma {:induction false} MultipleGap(x: nat, y: nat, b: nat)
    requires b > 0 && Multiple(x, b) && Multiple(y, b)
    ensures x < y ==> x + b <= y
  {
    if x > 0 && x < y {
      MultipleGap(x - b, y - b, b);
    }
  }

  lemma {:induction false} AlignUpBounds(x: nat, b: nat)
    requires b > 0
    ensures Multiple(AlignUp(x, b), b) && x <= AlignUp(x, b) < x + b
  {
    if x > b {
      AlignUpBounds(x - b, b);
    }
  }

  /** `AlignUp` is the least multiple of `b` that is at least `x`. */
  lemma AlignUpLeast(x: nat, b: nat, m: nat)
    requires b > 0 && Multiple(m, b)
    ensures x <= m <==> AlignUp(x, b) <= m
  {
    AlignUpBounds(x, b);
    MultipleGap(m, AlignUp(x, b), b);
  }

  /** Rounding commutes with adding a multiple of the block. */
  lemma {:induction false} AlignUpShift(p: nat, x: nat, b: nat)
    requires b > 0 && Multiple(p, b) && x > 0
    ensures AlignUp(p + x, b) == p + AlignUp(x, b)
  {
    if p > 0 {
      AlignUpShift(p - b, x, b);
    }
  }

  lemma DivUnique(n: nat, b: nat, q: nat, r: nat)
    requires b > 0 && r < b && n == q * b + r
    ensures n / b == q && n % b == r
  {
    var q' := n / b;
    assert n == q' * b + n % b;
    MulMonotone(q' + 1, q, b);
    MulMonotone(q + 1, q', b);
    assert (q' + 1) * b == q' * b + b;
    assert (q + 1) * b == q * b + b;
  }

  lemma MulMonotone(a: nat, c: nat, b: nat)
    ensures a <= c ==> a * b <= c * b
  {
  }

  lemma {:induction false} MultipleHasQuotient(x: nat, b: nat) returns (q: nat)
    requires b > 0 && Multiple(x, b)
    ensures x == q * b
  {
    q := 0;
    if x > 0 {
      q := MultipleHasQuotient(x - b, b);
      q := q + 1;
    }
  }

  lemma {:induction false} QuotientIsMultiple(q: nat, b: nat)
    requires b > 0
    ensures Multiple(q * b, b)
  {
    if q > 0 {
      QuotientIsMultiple(q - 1, b);
      assert q * b == (q - 1) * b + b;
      assert 0 <= (q - 1) * b;
    }
  }

  /** The two definitions in terms of division. */
  lemma MultipleIsMod(x: nat, b: nat)
    requires b > 0
    ensures Multiple(x, b) <==> x % b == 0
  {
    hide AlignUp;
    if Multiple(x, b) {
      var q := MultipleHasQuotient(x, b);
      DivUnique(x, b, q, 0);
    } else {
      NoQuotient(x, b, x / b);
    }
  }

  lemma NoQuotient(x: nat, b: nat, q: nat)
    requires b > 0 && !Multiple(x, b)
    ensures x != q * b
  {
    QuotientIsMultiple(q, b);
  }

  lemma AlignUpIsRound(x: nat, b: nat)
    requires b > 0
    ensures AlignUp(x, b) == (x + b - 1) / b * b
  {
    AlignUpBounds(x, b);
    var q := MultipleHasQuotient(AlignUp(x, b), b);
    DivUnique(x + b - 1, b, q, x + b - 1 - AlignUp(x, b));
  }
}
