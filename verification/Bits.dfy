/** Powers of two and the mask that selects a hash bucket. */
module Bits {

  function Pow2(k: nat): nat {
    if k == 0 then 1 else 2 * Pow2(k - 1)
  }

  /** Bitwise and on unsigned numbers. */
  function BitAnd(a: nat, b: nat): nat {
    if a == 0 || b == 0 then 0
    else 2 * BitAnd(a / 2, b / 2) + (a % 2) * (b % 2)
  }

  lemma {:induction false} Pow2Positive(k: nat)
    ensures Pow2(k) >= 1
  {
    if k > 0 {
      Pow2Positive(k - 1);
    }
  }

  predicate Masks(h: nat, size: nat) {
    size >= 1 && BitAnd(h, size - 1) == h % size
  }

  /** Masking with size - 1 takes the remainder when the size is a power of two. */
  lemma {:induction false} MaskIsMod(h: nat, k: nat)
    ensures Masks(h, Pow2(k))
  {
    hide Masks;
    if k == 0 {
      MaskOne(h);
    } else {
      MaskIsMod(h / 2, k - 1);
      MaskTwice(h, Pow2(k - 1));
    }
  }

  lemma MaskOne(h: nat)
    ensures Masks(h, 1)
  {
    ModIs(h, 1, h, 0);
  }

  lemma MaskTwice(h: nat, p: nat)
    requires Masks(h / 2, p)
    ensures Masks(h, 2 * p)
  {
    hide BitAnd;
    MaskStep(h, p);
    HalfMod(h, p);
  }

  lemma MaskStep(h: nat, p: nat)
    requires p >= 1
    ensures BitAnd(h, 2 * p - 1) == 2 * BitAnd(h / 2, p - 1) + h % 2
  {
    assert (2 * p - 1) / 2 == p - 1 && (2 * p - 1) % 2 == 1;
  }

  lemma HalfMod(h: nat, p: nat)
    requires p >= 1
    ensures h % (2 * p) == 2 * ((h / 2) % p) + h % 2
  {
    var q, r := (h / 2) / p, (h / 2) % p;
    assert h / 2 == q * p + r;
    calc {
      h;
      2 * (h / 2) + h % 2;
      2 * (q * p) + 2 * r + h % 2;
      q * (2 * p) + (2 * r + h % 2);
    }
    ModIs(h, 2 * p, q, 2 * r + h % 2);
  }

  lemma MulMonotone(a: nat, b: nat, d: nat)
    requires a <= b
    ensures a * d <= b * d
  {
  }

  lemma ModIs(n: nat, d: nat, q: nat, r: nat)
    requires d >= 1 && n == q * d + r && r < d
    ensures n % d == r
  {
    var q' := n / d;
    assert n == q' * d + n % d;
    assert (q + 1) * d == q * d + d && (q' + 1) * d == q' * d + d;
    if q' > q {
      MulMonotone(q + 1, q', d);
    } else if q' < q {
      MulMonotone(q' + 1, q, d);
    }
  }
}
