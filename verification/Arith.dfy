/** Division by a variable, in steps the solver does at once. */
module Arith {
  lemma MulSub(a: int, b: int, d: int)
    ensures (a - b) * d == a * d - b * d
  {}

  lemma MulAtLeast(x: int, d: int)
    requires x >= 1 && d > 0
    ensures x * d >= d
  {}

  lemma Unique(d: int, q: int, r: int, q': int, r': int)
    requires d > 0 && q * d + r == q' * d + r' && 0 <= r < d && 0 <= r' < d
    ensures q == q' && r == r'
  {
    MulSub(q, q', d);
    MulSub(q', q, d);
    if q > q' { MulAtLeast(q - q', d); }
    if q < q' { MulAtLeast(q' - q, d); }
  }

  lemma DivMod(n: int, d: int)
    requires d > 0
    ensures n == (n / d) * d + n % d && 0 <= n % d < d
  {}

  lemma NextInBlock(k: nat, bs: nat)
    requires bs > 0
    ensures k % bs + 1 < bs ==> (k + 1) % bs == k % bs + 1 && (k + 1) / bs == k / bs
    ensures k % bs + 1 == bs ==> (k + 1) % bs == 0 && (k + 1) / bs == k / bs + 1
  {
    DivMod(k, bs);
    DivMod(k + 1, bs);
    if k % bs + 1 < bs { Unique(bs, (k + 1) / bs, (k + 1) % bs, k / bs, k % bs + 1); }
    else { MulSub(k / bs + 1, 1, bs); Unique(bs, (k + 1) / bs, (k + 1) % bs, k / bs + 1, 0); }
  }
}
