/** Facts about products of counts that the layout proofs share: offsets of blocks laid out row by row. */
module Arith {

  /** Multiplying a smaller count by the same size gives a smaller product. */
  lemma MulMonotone(a: nat, b: nat, h: nat)
    requires a <= b
    ensures a * h <= b * h
  {
  }

  /** Row-major position (f, g) in an nF x nG grid lies inside the grid. */
  lemma GridIndex(f: nat, g: nat, nF: nat, nG: nat)
    requires f < nF && g < nG
    ensures 0 <= f * nG + g < nF * nG
  {
    MulMonotone(f + 1, nF, nG);
  }

  /** One more block of size c ends c bytes further on. */
  lemma MulSucc(q: nat, c: nat)
    ensures (q + 1) * c == q * c + c
  {
  }

  lemma MulSub(a: int, b: int, k: int)
    ensures (a - b) * k == a * k - b * k
  {
  }

  lemma MulAtLeast(d: int, k: int)
    requires 0 < d && 0 < k
    ensures d * k >= k
  {
  }

  /** Stepping back by the modulus leaves the remainder unchanged. */
  lemma ModShift(i: int, k: int)
    requires 0 < k <= i
    ensures i % k == (i - k) % k
  {
    var q, r := (i - k) / k, (i - k) % k;
    var q', r' := i / k, i % k;
    MulSub(q + 1, 1, k);
    assert i == (q + 1) * k + r;
    var d := q + 1 - q';
    MulSub(q + 1, q', k);
    assert d * k == r' - r;
    if d > 0 {
      MulAtLeast(d, k);
    } else if d < 0 {
      MulAtLeast(-d, k);
      MulSub(0, d, k);
    }
  }
}
