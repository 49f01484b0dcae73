/** Products of integers, one step at a time. */
module Products {

  lemma Split(a: int, b: int, w: int)
    ensures (a + b) * w == a * w + b * w
  {
  }

  lemma NonNeg(a: int, w: int)
    requires a >= 0 && w >= 0
    ensures a * w >= 0
  {
  }

  /** One more step of width w still fits below n steps. */
  lemma StepFits(j: int, n: int, w: int)
    requires j < n && w >= 0
    ensures j * w + w <= n * w
  {
    NonNeg(n - j - 1, w);
    Split(j + 1, n - j - 1, w);
    Split(j, 1, w);
  }

  /** A multiple of w within less than w of zero is zero. */
  lemma SmallMultiple(d: int, w: int)
    requires -w < d * w < w
    ensures d == 0
  {
    if d >= 1 {
      StepFits(0, d, w);
    } else if d <= -1 {
      StepFits(d, 0, w);
    }
  }

  /** Quotient and remainder are what adds up. */
  lemma QuotientIs(n: int, w: int, q: int, r: int)
    requires n == w * q + r && 0 <= r < w
    ensures n / w == q && n % w == r
  {
    var d := n / w - q;
    assert n == w * (n / w) + n % w;
    Split(n / w, -q, w);
    assert d * w == r - n % w;
    SmallMultiple(d, w);
  }
}
