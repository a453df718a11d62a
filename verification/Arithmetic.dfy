/** Multiples of a positive number. */
module Arithmetic {

  /** A non-zero multiple is at least as large as the number itself. */
  lemma Magnitude(m: int, p: int)
    requires p >= 0
    ensures m > 0 ==> m * p >= p
    ensures m < 0 ==> m * p <= -p
  {
    if m > 0 {
      Product(m - 1, p);
    } else if m < 0 {
      Product(-m - 1, p);
    }
  }

  lemma Product(a: int, b: int)
    requires a >= 0 && b >= 0
    ensures a * b >= 0 && (a + 1) * b == a * b + b && (-a - 1) * b == -(a * b) - b
  {
  }
}
