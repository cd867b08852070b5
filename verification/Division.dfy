/** Division with remainder by a variable divisor. */
module Division {

  lemma QuotientUnique(x: int, b: int, q: int, r: int)
    requires b > 0 && 0 <= r < b && x == q * b + r
    ensures x % b == r
  {
    var q', r' := x / b, x % b;
    assert (q' - q) * b == r - r';
    NoSmallMultiple(q' - q, b, r - r');
  }

  lemma NoSmallMultiple(d: int, b: int, e: int)
    requires b > 0 && -b < e < b && d * b == e
    ensures e == 0
  {
  }

  lemma ModShift(v: int, b: int, k: int)
    requires b > 0
    ensures (v + k * b) % b == v % b
  {
    var q, r := v / b, v % b;
    assert v + k * b == (q + k) * b + r;
    QuotientUnique(v + k * b, b, q + k, r);
  }
}
