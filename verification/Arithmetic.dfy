/** Division and multiplication of unbounded integers. */
module Arithmetic {

  lemma {:induction false} MulMono(g: int, a: int, b: int)
    requires g > 0 && a <= b
    ensures a * g <= b * g
  {
    assert (b - a) * g >= 0;
    assert (b - a) * g == b * g - a * g;
  }

  lemma {:induction false} DivParts(t: int, g: int)
    requires g > 0
    ensures t == t / g * g + t % g && t / g * g <= t < (t / g + 1) * g
  {
    var q := t / g;
    assert t == g * q + t % g;
    assert g * q == q * g && (q + 1) * g == q * g + g;
  }

  /** The quotient lies between any bounds that the multiples of g respect. */
  lemma {:induction false} DivBetween(t: int, g: int, from: int, to: int)
    requires g > 0 && from * g <= t < to * g
    ensures from <= t / g < to
  {
    var q := t / g;
    DivParts(t, g);
    if q < from { MulMono(g, q + 1, from); }
    if q >= to { MulMono(g, to, q); }
  }

  lemma {:induction false} DivUnique(t: int, g: int, q: int, r: int)
    requires g > 0 && t == q * g + r && 0 <= r < g
    ensures t / g == q && t % g == r
  {
    assert (q + 1) * g == q * g + g;
    DivBetween(t, g, q, q + 1);
    DivParts(t, g);
  }

  lemma {:induction false} MulAssociates(a: int, b: int, c: int)
    ensures a * b * c == a * (b * c)
  {
  }

  lemma {:induction false} DivTwice(t: int, a: int, b: int)
    requires a > 0 && b > 0 && a * b > 0
    ensures t / a / b == t / (a * b)
    ensures t % (a * b) == t % a + a * (t / a % b)
  {
    var h := t / a;
    var q, m, l := h / b, h % b, t % a;
    DivParts(t, a);
    DivParts(h, b);
    assert h * a == (q * b + m) * a == q * b * a + m * a;
    MulAssociates(q, b, a);
    assert b * a == a * b && m * a == a * m;
    assert a * m + l < a * b by { MulMono(a, m + 1, b); assert (m + 1) * a == m * a + a; }
    assert a * m >= 0 by { MulMono(a, 0, m); }
    DivUnique(t, a * b, q, a * m + l);
  }
}
