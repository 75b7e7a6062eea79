// Integer division as C defines it, for unbounded integers, and the facts about products
// and quotients that the layout modules share.
module CArithmetic {

  // The quotient is truncated toward zero; the remainder takes the sign of the dividend.
  function CDiv(a: int, b: int): int
    requires b > 0
  {
    if a >= 0 then a / b else -((-a) / b)
  }

  function CMod(a: int, b: int): int
    requires b > 0
  {
    if a >= 0 then a % b else -((-a) % b)
  }

  // The two fit together, and the remainder is smaller than the divisor and on the side of
  // zero that the dividend is on.
  lemma CDivMod(a: int, b: int)
    requires b > 0
    ensures a == CDiv(a, b) * b + CMod(a, b) && -b < CMod(a, b) < b
    ensures (a >= 0 ==> CMod(a, b) >= 0) && (a <= 0 ==> CMod(a, b) <= 0)
  {
    QuotientBounds(if a >= 0 then a else -a, b);
    assert a < 0 ==> -((-a) / b) * b == -((-a) / b * b);
  }

  function Min(a: int, b: int): int {
    if a < b then a else b
  }

  function Sum(s: seq<int>): int {
    if s == [] then 0 else Sum(s[..|s|-1]) + s[|s|-1]
  }

  lemma {:induction false} SumConcat(s: seq<int>, t: seq<int>)
    ensures Sum(s + t) == Sum(s) + Sum(t)
  {
    if t == [] {
      assert s + t == s;
    } else {
      assert (s + t)[..|s + t|-1] == s + t[..|t|-1];
      SumConcat(s, t[..|t|-1]);
    }
  }

  lemma ProductSign(x: int, d: int)
    requires d > 0
    ensures x >= 1 ==> x * d >= d
    ensures x <= -1 ==> x * d <= -d
  {
  }

  lemma Distributes(a: int, b: int, c: int)
    ensures (a + b) * c == a * c + b * c
  {
  }

  lemma Commutes(a: int, b: int)
    ensures a * b == b * a
  {
  }

  lemma ProductOrder(a: int, b: int, c: int)
    requires c >= 0
    ensures a <= b ==> a * c <= b * c
    ensures a < b ==> a * c + c <= b * c
  {
    if a < b {
      var d: nat := b - a - 1;
      assert (a + 1 + d) * c == a * c + c + d * c;
    }
  }

  lemma QuotientBounds(a: int, d: int)
    requires d > 0
    ensures a / d * d <= a < a / d * d + d
    ensures a == a / d * d + a % d
  {
  }

  lemma QuotientUnique(a: int, q: int, r: int, d: int)
    requires d > 0 && 0 <= r < d && a == q * d + r
    ensures a / d == q && a % d == r
  {
    QuotientBounds(a, d);
    ProductSign(a / d - q, d);
    assert (a / d - q) * d == a / d * d - q * d;
  }

  // a / d is below k exactly when a is below k * d.
  lemma QuotientBelow(a: int, d: int, k: int)
    requires d > 0
    ensures a / d < k <==> a < k * d
  {
    QuotientBounds(a, d);
    ProductSign(a / d - k, d);
    ProductSign(a / d - k + 1, d);
    assert (a / d - k) * d == a / d * d - k * d;
    assert (a / d - k + 1) * d == a / d * d - k * d + d;
  }
}
