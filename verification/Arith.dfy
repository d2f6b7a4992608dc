/** Small integer facts the other modules share. */
module Arith {
  function Min(a: int, b: int): int { if a < b then a else b }

  function Max(a: int, b: int): int { if a < b then b else a }

  function Abs(a: int): int { if a < 0 then -a else a }

  /** p * w, counted up so that reasoning about it stays linear. */
  function Multiple(w: nat, p: nat): nat {
    if p == 0 then 0 else Multiple(w, p - 1) + w
  }

  lemma MultipleIsProduct(w: nat, p: nat)
    ensures Multiple(w, p) == p * w
  {}

  lemma MultiplesApart(w: nat, p: nat, q: nat)
    requires p < q
    ensures Multiple(w, p) + w <= Multiple(w, q)
  {}

  lemma SquareMonotone(a: int, b: int)
    requires 0 <= a <= b
    ensures a * a <= b * b
  {}

  /** Products of distinct integers with c are at least c apart. */
  lemma Apart(a: int, b: int, c: int)
    requires c >= 0
    ensures a < b ==> a * c + c <= b * c
  {
    if a < b {
      var d := b - a - 1;
      assert b * c == a * c + c + d * c;
      assert 0 <= d * c;
    }
  }

  lemma Scaled(c: int, k: int, d: int)
    requires 0 <= k <= d
    ensures c >= 0 ==> 0 <= c * k <= c * d
    ensures c <= 0 ==> c * d <= c * k <= 0
  {}

  /** n / d for naturals, counted down so that reasoning about it stays linear. */
  function Div(n: nat, d: nat): nat
    requires d > 0
  {
    if n < d then 0 else 1 + Div(n - d, d)
  }

  lemma {:induction false} DivBounds(n: nat, d: nat)
    requires d > 0
    ensures Div(n, d) * d <= n < Div(n, d) * d + d
    decreases n
  {
    if n >= d {
      DivBounds(n - d, d);
      var q := Div(n - d, d);
      assert (1 + q) * d == d + q * d;
    }
  }

  lemma DivIsDivision(n: nat, d: nat)
    requires d > 0
    ensures Div(n, d) == n / d
  {
    DivBounds(n, d);
    DivisionUnique(n, d, Div(n, d));
  }

  lemma DivisionUnique(n: nat, d: nat, q: nat)
    requires d > 0 && q * d <= n < q * d + d
    ensures n / d == q
  {
    var p := n / d;
    assert p * d <= n < p * d + d;
    Apart(p, q, d);
    Apart(q, p, d);
  }

  /** C division, which truncates toward zero. */
  function Quotient(n: int, d: int): int
    requires d != 0
  {
    if (n >= 0) == (d > 0) then Div(Abs(n), Abs(d)) else 0 - Div(Abs(n), Abs(d))
  }

  lemma QuotientBounds(n: int, d: int, m: int)
    requires d > 0
    ensures m * d >= n ==> m >= Quotient(n, d)
    ensures m * d <= n ==> m <= Quotient(n, d)
    ensures -d < Quotient(n, d) * d - n < d
  {
    var q := Quotient(n, d);
    var u := Div(Abs(n), d);
    DivBounds(Abs(n), d);
    assert (-u) * d == -(u * d);
    Apart(m, q, d);
    Apart(q, m, d);
  }

  /** The quotient is exact or cut toward zero. */
  lemma TowardZero(n: int, d: nat)
    requires d > 0
    ensures var q := Quotient(n, d); if n >= 0 then q * d <= n < q * d + d else q * d - d < n <= q * d
  {
    var u := Div(Abs(n), d);
    DivBounds(Abs(n), d);
    assert (-u) * d == -(u * d);
  }
}
