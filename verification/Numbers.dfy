/** Facts about integer division that the sizes and rates of the runtime rest on.

    Dafny knows little about products and quotients of variables, so the facts are stated one at a time
    and called where they are needed.

    `Quotient` is division of naturals with its defining property as postcondition. It is hidden in most
    proofs, which then use that property alone.

    Multiples of a page or of an alignment are numbers whose remainder is 0. */
module Numbers {
  /** Integer division of naturals; `DivMul` is its defining property. */
  function Quotient(x: nat, d: nat): (q: nat)
    requires d > 0
    ensures q * d <= x < q * d + d
  {
    DivMul(x, d);
    x / d
  }

  lemma {:induction false} DivMul(x: nat, a: nat)
    requires a > 0
    ensures x / a * a <= x < x / a * a + a
    ensures (x / a * a) % a == 0
  {
    assert x == x / a * a + x % a;
    MulMod(x / a, a);
  }

  lemma {:induction false} MulMod(q: int, a: nat)
    requires a > 0
    ensures (q * a) % a == 0
  {
    var r, d := (q * a) % a, (q * a) / a;
    assert q * a == d * a + r;
    assert r == (q - d) * a;
    assert q - d >= 1 ==> (q - d) * a >= a;
    assert q - d <= -1 ==> (q - d) * a <= -(a as int);
  }

  lemma {:induction false} ModAdd(x: int, y: int, a: nat)
    requires a > 0 && x % a == 0 && y % a == 0
    ensures (x + y) % a == 0 && (x - y) % a == 0
  {
    var p, q := x / a, y / a;
    assert x == p * a && y == q * a;
    assert x + y == (p + q) * a && x - y == (p - q) * a;
    MulMod(p + q, a);
    MulMod(p - q, a);
  }

  lemma {:induction false} ModTrans(x: nat, page: nat, a: nat)
    requires a > 0 && page > 0 && x % page == 0 && page % a == 0
    ensures x % a == 0
  {
    var q, r := x / page, page / a;
    assert x == q * page && page == r * a;
    assert x == (q * r) * a;
    MulMod(q * r, a);
  }

  lemma {:induction false} SmallDiv(x: nat, a: nat)
    requires x < a
    ensures x / a == 0
  {
  }

  lemma {:induction false} SmallModulo(x: nat, a: nat)
    requires x < a
    ensures x % a == x
  {
  }
}
