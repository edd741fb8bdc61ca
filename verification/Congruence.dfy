/** Congruence of integers modulo a positive number. */
module Congruence {

  /** `a` and `b` leave the same remainder. */
  predicate Cong(a: int, b: int, p: int)
    requires p > 0
  {
    a % p == b % p
  }

  lemma CongFrom(a: int, b: int, k: int, p: int)
    requires p > 0 && a == b + k * p
    ensures Cong(a, b, p)
  {
    var q, r := b / p, b % p;
    assert b == q * p + r;
    assert a == (q + k) * p + r by { Distribute(q, k, p); }
    DivModUnique(a, q + k, r, p);
  }

  lemma Distribute(a: int, b: int, c: int)
    ensures (a + b) * c == a * c + b * c
  {
  }

  lemma DivModUnique(a: int, q: int, r: int, p: int)
    requires 0 <= r < p && a == q * p + r
    ensures a / p == q && a % p == r
  {
    var q', r' := a / p, a % p;
    assert a == q' * p + r' && 0 <= r' < p;
    Distribute(q, -q', p);
    assert (q - q') * p == r' - r;
    Between(q - q', r' - r, p);
  }

  /** Zero is the only multiple of `p` nearer to zero than `p`. */
  lemma Between(k: int, m: int, p: int)
    requires -p < m < p && k * p == m
    ensures k == 0
  {
  }

  lemma CongWitness(a: int, b: int, p: int) returns (k: int)
    requires p > 0 && Cong(a, b, p)
    ensures a == b + k * p
  {
    k := a / p - b / p;
    Distribute(a / p, -(b / p), p);
  }

  lemma CongMod(a: int, p: int)
    requires p > 0
    ensures Cong(a % p, a, p)
  {
  }

  lemma CongTrans(a: int, b: int, c: int, p: int)
    requires p > 0 && Cong(a, b, p) && Cong(b, c, p)
    ensures Cong(a, c, p)
  {
  }

  lemma CongRefl(a: int, p: int)
    requires p > 0
    ensures Cong(a, a, p)
  {
  }

  lemma CongSym(a: int, b: int, p: int)
    requires p > 0 && Cong(a, b, p)
    ensures Cong(b, a, p)
  {
  }

  lemma CongAdd(a: int, b: int, c: int, d: int, p: int)
    requires p > 0 && Cong(a, b, p) && Cong(c, d, p)
    ensures Cong(a + c, b + d, p)
  {
    var k := CongWitness(a, b, p);
    var l := CongWitness(c, d, p);
    Distribute(k, l, p);
    CongFrom(a + c, b + d, k + l, p);
  }

  lemma CongNeg(a: int, b: int, p: int)
    requires p > 0 && Cong(a, b, p)
    ensures Cong(-a, -b, p)
  {
    var k := CongWitness(a, b, p);
    CongFrom(-a, -b, -k, p);
  }

  lemma CongSub(a: int, b: int, c: int, d: int, p: int)
    requires p > 0 && Cong(a, b, p) && Cong(c, d, p)
    ensures Cong(a - c, b - d, p)
  {
    CongNeg(c, d, p);
    CongAdd(a, b, -c, -d, p);
  }

  lemma CongMul(a: int, b: int, c: int, d: int, p: int)
    requires p > 0 && Cong(a, b, p) && Cong(c, d, p)
    ensures Cong(a * c, b * d, p)
  {
    var k := CongWitness(a, b, p);
    var l := CongWitness(c, d, p);
    ProductOfSums(b, k, d, l, p);
    CongFrom(a * c, b * d, b * l + k * d + k * l * p, p);
  }

  lemma ProductOfSums(b: int, k: int, d: int, l: int, p: int)
    ensures (b + k * p) * (d + l * p) == b * d + (b * l + k * d + k * l * p) * p
  {
  }

  lemma CongSquare(a: int, b: int, p: int)
    requires p > 0 && Cong(a, b, p)
    ensures Cong(a * a, b * b, p)
  {
    CongMul(a, b, a, b, p);
  }

  /** A factor known only up to congruence on one side. */
  lemma CongScale(k: int, a: int, b: int, p: int)
    requires p > 0 && Cong(a, b, p)
    ensures Cong(k * a, k * b, p)
  {
    CongMul(k, k, a, b, p);
  }

  /** Reducing the operands first changes nothing up to congruence. */
  lemma CongReduced(a: int, b: int, p: int)
    requires p > 0
    ensures Cong(a % p + b % p, a + b, p)
    ensures Cong(a % p - b % p, a - b, p)
  {
    CongAdd(a % p, a, b % p, b, p);
    CongSub(a % p, a, b % p, b, p);
  }
}
