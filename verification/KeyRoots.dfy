/** When the square root of key admission is found, and that it is the only one
    (scripts/evidence_host.py:79-86). */
module KeyRoots {
  import opened Bits
  import opened Congruence
  import opened EdwardsPoints
  import opened KeyAdmission

  // ----- Powers -----

  function Pow(b: int, e: nat): int {
    if e == 0 then 1 else b * Pow(b, e - 1)
  }

  /** The modular power is the power, reduced. */
  lemma {:induction false} ModPowIsPower(b: int, e: nat, m: int)
    requires m > 0
    ensures ModPow(b, e, m) == Pow(b, e) % m
  {
    if e > 0 {
      ModPowIsPower(b, e - 1, m);
      hide Pow, ModPow;
      CongMod(Pow(b, e - 1), m);
      CongScale(b, Pow(b, e - 1) % m, Pow(b, e - 1), m);
      ModPowStep(b, e, m);
    }
  }

  lemma ModPowStep(b: int, e: nat, m: int)
    requires m > 0 && e > 0
    ensures ModPow(b, e, m) == b * ModPow(b, e - 1, m) % m && Pow(b, e) == b * Pow(b, e - 1)
  {
  }

  lemma {:induction false} PowAdd(b: int, m: nat, n: nat)
    ensures Pow(b, m + n) == Pow(b, m) * Pow(b, n)
  {
    if m > 0 {
      PowAdd(b, m - 1, n);
      Product3(b, Pow(b, m - 1), Pow(b, n));
    }
  }

  lemma Product3(a: int, b: int, c: int)
    ensures (a * b) * c == a * (b * c)
  {
  }

  lemma {:induction false} CongPow(a: int, b: int, e: nat, p: int)
    requires p > 0 && Cong(a, b, p)
    ensures Cong(Pow(a, e), Pow(b, e), p)
  {
    if e > 0 {
      hide Cong;
      CongPow(a, b, e - 1, p);
      CongMul(a, b, Pow(a, e - 1), Pow(b, e - 1), p);
    } else {
      CongRefl(1, p);
    }
  }

  // ----- When a root is found -----

  function U(c: Curve, y: int): int
    requires c.p > 0
  {
    (y * y - 1) % c.p
  }

  function V(c: Curve, y: int): int
    requires c.p > 0
  {
    (c.d * y * y + 1) % c.p
  }

  function Candidate(c: Curve, y: int): int
    requires c.p >= 5
  {
    var u, v := U(c, y), V(c, y);
    u * ModPow(v, 3, c.p) * ModPow(u * ModPow(v, 7, c.p), (c.p - 5) / 8, c.p) % c.p
  }

  /** The quartic character that decides: (u*v^7)^((p-1)/4). */
  function Character(c: Curve, y: int): int
    requires c.p >= 5
  {
    Pow(U(c, y) * Pow(V(c, y), 7), (c.p - 1) / 4)
  }

  /** The candidate meets v*x^2 = u*(u*v^7)^((p-1)/4). */
  lemma CandidateMeets(c: Curve, y: int)
    requires c.p >= 5 && c.p % 8 == 5
    ensures var x := Candidate(c, y); Cong(V(c, y) * x * x, U(c, y) * Character(c, y), c.p)
  {
    var u, v, k, x := U(c, y), V(c, y), (c.p - 5) / 8, Candidate(c, y);
    CandidateIs(c, y);
    CharacterIs(c, y);
    hide *;
    Collapse(x, u, Pow(v, 3), Pow(v, 7), k, c.p);
    SquareMeets(x, u, v, u * Pow(v, 7), k, c.p);
  }

  lemma CandidateIs(c: Curve, y: int)
    requires c.p >= 5
    ensures var u, v, p := U(c, y), V(c, y), c.p;
            Candidate(c, y) == u * (Pow(v, 3) % p) * (Pow(u * (Pow(v, 7) % p), (p - 5) / 8) % p) % p
  {
    var u, v, p := U(c, y), V(c, y), c.p;
    ModPowIsPower(v, 3, p);
    ModPowIsPower(v, 7, p);
    ModPowIsPower(u * ModPow(v, 7, p), (p - 5) / 8, p);
    hide Pow, ModPow, U, V;
  }

  lemma CharacterIs(c: Curve, y: int)
    requires c.p >= 5 && c.p % 8 == 5
    ensures Character(c, y) == Pow(U(c, y) * Pow(V(c, y), 7), 2 * ((c.p - 5) / 8) + 1)
  {
    hide Pow, U, V;
    assert (c.p - 1) / 4 == 2 * ((c.p - 5) / 8) + 1;
  }

  /** Reducing between the powers changes nothing. */
  lemma Collapse(x: int, u: int, cube: int, seventh: int, k: nat, p: int)
    requires p > 0 && x == u * (cube % p) * (Pow(u * (seventh % p), k) % p) % p
    ensures Cong(x, u * cube * Pow(u * seventh, k), p)
  {
    hide Cong, Pow;
    var w, w' := Pow(u * (seventh % p), k), Pow(u * seventh, k);
    CongMod(seventh, p);
    CongScale(u, seventh % p, seventh, p);
    CongPow(u * (seventh % p), u * seventh, k, p);
    CongMod(w, p);
    CongTrans(w % p, w, w', p);
    CongMod(cube, p);
    CongScale(u, cube % p, cube, p);
    CongMul(u * (cube % p), u * cube, w % p, w', p);
    CongMod(u * (cube % p) * (w % p), p);
    CongTrans(x, u * (cube % p) * (w % p), u * cube * w', p);
  }

  lemma SquareMeets(x: int, u: int, v: int, base: int, k: nat, p: int)
    requires p > 0 && base == u * Pow(v, 7) && Cong(x, u * Pow(v, 3) * Pow(base, k), p)
    ensures Cong(v * x * x, u * Pow(base, 2 * k + 1), p)
  {
    var cube, w := Pow(v, 3), Pow(base, k);
    PowAdd(base, k, k);
    PowAdd(base, 1, 2 * k);
    SevenIsTwoCubes(v);
    hide Cong;
    CongSquare(x, u * cube * w, p);
    CongScale(v, x * x, (u * cube * w) * (u * cube * w), p);
    Gather(u, v, cube, w);
    assert Pow(base, 1) == base && v * x * x == v * (x * x);
  }

  lemma SevenIsTwoCubes(v: int)
    ensures Pow(v, 7) == v * (Pow(v, 3) * Pow(v, 3))
  {
    PowAdd(v, 3, 3);
    assert Pow(v, 7) == v * Pow(v, 6);
  }

  lemma Gather(u: int, v: int, cube: int, w: int)
    ensures v * ((u * cube * w) * (u * cube * w)) == u * ((u * (v * (cube * cube))) * (w * w))
  {
  }

  /** A key is off the curve exactly when u*(u*v^7)^((p-1)/4) is neither u nor -u. */
  lemma RootFoundExactly(c: Curve, y: int)
    requires WellFormed(c) && c.p % 8 == 5
    ensures RootFor(c, y).Root? <==>
              var w := U(c, y) * Character(c, y); Cong(w, U(c, y), c.p) || Cong(w, -U(c, y), c.p)
  {
    var u, x, w := U(c, y), Candidate(c, y), U(c, y) * Character(c, y);
    CandidateMeets(c, y);
    RootTest(c, y);
    hide *;
    SameClass(V(c, y) * x * x, w, u, c.p);
    SameClass(V(c, y) * x * x, w, -u, c.p);
  }

  /** The source's two comparisons, as congruences. */
  lemma RootTest(c: Curve, y: int)
    requires WellFormed(c)
    ensures var u, x := U(c, y), Candidate(c, y);
            RootFor(c, y).Root? <==> Cong(V(c, y) * x * x, u, c.p) || Cong(V(c, y) * x * x, -u, c.p)
  {
    hide ModPow;
    Reduced(y * y - 1, c.p);
  }

  lemma Reduced(a: int, p: int)
    requires p > 0
    ensures a % p % p == a % p
  {
    CongMod(a, p);
  }

  lemma SameClass(t: int, w: int, u: int, p: int)
    requires p > 0 && Cong(t, w, p)
    ensures Cong(t, u, p) <==> Cong(w, u, p)
  {
  }

  // ----- That the root is the only one -----

  /** Where no two numbers but multiples of `p` have a multiple of `p` as their product. */
  ghost predicate NoZeroDivisors(p: int)
    requires p > 0
  {
    forall a: int, b: int :: Cong(a * b, 0, p) ==> Cong(a, 0, p) || Cong(b, 0, p)
  }

  /** A key decodes to one x at most. */
  lemma DecodesOnce(c: Curve, key: seq<Byte>, x: int, x': int)
    requires WellFormed(c) && NoZeroDivisors(c.p) && !Cong(c.d, -1, c.p)
    requires DecodesTo(c, key, x) && DecodesTo(c, key, x')
    ensures x == x'
  {
    hide YOf, SignOf, NoZeroDivisors, Cong;
    SquaresAgree(x, x', YOf(key), c.d, c.p);
    RootsApart(x, x', c.p);
  }

  lemma RootsApart(x: int, x': int, p: int)
    requires p > 0 && p % 2 == 1 && NoZeroDivisors(p) && 0 <= x < p && 0 <= x' < p
    requires (x % 2 == 1) == (x' % 2 == 1) && Cong(x * x - x' * x', 0, p)
    ensures x == x'
  {
    hide *;
    DifferenceFactors(x, x');
    Factor(x - x', x + x', p);
    if Cong(x - x', 0, p) {
      Near(x - x', p);
    } else {
      Twice(x + x', p);
      SumIsEven(x, x');
    }
  }

  lemma DifferenceFactors(x: int, x': int)
    ensures (x - x') * (x + x') == x * x - x' * x'
  {
  }

  lemma Factor(a: int, b: int, p: int)
    requires p > 0 && NoZeroDivisors(p) && Cong(a * b, 0, p)
    ensures Cong(a, 0, p) || Cong(b, 0, p)
  {
    hide Cong;
  }

  lemma SumIsEven(x: int, x': int)
    requires (x % 2 == 1) == (x' % 2 == 1)
    ensures (x + x') % 2 == 0
  {
  }

  lemma Near(a: int, p: int)
    requires p > 0 && -p < a < p && Cong(a, 0, p)
    ensures a == 0
  {
    var k := CongWitness(a, 0, p);
    Between(k, a, p);
  }

  lemma Twice(a: int, p: int)
    requires p > 0 && 0 <= a < 2 * p && Cong(a, 0, p)
    ensures a == 0 || a == p
  {
    if a >= p {
      CongFrom(a - p, a, -1, p);
      CongTrans(a - p, a, 0, p);
      Near(a - p, p);
    } else {
      Near(a, p);
    }
  }

  lemma SquaresAgree(x: int, x': int, y: int, d: int, p: int)
    requires p > 0 && NoZeroDivisors(p) && !Cong(d, -1, p)
    requires Cong(y * y - x * x, 1 + d * ((x * x) * (y * y)), p)
    requires Cong(y * y - x' * x', 1 + d * ((x' * x') * (y * y)), p)
    ensures Cong(x * x - x' * x', 0, p)
  {
    var a, b, s := x * x, x' * x', y * y;
    var v := 1 + d * s;
    Isolate(a, s, d, p);
    Isolate(b, s, d, p);
    ProductVanishes(a, b, v, s - 1, p);
    assert Cong((a - b) * v, 0, p);
    if !Cong(a - b, 0, p) {
      assert Cong(v, 0, p);
      hide NoZeroDivisors;
      OnlyWhenMinusOne(a, s, d, p);
    }
  }

  /** From the curve equation, s - 1 = a*(1 + d*s). */
  lemma Isolate(a: int, s: int, d: int, p: int)
    requires p > 0 && Cong(s - a, 1 + d * (a * s), p)
    ensures Cong(s - 1, a * (1 + d * s), p)
  {
    hide Cong;
    CongRefl(a - 1, p);
    CongAdd(s - a, 1 + d * (a * s), a - 1, a - 1, p);
    assert s - a + (a - 1) == s - 1;
    assert 1 + d * (a * s) + (a - 1) == a * (1 + d * s) by {
      Spread(a, s, d);
    }
  }

  lemma Spread(a: int, s: int, d: int)
    ensures a * (1 + d * s) == a + d * (a * s)
  {
  }

  lemma ProductVanishes(a: int, b: int, v: int, w: int, p: int)
    requires p > 0 && Cong(w, a * v, p) && Cong(w, b * v, p)
    ensures Cong((a - b) * v, 0, p)
  {
    hide Cong;
    CongSub(w, a * v, w, b * v, p);
    assert w - w == 0 && a * v - b * v == (a - b) * v;
    CongSym(0, (a - b) * v, p);
  }

  lemma OnlyWhenMinusOne(a: int, s: int, d: int, p: int)
    requires p > 0 && Cong(1 + d * s, 0, p) && Cong(s - 1, a * (1 + d * s), p)
    ensures Cong(d, -1, p)
  {
    hide Cong;
    CongScale(a, 1 + d * s, 0, p);
    CongTrans(s - 1, a * (1 + d * s), a * 0, p);
    CongScale(d, s - 1, 0, p);
    CongSub(1 + d * s, 0, d * (s - 1), d * 0, p);
    assert 1 + d * s - d * (s - 1) == 1 + d;
    CongRefl(-1, p);
    CongAdd(1 + d, 0, -1, -1, p);
  }

  /** The admitted keys: those that decode, with the source's root, and whose decoded point,
      whichever way it is found, is of prime order. */
  lemma AdmittedExactly(c: Curve, key: seq<Byte>)
    requires WellFormed(c) && NoZeroDivisors(c.p) && !Cong(c.d, -1, c.p)
    ensures RfcVerdict(c, key) == Admitted <==>
              && Decodable(c, key)
              && exists x :: DecodesTo(c, key, x) && PrimeOrderPoint(c, Extended(c, x, YOf(key)))
  {
    VerdictExactly(c, key);
    hide RfcVerdict, RootFor, PrimeOrderPoint, DecodesTo, NoZeroDivisors;
    if Decodable(c, key) {
      var mine := DecodedX(c, key);
      forall x | DecodesTo(c, key, x) ensures x == mine {
        DecodesOnce(c, key, x, mine);
      }
    }
  }
}
