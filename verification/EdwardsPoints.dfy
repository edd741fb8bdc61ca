/** Extended twisted-Edwards arithmetic as scripts/evidence_host.py does it,
    over any modulus and curve constant.

    A point is (X, Y, Z, T); it stands for (X/Z, Y/Z) with T = X*Y/Z.  The curve
    is -x^2 + y^2 = 1 + d*x^2*y^2 (RFC 8032, section 5.1).
  */
module EdwardsPoints {
  import opened Congruence

  datatype Point = Point(x: int, y: int, z: int, t: int)

  /** The modulus, the curve constant, a square root of -1 and the prime order. */
  datatype Curve = Curve(p: int, d: int, sqrtM1: int, order: nat)

  predicate WellFormed(c: Curve) {
    c.p >= 5 && c.p % 2 == 1 && Cong(c.sqrtM1 * c.sqrtM1, -1, c.p)
  }

  const IDENTITY: Point := Point(0, 1, 1, 0)

  predicate IsIdentity(c: Curve, pt: Point)
    requires c.p > 0
  {
    pt.x % c.p == 0 && (pt.y - pt.z) % c.p == 0
  }

  function PointAdd(c: Curve, p: Point, q: Point): Point
    requires c.p > 0
  {
    var a, b := (p.y - p.x) * (q.y - q.x) % c.p, (p.y + p.x) * (q.y + q.x) % c.p;
    var cc, dd := 2 * p.t * q.t * c.d % c.p, 2 * p.z * q.z % c.p;
    var e, f, g, h := b - a, dd - cc, dd + cc, b + a;
    Point(e * f % c.p, g * h % c.p, f * g % c.p, e * h % c.p)
  }

  /** Double-and-add from an accumulator: one loop iteration per unfolding. */
  function DoubleAndAdd(c: Curve, k: nat, result: Point, pt: Point): Point
    requires c.p > 0
    decreases k
  {
    if k == 0 then result
    else DoubleAndAdd(c, k / 2, if k % 2 == 1 then PointAdd(c, result, pt) else result, PointAdd(c, pt, pt))
  }

  function Multiple(c: Curve, k: nat, pt: Point): Point
    requires c.p > 0
  {
    DoubleAndAdd(c, k, IDENTITY, pt)
  }

  // ----- Addition stays on the curve -----

  /** Both equations of an extended point. */
  predicate OnCurve(c: Curve, pt: Point)
    requires c.p > 0
  {
    && Cong(pt.x * pt.y, pt.z * pt.t, c.p)
    && Cong(pt.y * pt.y - pt.x * pt.x, pt.z * pt.z + c.d * (pt.t * pt.t), c.p)
  }

  /** What PointAdd computes before reduction, halved: (e, f, g, h). */
  datatype Halves = Halves(e: int, f: int, g: int, h: int)

  function SumHalves(c: Curve, p: Point, q: Point): Halves {
    var u, w := p.z * q.z, c.d * (p.t * q.t);
    Halves(p.x * q.y + q.x * p.y, u - w, u + w, p.y * q.y + p.x * q.x)
  }

  /** The four sums before reduction, as twice the halves. */
  lemma DoubledHalves(c: Curve, p: Point, q: Point)
    ensures var s := SumHalves(c, p, q);
            && (p.y + p.x) * (q.y + q.x) - (p.y - p.x) * (q.y - q.x) == 2 * s.e
            && (p.y + p.x) * (q.y + q.x) + (p.y - p.x) * (q.y - q.x) == 2 * s.h
            && 2 * p.z * q.z - 2 * p.t * q.t * c.d == 2 * s.f
            && 2 * p.z * q.z + 2 * p.t * q.t * c.d == 2 * s.g
  {
  }

  lemma PointAddHalves(c: Curve, p: Point, q: Point)
    requires c.p > 0
    ensures var s, r := SumHalves(c, p, q), PointAdd(c, p, q);
            && Cong(r.x, 4 * (s.e * s.f), c.p)
            && Cong(r.y, 4 * (s.g * s.h), c.p)
            && Cong(r.z, 4 * (s.f * s.g), c.p)
            && Cong(r.t, 4 * (s.e * s.h), c.p)
  {
    hide Cong, SumHalves;
    DoubledHalves(c, p, q);
    var s := SumHalves(c, p, q);
    var a, b := (p.y - p.x) * (q.y - q.x), (p.y + p.x) * (q.y + q.x);
    var cc, dd := 2 * p.t * q.t * c.d, 2 * p.z * q.z;
    FourSums(a, b, cc, dd, s, c.p);
    FourProducts(b % c.p - a % c.p, dd % c.p - cc % c.p, dd % c.p + cc % c.p, b % c.p + a % c.p, s, c.p);
  }

  lemma FourSums(a: int, b: int, cc: int, dd: int, s: Halves, p: int)
    requires p > 0
    requires b - a == 2 * s.e && b + a == 2 * s.h && dd - cc == 2 * s.f && dd + cc == 2 * s.g
    ensures Cong(b % p - a % p, 2 * s.e, p) && Cong(b % p + a % p, 2 * s.h, p)
    ensures Cong(dd % p - cc % p, 2 * s.f, p) && Cong(dd % p + cc % p, 2 * s.g, p)
  {
    CongReduced(b, a, p);
    CongReduced(dd, cc, p);
  }

  lemma FourProducts(e: int, f: int, g: int, h: int, s: Halves, p: int)
    requires p > 0
    requires Cong(e, 2 * s.e, p) && Cong(f, 2 * s.f, p) && Cong(g, 2 * s.g, p) && Cong(h, 2 * s.h, p)
    ensures Cong(e * f % p, 4 * (s.e * s.f), p) && Cong(g * h % p, 4 * (s.g * s.h), p)
    ensures Cong(f * g % p, 4 * (s.f * s.g), p) && Cong(e * h % p, 4 * (s.e * s.h), p)
  {
    hide Cong;
    DoubledProduct(e, f, s.e, s.f, p);
    DoubledProduct(g, h, s.g, s.h, p);
    DoubledProduct(f, g, s.f, s.g, p);
    DoubledProduct(e, h, s.e, s.h, p);
  }

  lemma DoubledProduct(a: int, b: int, x: int, y: int, p: int)
    requires p > 0 && Cong(a, 2 * x, p) && Cong(b, 2 * y, p)
    ensures Cong(a * b % p, 4 * (x * y), p)
  {
    hide Cong;
    CongMul(a, 2 * x, b, 2 * y, p);
    CongMod(a * b, p);
    CongTrans(a * b % p, a * b, 4 * (x * y), p);
    assert (2 * x) * (2 * y) == 4 * (x * y);
  }

  /** The sum's x is (x1*y2 + x2*y1)/(1 + d*x1*x2*y1*y2) and its y is
      (y1*y2 + x1*x2)/(1 - d*x1*x2*y1*y2), multiplied out over the points' own z and t. */
  lemma PointAddIsTheLaw(c: Curve, p: Point, q: Point)
    requires c.p > 0
    ensures var r, z, dt := PointAdd(c, p, q), p.z * q.z, c.d * (p.t * q.t);
            && Cong(r.x * (z + dt), r.z * (p.x * q.y + q.x * p.y), c.p)
            && Cong(r.y * (z - dt), r.z * (p.y * q.y + p.x * q.x), c.p)
  {
    PointAddHalves(c, p, q);
    var s, r := SumHalves(c, p, q), PointAdd(c, p, q);
    hide Cong, PointAdd;
    SameProduct(r.x, r.z, s.e, s.f, s.g, c.p);
    assert 4 * (s.g * s.h) == 4 * (s.h * s.g) && 4 * (s.f * s.g) == 4 * (s.g * s.f);
    SameProduct(r.y, r.z, s.h, s.g, s.f, c.p);
  }

  lemma SameProduct(x: int, z: int, e: int, f: int, g: int, p: int)
    requires p > 0 && Cong(x, 4 * (e * f), p) && Cong(z, 4 * (f * g), p)
    ensures Cong(x * g, z * e, p)
  {
    hide Cong;
    CongScale(g, x, 4 * (e * f), p);
    CongScale(e, z, 4 * (f * g), p);
    assert g * (4 * (e * f)) == e * (4 * (f * g)) by { Threefold(e, f, g); }
    CongSym(e * z, e * (4 * (f * g)), p);
    CongTrans(g * x, g * (4 * (e * f)), e * z, p);
  }

  lemma Threefold(e: int, f: int, g: int)
    ensures g * (4 * (e * f)) == e * (4 * (f * g))
  {
  }

  // The closure proof works with three sums of a point: the product z*t that
  // x*y agrees with, the sum z^2 + d*t^2 that y^2 - x^2 agrees with, and x^2 + y^2.

  function Q(pt: Point): int { pt.z * pt.t }
  function N(d: int, pt: Point): int { pt.z * pt.z + d * (pt.t * pt.t) }
  function M(pt: Point): int { pt.x * pt.x + pt.y * pt.y }

  lemma DifferenceOfSquares(c: Curve, p: Point, q: Point)
    requires c.p > 0 && OnCurve(c, p) && OnCurve(c, q)
    ensures var s := SumHalves(c, p, q); Cong(s.h * s.h - s.e * s.e, N(c.d, p) * N(c.d, q), c.p)
  {
    hide Cong;
    var s := SumHalves(c, p, q);
    DifferenceIdentity(p.x, p.y, q.x, q.y);
    CongMul(p.y * p.y - p.x * p.x, N(c.d, p), q.y * q.y - q.x * q.x, N(c.d, q), c.p);
  }

  lemma DifferenceIdentity(x1: int, y1: int, x2: int, y2: int)
    ensures (y1 * y2 + x1 * x2) * (y1 * y2 + x1 * x2) - (x1 * y2 + x2 * y1) * (x1 * y2 + x2 * y1)
            == (y1 * y1 - x1 * x1) * (y2 * y2 - x2 * x2)
  {
  }

  lemma SumIdentity(x1: int, y1: int, x2: int, y2: int)
    ensures (y1 * y2 + x1 * x2) * (y1 * y2 + x1 * x2) + (x1 * y2 + x2 * y1) * (x1 * y2 + x2 * y1)
            == (x1 * x1 + y1 * y1) * (x2 * x2 + y2 * y2) + 4 * ((x1 * y1) * (x2 * y2))
  {
  }

  lemma CrossIdentity(x1: int, y1: int, x2: int, y2: int)
    ensures (x1 * y2 + x2 * y1) * (y1 * y2 + x1 * x2)
            == (x2 * x2 + y2 * y2) * (x1 * y1) + (x1 * x1 + y1 * y1) * (x2 * y2)
  {
  }

  lemma SumOfSquares(c: Curve, p: Point, q: Point)
    requires c.p > 0 && OnCurve(c, p) && OnCurve(c, q)
    ensures var s := SumHalves(c, p, q);
            Cong(s.h * s.h + s.e * s.e, M(p) * M(q) + 4 * (Q(p) * Q(q)), c.p)
  {
    hide Cong;
    var s := SumHalves(c, p, q);
    var a, b := p.x * p.y, q.x * q.y;
    SumIdentity(p.x, p.y, q.x, q.y);
    CongMul(a, Q(p), b, Q(q), c.p);
    CongScale(4, a * b, Q(p) * Q(q), c.p);
    CongAdd(M(p) * M(q), M(p) * M(q), 4 * (a * b), 4 * (Q(p) * Q(q)), c.p);
  }

  lemma CrossProduct(c: Curve, p: Point, q: Point)
    requires c.p > 0 && OnCurve(c, p) && OnCurve(c, q)
    ensures var s := SumHalves(c, p, q); Cong(s.e * s.h, Q(p) * M(q) + Q(q) * M(p), c.p)
  {
    hide Cong;
    var s := SumHalves(c, p, q);
    var a, b := p.x * p.y, q.x * q.y;
    CrossIdentity(p.x, p.y, q.x, q.y);
    CongScale(M(q), a, Q(p), c.p);
    CongScale(M(p), b, Q(q), c.p);
    CongAdd(M(q) * a, M(q) * Q(p), M(p) * b, M(p) * Q(q), c.p);
  }

  lemma SquareOfSum(c: Curve, pt: Point)
    requires c.p > 0 && OnCurve(c, pt)
    ensures Cong(M(pt) * M(pt), N(c.d, pt) * N(c.d, pt) + 4 * (Q(pt) * Q(pt)), c.p)
  {
    hide Cong;
    var a, b := pt.y * pt.y - pt.x * pt.x, pt.x * pt.y;
    assert M(pt) * M(pt) == a * a + 4 * (b * b);
    CongSquare(a, N(c.d, pt), c.p);
    CongSquare(b, Q(pt), c.p);
    CongScale(4, b * b, Q(pt) * Q(pt), c.p);
    CongAdd(a * a, N(c.d, pt) * N(c.d, pt), 4 * (b * b), 4 * (Q(pt) * Q(pt)), c.p);
  }

  /** The square of the cross product, with every x and y gone but one mixed term. */
  function CrossSquare(d: int, p: Point, q: Point): int {
    var qp, qq, np, nq := Q(p), Q(q), N(d, p), N(d, q);
    qp * qp * (nq * nq + 4 * (qq * qq)) + qq * qq * (np * np + 4 * (qp * qp)) + 2 * (qp * qq) * (M(p) * M(q))
  }

  lemma CrossSquareCong(c: Curve, p: Point, q: Point)
    requires c.p > 0 && OnCurve(c, p) && OnCurve(c, q)
    ensures var s := SumHalves(c, p, q); Cong((s.e * s.h) * (s.e * s.h), CrossSquare(c.d, p, q), c.p)
  {
    hide Cong;
    var s := SumHalves(c, p, q);
    var v := Q(p) * M(q) + Q(q) * M(p);
    CrossProduct(c, p, q);
    CongSquare(s.e * s.h, v, c.p);
    SquareOfSum(c, p);
    SquareOfSum(c, q);
    SquareExpanded(Q(p), M(q), Q(q), M(p));
    var sp, sq := N(c.d, p) * N(c.d, p) + 4 * (Q(p) * Q(p)), N(c.d, q) * N(c.d, q) + 4 * (Q(q) * Q(q));
    var mixed := 2 * (Q(p) * Q(q)) * (M(p) * M(q));
    CongScale(Q(p) * Q(p), M(q) * M(q), sq, c.p);
    CongScale(Q(q) * Q(q), M(p) * M(p), sp, c.p);
    CongAdd(Q(p) * Q(p) * (M(q) * M(q)), Q(p) * Q(p) * sq, Q(q) * Q(q) * (M(p) * M(p)), Q(q) * Q(q) * sp, c.p);
    CongAdd(Q(p) * Q(p) * (M(q) * M(q)) + Q(q) * Q(q) * (M(p) * M(p)), Q(p) * Q(p) * sq + Q(q) * Q(q) * sp,
            mixed, mixed, c.p);
    CongTrans((s.e * s.h) * (s.e * s.h), v * v, CrossSquare(c.d, p, q), c.p);
  }

  lemma SquareExpanded(a: int, b: int, c: int, d: int)
    ensures (a * b + c * d) * (a * b + c * d) == a * a * (b * b) + c * c * (d * d) + 2 * (a * c) * (d * b)
  {
  }

  /** The identity left once both curve equations have been used. */
  lemma Remainder(d: int, p: Point, q: Point)
    ensures var u, w := p.z * q.z, d * (p.t * q.t);
            (u * u + w * w) * (N(d, p) * N(d, q)) + 2 * (u * w) * (M(p) * M(q) + 4 * (Q(p) * Q(q)))
            == (u * u - w * w) * (u * u - w * w) + d * CrossSquare(d, p, q)
  {
    RemainderOf(d, p.z, p.t, q.z, q.t, M(p) * M(q));
  }

  lemma RemainderOf(d: int, pz: int, pt: int, qz: int, qt: int, mm: int)
    ensures var u, w, qp, qq := pz * qz, d * (pt * qt), pz * pt, qz * qt;
            var np, nq := pz * pz + d * (pt * pt), qz * qz + d * (qt * qt);
            (u * u + w * w) * (np * nq) + 2 * (u * w) * (mm + 4 * (qp * qq))
            == (u * u - w * w) * (u * u - w * w)
               + d * (qp * qp * (nq * nq + 4 * (qq * qq)) + qq * qq * (np * np + 4 * (qp * qp)) + 2 * (qp * qq) * mm)
  {
    var z1, t1, z2, t2 := pz * pz, d * (pt * pt), qz * qz, d * (qt * qt);
    Squares(pz, qz, pt, qt, d);
    CrossTerm(d, pz, pt, qz, qt);
    SquareTerm(d, pz, pt);
    SquareTerm(d, qz, qt);
    RemainderCore(z1, t1, z2, t2);
    RemainderTerms(d, pz * pt, qz * qt, z1 + t1, z2 + t2, mm);
  }

  lemma Squares(z1: int, z2: int, t1: int, t2: int, d: int)
    ensures (z1 * z2) * (z1 * z2) == (z1 * z1) * (z2 * z2)
    ensures (d * (t1 * t2)) * (d * (t1 * t2)) == (d * (t1 * t1)) * (d * (t2 * t2))
  {
  }

  lemma CrossTerm(d: int, pz: int, pt: int, qz: int, qt: int)
    ensures (pz * qz) * (d * (pt * qt)) == d * ((pz * pt) * (qz * qt))
  {
  }

  lemma SquareTerm(d: int, z: int, t: int)
    ensures d * ((z * t) * (z * t)) == (z * z) * (d * (t * t))
  {
  }

  lemma RemainderCore(z1: int, t1: int, z2: int, t2: int)
    ensures (z1 * z2 + t1 * t2) * ((z1 + t1) * (z2 + t2))
            == (z1 * z2 - t1 * t2) * (z1 * z2 - t1 * t2)
               + (z1 * t1) * ((z2 + t2) * (z2 + t2)) + (z2 * t2) * ((z1 + t1) * (z1 + t1))
  {
  }

  lemma RemainderTerms(d: int, qp: int, qq: int, np: int, nq: int, mm: int)
    ensures d * (qp * qp * (nq * nq + 4 * (qq * qq)) + qq * qq * (np * np + 4 * (qp * qp)) + 2 * (qp * qq) * mm)
            == d * (qp * qp) * (nq * nq) + d * (qq * qq) * (np * np) + 2 * (d * (qp * qq)) * (mm + 4 * (qp * qq))
  {
  }

  lemma HalvesOnCurve(c: Curve, p: Point, q: Point)
    requires c.p > 0 && OnCurve(c, p) && OnCurve(c, q)
    ensures var s := SumHalves(c, p, q);
            Cong((s.g * s.h) * (s.g * s.h) - (s.e * s.f) * (s.e * s.f),
                 (s.f * s.g) * (s.f * s.g) + c.d * ((s.e * s.h) * (s.e * s.h)), c.p)
  {
    hide Cong;
    var s := SumHalves(c, p, q);
    var u, w := p.z * q.z, c.d * (p.t * q.t);
    var diff, sum := s.h * s.h - s.e * s.e, s.h * s.h + s.e * s.e;
    var diff', sum' := N(c.d, p) * N(c.d, q), M(p) * M(q) + 4 * (Q(p) * Q(q));
    var eh2, eh2' := (s.e * s.h) * (s.e * s.h), CrossSquare(c.d, p, q);
    var base := (u * u - w * w) * (u * u - w * w);
    DifferenceOfSquares(c, p, q);
    SumOfSquares(c, p, q);
    CrossSquareCong(c, p, q);
    CongScale(u * u + w * w, diff, diff', c.p);
    CongScale(2 * (u * w), sum, sum', c.p);
    CongAdd((u * u + w * w) * diff, (u * u + w * w) * diff', 2 * (u * w) * sum, 2 * (u * w) * sum', c.p);
    CongScale(c.d, eh2, eh2', c.p);
    CongAdd(base, base, c.d * eh2, c.d * eh2', c.p);
    Remainder(c.d, p, q);
    LeftSide(u, w, s.e, s.h);
    RightSide(u, w);
    CongSym(base + c.d * eh2, base + c.d * eh2', c.p);
    CongTrans((u * u + w * w) * diff + 2 * (u * w) * sum, base + c.d * eh2', base + c.d * eh2, c.p);
  }

  lemma LeftSide(u: int, w: int, e: int, h: int)
    ensures ((u + w) * h) * ((u + w) * h) - (e * (u - w)) * (e * (u - w))
            == (u * u + w * w) * (h * h - e * e) + 2 * (u * w) * (h * h + e * e)
  {
  }

  lemma RightSide(u: int, w: int)
    ensures ((u - w) * (u + w)) * ((u - w) * (u + w)) == (u * u - w * w) * (u * u - w * w)
  {
  }

  /** The sum of two points of the curve is a point of the curve, whichever the
      points: no coordinate needs to be invertible. */
  lemma PointAddOnCurve(c: Curve, p: Point, q: Point)
    requires c.p > 0 && OnCurve(c, p) && OnCurve(c, q)
    ensures OnCurve(c, PointAdd(c, p, q))
  {
    PointAddHalves(c, p, q);
    HalvesOnCurve(c, p, q);
    FourProductsOnCurve(c, PointAdd(c, p, q), SumHalves(c, p, q));
  }

  lemma FourProductsOnCurve(c: Curve, r: Point, s: Halves)
    requires c.p > 0
    requires Cong(r.x, 4 * (s.e * s.f), c.p) && Cong(r.y, 4 * (s.g * s.h), c.p)
    requires Cong(r.z, 4 * (s.f * s.g), c.p) && Cong(r.t, 4 * (s.e * s.h), c.p)
    requires Cong((s.g * s.h) * (s.g * s.h) - (s.e * s.f) * (s.e * s.f),
                  (s.f * s.g) * (s.f * s.g) + c.d * ((s.e * s.h) * (s.e * s.h)), c.p)
    ensures OnCurve(c, r)
  {
    hide Cong;
    FourfoldOnCurve(c, r, s.e * s.f, s.g * s.h, s.f * s.g, s.e * s.h);
  }

  lemma FourfoldOnCurve(c: Curve, r: Point, x: int, y: int, z: int, t: int)
    requires c.p > 0 && x * y == z * t
    requires Cong(r.x, 4 * x, c.p) && Cong(r.y, 4 * y, c.p) && Cong(r.z, 4 * z, c.p) && Cong(r.t, 4 * t, c.p)
    requires Cong(y * y - x * x, z * z + c.d * (t * t), c.p)
    ensures OnCurve(c, r)
  {
    hide Cong;
    CongMul(r.x, 4 * x, r.y, 4 * y, c.p);
    CongMul(r.z, 4 * z, r.t, 4 * t, c.p);
    assert (4 * x) * (4 * y) == (4 * z) * (4 * t);
    CongSym(r.z * r.t, (4 * z) * (4 * t), c.p);
    CongTrans(r.x * r.y, (4 * x) * (4 * y), r.z * r.t, c.p);
    CongSquare(r.y, 4 * y, c.p);
    CongSquare(r.x, 4 * x, c.p);
    CongSub(r.y * r.y, (4 * y) * (4 * y), r.x * r.x, (4 * x) * (4 * x), c.p);
    CongSquare(r.z, 4 * z, c.p);
    CongSquare(r.t, 4 * t, c.p);
    CongScale(c.d, r.t * r.t, (4 * t) * (4 * t), c.p);
    CongAdd(r.z * r.z, (4 * z) * (4 * z), c.d * (r.t * r.t), c.d * ((4 * t) * (4 * t)), c.p);
    CongScale(16, y * y - x * x, z * z + c.d * (t * t), c.p);
    assert (4 * y) * (4 * y) - (4 * x) * (4 * x) == 16 * (y * y - x * x);
    assert (4 * z) * (4 * z) + c.d * ((4 * t) * (4 * t)) == 16 * (z * z + c.d * (t * t));
    CongSym(r.z * r.z + c.d * (r.t * r.t), 16 * (z * z + c.d * (t * t)), c.p);
    CongTrans(r.y * r.y - r.x * r.x, 16 * (y * y - x * x), 16 * (z * z + c.d * (t * t)), c.p);
    CongTrans(r.y * r.y - r.x * r.x, 16 * (z * z + c.d * (t * t)), r.z * r.z + c.d * (r.t * r.t), c.p);
  }

  // ----- Negation -----

  /** The point with the other sign of x. */
  function Neg(c: Curve, pt: Point): Point
    requires c.p > 0
  {
    Point((-pt.x) % c.p, pt.y, pt.z, (-pt.t) % c.p)
  }

  lemma NegOnCurve(c: Curve, pt: Point)
    requires c.p > 0 && OnCurve(c, pt)
    ensures OnCurve(c, Neg(c, pt))
  {
    CongMod(-pt.x, c.p);
    CongMod(-pt.t, c.p);
    NegatedProduct(c, pt, (-pt.x) % c.p, (-pt.t) % c.p);
    NegatedSquares(c, pt, (-pt.x) % c.p, (-pt.t) % c.p);
  }

  lemma NegatedProduct(c: Curve, pt: Point, nx: int, nt: int)
    requires c.p > 0 && OnCurve(c, pt) && Cong(nx, -pt.x, c.p) && Cong(nt, -pt.t, c.p)
    ensures Cong(nx * pt.y, pt.z * nt, c.p)
  {
    hide Cong;
    CongRefl(pt.y, c.p);
    CongMul(nx, -pt.x, pt.y, pt.y, c.p);
    CongNeg(pt.x * pt.y, pt.z * pt.t, c.p);
    CongScale(pt.z, nt, -pt.t, c.p);
    assert (-pt.x) * pt.y == -(pt.x * pt.y) && pt.z * (-pt.t) == -(pt.z * pt.t);
    CongSym(pt.z * nt, pt.z * (-pt.t), c.p);
    CongTrans(nx * pt.y, -(pt.x * pt.y), -(pt.z * pt.t), c.p);
    CongTrans(nx * pt.y, -(pt.z * pt.t), pt.z * nt, c.p);
  }

  lemma NegatedSquares(c: Curve, pt: Point, nx: int, nt: int)
    requires c.p > 0 && OnCurve(c, pt) && Cong(nx, -pt.x, c.p) && Cong(nt, -pt.t, c.p)
    ensures Cong(pt.y * pt.y - nx * nx, pt.z * pt.z + c.d * (nt * nt), c.p)
  {
    hide Cong;
    var y2, x2, z2, t2 := pt.y * pt.y, pt.x * pt.x, pt.z * pt.z, pt.t * pt.t;
    CongSquare(nx, -pt.x, c.p);
    CongSquare(nt, -pt.t, c.p);
    assert (-pt.x) * (-pt.x) == x2 && (-pt.t) * (-pt.t) == t2;
    CongRefl(y2, c.p);
    CongRefl(z2, c.p);
    CongSub(y2, y2, nx * nx, x2, c.p);
    CongScale(c.d, nt * nt, t2, c.p);
    CongAdd(z2, z2, c.d * (nt * nt), c.d * t2, c.p);
    CongSym(z2 + c.d * (nt * nt), z2 + c.d * t2, c.p);
    CongTrans(y2 - nx * nx, y2 - x2, z2 + c.d * t2, c.p);
    CongTrans(y2 - nx * nx, z2 + c.d * t2, z2 + c.d * (nt * nt), c.p);
  }

  /** Negating both operands negates the sum, coordinate for coordinate. */
  lemma PointAddNeg(c: Curve, p: Point, q: Point)
    requires c.p > 0
    ensures PointAdd(c, Neg(c, p), Neg(c, q)) == Neg(c, PointAdd(c, p, q))
  {
    var n := c.p;
    NegDifferences(p.y, p.x, q.y, q.x, n);
    NegProducts(p.t, q.t, c.d, n);
    SwappedSum(c, p, q, (p.y - p.x) * (q.y - q.x) % n, (p.y + p.x) * (q.y + q.x) % n,
               2 * p.t * q.t * c.d % n, 2 * p.z * q.z % n);
  }

  /** Negation swaps the first two products and leaves the others. */
  lemma SwappedSum(c: Curve, p: Point, q: Point, a: int, b: int, cc: int, dd: int)
    requires c.p > 0
    requires a == (p.y - p.x) * (q.y - q.x) % c.p && b == (p.y + p.x) * (q.y + q.x) % c.p
    requires cc == 2 * p.t * q.t * c.d % c.p && dd == 2 * p.z * q.z % c.p
    requires b == (Neg(c, p).y - Neg(c, p).x) * (Neg(c, q).y - Neg(c, q).x) % c.p
    requires a == (Neg(c, p).y + Neg(c, p).x) * (Neg(c, q).y + Neg(c, q).x) % c.p
    requires cc == 2 * Neg(c, p).t * Neg(c, q).t * c.d % c.p && dd == 2 * Neg(c, p).z * Neg(c, q).z % c.p
    ensures PointAdd(c, Neg(c, p), Neg(c, q)) == Neg(c, PointAdd(c, p, q))
  {
    var e, f, g, h := b - a, dd - cc, dd + cc, b + a;
    NegReduced(e, f, c.p);
    NegReduced(e, h, c.p);
    assert PointAdd(c, p, q) == Point(e * f % c.p, g * h % c.p, f * g % c.p, e * h % c.p);
    assert a - b == -e;
    assert PointAdd(c, Neg(c, p), Neg(c, q)) == Point((-e) * f % c.p, g * h % c.p, f * g % c.p, (-e) * h % c.p);
  }

  lemma NegDifferences(y1: int, x1: int, y2: int, x2: int, n: int)
    requires n > 0
    ensures (y1 - (-x1) % n) * (y2 - (-x2) % n) % n == (y1 + x1) * (y2 + x2) % n
    ensures (y1 + (-x1) % n) * (y2 + (-x2) % n) % n == (y1 - x1) * (y2 - x2) % n
  {
    var m1, m2 := (-x1) % n, (-x2) % n;
    CongMod(-x1, n);
    CongMod(-x2, n);
    DifferenceTo(y1, m1, x1, y2, m2, x2, n);
  }

  lemma DifferenceTo(y1: int, m1: int, x1: int, y2: int, m2: int, x2: int, n: int)
    requires n > 0 && Cong(m1, -x1, n) && Cong(m2, -x2, n)
    ensures Cong((y1 - m1) * (y2 - m2), (y1 + x1) * (y2 + x2), n)
    ensures Cong((y1 + m1) * (y2 + m2), (y1 - x1) * (y2 - x2), n)
  {
    hide Cong;
    CongRefl(y1, n);
    CongRefl(y2, n);
    CongSub(y1, y1, m1, -x1, n);
    CongSub(y2, y2, m2, -x2, n);
    CongAdd(y1, y1, m1, -x1, n);
    CongAdd(y2, y2, m2, -x2, n);
    CongMul(y1 - m1, y1 + x1, y2 - m2, y2 + x2, n);
    CongMul(y1 + m1, y1 - x1, y2 + m2, y2 - x2, n);
  }

  lemma NegProducts(t1: int, t2: int, d: int, n: int)
    requires n > 0
    ensures 2 * ((-t1) % n) * ((-t2) % n) * d % n == 2 * t1 * t2 * d % n
  {
    var m1, m2 := (-t1) % n, (-t2) % n;
    CongMod(-t1, n);
    CongMod(-t2, n);
    ProductTo(m1, t1, m2, t2, d, n);
  }

  lemma ProductTo(m1: int, t1: int, m2: int, t2: int, d: int, n: int)
    requires n > 0 && Cong(m1, -t1, n) && Cong(m2, -t2, n)
    ensures Cong(2 * m1 * m2 * d, 2 * t1 * t2 * d, n)
  {
    hide Cong;
    CongMul(m1, -t1, m2, -t2, n);
    CongScale(2 * d, m1 * m2, (-t1) * (-t2), n);
    assert 2 * d * (m1 * m2) == 2 * m1 * m2 * d;
    assert 2 * d * ((-t1) * (-t2)) == 2 * t1 * t2 * d;
  }

  lemma NegReduced(a: int, b: int, n: int)
    requires n > 0
    ensures (-a) * b % n == (-(a * b % n)) % n
  {
    CongMod(a * b, n);
    CongNeg(a * b % n, a * b, n);
    assert (-a) * b == -(a * b);
  }

  lemma {:induction false} DoubleAndAddNeg(c: Curve, k: nat, r: Point, pt: Point)
    requires c.p > 0
    ensures DoubleAndAdd(c, k, Neg(c, r), Neg(c, pt)) == Neg(c, DoubleAndAdd(c, k, r, pt))
    decreases k
  {
    if k > 0 {
      PointAddNeg(c, r, pt);
      PointAddNeg(c, pt, pt);
      DoubleAndAddNeg(c, k / 2, if k % 2 == 1 then PointAdd(c, r, pt) else r, PointAdd(c, pt, pt));
    }
  }

  /** A multiple of the negated point is the negated multiple. */
  lemma MultipleNeg(c: Curve, k: nat, pt: Point)
    requires c.p > 1
    ensures Multiple(c, k, Neg(c, pt)) == Neg(c, Multiple(c, k, pt))
    ensures IsIdentity(c, Multiple(c, k, Neg(c, pt))) <==> IsIdentity(c, Multiple(c, k, pt))
  {
    assert Neg(c, IDENTITY) == IDENTITY;
    DoubleAndAddNeg(c, k, IDENTITY, pt);
    NegZero(Multiple(c, k, pt).x, c.p);
  }

  lemma NegZero(x: int, n: int)
    requires n > 0
    ensures ((-x) % n) % n == 0 <==> x % n == 0
  {
    CongMod(-x, n);
    ZeroBothWays(x, (-x) % n, n);
  }

  lemma ZeroBothWays(x: int, m: int, n: int)
    requires n > 0 && Cong(m, -x, n)
    ensures Cong(m, 0, n) <==> Cong(x, 0, n)
  {
    hide Cong;
    if Cong(m, 0, n) {
      CongSym(m, -x, n);
      CongTrans(-x, m, 0, n);
      CongNeg(-x, 0, n);
    } else if Cong(x, 0, n) {
      CongNeg(x, 0, n);
      CongTrans(m, -x, 0, n);
    }
  }

  // ----- Multiples -----

  lemma IdentityOnCurve(c: Curve)
    requires c.p > 0
    ensures OnCurve(c, IDENTITY)
  {
  }

  lemma {:induction false} DoubleAndAddOnCurve(c: Curve, k: nat, r: Point, pt: Point)
    requires c.p > 0 && OnCurve(c, r) && OnCurve(c, pt)
    ensures OnCurve(c, DoubleAndAdd(c, k, r, pt))
    decreases k
  {
    if k > 0 {
      PointAddOnCurve(c, r, pt);
      PointAddOnCurve(c, pt, pt);
      DoubleAndAddOnCurve(c, k / 2, if k % 2 == 1 then PointAdd(c, r, pt) else r, PointAdd(c, pt, pt));
    }
  }

  /** The loop: every accumulator and every doubled point on the way is on the
      curve when the point it started from is. */
  method ScalarMul(c: Curve, k: nat, point: Point) returns (result: Point)
    requires c.p > 0
    ensures result == Multiple(c, k, point)
    ensures OnCurve(c, point) ==> OnCurve(c, result)
  {
    result := IDENTITY;
    IdentityOnCurve(c);
    var n, pt := k, point;
    while n > 0
      invariant DoubleAndAdd(c, n, result, pt) == Multiple(c, k, point)
      invariant OnCurve(c, point) ==> OnCurve(c, result) && OnCurve(c, pt)
    {
      if OnCurve(c, point) {
        PointAddOnCurve(c, result, pt);
        PointAddOnCurve(c, pt, pt);
      }
      if n % 2 == 1 {
        result := PointAdd(c, result, pt);
      }
      pt := PointAdd(c, pt, pt);
      n := n / 2;
    }
  }

  // The k-fold sum.  PointAdd picks one representative of a projective point, so
  // it is associative only up to scaling; the monoid is whatever those
  // representatives stand for.

  ghost function Power<G>(op: (G, G) -> G, one: G, g: G, k: nat): G {
    if k == 0 then one else op(Power(op, one, g, k - 1), g)
  }

  ghost predicate Monoid<G(!new)>(op: (G, G) -> G, one: G) {
    && (forall a, b, c :: op(op(a, b), c) == op(a, op(b, c)))
    && (forall a :: op(one, a) == a && op(a, one) == a)
  }

  lemma Associates<G(!new)>(op: (G, G) -> G, one: G, a: G, b: G, c: G)
    requires Monoid(op, one)
    ensures op(op(a, b), c) == op(a, op(b, c))
  {
  }

  lemma Neutral<G(!new)>(op: (G, G) -> G, one: G, a: G)
    requires Monoid(op, one)
    ensures op(one, a) == a == op(a, one)
  {
  }

  lemma {:induction false} PowerAdd<G(!new)>(op: (G, G) -> G, one: G, g: G, m: nat, n: nat)
    requires Monoid(op, one)
    ensures Power(op, one, g, m + n) == op(Power(op, one, g, m), Power(op, one, g, n))
    decreases n
  {
    hide Monoid;
    if n == 0 {
      Neutral(op, one, Power(op, one, g, m));
    } else {
      PowerAdd(op, one, g, m, n - 1);
      Associates(op, one, Power(op, one, g, m), Power(op, one, g, n - 1), g);
      assert Power(op, one, g, m + n) == op(Power(op, one, g, m + n - 1), g);
      assert m + n - 1 == m + (n - 1);
    }
  }

  lemma PowerSmall<G(!new)>(op: (G, G) -> G, one: G, g: G)
    requires Monoid(op, one)
    ensures Power(op, one, g, 1) == g && Power(op, one, g, 2) == op(g, g)
  {
    hide Monoid;
    Neutral(op, one, g);
    assert Power(op, one, g, 1) == op(Power(op, one, g, 0), g);
    assert Power(op, one, g, 2) == op(Power(op, one, g, 1), g);
  }

  lemma {:induction false} PowerDouble<G(!new)>(op: (G, G) -> G, one: G, g: G, n: nat)
    requires Monoid(op, one)
    ensures Power(op, one, op(g, g), n) == Power(op, one, g, 2 * n)
    decreases n
  {
    hide Monoid;
    if n > 0 {
      PowerDouble(op, one, g, n - 1);
      PowerSmall(op, one, g);
      PowerAdd(op, one, g, 2 * (n - 1), 2);
      assert 2 * (n - 1) + 2 == 2 * n;
    }
  }

  /** `of` takes points of the curve to a monoid, and PointAdd to its operation. */
  ghost predicate StandsFor<G(!new)>(c: Curve, op: (G, G) -> G, one: G, of: Point -> G)
    requires c.p > 0
  {
    && of(IDENTITY) == one
    && forall p, q :: OnCurve(c, p) && OnCurve(c, q) ==> of(PointAdd(c, p, q)) == op(of(p), of(q))
  }

  lemma SumStandsFor<G(!new)>(c: Curve, op: (G, G) -> G, one: G, of: Point -> G, p: Point, q: Point)
    requires c.p > 0 && StandsFor(c, op, one, of) && OnCurve(c, p) && OnCurve(c, q)
    ensures of(PointAdd(c, p, q)) == op(of(p), of(q))
  {
  }

  lemma {:induction false} DoubleAndAddIsPower<G(!new)>(
    c: Curve, op: (G, G) -> G, one: G, of: Point -> G, k: nat, r: Point, pt: Point)
    requires c.p > 0 && Monoid(op, one) && StandsFor(c, op, one, of)
    requires OnCurve(c, r) && OnCurve(c, pt)
    ensures of(DoubleAndAdd(c, k, r, pt)) == op(of(r), Power(op, one, of(pt), k))
    decreases k
  {
    hide Monoid, StandsFor, OnCurve, PointAdd;
    var g := of(pt);
    if k == 0 {
      Neutral(op, one, of(r));
    } else {
      PointAddOnCurve(c, r, pt);
      PointAddOnCurve(c, pt, pt);
      SumStandsFor(c, op, one, of, r, pt);
      SumStandsFor(c, op, one, of, pt, pt);
      var r' := if k % 2 == 1 then PointAdd(c, r, pt) else r;
      DoubleAndAddIsPower(c, op, one, of, k / 2, r', PointAdd(c, pt, pt));
      PowerDouble(op, one, g, k / 2);
      if k % 2 == 1 {
        Associates(op, one, of(r), g, Power(op, one, g, k - 1));
        PowerSmall(op, one, g);
        PowerAdd(op, one, g, 1, k - 1);
      }
    }
  }

  /** For any monoid the points stand in, the loop computes the k-fold sum. */
  lemma MultipleIsPower<G(!new)>(c: Curve, op: (G, G) -> G, one: G, of: Point -> G, k: nat, pt: Point)
    requires c.p > 0 && Monoid(op, one) && StandsFor(c, op, one, of) && OnCurve(c, pt)
    ensures of(Multiple(c, k, pt)) == Power(op, one, of(pt), k)
  {
    IdentityOnCurve(c);
    DoubleAndAddIsPower(c, op, one, of, k, IDENTITY, pt);
  }

  // ----- The inverse -----

  /** The point with the other sign of x is on the curve, and adds to the identity. */
  lemma NegIsInverse(c: Curve, pt: Point)
    requires c.p > 1 && OnCurve(c, pt)
    ensures OnCurve(c, Neg(c, pt))
    ensures IsIdentity(c, PointAdd(c, pt, Neg(c, pt)))
  {
    NegOnCurve(c, pt);
    PointAddHalves(c, pt, Neg(c, pt));
    OppositeHalves(c, pt);
    hide Cong, SumHalves, PointAdd, OnCurve;
    Vanishes(SumHalves(c, pt, Neg(c, pt)), PointAdd(c, pt, Neg(c, pt)), c.p);
  }

  lemma Vanishes(s: Halves, r: Point, n: int)
    requires n > 1 && Cong(s.e, 0, n) && Cong(s.h, s.f, n)
    requires Cong(r.x, 4 * (s.e * s.f), n) && Cong(r.y, 4 * (s.g * s.h), n) && Cong(r.z, 4 * (s.f * s.g), n)
    ensures r.x % n == 0 && (r.y - r.z) % n == 0
  {
    hide Cong;
    Fourfold(s.f, s.e, 0, n);
    assert s.f * s.e == s.e * s.f && s.f * 0 == 0 && s.f * s.g == s.g * s.f;
    CongTrans(r.x, 4 * (s.e * s.f), 0, n);
    Fourfold(s.g, s.h, s.f, n);
    CongTrans(r.y, 4 * (s.g * s.h), 4 * (s.g * s.f), n);
    CongSub(r.y, 4 * (s.g * s.f), r.z, 4 * (s.g * s.f), n);
    NoRemainder(r.x, n);
    NoRemainder(r.y - r.z, n);
  }

  lemma Fourfold(k: int, a: int, b: int, n: int)
    requires n > 0 && Cong(a, b, n)
    ensures Cong(4 * (k * a), 4 * (k * b), n)
  {
    CongScale(k, a, b, n);
    CongScale(4, k * a, k * b, n);
  }

  lemma NoRemainder(a: int, n: int)
    requires n > 0 && Cong(a, 0, n)
    ensures a % n == 0
  {
    DivModUnique(0, 0, 0, n);
  }

  /** For opposite points the first half vanishes, and the curve's equation makes the
      difference and the sum of products one. */
  lemma OppositeHalves(c: Curve, pt: Point)
    requires c.p > 1 && OnCurve(c, pt)
    ensures var s := SumHalves(c, pt, Neg(c, pt)); Cong(s.e, 0, c.p) && Cong(s.h, s.f, c.p)
  {
    hide Cong;
    CongMod(-pt.x, c.p);
    CongMod(-pt.t, c.p);
    OppositeOnCurve(pt.x, pt.y, pt.z, pt.t, c.d, (-pt.x) % c.p, (-pt.t) % c.p, c.p);
  }

  lemma OppositeOnCurve(x: int, y: int, z: int, t: int, d: int, nx: int, nt: int, n: int)
    requires n > 0 && Cong(nx, -x, n) && Cong(nt, -t, n) && Cong(y * y - x * x, z * z + d * (t * t), n)
    ensures Cong(x * y + nx * y, 0, n) && Cong(y * y + x * nx, z * z - d * (t * nt), n)
  {
    hide Cong;
    OppositeCross(x, y, nx, n);
    OppositeSquares(x, y, nx, n);
    OppositeDifference(z, t, nt, d, n);
    MeetAt(y * y + x * nx, y * y - x * x, z * z + d * (t * t), z * z - d * (t * nt), n);
  }

  lemma MeetAt(h: int, k: int, g: int, f: int, n: int)
    requires n > 0 && Cong(h, k, n) && Cong(k, g, n) && Cong(f, g, n)
    ensures Cong(h, f, n)
  {
  }

  lemma OppositeCross(x: int, y: int, nx: int, n: int)
    requires n > 0 && Cong(nx, -x, n)
    ensures Cong(x * y + nx * y, 0, n)
  {
    hide Cong;
    CongScale(y, nx, -x, n);
    CongRefl(x * y, n);
    CongAdd(x * y, x * y, y * nx, y * (-x), n);
    assert y * nx == nx * y && x * y + y * (-x) == 0;
  }

  lemma OppositeSquares(x: int, y: int, nx: int, n: int)
    requires n > 0 && Cong(nx, -x, n)
    ensures Cong(y * y + x * nx, y * y - x * x, n)
  {
    hide Cong;
    CongScale(x, nx, -x, n);
    CongRefl(y * y, n);
    CongAdd(y * y, y * y, x * nx, x * (-x), n);
    assert x * (-x) == -(x * x);
  }

  lemma OppositeDifference(z: int, t: int, nt: int, d: int, n: int)
    requires n > 0 && Cong(nt, -t, n)
    ensures Cong(z * z - d * (t * nt), z * z + d * (t * t), n)
  {
    hide Cong;
    CongScale(t, nt, -t, n);
    CongScale(d, t * nt, t * (-t), n);
    CongRefl(z * z, n);
    CongSub(z * z, z * z, d * (t * nt), d * (t * (-t)), n);
    assert t * (-t) == -(t * t) && d * (-(t * t)) == -(d * (t * t));
  }

  // ----- Projective equality -----

  /** Every coordinate of `r` is the matching one of `pt` times `scale`. */
  predicate Scaled(c: Curve, r: Point, pt: Point, scale: int)
    requires c.p > 0
  {
    && Cong(r.x, scale * pt.x, c.p)
    && Cong(r.y, scale * pt.y, c.p)
    && Cong(r.z, scale * pt.z, c.p)
    && Cong(r.t, scale * pt.t, c.p)
  }

  /** The identity test holds of the multiples of the identity, whatever their z. */
  lemma IdentityTest(c: Curve, pt: Point)
    requires c.p > 0
    ensures IsIdentity(c, pt) <==> Cong(pt.x, pt.z * IDENTITY.x, c.p) && Cong(pt.y, pt.z * IDENTITY.y, c.p)
  {
    if Cong(pt.y, pt.z, c.p) {
      CongSub(pt.y, pt.z, pt.z, pt.z, c.p);
    }
    if (pt.y - pt.z) % c.p == 0 {
      CongAdd(pt.y - pt.z, 0, pt.z, pt.z, c.p);
    }
  }

  lemma PointAddCommutes(c: Curve, p: Point, q: Point)
    requires c.p > 0
    ensures PointAdd(c, p, q) == PointAdd(c, q, p)
  {
    assert (p.y - p.x) * (q.y - q.x) == (q.y - q.x) * (p.y - p.x);
    assert (p.y + p.x) * (q.y + q.x) == (q.y + q.x) * (p.y + p.x);
    assert 2 * p.t * q.t * c.d == 2 * q.t * p.t * c.d;
    assert 2 * p.z * q.z == 2 * q.z * p.z;
  }

  /** Adding the identity, on either side, gives the same projective point. */
  lemma IdentityIsNeutral(c: Curve, pt: Point)
    requires c.p > 0 && OnCurve(c, pt)
    ensures Scaled(c, PointAdd(c, IDENTITY, pt), pt, 4 * pt.z)
    ensures Scaled(c, PointAdd(c, pt, IDENTITY), pt, 4 * pt.z)
  {
    PointAddHalves(c, IDENTITY, pt);
    PointAddCommutes(c, pt, IDENTITY);
    NeutralHalves(c, pt, PointAdd(c, IDENTITY, pt), SumHalves(c, IDENTITY, pt));
  }

  lemma NeutralHalves(c: Curve, pt: Point, r: Point, s: Halves)
    requires c.p > 0 && OnCurve(c, pt)
    requires s.e == pt.x && s.f == pt.z && s.g == pt.z && s.h == pt.y
    requires Cong(r.x, 4 * (s.e * s.f), c.p) && Cong(r.y, 4 * (s.g * s.h), c.p)
    requires Cong(r.z, 4 * (s.f * s.g), c.p) && Cong(r.t, 4 * (s.e * s.h), c.p)
    ensures Scaled(c, r, pt, 4 * pt.z)
  {
    hide Cong;
    assert 4 * (s.e * s.f) == 4 * pt.z * pt.x && 4 * (s.g * s.h) == 4 * pt.z * pt.y;
    assert 4 * (s.f * s.g) == 4 * pt.z * pt.z;
    CongScale(4, pt.x * pt.y, pt.z * pt.t, c.p);
    assert 4 * (pt.z * pt.t) == 4 * pt.z * pt.t;
    CongTrans(r.t, 4 * (pt.x * pt.y), 4 * (pt.z * pt.t), c.p);
  }
}
