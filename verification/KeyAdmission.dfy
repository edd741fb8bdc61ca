/** Which 32-byte Ed25519 public keys are admitted (scripts/evidence_host.py:63-92).

    The source never applies the sign bit to the root it finds: it decides on
    one of the two roots, whichever it computed.  The reference here decodes as
    RFC 8032, section 5.1.3, does, choosing the root whose low bit is the sign,
    and the method is proved to give that reference's verdict on every key.
  */
module KeyAdmission {
  import opened Bits
  import opened Congruence
  import opened EdwardsPoints

  datatype Verdict = Admitted | NonCanonical | OffCurve | InvalidSign | SmallOrder | MixedOrder

  datatype Root = NoRoot | Root(x: int)

  const TWO_255: nat := 0x8000_0000_0000_0000_0000_0000_0000_0000_0000_0000_0000_0000_0000_0000_0000_0000

  const ED25519: Curve := Curve(
    0x7fff_ffff_ffff_ffff_ffff_ffff_ffff_ffff_ffff_ffff_ffff_ffff_ffff_ffff_ffff_ffed,
    37095705934669439343138083508754565189542113879843219016388785533085940283555,
    19681161376707505956807079304988542015446066515923890162744021073123829784752,
    7237005577332262213973186563042994240857116359379907606001950938285454250989)

  /** The constants are what the source computes: 2^255 - 19, -121665/121666, a
      square root of -1, and 2^252 + 27742317777372353535851937790883648493. */
  lemma Ed25519Constants()
    ensures ED25519.p == TWO_255 - 19 && ED25519.p % 8 == 5
    ensures 8 * (ED25519.order - 27742317777372353535851937790883648493) == TWO_255
    ensures (ED25519.d * 121666 + 121665) % ED25519.p == 0
    ensures WellFormed(ED25519) && !Cong(ED25519.d, -1, ED25519.p)
  {
    assert ED25519.d * 121666 + 121665 == 77955 * ED25519.p;
    CongFrom(ED25519.sqrtM1 * ED25519.sqrtM1, -1,
             6690407189080634018507799843845558368979872843924222843531373839242004886245, ED25519.p);
    CongFrom(ED25519.d * 121666 + 121665, 0, 77955, ED25519.p);
  }

  function ModPow(b: int, e: nat, m: int): int
    requires m > 0
    decreases e
  {
    if e == 0 then 1 % m else b * ModPow(b, e - 1, m) % m
  }

  function FromLittleEndian(bytes: seq<Byte>): nat {
    if bytes == [] then 0 else bytes[0] + 256 * FromLittleEndian(bytes[1..])
  }

  // ----- The root -----

  /** A square root of u/v, or of -u/v turned into one of u/v; the source checks
      the candidate itself, so nothing rests on the exponentiation. */
  function RootFor(c: Curve, y: int): (root: Root)
    requires WellFormed(c)
  {
    var u, v := (y * y - 1) % c.p, (c.d * y * y + 1) % c.p;
    var x := u * ModPow(v, 3, c.p) * ModPow(u * ModPow(v, 7, c.p), (c.p - 5) / 8, c.p) % c.p;
    if v * x * x % c.p == u then Root(x)
    else if v * x * x % c.p == (-u) % c.p then Root(x * c.sqrtM1 % c.p)
    else NoRoot
  }

  /** The affine curve equation. */
  predicate Affine(c: Curve, x: int, y: int)
    requires c.p > 0
  {
    Cong(y * y - x * x, 1 + c.d * ((x * x) * (y * y)), c.p)
  }

  lemma RootIsOnCurve(c: Curve, y: int)
    requires WellFormed(c)
    ensures RootFor(c, y).Root? ==> 0 <= RootFor(c, y).x < c.p && Affine(c, RootFor(c, y).x, y)
  {
    var u, v := (y * y - 1) % c.p, (c.d * y * y + 1) % c.p;
    var x := u * ModPow(v, 3, c.p) * ModPow(u * ModPow(v, 7, c.p), (c.p - 5) / 8, c.p) % c.p;
    CheckedRoot(c, y, u, v, x);
    CheckedTurnedRoot(c, y, u, v, x);
  }

  lemma CheckedRoot(c: Curve, y: int, u: int, v: int, x: int)
    requires WellFormed(c) && u == (y * y - 1) % c.p && v == (c.d * y * y + 1) % c.p
    ensures v * x * x % c.p == u ==> Affine(c, x, y)
  {
    if v * x * x % c.p == u {
      CongMod(y * y - 1, c.p);
      CongMod(c.d * y * y + 1, c.p);
      CongMod(v * x * x, c.p);
      RootEquation(c, y, u, v, x);
    }
  }

  lemma RootEquation(c: Curve, y: int, u: int, v: int, x: int)
    requires WellFormed(c) && Cong(u, y * y - 1, c.p) && Cong(v, c.d * y * y + 1, c.p) && Cong(v * x * x, u, c.p)
    ensures Affine(c, x, y)
  {
    hide Cong;
    var full := c.d * y * y + 1;
    CongScale(x * x, v, full, c.p);
    assert x * x * v == v * x * x;
    CongSym(x * x * v, x * x * full, c.p);
    CongTrans(x * x * full, v * x * x, u, c.p);
    CongTrans(x * x * full, u, y * y - 1, c.p);
    CongSym(x * x * full, y * y - 1, c.p);
    CongRefl(1 - x * x, c.p);
    CongAdd(y * y - 1, x * x * full, 1 - x * x, 1 - x * x, c.p);
    assert x * x * full + (1 - x * x) == 1 + c.d * ((x * x) * (y * y)) by { Expand(c.d, x * x, y); }
    assert y * y - 1 + (1 - x * x) == y * y - x * x;
  }

  lemma Expand(d: int, s: int, y: int)
    ensures s * (d * y * y + 1) + (1 - s) == 1 + d * (s * (y * y))
  {
  }

  lemma CheckedTurnedRoot(c: Curve, y: int, u: int, v: int, x: int)
    requires WellFormed(c) && u == (y * y - 1) % c.p && v == (c.d * y * y + 1) % c.p
    ensures v * x * x % c.p == (-u) % c.p ==> Affine(c, x * c.sqrtM1 % c.p, y)
  {
    if v * x * x % c.p == (-u) % c.p {
      CongMod(y * y - 1, c.p);
      CongMod(c.d * y * y + 1, c.p);
      CongMod(x * c.sqrtM1, c.p);
      assert Cong(v * x * x, -u, c.p);
      TurnedEquation(c.p, c.sqrtM1, u, v, x, x * c.sqrtM1 % c.p);
      RootEquation(c, y, u, v, x * c.sqrtM1 % c.p);
    }
  }

  lemma TurnedEquation(p: int, i: int, u: int, v: int, x: int, x': int)
    requires p > 0 && Cong(i * i, -1, p) && Cong(v * x * x, -u, p) && Cong(x', x * i, p)
    ensures Cong(v * x' * x', u, p)
  {
    hide Cong;
    CongSquare(x', x * i, p);
    CongScale(v, x' * x', (x * i) * (x * i), p);
    assert v * (x' * x') == v * x' * x';
    Regroup(v, x, i);
    CongMul(v * x * x, -u, i * i, -1, p);
    assert (-u) * (-1) == u;
    CongTrans(v * x' * x', (v * x * x) * (i * i), u, p);
  }

  lemma Regroup(v: int, x: int, i: int)
    ensures v * ((x * i) * (x * i)) == (v * x * x) * (i * i)
  {
  }

  /** The extended point of an affine one, as the source writes it. */
  function Extended(c: Curve, x: int, y: int): Point
    requires c.p > 0
  {
    Point(x, y, 1, x * y % c.p)
  }

  lemma ExtendedOnCurve(c: Curve, x: int, y: int)
    requires c.p > 0 && Affine(c, x, y)
    ensures OnCurve(c, Extended(c, x, y))
  {
    CongMod(x * y, c.p);
    ExtendedEquation(c, x, y, x * y % c.p);
  }

  lemma ExtendedEquation(c: Curve, x: int, y: int, t: int)
    requires c.p > 0 && Affine(c, x, y) && Cong(t, x * y, c.p)
    ensures OnCurve(c, Point(x, y, 1, t))
  {
    hide Cong;
    CongSym(t, x * y, c.p);
    assert 1 * t == t;
    CongSquare(x * y, t, c.p);
    assert (x * y) * (x * y) == (x * x) * (y * y);
    CongScale(c.d, (x * x) * (y * y), t * t, c.p);
    CongRefl(1, c.p);
    CongAdd(1, 1, c.d * ((x * x) * (y * y)), c.d * (t * t), c.p);
    CongTrans(y * y - x * x, 1 + c.d * ((x * x) * (y * y)), 1 + c.d * (t * t), c.p);
  }

  // ----- The reference -----

  function TorsionVerdict(c: Curve, pt: Point): Verdict
    requires c.p > 0
  {
    if IsIdentity(c, Multiple(c, 8, pt)) then SmallOrder
    else if !IsIdentity(c, Multiple(c, c.order, pt)) then MixedOrder
    else Admitted
  }

  function SignOf(key: seq<Byte>): nat {
    FromLittleEndian(key) / TWO_255
  }

  function YOf(key: seq<Byte>): nat {
    FromLittleEndian(key) % TWO_255
  }

  /** RFC 8032, section 5.1.3, step 4: of the two roots, the one of the sign's parity. */
  function SignedRoot(c: Curve, x: int, sign: nat): int {
    if (x % 2 == 1) == (sign != 0) then x else c.p - x
  }

  function RfcVerdict(c: Curve, key: seq<Byte>): Verdict
    requires WellFormed(c)
  {
    if |key| != 32 || YOf(key) >= c.p then NonCanonical
    else
      var root := RootFor(c, YOf(key));
      if root.NoRoot? then OffCurve
      else if root.x == 0 && SignOf(key) != 0 then InvalidSign
      else TorsionVerdict(c, Extended(c, SignedRoot(c, root.x, SignOf(key)), YOf(key)))
  }

  // ----- Either root gives one verdict -----

  lemma OtherRootIsNeg(c: Curve, x: int, y: int)
    requires c.p > 0 && 0 < x < c.p
    ensures Extended(c, c.p - x, y) == Neg(c, Extended(c, x, y))
  {
    CongFrom(-x, c.p - x, -1, c.p);
    assert (-x) % c.p == c.p - x;
    NegReduced(x, y, c.p);
    CongFrom((c.p - x) * y, (-x) * y, y, c.p) by { OtherProduct(c.p, x, y); }
  }

  lemma OtherProduct(p: int, x: int, y: int)
    ensures (p - x) * y == (-x) * y + y * p
  {
  }

  lemma TorsionVerdictNeg(c: Curve, pt: Point)
    requires c.p > 1
    ensures TorsionVerdict(c, Neg(c, pt)) == TorsionVerdict(c, pt)
  {
    MultipleNeg(c, 8, pt);
    MultipleNeg(c, c.order, pt);
  }

  lemma EitherRoot(c: Curve, x: int, y: int, sign: nat)
    requires c.p > 1 && 0 <= x < c.p && (x == 0 ==> sign == 0)
    ensures TorsionVerdict(c, Extended(c, SignedRoot(c, x, sign), y)) == TorsionVerdict(c, Extended(c, x, y))
  {
    if SignedRoot(c, x, sign) != x {
      OtherRootIsNeg(c, x, y);
      TorsionVerdictNeg(c, Extended(c, x, y));
    }
  }

  // ----- The method -----

  method FindRoot(c: Curve, y: int) returns (root: Root)
    requires WellFormed(c)
    ensures root == RootFor(c, y)
    ensures root.Root? ==> 0 <= root.x < c.p && Affine(c, root.x, y)
  {
    var u, v := (y * y - 1) % c.p, (c.d * y * y + 1) % c.p;
    var x := u * ModPow(v, 3, c.p) * ModPow(u * ModPow(v, 7, c.p), (c.p - 5) / 8, c.p) % c.p;
    RootIsOnCurve(c, y);
    if v * x * x % c.p != u {
      if v * x * x % c.p != (-u) % c.p {
        return NoRoot;
      }
      x := x * c.sqrtM1 % c.p;
    }
    return Root(x);
  }

  method RefusedPublicKeyClause(c: Curve, key: seq<Byte>) returns (verdict: Verdict)
    requires WellFormed(c)
    ensures verdict == RfcVerdict(c, key)
    ensures Judged(c, key, verdict)
  {
    VerdictExactly(c, key);
    if |key| != 32 {
      return NonCanonical;
    }
    var encoded := FromLittleEndian(key);
    var sign, y := encoded / TWO_255, encoded % TWO_255;
    if y >= c.p {
      return NonCanonical;
    }
    var root := FindRoot(c, y);
    if root.NoRoot? {
      return OffCurve;
    }
    var x := root.x;
    if x == 0 && sign != 0 {
      return InvalidSign;
    }
    var point := Point(x, y, 1, x * y % c.p);
    EitherRoot(c, x, y, sign);
    var small := ScalarMul(c, 8, point);
    if IsIdentity(c, small) {
      return SmallOrder;
    }
    var full := ScalarMul(c, c.order, point);
    if !IsIdentity(c, full) {
      return MixedOrder;
    }
    return Admitted;
  }

  // ----- What a verdict means -----

  /** `x` is the decoded x of `key`: of the sign's parity, and on the curve with its y. */
  ghost predicate DecodesTo(c: Curve, key: seq<Byte>, x: int)
    requires c.p > 0
  {
    && |key| == 32
    && 0 <= x < c.p
    && (x % 2 == 1) == (SignOf(key) != 0)
    && Affine(c, x, YOf(key))
  }

  /** The point is on the curve, outside the small subgroup and inside the prime-order one. */
  ghost predicate PrimeOrderPoint(c: Curve, pt: Point)
    requires c.p > 0
  {
    && OnCurve(c, pt)
    && OnCurve(c, Multiple(c, 8, pt)) && !IsIdentity(c, Multiple(c, 8, pt))
    && OnCurve(c, Multiple(c, c.order, pt)) && IsIdentity(c, Multiple(c, c.order, pt))
  }

  /** The key decodes: 32 bytes, y reduced, a root found, and no sign on a zero root. */
  predicate Decodable(c: Curve, key: seq<Byte>)
    requires WellFormed(c)
  {
    && |key| == 32 && YOf(key) < c.p
    && RootFor(c, YOf(key)).Root?
    && !(RootFor(c, YOf(key)).x == 0 && SignOf(key) != 0)
  }

  /** The point a key decodes to. */
  function DecodedX(c: Curve, key: seq<Byte>): int
    requires WellFormed(c) && Decodable(c, key)
  {
    SignedRoot(c, RootFor(c, YOf(key)).x, SignOf(key))
  }

  /** Exactly which verdict a key gets. */
  ghost predicate Judged(c: Curve, key: seq<Byte>, verdict: Verdict)
    requires WellFormed(c)
  {
    && (verdict == NonCanonical <==> |key| != 32 || YOf(key) >= c.p)
    && (verdict == OffCurve <==> |key| == 32 && YOf(key) < c.p && RootFor(c, YOf(key)).NoRoot?)
    && (verdict == InvalidSign
        <==> |key| == 32 && YOf(key) < c.p && RootFor(c, YOf(key)) == Root(0) && SignOf(key) != 0)
    && (Decodable(c, key) ==>
          var pt := Extended(c, DecodedX(c, key), YOf(key));
          var small, full := IsIdentity(c, Multiple(c, 8, pt)), IsIdentity(c, Multiple(c, c.order, pt));
          && DecodesTo(c, key, DecodedX(c, key))
          && (verdict == SmallOrder <==> small)
          && (verdict == MixedOrder <==> !small && !full)
          && (verdict == Admitted <==> PrimeOrderPoint(c, pt)))
    && (verdict in {SmallOrder, MixedOrder, Admitted} ==> Decodable(c, key))
  }

  lemma VerdictExactly(c: Curve, key: seq<Byte>)
    requires WellFormed(c)
    ensures Judged(c, key, RfcVerdict(c, key))
  {
    if Decodable(c, key) {
      var root := RootFor(c, YOf(key)).x;
      RootIsOnCurve(c, YOf(key));
      SignedRootMeans(c, root, YOf(key), SignOf(key));
      ExtendedOnCurve(c, DecodedX(c, key), YOf(key));
      MultiplesOnCurve(c, Extended(c, DecodedX(c, key), YOf(key)));
    }
    hide RootFor, Multiple, IsIdentity, OnCurve, SignOf, YOf, Affine, Extended;
  }

  lemma AdmittedMeans(c: Curve, key: seq<Byte>)
    requires WellFormed(c) && RfcVerdict(c, key) == Admitted
    ensures exists x :: DecodesTo(c, key, x) && PrimeOrderPoint(c, Extended(c, x, YOf(key)))
  {
    var y, sign := YOf(key), SignOf(key);
    var root := RootFor(c, y).x;
    RootIsOnCurve(c, y);
    var x := SignedRoot(c, root, sign);
    SignedRootMeans(c, root, y, sign);
    ExtendedOnCurve(c, x, y);
    MultiplesOnCurve(c, Extended(c, x, y));
    assert DecodesTo(c, key, x);
  }

  lemma SignedRootMeans(c: Curve, root: int, y: int, sign: nat)
    requires WellFormed(c) && 0 <= root < c.p && Affine(c, root, y) && (root == 0 ==> sign == 0)
    ensures var x := SignedRoot(c, root, sign);
            0 <= x < c.p && (x % 2 == 1) == (sign != 0) && Affine(c, x, y)
  {
    hide Cong;
    OtherRootAffine(c, root, y);
  }

  lemma MultiplesOnCurve(c: Curve, pt: Point)
    requires c.p > 0 && OnCurve(c, pt)
    ensures OnCurve(c, Multiple(c, 8, pt)) && OnCurve(c, Multiple(c, c.order, pt))
  {
    IdentityOnCurve(c);
    DoubleAndAddOnCurve(c, 8, IDENTITY, pt);
    DoubleAndAddOnCurve(c, c.order, IDENTITY, pt);
  }

  // ----- The sign bit -----

  lemma {:induction false} LastByte(bytes: seq<Byte>)
    requires bytes != []
    ensures FromLittleEndian(bytes)
            == FromLittleEndian(bytes[..|bytes| - 1]) + Pow256(|bytes| - 1) * bytes[|bytes| - 1]
    ensures FromLittleEndian(bytes[..|bytes| - 1]) < Pow256(|bytes| - 1)
  {
    if |bytes| > 1 {
      LastByte(bytes[1..]);
      assert bytes[1..][..|bytes| - 2] == bytes[..|bytes| - 1][1..];
      Nested(Pow256(|bytes| - 2), bytes[|bytes| - 1]);
    }
  }

  lemma Nested(w: nat, b: nat)
    ensures 256 * (w * b) == 256 * w * b
  {
  }

  /** The sign is the top bit of the last byte; y is everything below it. */
  lemma SignIsTopBit(key: seq<Byte>)
    requires |key| == 32
    ensures SignOf(key) == key[31] / 128
    ensures YOf(key) == FromLittleEndian(key[..31]) + Pow256(31) * (key[31] % 128)
  {
    LastByte(key);
    Pow256At31();
    TopBit(FromLittleEndian(key[..31]), Pow256(31), key[31]);
  }

  lemma Pow256At31()
    ensures TWO_255 == 128 * Pow256(31)
  {
    assert Pow256(8) == 0x1_0000_0000_0000_0000;
    assert Pow256(16) == 0x1_0000_0000_0000_0000_0000_0000_0000_0000;
    assert Pow256(24) == 0x1_0000_0000_0000_0000_0000_0000_0000_0000_0000_0000_0000_0000;
  }

  lemma TopBit(low: nat, w: nat, b: nat)
    requires low < w && b < 256
    ensures (low + w * b) / (128 * w) == b / 128
    ensures (low + w * b) % (128 * w) == low + w * (b % 128)
  {
    var q, r := b / 128, b % 128;
    assert w * b == q * (128 * w) + w * r by { assert b == 128 * q + r; SplitProduct(w, q, r); }
    assert w * r <= w * 127 by { Monotonic(w, r, 127); }
    DivModUnique(low + w * b, q, low + w * r, 128 * w);
  }

  lemma SplitProduct(w: nat, q: nat, r: nat)
    ensures w * (128 * q + r) == q * (128 * w) + w * r
  {
  }

  lemma Monotonic(w: nat, a: nat, b: nat)
    requires a <= b
    ensures w * a <= w * b
  {
  }

  /** Two keys that differ in the sign bit alone get one verdict, unless the root
      is zero; then the one with the sign set, and only that one, is refused for it. */
  lemma SignBitIrrelevant(c: Curve, plain: seq<Byte>, signed: seq<Byte>)
    requires WellFormed(c)
    requires |plain| == |signed| == 32 && plain[..31] == signed[..31]
    requires plain[31] < 128 && signed[31] as int == plain[31] + 128
    ensures RfcVerdict(c, plain) != InvalidSign
    ensures RfcVerdict(c, signed) == InvalidSign <==>
              YOf(plain) < c.p && RootFor(c, YOf(plain)) == Root(0)
    ensures RfcVerdict(c, signed) != InvalidSign ==> RfcVerdict(c, signed) == RfcVerdict(c, plain)
  {
    hide FromLittleEndian, Pow256, YOf, SignOf, RootFor, RfcVerdict;
    SignIsTopBit(plain);
    SignIsTopBit(signed);
    assert YOf(signed) == YOf(plain);
    SameY(c, plain, signed, RootFor(c, YOf(plain)));
  }

  lemma SameY(c: Curve, plain: seq<Byte>, signed: seq<Byte>, root: Root)
    requires WellFormed(c) && |plain| == |signed| == 32
    requires YOf(plain) == YOf(signed) && SignOf(plain) == 0 && SignOf(signed) == 1
    requires root == RootFor(c, YOf(plain))
    ensures RfcVerdict(c, plain) != InvalidSign
    ensures RfcVerdict(c, signed) == InvalidSign <==> YOf(plain) < c.p && root == Root(0)
    ensures RfcVerdict(c, signed) != InvalidSign ==> RfcVerdict(c, signed) == RfcVerdict(c, plain)
  {
    hide RootFor, Affine, Extended, SignedRoot, IsIdentity, Multiple;
    var y := YOf(plain);
    RootIsOnCurve(c, y);
    if root.Root? {
      EitherRoot(c, root.x, y, 0);
      if root.x != 0 {
        EitherRoot(c, root.x, y, 1);
      }
    }
  }

  lemma OtherRootAffine(c: Curve, x: int, y: int)
    requires c.p > 0 && Affine(c, x, y)
    ensures Affine(c, c.p - x, y)
  {
    CongFrom(c.p - x, -x, 1, c.p);
    OtherRootEquation(c, c.p - x, x, y);
  }

  lemma Reorder(d: int, a: int, b: int)
    ensures d * a * b == d * (b * a)
  {
  }

  lemma OtherRootEquation(c: Curve, x': int, x: int, y: int)
    requires c.p > 0 && Affine(c, x, y) && Cong(x', -x, c.p)
    ensures Affine(c, x', y)
  {
    hide Cong;
    var y2 := y * y;
    CongSquare(x', -x, c.p);
    assert (-x) * (-x) == x * x;
    CongRefl(y2, c.p);
    CongSub(y2, y2, x' * x', x * x, c.p);
    CongScale(c.d * y2, x' * x', x * x, c.p);
    Reorder(c.d, y2, x' * x');
    Reorder(c.d, y2, x * x);
    CongRefl(1, c.p);
    CongAdd(1, 1, c.d * ((x' * x') * y2), c.d * ((x * x) * y2), c.p);
    CongTrans(y2 - x' * x', y2 - x * x, 1 + c.d * ((x * x) * y2), c.p);
    CongSym(1 + c.d * ((x' * x') * y2), 1 + c.d * ((x * x) * y2), c.p);
    CongTrans(y2 - x' * x', 1 + c.d * ((x * x) * y2), 1 + c.d * ((x' * x') * y2), c.p);
  }
}
