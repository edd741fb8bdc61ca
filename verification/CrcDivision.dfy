/** The checksum as the standard states it: the remainder of the message, its first sixteen
    bits inverted and sixteen zeros after it, on division by x^16 + x^15 + x^2 + 1
    (scripts/pzem_socket_sim.py:31-40; MODBUS over Serial Line V1.02, section 6.2.2). */
module CrcDivision {
  import opened Bits
  import opened Crc16

  function Repeat(b: bool, n: nat): (bits: seq<bool>)
    ensures |bits| == n && forall k :: 0 <= k < n ==> bits[k] == b
  {
    if n == 0 then [] else [b] + Repeat(b, n - 1)
  }

  /** The coefficients of the divisor, highest first. */
  const DIVISOR: seq<bool> := [true, true] + Repeat(false, 12) + [true, false, true]

  /** `e` added, modulo two, to the front of `d`. */
  function Plus(d: seq<bool>, e: seq<bool>): (r: seq<bool>)
    requires |e| <= |d|
    ensures |r| == |d|
    ensures forall k :: 0 <= k < |d| ==> r[k] == if k < |e| then d[k] != e[k] else d[k]
  {
    if e == [] then d else [d[0] != e[0]] + Plus(d[1..], e[1..])
  }

  /** Long division: while the dividend is longer than the remainder may be, take the
      divisor away if its leading term divides, and go on to the next term. */
  function Remainder(d: seq<bool>): (r: seq<bool>)
    requires |d| >= 16
    ensures |r| == 16
    decreases |d|
  {
    if |d| == 16 then d else Remainder((if d[0] then Plus(d, DIVISOR) else d)[1..])
  }

  // ----- Words and their bits -----

  lemma ToBitsHalf(w: nat, n: nat)
    requires w < Pow2(n + 1)
    ensures ToBits(w / 2, n + 1) == ToBits(w, n + 1)[1..] + [false]
  {
    LowFirst(w, n);
    assert w / 2 < Pow2(n);
    hide ToBits;
    ToBitsTop(w / 2, n);
  }

  lemma LowFirst(w: nat, n: nat)
    ensures ToBits(w, n + 1) == [w % 2 == 1] + ToBits(w / 2, n)
  {
  }

  lemma {:induction false} ToBitsTop(w: nat, n: nat)
    requires w < Pow2(n)
    ensures ToBits(w, n + 1) == ToBits(w, n) + [false]
  {
    LowFirst(w, n);
    if n > 0 {
      LowFirst(w, n - 1);
      hide ToBits;
      ToBitsTop(w / 2, n - 1);
    }
  }

  lemma {:induction false} ToBitsXor(a: nat, b: nat, n: nat)
    ensures ToBits(Xor(a, b), n) == Plus(ToBits(a, n), ToBits(b, n))
  {
    if n > 0 {
      XorHalves(a, b);
      hide Xor;
      OddSum(a, b);
      ToBitsXor(a / 2, b / 2, n - 1);
      var x, y := ToBits(a, n), ToBits(b, n);
      assert x[1..] == ToBits(a / 2, n - 1) && y[1..] == ToBits(b / 2, n - 1);
    }
  }

  lemma {:induction false} TimesPower(w: nat, n: nat, k: nat)
    ensures ToBits(w * Pow2(k), n + k) == Repeat(false, k) + ToBits(w, n)
  {
    if k > 0 {
      TimesPower(w, n, k - 1);
      Doubled(w, Pow2(k - 1));
    }
  }

  lemma Doubled(w: nat, p: nat)
    ensures w * (2 * p) % 2 == 0 && w * (2 * p) / 2 == w * p
  {
    assert w * (2 * p) == 2 * (w * p);
  }

  lemma PolynomialBits()
    ensures ToBits(POLYNOMIAL, 16) == DIVISOR[1..]
  {
    assert Pow2(12) == 4096 by {
      assert Pow2(6) == 64;
    }
    TimesPower(5, 3, 12);
    FiveBits();
    OddBits(20480, 15);
    hide ToBits, Repeat, Pow2;
  }

  lemma FiveBits()
    ensures ToBits(5, 3) == [true, false, true]
  {
    assert ToBits(1, 1) == [true];
    assert ToBits(2, 2) == [false] + ToBits(1, 1);
    assert ToBits(5, 3) == [true] + ToBits(2, 2);
  }

  lemma OddBits(w: nat, n: nat)
    ensures ToBits(2 * w + 1, n + 1) == [true] + ToBits(w, n)
  {
    assert (2 * w + 1) % 2 == 1 && (2 * w + 1) / 2 == w;
  }

  /** One bit into the register, in bits: the register moves up one place, and the divisor
      is taken away when the bit that leaves and the bit that enters differ. */
  lemma StepBits(c: nat, b: bool)
    requires IsWord(c)
    ensures var bits, leading := ToBits(c, 16), (c % 2 == 1) != b;
            ToBits(Shift(Xor(c, Bit(b))), 16)
            == if leading then Plus(bits[1..] + [false], DIVISOR[1..]) else bits[1..] + [false]
  {
    ShiftOfXor(c, b);
    ToBitsHalf(c, 15);
    ToBitsXor(c / 2, POLYNOMIAL, 16);
    PolynomialBits();
    hide Xor, ToBits, Shift, Plus;
  }

  lemma ShiftOfXor(c: nat, b: bool)
    ensures Shift(Xor(c, Bit(b))) == if (c % 2 == 1) != b then Xor(c / 2, POLYNOMIAL) else c / 2
  {
    XorHalves(c, Bit(b));
    XorZero(c / 2);
    OddSum(c, Bit(b));
    assert Bit(b) / 2 == 0;
    hide Xor;
  }

  /** The register after some bits is what is left of them and the register's own content. */
  lemma {:induction false} SerialDivides(c: nat, bits: seq<bool>)
    requires IsWord(c)
    ensures ToBits(Serial(c, bits), 16) == Remainder(Plus(bits + Repeat(false, 16), ToBits(c, 16)))
    decreases |bits|
  {
    hide *;
    if bits == [] {
      NoBits(c, bits);
    } else {
      var next := Shift(Xor(c, Bit(bits[0])));
      ShiftedWord(c, bits[0]);
      SerialDivides(next, bits[1..]);
      StepBits(c, bits[0]);
      FirstBit(c);
      DividendStep(bits, ToBits(c, 16), ToBits(next, 16));
      UnfoldOnce(c, bits, Plus(bits + Repeat(false, 16), ToBits(c, 16)));
    }
  }

  lemma NoBits(c: nat, bits: seq<bool>)
    requires bits == []
    ensures ToBits(Serial(c, bits), 16) == Remainder(Plus(bits + Repeat(false, 16), ToBits(c, 16)))
  {
    hide ToBits;
    assert Plus(bits + Repeat(false, 16), ToBits(c, 16)) == ToBits(c, 16);
  }

  lemma FirstBit(c: nat)
    ensures ToBits(c, 16)[0] == (c % 2 == 1)
  {
  }

  lemma ShiftedWord(c: nat, b: bool)
    requires IsWord(c)
    ensures IsWord(Shift(Xor(c, Bit(b))))
  {
    Sixteen();
    XorBound(c, Bit(b), 16);
    ShiftWord(Xor(c, Bit(b)));
  }

  lemma UnfoldOnce(c: nat, bits: seq<bool>, d: seq<bool>)
    requires bits != [] && |d| > 16
    ensures Serial(c, bits) == Serial(Shift(Xor(c, Bit(bits[0]))), bits[1..])
    ensures Remainder(d) == Remainder((if d[0] then Plus(d, DIVISOR) else d)[1..])
  {
  }

  lemma DividendStep(bits: seq<bool>, own: seq<bool>, next: seq<bool>)
    requires bits != [] && |own| == 16
    requires next == if own[0] != bits[0] then Plus(own[1..] + [false], DIVISOR[1..]) else own[1..] + [false]
    ensures var d := Plus(bits + Repeat(false, 16), own);
            (if d[0] then Plus(d, DIVISOR) else d)[1..] == Plus(bits[1..] + Repeat(false, 16), next)
  {
    hide Plus, Repeat;
    var zeros := Repeat(false, 16);
    var d := Plus(bits + zeros, own);
    var left, right := (if d[0] then Plus(d, DIVISOR) else d)[1..], Plus(bits[1..] + zeros, next);
    forall k | 0 <= k < |left| ensures left[k] == right[k] {
      assert (bits + zeros)[k + 1] == (bits[1..] + zeros)[k];
    }
  }

  // ----- The checksum -----

  /** The checksum's bits, lowest first, are the remainder's coefficients, highest first. */
  lemma CrcIsRemainder(data: seq<Byte>)
    ensures ToBits(Crc(data), 16) == Remainder(Plus(MessageBits(data) + Repeat(false, 16), Repeat(true, 16)))
  {
    RegisterIsSerial(INITIAL, data);
    PresetBits();
    hide Serial, Register, Remainder, ToBits, Repeat, MessageBits;
    SerialDivides(INITIAL, MessageBits(data));
  }

  lemma PresetBits()
    ensures IsWord(INITIAL) && ToBits(INITIAL, 16) == Repeat(true, 16)
  {
    OnesBits(16);
    Sixteen();
  }

  lemma {:induction false} OnesBits(n: nat)
    ensures ToBits(Pow2(n) - 1, n) == Repeat(true, n)
  {
    if n > 0 {
      OnesBits(n - 1);
      assert (Pow2(n) - 1) % 2 == 1 && (Pow2(n) - 1) / 2 == Pow2(n - 1) - 1;
    }
  }
}
