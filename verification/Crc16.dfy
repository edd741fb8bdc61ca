/** CRC-16/Modbus (MODBUS over Serial Line V1.02, section 6.2.2) and the frame
    builder, as scripts/pzem_socket_sim.py computes them.

    `Crc` is the byte-at-a-time register the script updates.  `Serial` is the
    shift register the standard describes, fed one bit at a time, lowest bit
    first.  They are proved equal, and the error-detection theorems are proved
    on the bits.
  */
module Crc16 {
  import opened Bits

  const INITIAL: nat := 0xFFFF
  const POLYNOMIAL: nat := 0xA001

  // ----- The checksum -----

  /** One shift of the register through the reflected polynomial. */
  function Shift(crc: nat): nat {
    if crc % 2 == 1 then Xor(crc / 2, POLYNOMIAL) else crc / 2
  }

  function Shifts(crc: nat, n: nat): nat
    decreases n
  {
    if n == 0 then crc else Shifts(Shift(crc), n - 1)
  }

  /** The register after `data`, started from `crc`. */
  function Register(crc: nat, data: seq<Byte>): nat {
    if data == [] then crc
    else Shifts(Xor(Register(crc, data[..|data| - 1]), data[|data| - 1]), 8)
  }

  function Crc(data: seq<Byte>): nat {
    Register(INITIAL, data)
  }

  /** The script's nested loop. */
  method ComputeCrc(data: seq<Byte>) returns (crc: nat)
    ensures crc == Crc(data)
  {
    hide Xor;
    crc := INITIAL;
    for i := 0 to |data|
      invariant crc == Crc(data[..i])
    {
      assert data[..i + 1][..i] == data[..i];
      crc := Xor(crc, data[i]);
      ghost var folded := crc;
      for k := 0 to 8
        invariant Shifts(crc, 8 - k) == Shifts(folded, 8)
      {
        ghost var before := crc;
        if crc % 2 == 1 {
          crc := Xor(crc / 2, POLYNOMIAL);
        } else {
          crc := crc / 2;
        }
        assert crc == Shift(before);
      }
    }
    assert data[..|data|] == data;
  }

  // ----- The bit-serial register -----

  /** The message as the line carries it, lowest bit of each byte first. */
  function MessageBits(data: seq<Byte>): (bits: seq<bool>)
    ensures |bits| == 8 * |data|
  {
    if data == [] then [] else MessageBits(data[..|data| - 1]) + ToBits(data[|data| - 1], 8)
  }

  /** One bit enters, one shift follows. */
  function Serial(crc: nat, bits: seq<bool>): nat
    decreases |bits|
  {
    if bits == [] then crc else Serial(Shift(Xor(crc, Bit(bits[0]))), bits[1..])
  }

  lemma {:induction false} SerialAppend(crc: nat, a: seq<bool>, b: seq<bool>)
    ensures Serial(crc, a + b) == Serial(Serial(crc, a), b)
    decreases |a|
  {
    if a == [] {
      assert a + b == b;
    } else {
      assert (a + b)[1..] == a[1..] + b;
      SerialAppend(Shift(Xor(crc, Bit(a[0]))), a[1..], b);
    }
  }

  /** A word folded in above the lowest bit comes through one shift halved. */
  lemma ShiftOfEven(c: nat, word: nat)
    ensures Shift(Xor(c, 2 * word)) == Xor(Shift(c), word)
  {
    XorEven(c, word);
    FoldOrder(c / 2, word);
  }

  lemma FoldOrder(half: nat, word: nat)
    ensures Xor(Xor(half, word), POLYNOMIAL) == Xor(Xor(half, POLYNOMIAL), word)
  {
    XorAssociates(half, word, POLYNOMIAL);
    XorCommutes(word, POLYNOMIAL);
    XorAssociates(half, POLYNOMIAL, word);
  }

  lemma SerialStep(crc: nat, b: bool, word: nat)
    ensures Shift(Xor(crc, Bit(b) + 2 * word)) == Xor(Shift(Xor(crc, Bit(b))), word)
  {
    XorLowBit(b, word);
    XorAssociates(crc, Bit(b), 2 * word);
    ShiftOfEven(Xor(crc, Bit(b)), word);
  }

  /** Feeding bits one at a time is folding them all in at once and shifting. */
  lemma {:induction false} SerialPack(crc: nat, bits: seq<bool>)
    ensures Serial(crc, bits) == Shifts(Xor(crc, Pack(bits)), |bits|)
    decreases |bits|
  {
    hide Xor, Shift;
    if bits == [] {
      XorZero(crc);
    } else {
      SerialStep(crc, bits[0], Pack(bits[1..]));
      SerialPack(Shift(Xor(crc, Bit(bits[0]))), bits[1..]);
    }
  }

  /** The byte loop is the standard's shift register. */
  lemma {:induction false} RegisterIsSerial(crc: nat, data: seq<Byte>)
    ensures Register(crc, data) == Serial(crc, MessageBits(data))
  {
    if data != [] {
      var front, last := data[..|data| - 1], data[|data| - 1];
      RegisterIsSerial(crc, front);
      SerialAppend(crc, MessageBits(front), ToBits(last, 8));
      SerialPack(Register(crc, front), ToBits(last, 8));
      assert Pow2(8) == 256;
      PackToBits(last, 8);
    }
  }

  // ----- The register loses nothing -----

  predicate IsWord(w: nat) {
    w < Pow2(16)
  }

  lemma Sixteen()
    ensures Pow2(15) == 0x8000 && Pow2(16) == 0x10000
  {
    assert Pow2(8) == 256;
    assert Pow2(12) == 4096;
  }

  lemma ShiftWord(crc: nat)
    requires IsWord(crc)
    ensures IsWord(Shift(crc))
  {
    Sixteen();
    XorBound(crc / 2, POLYNOMIAL, 16);
  }

  /** The bit that falls out is the top bit of what remains. */
  lemma ShiftInjective(a: nat, b: nat)
    requires IsWord(a) && IsWord(b) && Shift(a) == Shift(b)
    ensures a == b
  {
    Sixteen();
    XorTop(a / 2, POLYNOMIAL, 15);
    XorTop(b / 2, POLYNOMIAL, 15);
    if a % 2 == 1 && b % 2 == 1 {
      XorCancels(a / 2, b / 2, POLYNOMIAL);
    }
  }

  lemma {:induction false} ShiftsInjective(a: nat, b: nat, n: nat)
    requires IsWord(a) && IsWord(b) && Shifts(a, n) == Shifts(b, n)
    ensures a == b
    decreases n
  {
    if n > 0 {
      ShiftWord(a);
      ShiftWord(b);
      ShiftsInjective(Shift(a), Shift(b), n - 1);
      ShiftInjective(a, b);
    }
  }

  lemma {:induction false} SerialWord(crc: nat, bits: seq<bool>)
    requires IsWord(crc)
    ensures IsWord(Serial(crc, bits))
    decreases |bits|
  {
    if bits != [] {
      Sixteen();
      XorBound(crc, Bit(bits[0]), 16);
      ShiftWord(Xor(crc, Bit(bits[0])));
      SerialWord(Shift(Xor(crc, Bit(bits[0]))), bits[1..]);
    }
  }

  /** Different registers stay different whatever common bits follow. */
  lemma {:induction false} SerialInjective(a: nat, b: nat, bits: seq<bool>)
    requires IsWord(a) && IsWord(b) && Serial(a, bits) == Serial(b, bits)
    ensures a == b
    decreases |bits|
  {
    if bits != [] {
      var bit := Bit(bits[0]);
      Sixteen();
      XorBound(a, bit, 16);
      XorBound(b, bit, 16);
      ShiftWord(Xor(a, bit));
      ShiftWord(Xor(b, bit));
      SerialInjective(Shift(Xor(a, bit)), Shift(Xor(b, bit)), bits[1..]);
      ShiftInjective(Xor(a, bit), Xor(b, bit));
      XorCancels(a, b, bit);
    }
  }

  // ----- Error detection -----

  lemma {:induction false} ToBitsInjective(a: nat, b: nat, n: nat)
    requires a < Pow2(n) && b < Pow2(n) && ToBits(a, n) == ToBits(b, n)
    ensures a == b
  {
    PackToBits(a, n);
    PackToBits(b, n);
  }

  lemma {:induction false} MessageBitsInjective(x: seq<Byte>, y: seq<Byte>)
    requires |x| == |y| && MessageBits(x) == MessageBits(y)
    ensures x == y
  {
    if x != [] {
      var n := |x| - 1;
      var fx, fy := MessageBits(x[..n]), MessageBits(y[..n]);
      assert MessageBits(x)[..8 * n] == fx && MessageBits(y)[..8 * n] == fy;
      assert MessageBits(x)[8 * n..] == ToBits(x[n], 8) && MessageBits(y)[8 * n..] == ToBits(y[n], 8);
      MessageBitsInjective(x[..n], y[..n]);
      assert Pow2(8) == 256;
      ToBitsInjective(x[n], y[n], 8);
      assert x == x[..n] + [x[n]] && y == y[..n] + [y[n]];
    }
  }

  /** The two messages agree on every bit outside sixteen consecutive ones. */
  ghost predicate BurstAt(x: seq<Byte>, y: seq<Byte>, start: nat) {
    && |x| == |y|
    && forall k :: 0 <= k < 8 * |x| && !(start <= k < start + 16) ==> MessageBits(x)[k] == MessageBits(y)[k]
  }

  /** A corruption confined to sixteen consecutive bits is always detected. */
  lemma BurstDetected(x: seq<Byte>, y: seq<Byte>, start: nat)
    requires BurstAt(x, y, start) && x != y
    ensures Crc(x) != Crc(y)
  {
    hide MessageBits, Serial, Register;
    var xs, ys := MessageBits(x), MessageBits(y);
    var i := if start <= |xs| then start else |xs|;
    var j := if start + 16 <= |xs| then start + 16 else |xs|;
    assert xs[..i] == ys[..i] && xs[j..] == ys[j..];
    assert xs == xs[..i] + (xs[i..j] + xs[j..]) && ys == xs[..i] + (ys[i..j] + xs[j..]);
    RegisterIsSerial(INITIAL, x);
    RegisterIsSerial(INITIAL, y);
    if Crc(x) == Crc(y) {
      SerialDiffers(xs[..i], xs[i..j], ys[i..j], xs[j..]);
      MessageBitsInjective(x, y);
    }
  }

  /** Bit streams differing in one short stretch leave the register different. */
  lemma SerialDiffers(before: seq<bool>, u: seq<bool>, v: seq<bool>, rest: seq<bool>)
    requires |u| == |v| <= 16
    requires Serial(INITIAL, before + (u + rest)) == Serial(INITIAL, before + (v + rest))
    ensures u == v
  {
    var c := Serial(INITIAL, before);
    SerialAppend(INITIAL, before, u + rest);
    SerialAppend(INITIAL, before, v + rest);
    SerialAppend(c, u, rest);
    SerialAppend(c, v, rest);
    Sixteen();
    SerialWord(INITIAL, before);
    SerialWord(c, u);
    SerialWord(c, v);
    SerialInjective(Serial(c, u), Serial(c, v), rest);
    ShortStretchInjective(c, u, v);
  }

  lemma {:induction false} Pow2Monotonic(m: nat, n: nat)
    requires m <= n
    ensures Pow2(m) <= Pow2(n)
  {
    if m < n {
      Pow2Monotonic(m, n - 1);
    }
  }

  /** From one register, different stretches of up to sixteen bits end differently. */
  lemma ShortStretchInjective(c: nat, u: seq<bool>, v: seq<bool>)
    requires IsWord(c) && |u| == |v| <= 16 && Serial(c, u) == Serial(c, v)
    ensures u == v
  {
    SerialPack(c, u);
    SerialPack(c, v);
    Pow2Monotonic(|u|, 16);
    XorBound(c, Pack(u), 16);
    XorBound(c, Pack(v), 16);
    ShiftsInjective(Xor(c, Pack(u)), Xor(c, Pack(v)), |u|);
    XorCommutes(c, Pack(u));
    XorCommutes(c, Pack(v));
    XorCancels(Pack(u), Pack(v), c);
    PackInjective(u, v);
  }

  lemma {:induction false} BitOfByte(data: seq<Byte>, k: nat)
    requires k < 8 * |data|
    ensures MessageBits(data)[k] == ToBits(data[k / 8], 8)[k % 8]
  {
    var n := |data| - 1;
    if k < 8 * n {
      BitOfByte(data[..n], k);
    }
  }

  /** In particular a change to one byte, or to two adjacent ones, is detected. */
  lemma AdjacentBytesDetected(x: seq<Byte>, y: seq<Byte>, i: nat)
    requires |x| == |y| && x != y
    requires forall k :: 0 <= k < |x| && k != i && k != i + 1 ==> x[k] == y[k]
    ensures Crc(x) != Crc(y)
  {
    forall k | 0 <= k < 8 * |x| && !(8 * i <= k < 8 * i + 16)
      ensures MessageBits(x)[k] == MessageBits(y)[k]
    {
      BitOfByte(x, k);
      BitOfByte(y, k);
    }
    BurstDetected(x, y, 8 * i);
  }

  // ----- Odd numbers of errors -----

  /** Whether an odd number of bits of `n` are set. */
  predicate Odd(n: nat) {
    n != 0 && (n % 2 == 1) != Odd(n / 2)
  }

  predicate OddOnes(bits: seq<bool>) {
    bits != [] && bits[0] != OddOnes(bits[1..])
  }

  /** In how many places two streams of one length differ. */
  function Differing(a: seq<bool>, b: seq<bool>): nat
    requires |a| == |b|
  {
    if a == [] then 0 else (if a[0] != b[0] then 1 else 0) + Differing(a[1..], b[1..])
  }

  lemma {:induction false} OddXor(a: nat, b: nat)
    ensures Odd(Xor(a, b)) == (Odd(a) != Odd(b))
    decreases a + b
  {
    hide Odd, Xor;
    OddUnfolds(a);
    OddUnfolds(b);
    OddUnfolds(Xor(a, b));
    XorHalves(a, b);
    OddSum(a, b);
    if a > 0 || b > 0 {
      OddXor(a / 2, b / 2);
    } else {
      XorZero(a);
    }
  }

  lemma OddSum(a: nat, b: nat)
    ensures ((a + b) % 2 == 1) == ((a % 2 == 1) != (b % 2 == 1))
  {
  }

  lemma {:induction false} OddUnfolds(n: nat)
    ensures Odd(n) == ((n % 2 == 1) != Odd(n / 2))
    ensures n == 0 ==> !Odd(n)
  {
  }

  /** The polynomial has three terms below its top one. */
  lemma OddPolynomial()
    ensures Odd(POLYNOMIAL)
  {
    assert !Odd(5);
    assert Odd(40) == Odd(20) == Odd(10) == Odd(5);
    assert Odd(320) == Odd(160) == Odd(80) == Odd(40);
    assert Odd(2560) == Odd(1280) == Odd(640) == Odd(320);
    assert Odd(20480) == Odd(10240) == Odd(5120) == Odd(2560);
  }

  /** The bit that falls out and the three folded in leave the parity as it was. */
  lemma ShiftKeepsParity(c: nat)
    ensures Odd(Shift(c)) == Odd(c)
  {
    hide Xor, Odd;
    OddUnfolds(c);
    OddXor(c / 2, POLYNOMIAL);
    OddPolynomial();
  }

  lemma {:induction false} SerialParity(crc: nat, bits: seq<bool>)
    ensures Odd(Serial(crc, bits)) == (Odd(crc) != OddOnes(bits))
    decreases |bits|
  {
    hide Xor, Shift, Odd;
    if bits != [] {
      var folded := Xor(crc, Bit(bits[0]));
      SerialParity(Shift(folded), bits[1..]);
      ShiftKeepsParity(folded);
      OddXor(crc, Bit(bits[0]));
      OddBit(bits[0]);
    }
  }

  lemma OddBit(b: bool)
    ensures Odd(Bit(b)) == b
  {
  }

  lemma {:induction false} DifferingParity(a: seq<bool>, b: seq<bool>)
    requires |a| == |b|
    ensures (Differing(a, b) % 2 == 1) == (OddOnes(a) != OddOnes(b))
  {
    if a != [] {
      DifferingParity(a[1..], b[1..]);
    }
  }

  /** Any odd number of wrong bits, however far apart, is always detected. */
  lemma OddErrorsDetected(x: seq<Byte>, y: seq<Byte>)
    requires |x| == |y| && Differing(MessageBits(x), MessageBits(y)) % 2 == 1
    ensures Crc(x) != Crc(y)
  {
    hide MessageBits, Serial, Register, OddOnes, Odd, Differing;
    RegisterIsSerial(INITIAL, x);
    RegisterIsSerial(INITIAL, y);
    SerialParity(INITIAL, MessageBits(x));
    SerialParity(INITIAL, MessageBits(y));
    DifferingParity(MessageBits(x), MessageBits(y));
  }

  // ----- The trailer -----

  function Trailer(word: nat): seq<Byte>
    requires IsWord(word)
  {
    Sixteen();
    [word % 256, word / 256]
  }

  lemma ShiftsOfZero(n: nat)
    ensures Shifts(0, n) == 0
    decreases n
  {
  }

  lemma CrcIsWord(data: seq<Byte>)
    ensures IsWord(Crc(data))
  {
    RegisterIsSerial(INITIAL, data);
    Sixteen();
    SerialWord(INITIAL, MessageBits(data));
  }

  /** Two bytes as a sixteen-bit word, the low one first. */
  function LittleEndian(low: nat, high: nat): nat {
    low + 256 * high
  }

  lemma PackTwoBytes(low: Byte, high: Byte)
    ensures Pack(ToBits(low, 8) + ToBits(high, 8)) == LittleEndian(low, high)
  {
    assert Pow2(8) == 256;
    PackToBits(low, 8);
    PackToBits(high, 8);
    PackAppend(ToBits(low, 8), ToBits(high, 8));
    ShiftLeft8(high);
  }

  lemma TwoMoreBits(data: seq<Byte>, low: Byte, high: Byte)
    ensures MessageBits(data + [low, high]) == MessageBits(data) + (ToBits(low, 8) + ToBits(high, 8))
  {
    var all := data + [low, high];
    assert all[..|all| - 1] == data + [low];
    assert (data + [low])[..|data|] == data;
    assert MessageBits(data + [low]) == MessageBits(data) + ToBits(low, 8);
  }

  /** Two further bytes are a sixteen-bit word folded in and shifted through. */
  lemma TwoMoreBytes(data: seq<Byte>, low: Byte, high: Byte)
    ensures Crc(data + [low, high]) == Shifts(Xor(Crc(data), LittleEndian(low, high)), 16)
  {
    var both := ToBits(low, 8) + ToBits(high, 8);
    TwoMoreBits(data, low, high);
    RegisterIsSerial(INITIAL, data);
    RegisterIsSerial(INITIAL, data + [low, high]);
    SerialAppend(INITIAL, MessageBits(data), both);
    PackTwoBytes(low, high);
    SerialPack(Crc(data), both);
  }

  /** A message followed by two bytes checks to zero exactly when they are its
      checksum, low byte first. */
  lemma ResidueIsZero(data: seq<Byte>, low: Byte, high: Byte)
    ensures Crc(data + [low, high]) == 0 <==> LittleEndian(low, high) == Crc(data)
  {
    var c, word := Crc(data), LittleEndian(low, high);
    TwoMoreBytes(data, low, high);
    CrcIsWord(data);
    Sixteen();
    XorBound(c, word, 16);
    ShiftsOfZero(16);
    XorSelf(c);
    if Shifts(Xor(c, word), 16) == 0 {
      ShiftsInjective(Xor(c, word), 0, 16);
      XorCommutes(c, word);
      XorCancels(word, c, c);
    }
  }
}
