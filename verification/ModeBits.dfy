/** The nine permission bits of a mode, by their positions. */
module ModeBits {
  import opened Bits

  datatype Class = Owner | Group | Other

  /** Each bit of `want` (read 4, write 2, search or execute 1) is set for the class. */
  predicate Allows(mode: nat, cls: Class, want: nat) {
    && want < 8
    && match cls
       case Owner =>
         && (want / 4 == 1 ==> mode / 256 % 2 == 1)
         && (want / 2 % 2 == 1 ==> mode / 128 % 2 == 1)
         && (want % 2 == 1 ==> mode / 64 % 2 == 1)
       case Group =>
         && (want / 4 == 1 ==> mode / 32 % 2 == 1)
         && (want / 2 % 2 == 1 ==> mode / 16 % 2 == 1)
         && (want % 2 == 1 ==> mode / 8 % 2 == 1)
       case Other =>
         && (want / 4 == 1 ==> mode / 4 % 2 == 1)
         && (want / 2 % 2 == 1 ==> mode / 2 % 2 == 1)
         && (want % 2 == 1 ==> mode % 2 == 1)
  }

  /** Masking with one octal digit, bit by bit. */
  lemma AndOctal(digit: nat, want: nat)
    requires digit < 8
    ensures And(digit, want) == want
            <==> && want < 8
                 && (want / 4 == 1 ==> digit / 4 == 1)
                 && (want / 2 % 2 == 1 ==> digit / 2 % 2 == 1)
                 && (want % 2 == 1 ==> digit % 2 == 1)
  {
    AndHalves(digit, want);
    AndHalves(digit / 2, want / 2);
    AndHalves(digit / 4, want / 4);
    assert digit / 2 / 2 == digit / 4 && want / 2 / 2 == want / 4 && digit / 4 / 2 == 0;
    AndZero(want / 4 / 2);
    hide And;
  }

  lemma {:induction false} AndHalves(a: nat, b: nat)
    ensures And(a, b) == (a % 2) * (b % 2) + 2 * And(a / 2, b / 2)
    ensures And(a, b) == b <==> (a % 2) * (b % 2) == b % 2 && And(a / 2, b / 2) == b / 2
  {
    if a == 0 || b == 0 {
      assert 0 / 2 == 0 && 0 % 2 == 0;
      AndZero(a / 2);
      AndZero(b / 2);
    }
    BitTimesBit(a % 2, b % 2);
    SameHalvesOnly((a % 2) * (b % 2), And(a / 2, b / 2), b);
  }

  lemma BitTimesBit(p: nat, q: nat)
    requires p < 2 && q < 2
    ensures 0 <= p * q < 2
  {
  }

  lemma SameHalvesOnly(low: nat, high: nat, b: nat)
    requires low < 2
    ensures low + 2 * high == b <==> low == b % 2 && high == b / 2
  {
  }

  /** The three bits of the digit that starts at `mode`'s lowest. */
  lemma DigitBits(mode: nat)
    ensures var digit := mode % 8;
            digit < 8 && digit / 4 == mode / 4 % 2 && digit / 2 % 2 == mode / 2 % 2 && digit % 2 == mode % 2
  {
    var high, digit := mode / 8, mode % 8;
    assert mode == 8 * high + digit;
    assert mode / 2 == 4 * high + digit / 2 && mode / 4 == 2 * high + digit / 4;
  }

  /** An octal digit of the mode holds exactly what its class is allowed. */
  lemma DigitAllows(mode: nat, cls: Class, want: nat)
    ensures var digit := match cls case Owner => mode / 64 % 8 case Group => mode / 8 % 8 case Other => mode % 8;
            And(digit, want) == want <==> Allows(mode, cls, want)
  {
    hide And;
    match cls
    case Owner =>
      DigitBits(mode / 64);
      AndOctal(mode / 64 % 8, want);
      assert mode / 64 / 4 == mode / 256 && mode / 64 / 2 == mode / 128;
    case Group =>
      DigitBits(mode / 8);
      AndOctal(mode / 8 % 8, want);
      assert mode / 8 / 4 == mode / 32 && mode / 8 / 2 == mode / 16;
    case Other =>
      DigitBits(mode);
      AndOctal(mode % 8, want);
  }

  /** Masking with one bit is asking for it. */
  lemma AndSingle(a: nat)
    ensures And(a, 1) != 0 <==> a % 2 == 1
    ensures And(a, 2) != 0 <==> a / 2 % 2 == 1
    ensures And(a, 4) != 0 <==> a / 4 % 2 == 1
  {
    assert a / 2 / 2 == a / 4;
    hide And;
    AndUnit(a);
    AndUnit(a / 2);
    AndUnit(a / 4);
    AndHalves(a, 2);
    AndHalves(a / 2, 2);
    AndHalves(a, 4);
  }

  lemma AndUnit(a: nat)
    ensures And(a, 1) == a % 2
  {
    AndOne(a);
    AndCommutes(a, 1);
  }
}
