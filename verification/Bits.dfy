/** Exclusive-or on natural numbers, as Python's `^` computes it, and words as bit lists. */
module Bits {

  type Byte = b: nat | b < 256

  function Pow256(n: nat): nat {
    if n == 0 then 1 else 256 * Pow256(n - 1)
  }

  function Pow2(n: nat): (p: nat)
    ensures p > 0
  {
    if n == 0 then 1 else 2 * Pow2(n - 1)
  }

  function Xor(a: nat, b: nat): nat
    decreases a + b
  {
    if a == 0 && b == 0 then 0 else (a + b) % 2 + 2 * Xor(a / 2, b / 2)
  }

  lemma {:induction false} XorHalves(a: nat, b: nat)
    ensures Xor(a, b) % 2 == (a + b) % 2
    ensures Xor(a, b) / 2 == Xor(a / 2, b / 2)
  {
    var low, high := (a + b) % 2, Xor(a / 2, b / 2);
    assert Xor(a, b) == low + 2 * high;
  }

  lemma ParityAdds(sum: nat, a: nat, b: nat, c: nat)
    requires sum % 2 == (a + b) % 2
    ensures (sum + c) % 2 == (a + b + c) % 2
  {
  }

  lemma SameHalves(a: nat, b: nat)
    requires a % 2 == b % 2 && a / 2 == b / 2
    ensures a == b
  {
  }

  lemma {:induction false} XorEven(a: nat, b: nat)
    ensures Xor(a, 2 * b) % 2 == a % 2
    ensures Xor(a, 2 * b) / 2 == Xor(a / 2, b)
  {
    var even := 2 * b;
    XorHalves(a, even);
    assert even / 2 == b && (a + even) % 2 == a % 2;
  }

  lemma {:induction false} XorZero(a: nat)
    ensures Xor(a, 0) == a == Xor(0, a)
  {
    if a != 0 {
      XorZero(a / 2);
    }
  }

  lemma {:induction false} XorCommutes(a: nat, b: nat)
    ensures Xor(a, b) == Xor(b, a)
    decreases a + b
  {
    if a != 0 || b != 0 {
      XorCommutes(a / 2, b / 2);
    }
  }

  lemma {:induction false} XorAssociates(a: nat, b: nat, c: nat)
    ensures Xor(Xor(a, b), c) == Xor(a, Xor(b, c))
    decreases a + b + c
  {
    if a != 0 || b != 0 || c != 0 {
      XorHalves(a, b);
      XorHalves(b, c);
      XorAssociates(a / 2, b / 2, c / 2);
      var ab, bc := Xor(a, b), Xor(b, c);
      XorHalves(ab, c);
      XorHalves(a, bc);
      assert (ab + c) % 2 == (a + bc) % 2 by { ParityAdds(ab, a, b, c); ParityAdds(bc, b, c, a); }
      SameHalves(Xor(ab, c), Xor(a, bc));
    }
  }

  lemma {:induction false} XorSelf(a: nat)
    ensures Xor(a, a) == 0
  {
    if a != 0 {
      XorSelf(a / 2);
    }
  }

  lemma XorCancels(a: nat, b: nat, c: nat)
    requires Xor(a, c) == Xor(b, c)
    ensures a == b
  {
    XorAssociates(a, c, c);
    XorAssociates(b, c, c);
    XorSelf(c);
    XorZero(a);
    XorZero(b);
  }

  lemma {:induction false} XorBound(a: nat, b: nat, n: nat)
    requires a < Pow2(n) && b < Pow2(n)
    ensures Xor(a, b) < Pow2(n)
    decreases n
  {
    if n > 0 {
      XorBound(a / 2, b / 2, n - 1);
    }
  }

  /** The highest bit of one operand alone stays the highest bit. */
  lemma {:induction false} XorTop(a: nat, b: nat, n: nat)
    requires a < Pow2(n) <= b < Pow2(n + 1)
    ensures Pow2(n) <= Xor(a, b)
    decreases n
  {
    if n > 0 {
      XorTop(a / 2, b / 2, n - 1);
    }
  }

  // ----- Words as bit lists, lowest bit first -----

  function Bit(b: bool): nat {
    if b then 1 else 0
  }

  function ToBits(word: nat, n: nat): (bits: seq<bool>)
    ensures |bits| == n
  {
    if n == 0 then [] else [word % 2 == 1] + ToBits(word / 2, n - 1)
  }

  function Pack(bits: seq<bool>): (word: nat)
    ensures word < Pow2(|bits|)
  {
    if bits == [] then 0 else Bit(bits[0]) + 2 * Pack(bits[1..])
  }

  lemma {:induction false} PackToBits(word: nat, n: nat)
    requires word < Pow2(n)
    ensures Pack(ToBits(word, n)) == word
  {
    if n > 0 {
      PackToBits(word / 2, n - 1);
      assert ToBits(word, n)[1..] == ToBits(word / 2, n - 1);
    }
  }

  lemma {:induction false} PackInjective(a: seq<bool>, b: seq<bool>)
    requires |a| == |b| && Pack(a) == Pack(b)
    ensures a == b
  {
    if a != [] {
      PackInjective(a[1..], b[1..]);
      assert a == [a[0]] + a[1..] && b == [b[0]] + b[1..];
    }
  }

  /** `word << n`. */
  function ShiftLeft(word: nat, n: nat): nat {
    if n == 0 then word else 2 * ShiftLeft(word, n - 1)
  }

  lemma {:induction false} PackAppend(a: seq<bool>, b: seq<bool>)
    ensures Pack(a + b) == Pack(a) + ShiftLeft(Pack(b), |a|)
  {
    if a == [] {
      assert a + b == b;
    } else {
      assert (a + b)[1..] == a[1..] + b;
      PackAppend(a[1..], b);
    }
  }

  lemma ShiftLeft8(word: nat)
    ensures ShiftLeft(word, 8) == 256 * word
  {
    assert ShiftLeft(word, 1) == 2 * word;
    assert ShiftLeft(word, 2) == 4 * word;
    assert ShiftLeft(word, 3) == 8 * word;
    assert ShiftLeft(word, 4) == 16 * word;
    assert ShiftLeft(word, 5) == 32 * word;
    assert ShiftLeft(word, 6) == 64 * word;
    assert ShiftLeft(word, 7) == 128 * word;
  }

  /** Adding a bit below a shifted word disturbs no bit of it. */
  lemma XorLowBit(b: bool, word: nat)
    ensures Xor(Bit(b), 2 * word) == Bit(b) + 2 * word
  {
    XorZero(word);
    XorEven(Bit(b), word);
    assert Bit(b) / 2 == 0;
  }

  // ----- Masking -----

  function And(a: nat, b: nat): nat
    decreases a + b
  {
    if a == 0 || b == 0 then 0 else (a % 2) * (b % 2) + 2 * And(a / 2, b / 2)
  }

  /** `a | 1`. */
  function WithLowBit(a: nat): nat {
    a - a % 2 + 1
  }

  lemma {:induction false} AndSelf(a: nat)
    ensures And(a, a) == a
  {
    if a != 0 {
      AndSelf(a / 2);
    }
  }

  lemma {:induction false} AndLowBit(a: nat, b: nat)
    ensures And(a, WithLowBit(b)) == if a % 2 == 1 && b % 2 == 0 then And(a, b) + 1 else And(a, b)
  {
    var w := WithLowBit(b);
    assert w % 2 == 1 && w / 2 == b / 2;
    if b == 0 {
      AndZero(a / 2);
    }
  }

  lemma {:induction false} AndOne(a: nat)
    ensures And(1, a) == a % 2
  {
    AndZero(a / 2);
  }

  lemma AndZero(a: nat)
    ensures And(a, 0) == 0 == And(0, a)
  {
  }

  lemma {:induction false} AndParity(a: nat, b: nat)
    ensures And(a, b) % 2 == (a % 2) * (b % 2)
  {
  }

  lemma {:induction false} AndCommutes(a: nat, b: nat)
    ensures And(a, b) == And(b, a)
    decreases a + b
  {
    if a != 0 && b != 0 {
      AndCommutes(a / 2, b / 2);
    }
  }

  /** What `a` covers, `a | 1` covers. */
  lemma AndCovered(a: nat, b: nat)
    requires And(a, b) == b
    ensures And(WithLowBit(a), b) == b
  {
    AndCommutes(a, b);
    AndCommutes(WithLowBit(a), b);
    AndLowBit(b, a);
    AndParity(b, a);
  }

  lemma {:induction false} AndBothLowBits(a: nat, b: nat)
    ensures And(WithLowBit(a), WithLowBit(b)) == WithLowBit(And(a, b))
  {
    AndLowBit(WithLowBit(a), b);
    AndCommutes(WithLowBit(a), b);
    AndLowBit(b, a);
    AndCommutes(a, b);
    AndParity(a, b);
  }
}
