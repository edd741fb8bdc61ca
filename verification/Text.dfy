/** The parts of Python's string methods the runtime relies on. */
module Text {
  /** Characters `str.strip` removes. */
  predicate IsSpace(c: char) {
    var n := c as int;
    || 9 <= n <= 13
    || 28 <= n <= 32
    || n == 0x85 || n == 0xA0 || n == 0x1680
    || 0x2000 <= n <= 0x200A
    || n == 0x2028 || n == 0x2029 || n == 0x202F || n == 0x205F || n == 0x3000
  }

  function StripLeft(s: string): (r: string)
    ensures |r| <= |s| && r == s[|s| - |r|..]
    ensures r != [] ==> !IsSpace(r[0])
    ensures forall k :: 0 <= k < |s| - |r| ==> IsSpace(s[k])
  {
    if s != [] && IsSpace(s[0]) then StripLeft(s[1..]) else s
  }

  function StripRight(s: string): (r: string)
    ensures |r| <= |s| && r == s[..|r|]
    ensures r != [] ==> !IsSpace(r[|r| - 1])
    ensures forall k :: |r| <= k < |s| ==> IsSpace(s[k])
  {
    if s != [] && IsSpace(s[|s| - 1]) then StripRight(s[..|s| - 1]) else s
  }

  function Strip(s: string): string {
    StripRight(StripLeft(s))
  }

  /** Stripping takes white space from both ends, all of it and nothing else. */
  lemma StripExact(s: string) returns (left: string, right: string)
    ensures s == left + Strip(s) + right
    ensures forall k :: 0 <= k < |left| ==> IsSpace(left[k])
    ensures forall k :: 0 <= k < |right| ==> IsSpace(right[k])
    ensures Strip(s) != [] ==> !IsSpace(Strip(s)[0]) && !IsSpace(Strip(s)[|Strip(s)| - 1])
  {
    hide IsSpace, StripLeft, StripRight;
    var body := StripLeft(s);
    left := s[..|s| - |body|];
    right := body[|Strip(s)|..];
    assert body == Strip(s) + right && s == left + body;
  }

  // ----- What stripping cannot remove -----

  /** How many characters of a text are not white space. */
  function Ink(s: string): (n: nat)
    ensures n <= |s|
  {
    if s == [] then 0 else (if IsSpace(s[0]) then 0 else 1) + Ink(s[1..])
  }

  lemma {:induction false} InkAppend(a: string, b: string)
    ensures Ink(a + b) == Ink(a) + Ink(b)
  {
    if a == [] {
      assert a + b == b;
    } else {
      hide IsSpace;
      assert (a + b)[1..] == a[1..] + b;
      InkAppend(a[1..], b);
    }
  }

  lemma {:induction false} InkBlank(s: string)
    requires forall k :: 0 <= k < |s| ==> IsSpace(s[k])
    ensures Ink(s) == 0
  {
    if s != [] {
      InkBlank(s[1..]);
    }
  }

  lemma InkStrip(s: string)
    ensures Ink(Strip(s)) == Ink(s) && |Strip(s)| <= |s|
  {
    hide Ink, IsSpace, StripLeft, StripRight;
    InkLeft(s);
    InkRight(StripLeft(s));
  }

  lemma InkLeft(s: string)
    ensures Ink(StripLeft(s)) == Ink(s)
  {
    hide Ink, IsSpace, StripLeft;
    var gone := |s| - |StripLeft(s)|;
    InkBlank(s[..gone]);
    InkAppend(s[..gone], s[gone..]);
    assert s == s[..gone] + s[gone..];
  }

  lemma InkRight(s: string)
    ensures Ink(StripRight(s)) == Ink(s)
  {
    hide Ink, IsSpace, StripRight;
    var kept := |StripRight(s)|;
    InkBlank(s[kept..]);
    InkAppend(s[..kept], s[kept..]);
    assert s == s[..kept] + s[kept..];
  }

  /** Whether every character is an ASCII decimal digit, and there is one. */
  predicate IsDecimal(s: string) {
    s != [] && forall k :: 0 <= k < |s| ==> '0' <= s[k] <= '9'
  }

  function Decimal(s: string): nat
    requires forall k :: 0 <= k < |s| ==> '0' <= s[k] <= '9'
  {
    if s == [] then 0 else 10 * Decimal(s[..|s| - 1]) + (s[|s| - 1] as int - '0' as int)
  }

  /** The decimal text of a number. */
  function DecimalText(n: nat): (s: string)
    ensures IsDecimal(s)
  {
    var last := ['0' + (n % 10) as char];
    if n < 10 then last else DecimalText(n / 10) + last
  }

  lemma {:induction false} DecimalReads(n: nat)
    ensures Decimal(DecimalText(n)) == n
  {
    var s := DecimalText(n);
    assert s[|s| - 1] as int - '0' as int == n % 10;
    if n >= 10 {
      assert s[..|s| - 1] == DecimalText(n / 10);
      DecimalReads(n / 10);
    }
  }

  /** A text with no white space at either end is its own stripping, whatever white space
      is put around it. */
  lemma StripAround(left: string, s: string, right: string)
    requires s != [] && !IsSpace(s[0]) && !IsSpace(s[|s| - 1])
    requires forall k :: 0 <= k < |left| ==> IsSpace(left[k])
    requires forall k :: 0 <= k < |right| ==> IsSpace(right[k])
    ensures Strip(left + s + right) == s
  {
    StripLeftOf(left, s + right);
    assert left + s + right == left + (s + right);
    StripRightOf(s, right);
  }

  lemma {:induction false} StripLeftOf(left: string, s: string)
    requires s != [] && !IsSpace(s[0]) && forall k :: 0 <= k < |left| ==> IsSpace(left[k])
    ensures StripLeft(left + s) == s
  {
    if left == [] {
      assert left + s == s;
    } else {
      assert (left + s)[1..] == left[1..] + s;
      StripLeftOf(left[1..], s);
    }
  }

  lemma {:induction false} StripRightOf(s: string, right: string)
    requires s != [] && !IsSpace(s[|s| - 1]) && forall k :: 0 <= k < |right| ==> IsSpace(right[k])
    ensures StripRight(s + right) == s
    decreases |right|
  {
    if right == [] {
      assert s + right == s;
    } else {
      assert (s + right)[..|s + right| - 1] == s + right[..|right| - 1];
      StripRightOf(s, right[..|right| - 1]);
    }
  }
}
