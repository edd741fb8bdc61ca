/** Substitution of `${NAME}` in one scalar (ori/config/_env.py:9-20 and the
    scalar rule of ori/config/_document.py:111-152). */
module EnvExpansion {
  import opened Options
  import opened Text

  type Env = map<string, string>

  predicate NameStart(c: char) {
    'A' <= c <= 'Z' || 'a' <= c <= 'z' || c == '_'
  }

  predicate NameChar(c: char) {
    NameStart(c) || '0' <= c <= '9'
  }

  predicate IsName(s: string) {
    s != [] && NameStart(s[0]) && forall k :: 0 <= k < |s| ==> NameChar(s[k])
  }

  function Placeholder(name: string): string {
    ['$', '{'] + name + ['}']
  }

  /** How many name characters `s` begins with. */
  function Run(s: string): (n: nat)
    ensures n <= |s|
    ensures forall k :: 0 <= k < n ==> NameChar(s[k])
    ensures n < |s| ==> !NameChar(s[n])
  {
    if s != [] && NameChar(s[0]) then 1 + Run(s[1..]) else 0
  }

  /** The name of the placeholder `s` begins with. */
  function Leading(s: string): (name: Option<string>)
    ensures name.Some? ==> IsName(name.value) && Placeholder(name.value) <= s
  {
    if |s| < 2 || s[0] != '$' || s[1] != '{' then None
    else
      var n := Run(s[2..]);
      if n > 0 && NameStart(s[2]) && 2 + n < |s| && s[2 + n] == '}' then
        assert s[..n + 3] == Placeholder(s[2..2 + n]);
        Some(s[2..2 + n])
      else None
  }

  function ValueOf(env: Env, name: string): string {
    if name in env then env[name] else Placeholder(name)
  }

  function Expand(env: Env, s: string): string
    decreases |s|
  {
    if s == [] then []
    else
      match Leading(s)
      case Some(name) => ValueOf(env, name) + Expand(env, s[|name| + 3..])
      case None => [s[0]] + Expand(env, s[1..])
  }

  /** Every name the scan of `s` finds. */
  function Names(s: string): set<string>
    decreases |s|
  {
    if s == [] then {}
    else
      match Leading(s)
      case Some(name) => {name} + Names(s[|name| + 3..])
      case None => Names(s[1..])
  }

  // ----- The scan -----

  /** The grammar is unambiguous: a text begins with the placeholder of at most one name,
      and the scan finds it. */
  lemma LeadingExact(s: string, name: string)
    ensures Leading(s) == Some(name) <==> IsName(name) && Placeholder(name) <= s
  {
    if IsName(name) && Placeholder(name) <= s {
      var n := |name|;
      assert s[..n + 3] == Placeholder(name);
      assert forall k :: 0 <= k < n ==> s[2..][k] == Placeholder(name)[2 + k] == name[k];
      assert s[2 + n] == Placeholder(name)[2 + n] == '}';
      assert s[0] == Placeholder(name)[0] && s[1] == Placeholder(name)[1];
      assert s[2..][n] == '}';
      RunIs(s[2..], n);
      assert s[2..2 + n] == name;
    }
  }

  lemma RunIs(s: string, n: nat)
    requires n < |s| && !NameChar(s[n])
    requires forall k :: 0 <= k < n ==> NameChar(s[k])
    ensures Run(s) == n
  {
    if Run(s) < n {
      assert false;
    }
  }

  lemma DollarFirst(name: string, k: nat)
    requires IsName(name) && 0 < k < |Placeholder(name)|
    ensures Placeholder(name)[k] != '$'
  {
    assert 2 <= k < |name| + 2 ==> Placeholder(name)[k] == name[k - 2];
  }

  /** No placeholder runs over the dollar sign of another text. */
  lemma LeadingBeforeDollar(s: string, t: string)
    requires s != [] && t != [] && t[0] == '$'
    ensures Leading(s + t) == Leading(s)
  {
    hide Leading;
    match Leading(s + t)
    case Some(name) =>
      LeadingExact(s + t, name);
      var p := Placeholder(name);
      if |s| < |p| {
        DollarFirst(name, |s|);
        assert false;
      }
      LeadingExact(s, name);
    case None =>
      match Leading(s)
      case Some(name) =>
        LeadingExact(s, name);
        LeadingExact(s + t, name);
      case None =>
  }

  // ----- What expansion means -----

  lemma ExpandLeading(env: Env, name: string, rest: string)
    requires IsName(name)
    ensures Expand(env, Placeholder(name) + rest) == ValueOf(env, name) + Expand(env, rest)
    ensures Names(Placeholder(name) + rest) == {name} + Names(rest)
  {
    var s := Placeholder(name) + rest;
    LeadingExact(s, name);
    assert s[|name| + 3..] == rest;
  }

  lemma ExpandOther(env: Env, s: string)
    requires s != [] && Leading(s) == None
    ensures Expand(env, s) == [s[0]] + Expand(env, s[1..])
    ensures Names(s) == Names(s[1..])
  {
  }

  lemma LeadingSplits(s: string) returns (rest: string)
    requires Leading(s).Some?
    ensures s == Placeholder(Leading(s).value) + rest && |rest| < |s|
  {
    rest := s[|Leading(s).value| + 3..];
  }

  lemma Associates(a: string, b: string, c: string)
    ensures (a + b) + c == a + (b + c)
  {
  }

  lemma {:induction false} ExpandBeforeDollar(env: Env, a: string, t: string)
    requires t != [] && t[0] == '$'
    ensures Expand(env, a + t) == Expand(env, a) + Expand(env, t)
    decreases |a|
  {
    if a == [] {
      assert a + t == t;
    } else {
      hide *;
      LeadingBeforeDollar(a, t);
      match Leading(a)
      case Some(other) =>
        var rest := LeadingSplits(a);
        Associates(Placeholder(other), rest, t);
        ExpandLeading(env, other, rest + t);
        ExpandLeading(env, other, rest);
        ExpandBeforeDollar(env, rest, t);
        Associates(ValueOf(env, other), Expand(env, rest), Expand(env, t));
      case None =>
        assert (a + t)[1..] == a[1..] + t;
        ExpandOther(env, a);
        ExpandOther(env, a + t);
        ExpandBeforeDollar(env, a[1..], t);
        Associates([a[0]], Expand(env, a[1..]), Expand(env, t));
    }
  }

  /** One pass: a placeholder anywhere becomes its value, the text around it expands on
      its own, and neither the value nor a join of value and text is scanned again. */
  lemma ExpandAround(env: Env, a: string, name: string, b: string)
    requires IsName(name)
    ensures Expand(env, a + (Placeholder(name) + b))
            == Expand(env, a) + ((if name in env then env[name] else ['$', '{'] + name + ['}']) + Expand(env, b))
  {
    StartsWithDollar(name, b);
    ExpandBeforeDollar(env, a, Placeholder(name) + b);
    ExpandLeading(env, name, b);
  }

  lemma StartsWithDollar(name: string, rest: string)
    ensures var t := Placeholder(name) + rest; t != [] && t[0] == '$'
  {
  }

  predicate Agree(e: Env, f: Env, names: set<string>) {
    forall n :: n in names ==> ValueOf(e, n) == ValueOf(f, n)
  }

  /** Expansion consults nothing but the names found. */
  lemma {:induction false} ExpandAgrees(e: Env, f: Env, s: string)
    requires Agree(e, f, Names(s))
    ensures Expand(e, s) == Expand(f, s)
    decreases |s|
  {
    hide Leading, ValueOf;
    if s != [] {
      match Leading(s)
      case Some(name) => ExpandAgrees(e, f, s[|name| + 3..]);
      case None => ExpandAgrees(e, f, s[1..]);
    }
  }

  /** And it consults every one of them: the whole value of a name found is there in the
      result, what is not white space included. */
  lemma {:induction false} ExpandConsults(env: Env, s: string, name: string, value: string)
    requires name in Names(s)
    ensures |Expand(env[name := value], s)| >= |value|
    ensures Ink(Expand(env[name := value], s)) >= Ink(value)
    decreases |s|
  {
    var e := env[name := value];
    var step := FirstStep(e, s);
    hide *;
    InkAppend(step.0, Expand(e, step.1));
    if Leading(s) != Some(name) {
      ExpandConsults(env, step.1, name, value);
    }
  }

  /** What the scan does first: the text it puts out and the text left to scan. */
  lemma FirstStep(env: Env, s: string) returns (step: (string, string))
    requires s != []
    ensures Expand(env, s) == step.0 + Expand(env, step.1) && |step.1| < |s|
    ensures Leading(s).Some? ==>
              step.0 == ValueOf(env, Leading(s).value) && Names(s) == {Leading(s).value} + Names(step.1)
    ensures Leading(s).Some? ==> |s| == |Placeholder(Leading(s).value)| + |step.1|
    ensures Leading(s).None? ==> Names(s) == Names(step.1) && |step.0| == 1 && |s| == 1 + |step.1|
  {
    match Leading(s)
    case Some(name) =>
      var rest := LeadingSplits(s);
      ExpandLeading(env, name, rest);
      step := (ValueOf(env, name), rest);
    case None =>
      ExpandOther(env, s);
      step := ([s[0]], s[1..]);
  }

  /** Emptying one name makes no text longer. */
  lemma {:induction false} ExpandShrinks(s: string, name: string)
    ensures |Expand(map[name := []], s)| <= |s|
    decreases |s|
  {
    if s != [] {
      var step := FirstStep(map[name := []], s);
      hide Expand, Names, Leading, Placeholder;
      ExpandShrinks(step.1, name);
    }
  }

  /** An environment defining none of the names leaves the text as written. */
  lemma {:induction false} ExpandUndefined(env: Env, s: string)
    requires env.Keys !! Names(s)
    ensures Expand(env, s) == s
    decreases |s|
  {
    if s != [] {
      hide *;
      match Leading(s)
      case Some(name) =>
        var rest := LeadingSplits(s);
        ExpandLeading(env, name, rest);
        assert name in Names(s);
        ExpandUndefined(env, rest);
        Undefined(env, name);
      case None =>
        ExpandOther(env, s);
        ExpandUndefined(env, s[1..]);
    }
  }

  lemma Undefined(env: Env, name: string)
    requires name !in env
    ensures ValueOf(env, name) == Placeholder(name)
  {
  }

  // ----- One scalar of a document -----

  predicate Mentions(s: string) {
    exists i :: 0 <= i < |s| - 1 && s[i] == '$' && s[i + 1] == '{'
  }

  /** A scalar that mentions no placeholder is left alone; an unquoted one is stripped
      once its values are in. */
  function ExpandScalar(env: Env, value: string, plain: bool): string {
    if !Mentions(value) then value
    else if plain then Strip(Expand(env, value))
    else Expand(env, value)
  }

  /** So a scalar that holds a placeholder is substituted, and then stripped if unquoted. */
  lemma ScalarAround(env: Env, a: string, name: string, b: string, plain: bool)
    requires IsName(name)
    ensures var whole := Expand(env, a)
                         + ((if name in env then env[name] else ['$', '{'] + name + ['}']) + Expand(env, b));
            ExpandScalar(env, a + (Placeholder(name) + b), plain) == if plain then Strip(whole) else whole
  {
    var value := a + (Placeholder(name) + b);
    assert value[|a|] == '$' && value[|a| + 1] == '{';
    hide Expand;
    ExpandAround(env, a, name, b);
  }

  lemma {:induction false} NamesMentioned(s: string)
    ensures Names(s) != {} ==> Mentions(s)
    decreases |s|
  {
    if s != [] {
      match Leading(s)
      case Some(name) =>
        assert s[0] == Placeholder(name)[0] && s[1] == Placeholder(name)[1];
      case None =>
        NamesMentioned(s[1..]);
        if Names(s[1..]) != {} {
          var i :| 0 <= i < |s[1..]| - 1 && s[1..][i] == '$' && s[1..][i + 1] == '{';
          assert s[i + 1] == '$' && s[i + 2] == '{';
        }
    }
  }

  lemma ScalarAgrees(e: Env, f: Env, value: string, plain: bool)
    requires Agree(e, f, Names(value))
    ensures ExpandScalar(e, value, plain) == ExpandScalar(f, value, plain)
  {
    ExpandAgrees(e, f, value);
  }

  /** With none of its names defined a quoted scalar stays as written, and so does an
      unquoted one that has no space around it. */
  lemma ScalarUndefined(env: Env, value: string, plain: bool)
    requires env.Keys !! Names(value)
    ensures ExpandScalar(env, value, plain) == (if plain && Mentions(value) then Strip(value) else value)
  {
    ExpandUndefined(env, value);
  }

  lemma ScalarConsults(value: string, plain: bool, name: string, long: string)
    requires name in Names(value)
    ensures |ExpandScalar(map[name := long], value, plain)| >= Ink(long)
  {
    var e: Env := map[];
    assert e[name := long] == map[name := long];
    ExpandConsults(e, value, name, long);
    NamesMentioned(value);
    hide Expand, Names;
    InkStrip(Expand(map[name := long], value));
  }

  lemma ScalarShrinks(value: string, plain: bool, name: string)
    ensures |ExpandScalar(map[name := []], value, plain)| <= |value|
  {
    hide Expand;
    ExpandShrinks(value, name);
    InkStrip(Expand(map[name := []], value));
  }
}
