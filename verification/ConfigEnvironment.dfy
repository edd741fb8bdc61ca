/** What a document asks of the environment, and what the environment can change
    (ori/config/_document.py:374-403). */
module ConfigEnvironment {
  import opened Options
  import opened Text
  import opened EnvExpansion
  import opened ConfigTrees
  import opened ConfigComposer
  import opened ConfigLimits
  import opened ConfigDocument

  // ----- The names the document's values mention -----

  /** The names in the strings of a document; keys are not looked at. */
  function Placeholders(v: Value): set<string>
    decreases v
  {
    match v
    case Str(text) => Names(text)
    case Other(_, _) => {}
    case List(items) => PlaceholdersOf(items)
    case Dict(_, values) => PlaceholdersOf(values)
  }

  function PlaceholdersOf(vs: seq<Value>): set<string>
    decreases vs
  {
    if vs == [] then {} else Placeholders(vs[0]) + PlaceholdersOf(vs[1..])
  }

  /** The walk that collects them into one set. */
  method CollectPlaceholders(v: Value, before: set<string>) returns (names: set<string>)
    ensures names == before + Placeholders(v)
    decreases v
  {
    names := before;
    match v
    case Str(text) => names := names + Names(text);
    case Other(_, _) =>
    case List(items) => names := CollectFrom(items, names);
    case Dict(_, values) => names := CollectFrom(values, names);
  }

  method CollectFrom(vs: seq<Value>, before: set<string>) returns (names: set<string>)
    ensures names == before + PlaceholdersOf(vs)
    decreases vs
  {
    names := before;
    for i := 0 to |vs|
      invariant before + PlaceholdersOf(vs) == names + PlaceholdersOf(vs[i..])
    {
      assert vs[i..][1..] == vs[i + 1..];
      names := CollectPlaceholders(vs[i], names);
    }
  }

  // ----- The names the composed values mention -----

  /** The names in the scalars of a tree that expansion reaches. */
  function Reached(inKey: bool, t: Tree): set<string>
    decreases t
  {
    match t
    case Alias(_) => {}
    case Scalar(_, _, value, _) => if inKey then {} else Names(value)
    case Collection(kind, _, _, children) => ReachedFrom(inKey, kind, 0, children)
  }

  function ReachedFrom(inKey: bool, kind: Kind, first: nat, ts: seq<Tree>): set<string>
    decreases ts
  {
    if ts == [] then {}
    else Reached(KeyAt(kind, inKey, first), ts[0]) + ReachedFrom(inKey, kind, first + 1, ts[1..])
  }

  /** The names in those of them that are read as strings. */
  function TextNames(resolve: Resolver, inKey: bool, t: Tree): set<string>
    decreases t
  {
    match t
    case Alias(_) => {}
    case Scalar(_, tag, value, plain) =>
      if inKey || resolve(tag, plain, value) != AsText then {} else Names(value)
    case Collection(kind, _, _, children) => TextNamesFrom(resolve, inKey, kind, 0, children)
  }

  function TextNamesFrom(resolve: Resolver, inKey: bool, kind: Kind, first: nat, ts: seq<Tree>): set<string>
    decreases ts
  {
    if ts == [] then {}
    else
      TextNames(resolve, KeyAt(kind, inKey, first), ts[0]) + TextNamesFrom(resolve, inKey, kind, first + 1, ts[1..])
  }

  /** Every scalar that mentions a name is read as a string. */
  predicate NamesInText(resolve: Resolver, t: Tree) {
    match t
    case Alias(_) => true
    case Scalar(_, tag, value, plain) => Names(value) == {} || resolve(tag, plain, value) == AsText
    case Collection(_, _, _, children) => AllNamesInText(resolve, children)
  }

  predicate AllNamesInText(resolve: Resolver, ts: seq<Tree>) {
    ts == [] || (NamesInText(resolve, ts[0]) && AllNamesInText(resolve, ts[1..]))
  }

  /** A scalar without a tag is read as a string when it is quoted or mentions `${`. */
  ghost predicate KeepsText(resolve: Resolver) {
    forall plain, text :: !plain || Mentions(text) ==> resolve(None, plain, text) == AsText
  }

  predicate Untagged(t: Tree) {
    match t
    case Alias(_) => true
    case Scalar(_, tag, _, _) => tag == None
    case Collection(_, _, tag, children) => tag == None && AllUntagged(children)
  }

  predicate AllUntagged(ts: seq<Tree>) {
    ts == [] || (Untagged(ts[0]) && AllUntagged(ts[1..]))
  }

  lemma {:induction false} UntaggedNames(resolve: Resolver, t: Tree)
    requires KeepsText(resolve) && Untagged(t)
    ensures NamesInText(resolve, t)
    decreases t, 1
  {
    match t
    case Alias(_) =>
    case Scalar(_, _, value, _) => NamesMentioned(value);
    case Collection(_, _, _, children) => AllUntaggedNames(resolve, children);
  }

  lemma {:induction false} AllUntaggedNames(resolve: Resolver, ts: seq<Tree>)
    requires KeepsText(resolve) && AllUntagged(ts)
    ensures AllNamesInText(resolve, ts)
    decreases ts
  {
    if ts != [] {
      UntaggedNames(resolve, ts[0]);
      AllUntaggedNames(resolve, ts[1..]);
    }
  }

  // ----- The document names what expansion reaches -----

  /** Whatever the document, what is read as a string is among what expansion reaches; and
      where every scalar that mentions a name is read as one, it is all of it. */
  lemma {:induction false} TextNamesReached(resolve: Resolver, inKey: bool, t: Tree)
    ensures TextNames(resolve, inKey, t) <= Reached(inKey, t)
    ensures NamesInText(resolve, t) ==> TextNames(resolve, inKey, t) == Reached(inKey, t)
    decreases t, 1
  {
    match t
    case Alias(_) =>
    case Scalar(_, _, _, _) =>
    case Collection(kind, _, _, children) => TextNamesFromReached(resolve, inKey, kind, 0, children);
  }

  lemma {:induction false} TextNamesFromReached(
    resolve: Resolver, inKey: bool, kind: Kind, first: nat, ts: seq<Tree>)
    ensures TextNamesFrom(resolve, inKey, kind, first, ts) <= ReachedFrom(inKey, kind, first, ts)
    ensures AllNamesInText(resolve, ts) ==>
              TextNamesFrom(resolve, inKey, kind, first, ts) == ReachedFrom(inKey, kind, first, ts)
    decreases ts
  {
    if ts != [] {
      TextNamesReached(resolve, KeyAt(kind, inKey, first), ts[0]);
      TextNamesFromReached(resolve, inKey, kind, first + 1, ts[1..]);
    }
  }

  /** The placeholders of a document are the names its string values mention. */
  lemma {:induction false} PlaceholdersAreText(resolve: Resolver, t: Tree)
    requires Paired(t) && Construct(resolve, t).Built?
    ensures Placeholders(Construct(resolve, t).value) == TextNames(resolve, false, t)
    decreases t, 1
  {
    match t
    case Scalar(_, _, _, _) =>
    case Collection(kind, _, _, children) =>
      if kind == Mapping {
        PairsAreText(resolve, children, 0, [], []);
      } else {
        ItemsAreText(resolve, children, 0, []);
      }
  }

  lemma {:induction false} ItemsAreText(resolve: Resolver, ts: seq<Tree>, first: nat, done: seq<Value>)
    requires AllPaired(ts) && ConstructItems(resolve, ts, done).Built?
    ensures Placeholders(ConstructItems(resolve, ts, done).value)
            == PlaceholdersOf(done) + TextNamesFrom(resolve, false, Sequence, first, ts)
    decreases ts
  {
    if ts != [] {
      hide Construct, TextNames;
      PlaceholdersAreText(resolve, ts[0]);
      var item := Construct(resolve, ts[0]).value;
      ItemsAreText(resolve, ts[1..], first + 1, done + [item]);
      PlaceholdersAppend(done, item);
    }
  }

  lemma {:induction false} PairsAreText(
    resolve: Resolver, ts: seq<Tree>, first: nat, keys: seq<string>, values: seq<Value>)
    requires |ts| % 2 == 0 && first % 2 == 0 && AllPaired(ts)
    requires ConstructPairs(resolve, ts, keys, values).Built?
    ensures Placeholders(ConstructPairs(resolve, ts, keys, values).value)
            == PlaceholdersOf(values) + TextNamesFrom(resolve, false, Mapping, first, ts)
    decreases ts
  {
    hide *;
    if ts == [] {
      PairsEnd(resolve, ts, first, keys, values);
    } else {
      var key, value := FirstPair(resolve, ts, keys, values);
      SplitPair(resolve, ts, first);
      PlaceholdersAreText(resolve, ts[1]);
      PairsAreText(resolve, ts[2..], first + 2, keys + [key], values + [value]);
      PlaceholdersAppend(values, value);
    }
  }

  lemma PairsEnd(resolve: Resolver, ts: seq<Tree>, first: nat, keys: seq<string>, values: seq<Value>)
    requires ts == []
    ensures ConstructPairs(resolve, ts, keys, values) == Built(Dict(keys, values))
    ensures Placeholders(Dict(keys, values))
            == PlaceholdersOf(values) + TextNamesFrom(resolve, false, Mapping, first, ts)
  {
  }

  lemma FirstPair(resolve: Resolver, ts: seq<Tree>, keys: seq<string>, values: seq<Value>)
    returns (key: string, value: Value)
    requires ts != [] && |ts| % 2 == 0 && ConstructPairs(resolve, ts, keys, values).Built?
    ensures ts[0].Scalar? && Construct(resolve, ts[1]) == Built(value)
    ensures ConstructPairs(resolve, ts, keys, values)
            == ConstructPairs(resolve, ts[2..], keys + [key], values + [value])
  {
    hide Construct;
    KeyBuilds(resolve, ts[0]);
    key, value := Construct(resolve, ts[0]).value.text, Construct(resolve, ts[1]).value;
  }

  lemma SplitPair(resolve: Resolver, ts: seq<Tree>, first: nat)
    requires |ts| >= 2 && first % 2 == 0 && ts[0].Scalar? && AllPaired(ts)
    ensures Paired(ts[1]) && AllPaired(ts[2..])
    ensures TextNamesFrom(resolve, false, Mapping, first, ts)
            == TextNames(resolve, false, ts[1]) + TextNamesFrom(resolve, false, Mapping, first + 2, ts[2..])
  {
    assert ts[1..][0] == ts[1] && ts[1..][1..] == ts[2..];
    KeyNamesNothing(resolve, ts[0]);
    hide TextNames;
  }

  lemma KeyNamesNothing(resolve: Resolver, t: Tree)
    ensures t.Scalar? ==> TextNames(resolve, true, t) == {}
  {
  }

  lemma {:induction false} PlaceholdersAppend(vs: seq<Value>, v: Value)
    ensures PlaceholdersOf(vs + [v]) == PlaceholdersOf(vs) + Placeholders(v)
  {
    if vs == [] {
      assert vs + [v] == [v];
    } else {
      assert (vs + [v])[1..] == vs[1..] + [v];
      PlaceholdersAppend(vs[1..], v);
    }
  }

  // ----- Non-interference -----

  lemma {:induction false} ExpandedAgrees(e: Env, f: Env, inKey: bool, t: Tree)
    requires Agree(e, f, Reached(inKey, t))
    ensures Expanded(Some(e), inKey, t) == Expanded(Some(f), inKey, t)
    decreases t, 1
  {
    match t
    case Alias(_) =>
    case Scalar(_, _, value, plain) =>
      if !inKey {
        ScalarAgrees(e, f, value, plain);
      }
    case Collection(kind, _, _, children) => ExpandedFromAgrees(e, f, inKey, kind, 0, children);
  }

  lemma {:induction false} ExpandedFromAgrees(e: Env, f: Env, inKey: bool, kind: Kind, first: nat, ts: seq<Tree>)
    requires Agree(e, f, ReachedFrom(inKey, kind, first, ts))
    ensures ExpandedFrom(Some(e), inKey, kind, first, ts) == ExpandedFrom(Some(f), inKey, kind, first, ts)
    decreases ts
  {
    if ts != [] {
      ExpandedAgrees(e, f, KeyAt(kind, inKey, first), ts[0]);
      ExpandedFromAgrees(e, f, inKey, kind, first + 1, ts[1..]);
    }
  }

  /** Under the two environments the events compose to the same nodes, or are refused
      under both. */
  ghost predicate SameOutcome(es: seq<Event>, e: Env, f: Env) {
    var withE, withF := ComposeNode(es, Some(e), START, 0, false), ComposeNode(es, Some(f), START, 0, false);
    if withE.Done? then withF == withE else withF.Failed?
  }

  /** No variable but those of `names` can change what becomes of the events. */
  ghost predicate DecidedBy(es: seq<Event>, names: set<string>) {
    forall e, f :: Agree(e, f, names) ==> SameOutcome(es, e, f)
  }

  /** For every event sequence that composes and builds without expansion: no variable but
      the document's placeholders can change it exactly when every name expansion reaches
      is one of them. */
  lemma NonInterferenceExactly(resolve: Resolver, es: seq<Event>)
    requires ComposeNode(es, None, START, 0, false).Done?
    requires Construct(resolve, ComposeNode(es, None, START, 0, false).node).Built?
    ensures var t := ComposeNode(es, None, START, 0, false).node;
            var names := Placeholders(Construct(resolve, t).value);
            DecidedBy(es, names) <==> Reached(false, t) <= names
  {
    hide ComposeNode, Construct, Placeholders, Reached, Agree, SameOutcome;
    var t := ComposeNode(es, None, START, 0, false).node;
    var names := Placeholders(Construct(resolve, t).value);
    if Reached(false, t) <= names {
      forall e, f | Agree(e, f, names) ensures SameOutcome(es, e, f) {
        AgreeOnFewer(e, f, names, Reached(false, t));
        SameWhenReached(es, e, f);
      }
    } else {
      var name :| name in Reached(false, t) && name !in names;
      var long := Overlong();
      AgreeBeside(names, name, long);
      Interferes(es, name, long);
      assert Agree(map[name := long], map[name := []], names) && !SameOutcome(es, map[name := long], map[name := []]);
    }
  }

  lemma AgreeOnFewer(e: Env, f: Env, names: set<string>, fewer: set<string>)
    requires Agree(e, f, names) && fewer <= names
    ensures Agree(e, f, fewer)
  {
  }

  lemma AgreeBeside(names: set<string>, name: string, long: string)
    requires name !in names
    ensures Agree(map[name := long], map[name := []], names)
  {
  }

  lemma SameWhenReached(es: seq<Event>, e: Env, f: Env)
    requires ComposeNode(es, None, START, 0, false).Done?
    requires Agree(e, f, Reached(false, ComposeNode(es, None, START, 0, false).node))
    ensures SameOutcome(es, e, f)
  {
    hide ComposeNode, Reached, Agree;
    var t := ComposeNode(es, None, START, 0, false).node;
    ExpandedAgrees(e, f, false, t);
    ShortExpanded(e, f, false, t);
    ExpansionKeepsStructure(es, e, START, 0, false);
    ExpansionKeepsStructure(es, f, START, 0, false);
  }

  /** More characters than a scalar may have, none of them white space. */
  lemma Overlong() returns (long: string)
    ensures Ink(long) > MAX_SCALAR
  {
    long := [];
    while Ink(long) <= MAX_SCALAR
      decreases MAX_SCALAR + 1 - Ink(long)
    {
      InkAppend(long, ['x']);
      assert Ink(['x']) == 1;
      long := long + ['x'];
    }
  }

  /** A name expansion reaches decides whether the document is admitted at all: with an
      overlong value it is refused, with an empty one it is not. */
  lemma Interferes(es: seq<Event>, name: string, long: string)
    requires ComposeNode(es, None, START, 0, false).Done?
    requires name in Reached(false, ComposeNode(es, None, START, 0, false).node) && Ink(long) > MAX_SCALAR
    ensures ComposeNode(es, Some(map[name := long]), START, 0, false).Failed?
    ensures ComposeNode(es, Some(map[name := []]), START, 0, false).Done?
    ensures !SameOutcome(es, map[name := long], map[name := []])
  {
    hide ComposeNode, Reached, Short;
    var t := ComposeNode(es, None, START, 0, false).node;
    ComposedShort(es);
    TooLong(name, long, false, t);
    StillShort(name, false, t);
    ExpansionKeepsStructure(es, map[name := long], START, 0, false);
    ExpansionKeepsStructure(es, map[name := []], START, 0, false);
  }

  lemma ComposedShort(es: seq<Event>)
    requires ComposeNode(es, None, START, 0, false).Done?
    ensures Short(None, false, ComposeNode(es, None, START, 0, false).node)
  {
    hide ComposeNode, Spelled, Events, Short;
    var t := ComposedSpells(es, None, START, 0, false);
    ComposeTree(es, None, t, START, 0, false);
    ExpandedNone(t, false);
  }

  lemma {:induction false} TooLong(name: string, long: string, inKey: bool, t: Tree)
    requires name in Reached(inKey, t) && Ink(long) > MAX_SCALAR
    ensures !Short(Some(map[name := long]), inKey, t)
    decreases t, 1
  {
    match t
    case Scalar(_, _, value, plain) =>
      hide ExpandScalar, Ink;
      ScalarConsults(value, plain, name, long);
    case Collection(kind, _, _, children) => TooLongFrom(name, long, inKey, kind, 0, children);
  }

  lemma {:induction false} TooLongFrom(
    name: string, long: string, inKey: bool, kind: Kind, first: nat, ts: seq<Tree>)
    requires name in ReachedFrom(inKey, kind, first, ts) && Ink(long) > MAX_SCALAR
    ensures !ShortFrom(Some(map[name := long]), inKey, kind, first, ts)
    decreases ts
  {
    if name in Reached(KeyAt(kind, inKey, first), ts[0]) {
      TooLong(name, long, KeyAt(kind, inKey, first), ts[0]);
    } else {
      TooLongFrom(name, long, inKey, kind, first + 1, ts[1..]);
    }
  }

  lemma {:induction false} StillShort(name: string, inKey: bool, t: Tree)
    requires Short(None, inKey, t)
    ensures Short(Some(map[name := []]), inKey, t)
    decreases t, 1
  {
    match t
    case Alias(_) =>
    case Scalar(_, _, value, plain) =>
      hide ExpandScalar;
      ScalarShrinks(value, plain, name);
    case Collection(kind, _, _, children) => StillShortFrom(name, inKey, kind, 0, children);
  }

  lemma {:induction false} StillShortFrom(name: string, inKey: bool, kind: Kind, first: nat, ts: seq<Tree>)
    requires ShortFrom(None, inKey, kind, first, ts)
    ensures ShortFrom(Some(map[name := []]), inKey, kind, first, ts)
    decreases ts
  {
    if ts != [] {
      StillShort(name, KeyAt(kind, inKey, first), ts[0]);
      StillShortFrom(name, inKey, kind, first + 1, ts[1..]);
    }
  }

  /** In particular, for every document without explicit tags. */
  lemma NonInterference(resolve: Resolver, es: seq<Event>)
    requires KeepsText(resolve)
    requires ComposeNode(es, None, START, 0, false).Done?
    requires var t := ComposeNode(es, None, START, 0, false).node; Untagged(t) && Construct(resolve, t).Built?
    ensures DecidedBy(es, Placeholders(Construct(resolve, ComposeNode(es, None, START, 0, false).node).value))
  {
    hide ComposeNode, Construct, Untagged, KeepsText;
    var t := ComposeNode(es, None, START, 0, false).node;
    ComposedPaired(es);
    UntaggedNames(resolve, t);
    TextNamesReached(resolve, false, t);
    PlaceholdersAreText(resolve, t);
    NonInterferenceExactly(resolve, es);
  }

  lemma ComposedPaired(es: seq<Event>)
    requires ComposeNode(es, None, START, 0, false).Done?
    ensures Paired(ComposeNode(es, None, START, 0, false).node)
  {
    hide ComposeNode, Spelled, Events, Paired;
    var t := ComposedSpells(es, None, START, 0, false);
    ComposeTree(es, None, t, START, 0, false);
    ExpandedNone(t, false);
  }

  /** Whether the scalars are short is a matter of the expanded tree. */
  lemma {:induction false} ShortExpanded(e: Env, f: Env, inKey: bool, t: Tree)
    requires Expanded(Some(e), inKey, t) == Expanded(Some(f), inKey, t)
    ensures Short(Some(e), inKey, t) == Short(Some(f), inKey, t)
    decreases t, 1
  {
    match t
    case Alias(_) =>
    case Scalar(_, _, value, plain) =>
      assert Expanded(Some(e), inKey, t).value == Expanded(Some(f), inKey, t).value;
    case Collection(kind, _, _, children) =>
      assert Expanded(Some(e), inKey, t).children == Expanded(Some(f), inKey, t).children;
      ShortExpandedFrom(e, f, inKey, kind, 0, children);
  }

  lemma {:induction false} ShortExpandedFrom(e: Env, f: Env, inKey: bool, kind: Kind, first: nat, ts: seq<Tree>)
    requires ExpandedFrom(Some(e), inKey, kind, first, ts) == ExpandedFrom(Some(f), inKey, kind, first, ts)
    ensures ShortFrom(Some(e), inKey, kind, first, ts) == ShortFrom(Some(f), inKey, kind, first, ts)
    decreases ts
  {
    if ts != [] {
      var a, b := ExpandedFrom(Some(e), inKey, kind, first, ts), ExpandedFrom(Some(f), inKey, kind, first, ts);
      assert a[0] == b[0] && a[1..] == b[1..];
      ShortExpanded(e, f, KeyAt(kind, inKey, first), ts[0]);
      ShortExpandedFrom(e, f, inKey, kind, first + 1, ts[1..]);
    }
  }

  /** An explicit tag that makes a scalar something other than a string hides its name
      from the placeholders, yet the environment still decides its text. */
  lemma TaggedEscapes(resolve: Resolver, tag: string, name: string, a: string, b: string)
    requires IsName(name) && a != b && resolve(Some(tag), false, Placeholder(name)) == AsOther
    ensures var t := Scalar(None, Some(tag), Placeholder(name), false);
            && Construct(resolve, t).Built? && Placeholders(Construct(resolve, t).value) == {}
            && Expanded(Some(map[name := a]), false, t) != Expanded(Some(map[name := b]), false, t)
  {
    var p := Placeholder(name);
    assert p + [] == p;
    ExpandLeading(map[name := a], name, []);
    ExpandLeading(map[name := b], name, []);
    assert Expand(map[name := a], p) == a && Expand(map[name := b], p) == b;
    assert p[0] == '$' && p[1] == '{';
    assert Mentions(p);
  }

  // ----- An environment that defines none of the names -----

  lemma {:induction false} ReachedAt(inKey: bool, t: Tree, path: seq<nat>)
    requires At(t, path).Some? && At(t, path).value.Scalar? && !inKey && !UnderKey(t, path)
    ensures Names(At(t, path).value.value) <= Reached(inKey, t)
    decreases |path|
  {
    if path != [] {
      var i := path[0];
      ReachedAt(KeyAt(t.kind, inKey, i), t.children[i], path[1..]);
      ReachedChild(inKey, t.kind, 0, t.children, i);
    }
  }

  lemma {:induction false} ReachedChild(inKey: bool, kind: Kind, first: nat, ts: seq<Tree>, i: nat)
    requires i < |ts|
    ensures Reached(KeyAt(kind, inKey, first + i), ts[i]) <= ReachedFrom(inKey, kind, first, ts)
    decreases i
  {
    if i > 0 {
      ReachedChild(inKey, kind, first + 1, ts[1..], i - 1);
    }
  }

  /** An environment that defines none of the placeholders leaves every quoted scalar as
      written, and an unquoted one that mentions `${` without the space around it. */
  lemma UndefinedLeavesText(resolve: Resolver, t: Tree, env: Env, path: seq<nat>)
    requires Paired(t) && KeepsText(resolve) && Untagged(t) && Construct(resolve, t).Built?
    requires env.Keys !! Placeholders(Construct(resolve, t).value)
    requires At(t, path).Some? && At(t, path).value.Scalar?
    ensures var s := At(t, path).value;
            At(Expanded(Some(env), false, t), path)
            == Some(if s.plain && !UnderKey(t, path) && Mentions(s.value) then s.(value := Strip(s.value)) else s)
  {
    hide Construct, Untagged, KeepsText, Reached, Mentions, Strip;
    UntaggedNames(resolve, t);
    TextNamesReached(resolve, false, t);
    PlaceholdersAreText(resolve, t);
    ShapeKept(env, false, t, path);
    var s := At(t, path).value;
    if !UnderKey(t, path) {
      ReachedAt(false, t, path);
      ScalarUndefined(env, s.value, s.plain);
    }
  }
}
