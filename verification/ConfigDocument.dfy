/** Building the document from the composed nodes, and the environment it depends on
    (ori/config/_document.py:170-226, 374-403). */
module ConfigDocument {
  import opened Options
  import opened ConfigTrees
  import opened ConfigLimits

  /** How a scalar is read: as a string, as some other value, or not at all. */
  datatype Reading = AsText | AsOther | Unreadable

  /** The reading PyYAML's resolver and constructors give to an explicit tag, whether the
      scalar is unquoted, and its text. */
  type Resolver = (Option<string>, bool, string) -> Reading

  /** A dictionary keeps the order its keys came in. */
  datatype Value =
    | Str(text: string)
    | Other(tag: Option<string>, text: string)
    | List(items: seq<Value>)
    | Dict(keys: seq<string>, values: seq<Value>)

  datatype Refusal = KeyNotText | DuplicateKey | NotReadable
  datatype Built = Built(value: Value) | Refused(why: Refusal)

  /** The value of a composed node whose collections have no explicit tag and whose
      mappings have no merge key. */
  function Construct(resolve: Resolver, t: Tree): Built
    decreases t, 1
  {
    match t
    case Alias(_) => Refused(NotReadable)
    case Scalar(_, tag, value, plain) => Read(resolve(tag, plain, value), tag, value)
    case Collection(kind, _, _, children) =>
      if kind == Mapping then ConstructPairs(resolve, children, [], []) else ConstructItems(resolve, children, [])
  }

  function Read(reading: Reading, tag: Option<string>, text: string): Built {
    match reading
    case AsText => Built(Str(text))
    case AsOther => Built(Other(tag, text))
    case Unreadable => Refused(NotReadable)
  }

  function ConstructItems(resolve: Resolver, ts: seq<Tree>, done: seq<Value>): Built
    decreases ts
  {
    if ts == [] then Built(List(done))
    else
      var item := Construct(resolve, ts[0]);
      if item.Refused? then item else ConstructItems(resolve, ts[1..], done + [item.value])
  }

  /** A key is built and admitted before its value is built. */
  function ConstructPairs(resolve: Resolver, ts: seq<Tree>, keys: seq<string>, values: seq<Value>): Built
    decreases ts
  {
    if |ts| < 2 then Built(Dict(keys, values))
    else
      var key := Construct(resolve, ts[0]);
      if key.Refused? then key
      else if !key.value.Str? then Refused(KeyNotText)
      else if key.value.text in keys then Refused(DuplicateKey)
      else
        var value := Construct(resolve, ts[1]);
        if value.Refused? then value
        else ConstructPairs(resolve, ts[2..], keys + [key.value.text], values + [value.value])
  }

  // ----- The constructor that fills the mapping -----

  method ConstructObject(resolve: Resolver, node: Tree) returns (built: Built)
    requires Paired(node)
    ensures built == Construct(resolve, node)
    decreases node, 1
  {
    match node
    case Alias(_) => return Refused(NotReadable);
    case Scalar(_, tag, value, plain) => return Read(resolve(tag, plain, value), tag, value);
    case Collection(kind, _, _, children) =>
      if kind == Mapping {
        built := ConstructConfigMapping(resolve, node);
      } else {
        built := ConstructSequence(resolve, node);
      }
  }

  method ConstructSequence(resolve: Resolver, node: Tree) returns (built: Built)
    requires node.Collection? && node.kind == Sequence && Paired(node)
    ensures built == Construct(resolve, node)
    decreases node, 0
  {
    var items: seq<Value> := [];
    for i := 0 to |node.children|
      invariant AllPaired(node.children[i..])
      invariant Construct(resolve, node) == ConstructItems(resolve, node.children[i..], items)
    {
      assert node.children[i..][0] == node.children[i] && node.children[i..][1..] == node.children[i + 1..];
      var item := ConstructObject(resolve, node.children[i]);
      if item.Refused? {
        return item;
      }
      items := items + [item.value];
    }
    return Built(List(items));
  }

  method ConstructConfigMapping(resolve: Resolver, node: Tree) returns (built: Built)
    requires node.Collection? && node.kind == Mapping && Paired(node)
    ensures built == Construct(resolve, node)
    decreases node, 0
  {
    var keys: seq<string>, values: seq<Value> := [], [];
    var i := 0;
    while i < |node.children|
      invariant 0 <= i <= |node.children| && i % 2 == 0
      invariant AllPaired(node.children[i..])
      invariant Construct(resolve, node) == ConstructPairs(resolve, node.children[i..], keys, values)
    {
      var rest := node.children[i..];
      assert rest[0] == node.children[i] && rest[1..][0] == rest[1] == node.children[i + 1];
      assert rest[1..][1..] == rest[2..] == node.children[i + 2..];
      var key := ConstructObject(resolve, node.children[i]);
      if key.Refused? {
        return key;
      }
      if !key.value.Str? {
        return Refused(KeyNotText);
      }
      if key.value.text in keys {
        return Refused(DuplicateKey);
      }
      var value := ConstructObject(resolve, node.children[i + 1]);
      if value.Refused? {
        return value;
      }
      keys, values := keys + [key.value.text], values + [value.value];
      i := i + 2;
    }
    return Built(Dict(keys, values));
  }

  // ----- One string key per key node -----

  /** The key nodes from index 0, 2, … of `ts` read as strings. */
  predicate KeysRead(resolve: Resolver, ts: seq<Tree>) {
    forall i :: 0 <= i < |ts| && i % 2 == 0 ==> ReadsAsText(resolve, ts[i])
  }

  predicate ReadsAsText(resolve: Resolver, t: Tree) {
    t.Scalar? && resolve(t.tag, t.plain, t.value) == AsText
  }

  predicate ValuesBuild(resolve: Resolver, ts: seq<Tree>) {
    forall i :: 0 <= i < |ts| && i % 2 == 1 ==> Construct(resolve, ts[i]).Built?
  }

  /** The text written in each key node, in order. */
  function KeyTexts(ts: seq<Tree>): (keys: seq<string>)
    ensures |keys| == |ts| / 2
  {
    if |ts| < 2 then [] else [if ts[0].Scalar? then ts[0].value else []] + KeyTexts(ts[2..])
  }

  /** A mapping is built exactly when every key node is a string, no two alike, and every
      value is built; its keys are then those strings, one for each key node, in order. */
  lemma {:induction false} PairsExact(resolve: Resolver, ts: seq<Tree>, keys: seq<string>, values: seq<Value>)
    requires |ts| % 2 == 0 && |keys| == |values| && Distinct(keys)
    ensures var r := ConstructPairs(resolve, ts, keys, values);
            && (r.Built? <==> KeysRead(resolve, ts) && ValuesBuild(resolve, ts) && Distinct(keys + KeyTexts(ts)))
            && (r.Built? ==>
                  r.value.Dict? && r.value.keys == keys + KeyTexts(ts) && |r.value.values| == |r.value.keys|)
    decreases |ts|
  {
    if ts == [] {
      assert keys + KeyTexts(ts) == keys;
    } else {
      hide Construct;
      SplitKeys(resolve, ts);
      var first := if ts[0].Scalar? then ts[0].value else [];
      assert keys + KeyTexts(ts) == (keys + [first]) + KeyTexts(ts[2..]);
      DistinctMore(keys, first, KeyTexts(ts[2..]));
      KeyBuilds(resolve, ts[0]);
      if Construct(resolve, ts[1]).Built? && first !in keys {
        PairsExact(resolve, ts[2..], keys + [first], values + [Construct(resolve, ts[1]).value]);
      }
    }
  }

  lemma KeyBuilds(resolve: Resolver, t: Tree)
    ensures var r := Construct(resolve, t);
            ReadsAsText(resolve, t) <==> r.Built? && r.value.Str?
    ensures ReadsAsText(resolve, t) ==> Construct(resolve, t) == Built(Str(t.value))
  {
    match t
    case Collection(kind, _, _, children) =>
      if kind == Mapping {
        PairsMakeDict(resolve, children, [], []);
      } else {
        ItemsMakeList(resolve, children, []);
      }
    case _ =>
  }

  lemma {:induction false} PairsMakeDict(resolve: Resolver, ts: seq<Tree>, keys: seq<string>, values: seq<Value>)
    ensures var r := ConstructPairs(resolve, ts, keys, values); r.Built? ==> r.value.Dict?
    decreases |ts|
  {
    if |ts| >= 2 {
      var key, value := Construct(resolve, ts[0]), Construct(resolve, ts[1]);
      if key.Built? && key.value.Str? && value.Built? {
        PairsMakeDict(resolve, ts[2..], keys + [key.value.text], values + [value.value]);
      }
    }
  }

  lemma {:induction false} ItemsMakeList(resolve: Resolver, ts: seq<Tree>, done: seq<Value>)
    ensures var r := ConstructItems(resolve, ts, done); r.Built? ==> r.value.List?
    decreases |ts|
  {
    if ts != [] && Construct(resolve, ts[0]).Built? {
      ItemsMakeList(resolve, ts[1..], done + [Construct(resolve, ts[0]).value]);
    }
  }

  lemma SplitKeys(resolve: Resolver, ts: seq<Tree>)
    requires |ts| >= 2
    ensures KeysRead(resolve, ts) <==> ReadsAsText(resolve, ts[0]) && KeysRead(resolve, ts[2..])
    ensures ValuesBuild(resolve, ts) <==> Construct(resolve, ts[1]).Built? && ValuesBuild(resolve, ts[2..])
  {
    hide Construct, ReadsAsText;
    assert forall i :: 2 <= i < |ts| ==> ts[i] == ts[2..][i - 2];
    assert forall i :: 0 <= i < |ts[2..]| ==> ts[2..][i] == ts[i + 2];
  }

  lemma DistinctMore(keys: seq<string>, first: string, more: seq<string>)
    requires Distinct(keys)
    ensures Distinct(keys + [first]) <==> first !in keys
    ensures Distinct((keys + [first]) + more) ==> first !in keys
  {
    var all := (keys + [first]) + more;
    if first in keys {
      var i :| 0 <= i < |keys| && keys[i] == first;
      assert all[i] == all[|keys|] && (keys + [first])[i] == (keys + [first])[|keys|];
    }
  }
}
