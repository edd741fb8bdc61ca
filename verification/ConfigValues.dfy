/** What the document built from a tree is, place by place (ori/config/_document.py:170-226). */
module ConfigValues {
  import opened Options
  import opened ConfigTrees
  import opened ConfigLimits
  import opened ConfigDocument

  // ----- Places -----

  /** The node of the value at place `i`: a list's item, or a mapping's value after its key. */
  function Child(t: Tree, i: nat): Option<Tree> {
    if !t.Collection? then None
    else
      var at := if t.kind == Mapping then 2 * i + 1 else i;
      if at < |t.children| then Some(t.children[at]) else None
  }

  function Item(v: Value, i: nat): Option<Value> {
    match v
    case List(items) => if i < |items| then Some(items[i]) else None
    case Dict(_, values) => if i < |values| then Some(values[i]) else None
    case _ => None
  }

  function NodeAt(t: Tree, path: seq<nat>): Option<Tree>
    decreases |path|
  {
    if path == [] then Some(t)
    else
      var child := Child(t, path[0]);
      if child == None then None else NodeAt(child.value, path[1..])
  }

  function ValueAt(v: Value, path: seq<nat>): Option<Value>
    decreases |path|
  {
    if path == [] then Some(v)
    else
      var item := Item(v, path[0]);
      if item == None then None else ValueAt(item.value, path[1..])
  }

  /** What may be built of a node, its children aside. */
  ghost predicate Buildable(resolve: Resolver, n: Tree) {
    match n
    case Alias(_) => false
    case Scalar(_, tag, text, plain) => resolve(tag, plain, text) != Unreadable
    case Collection(kind, _, _, ts) =>
      kind == Mapping ==>
        && (forall i :: 0 <= i < |ts| && i % 2 == 0 ==> ReadsAsText(resolve, ts[i]))
        && (forall i, j :: 0 <= i < j < |ts| && i % 2 == 0 && j % 2 == 0 && ts[i].Scalar? && ts[j].Scalar? ==>
              ts[i].value != ts[j].value)
  }

  /** What is built of it: a string or another value of its own tag and text; a list with an
      item for each child; a mapping with a key for each key node, each the text written. */
  ghost predicate BuiltAs(resolve: Resolver, n: Tree, v: Value) {
    match n
    case Alias(_) => false
    case Scalar(_, tag, text, plain) =>
      v == if resolve(tag, plain, text) == AsText then Str(text) else Other(tag, text)
    case Collection(kind, _, _, ts) =>
      if kind == Sequence then v.List? && |v.items| == |ts|
      else
        && v.Dict? && |v.keys| == |v.values| == |ts| / 2
        && forall i :: 0 <= i < |v.keys| ==> ts[2 * i].Scalar? && v.keys[i] == ts[2 * i].value
  }

  // ----- One level -----

  lemma {:induction false} ItemsEach(resolve: Resolver, ts: seq<Tree>, done: seq<Value>)
    ensures var r := ConstructItems(resolve, ts, done);
            && (r.Built? <==> forall i :: 0 <= i < |ts| ==> Construct(resolve, ts[i]).Built?)
            && (r.Built? ==>
                  && r.value.List? && |r.value.items| == |done| + |ts| && r.value.items[..|done|] == done
                  && forall i :: 0 <= i < |ts| ==> Construct(resolve, ts[i]) == Built(r.value.items[|done| + i]))
    decreases |ts|
  {
    if ts != [] {
      var item := Construct(resolve, ts[0]);
      hide Construct;
      assert forall i :: 0 < i < |ts| ==> ts[i] == ts[1..][i - 1];
      assert forall i :: 0 <= i < |ts[1..]| ==> ts[1..][i] == ts[i + 1];
      if item.Built? {
        var more := done + [item.value];
        ItemsEach(resolve, ts[1..], more);
        var r := ConstructItems(resolve, ts, done);
        if r.Built? {
          assert r.value.items[..|more|][..|done|] == r.value.items[..|done|];
          assert r.value.items[..|more|][|done|] == r.value.items[|done|];
          forall i | 0 <= i < |ts| ensures Construct(resolve, ts[i]) == Built(r.value.items[|done| + i]) {
            if i > 0 {
              assert Construct(resolve, ts[1..][i - 1]) == Built(r.value.items[|more| + (i - 1)]);
            }
          }
        }
      }
    }
  }

  lemma {:induction false} PairsEach(resolve: Resolver, ts: seq<Tree>, keys: seq<string>, values: seq<Value>)
    requires |ts| % 2 == 0 && ConstructPairs(resolve, ts, keys, values).Built?
    ensures var v := ConstructPairs(resolve, ts, keys, values).value;
            && v.Dict? && |v.values| == |values| + |ts| / 2 && v.values[..|values|] == values
            && forall i :: 0 <= i < |ts| / 2 ==> Construct(resolve, ts[2 * i + 1]) == Built(v.values[|values| + i])
    decreases |ts|
  {
    if ts != [] {
      var key, value := Construct(resolve, ts[0]).value.text, Construct(resolve, ts[1]).value;
      hide Construct;
      var more := values + [value];
      PairsEach(resolve, ts[2..], keys + [key], more);
      var v := ConstructPairs(resolve, ts, keys, values).value;
      assert v.values[..|more|][..|values|] == v.values[..|values|];
      assert v.values[..|more|][|values|] == v.values[|values|];
      forall i | 0 <= i < |ts| / 2 ensures Construct(resolve, ts[2 * i + 1]) == Built(v.values[|values| + i]) {
        if i > 0 {
          assert ts[2..][2 * (i - 1) + 1] == ts[2 * i + 1];
          assert Construct(resolve, ts[2..][2 * (i - 1) + 1]) == Built(v.values[|more| + (i - 1)]);
        }
      }
    }
  }

  lemma {:induction false} KeyTextAt(ts: seq<Tree>, i: nat)
    requires i < |ts| / 2
    ensures KeyTexts(ts)[i] == if ts[2 * i].Scalar? then ts[2 * i].value else []
    decreases |ts|
  {
    if i > 0 {
      KeyTextAt(ts[2..], i - 1);
    }
  }

  /** The keys written are distinct as strings exactly when no two key nodes are alike. */
  lemma KeysDistinct(resolve: Resolver, ts: seq<Tree>)
    requires |ts| % 2 == 0 && KeysRead(resolve, ts)
    ensures Distinct(KeyTexts(ts))
            <==> forall i, j :: 0 <= i < j < |ts| && i % 2 == 0 && j % 2 == 0 && ts[i].Scalar? && ts[j].Scalar? ==>
                   ts[i].value != ts[j].value
  {
    var keys := KeyTexts(ts);
    hide KeyTexts;
    forall i | 0 <= i < |keys| ensures ReadsAsText(resolve, ts[2 * i]) && keys[i] == ts[2 * i].value {
      KeyTextAt(ts, i);
    }
    if Distinct(keys) {
      forall i, j | 0 <= i < j < |ts| && i % 2 == 0 && j % 2 == 0 && ts[i].Scalar? && ts[j].Scalar?
        ensures ts[i].value != ts[j].value
      {
        assert keys[i / 2] != keys[j / 2];
        assert 2 * (i / 2) == i && 2 * (j / 2) == j;
      }
    }
    if forall i, j :: 0 <= i < j < |ts| && i % 2 == 0 && j % 2 == 0 && ts[i].Scalar? && ts[j].Scalar? ==>
         ts[i].value != ts[j].value {
      forall i, j | 0 <= i < j < |keys| ensures keys[i] != keys[j] {
        assert ts[2 * i].value != ts[2 * j].value;
      }
    }
  }

  /** A node is built exactly when it may be and its children are; and then as it should be,
      each child in its place. */
  lemma OneLevel(resolve: Resolver, t: Tree)
    requires Paired(t)
    ensures var r := Construct(resolve, t);
            && (r.Built? <==> Buildable(resolve, t) && ChildrenBuild(resolve, t))
            && (r.Built? ==> BuiltAs(resolve, t, r.value) && ChildrenInPlace(resolve, t, r.value))
  {
    match t
    case Alias(_) =>
    case Scalar(_, _, _, _) =>
    case Collection(kind, _, _, ts) =>
      if kind == Sequence {
        SequenceLevel(resolve, t);
      } else {
        MappingLevel(resolve, t);
      }
  }

  ghost predicate ChildrenBuild(resolve: Resolver, t: Tree) {
    forall i: nat :: Child(t, i).Some? ==> Construct(resolve, Child(t, i).value).Built?
  }

  ghost predicate ChildrenInPlace(resolve: Resolver, t: Tree, v: Value) {
    forall i: nat ::
      if Child(t, i).None? then Item(v, i).None?
      else Item(v, i).Some? && Construct(resolve, Child(t, i).value) == Built(Item(v, i).value)
  }

  lemma SequenceLevel(resolve: Resolver, t: Tree)
    requires t.Collection? && t.kind == Sequence
    ensures var r := Construct(resolve, t);
            && (r.Built? <==> ChildrenBuild(resolve, t))
            && (r.Built? ==> BuiltAs(resolve, t, r.value) && ChildrenInPlace(resolve, t, r.value))
  {
    ItemsEach(resolve, t.children, []);
    var r := Construct(resolve, t);
    assert r == ConstructItems(resolve, t.children, []);
    hide Construct, ConstructItems;
    assert forall i :: 0 <= i < |t.children| ==> Child(t, i) == Some(t.children[i]);
  }

  lemma MappingLevel(resolve: Resolver, t: Tree)
    requires t.Collection? && t.kind == Mapping && Paired(t)
    ensures var r := Construct(resolve, t);
            && (r.Built? <==> Buildable(resolve, t) && ChildrenBuild(resolve, t))
            && (r.Built? ==> BuiltAs(resolve, t, r.value) && ChildrenInPlace(resolve, t, r.value))
  {
    hide *;
    MappingBuilds(resolve, t);
    if Construct(resolve, t).Built? {
      MappingKeys(resolve, t);
      MappingValues(resolve, t);
    }
  }

  lemma MappingBuilds(resolve: Resolver, t: Tree)
    requires t.Collection? && t.kind == Mapping && Paired(t)
    ensures Construct(resolve, t).Built? <==> Buildable(resolve, t) && ChildrenBuild(resolve, t)
  {
    var ts := t.children;
    assert Construct(resolve, t) == ConstructPairs(resolve, ts, [], []);
    assert [] + KeyTexts(ts) == KeyTexts(ts);
    PairsExact(resolve, ts, [], []);
    if KeysRead(resolve, ts) {
      KeysDistinct(resolve, ts);
    }
    hide Construct, ConstructPairs, Distinct, KeyTexts, ValuesBuild, ChildrenBuild, ReadsAsText;
    ValuesAreChildren(resolve, t);
  }

  lemma MappingKeys(resolve: Resolver, t: Tree)
    requires t.Collection? && t.kind == Mapping && Paired(t) && Construct(resolve, t).Built?
    ensures BuiltAs(resolve, t, Construct(resolve, t).value)
  {
    MappingFacts(resolve, t);
    KeysAreTexts(resolve, t.children);
    hide Construct, KeyTexts, KeysRead;
  }

  lemma MappingFacts(resolve: Resolver, t: Tree)
    requires t.Collection? && t.kind == Mapping && Paired(t) && Construct(resolve, t).Built?
    ensures var v := Construct(resolve, t).value;
            v.Dict? && v.keys == KeyTexts(t.children) && |v.values| == |v.keys| && KeysRead(resolve, t.children)
  {
    assert Construct(resolve, t) == ConstructPairs(resolve, t.children, [], []);
    assert [] + KeyTexts(t.children) == KeyTexts(t.children);
    PairsExact(resolve, t.children, [], []);
    hide Construct, ConstructPairs, KeyTexts, KeysRead, ValuesBuild;
  }

  lemma KeysAreTexts(resolve: Resolver, ts: seq<Tree>)
    requires |ts| % 2 == 0 && KeysRead(resolve, ts)
    ensures forall i :: 0 <= i < |KeyTexts(ts)| ==> ts[2 * i].Scalar? && KeyTexts(ts)[i] == ts[2 * i].value
  {
    hide KeyTexts;
    forall i | 0 <= i < |KeyTexts(ts)| ensures ts[2 * i].Scalar? && KeyTexts(ts)[i] == ts[2 * i].value {
      KeyTextAt(ts, i);
      assert ReadsAsText(resolve, ts[2 * i]);
    }
  }

  lemma MappingValues(resolve: Resolver, t: Tree)
    requires t.Collection? && t.kind == Mapping && Paired(t) && Construct(resolve, t).Built?
    ensures ChildrenInPlace(resolve, t, Construct(resolve, t).value)
  {
    var r := Construct(resolve, t);
    assert r == ConstructPairs(resolve, t.children, [], []);
    PairsEach(resolve, t.children, [], []);
    hide Construct, ConstructPairs;
    assert forall i: nat :: 2 * i + 1 < |t.children| ==> Child(t, i) == Some(t.children[2 * i + 1]);
  }

  lemma ValuesAreChildren(resolve: Resolver, t: Tree)
    requires t.Collection? && t.kind == Mapping && |t.children| % 2 == 0
    ensures ValuesBuild(resolve, t.children) <==> ChildrenBuild(resolve, t)
  {
    hide Construct;
    assert forall i: nat :: 2 * i + 1 < |t.children| ==> Child(t, i) == Some(t.children[2 * i + 1]);
    if ChildrenBuild(resolve, t) {
      forall i | 0 <= i < |t.children| && i % 2 == 1 ensures Construct(resolve, t.children[i]).Built? {
        assert Child(t, i / 2) == Some(t.children[i]);
      }
    }
  }

  // ----- Every place -----

  lemma {:induction false} ChildPaired(ts: seq<Tree>, i: nat)
    requires AllPaired(ts) && i < |ts|
    ensures Paired(ts[i])
  {
    if i > 0 {
      ChildPaired(ts[1..], i - 1);
    }
  }

  /** The document built has exactly the places of the tree, and at each what the node there
      says: item i of a list is its child i, value i of a mapping the child after key i, and
      every scalar a value of its own tag and text. */
  lemma {:induction false} BuiltInPlace(resolve: Resolver, t: Tree, path: seq<nat>)
    requires Paired(t) && Construct(resolve, t).Built?
    ensures var v := Construct(resolve, t).value;
            match NodeAt(t, path)
            case None => ValueAt(v, path) == None
            case Some(n) => ValueAt(v, path).Some? && BuiltAs(resolve, n, ValueAt(v, path).value)
    decreases |path|
  {
    OneLevel(resolve, t);
    hide Construct;
    if path != [] && Child(t, path[0]).Some? {
      ChildPaired(t.children, if t.kind == Mapping then 2 * path[0] + 1 else path[0]);
      BuiltInPlace(resolve, Child(t, path[0]).value, path[1..]);
    }
  }

  /** And a document is built exactly when there is nothing at any place that may not be. */
  lemma BuiltExactly(resolve: Resolver, t: Tree)
    requires Paired(t)
    ensures Construct(resolve, t).Built? <==>
              forall path :: NodeAt(t, path).Some? ==> Buildable(resolve, NodeAt(t, path).value)
  {
    hide Construct, Buildable, NodeAt;
    if Construct(resolve, t).Built? {
      forall path | NodeAt(t, path).Some? ensures Buildable(resolve, NodeAt(t, path).value) {
        BuildableAt(resolve, t, path);
      }
    } else {
      var path := NotBuildableAt(resolve, t);
    }
  }

  lemma {:induction false} BuildableAt(resolve: Resolver, t: Tree, path: seq<nat>)
    requires Paired(t) && Construct(resolve, t).Built? && NodeAt(t, path).Some?
    ensures Buildable(resolve, NodeAt(t, path).value)
    decreases |path|
  {
    OneLevel(resolve, t);
    hide Construct, Buildable;
    if path != [] {
      ChildPaired(t.children, if t.kind == Mapping then 2 * path[0] + 1 else path[0]);
      BuildableAt(resolve, Child(t, path[0]).value, path[1..]);
    }
  }

  lemma {:induction false} NotBuildableAt(resolve: Resolver, t: Tree) returns (path: seq<nat>)
    requires Paired(t) && Construct(resolve, t).Refused?
    ensures NodeAt(t, path).Some? && !Buildable(resolve, NodeAt(t, path).value)
    decreases Nodes(t)
  {
    OneLevel(resolve, t);
    hide Construct, Buildable;
    if !Buildable(resolve, t) {
      path := [];
    } else {
      var i: nat :| Child(t, i).Some? && Construct(resolve, Child(t, i).value).Refused?;
      var at := if t.kind == Mapping then 2 * i + 1 else i;
      ChildPaired(t.children, at);
      FewerNodes(t.children, at);
      var below := NotBuildableAt(resolve, t.children[at]);
      path := [i] + below;
      assert path[1..] == below;
    }
  }

  lemma {:induction false} FewerNodes(ts: seq<Tree>, i: nat)
    requires i < |ts|
    ensures Nodes(ts[i]) <= NodesOf(ts)
  {
    if i > 0 {
      FewerNodes(ts[1..], i - 1);
    }
  }
}
