/** The composer's limits at every place of the document it gives
    (ori/config/_document.py:51-54, 101-109, 154-168). */
module ConfigPlaces {
  import opened Options
  import opened ConfigTrees
  import opened ConfigComposer
  import opened ConfigLimits

  datatype Limit = EntryLimit | ScalarLimit

  /** Whether one node is within a limit, whatever is below it. */
  predicate Within(limit: Limit, t: Tree) {
    match limit
    case EntryLimit => t.Collection? ==> (if t.kind == Mapping then |t.children| / 2 else |t.children|) <= 1000
    case ScalarLimit => t.Scalar? ==> |t.value| <= 4096
  }

  ghost predicate WithinEverywhere(limit: Limit, t: Tree) {
    forall path :: At(t, path).Some? ==> Within(limit, At(t, path).value)
  }

  // ----- From node to node -----

  lemma WithinBelow(limit: Limit, t: Tree)
    ensures WithinEverywhere(limit, t)
            <==> Within(limit, t)
                 && (t.Collection? ==> forall i :: 0 <= i < |t.children| ==> WithinEverywhere(limit, t.children[i]))
  {
    hide Within;
    if WithinEverywhere(limit, t) {
      assert At(t, []) == Some(t);
      if t.Collection? {
        forall i, path | 0 <= i < |t.children| && At(t.children[i], path).Some?
          ensures Within(limit, At(t.children[i], path).value)
        {
          assert ([i] + path)[1..] == path;
          assert At(t, [i] + path) == At(t.children[i], path);
        }
      }
    }
    if && Within(limit, t)
       && (t.Collection? ==> forall i :: 0 <= i < |t.children| ==> WithinEverywhere(limit, t.children[i]))
    {
      forall path | At(t, path).Some? ensures Within(limit, At(t, path).value) {
        if path != [] {
          assert WithinEverywhere(limit, t.children[path[0]]);
        }
      }
    }
  }

  /** Item by item, when the first item and the rest are known. */
  lemma EachOf(limit: Limit, es: seq<Tree>)
    requires es != []
    ensures (forall i :: 0 <= i < |es| ==> WithinEverywhere(limit, es[i]))
            <==> && WithinEverywhere(limit, es[0])
                 && forall i :: 0 <= i < |es[1..]| ==> WithinEverywhere(limit, es[1..][i])
  {
    hide WithinEverywhere;
    assert forall i :: 0 < i < |es| ==> es[i] == es[1..][i - 1];
    assert forall i :: 0 <= i < |es[1..]| ==> es[1..][i] == es[i + 1];
  }

  lemma {:induction false} NarrowEverywhere(t: Tree)
    ensures Narrow(t) <==> WithinEverywhere(EntryLimit, t)
    decreases t, 1
  {
    WithinBelow(EntryLimit, t);
    hide WithinEverywhere;
    if t.Collection? {
      AllNarrowEverywhere(t.children);
    }
  }

  lemma {:induction false} AllNarrowEverywhere(ts: seq<Tree>)
    ensures AllNarrow(ts) <==> forall i :: 0 <= i < |ts| ==> WithinEverywhere(EntryLimit, ts[i])
    decreases ts
  {
    hide WithinEverywhere;
    if ts != [] {
      NarrowEverywhere(ts[0]);
      AllNarrowEverywhere(ts[1..]);
      EachOf(EntryLimit, ts);
    }
  }

  lemma {:induction false} ShortEverywhere(x: Expansion, inKey: bool, t: Tree)
    ensures Short(x, inKey, t) <==> WithinEverywhere(ScalarLimit, Expanded(x, inKey, t))
    decreases t, 1
  {
    var e := Expanded(x, inKey, t);
    WithinBelow(ScalarLimit, e);
    hide WithinEverywhere, ScalarText;
    if t.Collection? {
      AllShortEverywhere(x, inKey, t.kind, 0, t.children);
      assert e.children == ExpandedFrom(x, inKey, t.kind, 0, t.children);
      assert Short(x, inKey, t) <==> ShortFrom(x, inKey, t.kind, 0, t.children);
    } else if t.Scalar? {
      assert e.value == ScalarText(x, inKey, t.value, t.plain);
    }
  }

  lemma {:induction false} AllShortEverywhere(x: Expansion, inKey: bool, kind: Kind, first: nat, ts: seq<Tree>)
    ensures var es := ExpandedFrom(x, inKey, kind, first, ts);
            ShortFrom(x, inKey, kind, first, ts)
            <==> forall i :: 0 <= i < |es| ==> WithinEverywhere(ScalarLimit, es[i])
    decreases ts
  {
    hide WithinEverywhere, Short, Expanded;
    if ts != [] {
      var es := ExpandedFrom(x, inKey, kind, first, ts);
      ShortEverywhere(x, KeyAt(kind, inKey, first), ts[0]);
      AllShortEverywhere(x, inKey, kind, first + 1, ts[1..]);
      var rest := ExpandedFrom(x, inKey, kind, first + 1, ts[1..]);
      assert es[0] == Expanded(x, KeyAt(kind, inKey, first), ts[0]);
      assert es[1..] == rest;
      assert ShortFrom(x, inKey, kind, first, ts)
             <==> && Short(x, KeyAt(kind, inKey, first), ts[0])
                  && ShortFrom(x, inKey, kind, first + 1, ts[1..]);
      hide ShortFrom, ExpandedFrom;
      EachOf(ScalarLimit, es);
    }
  }

  /** Composing a whole document succeeds exactly when it has no alias and uses no anchor
      twice, is at most 32 deep and 20000 nodes large, nowhere has a list of over 1000 items
      or a mapping of over 1000 keys, and nowhere, once expanded, a scalar of over 4096
      characters. */
  lemma LimitsByPlace(x: Expansion, t: Tree)
    requires Paired(t)
    ensures ComposeNode(Events(t), x, START, 0, false).Done?
            <==> && AliasFree(t) && Distinct(Anchors(t)) && Depth(t) <= 32 && Nodes(t) <= 20_000
                 && WithinEverywhere(EntryLimit, t) && WithinEverywhere(ScalarLimit, Expanded(x, false, t))
  {
    hide ComposeNode, Events, WithinEverywhere;
    LimitsAreExact(x, t);
    NarrowEverywhere(t);
    ShortEverywhere(x, false, t);
  }
}
