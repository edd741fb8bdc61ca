/** The composer's limits are exact, and expansion keeps what was composed
    (ori/config/_document.py:51-168). */
module ConfigLimits {
  import opened Options
  import opened EnvExpansion
  import opened ConfigTrees
  import opened ConfigComposer

  // ----- What the composer admits, stated on trees -----

  predicate Distinct(names: seq<string>) {
    forall i, j :: 0 <= i < j < |names| ==> names[i] != names[j]
  }

  function SetOf(names: seq<string>): set<string> {
    set n | n in names
  }

  /** No anchor is used twice, nor again after `taken`. */
  predicate Fresh(names: seq<string>, taken: set<string>) {
    Distinct(names) && SetOf(names) !! taken
  }

  predicate Fits(x: Expansion, t: Tree, p: Progress, depth: nat, inKey: bool) {
    && AliasFree(t)
    && p.count + Nodes(t) <= MAX_NODES
    && depth + Depth(t) <= MAX_DEPTH
    && Fresh(Anchors(t), p.anchors)
    && Narrow(t)
    && Short(x, inKey, t)
  }

  predicate AllFit(x: Expansion, ts: seq<Tree>, p: Progress, depth: nat, inKey: bool, kind: Kind, first: nat) {
    && AllAliasFree(ts)
    && p.count + NodesOf(ts) <= MAX_NODES
    && depth + DepthOf(ts) <= MAX_DEPTH
    && Fresh(AnchorsOf(ts), p.anchors)
    && AllNarrow(ts)
    && ShortFrom(x, inKey, kind, first, ts)
  }

  function Past(t: Tree, p: Progress): Progress {
    Progress(p.pos + |Events(t)|, p.count + Nodes(t), p.anchors + SetOf(Anchors(t)))
  }

  function PastAll(ts: seq<Tree>, p: Progress): Progress {
    Progress(p.pos + |EventsOf(ts)|, p.count + NodesOf(ts), p.anchors + SetOf(AnchorsOf(ts)))
  }

  /** The events from `pos` on begin with `what`. */
  predicate Spelled(es: seq<Event>, pos: nat, what: seq<Event>) {
    pos + |what| <= |es| && es[pos..pos + |what|] == what
  }

  lemma SpelledSplit(es: seq<Event>, pos: nat, a: seq<Event>, b: seq<Event>)
    ensures Spelled(es, pos, a + b) <==> Spelled(es, pos, a) && Spelled(es, pos + |a|, b)
  {
    if pos + |a| + |b| <= |es| {
      assert es[pos..pos + |a + b|] == es[pos..pos + |a|] + es[pos + |a|..pos + |a| + |b|];
      if Spelled(es, pos, a + b) {
        assert (a + b)[..|a|] == a && (a + b)[|a|..] == b;
      }
    }
  }

  lemma FreshSplit(a: seq<string>, b: seq<string>, taken: set<string>)
    ensures Fresh(a + b, taken) <==> Fresh(a, taken) && Fresh(b, taken + SetOf(a))
    ensures SetOf(a + b) == SetOf(a) + SetOf(b)
  {
    var c := a + b;
    assert forall i :: 0 <= i < |a| ==> c[i] == a[i];
    assert forall i :: 0 <= i < |b| ==> c[|a| + i] == b[i];
    assert forall n :: n in c <==> n in a || n in b;
    if Distinct(c) {
      forall i, j | 0 <= i < |a| && 0 <= j < |b| ensures a[i] != b[j] {
        assert c[i] != c[|a| + j];
      }
      forall i, j | 0 <= i < j < |b| ensures b[i] != b[j] {
        assert c[|a| + i] != c[|a| + j];
      }
    }
    if Fresh(a, taken) && Fresh(b, taken + SetOf(a)) {
      forall i, j | 0 <= i < j < |c| ensures c[i] != c[j] {
        if i < |a| <= j {
          assert c[i] in SetOf(a) && c[j] in SetOf(b);
        } else if |a| <= i {
          assert b[i - |a|] != b[j - |a|];
        }
      }
    }
  }

  lemma FreshNamed(anchor: Option<string>, taken: set<string>)
    ensures Fresh(Named(anchor), taken) <==> !Taken(anchor, taken)
    ensures taken + SetOf(Named(anchor)) == Filed(anchor, taken)
  {
    match anchor
    case None =>
      assert SetOf([]) == {};
    case Some(name) =>
      assert SetOf([name]) == {name};
  }

  /** A first child and the rest fit exactly when all the children do. */
  lemma FitsFirst(x: Expansion, ts: seq<Tree>, p: Progress, depth: nat, inKey: bool, kind: Kind, first: nat)
    requires ts != []
    ensures AllFit(x, ts, p, depth, inKey, kind, first)
            <==> Fits(x, ts[0], p, depth, KeyAt(kind, inKey, first))
                 && AllFit(x, ts[1..], Past(ts[0], p), depth, inKey, kind, first + 1)
    ensures PastAll(ts, p) == PastAll(ts[1..], Past(ts[0], p))
  {
    FreshSplit(Anchors(ts[0]), AnchorsOf(ts[1..]), p.anchors);
    hide Fresh, SetOf;
  }

  /** A collection fits exactly when its start does and its children fit one level down. */
  lemma FitsCollection(x: Expansion, t: Tree, p: Progress, depth: nat, inKey: bool)
    requires t.Collection? && p.count + 1 <= MAX_NODES && depth + 1 <= MAX_DEPTH
    ensures var inside := Progress(p.pos + 1, p.count + 1, Filed(t.anchor, p.anchors));
            && (Fits(x, t, p, depth, inKey)
                <==> !Taken(t.anchor, p.anchors) && Entries(t.kind, |t.children|) <= MAX_ENTRIES
                     && AllFit(x, t.children, inside, depth + 1, inKey, t.kind, 0))
            && var end := PastAll(t.children, inside); Past(t, p) == end.(pos := end.pos + 1)
  {
    FreshSplit(Named(t.anchor), AnchorsOf(t.children), p.anchors);
    FreshNamed(t.anchor, p.anchors);
    hide Fresh, SetOf, Taken, Filed;
  }

  // ----- The composer over the events of a tree -----

  /** Composing the events of a tree gives the tree expanded when it fits, and is refused
      when it does not. */
  lemma {:induction false} ComposeTree(es: seq<Event>, x: Expansion, t: Tree, p: Progress, depth: nat, inKey: bool)
    requires Paired(t) && Spelled(es, p.pos, Events(t))
    ensures var r := ComposeNode(es, x, p, depth, inKey);
            if Fits(x, t, p, depth, inKey) then r == Done(Expanded(x, inKey, t), Past(t, p)) else r.Failed?
    decreases t, 1
  {
    assert es[p.pos..p.pos + |Events(t)|][0] == es[p.pos];
    match t
    case Alias(_) =>
    case Scalar(anchor, tag, value, plain) =>
      FreshNamed(anchor, p.anchors);
    case Collection(kind, anchor, tag, children) =>
      ComposeCollectionTree(es, x, t, p, depth, inKey);
  }

  /** A collection is its start, its children and its end. */
  lemma StartsCollection(es: seq<Event>, x: Expansion, t: Tree, p: Progress, depth: nat, inKey: bool)
    requires t.Collection? && Paired(t) && Spelled(es, p.pos, Events(t))
    ensures var inside := Progress(p.pos + 1, p.count + 1, Filed(t.anchor, p.anchors));
            && Spelled(es, p.pos + 1, EventsOf(t.children) + [EndEvent(t.kind)])
            && AllPaired(t.children) && (t.kind == Mapping ==> |t.children| % 2 == 0)
            && ComposeNode(es, x, p, depth, inKey)
               == if p.count + 1 > MAX_NODES then Failed(TooManyNodes)
                  else if depth + 1 > MAX_DEPTH then Failed(TooDeep)
                  else if Taken(t.anchor, p.anchors) then Failed(DuplicateAnchor)
                  else Gathered(t, ComposeChildren(es, x, inside, depth + 1, inKey, t.kind, []))
  {
    var start := StartEvent(t.kind, t.anchor, t.tag);
    var inner := EventsOf(t.children) + [EndEvent(t.kind)];
    assert Events(t) == [start] + inner;
    SpelledSplit(es, p.pos, [start], inner);
    assert es[p.pos..p.pos + 1][0] == es[p.pos];
    hide Spelled, Events, EventsOf, ComposeChildren, Taken, Filed;
  }

  /** The collection `t` with the children composed for it. */
  function Gathered(t: Tree, r: Children): Composed
    requires t.Collection?
  {
    match r
    case Broken(error) => Failed(error)
    case AllDone(children, next) =>
      if Entries(t.kind, |children|) > MAX_ENTRIES then Failed(TooManyEntries)
      else Done(t.(children := children), next)
  }

  lemma {:induction false} ComposeCollectionTree(
    es: seq<Event>, x: Expansion, t: Tree, p: Progress, depth: nat, inKey: bool)
    requires t.Collection? && Paired(t) && Spelled(es, p.pos, Events(t))
    ensures var r := ComposeNode(es, x, p, depth, inKey);
            if Fits(x, t, p, depth, inKey) then r == Done(Expanded(x, inKey, t), Past(t, p)) else r.Failed?
    decreases t, 0
  {
    hide Expanded, ExpandedFrom, Fits, AllFit, Past, PastAll, Spelled, Events, EventsOf, ComposeNode, ComposeChildren,
      Taken, Filed, Paired, AllPaired;
    StartsCollection(es, x, t, p, depth, inKey);
    Bounds(x, t, p, depth, inKey);
    ExpandedChildren(x, t, inKey);
    if p.count + 1 <= MAX_NODES && depth + 1 <= MAX_DEPTH {
      FitsCollection(x, t, p, depth, inKey);
      ComposeForest(es, x, t.children, Progress(p.pos + 1, p.count + 1, Filed(t.anchor, p.anchors)),
                    depth + 1, inKey, t.kind, []);
    }
  }

  lemma Bounds(x: Expansion, t: Tree, p: Progress, depth: nat, inKey: bool)
    ensures Fits(x, t, p, depth, inKey) ==> p.count + 1 <= MAX_NODES && depth + 1 <= MAX_DEPTH
  {
  }

  lemma ExpandedChildren(x: Expansion, t: Tree, inKey: bool)
    requires t.Collection?
    ensures Expanded(x, inKey, t) == t.(children := [] + ExpandedFrom(x, inKey, t.kind, 0, t.children))
  {
    var all := ExpandedFrom(x, inKey, t.kind, 0, t.children);
    assert [] + all == all;
  }

  lemma EndsForest(
    es: seq<Event>, x: Expansion, ts: seq<Tree>, p: Progress, depth: nat, inKey: bool, kind: Kind, done: seq<Tree>)
    requires ts == [] && Spelled(es, p.pos, EventsOf(ts) + [EndEvent(kind)]) && (kind == Mapping ==> |done| % 2 == 0)
    requires p.count <= MAX_NODES && depth <= MAX_DEPTH
    ensures ComposeChildren(es, x, p, depth, inKey, kind, done) == AllDone(done, p.(pos := p.pos + 1))
    ensures AllFit(x, ts, p, depth, inKey, kind, |done|) && PastAll(ts, p) == p
    ensures done + ExpandedFrom(x, inKey, kind, |done|, ts) == done
  {
    assert es[p.pos..p.pos + 1][0] == es[p.pos];
    assert SetOf(AnchorsOf(ts)) == {};
  }

  lemma StepsForest(
    es: seq<Event>, x: Expansion, ts: seq<Tree>, p: Progress, depth: nat, inKey: bool, kind: Kind, done: seq<Tree>)
    requires ts != [] && Spelled(es, p.pos, EventsOf(ts) + [EndEvent(kind)])
    ensures Spelled(es, p.pos, Events(ts[0]))
    ensures Spelled(es, p.pos + |Events(ts[0])|, EventsOf(ts[1..]) + [EndEvent(kind)])
    ensures ComposeChildren(es, x, p, depth, inKey, kind, done)
            == var r := ComposeNode(es, x, p, depth, KeyAt(kind, inKey, |done|));
               if r.Failed? then Broken(r.error)
               else ComposeChildren(es, x, r.next, depth, inKey, kind, done + [r.node])
  {
    var head := Events(ts[0]);
    var tail := EventsOf(ts[1..]) + [EndEvent(kind)];
    assert EventsOf(ts) + [EndEvent(kind)] == head + tail;
    SpelledSplit(es, p.pos, head, tail);
    assert es[p.pos..p.pos + |head|][0] == es[p.pos];
    hide ComposeNode, EventsOf, Events;
  }

  lemma {:induction false} ComposeForest(
    es: seq<Event>, x: Expansion, ts: seq<Tree>, p: Progress, depth: nat, inKey: bool, kind: Kind, done: seq<Tree>)
    requires AllPaired(ts) && Spelled(es, p.pos, EventsOf(ts) + [EndEvent(kind)])
    requires kind == Mapping ==> (|done| + |ts|) % 2 == 0
    requires p.count <= MAX_NODES && depth <= MAX_DEPTH
    ensures var r := ComposeChildren(es, x, p, depth, inKey, kind, done);
            var end := PastAll(ts, p);
            if AllFit(x, ts, p, depth, inKey, kind, |done|)
            then r == AllDone(done + ExpandedFrom(x, inKey, kind, |done|, ts), end.(pos := end.pos + 1))
            else r.Broken?
    decreases ts
  {
    hide AllFit, Fits, ComposeChildren, ComposeNode, Past, PastAll, Spelled, Events, EventsOf, Expanded, ExpandedFrom,
      KeyAt;
    if ts == [] {
      EndsForest(es, x, ts, p, depth, inKey, kind, done);
    } else {
      var key := KeyAt(kind, inKey, |done|);
      StepsForest(es, x, ts, p, depth, inKey, kind, done);
      ComposeTree(es, x, ts[0], p, depth, key);
      FitsFirst(x, ts, p, depth, inKey, kind, |done|);
      ExpandedStep(x, inKey, kind, done, ts);
      if Fits(x, ts[0], p, depth, key) {
        PastFits(x, ts[0], p, depth, key);
        ComposeForest(es, x, ts[1..], Past(ts[0], p), depth, inKey, kind, done + [Expanded(x, key, ts[0])]);
      }
    }
  }

  lemma PastFits(x: Expansion, t: Tree, p: Progress, depth: nat, inKey: bool)
    requires Fits(x, t, p, depth, inKey)
    ensures Past(t, p).count <= MAX_NODES && Past(t, p).pos == p.pos + |Events(t)|
  {
  }

  lemma ExpandedStep(x: Expansion, inKey: bool, kind: Kind, done: seq<Tree>, ts: seq<Tree>)
    requires ts != []
    ensures var head := Expanded(x, KeyAt(kind, inKey, |done|), ts[0]);
            done + ExpandedFrom(x, inKey, kind, |done|, ts)
            == (done + [head]) + ExpandedFrom(x, inKey, kind, |done| + 1, ts[1..])
  {
  }

  // ----- Every success is the composing of a tree -----

  /** Whatever the events, composing succeeds only where they spell a tree. */
  lemma {:induction false} ComposedSpells(es: seq<Event>, x: Expansion, p: Progress, depth: nat, inKey: bool)
    returns (t: Tree)
    requires p.pos <= |es| && ComposeNode(es, x, p, depth, inKey).Done?
    ensures Paired(t) && Spelled(es, p.pos, Events(t))
    decreases |es| - p.pos, 1
  {
    match es[p.pos]
    case ScalarEvent(anchor, tag, value, plain) =>
      t := Scalar(anchor, tag, value, plain);
      assert es[p.pos..p.pos + 1] == [es[p.pos]];
    case StartEvent(kind, anchor, tag) =>
      var inside := Progress(p.pos + 1, p.count + 1, Filed(anchor, p.anchors));
      var children := ChildrenSpell(es, x, inside, depth + 1, inKey, kind, []);
      t := Collection(kind, anchor, tag, children);
      assert es[p.pos..p.pos + 1] == [es[p.pos]];
      SpelledSplit(es, p.pos, [es[p.pos]], EventsOf(children) + [EndEvent(kind)]);
      assert Events(t) == [es[p.pos]] + (EventsOf(children) + [EndEvent(kind)]);
  }

  lemma {:induction false} ChildrenSpell(
    es: seq<Event>, x: Expansion, p: Progress, depth: nat, inKey: bool, kind: Kind, done: seq<Tree>)
    returns (ts: seq<Tree>)
    requires p.pos <= |es| && ComposeChildren(es, x, p, depth, inKey, kind, done).AllDone?
    ensures AllPaired(ts) && Spelled(es, p.pos, EventsOf(ts) + [EndEvent(kind)])
    ensures kind == Mapping ==> (|done| + |ts|) % 2 == 0
    decreases |es| - p.pos, 2
  {
    hide *;
    if EndsAt(es, p.pos, kind, |done|) {
      ts := [];
      SpelledEnd(es, p.pos, ts, kind, |done|);
    } else {
      var key := KeyAt(kind, inKey, |done|);
      var r := Unrolled(es, x, p, depth, inKey, kind, done);
      var head := ComposedSpells(es, x, p, depth, key);
      ComposeTree(es, x, head, p, depth, key);
      PastIs(head, p);
      var rest := ChildrenSpell(es, x, r.next, depth, inKey, kind, done + [r.node]);
      ts := [head] + rest;
      SpelledChildren(es, p.pos, head, rest, kind);
    }
  }

  lemma SpelledEnd(es: seq<Event>, pos: nat, ts: seq<Tree>, kind: Kind, done: nat)
    requires ts == [] && EndsAt(es, pos, kind, done)
    ensures AllPaired(ts) && Spelled(es, pos, EventsOf(ts) + [EndEvent(kind)])
    ensures kind == Mapping ==> done % 2 == 0
  {
    assert es[pos..pos + 1] == [EndEvent(kind)];
  }

  lemma Unrolled(
    es: seq<Event>, x: Expansion, p: Progress, depth: nat, inKey: bool, kind: Kind, done: seq<Tree>)
    returns (r: Composed)
    requires p.pos <= |es| && !EndsAt(es, p.pos, kind, |done|)
    requires ComposeChildren(es, x, p, depth, inKey, kind, done).AllDone?
    ensures r == ComposeNode(es, x, p, depth, KeyAt(kind, inKey, |done|)) && r.Done?
    ensures ComposeChildren(es, x, r.next, depth, inKey, kind, done + [r.node]).AllDone?
  {
    hide ComposeNode;
    r := ComposeNode(es, x, p, depth, KeyAt(kind, inKey, |done|));
  }

  lemma PastIs(t: Tree, p: Progress)
    ensures Past(t, p).pos == p.pos + |Events(t)|
  {
  }

  lemma SpelledChildren(es: seq<Event>, pos: nat, head: Tree, rest: seq<Tree>, kind: Kind)
    requires Paired(head) && Spelled(es, pos, Events(head))
    requires AllPaired(rest) && Spelled(es, pos + |Events(head)|, EventsOf(rest) + [EndEvent(kind)])
    ensures AllPaired([head] + rest) && Spelled(es, pos, EventsOf([head] + rest) + [EndEvent(kind)])
  {
    var ts := [head] + rest;
    assert ts[1..] == rest;
    SpelledSplit(es, pos, Events(head), EventsOf(rest) + [EndEvent(kind)]);
    assert EventsOf(ts) + [EndEvent(kind)] == Events(head) + (EventsOf(rest) + [EndEvent(kind)]);
  }

  // ----- The main results -----

  const START := Progress(0, 0, {})

  /** Composing a whole document succeeds exactly when it has no alias and uses no anchor
      twice, is at most 32 deep and 20000 nodes large, and has no collection over 1000
      entries and, once expanded, no scalar over 4096 characters; and then it gives the
      document itself, its value scalars expanded. */
  lemma LimitsAreExact(x: Expansion, t: Tree)
    requires Paired(t)
    ensures var r := ComposeNode(Events(t), x, START, 0, false);
            && (r.Done? <==> AliasFree(t) && Distinct(Anchors(t)) && Depth(t) <= MAX_DEPTH && Nodes(t) <= MAX_NODES
                             && Narrow(t) && Short(x, false, t))
            && (r.Done? ==> r.node == Expanded(x, false, t) && r.next.pos == |Events(t)|)
  {
    assert Events(t)[0..|Events(t)|] == Events(t);
    ComposeTree(Events(t), x, t, START, 0, false);
  }

  /** A list that files two scalars under one anchor is within every documented limit, and
      is refused. */
  lemma RepeatedAnchorRefused(anchor: string, text: string)
    requires |text| <= MAX_SCALAR
    ensures var item := Scalar(Some(anchor), None, text, false);
            var t := Collection(Sequence, None, None, [item, item]);
            && AliasFree(t) && Depth(t) <= MAX_DEPTH && Nodes(t) <= MAX_NODES && Narrow(t) && Short(None, false, t)
            && ComposeNode(Events(t), None, START, 0, false).Failed?
  {
    var item := Scalar(Some(anchor), None, text, false);
    var t := Collection(Sequence, None, None, [item, item]);
    TwoScalars([item, item]);
    assert Anchors(t)[0] == Anchors(t)[1] == anchor;
    hide ComposeNode, Events, EventsOf;
    LimitsAreExact(None, t);
  }

  lemma TwoScalars(ts: seq<Tree>)
    requires |ts| == 2 && ts[0].Scalar? && ts[1].Scalar?
    ensures AllPaired(ts) && AllAliasFree(ts) && AllNarrow(ts) && NodesOf(ts) == 2 && DepthOf(ts) == 1
    ensures AnchorsOf(ts) == Named(ts[0].anchor) + Named(ts[1].anchor)
    ensures |ts[0].value| <= MAX_SCALAR && |ts[1].value| <= MAX_SCALAR ==> ShortFrom(None, false, Sequence, 0, ts)
  {
    assert ts[1..][0] == ts[1];
    OneScalar(ts[1..], 1);
  }

  lemma OneScalar(ts: seq<Tree>, first: nat)
    requires |ts| == 1 && ts[0].Scalar?
    ensures AllPaired(ts) && AllAliasFree(ts) && AllNarrow(ts) && NodesOf(ts) == 1 && DepthOf(ts) == 1
    ensures AnchorsOf(ts) == Named(ts[0].anchor)
    ensures |ts[0].value| <= MAX_SCALAR ==> ShortFrom(None, false, Sequence, first, ts)
  {
    var none := ts[1..];
    assert none == [];
    assert AllPaired(none) && AllAliasFree(none) && AllNarrow(none) && NodesOf(none) == 0 && DepthOf(none) == 0;
    assert AnchorsOf(none) == [] && ShortFrom(None, false, Sequence, first + 1, none);
    assert Paired(ts[0]) && AliasFree(ts[0]) && Narrow(ts[0]) && Nodes(ts[0]) == 1 && Depth(ts[0]) == 1;
  }

  /** For every event sequence: where the plain composer succeeds, the expanding one gives
      the same document with its value scalars expanded, unless one of them grew too long. */
  lemma ExpansionKeepsStructure(es: seq<Event>, env: Env, p: Progress, depth: nat, inKey: bool)
    requires p.pos <= |es| && ComposeNode(es, None, p, depth, inKey).Done?
    ensures var plain := ComposeNode(es, None, p, depth, inKey);
            var full := ComposeNode(es, Some(env), p, depth, inKey);
            if Short(Some(env), inKey, plain.node)
            then full == Done(Expanded(Some(env), inKey, plain.node), plain.next)
            else full.Failed?
  {
    hide ComposeNode, Spelled, Events, Past;
    var t := ComposedSpells(es, None, p, depth, inKey);
    ComposeTree(es, None, t, p, depth, inKey);
    ComposeTree(es, Some(env), t, p, depth, inKey);
    ExpandedNone(t, inKey);
  }

  lemma {:induction false} ExpandedNone(t: Tree, inKey: bool)
    ensures Expanded(None, inKey, t) == t
    decreases t, 1
  {
    match t
    case Collection(kind, _, _, children) => ExpandedNoneFrom(children, inKey, kind, 0);
    case _ =>
  }

  lemma {:induction false} ExpandedNoneFrom(ts: seq<Tree>, inKey: bool, kind: Kind, first: nat)
    ensures ExpandedFrom(None, inKey, kind, first, ts) == ts
    decreases ts
  {
    if ts != [] {
      ExpandedNone(ts[0], KeyAt(kind, inKey, first));
      ExpandedNoneFrom(ts[1..], inKey, kind, first + 1);
    }
  }
}
