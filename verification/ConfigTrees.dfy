/** Configuration documents as trees, and the parser events that spell them
    (ori/config/_document.py:55-204). */
module ConfigTrees {
  import opened Options
  import opened EnvExpansion

  datatype Kind = Sequence | Mapping

  datatype Error =
    | AliasRefused
    | TooManyNodes
    | TooDeep
    | DuplicateAnchor
    | ScalarTooLong
    | TooManyEntries
    | Malformed

  datatype Event =
    | AliasEvent(name: string)
    | ScalarEvent(anchor: Option<string>, tag: Option<string>, value: string, plain: bool)
    | StartEvent(kind: Kind, anchor: Option<string>, tag: Option<string>)
    | EndEvent(kind: Kind)

  /** A document's tree.  The children of a mapping stand key, value, key, value; the
      anchor is the name a composed node is filed under. */
  datatype Tree =
    | Alias(name: string)
    | Scalar(anchor: Option<string>, tag: Option<string>, value: string, plain: bool)
    | Collection(kind: Kind, anchor: Option<string>, tag: Option<string>, children: seq<Tree>)

  const MAX_DEPTH: nat := 32
  const MAX_NODES: nat := 20_000
  const MAX_ENTRIES: nat := 1_000
  const MAX_SCALAR: nat := 4_096

  /** Every key of a mapping has its value. */
  predicate Paired(t: Tree) {
    match t
    case Collection(kind, _, _, children) => (kind == Mapping ==> |children| % 2 == 0) && AllPaired(children)
    case _ => true
  }

  predicate AllPaired(ts: seq<Tree>) {
    ts == [] || (Paired(ts[0]) && AllPaired(ts[1..]))
  }

  // ----- The events of a tree -----

  function Events(t: Tree): (es: seq<Event>)
    ensures es != [] && !es[0].EndEvent?
  {
    match t
    case Alias(name) => [AliasEvent(name)]
    case Scalar(anchor, tag, value, plain) => [ScalarEvent(anchor, tag, value, plain)]
    case Collection(kind, anchor, tag, children) =>
      [StartEvent(kind, anchor, tag)] + EventsOf(children) + [EndEvent(kind)]
  }

  function EventsOf(ts: seq<Tree>): seq<Event> {
    if ts == [] then [] else Events(ts[0]) + EventsOf(ts[1..])
  }

  // ----- What the limits measure -----

  function Nodes(t: Tree): nat {
    match t
    case Collection(_, _, _, children) => 1 + NodesOf(children)
    case _ => 1
  }

  function NodesOf(ts: seq<Tree>): nat {
    if ts == [] then 0 else Nodes(ts[0]) + NodesOf(ts[1..])
  }

  function Max(a: nat, b: nat): nat {
    if a >= b then a else b
  }

  function Depth(t: Tree): nat {
    match t
    case Collection(_, _, _, children) => 1 + DepthOf(children)
    case _ => 1
  }

  function DepthOf(ts: seq<Tree>): nat {
    if ts == [] then 0 else Max(Depth(ts[0]), DepthOf(ts[1..]))
  }

  predicate AliasFree(t: Tree) {
    match t
    case Alias(_) => false
    case Scalar(_, _, _, _) => true
    case Collection(_, _, _, children) => AllAliasFree(children)
  }

  predicate AllAliasFree(ts: seq<Tree>) {
    ts == [] || (AliasFree(ts[0]) && AllAliasFree(ts[1..]))
  }

  function Named(anchor: Option<string>): seq<string> {
    match anchor
    case None => []
    case Some(name) => [name]
  }

  /** The anchors of a tree, in document order. */
  function Anchors(t: Tree): seq<string> {
    match t
    case Alias(_) => []
    case Scalar(anchor, _, _, _) => Named(anchor)
    case Collection(_, anchor, _, children) => Named(anchor) + AnchorsOf(children)
  }

  function AnchorsOf(ts: seq<Tree>): seq<string> {
    if ts == [] then [] else Anchors(ts[0]) + AnchorsOf(ts[1..])
  }

  function Entries(kind: Kind, children: nat): nat {
    if kind == Mapping then children / 2 else children
  }

  /** No collection has more entries than the limit. */
  predicate Narrow(t: Tree) {
    match t
    case Collection(kind, _, _, children) => Entries(kind, |children|) <= MAX_ENTRIES && AllNarrow(children)
    case _ => true
  }

  predicate AllNarrow(ts: seq<Tree>) {
    ts == [] || (Narrow(ts[0]) && AllNarrow(ts[1..]))
  }

  // ----- Expansion over a tree -----

  /** None when the loader does not expand. */
  type Expansion = Option<Env>

  function ScalarText(x: Expansion, inKey: bool, value: string, plain: bool): string {
    if inKey || x == None then value else ExpandScalar(x.value, value, plain)
  }

  /** Whether the child at `index` of a collection stands where a key does. */
  predicate KeyAt(kind: Kind, inKey: bool, index: nat) {
    inKey || (kind == Mapping && index % 2 == 0)
  }

  function Expanded(x: Expansion, inKey: bool, t: Tree): Tree
    decreases t
  {
    match t
    case Alias(_) => t
    case Scalar(_, _, value, plain) => t.(value := ScalarText(x, inKey, value, plain))
    case Collection(kind, _, _, children) => t.(children := ExpandedFrom(x, inKey, kind, 0, children))
  }

  /** `ts` are the children from index `first` on. */
  function ExpandedFrom(x: Expansion, inKey: bool, kind: Kind, first: nat, ts: seq<Tree>): (r: seq<Tree>)
    ensures |r| == |ts|
    decreases ts
  {
    if ts == [] then []
    else
      [Expanded(x, KeyAt(kind, inKey, first), ts[0])] + ExpandedFrom(x, inKey, kind, first + 1, ts[1..])
  }

  /** No scalar is longer than the limit once it is expanded. */
  predicate Short(x: Expansion, inKey: bool, t: Tree)
    decreases t
  {
    match t
    case Alias(_) => true
    case Scalar(_, _, value, plain) => |ScalarText(x, inKey, value, plain)| <= MAX_SCALAR
    case Collection(kind, _, _, children) => ShortFrom(x, inKey, kind, 0, children)
  }

  predicate ShortFrom(x: Expansion, inKey: bool, kind: Kind, first: nat, ts: seq<Tree>)
    decreases ts
  {
    ts == []
    || (Short(x, KeyAt(kind, inKey, first), ts[0]) && ShortFrom(x, inKey, kind, first + 1, ts[1..]))
  }

  // ----- What expansion keeps, place by place -----

  /** The tree at a path of child indices. */
  function At(t: Tree, path: seq<nat>): Option<Tree>
    decreases |path|
  {
    if path == [] then Some(t)
    else if !t.Collection? || path[0] >= |t.children| then None
    else At(t.children[path[0]], path[1..])
  }

  /** Whether some step of the path goes to a mapping's key. */
  predicate UnderKey(t: Tree, path: seq<nat>)
    requires At(t, path).Some?
    decreases |path|
  {
    path != [] && ((t.kind == Mapping && path[0] % 2 == 0) || UnderKey(t.children[path[0]], path[1..]))
  }

  lemma {:induction false} ExpandedChild(x: Expansion, inKey: bool, kind: Kind, first: nat, ts: seq<Tree>, i: nat)
    requires i < |ts|
    ensures ExpandedFrom(x, inKey, kind, first, ts)[i] == Expanded(x, KeyAt(kind, inKey, first + i), ts[i])
    decreases i
  {
    if i > 0 {
      ExpandedChild(x, inKey, kind, first + 1, ts[1..], i - 1);
    }
  }

  ghost predicate ShapeKeptAt(env: Env, inKey: bool, t: Tree, path: seq<nat>) {
    match (At(t, path), At(Expanded(Some(env), inKey, t), path))
    case (None, None) => true
    case (Some(a), Some(b)) =>
      (match a
       case Alias(_) => b == a
       case Scalar(_, _, value, plain) =>
         b == a.(value := if inKey || UnderKey(t, path) then value else ExpandScalar(env, value, plain))
       case Collection(kind, anchor, tag, children) =>
         b.Collection? && b.kind == kind && b.anchor == anchor && b.tag == tag && |b.children| == |children|)
    case _ => false
  }

  /** Same places, same kinds, tags and anchors; every scalar under a key as written, and
      every other the single-pass substitution of what was written. */
  lemma {:induction false} ShapeKept(env: Env, inKey: bool, t: Tree, path: seq<nat>)
    ensures ShapeKeptAt(env, inKey, t, path)
    decreases |path|
  {
    if path != [] && t.Collection? && path[0] < |t.children| {
      ExpandedChild(Some(env), inKey, t.kind, 0, t.children, path[0]);
      ShapeKept(env, KeyAt(t.kind, inKey, path[0]), t.children[path[0]], path[1..]);
    }
  }
}
