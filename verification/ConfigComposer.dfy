/** The bounded composer as a function of the events
    (ori/config/_document.py:67-168, over PyYAML's Composer). */
module ConfigComposer {
  import opened Options
  import opened ConfigTrees

  /** Where composing stands: the next event, the nodes counted and the anchors filed. */
  datatype Progress = Progress(pos: nat, count: nat, anchors: set<string>)

  datatype Composed = Done(node: Tree, next: Progress) | Failed(error: Error)
  datatype Children = AllDone(nodes: seq<Tree>, next: Progress) | Broken(error: Error)

  predicate Taken(anchor: Option<string>, anchors: set<string>) {
    anchor.Some? && anchor.value in anchors
  }

  function Filed(anchor: Option<string>, anchors: set<string>): set<string> {
    if anchor.Some? then anchors + {anchor.value} else anchors
  }

  /** Compose the node at `p`, `depth` levels down; `inKey` says whether it is, or is
      inside, a mapping key. */
  function ComposeNode(es: seq<Event>, x: Expansion, p: Progress, depth: nat, inKey: bool): (r: Composed)
    requires p.pos <= |es|
    ensures r.Done? ==> p.pos < r.next.pos <= |es|
    decreases |es| - p.pos, 1
  {
    if p.pos == |es| then Failed(Malformed)
    else if es[p.pos].AliasEvent? then Failed(AliasRefused)
    else if p.count + 1 > MAX_NODES then Failed(TooManyNodes)
    else if depth + 1 > MAX_DEPTH then Failed(TooDeep)
    else
      match es[p.pos]
      case AliasEvent(_) => Failed(AliasRefused)
      case EndEvent(_) => Failed(Malformed)
      case ScalarEvent(anchor, tag, value, plain) =>
        if Taken(anchor, p.anchors) then Failed(DuplicateAnchor)
        else
          var text := ScalarText(x, inKey, value, plain);
          if |text| > MAX_SCALAR then Failed(ScalarTooLong)
          else Done(Scalar(anchor, tag, text, plain), Progress(p.pos + 1, p.count + 1, Filed(anchor, p.anchors)))
      case StartEvent(kind, anchor, tag) =>
        if Taken(anchor, p.anchors) then Failed(DuplicateAnchor)
        else ComposeCollection(es, x, p.(count := p.count + 1), depth + 1, inKey)
  }

  /** The collection whose start is the event at `p`, its children at `depth`. */
  function ComposeCollection(es: seq<Event>, x: Expansion, p: Progress, depth: nat, inKey: bool): (r: Composed)
    requires p.pos < |es| && es[p.pos].StartEvent?
    ensures r.Done? ==> p.pos < r.next.pos <= |es|
    decreases |es| - p.pos, 0
  {
    var start := es[p.pos];
    var inside := Progress(p.pos + 1, p.count, Filed(start.anchor, p.anchors));
    match ComposeChildren(es, x, inside, depth, inKey, start.kind, [])
    case Broken(error) => Failed(error)
    case AllDone(children, next) =>
      if Entries(start.kind, |children|) > MAX_ENTRIES then Failed(TooManyEntries)
      else Done(Collection(start.kind, start.anchor, start.tag, children), next)
  }

  /** Whether the collection ends here: a mapping looks for its end only before a key. */
  predicate EndsAt(es: seq<Event>, pos: nat, kind: Kind, done: nat) {
    pos < |es| && es[pos] == EndEvent(kind) && (kind == Mapping ==> done % 2 == 0)
  }

  /** The children still to come after `done`. */
  function ComposeChildren(
    es: seq<Event>, x: Expansion, p: Progress, depth: nat, inKey: bool, kind: Kind, done: seq<Tree>): (r: Children)
    requires p.pos <= |es|
    ensures r.AllDone? ==> p.pos < r.next.pos <= |es|
    decreases |es| - p.pos, 2
  {
    if EndsAt(es, p.pos, kind, |done|) then AllDone(done, p.(pos := p.pos + 1))
    else
      match ComposeNode(es, x, p, depth, KeyAt(kind, inKey, |done|))
      case Failed(error) => Broken(error)
      case Done(node, next) => ComposeChildren(es, x, next, depth, inKey, kind, done + [node])
  }
}
