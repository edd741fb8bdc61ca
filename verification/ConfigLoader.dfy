/** The bounded composer as the loader object that updates its own fields
    (ori/config/_document.py:58-168). */
module ConfigLoader {
  import opened Options
  import opened EnvExpansion
  import opened ConfigTrees
  import opened ConfigComposer

  datatype Parent = NoParent | ParentNode(kind: Kind)

  /** What `compose_node` is passed to say where the node stands. */
  datatype Index = NoIndex | Position(at: nat) | ValueOfKey

  class BoundedLoader {
    const events: seq<Event>
    const expandEnv: bool
    const environ: Env

    var pos: nat
    var depth: nat
    var nodeCount: nat
    var inKeyPosition: bool
    var anchors: set<string>

    function Where(): Progress
      reads this
    {
      Progress(pos, nodeCount, anchors)
    }

    function Expands(): Expansion {
      if expandEnv then Some(environ) else None
    }

    constructor (events: seq<Event>, expandEnv: bool, environ: Env)
      ensures this.events == events && this.expandEnv == expandEnv && this.environ == environ
      ensures Where() == Progress(0, 0, {}) && depth == 0 && !inKeyPosition
    {
      this.events, this.expandEnv, this.environ := events, expandEnv, environ;
      pos, depth, nodeCount, inKeyPosition, anchors := 0, 0, 0, false, {};
    }

    /** Compose one node.  The key position is always restored, and the depth too unless
        it is what refused the document. */
    method ComposeNode(parent: Parent, index: Index) returns (result: Composed)
      requires pos <= |events|
      modifies this
      ensures var key := old(inKeyPosition) || (parent == ParentNode(Mapping) && index == NoIndex);
              result == ConfigComposer.ComposeNode(events, Expands(), old(Where()), old(depth), key)
      ensures result.Done? ==> Where() == result.next
      ensures inKeyPosition == old(inKeyPosition)
      ensures depth == old(depth) + (if result == Failed(TooDeep) then 1 else 0)
      decreases |events| - pos, 2
    {
      hide ComposeCollection, ScalarText;
      if pos < |events| && events[pos].AliasEvent? {
        return Failed(AliasRefused);
      }
      if pos == |events| {
        return Failed(Malformed);
      }
      nodeCount := nodeCount + 1;
      if nodeCount > MAX_NODES {
        return Failed(TooManyNodes);
      }
      depth := depth + 1;
      if depth > MAX_DEPTH {
        return Failed(TooDeep);
      }
      var wasInKey := inKeyPosition;
      inKeyPosition := wasInKey || (parent == ParentNode(Mapping) && index == NoIndex);
      match events[pos] {
        case AliasEvent(_) =>
          result := Failed(AliasRefused);
        case EndEvent(_) =>
          result := Failed(Malformed);
        case ScalarEvent(anchor, _, _, _) =>
          if Taken(anchor, anchors) {
            result := Failed(DuplicateAnchor);
          } else {
            result := ComposeScalarNode();
          }
        case StartEvent(kind, anchor, _) =>
          if Taken(anchor, anchors) {
            result := Failed(DuplicateAnchor);
          } else {
            if kind == Sequence {
              result := ComposeSequenceNode();
            } else {
              result := ComposeMappingNode();
            }
          }
      }
      inKeyPosition := wasInKey;
      depth := depth - 1;
    }

    /** The scalar at the next event, expanded when it is a value. */
    method ComposeScalarNode() returns (result: Composed)
      requires pos < |events| && events[pos].ScalarEvent?
      modifies this`pos, this`anchors
      ensures pos == old(pos) + 1
      ensures var e := events[old(pos)];
              var text := ScalarText(Expands(), inKeyPosition, e.value, e.plain);
              && anchors == Filed(e.anchor, old(anchors))
              && result == (if |text| > MAX_SCALAR then Failed(ScalarTooLong)
                            else Done(Scalar(e.anchor, e.tag, text, e.plain), Where()))
    {
      var event := events[pos];
      var text := event.value;
      if expandEnv && !inKeyPosition {
        text := ExpandScalar(environ, event.value, event.plain);
      }
      pos := pos + 1;
      if event.anchor.Some? {
        anchors := anchors + {event.anchor.value};
      }
      if |text| > MAX_SCALAR {
        return Failed(ScalarTooLong);
      }
      return Done(Scalar(event.anchor, event.tag, text, event.plain), Where());
    }

    /** The sequence at the next event, item by item. */
    method ComposeSequenceNode() returns (result: Composed)
      requires pos < |events| && events[pos].StartEvent? && events[pos].kind == Sequence
      modifies this
      ensures result == ComposeCollection(events, Expands(), old(Where()), old(depth), old(inKeyPosition))
      ensures result.Done? ==> Where() == result.next
      ensures inKeyPosition == old(inKeyPosition)
      ensures depth == old(depth) + (if result == Failed(TooDeep) then 1 else 0)
      decreases |events| - pos, 1
    {
      hide ConfigComposer.ComposeNode;
      var start := events[pos];
      pos := pos + 1;
      anchors := Filed(start.anchor, anchors);
      var items: seq<Tree> := [];
      ghost var whole := ComposeChildren(events, Expands(), Where(), depth, inKeyPosition, Sequence, []);
      while !(pos < |events| && events[pos] == EndEvent(Sequence))
        invariant old(pos) < pos <= |events|
        invariant depth == old(depth) && inKeyPosition == old(inKeyPosition)
        invariant whole == ComposeChildren(events, Expands(), Where(), depth, inKeyPosition, Sequence, items)
        decreases |events| - pos
      {
        var item := ComposeNode(ParentNode(Sequence), Position(|items|));
        if item.Failed? {
          return item;
        }
        items := items + [item.node];
      }
      pos := pos + 1;
      if |items| > MAX_ENTRIES {
        return Failed(TooManyEntries);
      }
      return Done(Collection(Sequence, start.anchor, start.tag, items), Where());
    }

    /** The mapping at the next event, each key before its value. */
    method ComposeMappingNode() returns (result: Composed)
      requires pos < |events| && events[pos].StartEvent? && events[pos].kind == Mapping
      modifies this
      ensures result == ComposeCollection(events, Expands(), old(Where()), old(depth), old(inKeyPosition))
      ensures result.Done? ==> Where() == result.next
      ensures inKeyPosition == old(inKeyPosition)
      ensures depth == old(depth) + (if result == Failed(TooDeep) then 1 else 0)
      decreases |events| - pos, 1
    {
      hide ConfigComposer.ComposeNode;
      var start := events[pos];
      pos := pos + 1;
      anchors := Filed(start.anchor, anchors);
      var pairs: seq<Tree> := [];
      ghost var whole := ComposeChildren(events, Expands(), Where(), depth, inKeyPosition, Mapping, []);
      while !(pos < |events| && events[pos] == EndEvent(Mapping))
        invariant old(pos) < pos <= |events|
        invariant depth == old(depth) && inKeyPosition == old(inKeyPosition)
        invariant |pairs| % 2 == 0
        invariant whole == ComposeChildren(events, Expands(), Where(), depth, inKeyPosition, Mapping, pairs)
        decreases |events| - pos
      {
        var key := ComposeNode(ParentNode(Mapping), NoIndex);
        if key.Failed? {
          return key;
        }
        pairs := pairs + [key.node];
        var value := ComposeNode(ParentNode(Mapping), ValueOfKey);
        if value.Failed? {
          return value;
        }
        pairs := pairs + [value.node];
      }
      pos := pos + 1;
      if |pairs| / 2 > MAX_ENTRIES {
        return Failed(TooManyEntries);
      }
      return Done(Collection(Mapping, start.anchor, start.tag, pairs), Where());
    }
  }
}
