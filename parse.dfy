/** The event fold that infers a type tree from a value: `parse` in
    src/compiler/parse.ts and its older copy in src/parse.ts.

    The source mutates shared `TypeNode` objects in place. Here the objects
    live in an arena (`ParseState.nodes`) and are addressed by index, so an
    index plays the part of an object reference; `Map`s and `Set`s keyed by
    nodes become Dafny maps and sets of indices. `Map` and `Set` keep
    insertion order, so a node's children and types are sequences without
    duplicates. The two source files differ in one respect, selected by
    `trackParents`: src/compiler/parse.ts keeps `parentLinks` and lets the
    close of a string-keyed container mark that key present in its parent;
    src/parse.ts does neither. */
module Parse {
  import opened Json
  import opened Wrappers
  import opened TreeWalk

  /** A child key of a type node: every array index becomes `0` (`Item`);
      object keys are kept. */
  datatype ChildKey = Item | Field(name: string)

  /** One `TypeNode` object. `children` is `undefined` (None) until the node
      is opened as a container; it lists (key, node index) pairs in insertion
      order. `requiredKeys` is `undefined` (None) or a set of keys. */
  datatype NodeRec = NodeRec(
    children: Option<seq<(ChildKey, nat)>>,
    types: seq<string>,
    requiredKeys: Option<set<string>>)

  /** The loop's variables: the arena of node objects, `stack`,
      `currentNode`, `parentLinks`, `missedRevisitKeys` and `visitedNodes`. */
  datatype ParseState = ParseState(
    nodes: seq<NodeRec>,
    stack: seq<nat>,
    current: Option<nat>,
    parentLinks: map<nat, Option<nat>>,
    missedRevisitKeys: map<nat, set<string>>,
    visitedNodes: set<nat>)

  const InitialState := ParseState([], [], None, map[], map[], {})

  const NewNode := NodeRec(None, [], None)

  function ChildKeyOf(k: Key): ChildKey
  {
    match k
    case Index(_) => Item
    case Name(s) => Field(s)
  }

  /** The position of key `k` among the children, if any. */
  function KeyIndex(cs: seq<(ChildKey, nat)>, k: ChildKey): (r: Option<nat>)
    ensures r.Some? ==> r.value < |cs| && cs[r.value].0 == k
    ensures r.None? ==> forall j :: 0 <= j < |cs| ==> cs[j].0 != k
  {
    if |cs| == 0 then None
    else if cs[|cs| - 1].0 == k then Some(|cs| - 1)
    else KeyIndex(cs[..|cs| - 1], k)
  }

  /** `children.get(k)`. */
  function FindChild(cs: seq<(ChildKey, nat)>, k: ChildKey): (r: Option<nat>)
  {
    match KeyIndex(cs, k)
    case Some(j) => Some(cs[j].1)
    case None => None
  }

  /** `children.set(k, id)`: replaces the value of an existing key in place,
      or appends a new pair. */
  function SetChild(cs: seq<(ChildKey, nat)>, k: ChildKey, id: nat): seq<(ChildKey, nat)>
  {
    match KeyIndex(cs, k)
    case Some(j) => cs[j := (k, id)]
    case None => cs + [(k, id)]
  }

  /** `types.add(t)` on an insertion-ordered set. */
  function AddType(types: seq<string>, t: string): (r: seq<string>)
    ensures t in r && types <= r
    ensures forall u :: u in r ==> u == t || u in types
  {
    if t in types then types else types + [t]
  }

  /** Keys distinct, every child created after its parent, every index in
      range. */
  predicate ChildrenOk(cs: seq<(ChildKey, nat)>, parent: nat, size: nat)
  {
    (forall j :: 0 <= j < |cs| ==> parent < cs[j].1 < size)
    && (forall i, j :: 0 <= i < j < |cs| ==> cs[i].0 != cs[j].0)
  }

  /** The object keys among a node's children. */
  function FieldKeys(cs: seq<(ChildKey, nat)>): set<string>
  {
    set j | 0 <= j < |cs| && cs[j].0.Field? :: cs[j].0.name
  }

  function ChildrenOrEmpty(n: NodeRec): seq<(ChildKey, nat)>
  {
    if n.children.Some? then n.children.value else []
  }

  /** `requiredKeys` is never an empty set and names only keys of the
      node's children. */
  predicate RequiredOk(n: NodeRec)
  {
    n.requiredKeys.Some? ==>
      n.requiredKeys.value != {} && n.requiredKeys.value <= FieldKeys(ChildrenOrEmpty(n))
  }

  predicate NodeOk(nodes: seq<NodeRec>, p: nat)
    requires p < |nodes|
  {
    ChildrenOk(ChildrenOrEmpty(nodes[p]), p, |nodes|) && RequiredOk(nodes[p])
  }

  ghost predicate ArenaOk(nodes: seq<NodeRec>)
  {
    forall p :: 0 <= p < |nodes| ==> NodeOk(nodes, p)
  }

  /** Every node on the stack exists and has been opened as a container. */
  ghost predicate StackOk(nodes: seq<NodeRec>, stack: seq<nat>)
  {
    forall i :: 0 <= i < |stack| ==> stack[i] < |nodes| && nodes[stack[i]].children.Some?
  }

  /** The arena's structural invariant. */
  ghost predicate Valid(st: ParseState)
  {
    && ArenaOk(st.nodes)
    && StackOk(st.nodes, st.stack)
    && (st.current.Some? ==> st.current.value < |st.nodes|)
  }

  /** What a step may do to the objects that already exist: types and
      children only grow, and a child once linked stays linked to the same
      node. */
  ghost predicate Grows(before: seq<NodeRec>, after: seq<NodeRec>)
  {
    && |before| <= |after|
    && (forall p :: 0 <= p < |before| ==> before[p].types <= after[p].types)
    && (forall p :: 0 <= p < |before| && before[p].children.Some? ==> after[p].children.Some?)
    && (forall p, k :: 0 <= p < |before| && before[p].children.Some? && FindChild(before[p].children.value, k).Some? ==>
          FindChild(after[p].children.value, k) == FindChild(before[p].children.value, k))
  }

  lemma GrowsTrans(a: seq<NodeRec>, b: seq<NodeRec>, c: seq<NodeRec>)
    requires Grows(a, b) && Grows(b, c)
    ensures Grows(a, c)
  {
  }

  function Top(stack: seq<nat>): Option<nat>
  {
    if |stack| == 0 then None else Some(stack[|stack| - 1])
  }

  // ---------------------------------------------------------------------
  // Elementary updates of the arena, each keeping it well formed

  lemma AppendNewNode(nodes: seq<NodeRec>)
    requires ArenaOk(nodes)
    ensures ArenaOk(nodes + [NewNode]) && Grows(nodes, nodes + [NewNode])
  {
    var nodes' := nodes + [NewNode];
    forall p | 0 <= p < |nodes'| ensures NodeOk(nodes', p) {
      if p < |nodes| {
        assert NodeOk(nodes, p);
      }
    }
  }

  /** The node for key `k` under `parent`, created (appended) when absent. */
  function ChildOrNew(nodes: seq<NodeRec>, parent: Option<nat>, k: ChildKey): (r: (nat, seq<NodeRec>))
    requires parent.Some? ==> parent.value < |nodes|
    requires ArenaOk(nodes)
    ensures ArenaOk(r.1) && Grows(nodes, r.1)
    ensures r.0 < |r.1|
    ensures r.1 == nodes || r.1 == nodes + [NewNode]
    ensures r.1 == nodes ==> r.0 < |nodes|
    ensures r.1 != nodes ==> r.0 == |nodes| && r.1[r.0] == NewNode
    ensures parent.Some? ==> parent.value < r.0
    ensures parent.Some? && nodes[parent.value].children.Some? ==>
      var f := FindChild(nodes[parent.value].children.value, k);
      (f.Some? ==> f.value == r.0) && (f.None? ==> r.1 != nodes)
    ensures parent.None? || nodes[parent.value].children.None? ==> r.1 != nodes
  {
    if parent.Some? && nodes[parent.value].children.Some? && FindChild(nodes[parent.value].children.value, k).Some? then
      var j := KeyIndex(nodes[parent.value].children.value, k).value;
      assert NodeOk(nodes, parent.value);
      (nodes[parent.value].children.value[j].1, nodes)
    else
      AppendNewNode(nodes);
      (|nodes|, nodes + [NewNode])
  }

  /** Adds a type to node `id`. */
  function AddTypeAt(nodes: seq<NodeRec>, id: nat, t: string): (r: seq<NodeRec>)
    requires id < |nodes| && ArenaOk(nodes)
    ensures ArenaOk(r) && Grows(nodes, r) && |r| == |nodes|
    ensures r[id].types == AddType(nodes[id].types, t)
    ensures r[id].children == nodes[id].children && r[id].requiredKeys == nodes[id].requiredKeys
    ensures forall q :: 0 <= q < |nodes| && q != id ==> r[q] == nodes[q]
  {
    var r := nodes[id := nodes[id].(types := AddType(nodes[id].types, t))];
    assert forall q :: 0 <= q < |r| ==> NodeOk(nodes, q) ==> NodeOk(r, q);
    r
  }

  /** `children.set(key, childId)` on node `p`, where the key is absent or
      already maps to `childId`. */
  function LinkChild(nodes: seq<NodeRec>, p: nat, key: ChildKey, childId: nat): (r: seq<NodeRec>)
    requires p < childId < |nodes| && ArenaOk(nodes) && nodes[p].children.Some?
    requires FindChild(nodes[p].children.value, key) in {None, Some(childId)}
    ensures ArenaOk(r) && Grows(nodes, r) && |r| == |nodes|
    ensures r[p].children.Some? && FindChild(r[p].children.value, key) == Some(childId)
    ensures r[p].types == nodes[p].types && r[p].requiredKeys == nodes[p].requiredKeys
    ensures forall q :: 0 <= q < |nodes| && q != p ==> r[q] == nodes[q]
  {
    var cs := nodes[p].children.value;
    var cs' := SetChild(cs, key, childId);
    var r := nodes[p := nodes[p].(children := Some(cs'))];
    assert NodeOk(nodes, p);
    SetChildFacts(cs, key, childId, p, |nodes|);
    assert NodeOk(r, p);
    assert forall q :: 0 <= q < |r| && q != p ==> NodeOk(nodes, q) ==> NodeOk(r, q);
    r
  }

  lemma SetChildFacts(cs: seq<(ChildKey, nat)>, k: ChildKey, id: nat, p: nat, size: nat)
    requires ChildrenOk(cs, p, size) && p < id < size
    requires FindChild(cs, k) in {None, Some(id)}
    ensures ChildrenOk(SetChild(cs, k, id), p, size)
    ensures FieldKeys(cs) <= FieldKeys(SetChild(cs, k, id))
    ensures FindChild(SetChild(cs, k, id), k) == Some(id)
    ensures forall k' :: FindChild(cs, k').Some? ==> FindChild(SetChild(cs, k, id), k') == FindChild(cs, k')
  {
    var cs' := SetChild(cs, k, id);
    match KeyIndex(cs, k)
    case Some(j) =>
      assert cs' == cs;
    case None =>
      assert cs' == cs + [(k, id)];
      assert KeyIndex(cs', k) == Some(|cs|);
      forall k' | FindChild(cs, k').Some? ensures FindChild(cs', k') == FindChild(cs, k') {
        var j := KeyIndex(cs, k').value;
        KeyIndexUnique(cs', k', j);
      }
      assert forall j :: 0 <= j < |cs| && cs[j].0.Field? ==> cs'[j] == cs[j];
  }

  /** With distinct keys, the position of a key is the only one holding it. */
  lemma KeyIndexUnique(cs: seq<(ChildKey, nat)>, k: ChildKey, j: nat)
    requires j < |cs| && cs[j].0 == k
    requires forall a, b :: 0 <= a < b < |cs| ==> cs[a].0 != cs[b].0
    ensures KeyIndex(cs, k) == Some(j)
  {
    if j < |cs| - 1 {
      KeyIndexUnique(cs[..|cs| - 1], k, j);
    }
  }

  /** Node `p` has a child under `k` and that child has type `t`. */
  ghost predicate Linked(nodes: seq<NodeRec>, p: nat, k: ChildKey, t: string)
  {
    && p < |nodes| && nodes[p].children.Some?
    && var c := FindChild(nodes[p].children.value, k);
    && c.Some? && c.value < |nodes| && t in nodes[c.value].types
  }

  /** The `"visitLeaf"` case: the current node must exist (otherwise the
      source throws). */
  function OnLeaf(st: ParseState, e: Event): (r: Option<ParseState>)
    requires Valid(st)
    ensures r.Some? <==> |st.stack| > 0
    ensures r.Some? ==> Valid(r.value) && Grows(st.nodes, r.value.nodes)
    ensures r.Some? ==> r.value.stack == st.stack
    ensures r.Some? ==> Linked(r.value.nodes, st.stack[|st.stack| - 1], ChildKeyOf(e.key), e.valueType)
  {
    if |st.stack| == 0 then None
    else
      var p := st.stack[|st.stack| - 1];
      var key := ChildKeyOf(e.key);
      var (childId, nodes1) := ChildOrNew(st.nodes, Some(p), key);
      var nodes2 := AddTypeAt(nodes1, childId, e.valueType);
      var missed :=
        if key.Field? && p in st.missedRevisitKeys
        then st.missedRevisitKeys[p := st.missedRevisitKeys[p] - {key.name}]
        else st.missedRevisitKeys;
      var nodes3 := LinkChild(nodes2, p, key, childId);
      GrowsTrans(st.nodes, nodes1, nodes2);
      GrowsTrans(st.nodes, nodes2, nodes3);
      Some(st.(nodes := nodes3, current := Some(p), missedRevisitKeys := missed))
  }

  /** `openedNode.children ??= new Map()` followed by `types.add(t)`. */
  function OpenAt(nodes: seq<NodeRec>, id: nat, t: string): (r: seq<NodeRec>)
    requires id < |nodes| && ArenaOk(nodes)
    ensures ArenaOk(r) && Grows(nodes, r) && |r| == |nodes|
    ensures r[id].children.Some? && r[id].types == AddType(nodes[id].types, t)
    ensures r[id].children == Some(ChildrenOrEmpty(nodes[id]))
    ensures r[id].requiredKeys == nodes[id].requiredKeys
    ensures forall q :: 0 <= q < |nodes| && q != id ==> r[q] == nodes[q]
  {
    var n := nodes[id];
    var r := nodes[id := n.(children := Some(ChildrenOrEmpty(n)), types := AddType(n.types, t))];
    assert NodeOk(nodes, id) ==> NodeOk(r, id);
    assert forall q :: 0 <= q < |r| && q != id ==> NodeOk(nodes, q) ==> NodeOk(r, q);
    r
  }

  /** The arena part of the `"openObject"` case: reuse or create the child
      node for the key under `cur`, mark it a container of type `t`, and
      link it to `cur`. */
  function OpenChild(nodes: seq<NodeRec>, cur: Option<nat>, key: ChildKey, t: string): (r: (nat, seq<NodeRec>))
    requires ArenaOk(nodes)
    requires cur.Some? ==> cur.value < |nodes| && nodes[cur.value].children.Some?
    ensures ArenaOk(r.1) && Grows(nodes, r.1) && r.0 < |r.1|
    ensures r.1[r.0].children.Some?
    ensures cur.Some? ==> cur.value < r.0 && Linked(r.1, cur.value, key, t)
    ensures cur.Some? ==> FindChild(r.1[cur.value].children.value, key) == Some(r.0)
    ensures forall q :: 0 <= q < |nodes| && q != r.0 && nodes[q].children.Some? ==> r.1[q].children.Some?
  {
    var (id, nodes1) := ChildOrNew(nodes, cur, key);
    var nodes2 := OpenAt(nodes1, id, t);
    var nodes3 :=
      if cur.Some? then LinkChild(nodes2, cur.value, key, id)
      else nodes2;
    GrowsTrans(nodes, nodes1, nodes2);
    GrowsTrans(nodes, nodes2, nodes3);
    (id, nodes3)
  }

  /** The `"openObject"` case: open the child node (`OpenChild`) and push
      it. When `trackParents` holds, also record its parent. Opening an
      object starts tracking which of its required keys this visit has not
      yet shown. */
  function OnOpen(trackParents: bool, st: ParseState, e: Event): (r: ParseState)
    requires Valid(st)
    ensures Valid(r) && Grows(st.nodes, r.nodes)
    ensures |r.stack| == |st.stack| + 1 && r.stack[..|st.stack|] == st.stack
    ensures |st.stack| > 0 ==> Linked(r.nodes, st.stack[|st.stack| - 1], ChildKeyOf(e.key), e.valueType)
  {
    var cur := Top(st.stack);
    var (id, nodes') := OpenChild(st.nodes, cur, ChildKeyOf(e.key), e.valueType);
    var links := if trackParents then st.parentLinks[id := cur] else st.parentLinks;
    var missed :=
      if e.valueType == "object"
      then st.missedRevisitKeys[id := if nodes'[id].requiredKeys.Some? then nodes'[id].requiredKeys.value else {}]
      else st.missedRevisitKeys;
    ParseState(nodes', st.stack + [id], cur, links, missed, st.visitedNodes)
  }

  /** The node pushed by an open is the child of the previous top under the
      event's key. */
  lemma OnOpenPushesChild(trackParents: bool, st: ParseState, e: Event)
    requires Valid(st) && |st.stack| > 0
    ensures var r := OnOpen(trackParents, st, e);
      FindChild(r.nodes[st.stack[|st.stack| - 1]].children.value, ChildKeyOf(e.key)) == Some(r.stack[|st.stack|])
  {
  }

  /** `requiredKeys` after deleting each missed key, where an emptied set is
      deleted (becomes `undefined`). */
  function DropMissed(required: Option<set<string>>, missed: set<string>): (r: Option<set<string>>)
    ensures r.Some? ==> required.Some? && r.value <= required.value
    ensures required.Some? && required.value != {} && r.Some? ==> r.value != {}
  {
    if missed == {} then required
    else
      match required
      case None => None
      case Some(keys) => if keys - missed == {} then None else Some(keys - missed)
  }

  /** The keys required after the first close: every object key among the
      children whose node has at least one type. */
  function RequiredFromChildren(nodes: seq<NodeRec>, cs: seq<(ChildKey, nat)>): (r: set<string>)
    requires forall j :: 0 <= j < |cs| ==> cs[j].1 < |nodes|
    ensures r <= FieldKeys(cs)
  {
    set j | 0 <= j < |cs| && cs[j].0.Field? && |nodes[cs[j].1].types| > 0 :: cs[j].0.name
  }

  /** The required keys of object node `id` when it is closed: on its first
      close, the object keys of its children that have a type, when there
      are any; otherwise its required keys less those this visit did not
      show. The result is never an empty set and names only keys of the
      node's children. */
  function ClosedRequired(nodes: seq<NodeRec>, id: nat, missed: map<nat, set<string>>, visited: set<nat>): (r: Option<set<string>>)
    requires id < |nodes| && ArenaOk(nodes)
    ensures r.Some? ==> r.value != {} && r.value <= FieldKeys(ChildrenOrEmpty(nodes[id]))
    ensures id in visited ==> (if id in missed then r == DropMissed(nodes[id].requiredKeys, missed[id]) else r == nodes[id].requiredKeys)
  {
    var node := nodes[id];
    assert NodeOk(nodes, id);
    var fromChildren := RequiredFromChildren(nodes, ChildrenOrEmpty(node));
    if id !in visited && fromChildren != {} then Some(fromChildren)
    else if id in missed then DropMissed(node.requiredKeys, missed[id])
    else node.requiredKeys
  }

  /** Sets the required keys of node `id`. */
  function SetRequired(nodes: seq<NodeRec>, id: nat, req: Option<set<string>>): (r: seq<NodeRec>)
    requires id < |nodes| && ArenaOk(nodes)
    requires req.Some? ==> req.value != {} && req.value <= FieldKeys(ChildrenOrEmpty(nodes[id]))
    ensures ArenaOk(r) && Grows(nodes, r) && |r| == |nodes|
    ensures r[id].requiredKeys == req
    ensures r[id].children == nodes[id].children && r[id].types == nodes[id].types
    ensures forall q :: 0 <= q < |nodes| && q != id ==> r[q] == nodes[q]
  {
    var r := nodes[id := nodes[id].(requiredKeys := req)];
    assert NodeOk(nodes, id) ==> NodeOk(r, id);
    assert forall q :: 0 <= q < |r| && q != id ==> NodeOk(nodes, q) ==> NodeOk(r, q);
    r
  }

  /** With `trackParents`, closing the container reached under the string
      key `key` marks that key as seen in its parent's current visit. */
  function MarkInParent(trackParents: bool, st: ParseState, closed: nat, key: Key): map<nat, set<string>>
  {
    var parent := if closed in st.parentLinks then st.parentLinks[closed] else None;
    if trackParents && key.Name? && parent.Some? && parent.value in st.missedRevisitKeys
    then st.missedRevisitKeys[parent.value := st.missedRevisitKeys[parent.value] - {key.name}]
    else st.missedRevisitKeys
  }

  /** The `"closeObject"` case: pop the node. With `trackParents`, closing a
      string-keyed container marks its key present in the parent. Closing an
      object drops the required keys this visit did not show and, on the
      node's first close, sets the required keys from its children. The
      source throws when an object is closed with an empty stack. */
  function OnClose(trackParents: bool, st: ParseState, e: Event): (r: Option<ParseState>)
    requires Valid(st)
    ensures r.None? <==> |st.stack| == 0 && e.valueType == "object"
    ensures r.Some? ==> Valid(r.value) && Grows(st.nodes, r.value.nodes)
    ensures r.Some? && |st.stack| > 0 ==> r.value.stack == st.stack[..|st.stack| - 1]
  {
    if |st.stack| == 0 then
      if e.valueType == "object" then None else Some(st.(current := None))
    else
      var closed := st.stack[|st.stack| - 1];
      var stack' := st.stack[..|st.stack| - 1];
      var missed := MarkInParent(trackParents, st, closed, e.key);
      if e.valueType != "object" then
        Some(st.(stack := stack', current := Some(closed), missedRevisitKeys := missed))
      else
        var nodes' := SetRequired(st.nodes, closed, ClosedRequired(st.nodes, closed, missed, st.visitedNodes));
        Some(ParseState(nodes', stack', Some(closed), st.parentLinks, missed, st.visitedNodes + {closed}))
  }

  /** One iteration of the event loop. */
  function Step(trackParents: bool, st: ParseState, e: Event): (r: Option<ParseState>)
    requires Valid(st)
    ensures r.Some? ==> Valid(r.value) && Grows(st.nodes, r.value.nodes)
  {
    match e.eventType
    case VisitLeaf => OnLeaf(st, e)
    case OpenObject => Some(OnOpen(trackParents, st, e))
    case CloseObject => OnClose(trackParents, st, e)
  }

  /** On a non-empty stack an iteration never throws; it changes the
      stack's height by the event's `Delta`, keeping everything below the
      top, and a leaf or open event links its key under the top node. */
  lemma StepFacts(trackParents: bool, st: ParseState, e: Event)
    requires Valid(st) && |st.stack| > 0
    ensures Step(trackParents, st, e).Some?
    ensures var r := Step(trackParents, st, e).value;
      && |r.stack| == |st.stack| + Delta(e)
      && r.stack[..|st.stack| - 1] == st.stack[..|st.stack| - 1]
      && (e.eventType != CloseObject ==> r.stack[..|st.stack|] == st.stack)
      && (e.eventType != CloseObject ==> Linked(r.nodes, st.stack[|st.stack| - 1], ChildKeyOf(e.key), e.valueType))
  {
    match e.eventType
    case OpenObject =>
      assert Step(trackParents, st, e) == Some(OnOpen(trackParents, st, e));
      OpenFacts(trackParents, st, e);
    case VisitLeaf =>
      assert Step(trackParents, st, e) == OnLeaf(st, e);
    case CloseObject =>
      assert Step(trackParents, st, e) == OnClose(trackParents, st, e);
      CloseFacts(trackParents, st, e);
  }

  lemma CloseFacts(trackParents: bool, st: ParseState, e: Event)
    requires Valid(st) && |st.stack| > 0
    ensures OnClose(trackParents, st, e).Some?
    ensures var r := OnClose(trackParents, st, e).value;
      |r.stack| == |st.stack| - 1 && r.stack[..|st.stack| - 1] == st.stack[..|st.stack| - 1]
  {
  }

  lemma OpenFacts(trackParents: bool, st: ParseState, e: Event)
    requires Valid(st) && |st.stack| > 0
    ensures var r := OnOpen(trackParents, st, e);
      r.stack[..|st.stack| - 1] == st.stack[..|st.stack| - 1]
  {
    var r := OnOpen(trackParents, st, e);
    assert r.stack[..|st.stack| - 1] == r.stack[..|st.stack|][..|st.stack| - 1];
  }

  /** The whole loop over `events`; None when some iteration throws. */
  function Run(trackParents: bool, st: ParseState, events: seq<Event>): (r: Option<ParseState>)
    requires Valid(st)
    ensures r.Some? ==> Valid(r.value) && Grows(st.nodes, r.value.nodes)
    decreases |events|
  {
    if |events| == 0 then Some(st)
    else
      match Step(trackParents, st, events[0])
      case None => None
      case Some(st') =>
        var r := Run(trackParents, st', events[1..]);
        assert r.Some? ==> Grows(st.nodes, r.value.nodes) by {
          if r.Some? { GrowsTrans(st.nodes, st'.nodes, r.value.nodes); }
        }
        r
  }

  // ---------------------------------------------------------------------
  // The walk of `{_: data}` never makes the loop throw

  lemma {:induction false} RunAppend(trackParents: bool, st: ParseState, a: seq<Event>, b: seq<Event>)
    requires Valid(st)
    ensures Run(trackParents, st, a + b) ==
      (match Run(trackParents, st, a)
       case None => None
       case Some(s) => Run(trackParents, s, b))
    decreases |a|
  {
    if |a| == 0 {
      assert a + b == b;
    } else {
      assert (a + b)[0] == a[0] && (a + b)[1..] == a[1..] + b;
      match Step(trackParents, st, a[0])
      case None =>
      case Some(st') => RunAppend(trackParents, st', a[1..], b);
    }
  }

  lemma DepthCons(e: Event, es: seq<Event>, j: nat)
    requires j <= |es|
    ensures Depth(([e] + es)[..j + 1]) == Delta(e) + Depth(es[..j])
  {
    assert ([e] + es)[..j + 1] == [e] + es[..j];
    DepthAppend([e], es[..j]);
    assert [e][..0] == [];
  }

  /** No prefix of `es` takes the depth below `-d`. */
  ghost predicate NeverBelow(es: seq<Event>, d: int)
  {
    forall j :: 0 <= j <= |es| ==> d + Depth(es[..j]) >= 0
  }

  lemma NeverBelowCons(e: Event, rest: seq<Event>, d: int)
    requires NeverBelow([e] + rest, d)
    ensures d + Delta(e) >= 0 && NeverBelow(rest, d + Delta(e))
    ensures d + Depth([e] + rest) >= 0
  {
    DepthCons(e, rest, 0);
    assert ([e] + rest)[..1] == [e] + rest[..0];
    forall j | 0 <= j <= |rest| ensures d + Delta(e) + Depth(rest[..j]) >= 0 {
      DepthCons(e, rest, j);
    }
    assert ([e] + rest)[..|rest| + 1] == [e] + rest;
  }

  lemma StepKeepsBase(trackParents: bool, st: ParseState, e: Event, base: nat)
    requires Valid(st) && 1 <= base <= |st.stack| && |st.stack| - base + Delta(e) >= 0
    ensures Step(trackParents, st, e).Some?
    ensures |Step(trackParents, st, e).value.stack| == |st.stack| + Delta(e)
    ensures Step(trackParents, st, e).value.stack[..base] == st.stack[..base]
  {
    StepFacts(trackParents, st, e);
    var r := Step(trackParents, st, e).value;
    if e.eventType == CloseObject {
      assert base <= |st.stack| - 1;
      assert r.stack[..base] == r.stack[..|st.stack| - 1][..base];
    } else {
      assert r.stack[..base] == r.stack[..|st.stack|][..base];
    }
  }

  /** A run whose relative depth never drops below zero succeeds on a
      non-empty stack, and never pops below the stack it started from. */
  lemma {:induction false} RunKeepsBase(trackParents: bool, st: ParseState, es: seq<Event>, base: nat)
    requires Valid(st) && 1 <= base <= |st.stack|
    requires NeverBelow(es, |st.stack| - base)
    ensures Run(trackParents, st, es).Some?
    ensures |Run(trackParents, st, es).value.stack| == |st.stack| + Depth(es)
    ensures |st.stack| + Depth(es) >= base
    ensures Run(trackParents, st, es).value.stack[..base] == st.stack[..base]
    decreases |es|
  {
    if |es| == 0 {
      assert Depth(es) == 0;
    } else {
      var e := es[0];
      var rest := es[1..];
      assert es == [e] + rest;
      NeverBelowCons(e, rest, |st.stack| - base);
      DepthCons(e, rest, |rest|);
      assert rest[..|rest|] == rest;
      assert es[..|rest| + 1] == es;
      assert Depth(es) == Delta(e) + Depth(rest);
      StepKeepsBase(trackParents, st, e, base);
      var st' := Step(trackParents, st, e).value;
      assert Run(trackParents, st, es) == Run(trackParents, st', rest);
      RunKeepsBase(trackParents, st', rest, base);
    }
  }

  /** The value `parse` walks: `{_: data}`. */
  function Wrapped(data: JsonValue): JsonValue
  {
    Obj([Entry("_", data)])
  }

  /** Running the loop over the walk of `{_: data}` never throws; it ends
      with the outer node (index 0) as the current node, and that node has a
      child under `"_"`. This is the guarantee stated in the comment before
      the loop in both source files. */
  /** Opening the outer object from the initial state creates node 0 and
      pushes it. */
  lemma FirstOpen(trackParents: bool, e: Event)
    ensures OnOpen(trackParents, InitialState, e).stack == [0]
    ensures OnOpen(trackParents, InitialState, e).nodes == [NodeRec(Some([]), [e.valueType], None)]
  {
    var (id, nodes1) := ChildOrNew([], None, ChildKeyOf(e.key));
    assert id == 0 && nodes1 == [NewNode];
    var nodes2 := OpenAt(nodes1, id, e.valueType);
    assert nodes2[0] == NodeRec(Some([]), [e.valueType], None);
  }

  /** A link survives any growth of the arena. */
  lemma LinkedGrows(a: seq<NodeRec>, b: seq<NodeRec>, p: nat, k: ChildKey, t: string)
    requires Linked(a, p, k, t) && Grows(a, b) && ArenaOk(b)
    ensures Linked(b, p, k, t)
  {
    var c := FindChild(a[p].children.value, k).value;
    assert a[c].types <= b[c].types;
  }

  /** Closing the outer node, alone on the stack, makes it current. */
  lemma CloseOuter(trackParents: bool, st: ParseState, close: Event)
    requires Valid(st) && st.stack == [0] && close.eventType == CloseObject
    ensures Run(trackParents, st, [close]).Some?
    ensures Run(trackParents, st, [close]).value.current == Some(0)
  {
  }

  /** The loop over one well-bracketed value stream followed by a close,
      from a stack holding only the outer node, succeeds and leaves the outer
      node current. */
  lemma RunInner(trackParents: bool, s1: ParseState, inner: seq<Event>, close: Event)
    requires Valid(s1) && s1.stack == [0] && close.eventType == CloseObject
    requires WellBracketed(inner)
    ensures Run(trackParents, s1, inner + [close]).Some?
    ensures Run(trackParents, s1, inner + [close]).value.current == Some(0)
  {
    var s3 := RunBalanced(trackParents, s1, inner);
    RunAppend(trackParents, s1, inner, [close]);
    CloseOuter(trackParents, s3, close);
  }

  /** A well-bracketed stream run on a stack holding only the outer node
      leaves that stack as it found it. */
  lemma RunBalanced(trackParents: bool, s1: ParseState, inner: seq<Event>) returns (s3: ParseState)
    requires Valid(s1) && s1.stack == [0] && WellBracketed(inner)
    ensures Run(trackParents, s1, inner) == Some(s3) && Valid(s3) && s3.stack == [0]
  {
    assert NeverBelow(inner, 0);
    RunKeepsBase(trackParents, s1, inner, 1);
    s3 := Run(trackParents, s1, inner).value;
    assert |s3.stack| == 1 && s3.stack[..1] == [0];
  }

  /** What the first event links under the top of the stack stays linked
      for the rest of the run. */
  lemma RunKeepsFirstLink(trackParents: bool, s1: ParseState, es: seq<Event>)
    requires Valid(s1) && |s1.stack| > 0 && |es| > 0 && es[0].eventType != CloseObject
    requires Run(trackParents, s1, es).Some?
    ensures Linked(Run(trackParents, s1, es).value.nodes, s1.stack[|s1.stack| - 1], ChildKeyOf(es[0].key), es[0].valueType)
  {
    StepFacts(trackParents, s1, es[0]);
    var s2 := Step(trackParents, s1, es[0]).value;
    var s4 := Run(trackParents, s2, es[1..]).value;
    LinkedGrows(s2.nodes, s4.nodes, s1.stack[|s1.stack| - 1], ChildKeyOf(es[0].key), es[0].valueType);
  }

  /** The same, starting from the initial state with the outer open event. */
  lemma RunAround(trackParents: bool, open: Event, inner: seq<Event>, close: Event)
    requires open.eventType == OpenObject && close.eventType == CloseObject
    requires WellBracketed(inner) && |inner| > 0 && inner[0].eventType != CloseObject
    ensures Run(trackParents, InitialState, [open] + inner + [close]).Some?
    ensures var st := Run(trackParents, InitialState, [open] + inner + [close]).value;
      && st.current == Some(0) && Linked(st.nodes, 0, ChildKeyOf(inner[0].key), inner[0].valueType)
  {
    var s1 := OnOpen(trackParents, InitialState, open);
    FirstOpen(trackParents, open);
    assert ([open] + inner + [close])[1..] == inner + [close];
    RunInner(trackParents, s1, inner, close);
    assert (inner + [close])[0] == inner[0];
    RunKeepsFirstLink(trackParents, s1, inner + [close]);
  }

  lemma RunWrappedSucceeds(trackParents: bool, data: JsonValue)
    ensures Run(trackParents, InitialState, Walk(Wrapped(data))).Some?
    ensures var st := Run(trackParents, InitialState, Walk(Wrapped(data))).value;
      st.current == Some(0) && Linked(st.nodes, 0, Field("_"), ValueType(data))
  {
    var w := Wrapped(data);
    var inner := Walk(data, Name("_"));
    assert WalkEntries([Entry("_", data)]) == inner by {
      assert [Entry("_", data)][1..] == [];
    }
    assert Walk(w) == [Event(OpenObject, Name("root"), w, "object")] + inner + [Event(CloseObject, Name("root"), w, "object")];
    WalkWellBracketed(data, Name("_"));
    RunAround(trackParents, Event(OpenObject, Name("root"), w, "object"), inner, Event(CloseObject, Name("root"), w, "object"));
  }

  // ---------------------------------------------------------------------
  // The result: the `"_"` child of the outer node, read out as a tree

  /** A finished `TypeNode`, read out of the arena as a value. */
  datatype TypeNode = TypeNode(children: ChildMap, types: seq<string>, requiredKeys: Option<set<string>>)

  /** The `children` map of a node: absent on leaves, otherwise its entries
      in insertion order. */
  datatype ChildMap = Absent | Present(entries: seq<Child>)

  datatype Child = Child(key: ChildKey, node: TypeNode)

  /** The tree below node `id`. Children have larger indices than their
      parent, so this terminates. */
  function Extract(nodes: seq<NodeRec>, id: nat): (r: TypeNode)
    requires ArenaOk(nodes) && id < |nodes|
    ensures r.types == nodes[id].types && r.requiredKeys == nodes[id].requiredKeys
    ensures r.children.Present? <==> nodes[id].children.Some?
    ensures r.children.Present? ==> |r.children.entries| == |nodes[id].children.value|
    decreases |nodes| - id
  {
    var n := nodes[id];
    assert NodeOk(nodes, id);
    match n.children
    case None => TypeNode(Absent, n.types, n.requiredKeys)
    case Some(cs) =>
      TypeNode(Present(seq(|cs|, j requires 0 <= j < |cs| => Child(cs[j].0, Extract(nodes, cs[j].1)))), n.types, n.requiredKeys)
  }

  /** The child of a tree under a key, if any. */
  function ChildAt(t: TypeNode, k: ChildKey): (r: Option<TypeNode>)
    ensures r.Some? ==> t.children.Present? && exists j :: 0 <= j < |t.children.entries| && t.children.entries[j] == Child(k, r.value)
  {
    if t.children.Absent? then None else FindIn(t.children.entries, k)
  }

  function FindIn(cs: seq<Child>, k: ChildKey): (r: Option<TypeNode>)
    ensures r.Some? ==> exists j :: 0 <= j < |cs| && cs[j] == Child(k, r.value)
    ensures r.None? ==> forall j :: 0 <= j < |cs| ==> cs[j].key != k
  {
    if |cs| == 0 then None
    else if cs[0].key == k then Some(cs[0].node)
    else
      var r := FindIn(cs[1..], k);
      assert r.Some? ==> cs[1..][0] == cs[1];
      r
  }

  /** `parse(data)`: the type tree inferred from `data`, which is the
      `"_"` child of the outer node after the loop. The loop never throws
      (`RunWrappedSucceeds`), so the result always exists. */
  function ParseTree(trackParents: bool, data: JsonValue): (r: TypeNode)
    ensures ValueType(data) in r.types
  {
    RunWrappedSucceeds(trackParents, data);
    var st := Run(trackParents, InitialState, Walk(Wrapped(data))).value;
    var c := FindChild(st.nodes[0].children.value, Field("_")).value;
    Extract(st.nodes, c)
  }

  /** The loop of `parse`: walk `{_: data}`, apply each event to the state
      in turn, and return the `"_"` child of the outer node. */
  method Parse(trackParents: bool, data: JsonValue) returns (r: TypeNode)
    ensures r == ParseTree(trackParents, data)
  {
    var events := Walk(Wrapped(data));
    RunWrappedSucceeds(trackParents, data);
    var st := RunEvents(trackParents, InitialState, events);
    var c := FindChild(st.nodes[0].children.value, Field("_")).value;
    r := Extract(st.nodes, c);
  }

  /** The `for` loop over the events: each iteration applies one event to
      the state. */
  method RunEvents(trackParents: bool, st0: ParseState, events: seq<Event>) returns (st: ParseState)
    requires Valid(st0) && Run(trackParents, st0, events).Some?
    ensures st == Run(trackParents, st0, events).value
  {
    st := st0;
    var i := 0;
    while i < |events|
      invariant 0 <= i <= |events| && Valid(st)
      invariant Run(trackParents, st, events[i..]) == Run(trackParents, st0, events)
    {
      RunAt(trackParents, st, events, i);
      st := Step(trackParents, st, events[i]).value;
      i := i + 1;
    }
    assert events[i..] == [];
  }

  /** A leaf visited under the only node of the arena, which has no
      children yet, becomes node 1 with its type as its only type. */
  lemma FirstLeaf(st: ParseState, e: Event)
    requires Valid(st) && st.stack == [0] && |st.nodes| == 1 && st.nodes[0].children == Some([])
    requires e.eventType == VisitLeaf
    ensures OnLeaf(st, e).Some?
    ensures var r := OnLeaf(st, e).value;
      && r.stack == [0] && |r.nodes| == 2 && r.nodes[1] == NodeRec(None, [e.valueType], None)
      && FindChild(r.nodes[0].children.value, ChildKeyOf(e.key)) == Some(1)
  {
    var key := ChildKeyOf(e.key);
    var (childId, nodes1) := ChildOrNew(st.nodes, Some(0), key);
    assert childId == 1 && nodes1 == st.nodes + [NewNode];
    var nodes2 := AddTypeAt(nodes1, childId, e.valueType);
    assert nodes2[1] == NodeRec(None, [e.valueType], None);
  }

  /** A run that does not throw starts with a step that does not throw. */
  lemma RunFirst(trackParents: bool, st: ParseState, es: seq<Event>)
    requires Valid(st) && |es| > 0 && Run(trackParents, st, es).Some?
    ensures Step(trackParents, st, es[0]).Some?
    ensures Run(trackParents, st, es) == Run(trackParents, Step(trackParents, st, es[0]).value, es[1..])
  {
  }

  lemma RunAt(trackParents: bool, st: ParseState, events: seq<Event>, i: nat)
    requires Valid(st) && i < |events| && Run(trackParents, st, events[i..]).Some?
    ensures Step(trackParents, st, events[i]).Some?
    ensures Run(trackParents, st, events[i..]) == Run(trackParents, Step(trackParents, st, events[i]).value, events[i + 1..])
  {
    RunFirst(trackParents, st, events[i..]);
    assert events[i..][0] == events[i] && events[i..][1..] == events[i + 1..];
  }

  /** One iteration of the loop followed by the rest. */
  lemma RunCons(trackParents: bool, s0: ParseState, e: Event, rest: seq<Event>)
    requires Valid(s0) && Step(trackParents, s0, e).Some?
    ensures Run(trackParents, s0, [e] + rest) == Run(trackParents, Step(trackParents, s0, e).value, rest)
  {
    assert ([e] + rest)[0] == e && ([e] + rest)[1..] == rest;
  }

  /** Three iterations of the loop. */
  lemma RunThree(trackParents: bool, s0: ParseState, e1: Event, e2: Event, e3: Event)
    requires Valid(s0) && Step(trackParents, s0, e1).Some?
    requires Step(trackParents, Step(trackParents, s0, e1).value, e2).Some?
    ensures var s2 := Step(trackParents, Step(trackParents, s0, e1).value, e2).value;
      Run(trackParents, s0, [e1, e2, e3]) == Step(trackParents, s2, e3)
  {
    var s1 := Step(trackParents, s0, e1).value;
    var s2 := Step(trackParents, s1, e2).value;
    RunCons(trackParents, s0, e1, [e2, e3]);
    RunCons(trackParents, s1, e2, [e3]);
    assert [e1] + [e2, e3] == [e1, e2, e3] && [e2] + [e3] == [e2, e3];
    assert [e3][1..] == [];
  }

  /** The walk of `{_: v}` for a primitive `v`. */
  lemma WalkWrappedPrimitive(v: JsonValue)
    requires IsPrimitive(v)
    ensures Walk(Wrapped(v)) == [
      Event(OpenObject, Name("root"), Wrapped(v), "object"),
      Event(VisitLeaf, Name("_"), v, ValueType(v)),
      Event(CloseObject, Name("root"), Wrapped(v), "object")]
  {
    assert WalkEntries([Entry("_", v)]) == [Event(VisitLeaf, Name("_"), v, ValueType(v))] by {
      assert [Entry("_", v)][1..] == [];
    }
  }

  /** A primitive gives a leaf node whose only type is its own. */
  lemma ParsePrimitive(trackParents: bool, v: JsonValue)
    requires IsPrimitive(v)
    ensures ParseTree(trackParents, v) == TypeNode(Absent, [ValueType(v)], None)
  {
    var w := Wrapped(v);
    WalkWrappedPrimitive(v);
    var s3 := OpenLeafClose(trackParents, Event(OpenObject, Name("root"), w, "object"),
      Event(VisitLeaf, Name("_"), v, ValueType(v)), Event(CloseObject, Name("root"), w, "object"));
    ParseTreeFrom(trackParents, v, s3);
  }

  /** The loop over an open, a leaf and a close from the initial state:
      node 0 for the open, and node 1, a leaf with the leaf's type, as its
      child under the leaf's key. */
  lemma OpenLeafClose(trackParents: bool, open: Event, leaf: Event, close: Event) returns (s3: ParseState)
    requires open.eventType == OpenObject && leaf.eventType == VisitLeaf && close.eventType == CloseObject
    ensures Run(trackParents, InitialState, [open, leaf, close]) == Some(s3)
    ensures |s3.nodes| == 2 && s3.nodes[1] == NodeRec(None, [leaf.valueType], None)
    ensures s3.nodes[0].children.Some? && FindChild(s3.nodes[0].children.value, ChildKeyOf(leaf.key)) == Some(1)
  {
    var s1 := OnOpen(trackParents, InitialState, open);
    FirstOpen(trackParents, open);
    FirstLeaf(s1, leaf);
    var s2 := OnLeaf(s1, leaf).value;
    RunThree(trackParents, InitialState, open, leaf, close);
    s3 := OnClose(trackParents, s2, close).value;
    CloseKeepsShape(trackParents, s2, close);
  }

  /** A close changes nothing but the `requiredKeys` of the node it pops. */
  lemma CloseKeepsShape(trackParents: bool, st: ParseState, e: Event)
    requires Valid(st) && OnClose(trackParents, st, e).Some?
    ensures var r := OnClose(trackParents, st, e).value;
      && |r.nodes| == |st.nodes|
      && (forall q :: 0 <= q < |st.nodes| ==> r.nodes[q].children == st.nodes[q].children && r.nodes[q].types == st.nodes[q].types)
      && (forall q :: 0 <= q < |st.nodes| && (|st.stack| == 0 || q != st.stack[|st.stack| - 1]) ==> r.nodes[q] == st.nodes[q])
  {
  }

  /** The tree `parse` returns, read from the state the loop ends in. */
  lemma ParseTreeFrom(trackParents: bool, data: JsonValue, st: ParseState)
    requires Run(trackParents, InitialState, Walk(Wrapped(data))) == Some(st)
    ensures ArenaOk(st.nodes) && |st.nodes| > 0 && st.nodes[0].children.Some?
    ensures FindChild(st.nodes[0].children.value, Field("_")).Some?
    ensures FindChild(st.nodes[0].children.value, Field("_")).value < |st.nodes|
    ensures ParseTree(trackParents, data) == Extract(st.nodes, FindChild(st.nodes[0].children.value, Field("_")).value)
  {
    RunWrappedSucceeds(trackParents, data);
  }

  // ---------------------------------------------------------------------
  // A non-empty array always has an item node

  /** With distinct keys, `FindIn` finds the one child under `k`. */
  lemma {:induction false} FindInDistinct(cs: seq<Child>, j: nat, k: ChildKey)
    requires j < |cs| && cs[j].key == k
    requires forall a, b :: 0 <= a < b < |cs| ==> cs[a].key != cs[b].key
    ensures FindIn(cs, k) == Some(cs[j].node)
  {
    if j > 0 {
      assert cs[0].key != k;
      FindInDistinct(cs[1..], j - 1, k);
    }
  }

  /** A child linked in the arena is the child of the extracted tree. */
  lemma ExtractFindChild(nodes: seq<NodeRec>, id: nat, k: ChildKey)
    requires ArenaOk(nodes) && id < |nodes| && nodes[id].children.Some?
    requires FindChild(nodes[id].children.value, k).Some?
    ensures FindChild(nodes[id].children.value, k).value < |nodes|
    ensures ChildAt(Extract(nodes, id), k) == Some(Extract(nodes, FindChild(nodes[id].children.value, k).value))
  {
    var cs := nodes[id].children.value;
    var j := KeyIndex(cs, k).value;
    assert NodeOk(nodes, id);
    var entries := Extract(nodes, id).children.entries;
    assert entries[j] == Child(k, Extract(nodes, cs[j].1));
    forall a, b | 0 <= a < b < |entries| ensures entries[a].key != entries[b].key {
      assert entries[a].key == cs[a].0 && entries[b].key == cs[b].0;
    }
    FindInDistinct(entries, j, k);
  }

  /** The walk of `{_: items}`: the two opens, then the items, whose first
      event is not a close and is keyed by index 0, then the two closes. */
  lemma WalkWrappedArray(items: seq<JsonValue>)
    requires |items| > 0
    ensures var data := Arr(items);
      Walk(Wrapped(data)) == [Event(OpenObject, Name("root"), Wrapped(data), "object"), Event(OpenObject, Name("_"), data, "array")]
        + (WalkItems(items, 0) + [Event(CloseObject, Name("_"), data, "array"), Event(CloseObject, Name("root"), Wrapped(data), "object")])
    ensures |WalkItems(items, 0)| > 0
    ensures var e := WalkItems(items, 0)[0];
      e.eventType != CloseObject && e.key == Index(0) && e.valueType == ValueType(items[0])
  {
    var data := Arr(items);
    WalkWrapped(data);
    Regroup(Event(OpenObject, Name("root"), Wrapped(data), "object"), Event(OpenObject, Name("_"), data, "array"),
      WalkItems(items, 0), Event(CloseObject, Name("_"), data, "array"), Event(CloseObject, Name("root"), Wrapped(data), "object"));
    FirstItemEvent(items);
  }

  /** The walk of `{_: data}`: the outer open, the walk of `data` under
      `"_"`, the outer close. */
  lemma WalkWrapped(data: JsonValue)
    ensures Walk(Wrapped(data)) == [Event(OpenObject, Name("root"), Wrapped(data), "object")] + Walk(data, Name("_"))
      + [Event(CloseObject, Name("root"), Wrapped(data), "object")]
  {
    assert WalkEntries([Entry("_", data)]) == Walk(data, Name("_")) by {
      assert [Entry("_", data)][1..] == [];
    }
  }

  lemma Regroup<T>(a: T, b: T, m: seq<T>, c: T, d: T)
    ensures [a] + ([b] + m + [c]) + [d] == [a, b] + (m + [c, d])
  {
  }

  lemma FirstItemEvent(items: seq<JsonValue>)
    requires |items| > 0
    ensures |WalkItems(items, 0)| > 0
    ensures var e := WalkItems(items, 0)[0];
      e.eventType != CloseObject && e.key == Index(0) && e.valueType == ValueType(items[0])
  {
    assert WalkItems(items, 0) == Walk(items[0], Index(0)) + WalkItems(items[1..], 1);
  }

  /** The first two steps of the walk of `{_: items}` open node 0 and its
      `"_"` child, leaving both on the stack. */
  lemma OpenTwo(trackParents: bool, o1: Event, o2: Event, rest: seq<Event>)
    requires o1.eventType == OpenObject && o2.eventType == OpenObject
    ensures var s2 := OnOpen(trackParents, OnOpen(trackParents, InitialState, o1), o2);
      && Run(trackParents, InitialState, [o1, o2] + rest) == Run(trackParents, s2, rest)
      && |s2.stack| == 2 && s2.nodes[0].children.Some?
      && FindChild(s2.nodes[0].children.value, ChildKeyOf(o2.key)) == Some(s2.stack[1])
  {
    var s1 := OnOpen(trackParents, InitialState, o1);
    FirstOpen(trackParents, o1);
    OnOpenPushesChild(trackParents, s1, o2);
    assert ([o1, o2] + rest)[1..] == [o2] + rest && ([o2] + rest)[1..] == rest;
  }

  /** After two opens from the initial state, what the next event links
      under the second opened node stays linked to the end of the run. */
  lemma SecondLevelLinked(trackParents: bool, o1: Event, o2: Event, rest: seq<Event>)
    requires o1.eventType == OpenObject && o2.eventType == OpenObject
    requires |rest| > 0 && rest[0].eventType != CloseObject
    requires Run(trackParents, InitialState, [o1, o2] + rest).Some?
    ensures var st := Run(trackParents, InitialState, [o1, o2] + rest).value;
      && |st.nodes| > 0 && st.nodes[0].children.Some?
      && FindChild(st.nodes[0].children.value, ChildKeyOf(o2.key)).Some?
      && Linked(st.nodes, FindChild(st.nodes[0].children.value, ChildKeyOf(o2.key)).value, ChildKeyOf(rest[0].key), rest[0].valueType)
  {
    OpenTwo(trackParents, o1, o2, rest);
    var s2 := OnOpen(trackParents, OnOpen(trackParents, InitialState, o1), o2);
    RunKeepsFirstLink(trackParents, s2, rest);
  }

  /** The item node of a non-empty array exists and has the type of the
      first item: `root.children.get(0)` is never undefined for such an
      array. */
  lemma ArrayItem(trackParents: bool, items: seq<JsonValue>)
    requires |items| > 0
    ensures ChildAt(ParseTree(trackParents, Arr(items)), Item).Some?
    ensures ValueType(items[0]) in ChildAt(ParseTree(trackParents, Arr(items)), Item).value.types
  {
    var data := Arr(items);
    var o1 := Event(OpenObject, Name("root"), Wrapped(data), "object");
    var o2 := Event(OpenObject, Name("_"), data, "array");
    var rest := WalkItems(items, 0) + [Event(CloseObject, Name("_"), data, "array"), Event(CloseObject, Name("root"), Wrapped(data), "object")];
    WalkWrappedArray(items);
    RunWrappedSucceeds(trackParents, data);
    assert rest[0] == WalkItems(items, 0)[0];
    SecondLevelLinked(trackParents, o1, o2, rest);
    var fin := Run(trackParents, InitialState, Walk(Wrapped(data))).value;
    var a := FindChild(fin.nodes[0].children.value, Field("_")).value;
    ExtractFindChild(fin.nodes, a, Item);
  }
}
