/** What the loop of `parse` does to `requiredKeys`: one lemma per kind of
    event saying what an iteration changes, the invariant that after its
    first close the required keys of an object node only shrink, and the
    one place where src/parse.ts and src/compiler/parse.ts part ways: a key
    whose value is a container, seen again on a revisit. */
module ParseRequired {
  import opened Json
  import opened Wrappers
  import opened TreeWalk
  import opened Parse

  /** Every key `after` requires, `before` required. */
  predicate Within(after: Option<set<string>>, before: Option<set<string>>)
  {
    after.Some? ==> before.Some? && after.value <= before.value
  }

  predicate IsRequiredIn(n: NodeRec, k: string)
  {
    n.requiredKeys.Some? && k in n.requiredKeys.value
  }

  /** `new Set(openedNode.requiredKeys)`. */
  function RequiredOrEmpty(n: NodeRec): set<string>
  {
    if n.requiredKeys.Some? then n.requiredKeys.value else {}
  }

  // ----- one iteration -----

  lemma OpenChildKeepsRequired(nodes: seq<NodeRec>, cur: Option<nat>, key: ChildKey, t: string)
    requires ArenaOk(nodes)
    requires cur.Some? ==> cur.value < |nodes| && nodes[cur.value].children.Some?
    ensures forall q :: 0 <= q < |nodes| ==> OpenChild(nodes, cur, key, t).1[q].requiredKeys == nodes[q].requiredKeys
  {
  }

  /** An open event leaves the required keys of every existing node and
      the visited set alone. */
  lemma OpenKeepsRequired(trackParents: bool, st: ParseState, e: Event)
    requires Valid(st) && e.eventType == OpenObject
    ensures Step(trackParents, st, e) == Some(OnOpen(trackParents, st, e))
    ensures var r := OnOpen(trackParents, st, e);
      && r.visitedNodes == st.visitedNodes && |st.nodes| <= |r.nodes|
      && forall q :: 0 <= q < |st.nodes| ==> r.nodes[q].requiredKeys == st.nodes[q].requiredKeys
  {
    OpenChildKeepsRequired(st.nodes, Top(st.stack), ChildKeyOf(e.key), e.valueType);
  }

  /** An open event under a current node: it pushes the child of that node
      under the event's key, starts a visit of it when it is an object
      (missing, so far, all of its required keys), and with `trackParents`
      records its parent. */
  lemma OpenStep(trackParents: bool, st: ParseState, e: Event) returns (r: ParseState)
    requires Valid(st) && |st.stack| > 0 && e.eventType == OpenObject
    ensures Step(trackParents, st, e) == Some(r) && Valid(r) && Grows(st.nodes, r.nodes)
    ensures |r.stack| == |st.stack| + 1 && r.stack[..|st.stack|] == st.stack
    ensures var p := st.stack[|st.stack| - 1]; var c := r.stack[|st.stack|];
      && p < |r.nodes| && c < |r.nodes| && r.nodes[p].children.Some?
      && FindChild(r.nodes[p].children.value, ChildKeyOf(e.key)) == Some(c)
      && r.missedRevisitKeys == (if e.valueType == "object" then st.missedRevisitKeys[c := RequiredOrEmpty(r.nodes[c])] else st.missedRevisitKeys)
      && (trackParents ==> r.parentLinks == st.parentLinks[c := Some(p)])
    ensures Linked(r.nodes, st.stack[|st.stack| - 1], ChildKeyOf(e.key), e.valueType)
    ensures r.visitedNodes == st.visitedNodes
    ensures forall q :: 0 <= q < |st.nodes| ==> r.nodes[q].requiredKeys == st.nodes[q].requiredKeys
  {
    r := OnOpen(trackParents, st, e);
    OpenKeepsRequired(trackParents, st, e);
    OnOpenPushesChild(trackParents, st, e);
  }

  /** The arena updates of a leaf event: no node's required keys change. */
  lemma LeafNodesKeepRequired(nodes: seq<NodeRec>, p: nat, key: ChildKey, t: string)
    requires ArenaOk(nodes) && p < |nodes| && nodes[p].children.Some?
    ensures var (childId, nodes1) := ChildOrNew(nodes, Some(p), key);
      var nodes3 := LinkChild(AddTypeAt(nodes1, childId, t), p, key, childId);
      forall q :: 0 <= q < |nodes| ==> nodes3[q].requiredKeys == nodes[q].requiredKeys
  {
    var (childId, nodes1) := ChildOrNew(nodes, Some(p), key);
    var nodes2 := AddTypeAt(nodes1, childId, t);
    var nodes3 := LinkChild(nodes2, p, key, childId);
    forall q | 0 <= q < |nodes|
      ensures nodes3[q].requiredKeys == nodes[q].requiredKeys
    {
      assert nodes1[q] == nodes[q];
      assert nodes2[q].requiredKeys == nodes1[q].requiredKeys;
    }
  }

  /** A leaf event leaves the required keys of every existing node and the
      visited set alone. */
  lemma LeafKeepsRequired(st: ParseState, e: Event)
    requires Valid(st) && |st.stack| > 0 && e.eventType == VisitLeaf
    ensures OnLeaf(st, e).Some?
    ensures var r := OnLeaf(st, e).value;
      && r.visitedNodes == st.visitedNodes && |st.nodes| <= |r.nodes|
      && forall q :: 0 <= q < |st.nodes| ==> r.nodes[q].requiredKeys == st.nodes[q].requiredKeys
  {
    LeafNodesKeepRequired(st.nodes, st.stack[|st.stack| - 1], ChildKeyOf(e.key), e.valueType);
  }

  /** A close event under a current node pops it. Closing a container
      reached under a string key marks that key seen in the parent
      (`MarkInParent`, which does nothing without `trackParents`); closing
      an array changes no node; closing an object sets its required keys
      (`ClosedRequired`), changes no other node and marks it visited. */
  lemma CloseStep(trackParents: bool, st: ParseState, e: Event) returns (r: ParseState)
    requires Valid(st) && |st.stack| > 0 && e.eventType == CloseObject
    ensures Step(trackParents, st, e) == Some(r) && Valid(r) && Grows(st.nodes, r.nodes)
    ensures r.stack == st.stack[..|st.stack| - 1]
    ensures var closed := st.stack[|st.stack| - 1];
      && closed < |st.nodes| && |r.nodes| == |st.nodes|
      && r.missedRevisitKeys == MarkInParent(trackParents, st, closed, e.key)
      && r.visitedNodes == (if e.valueType == "object" then st.visitedNodes + {closed} else st.visitedNodes)
      && (forall q :: 0 <= q < |st.nodes| && q != closed ==> r.nodes[q] == st.nodes[q])
      && (e.valueType != "object" ==> r.nodes == st.nodes)
      && (e.valueType == "object" ==>
            r.nodes[closed].requiredKeys == ClosedRequired(st.nodes, closed, MarkInParent(trackParents, st, closed, e.key), st.visitedNodes))
  {
    assert Step(trackParents, st, e) == OnClose(trackParents, st, e);
    r := OnClose(trackParents, st, e).value;
  }

  // ----- required keys only shrink after the first close -----

  /** From `a` to `b`: the visited set and the arena only grow, and a
      visited node requires no key it did not require before. */
  ghost predicate Settled(a: ParseState, b: ParseState)
  {
    && a.visitedNodes <= b.visitedNodes && |a.nodes| <= |b.nodes|
    && forall q :: q in a.visitedNodes && q < |a.nodes| ==> Within(b.nodes[q].requiredKeys, a.nodes[q].requiredKeys)
  }

  lemma SettledTrans(a: ParseState, b: ParseState, c: ParseState)
    requires Settled(a, b) && Settled(b, c)
    ensures Settled(a, c)
  {
  }

  lemma LeafSettles(trackParents: bool, st: ParseState, e: Event)
    requires Valid(st) && |st.stack| > 0 && e.eventType == VisitLeaf
    ensures Step(trackParents, st, e) == OnLeaf(st, e) && OnLeaf(st, e).Some?
    ensures Settled(st, OnLeaf(st, e).value)
  {
    LeafKeepsRequired(st, e);
  }

  lemma OpenSettles(trackParents: bool, st: ParseState, e: Event)
    requires Valid(st) && e.eventType == OpenObject
    ensures Step(trackParents, st, e) == Some(OnOpen(trackParents, st, e))
    ensures Settled(st, OnOpen(trackParents, st, e))
  {
    OpenKeepsRequired(trackParents, st, e);
  }

  lemma CloseSettles(trackParents: bool, st: ParseState, e: Event)
    requires Valid(st) && |st.stack| > 0 && e.eventType == CloseObject
    ensures Step(trackParents, st, e).Some?
    ensures Settled(st, Step(trackParents, st, e).value)
  {
    var r := CloseStep(trackParents, st, e);
  }

  lemma StepSettles(trackParents: bool, st: ParseState, e: Event)
    requires Valid(st) && Step(trackParents, st, e).Some?
    ensures Settled(st, Step(trackParents, st, e).value)
  {
    match e.eventType
    case VisitLeaf =>
      assert Step(trackParents, st, e) == OnLeaf(st, e);
      LeafSettles(trackParents, st, e);
    case OpenObject =>
      OpenSettles(trackParents, st, e);
    case CloseObject =>
      if |st.stack| > 0 {
        CloseSettles(trackParents, st, e);
      } else {
        assert Step(trackParents, st, e) == Some(st.(current := None));
      }
  }

  /** After its first close an object node's required keys only shrink:
      whatever the loop does next, a visited node requires no key it did
      not require already. */
  lemma {:induction false} RequiredOnlyShrink(trackParents: bool, st: ParseState, events: seq<Event>)
    requires Valid(st) && Run(trackParents, st, events).Some?
    ensures Settled(st, Run(trackParents, st, events).value)
    decreases |events|
  {
    if |events| > 0 {
      RunFirst(trackParents, st, events);
      var st' := Step(trackParents, st, events[0]).value;
      StepSettles(trackParents, st, events[0]);
      RequiredOnlyShrink(trackParents, st', events[1..]);
      SettledTrans(st, st', Run(trackParents, st, events).value);
    }
  }

  /** A key that is not a key of a visited node's children (so one first
      seen on a later visit) is never required of that node. */
  lemma LaterKeysNeverRequired(trackParents: bool, st: ParseState, events: seq<Event>, q: nat, k: string)
    requires Valid(st) && Run(trackParents, st, events).Some?
    requires q in st.visitedNodes && q < |st.nodes|
    requires k !in FieldKeys(ChildrenOrEmpty(st.nodes[q]))
    ensures !IsRequiredIn(Run(trackParents, st, events).value.nodes[q], k)
  {
    assert NodeOk(st.nodes, q);
    RequiredOnlyShrink(trackParents, st, events);
  }

  // ----- a container-valued key on a revisit -----

  /** The array `[{a: []}, {a: []}]`: two visits of one item object whose
      key `a` holds an empty array each time. */
  const EmptyA := Arr([])
  const ItemA := Obj([Entry("a", EmptyA)])
  const TwoItems := Arr([ItemA, ItemA])

  function OpenItem(i: nat): Event { Event(OpenObject, Index(i), ItemA, "object") }
  function CloseItem(i: nat): Event { Event(CloseObject, Index(i), ItemA, "object") }
  const OpenA := Event(OpenObject, Name("a"), EmptyA, "array")
  const CloseA := Event(CloseObject, Name("a"), EmptyA, "array")

  lemma ItemWalk(i: nat)
    ensures Walk(ItemA, Index(i)) == [OpenItem(i), OpenA, CloseA, CloseItem(i)]
  {
    assert WalkEntries([Entry("a", EmptyA)]) == [OpenA, CloseA] by {
      assert [Entry("a", EmptyA)][1..] == [];
      assert WalkItems([], 0) == [];
    }
  }

  /** The events of item `i`. */
  function ItemEvents(i: nat): seq<Event>
  {
    [OpenItem(i)] + [OpenA, CloseA] + [CloseItem(i)]
  }

  lemma TwoItemsWalk()
    ensures WalkItems([ItemA, ItemA], 0) == ItemEvents(0) + ItemEvents(1)
  {
    ItemWalk(0);
    ItemWalk(1);
    assert [ItemA, ItemA][1..] == [ItemA] && [ItemA][1..] == [];
    assert WalkItems([ItemA], 1) == Walk(ItemA, Index(1)) + WalkItems([], 2);
    assert WalkItems([ItemA, ItemA], 0) == Walk(ItemA, Index(0)) + WalkItems([ItemA], 1);
    assert ItemEvents(0) == [OpenItem(0), OpenA, CloseA, CloseItem(0)];
    assert ItemEvents(1) == [OpenItem(1), OpenA, CloseA, CloseItem(1)];
  }

  /** Two iterations of the loop. */
  lemma RunTwo(trackParents: bool, s0: ParseState, e1: Event, e2: Event, s1: ParseState, s2: ParseState)
    requires Valid(s0) && Step(trackParents, s0, e1) == Some(s1)
    requires Valid(s1) && Step(trackParents, s1, e2) == Some(s2)
    ensures Run(trackParents, s0, [e1, e2]) == Some(s2)
  {
    RunCons(trackParents, s0, e1, [e2]);
    assert [e1] + [e2] == [e1, e2];
    RunCons(trackParents, s1, e2, []);
    assert [e2] + [] == [e2];
  }

  /** One iteration of the loop. */
  lemma RunOne(trackParents: bool, s0: ParseState, e: Event, s1: ParseState)
    requires Valid(s0) && Step(trackParents, s0, e) == Some(s1)
    ensures Run(trackParents, s0, [e]) == Some(s1)
  {
    RunCons(trackParents, s0, e, []);
    assert [e] + [] == [e];
  }

  /** Two stretches of the loop, one after the other. */
  lemma RunJoin(trackParents: bool, s0: ParseState, a: seq<Event>, b: seq<Event>, s1: ParseState, s2: ParseState)
    requires Valid(s0) && Run(trackParents, s0, a) == Some(s1)
    requires Valid(s1) && Run(trackParents, s1, b) == Some(s2)
    ensures Run(trackParents, s0, a + b) == Some(s2)
  {
    RunAppend(trackParents, s0, a, b);
  }

  /** An iteration, a stretch of the loop, and one more iteration. */
  lemma RunSandwich(trackParents: bool, s0: ParseState, first: Event, mid: seq<Event>, last: Event,
                    s1: ParseState, s2: ParseState, s3: ParseState)
    requires Valid(s0) && Run(trackParents, s0, [first]) == Some(s1)
    requires Valid(s1) && Run(trackParents, s1, mid) == Some(s2)
    requires Valid(s2) && Run(trackParents, s2, [last]) == Some(s3)
    ensures Run(trackParents, s0, [first] + mid + [last]) == Some(s3)
  {
    RunJoin(trackParents, s1, mid, [last], s2, s3);
    RunJoin(trackParents, s0, [first], mid + [last], s1, s3);
    assert [first] + mid + [last] == [first] + (mid + [last]);
  }

  /** A key of a child with a type is among the keys required on the first
      close. */
  lemma KeyFromChildren(nodes: seq<NodeRec>, cs: seq<(ChildKey, nat)>, k: string, d: nat)
    requires forall j :: 0 <= j < |cs| ==> cs[j].1 < |nodes|
    requires FindChild(cs, Field(k)) == Some(d) && d < |nodes| && |nodes[d].types| > 0
    ensures k in RequiredFromChildren(nodes, cs)
  {
    var j := KeyIndex(cs, Field(k)).value;
    assert cs[j].0 == Field(k) && cs[j].1 == d;
  }

  /** The node of array `b` (on top of the stack) and its item node `c`. */
  ghost predicate HasItem(st: ParseState, b: nat, c: nat)
  {
    b < |st.nodes| && st.nodes[b].children.Some? && FindChild(st.nodes[b].children.value, Item) == Some(c) && c < |st.nodes|
  }

  /** The first item `{a: []}`: its node is created and, on its first
      close, requires `a`, whose node has the type `array`. */
  lemma FirstVisit(trackParents: bool, s: ParseState) returns (t: ParseState, c: nat)
    requires Valid(s) && |s.stack| > 0 && s.visitedNodes == {}
    ensures Run(trackParents, s, ItemEvents(0)) == Some(t)
    ensures Valid(t) && Grows(s.nodes, t.nodes) && t.stack == s.stack
    ensures HasItem(t, s.stack[|s.stack| - 1], c) && c in t.visitedNodes
    ensures IsRequiredIn(t.nodes[c], "a")
  {
    var s1;
    s1, c := OpenFirstItem(trackParents, s);
    var s3, d := VisitA(trackParents, s1, c);
    t := FirstClose(trackParents, s3, c, d);
    RunOne(trackParents, s, OpenItem(0), s1);
    RunOne(trackParents, s3, CloseItem(0), t);
    RunSandwich(trackParents, s, OpenItem(0), [OpenA, CloseA], CloseItem(0), s1, s3, t);
    GrowsTrans(s.nodes, s1.nodes, s3.nodes);
    GrowsTrans(s.nodes, s3.nodes, t.nodes);
    GrowsTrans(s1.nodes, s3.nodes, t.nodes);
  }

  /** The first item opens a new item node under the array on top. */
  lemma OpenFirstItem(trackParents: bool, s: ParseState) returns (s1: ParseState, c: nat)
    requires Valid(s) && |s.stack| > 0 && s.visitedNodes == {}
    ensures Step(trackParents, s, OpenItem(0)) == Some(s1) && Valid(s1) && Grows(s.nodes, s1.nodes)
    ensures s1.stack == s.stack + [c] && s1.visitedNodes == {} && c in s1.missedRevisitKeys
    ensures HasItem(s1, s.stack[|s.stack| - 1], c)
  {
    s1 := OpenStep(trackParents, s, OpenItem(0));
    c := s1.stack[|s.stack|];
    assert s1.stack == s1.stack[..|s.stack|] + [c];
  }

  /** The first close of the item node: its required keys are those of
      its children with a type, `a` among them. */
  lemma FirstClose(trackParents: bool, s3: ParseState, c: nat, d: nat) returns (t: ParseState)
    requires Valid(s3) && |s3.stack| > 0 && s3.stack[|s3.stack| - 1] == c && c !in s3.visitedNodes
    requires c < |s3.nodes| && s3.nodes[c].children.Some? && FindChild(s3.nodes[c].children.value, Field("a")) == Some(d)
    requires d < |s3.nodes| && |s3.nodes[d].types| > 0
    ensures Step(trackParents, s3, CloseItem(0)) == Some(t) && Valid(t) && Grows(s3.nodes, t.nodes)
    ensures t.stack == s3.stack[..|s3.stack| - 1] && c in t.visitedNodes
    ensures IsRequiredIn(t.nodes[c], "a")
  {
    t := CloseStep(trackParents, s3, CloseItem(0));
    assert NodeOk(s3.nodes, c);
    KeyFromChildren(s3.nodes, s3.nodes[c].children.value, "a", d);
  }

  /** The second item reopens the item node: this visit has, so far,
      missed every key the node requires. */
  lemma Reopen(trackParents: bool, t: ParseState, c: nat) returns (s1: ParseState)
    requires Valid(t) && |t.stack| > 0 && HasItem(t, t.stack[|t.stack| - 1], c)
    requires c in t.visitedNodes && t.nodes[c].requiredKeys.Some?
    ensures Step(trackParents, t, OpenItem(1)) == Some(s1) && Valid(s1) && Grows(t.nodes, s1.nodes)
    ensures s1.stack == t.stack + [c] && c in s1.visitedNodes
    ensures c in s1.missedRevisitKeys && s1.missedRevisitKeys[c] == t.nodes[c].requiredKeys.value
    ensures s1.nodes[c].requiredKeys == t.nodes[c].requiredKeys
  {
    s1 := OpenStep(trackParents, t, OpenItem(1));
    assert s1.stack == s1.stack[..|t.stack|] + [s1.stack[|t.stack|]];
  }

  /** The key `a` of the reopened item: its array is opened and closed. With
      `trackParents` the close marks `a` seen in the item's visit. */
  lemma VisitA(trackParents: bool, s1: ParseState, c: nat) returns (s3: ParseState, d: nat)
    requires Valid(s1) && |s1.stack| > 0 && s1.stack[|s1.stack| - 1] == c
    requires c in s1.missedRevisitKeys
    ensures Run(trackParents, s1, [OpenA, CloseA]) == Some(s3) && Valid(s3) && Grows(s1.nodes, s3.nodes)
    ensures s3.stack == s1.stack && s3.visitedNodes == s1.visitedNodes
    ensures c in s3.missedRevisitKeys
    ensures s3.missedRevisitKeys[c] == if trackParents then s1.missedRevisitKeys[c] - {"a"} else s1.missedRevisitKeys[c]
    ensures c < |s1.nodes| && s3.nodes[c].requiredKeys == s1.nodes[c].requiredKeys
    ensures s3.nodes[c].children.Some? && FindChild(s3.nodes[c].children.value, Field("a")) == Some(d)
    ensures d < |s3.nodes| && |s3.nodes[d].types| > 0
  {
    var s2 := OpenStep(trackParents, s1, OpenA);
    d := s2.stack[|s1.stack|];
    assert s2.missedRevisitKeys == s1.missedRevisitKeys;
    s3 := CloseStep(trackParents, s2, CloseA);
    assert s3.nodes == s2.nodes;
    RunTwo(trackParents, s1, OpenA, CloseA, s2, s3);
  }

  /** Dropping from the required keys `req` of a node the keys `missed` a
      visit did not show: all of them leaves none, all but `a` leaves `a`. */
  lemma DropAllButA(req: set<string>)
    requires "a" in req
    ensures DropMissed(Some(req), req) == None
    ensures DropMissed(Some(req), req - {"a"}) == Some({"a"})
  {
    assert req - req == {};
    if req - {"a"} != {} {
      assert req - (req - {"a"}) == {"a"};
    } else {
      assert req == {"a"};
    }
  }

  /** The second item `{a: []}`: the item node is visited again. Only with
      `trackParents` does closing `a` mark it seen, so only then is it still
      required when the item closes. */
  lemma SecondVisit(trackParents: bool, t: ParseState, c: nat) returns (u: ParseState)
    requires Valid(t) && |t.stack| > 0 && HasItem(t, t.stack[|t.stack| - 1], c)
    requires c in t.visitedNodes && IsRequiredIn(t.nodes[c], "a")
    ensures Run(trackParents, t, ItemEvents(1)) == Some(u)
    ensures Valid(u) && Grows(t.nodes, u.nodes) && u.stack == t.stack
    ensures c < |u.nodes| && u.nodes[c].requiredKeys == if trackParents then Some({"a"}) else None
  {
    var req := t.nodes[c].requiredKeys.value;
    var s1 := Reopen(trackParents, t, c);
    var s3, _ := VisitA(trackParents, s1, c);
    u := CloseStep(trackParents, s3, CloseItem(1));
    RunOne(trackParents, t, OpenItem(1), s1);
    RunOne(trackParents, s3, CloseItem(1), u);
    RunSandwich(trackParents, t, OpenItem(1), [OpenA, CloseA], CloseItem(1), s1, s3, u);
    GrowsTrans(t.nodes, s1.nodes, s3.nodes);
    GrowsTrans(t.nodes, s3.nodes, u.nodes);
    DropAllButA(req);
  }

  /** A child found under a key has a larger index than its parent. */
  lemma FoundChildAfter(nodes: seq<NodeRec>, p: nat, k: ChildKey, c: nat)
    requires ArenaOk(nodes) && p < |nodes| && nodes[p].children.Some?
    requires FindChild(nodes[p].children.value, k) == Some(c)
    ensures p < c < |nodes|
  {
    assert NodeOk(nodes, p);
    var j := KeyIndex(nodes[p].children.value, k).value;
  }

  /** Both items of `[{a: []}, {a: []}]` under the array node on top. */
  lemma BothVisits(trackParents: bool, s: ParseState) returns (u: ParseState, c: nat)
    requires Valid(s) && |s.stack| > 0 && s.visitedNodes == {}
    ensures Run(trackParents, s, ItemEvents(0) + ItemEvents(1)) == Some(u)
    ensures Valid(u) && Grows(s.nodes, u.nodes) && u.stack == s.stack
    ensures HasItem(u, s.stack[|s.stack| - 1], c)
    ensures u.nodes[c].requiredKeys == if trackParents then Some({"a"}) else None
  {
    var b := s.stack[|s.stack| - 1];
    var t;
    t, c := FirstVisit(trackParents, s);
    u := SecondVisit(trackParents, t, c);
    GrowsTrans(s.nodes, t.nodes, u.nodes);
    RunJoin(trackParents, s, ItemEvents(0), ItemEvents(1), t, u);
  }

  const CloseArray := Event(CloseObject, Name("_"), TwoItems, "array")
  const CloseRoot := Event(CloseObject, Name("root"), Wrapped(TwoItems), "object")

  /** The two closes that end the walk leave the item node as it is. */
  lemma LastCloses(trackParents: bool, u: ParseState, b: nat, c: nat) returns (v: ParseState)
    requires Valid(u) && |u.stack| == 2 && u.stack[0] < b && u.stack[1] == b && HasItem(u, b, c)
    ensures Run(trackParents, u, [CloseArray, CloseRoot]) == Some(v)
    ensures Valid(v) && Grows(u.nodes, v.nodes) && c < |v.nodes| && v.nodes[c] == u.nodes[c]
  {
    FoundChildAfter(u.nodes, b, Item, c);
    var u1 := CloseStep(trackParents, u, CloseArray);
    assert u1.stack == [u.stack[0]];
    v := CloseStep(trackParents, u1, CloseRoot);
    RunTwo(trackParents, u, CloseArray, CloseRoot, u1, v);
    GrowsTrans(u.nodes, u1.nodes, v.nodes);
  }

  /** The two opens that start the walk of `{_: [{a: []}, {a: []}]}`. */
  lemma OpenWrapper(trackParents: bool) returns (s2: ParseState, b: nat)
    ensures Valid(s2) && Run(trackParents, InitialState, Walk(Wrapped(TwoItems))) ==
      Run(trackParents, s2, (ItemEvents(0) + ItemEvents(1)) + [CloseArray, CloseRoot])
    ensures s2.stack == [0, b] && 0 < b && s2.visitedNodes == {}
    ensures s2.nodes[0].children.Some? && FindChild(s2.nodes[0].children.value, Field("_")) == Some(b)
  {
    var o1 := Event(OpenObject, Name("root"), Wrapped(TwoItems), "object");
    var o2 := Event(OpenObject, Name("_"), TwoItems, "array");
    WalkWrappedArray([ItemA, ItemA]);
    TwoItemsWalk();
    var rest := (ItemEvents(0) + ItemEvents(1)) + [CloseArray, CloseRoot];
    assert Walk(Wrapped(TwoItems)) == [o1, o2] + rest;
    OpenTwo(trackParents, o1, o2, rest);
    var s1 := OnOpen(trackParents, InitialState, o1);
    Parse.FirstOpen(trackParents, o1);
    s2 := OnOpen(trackParents, s1, o2);
    assert s2.stack == [0, s2.stack[1]] by {
      assert s2.stack[..1] == s1.stack;
    }
    b := s2.stack[1];
    FoundChildAfter(s2.nodes, 0, Field("_"), b);
  }

  /** The whole loop over the walk of `{_: [{a: []}, {a: []}]}`: `b` is
      the array node and `c` its item node. */
  lemma TwoItemsRun(trackParents: bool) returns (v: ParseState, b: nat, c: nat)
    ensures Run(trackParents, InitialState, Walk(Wrapped(TwoItems))) == Some(v)
    ensures ArenaOk(v.nodes) && |v.nodes| > 0 && v.nodes[0].children.Some?
    ensures FindChild(v.nodes[0].children.value, Field("_")) == Some(b) && HasItem(v, b, c)
    ensures v.nodes[c].requiredKeys == if trackParents then Some({"a"}) else None
  {
    var s2;
    s2, b := OpenWrapper(trackParents);
    var u;
    u, c := BothVisits(trackParents, s2);
    v := LastCloses(trackParents, u, b, c);
    RunJoin(trackParents, s2, ItemEvents(0) + ItemEvents(1), [CloseArray, CloseRoot], u, v);
    GrowsTrans(s2.nodes, u.nodes, v.nodes);
  }

  /** Parsing `[{a: []}, {a: []}]`: the item type requires `a` when
      closing a container marks its key in the parent, and requires
      nothing otherwise. */
  lemma RevisitedContainerKey(trackParents: bool)
    ensures ChildAt(ParseTree(trackParents, TwoItems), Item).Some?
    ensures ChildAt(ParseTree(trackParents, TwoItems), Item).value.requiredKeys == if trackParents then Some({"a"}) else None
  {
    var v, b, c := TwoItemsRun(trackParents);
    ParseTreeFrom(trackParents, TwoItems, v);
    ExtractFindChild(v.nodes, b, Item);
  }

  /** src/parse.ts as written: every item of `[{a: []}, {a: []}]` has the
      key `a`, yet the item type requires no key. */
  lemma ParseDropsContainerKey()
    ensures ChildAt(ParseTree(false, TwoItems), Item).Some?
    ensures ChildAt(ParseTree(false, TwoItems), Item).value.requiredKeys == None
  {
    RevisitedContainerKey(false);
  }

  /** With the key marked on the container's close, as in
      src/compiler/parse.ts, the item type of `[{a: []}, {a: []}]`
      requires exactly `a`. */
  lemma CompilerKeepsContainerKey()
    ensures ChildAt(ParseTree(true, TwoItems), Item).Some?
    ensures ChildAt(ParseTree(true, TwoItems), Item).value.requiredKeys == Some({"a"})
  {
    RevisitedContainerKey(true);
  }
}
