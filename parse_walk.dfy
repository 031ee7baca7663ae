/** What the loop of `parse` does with the events of one whole value. Let
    node `p` be on top of the stack, and let a value be reached under key
    `k`. Then the loop over that value's walk:
    - ends with the same stack;
    - links (or reuses) the child of `p` under `k` and adds the value's type
      to it;
    - marks `k` seen in `p`'s current visit when the source does;
    - changes nothing else about `p` or about any node created before `p`.
    These facts hold for every value, and `ParseItems` builds its theorems
    about array items on them. */
module ParseWalk {
  import opened Json
  import opened Wrappers
  import opened TreeWalk
  import opened Parse
  import opened ParseRequired

  /** `Valid`, and two facts the loop keeps: every node has a type, and only
      existing nodes have been visited. */
  ghost predicate Inv(st: ParseState)
  {
    && Valid(st)
    && (forall q :: 0 <= q < |st.nodes| ==> |st.nodes[q].types| > 0)
    && (forall q :: q in st.visitedNodes ==> q < |st.nodes|)
  }

  /** The object key a child key names, if any. */
  function FieldName(k: ChildKey): set<string>
  {
    if k.Field? then {k.name} else {}
  }

  /** The keys the walk of `v` under `key` marks seen in the parent's visit:
      a leaf always marks its string key; a container marks it only when
      its close marks the key in its parent (`trackParents`). */
  function SeenKey(trackParents: bool, v: JsonValue, key: Key): set<string>
  {
    if key.Name? && (trackParents || IsPrimitive(v)) then {key.name} else {}
  }

  /** The keys of an object's entries. */
  function KeysOf(entries: seq<Entry>): set<string>
  {
    if |entries| == 0 then {} else {entries[0].key} + KeysOf(entries[1..])
  }

  /** The keys of an object's entries that its walk marks seen. */
  function SeenOf(trackParents: bool, entries: seq<Entry>): set<string>
  {
    if |entries| == 0 then {}
    else SeenKey(trackParents, entries[0].value, Name(entries[0].key)) + SeenOf(trackParents, entries[1..])
  }

  /** The types of a node, as a set. */
  function Elems(s: seq<string>): set<string>
  {
    set x | x in s
  }

  /** The types of the values of an array. */
  function ItemTypes(items: seq<JsonValue>): set<string>
  {
    if |items| == 0 then {} else {ValueType(items[0])} + ItemTypes(items[1..])
  }

  /** The types of the child of node `p` under `k`, empty when there is no
      such child. */
  ghost function TypesUnder(nodes: seq<NodeRec>, p: nat, k: ChildKey): seq<string>
  {
    if p < |nodes| && nodes[p].children.Some? && FindChild(nodes[p].children.value, k).Some?
       && FindChild(nodes[p].children.value, k).value < |nodes|
    then nodes[FindChild(nodes[p].children.value, k).value].types
    else []
  }

  /** From `a` to `b`, the nodes `0..p` keep their types, required keys,
      visited marks and parent links; the nodes below `p` also keep their
      children and missed keys. */
  ghost predicate Frame(a: ParseState, b: ParseState, p: nat)
  {
    && |a.nodes| <= |b.nodes|
    && (forall q :: 0 <= q <= p && q < |a.nodes| ==>
          b.nodes[q].types == a.nodes[q].types && b.nodes[q].requiredKeys == a.nodes[q].requiredKeys)
    && (forall q :: 0 <= q < p && q < |a.nodes| ==> b.nodes[q].children == a.nodes[q].children)
    && (forall q :: 0 <= q <= p ==> (q in b.visitedNodes <==> q in a.visitedNodes))
    && (forall q :: 0 <= q < p ==> (q in b.missedRevisitKeys <==> q in a.missedRevisitKeys))
    && (forall q :: 0 <= q < p && q in a.missedRevisitKeys && q in b.missedRevisitKeys ==>
          b.missedRevisitKeys[q] == a.missedRevisitKeys[q])
    && (forall q :: 0 <= q <= p ==> (q in b.parentLinks <==> q in a.parentLinks))
    && (forall q :: 0 <= q <= p && q in a.parentLinks && q in b.parentLinks ==> b.parentLinks[q] == a.parentLinks[q])
  }

  /** From `a` to `b`, node `p`'s current visit has newly seen the keys
      `seen`, and nothing else. */
  ghost predicate MissedLess(a: ParseState, b: ParseState, p: nat, seen: set<string>)
  {
    && (p in b.missedRevisitKeys <==> p in a.missedRevisitKeys)
    && (p in a.missedRevisitKeys && p in b.missedRevisitKeys ==>
          b.missedRevisitKeys[p] == a.missedRevisitKeys[p] - seen)
  }

  lemma FrameTrans(a: ParseState, b: ParseState, c: ParseState, p: nat)
    requires Frame(a, b, p) && Frame(b, c, p)
    ensures Frame(a, c, p)
  {
  }

  lemma FrameDown(a: ParseState, b: ParseState, c: nat, p: nat)
    requires Frame(a, b, c) && p <= c
    ensures Frame(a, b, p)
  {
  }

  lemma MissedLessTrans(a: ParseState, b: ParseState, c: ParseState, p: nat, s1: set<string>, s2: set<string>)
    requires MissedLess(a, b, p, s1) && MissedLess(b, c, p, s2)
    ensures MissedLess(a, c, p, s1 + s2)
  {
  }

  /** The child of `p` under `ck` is `c` in `b`; it is the child `a` had,
      or a new node; it gained type `t`; and `p` gained the key `ck`. */
  ghost predicate Reached(a: seq<NodeRec>, b: seq<NodeRec>, p: nat, ck: ChildKey, t: string, c: nat)
  {
    && p < |a| <= |b| && p < c < |b|
    && a[p].children.Some? && b[p].children.Some?
    && FindChild(b[p].children.value, ck) == Some(c)
    && (FindChild(a[p].children.value, ck).Some? ==> FindChild(a[p].children.value, ck) == Some(c) && c < |a|)
    && (FindChild(a[p].children.value, ck).None? ==> c == |a|)
    && b[c].types == AddType(if c < |a| then a[c].types else [], t)
    && FieldKeys(b[p].children.value) == FieldKeys(a[p].children.value) + FieldName(ck)
  }

  /** `Reached` by one iteration: besides the children of `p` and the node
      `c`, nothing in the arena changed, and a new `c` requires nothing. */
  ghost predicate Attached(a: seq<NodeRec>, b: seq<NodeRec>, p: nat, ck: ChildKey, t: string, c: nat)
  {
    && Reached(a, b, p, ck, t, c)
    && |b| == (if c < |a| then |a| else |a| + 1)
    && (forall q :: 0 <= q < |a| && q != c ==> b[q].types == a[q].types && b[q].requiredKeys == a[q].requiredKeys)
    && (forall q :: 0 <= q < |a| && q != c && q != p ==> b[q].children == a[q].children)
    && b[c].requiredKeys == (if c < |a| then a[c].requiredKeys else None)
  }

  // ---------------------------------------------------------------------
  // Children keys

  /** `children.set(k, id)` adds `k` to the object keys, and no other key. */
  lemma SetChildKeys(cs: seq<(ChildKey, nat)>, k: ChildKey, id: nat)
    ensures FieldKeys(SetChild(cs, k, id)) == FieldKeys(cs) + FieldName(k)
  {
    var cs' := SetChild(cs, k, id);
    match KeyIndex(cs, k)
    case Some(j) =>
      assert cs' == cs[j := (k, id)];
      forall x | x in FieldKeys(cs') ensures x in FieldKeys(cs) {
        var i :| 0 <= i < |cs'| && cs'[i].0.Field? && cs'[i].0.name == x;
        assert cs[i].0 == cs'[i].0;
      }
      assert FieldName(k) <= FieldKeys(cs) by {
        if k.Field? {
          assert cs[j].0 == k;
        }
      }
      forall x | x in FieldKeys(cs) ensures x in FieldKeys(cs') {
        var i :| 0 <= i < |cs| && cs[i].0.Field? && cs[i].0.name == x;
        assert cs'[i].0 == cs[i].0;
      }
    case None =>
      assert cs' == cs + [(k, id)];
      forall x | x in FieldKeys(cs') ensures x in FieldKeys(cs) + FieldName(k) {
        var i :| 0 <= i < |cs'| && cs'[i].0.Field? && cs'[i].0.name == x;
        if i < |cs| {
          assert cs[i] == cs'[i];
        }
      }
      forall x | x in FieldKeys(cs) + FieldName(k) ensures x in FieldKeys(cs') {
        if x in FieldKeys(cs) {
          var i :| 0 <= i < |cs| && cs[i].0.Field? && cs[i].0.name == x;
          assert cs'[i] == cs[i];
        } else {
          assert cs'[|cs|].0 == k;
        }
      }
  }

  /** On the first close the keys of the children with a type are all the
      object keys, since every node has a type. */
  lemma RequiredFromAll(nodes: seq<NodeRec>, cs: seq<(ChildKey, nat)>)
    requires forall j :: 0 <= j < |cs| ==> cs[j].1 < |nodes|
    requires forall q :: 0 <= q < |nodes| ==> |nodes[q].types| > 0
    ensures RequiredFromChildren(nodes, cs) == FieldKeys(cs)
  {
    forall x | x in FieldKeys(cs) ensures x in RequiredFromChildren(nodes, cs) {
      var i :| 0 <= i < |cs| && cs[i].0.Field? && cs[i].0.name == x;
      assert |nodes[cs[i].1].types| > 0;
    }
  }

  lemma ElemsAddType(s: seq<string>, t: string)
    ensures Elems(AddType(s, t)) == Elems(s) + {t}
  {
  }

  // ---------------------------------------------------------------------
  // One iteration

  /** The arena updates of a leaf under `p`. */
  lemma LeafArena(nodes: seq<NodeRec>, p: nat, ck: ChildKey, t: string)
    requires ArenaOk(nodes) && p < |nodes| && nodes[p].children.Some?
    ensures var (c, nodes1) := ChildOrNew(nodes, Some(p), ck);
      var b := LinkChild(AddTypeAt(nodes1, c, t), p, ck, c);
      && Attached(nodes, b, p, ck, t, c)
      && b[c].children == (if c < |nodes| then nodes[c].children else None)
  {
    var (c, nodes1) := ChildOrNew(nodes, Some(p), ck);
    var nodes2 := AddTypeAt(nodes1, c, t);
    var b := LinkChild(nodes2, p, ck, c);
    assert nodes2[p] == nodes[p];
    SetChildKeys(nodes[p].children.value, ck, c);
    assert b[c] == nodes2[c];
  }

  /** The arena updates of an open under `p` (`OpenChild`). */
  lemma OpenArena(nodes: seq<NodeRec>, p: nat, ck: ChildKey, t: string)
    requires ArenaOk(nodes) && p < |nodes| && nodes[p].children.Some?
    ensures var (c, b) := OpenChild(nodes, Some(p), ck, t);
      && Attached(nodes, b, p, ck, t, c)
      && b[c].children == Some(if c < |nodes| then ChildrenOrEmpty(nodes[c]) else [])
  {
    var (c, nodes1) := ChildOrNew(nodes, Some(p), ck);
    var nodes2 := OpenAt(nodes1, c, t);
    var b := LinkChild(nodes2, p, ck, c);
    assert OpenChild(nodes, Some(p), ck, t) == (c, b);
    assert nodes2[p] == nodes[p];
    SetChildKeys(nodes[p].children.value, ck, c);
    assert b[c] == nodes2[c];
  }

  /** A leaf under the top node `p`. */
  lemma LeafW(tp: bool, st: ParseState, p: nat, e: Event) returns (r: ParseState, c: nat)
    requires Inv(st) && |st.stack| > 0 && st.stack[|st.stack| - 1] == p && e.eventType == VisitLeaf
    ensures Run(tp, st, [e]) == Some(r) && Inv(r) && r.stack == st.stack
    ensures Attached(st.nodes, r.nodes, p, ChildKeyOf(e.key), e.valueType, c)
      && r.nodes[c].children == (if c < |st.nodes| then st.nodes[c].children else None)
      && r.visitedNodes == st.visitedNodes && r.parentLinks == st.parentLinks
      && r.missedRevisitKeys == SeeKey(st.missedRevisitKeys, p, ChildKeyOf(e.key))
  {
    assert Step(tp, st, e) == OnLeaf(st, e);
    r := OnLeaf(st, e).value;
    c := ChildOrNew(st.nodes, Some(p), ChildKeyOf(e.key)).0;
    RunOne(tp, st, e, r);
    LeafAttached(st, p, e, r, c);
  }

  /** The arena a leaf leaves behind. */
  lemma LeafAttached(st: ParseState, p: nat, e: Event, r: ParseState, c: nat)
    requires Inv(st) && |st.stack| > 0 && st.stack[|st.stack| - 1] == p
    requires r == OnLeaf(st, e).value && c == ChildOrNew(st.nodes, Some(p), ChildKeyOf(e.key)).0
    ensures Inv(r)
    ensures Attached(st.nodes, r.nodes, p, ChildKeyOf(e.key), e.valueType, c)
      && r.nodes[c].children == (if c < |st.nodes| then st.nodes[c].children else None)
  {
    LeafArena(st.nodes, p, ChildKeyOf(e.key), e.valueType);
  }

  /** A leaf's update of the missed keys: its key, if it names one, is seen
      in `p`'s visit. */
  function SeeKey(missed: map<nat, set<string>>, p: nat, k: ChildKey): (r: map<nat, set<string>>)
    ensures r.Keys == missed.Keys
    ensures forall q :: q in missed && q != p ==> r[q] == missed[q]
    ensures p in missed ==> r[p] == missed[p] - FieldName(k)
  {
    if k.Field? && p in missed then missed[p := missed[p] - {k.name}] else missed
  }

  /** One leaf keeps the frame of `p` and sees its key. */
  lemma LeafFrame(st: ParseState, r: ParseState, p: nat, ck: ChildKey, t: string, c: nat)
    requires Attached(st.nodes, r.nodes, p, ck, t, c)
    requires r.visitedNodes == st.visitedNodes && r.parentLinks == st.parentLinks
      && r.missedRevisitKeys == SeeKey(st.missedRevisitKeys, p, ck)
    ensures Frame(st, r, p) && MissedLess(st, r, p, FieldName(ck))
  {
  }

  /** An open under the top node `p`: it pushes the child `c`. */
  lemma OpenW(tp: bool, st: ParseState, p: nat, e: Event) returns (r: ParseState, c: nat)
    requires Inv(st) && |st.stack| > 0 && st.stack[|st.stack| - 1] == p && e.eventType == OpenObject
    ensures Run(tp, st, [e]) == Some(r) && Inv(r) && r.stack == st.stack + [c]
    ensures Attached(st.nodes, r.nodes, p, ChildKeyOf(e.key), e.valueType, c)
      && r.nodes[c].children == Some(if c < |st.nodes| then ChildrenOrEmpty(st.nodes[c]) else [])
      && r.visitedNodes == st.visitedNodes
      && r.missedRevisitKeys ==
           (if e.valueType == "object" then st.missedRevisitKeys[c := RequiredOrEmpty(r.nodes[c])] else st.missedRevisitKeys)
      && r.parentLinks == (if tp then st.parentLinks[c := Some(p)] else st.parentLinks)
  {
    assert Step(tp, st, e) == Some(OnOpen(tp, st, e));
    r := OnOpen(tp, st, e);
    c := OpenChild(st.nodes, Some(p), ChildKeyOf(e.key), e.valueType).0;
    RunOne(tp, st, e, r);
    OpenAttached(tp, st, p, e, r, c);
  }

  /** The arena an open leaves behind. */
  lemma OpenAttached(tp: bool, st: ParseState, p: nat, e: Event, r: ParseState, c: nat)
    requires Inv(st) && |st.stack| > 0 && st.stack[|st.stack| - 1] == p
    requires r == OnOpen(tp, st, e) && c == OpenChild(st.nodes, Some(p), ChildKeyOf(e.key), e.valueType).0
    ensures Inv(r)
    ensures Attached(st.nodes, r.nodes, p, ChildKeyOf(e.key), e.valueType, c)
      && r.nodes[c].children == Some(if c < |st.nodes| then ChildrenOrEmpty(st.nodes[c]) else [])
  {
    OpenArena(st.nodes, p, ChildKeyOf(e.key), e.valueType);
  }

  /** A close: it pops the top node `c`, changing nothing in the arena but
      `c`'s required keys. */
  lemma CloseW(tp: bool, st: ParseState, e: Event) returns (r: ParseState)
    requires Inv(st) && |st.stack| > 0 && e.eventType == CloseObject
    ensures Run(tp, st, [e]) == Some(r) && Inv(r) && r.stack == st.stack[..|st.stack| - 1]
    ensures var c := st.stack[|st.stack| - 1];
      && c < |st.nodes| && |r.nodes| == |st.nodes|
      && (forall q :: 0 <= q < |st.nodes| && q != c ==> r.nodes[q] == st.nodes[q])
      && r.nodes[c].types == st.nodes[c].types && r.nodes[c].children == st.nodes[c].children
      && r.nodes[c].requiredKeys ==
           (if e.valueType == "object" then ClosedRequired(st.nodes, c, MarkInParent(tp, st, c, e.key), st.visitedNodes)
            else st.nodes[c].requiredKeys)
      && r.missedRevisitKeys == MarkInParent(tp, st, c, e.key)
      && r.visitedNodes == (if e.valueType == "object" then st.visitedNodes + {c} else st.visitedNodes)
      && r.parentLinks == st.parentLinks
  {
    assert Step(tp, st, e) == OnClose(tp, st, e);
    r := OnClose(tp, st, e).value;
    RunOne(tp, st, e, r);
  }

  // ---------------------------------------------------------------------
  // Whole values

  /** What happens to `p` and below when the child `c` of `p` is opened
      (`st` to `s1`), walked (`s1` to `s2`) and closed (`s2` to `s3`). */
  lemma ContainerFrame(tp: bool, st: ParseState, p: nat, s1: ParseState, s2: ParseState, s3: ParseState,
                       c: nat, key: Key, t: string)
    requires Inv(st) && |st.stack| > 0 && st.stack[|st.stack| - 1] == p
    requires Attached(st.nodes, s1.nodes, p, ChildKeyOf(key), t, c)
      && s1.visitedNodes == st.visitedNodes
      && (s1.missedRevisitKeys == st.missedRevisitKeys
          || s1.missedRevisitKeys == st.missedRevisitKeys[c := RequiredOrEmpty(s1.nodes[c])])
      && s1.parentLinks == (if tp then st.parentLinks[c := Some(p)] else st.parentLinks)
    requires Frame(s1, s2, c)
    requires |s3.nodes| == |s2.nodes| && (forall q :: 0 <= q < |s2.nodes| && q != c ==> s3.nodes[q] == s2.nodes[q])
    requires c < |s2.nodes| && s3.nodes[c].types == s2.nodes[c].types
    requires s3.missedRevisitKeys == MarkInParent(tp, s2, c, key)
    requires s3.visitedNodes == s2.visitedNodes || s3.visitedNodes == s2.visitedNodes + {c}
    requires s3.parentLinks == s2.parentLinks
    ensures Frame(st, s3, p)
      && MissedLess(st, s3, p, if tp && key.Name? then {key.name} else {})
      && Reached(st.nodes, s3.nodes, p, ChildKeyOf(key), t, c)
  {
    ContainerMissed(tp, st, p, s1, s2, s3, c, key, t);
    assert s3.nodes[p] == s2.nodes[p];
    assert s2.nodes[p].children == s1.nodes[p].children;
    assert s3.nodes[c].types == s1.nodes[c].types;
  }

  /** The parent links and missed keys of `p` and below across a container. */
  lemma ContainerMissed(tp: bool, st: ParseState, p: nat, s1: ParseState, s2: ParseState, s3: ParseState,
                        c: nat, key: Key, t: string)
    requires Inv(st) && |st.stack| > 0 && st.stack[|st.stack| - 1] == p
    requires Attached(st.nodes, s1.nodes, p, ChildKeyOf(key), t, c)
      && s1.visitedNodes == st.visitedNodes
      && (s1.missedRevisitKeys == st.missedRevisitKeys
          || s1.missedRevisitKeys == st.missedRevisitKeys[c := RequiredOrEmpty(s1.nodes[c])])
      && s1.parentLinks == (if tp then st.parentLinks[c := Some(p)] else st.parentLinks)
    requires Frame(s1, s2, c)
    requires |s3.nodes| == |s2.nodes| && (forall q :: 0 <= q < |s2.nodes| && q != c ==> s3.nodes[q] == s2.nodes[q])
    requires c < |s2.nodes| && s3.nodes[c].types == s2.nodes[c].types
    requires s3.missedRevisitKeys == MarkInParent(tp, s2, c, key)
    requires s3.visitedNodes == s2.visitedNodes || s3.visitedNodes == s2.visitedNodes + {c}
    requires s3.parentLinks == s2.parentLinks
    ensures (forall q :: 0 <= q < p ==> (q in s3.missedRevisitKeys <==> q in st.missedRevisitKeys))
      && (forall q :: 0 <= q < p && q in st.missedRevisitKeys && q in s3.missedRevisitKeys ==>
            s3.missedRevisitKeys[q] == st.missedRevisitKeys[q])
      && (forall q :: 0 <= q <= p ==> (q in s3.parentLinks <==> q in st.parentLinks))
      && (forall q :: 0 <= q <= p && q in st.parentLinks && q in s3.parentLinks ==> s3.parentLinks[q] == st.parentLinks[q])
      && MissedLess(st, s3, p, if tp && key.Name? then {key.name} else {})
  {
    assert c in s1.parentLinks <==> c in s2.parentLinks;
    assert tp ==> s2.parentLinks[c] == Some(p);
  }

  /** The walk of any value under `key`, from the top node `p`. */
  lemma {:induction false} WalkW(tp: bool, st: ParseState, p: nat, v: JsonValue, key: Key) returns (r: ParseState, c: nat)
    requires Inv(st) && |st.stack| > 0 && st.stack[|st.stack| - 1] == p
    ensures Run(tp, st, Walk(v, key)) == Some(r) && Inv(r) && r.stack == st.stack
    ensures Frame(st, r, p) && MissedLess(st, r, p, SeenKey(tp, v, key))
      && Reached(st.nodes, r.nodes, p, ChildKeyOf(key), ValueType(v), c)
      && NodeAfter(tp, st, r, c, v)
    decreases v, 2
  {
    match v
    case Obj(_) =>
      r, c := ObjVisitW(tp, st, p, v, key);
    case Arr(items) =>
      r, c := ArrVisitW(tp, st, p, v, key);
    case _ =>
      r, c := LeafVisitW(tp, st, p, v, key);
  }

  /** The walk of a primitive value: one leaf event. */
  lemma LeafVisitW(tp: bool, st: ParseState, p: nat, v: JsonValue, key: Key) returns (r: ParseState, c: nat)
    requires Inv(st) && |st.stack| > 0 && st.stack[|st.stack| - 1] == p && IsPrimitive(v)
    ensures Run(tp, st, Walk(v, key)) == Some(r) && Inv(r) && r.stack == st.stack
    ensures Frame(st, r, p) && MissedLess(st, r, p, SeenKey(tp, v, key))
      && Reached(st.nodes, r.nodes, p, ChildKeyOf(key), ValueType(v), c)
      && NodeAfter(tp, st, r, c, v)
  {
    var e := Event(VisitLeaf, key, v, ValueType(v));
    assert Walk(v, key) == [e];
    r, c := LeafW(tp, st, p, e);
    LeafKept(tp, st, r, p, c, v, key);
  }

  /** A leaf keeps the frame of `p`, sees its key, and leaves its node as
      it was, or new and bare. */
  lemma LeafKept(tp: bool, st: ParseState, r: ParseState, p: nat, c: nat, v: JsonValue, key: Key)
    requires Inv(st) && IsPrimitive(v)
    requires Attached(st.nodes, r.nodes, p, ChildKeyOf(key), ValueType(v), c)
      && r.nodes[c].children == (if c < |st.nodes| then st.nodes[c].children else None)
      && r.visitedNodes == st.visitedNodes && r.parentLinks == st.parentLinks
      && r.missedRevisitKeys == SeeKey(st.missedRevisitKeys, p, ChildKeyOf(key))
    ensures Frame(st, r, p) && MissedLess(st, r, p, SeenKey(tp, v, key)) && KeptAt(st, r, c)
  {
    LeafFrame(st, r, p, ChildKeyOf(key), ValueType(v), c);
    assert SeenKey(tp, v, key) == FieldName(ChildKeyOf(key));
    if c >= |st.nodes| {
      assert ChildrenOrEmpty(r.nodes[c]) == [];
    }
  }

  /** What the walk of `v` leaves at the node `c` it reached: an object
      visits it and sets what it requires, anything else keeps it. */
  ghost predicate NodeAfter(tp: bool, a: ParseState, b: ParseState, c: nat, v: JsonValue)
  {
    if v.Obj? then
      && c < |b.nodes| && c in b.visitedNodes
      && (Fresh(a.nodes, a.visitedNodes, c) ==> b.nodes[c].requiredKeys == NoneIfEmpty(KeysOf(v.entries)))
      && (c < |a.nodes| && c in a.visitedNodes ==>
            b.nodes[c].requiredKeys == Narrow(a.nodes[c].requiredKeys, SeenOf(tp, v.entries)))
    else KeptAt(a, b, c)
  }

  /** Nothing a walk that is not of an object does touches what the node `c`
      requires, whether it is visited, or its object keys; a new `c` ends
      with none of them. */
  ghost predicate KeptAt(a: ParseState, b: ParseState, c: nat)
  {
    && c < |b.nodes|
    && (c < |a.nodes| ==>
          && b.nodes[c].requiredKeys == a.nodes[c].requiredKeys
          && (c in b.visitedNodes <==> c in a.visitedNodes)
          && FieldKeys(ChildrenOrEmpty(b.nodes[c])) == FieldKeys(ChildrenOrEmpty(a.nodes[c])))
    && (c >= |a.nodes| ==>
          && b.nodes[c].requiredKeys.None? && c !in b.visitedNodes
          && FieldKeys(ChildrenOrEmpty(b.nodes[c])) == {})
  }

  /** The walk of an array. */
  lemma {:induction false} ArrVisitW(tp: bool, st: ParseState, p: nat, v: JsonValue, key: Key) returns (r: ParseState, c: nat)
    requires Inv(st) && |st.stack| > 0 && st.stack[|st.stack| - 1] == p && v.Arr?
    ensures Run(tp, st, Walk(v, key)) == Some(r) && Inv(r) && r.stack == st.stack
    ensures Frame(st, r, p) && MissedLess(st, r, p, SeenKey(tp, v, key))
      && Reached(st.nodes, r.nodes, p, ChildKeyOf(key), ValueType(v), c)
      && NodeAfter(tp, st, r, c, v)
    decreases v, 1
  {
    var open := Event(OpenObject, key, v, "array");
    var close := Event(CloseObject, key, v, "array");
    var s1;
    s1, c := OpenW(tp, st, p, open);
    var s2 := ItemsW(tp, s1, c, v.items, 0);
    r := CloseW(tp, s2, close);
    assert Walk(v, key) == [open] + WalkItems(v.items, 0) + [close];
    RunSandwich(tp, st, open, WalkItems(v.items, 0), close, s1, s2, r);
    ContainerFrame(tp, st, p, s1, s2, r, c, key, "array");
    ArrKept(st, s1, s2, r, c);
  }

  /** An array's walk keeps what `KeptAt` names of its own node. */
  lemma ArrKept(st: ParseState, s1: ParseState, s2: ParseState, r: ParseState, c: nat)
    requires Inv(st) && c < |s1.nodes| && s1.visitedNodes == st.visitedNodes
    requires (c < |st.nodes| <==> c != |st.nodes|) && c <= |st.nodes|
    requires s1.nodes[c].requiredKeys == (if c < |st.nodes| then st.nodes[c].requiredKeys else None)
    requires s1.nodes[c].children == Some(if c < |st.nodes| then ChildrenOrEmpty(st.nodes[c]) else [])
    requires Frame(s1, s2, c) && c < |s2.nodes| && s2.nodes[c].children.Some?
    requires FieldKeys(s2.nodes[c].children.value) == FieldKeys(s1.nodes[c].children.value)
    requires c < |r.nodes| && r.nodes[c].requiredKeys == s2.nodes[c].requiredKeys
      && r.nodes[c].children == s2.nodes[c].children && r.visitedNodes == s2.visitedNodes
    ensures KeptAt(st, r, c)
  {
  }

  /** The node `c` could still be opened for the first time: it is new, or
      it has not been closed as an object and has no object keys. */
  ghost predicate Fresh(nodes: seq<NodeRec>, visited: set<nat>, c: nat)
  {
    c >= |nodes| || (c !in visited && nodes[c].requiredKeys.None? && FieldKeys(ChildrenOrEmpty(nodes[c])) == {})
  }

  function NoneIfEmpty(keys: set<string>): Option<set<string>>
  {
    if keys == {} then None else Some(keys)
  }

  /** What a revisit that shows the keys `seen` leaves of the required keys
      `req`: those among them it showed, or none. */
  function Narrow(req: Option<set<string>>, seen: set<string>): Option<set<string>>
  {
    if req.None? then None else NoneIfEmpty(req.value * seen)
  }

  /** Dropping the keys a revisit missed is narrowing to the keys it showed. */
  lemma DropIsNarrow(req: Option<set<string>>, seen: set<string>)
    requires req.Some? ==> req.value != {}
    ensures DropMissed(req, (if req.Some? then req.value else {}) - seen) == Narrow(req, seen)
  {
    if req.Some? {
      var k := req.value;
      assert k - (k - seen) == k * seen;
      if k - seen == {} {
        assert k * seen == k;
      }
    }
  }

  /** The walk of an object: on its node's first close it requires the
      object's keys; on a later one, the keys it required that this object
      shows. */
  lemma {:induction false} ObjVisitW(tp: bool, st: ParseState, p: nat, v: JsonValue, key: Key) returns (r: ParseState, c: nat)
    requires Inv(st) && |st.stack| > 0 && st.stack[|st.stack| - 1] == p && v.Obj?
    ensures Run(tp, st, Walk(v, key)) == Some(r) && Inv(r) && r.stack == st.stack
    ensures Frame(st, r, p) && MissedLess(st, r, p, SeenKey(tp, v, key))
      && Reached(st.nodes, r.nodes, p, ChildKeyOf(key), ValueType(v), c)
      && NodeAfter(tp, st, r, c, v)
    decreases v, 1
  {
    var open := Event(OpenObject, key, v, "object");
    var close := Event(CloseObject, key, v, "object");
    var s1;
    s1, c := OpenW(tp, st, p, open);
    var s2 := EntriesW(tp, s1, c, v.entries);
    r := CloseW(tp, s2, close);
    RunSandwich(tp, st, open, WalkEntries(v.entries), close, s1, s2, r);
    ContainerFrame(tp, st, p, s1, s2, r, c, key, "object");
    ObjRequired(tp, st, p, s1, s2, c, v.entries, key);
  }

  /** The required keys the close of the object node `c` sets, from the
      state `s2` after its entries. */
  lemma ObjRequired(tp: bool, st: ParseState, p: nat, s1: ParseState, s2: ParseState, c: nat, entries: seq<Entry>, key: Key)
    requires Inv(st) && Inv(s2) && |st.stack| > 0 && st.stack[|st.stack| - 1] == p
    requires Attached(st.nodes, s1.nodes, p, ChildKeyOf(key), "object", c)
      && s1.nodes[c].children == Some(if c < |st.nodes| then ChildrenOrEmpty(st.nodes[c]) else [])
      && s1.visitedNodes == st.visitedNodes
      && s1.missedRevisitKeys == st.missedRevisitKeys[c := RequiredOrEmpty(s1.nodes[c])]
      && s1.parentLinks == (if tp then st.parentLinks[c := Some(p)] else st.parentLinks)
    requires |s2.stack| > 0 && s2.stack[|s2.stack| - 1] == c
    requires Frame(s1, s2, c) && MissedLess(s1, s2, c, SeenOf(tp, entries))
    requires FieldKeys(s2.nodes[c].children.value) == FieldKeys(s1.nodes[c].children.value) + KeysOf(entries)
    ensures var req := ClosedRequired(s2.nodes, c, MarkInParent(tp, s2, c, key), s2.visitedNodes);
      && (Fresh(st.nodes, st.visitedNodes, c) ==> req == NoneIfEmpty(KeysOf(entries)))
      && (c < |st.nodes| && c in st.visitedNodes ==> req == Narrow(st.nodes[c].requiredKeys, SeenOf(tp, entries)))
  {
    var m := MarkInParent(tp, s2, c, key);
    assert tp ==> s2.parentLinks[c] == Some(p);
    assert c in m && m[c] == s2.missedRevisitKeys[c];
    assert c in s2.visitedNodes <==> c in st.visitedNodes;
    if Fresh(st.nodes, st.visitedNodes, c) {
      FirstObjRequired(st, s1, s2, c, entries, m);
    }
    if c < |st.nodes| && c in st.visitedNodes {
      assert NodeOk(st.nodes, c);
      DropIsNarrow(st.nodes[c].requiredKeys, SeenOf(tp, entries));
    }
  }

  /** The first close of an object node requires the object's keys. */
  lemma FirstObjRequired(st: ParseState, s1: ParseState, s2: ParseState, c: nat, entries: seq<Entry>, m: map<nat, set<string>>)
    requires Inv(s2) && c < |s1.nodes| && c < |s2.nodes| && s1.nodes[c].children.Some? && s2.nodes[c].children.Some?
    requires s1.nodes[c].children == Some(if c < |st.nodes| then ChildrenOrEmpty(st.nodes[c]) else [])
    requires s1.nodes[c].requiredKeys == (if c < |st.nodes| then st.nodes[c].requiredKeys else None)
    requires Frame(s1, s2, c) && c !in s2.visitedNodes && Fresh(st.nodes, st.visitedNodes, c)
    requires FieldKeys(s2.nodes[c].children.value) == FieldKeys(s1.nodes[c].children.value) + KeysOf(entries)
    requires c in m && (s1.nodes[c].requiredKeys.None? ==> m[c] == {})
    ensures ClosedRequired(s2.nodes, c, m, s2.visitedNodes) == NoneIfEmpty(KeysOf(entries))
  {
    assert FieldKeys(ChildrenOrEmpty(s2.nodes[c])) == KeysOf(entries);
    assert NodeOk(s2.nodes, c);
    RequiredFromAll(s2.nodes, s2.nodes[c].children.value);
  }

  /** The walk of array items under the top node `p`: every item goes to
      the child of `p` under `Item`, which ends with the types of the items
      added. */
  lemma {:induction false} ItemsW(tp: bool, st: ParseState, p: nat, items: seq<JsonValue>, start: nat) returns (r: ParseState)
    requires Inv(st) && |st.stack| > 0 && st.stack[|st.stack| - 1] == p
    ensures Run(tp, st, WalkItems(items, start)) == Some(r) && Inv(r) && r.stack == st.stack
    ensures |items| == 0 ==> r == st
    ensures Frame(st, r, p) && MissedLess(st, r, p, {})
      && p < |st.nodes| && st.nodes[p].children.Some? && r.nodes[p].children.Some?
      && FieldKeys(r.nodes[p].children.value) == FieldKeys(st.nodes[p].children.value)
      && ItemTypesAdded(st.nodes, r.nodes, p, items)
    decreases items, 0
  {
    if |items| == 0 {
      r := st;
      assert WalkItems(items, start) == [];
      if FindChild(st.nodes[p].children.value, Item).Some? {
        FoundChildAfter(st.nodes, p, Item, FindChild(st.nodes[p].children.value, Item).value);
      }
    } else {
      var s1, c := FirstItemW(tp, st, p, items, start);
      r := ItemsW(tp, s1, p, items[1..], start + 1);
      RunJoin(tp, st, Walk(items[0], Index(start)), WalkItems(items[1..], start + 1), s1, r);
      ItemsGlue(tp, st, s1, r, p, c, items, start);
    }
  }

  /** The walk of the first item, as much of it as the items need. */
  lemma FirstItemW(tp: bool, st: ParseState, p: nat, items: seq<JsonValue>, start: nat) returns (r: ParseState, c: nat)
    requires Inv(st) && |st.stack| > 0 && st.stack[|st.stack| - 1] == p && |items| > 0
    ensures Run(tp, st, Walk(items[0], Index(start))) == Some(r) && Inv(r)
      && r.stack == st.stack && |r.stack| > 0 && r.stack[|r.stack| - 1] == p
    ensures Frame(st, r, p) && MissedLess(st, r, p, SeenKey(tp, items[0], Index(start)))
      && Reached(st.nodes, r.nodes, p, ChildKeyOf(Index(start)), ValueType(items[0]), c)
    decreases items[0], 3
  {
    r, c := WalkW(tp, st, p, items[0], Index(start));
    assert r.stack[|st.stack| - 1] == p;
    assert |r.stack| == |st.stack|;
  }

  /** Joins the frames of the first item's walk and of the rest. */
  lemma ItemsGlue(tp: bool, st: ParseState, s1: ParseState, r: ParseState, p: nat, c: nat, items: seq<JsonValue>, start: nat)
    requires Inv(st) && |items| > 0
    requires Frame(st, s1, p) && MissedLess(st, s1, p, SeenKey(tp, items[0], Index(start)))
      && Reached(st.nodes, s1.nodes, p, ChildKeyOf(Index(start)), ValueType(items[0]), c)
    requires Frame(s1, r, p) && MissedLess(s1, r, p, {})
      && p < |s1.nodes| && s1.nodes[p].children.Some? && r.nodes[p].children.Some?
      && FieldKeys(r.nodes[p].children.value) == FieldKeys(s1.nodes[p].children.value)
      && ItemTypesAdded(s1.nodes, r.nodes, p, items[1..])
    ensures Frame(st, r, p) && MissedLess(st, r, p, {})
      && p < |st.nodes| && st.nodes[p].children.Some? && r.nodes[p].children.Some?
      && FieldKeys(r.nodes[p].children.value) == FieldKeys(st.nodes[p].children.value)
      && ItemTypesAdded(st.nodes, r.nodes, p, items)
  {
    FrameTrans(st, s1, r, p);
    MissedLessTrans(st, s1, r, p, {}, {});
    ItemsStepTypes(st.nodes, s1.nodes, r.nodes, p, c, items);
  }

  /** `p` ends with a child under `Item` when there are items, keeps the
      one it had, and that child's types gained exactly the items' types. */
  ghost predicate ItemTypesAdded(a: seq<NodeRec>, b: seq<NodeRec>, p: nat, items: seq<JsonValue>)
    requires p < |a| && p < |b| && a[p].children.Some? && b[p].children.Some?
  {
    var fa := FindChild(a[p].children.value, Item);
    var fb := FindChild(b[p].children.value, Item);
    && (|items| > 0 ==> fb.Some?)
    && (fa.Some? ==> fb == fa)
    && (fb.Some? ==> fb.value < |b| && Elems(b[fb.value].types) == Elems(TypesUnder(a, p, Item)) + ItemTypes(items))
  }

  lemma ItemsStepTypes(a: seq<NodeRec>, b: seq<NodeRec>, d: seq<NodeRec>, p: nat, c: nat, items: seq<JsonValue>)
    requires |items| > 0 && ArenaOk(a)
    requires Reached(a, b, p, Item, ValueType(items[0]), c)
    requires p < |d| && d[p].children.Some? && ItemTypesAdded(b, d, p, items[1..])
    ensures ItemTypesAdded(a, d, p, items)
  {
    ElemsAddType(if c < |a| then a[c].types else [], ValueType(items[0]));
    assert TypesUnder(b, p, Item) == b[c].types;
    assert TypesUnder(a, p, Item) == if c < |a| then a[c].types else [];
  }

  /** The walk of object entries under the top node `p`: `p` gains the
      entries' keys, and its visit sees those its walk marks. */
  lemma {:induction false} EntriesW(tp: bool, st: ParseState, p: nat, entries: seq<Entry>) returns (r: ParseState)
    requires Inv(st) && |st.stack| > 0 && st.stack[|st.stack| - 1] == p
    ensures Run(tp, st, WalkEntries(entries)) == Some(r) && Inv(r) && r.stack == st.stack
    ensures Frame(st, r, p) && MissedLess(st, r, p, SeenOf(tp, entries))
      && p < |st.nodes| && st.nodes[p].children.Some? && r.nodes[p].children.Some?
      && FieldKeys(r.nodes[p].children.value) == FieldKeys(st.nodes[p].children.value) + KeysOf(entries)
    decreases entries, 0
  {
    if |entries| == 0 {
      r := st;
      assert WalkEntries(entries) == [];
    } else {
      var key := Name(entries[0].key);
      var s1, c := FirstEntryW(tp, st, p, entries);
      r := EntriesW(tp, s1, p, entries[1..]);
      RunJoin(tp, st, Walk(entries[0].value, key), WalkEntries(entries[1..]), s1, r);
      EntriesGlue(tp, st, s1, r, p, c, entries);
    }
  }

  /** The walk of the first entry, as much of it as the entries need. */
  lemma FirstEntryW(tp: bool, st: ParseState, p: nat, entries: seq<Entry>) returns (r: ParseState, c: nat)
    requires Inv(st) && |st.stack| > 0 && st.stack[|st.stack| - 1] == p && |entries| > 0
    ensures Run(tp, st, Walk(entries[0].value, Name(entries[0].key))) == Some(r) && Inv(r)
      && r.stack == st.stack && |r.stack| > 0 && r.stack[|r.stack| - 1] == p
    ensures Frame(st, r, p) && MissedLess(st, r, p, SeenKey(tp, entries[0].value, Name(entries[0].key)))
      && Reached(st.nodes, r.nodes, p, ChildKeyOf(Name(entries[0].key)), ValueType(entries[0].value), c)
    decreases entries[0].value, 3
  {
    r, c := WalkW(tp, st, p, entries[0].value, Name(entries[0].key));
    assert r.stack[|st.stack| - 1] == p;
    assert |r.stack| == |st.stack|;
  }

  /** Joins the frames of the first entry's walk and of the rest. */
  lemma EntriesGlue(tp: bool, st: ParseState, s1: ParseState, r: ParseState, p: nat, c: nat, entries: seq<Entry>)
    requires |entries| > 0
    requires Frame(st, s1, p) && MissedLess(st, s1, p, SeenKey(tp, entries[0].value, Name(entries[0].key)))
      && Reached(st.nodes, s1.nodes, p, ChildKeyOf(Name(entries[0].key)), ValueType(entries[0].value), c)
    requires Frame(s1, r, p) && MissedLess(s1, r, p, SeenOf(tp, entries[1..]))
      && p < |s1.nodes| && s1.nodes[p].children.Some? && r.nodes[p].children.Some?
      && FieldKeys(r.nodes[p].children.value) == FieldKeys(s1.nodes[p].children.value) + KeysOf(entries[1..])
    ensures Frame(st, r, p) && MissedLess(st, r, p, SeenOf(tp, entries))
      && p < |st.nodes| && st.nodes[p].children.Some? && r.nodes[p].children.Some?
      && FieldKeys(r.nodes[p].children.value) == FieldKeys(st.nodes[p].children.value) + KeysOf(entries)
  {
    FrameTrans(st, s1, r, p);
    MissedLessTrans(st, s1, r, p, SeenKey(tp, entries[0].value, Name(entries[0].key)), SeenOf(tp, entries[1..]));
  }
}
