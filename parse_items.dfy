/** The item node of an array in the tree `parse` returns, for every array:
    it exists exactly when the array has items, its types are the types of
    the items and no others, and it requires the keys of the first object
    item that every later object item marks seen (for src/compiler/parse.ts:
    the keys present in every object item). Built on the per-value facts of
    `ParseWalk`. */
module ParseItems {
  import opened Json
  import opened Wrappers
  import opened TreeWalk
  import opened Parse
  import opened ParseRequired
  import opened ParseWalk

  // ---------------------------------------------------------------------
  // What the item node should hold

  /** The object items of an array, as their entries, in order. */
  function ObjectEntries(items: seq<JsonValue>): seq<seq<Entry>>
  {
    if |items| == 0 then []
    else if items[0].Obj? then [items[0].entries] + ObjectEntries(items[1..])
    else ObjectEntries(items[1..])
  }

  /** The keys among `keys` that the walk of every object in `objs` marks
      seen. */
  function Common(tp: bool, keys: set<string>, objs: seq<seq<Entry>>): set<string>
  {
    set k | k in keys && forall i :: 0 <= i < |objs| ==> k in SeenOf(tp, objs[i])
  }

  /** The keys the item node of `items` requires: those of the first object
      item that every later object item marks seen; none without objects. */
  function RequiredSet(tp: bool, items: seq<JsonValue>): set<string>
  {
    var objs := ObjectEntries(items);
    if |objs| == 0 then {} else Common(tp, KeysOf(objs[0]), objs[1..])
  }

  /** Where the item node stands after one more item: `None` until an object
      item has been closed on it, then `Some` of what it requires. */
  function StepStatus(tp: bool, status: Option<Option<set<string>>>, v: JsonValue): Option<Option<set<string>>>
  {
    if !v.Obj? then status
    else if status.None? then Some(NoneIfEmpty(KeysOf(v.entries)))
    else Some(Narrow(status.value, SeenOf(tp, v.entries)))
  }

  /** `StepStatus` over the items, in order. */
  function ReqFold(tp: bool, status: Option<Option<set<string>>>, items: seq<JsonValue>): Option<Option<set<string>>>
    decreases |items|
  {
    if |items| == 0 then status else ReqFold(tp, StepStatus(tp, status, items[0]), items[1..])
  }

  /** The node `p`'s child under `Item` stands at `status`. */
  ghost predicate HasStatus(st: ParseState, p: nat, status: Option<Option<set<string>>>)
  {
    && p < |st.nodes| && st.nodes[p].children.Some?
    && var f := FindChild(st.nodes[p].children.value, Item);
    && (f.Some? ==> f.value < |st.nodes|)
    && match status
       case None => f.Some? ==> Fresh(st.nodes, st.visitedNodes, f.value)
       case Some(req) => f.Some? && f.value in st.visitedNodes && st.nodes[f.value].requiredKeys == req
  }

  // ---------------------------------------------------------------------
  // The loop over the items

  /** One item moves the item node of `p` one `StepStatus` on. */
  lemma StatusStep(tp: bool, st: ParseState, s1: ParseState, p: nat, c: nat, v: JsonValue, start: nat,
                   status: Option<Option<set<string>>>)
    requires HasStatus(st, p, status)
    requires Reached(st.nodes, s1.nodes, p, ChildKeyOf(Index(start)), ValueType(v), c)
    requires NodeAfter(tp, st, s1, c, v)
    ensures HasStatus(s1, p, StepStatus(tp, status, v))
  {
    assert ChildKeyOf(Index(start)) == Item;
    if status.None? {
      assert Fresh(st.nodes, st.visitedNodes, c);
    }
  }

  /** The walk of the first item, and the status it leaves. */
  lemma ItemStatusW(tp: bool, st: ParseState, p: nat, items: seq<JsonValue>, start: nat,
                    status: Option<Option<set<string>>>) returns (r: ParseState)
    requires Inv(st) && |st.stack| > 0 && st.stack[|st.stack| - 1] == p && |items| > 0
    requires HasStatus(st, p, status)
    ensures Run(tp, st, Walk(items[0], Index(start))) == Some(r) && Inv(r)
      && r.stack == st.stack && |r.stack| > 0 && r.stack[|r.stack| - 1] == p
    ensures HasStatus(r, p, StepStatus(tp, status, items[0]))
  {
    var c;
    r, c := WalkW(tp, st, p, items[0], Index(start));
    assert r.stack[|st.stack| - 1] == p;
    assert |r.stack| == |st.stack|;
    StatusStep(tp, st, r, p, c, items[0], start, status);
  }

  /** The walk of the items moves the item node of `p` along `ReqFold`. */
  lemma {:induction false} ItemsStatusW(tp: bool, st: ParseState, p: nat, items: seq<JsonValue>, start: nat,
                                        status: Option<Option<set<string>>>) returns (r: ParseState)
    requires Inv(st) && |st.stack| > 0 && st.stack[|st.stack| - 1] == p
    requires HasStatus(st, p, status)
    ensures Run(tp, st, WalkItems(items, start)) == Some(r)
    ensures HasStatus(r, p, ReqFold(tp, status, items))
    decreases |items|
  {
    if |items| == 0 {
      r := st;
      assert WalkItems(items, start) == [];
    } else {
      var s1 := ItemStatusW(tp, st, p, items, start, status);
      r := ItemsStatusW(tp, s1, p, items[1..], start + 1, StepStatus(tp, status, items[0]));
      RunJoin(tp, st, Walk(items[0], Index(start)), WalkItems(items[1..], start + 1), s1, r);
    }
  }

  // ---------------------------------------------------------------------
  // The wrapper `{_: items}`

  function OpenRoot(items: seq<JsonValue>): Event
  {
    Event(OpenObject, Name("root"), Wrapped(Arr(items)), "object")
  }

  function OpenData(items: seq<JsonValue>): Event
  {
    Event(OpenObject, Name("_"), Arr(items), "array")
  }

  function CloseData(items: seq<JsonValue>): Event
  {
    Event(CloseObject, Name("_"), Arr(items), "array")
  }

  function CloseRoot(items: seq<JsonValue>): Event
  {
    Event(CloseObject, Name("root"), Wrapped(Arr(items)), "object")
  }

  /** The walk of `{_: items}`: two opens, the items, two closes. */
  lemma WalkOfWrappedArray(items: seq<JsonValue>)
    ensures Walk(Wrapped(Arr(items))) ==
      [OpenRoot(items)] + ([OpenData(items)] + WalkItems(items, 0) + [CloseData(items)]) + [CloseRoot(items)]
  {
    WalkWrapped(Arr(items));
    assert Walk(Arr(items), Name("_")) == [OpenData(items)] + WalkItems(items, 0) + [CloseData(items)];
  }

  /** The two opens: the outer node 0, then the array node `c`, new and
      without children. */
  lemma WrapperOpen(tp: bool, items: seq<JsonValue>) returns (s1: ParseState, s2: ParseState, c: nat)
    ensures Valid(InitialState) && Run(tp, InitialState, [OpenRoot(items)]) == Some(s1) && Inv(s1)
    ensures Run(tp, s1, [OpenData(items)]) == Some(s2) && Inv(s2)
    ensures s2.stack == [0, c] && 0 < c && c < |s2.nodes| && s2.nodes[c].children == Some([])
    ensures s2.nodes[0].children.Some? && FindChild(s2.nodes[0].children.value, Field("_")) == Some(c)
  {
    s1 := RootOpen(tp, items);
    s2, c := OpenW(tp, s1, 0, OpenData(items));
    assert s2.stack == [0] + [c] == [0, c];
    assert FindChild(s1.nodes[0].children.value, Field("_")).None?;
  }

  /** The first open: the outer node 0, alone on the stack. */
  lemma RootOpen(tp: bool, items: seq<JsonValue>) returns (s1: ParseState)
    ensures Valid(InitialState) && Run(tp, InitialState, [OpenRoot(items)]) == Some(s1) && Inv(s1)
    ensures s1.stack == [0] && |s1.nodes| == 1 && s1.nodes[0].children == Some([])
  {
    var o1 := OpenRoot(items);
    s1 := OnOpen(tp, InitialState, o1);
    FirstOpen(tp, o1);
    assert Step(tp, InitialState, o1) == Some(s1);
    RunOne(tp, InitialState, o1, s1);
    assert s1.visitedNodes == {};
  }

  /** The two closes: only the required keys of nodes 0 and `c` and the
      visit of node 0 change. */
  lemma WrapperClose(tp: bool, s3: ParseState, c: nat, items: seq<JsonValue>) returns (s4: ParseState, fin: ParseState)
    requires Inv(s3) && s3.stack == [0, c] && 0 < c
    ensures Run(tp, s3, [CloseData(items)]) == Some(s4) && Inv(s4)
    ensures Run(tp, s4, [CloseRoot(items)]) == Some(fin) && ArenaOk(fin.nodes)
    ensures |fin.nodes| == |s3.nodes| && c < |s3.nodes|
    ensures forall q :: 0 <= q < |s3.nodes| && q != 0 && q != c ==> fin.nodes[q] == s3.nodes[q]
    ensures fin.nodes[0].children == s3.nodes[0].children && fin.nodes[c].children == s3.nodes[c].children
    ensures forall q :: q != 0 ==> (q in fin.visitedNodes <==> q in s3.visitedNodes)
  {
    s4 := CloseW(tp, s3, CloseData(items));
    assert s4.stack == [0];
    fin := CloseW(tp, s4, CloseRoot(items));
  }

  /** The closes keep the item node of `c` and where it stands. */
  lemma CloseKeepsItem(s3: ParseState, fin: ParseState, c: nat, status: Option<Option<set<string>>>)
    requires Inv(s3) && 0 < c && HasStatus(s3, c, status)
    requires |fin.nodes| == |s3.nodes|
    requires forall q :: 0 <= q < |s3.nodes| && q != 0 && q != c ==> fin.nodes[q] == s3.nodes[q]
    requires fin.nodes[c].children == s3.nodes[c].children
    requires forall q :: q != 0 ==> (q in fin.visitedNodes <==> q in s3.visitedNodes)
    ensures HasStatus(fin, c, status)
    ensures FindChild(fin.nodes[c].children.value, Item) == FindChild(s3.nodes[c].children.value, Item)
    ensures FindChild(s3.nodes[c].children.value, Item).Some? ==>
      fin.nodes[FindChild(s3.nodes[c].children.value, Item).value] == s3.nodes[FindChild(s3.nodes[c].children.value, Item).value]
  {
    var f := FindChild(s3.nodes[c].children.value, Item);
    if f.Some? {
      FoundChildAfter(s3.nodes, c, Item, f.value);
      assert fin.nodes[f.value] == s3.nodes[f.value];
    }
  }

  /** The opens and the items: the array node `c` under `"_"`, its item
      node holding the items' types and standing at `ReqFold` of them. */
  lemma ArrayItems(tp: bool, items: seq<JsonValue>) returns (s1: ParseState, s2: ParseState, s3: ParseState, c: nat)
    ensures Valid(InitialState) && Run(tp, InitialState, [OpenRoot(items)]) == Some(s1)
    ensures Run(tp, s1, [OpenData(items)]) == Some(s2) && Run(tp, s2, WalkItems(items, 0)) == Some(s3)
    ensures Inv(s3) && s3.stack == [0, c] && 0 < c && c < |s3.nodes| && s3.nodes[c].children.Some?
    ensures s3.nodes[0].children.Some? && FindChild(s3.nodes[0].children.value, Field("_")) == Some(c)
    ensures var f := FindChild(s3.nodes[c].children.value, Item);
      && (f.Some? <==> |items| > 0)
      && (f.Some? ==> f.value < |s3.nodes| && Elems(s3.nodes[f.value].types) == ItemTypes(items))
    ensures HasStatus(s3, c, ReqFold(tp, None, items))
  {
    s1, s2, c := WrapperOpen(tp, items);
    s3 := ArrayLoop(tp, s2, c, items);
  }

  /** The items, walked from the new array node `c`. */
  lemma ArrayLoop(tp: bool, s2: ParseState, c: nat, items: seq<JsonValue>) returns (s3: ParseState)
    requires Inv(s2) && s2.stack == [0, c] && 0 < c && c < |s2.nodes| && s2.nodes[c].children == Some([])
    requires s2.nodes[0].children.Some? && FindChild(s2.nodes[0].children.value, Field("_")) == Some(c)
    ensures Run(tp, s2, WalkItems(items, 0)) == Some(s3)
    ensures Inv(s3) && s3.stack == [0, c] && c < |s3.nodes| && s3.nodes[c].children.Some?
    ensures s3.nodes[0].children.Some? && FindChild(s3.nodes[0].children.value, Field("_")) == Some(c)
    ensures var f := FindChild(s3.nodes[c].children.value, Item);
      && (f.Some? <==> |items| > 0)
      && (f.Some? ==> f.value < |s3.nodes| && Elems(s3.nodes[f.value].types) == ItemTypes(items))
    ensures HasStatus(s3, c, ReqFold(tp, None, items))
  {
    s3 := ArrayLoopShape(tp, s2, c, items);
    var s3' := ArrayLoopTypes(tp, s2, c, items);
    var s3'' := ItemsStatusW(tp, s2, c, items, 0, None);
    assert s3' == s3 && s3'' == s3;
  }

  /** The items keep the array node under `"_"` and the stack. */
  lemma ArrayLoopShape(tp: bool, s2: ParseState, c: nat, items: seq<JsonValue>) returns (s3: ParseState)
    requires Inv(s2) && s2.stack == [0, c] && 0 < c && c < |s2.nodes| && s2.nodes[c].children == Some([])
    requires s2.nodes[0].children.Some? && FindChild(s2.nodes[0].children.value, Field("_")) == Some(c)
    ensures Run(tp, s2, WalkItems(items, 0)) == Some(s3)
    ensures Inv(s3) && s3.stack == [0, c] && c < |s3.nodes| && s3.nodes[c].children.Some?
    ensures s3.nodes[0].children.Some? && FindChild(s3.nodes[0].children.value, Field("_")) == Some(c)
  {
    s3 := ItemsW(tp, s2, c, items, 0);
    assert s3.nodes[0].children == s2.nodes[0].children;
  }

  /** The items leave under `c` an item node exactly when there are any,
      holding their types. */
  lemma ArrayLoopTypes(tp: bool, s2: ParseState, c: nat, items: seq<JsonValue>) returns (s3: ParseState)
    requires Inv(s2) && s2.stack == [0, c] && 0 < c && c < |s2.nodes| && s2.nodes[c].children == Some([])
    ensures Run(tp, s2, WalkItems(items, 0)) == Some(s3) && s3.nodes[c].children.Some?
    ensures var f := FindChild(s3.nodes[c].children.value, Item);
      && (f.Some? <==> |items| > 0)
      && (f.Some? ==> f.value < |s3.nodes| && Elems(s3.nodes[f.value].types) == ItemTypes(items))
  {
    s3 := ItemsW(tp, s2, c, items, 0);
    ItemTypesFromEmpty(s2.nodes, s3.nodes, c, items);
  }

  lemma ItemTypesFromEmpty(a: seq<NodeRec>, b: seq<NodeRec>, c: nat, items: seq<JsonValue>)
    requires c < |a| && c < |b| && a[c].children == Some([]) && b[c].children.Some?
    requires ItemTypesAdded(a, b, c, items)
    requires |items| == 0 ==> b == a
    ensures var f := FindChild(b[c].children.value, Item);
      && (f.Some? <==> |items| > 0)
      && (f.Some? ==> f.value < |b| && Elems(b[f.value].types) == ItemTypes(items))
  {
    assert FindChild(a[c].children.value, Item).None?;
    assert TypesUnder(a, c, Item) == [];
  }

  /** The whole loop over the walk of `{_: items}`: the tree `parse`
      returns is read from the array node `c`, and its item node holds the
      items' types and stands at `ReqFold` of the items. */
  lemma ArrayRun(tp: bool, items: seq<JsonValue>) returns (fin: ParseState, c: nat)
    ensures ArenaOk(fin.nodes) && c < |fin.nodes| && fin.nodes[c].children.Some?
    ensures ParseTree(tp, Arr(items)) == Extract(fin.nodes, c)
    ensures var f := FindChild(fin.nodes[c].children.value, Item);
      && (f.Some? <==> |items| > 0)
      && (f.Some? ==> f.value < |fin.nodes| && Elems(fin.nodes[f.value].types) == ItemTypes(items))
    ensures HasStatus(fin, c, ReqFold(tp, None, items))
  {
    var s1, s2, s3;
    s1, s2, s3, c := ArrayItems(tp, items);
    var s4;
    s4, fin := WrapperClose(tp, s3, c, items);
    RunSandwich(tp, s1, OpenData(items), WalkItems(items, 0), CloseData(items), s2, s3, s4);
    RunSandwich(tp, InitialState, OpenRoot(items), [OpenData(items)] + WalkItems(items, 0) + [CloseData(items)],
      CloseRoot(items), s1, s4, fin);
    WalkOfWrappedArray(items);
    ParseTreeFrom(tp, Arr(items), fin);
    CloseKeepsItem(s3, fin, c, ReqFold(tp, None, items));
  }

  /** `[{}]`, the stand-in `getItemType` parses for an empty array: its item
      node is an object node without children. */
  lemma EmptyObjectItem(tp: bool, items: seq<JsonValue>)
    requires items == [Obj([])]
    ensures ChildAt(ParseTree(tp, Arr(items)), Item).Some?
    ensures ChildAt(ParseTree(tp, Arr(items)), Item).value.children == Present([])
  {
    var s1, s2, c := WrapperOpen(tp, items);
    var s3, c1 := EmptyObjectLoop(tp, s2, c, items);
    var s3' := ArrayLoopShape(tp, s2, c, items);
    assert s3' == s3;
    var s4, fin := WrapperClose(tp, s3, c, items);
    RunSandwich(tp, s1, OpenData(items), WalkItems(items, 0), CloseData(items), s2, s3, s4);
    RunSandwich(tp, InitialState, OpenRoot(items), [OpenData(items)] + WalkItems(items, 0) + [CloseData(items)],
      CloseRoot(items), s1, s4, fin);
    WalkOfWrappedArray(items);
    ParseTreeFrom(tp, Arr(items), fin);
    assert fin.nodes[c1] == s3.nodes[c1];
    ExtractFindChild(fin.nodes, c, Item);
  }

  /** The walk of the one item `{}` under the array node `c`: it opens a new
      item node, with no children, and closes it. */
  lemma EmptyObjectLoop(tp: bool, s2: ParseState, c: nat, items: seq<JsonValue>) returns (s3: ParseState, c1: nat)
    requires items == [Obj([])]
    requires Inv(s2) && s2.stack == [0, c] && 0 < c && c < |s2.nodes| && s2.nodes[c].children == Some([])
    ensures Run(tp, s2, WalkItems(items, 0)) == Some(s3) && Inv(s3) && s3.stack == [0, c]
    ensures c < c1 < |s3.nodes| && s3.nodes[c].children.Some? && FindChild(s3.nodes[c].children.value, Item) == Some(c1)
    ensures s3.nodes[c1].children == Some([])
  {
    var open := Event(OpenObject, Index(0), Obj([]), "object");
    var close := Event(CloseObject, Index(0), Obj([]), "object");
    assert WalkItems(items, 0) == [open, close] by {
      assert WalkEntries([]) == [];
      assert WalkItems(items[1..], 1) == [];
    }
    var r1;
    r1, c1 := OpenW(tp, s2, c, open);
    assert FindChild(s2.nodes[c].children.value, Item).None?;
    s3 := CloseW(tp, r1, close);
    RunJoin(tp, s2, [open], [close], r1, s3);
  }

  /** The child of an extracted node under a key it lacks is absent. */
  lemma ExtractNoChild(nodes: seq<NodeRec>, id: nat, k: ChildKey)
    requires ArenaOk(nodes) && id < |nodes| && nodes[id].children.Some?
    requires FindChild(nodes[id].children.value, k).None?
    ensures ChildAt(Extract(nodes, id), k).None?
  {
    var cs := nodes[id].children.value;
    var entries := Extract(nodes, id).children.entries;
    forall j | 0 <= j < |entries| ensures entries[j].key != k {
      assert entries[j].key == cs[j].0;
    }
  }

  // ---------------------------------------------------------------------
  // The item types

  /** A type is among the items' types exactly when some item has it. */
  lemma {:induction false} ItemTypesIn(items: seq<JsonValue>, t: string)
    ensures t in ItemTypes(items) <==> exists i :: 0 <= i < |items| && ValueType(items[i]) == t
  {
    if |items| > 0 {
      ItemTypesIn(items[1..], t);
      if exists i :: 0 <= i < |items| && ValueType(items[i]) == t {
        var i :| 0 <= i < |items| && ValueType(items[i]) == t;
        if i > 0 {
          assert items[1..][i - 1] == items[i];
        }
      }
      if exists i :: 0 <= i < |items[1..]| && ValueType(items[1..][i]) == t {
        var i :| 0 <= i < |items[1..]| && ValueType(items[1..][i]) == t;
        assert items[i + 1] == items[1..][i];
      }
    }
  }

  /** `parse` of an array: the item node exists exactly when the array has
      items, and its types are the types of the items, every one of them
      and no other (src/tests/parse.test.ts, "simple arrays" and the mixed
      arrays of "complex objects"). */
  lemma ArrayItemTypes(tp: bool, items: seq<JsonValue>)
    ensures ChildAt(ParseTree(tp, Arr(items)), Item).Some? <==> |items| > 0
    ensures ChildAt(ParseTree(tp, Arr(items)), Item).Some? ==>
      var node := ChildAt(ParseTree(tp, Arr(items)), Item).value;
      && (forall i :: 0 <= i < |items| ==> ValueType(items[i]) in node.types)
      && (forall t :: t in node.types ==> exists i :: 0 <= i < |items| && ValueType(items[i]) == t)
  {
    var fin, c := ArrayRun(tp, items);
    if |items| > 0 {
      ExtractFindChild(fin.nodes, c, Item);
      var node := ChildAt(ParseTree(tp, Arr(items)), Item).value;
      assert Elems(node.types) == ItemTypes(items);
      forall i | 0 <= i < |items| ensures ValueType(items[i]) in node.types {
        ItemTypesIn(items, ValueType(items[i]));
        assert ValueType(items[i]) in Elems(node.types);
      }
      forall t | t in node.types ensures exists i :: 0 <= i < |items| && ValueType(items[i]) == t {
        assert t in Elems(node.types);
        ItemTypesIn(items, t);
      }
    } else {
      ExtractNoChild(fin.nodes, c, Item);
    }
  }

  // ---------------------------------------------------------------------
  // The item's required keys

  /** The keys of a set that a further object marks seen. */
  lemma CommonCons(tp: bool, keys: set<string>, e: seq<Entry>, objs: seq<seq<Entry>>)
    ensures Common(tp, keys * SeenOf(tp, e), objs) == Common(tp, keys, [e] + objs)
  {
    var l := Common(tp, keys * SeenOf(tp, e), objs);
    var r := Common(tp, keys, [e] + objs);
    forall k | k in l ensures k in r {
      forall i | 0 <= i < |[e] + objs| ensures k in SeenOf(tp, ([e] + objs)[i]) {
        if i > 0 {
          assert ([e] + objs)[i] == objs[i - 1];
        }
      }
    }
    forall k | k in r ensures k in l {
      assert ([e] + objs)[0] == e;
      forall i | 0 <= i < |objs| ensures k in SeenOf(tp, objs[i]) {
        assert ([e] + objs)[i + 1] == objs[i];
      }
    }
  }

  lemma CommonNone(tp: bool, keys: set<string>)
    ensures Common(tp, keys, []) == keys
  {
  }

  lemma CommonWithin(tp: bool, keys: set<string>, objs: seq<seq<Entry>>)
    ensures Common(tp, keys, objs) <= keys
  {
  }

  /** From a node that has been visited, the items narrow what it requires
      to the keys every object item marks seen. */
  lemma {:induction false} FoldFromVisited(tp: bool, req: Option<set<string>>, items: seq<JsonValue>)
    requires req.Some? ==> req.value != {}
    ensures ReqFold(tp, Some(req), items) ==
      Some(if req.None? then None else NoneIfEmpty(Common(tp, req.value, ObjectEntries(items))))
    decreases |items|
  {
    if |items| == 0 {
      if req.Some? {
        CommonNone(tp, req.value);
      }
    } else if !items[0].Obj? {
      FoldFromVisited(tp, req, items[1..]);
    } else {
      var e := items[0].entries;
      var next := Narrow(req, SeenOf(tp, e));
      FoldFromVisited(tp, next, items[1..]);
      assert ObjectEntries(items) == [e] + ObjectEntries(items[1..]);
      if req.Some? {
        CommonCons(tp, req.value, e, ObjectEntries(items[1..]));
        if req.value * SeenOf(tp, e) == {} {
          CommonWithin(tp, req.value * SeenOf(tp, e), ObjectEntries(items[1..]));
        }
      }
    }
  }

  /** From a node no object item has been closed on, the items leave it
      unvisited when none is an object, and otherwise requiring
      `RequiredSet`. */
  lemma {:induction false} FoldFromFresh(tp: bool, items: seq<JsonValue>)
    ensures ReqFold(tp, None, items) ==
      if |ObjectEntries(items)| == 0 then None else Some(NoneIfEmpty(RequiredSet(tp, items)))
    decreases |items|
  {
    if |items| > 0 {
      if !items[0].Obj? {
        FoldFromFresh(tp, items[1..]);
      } else {
        var e := items[0].entries;
        var objs := ObjectEntries(items);
        assert objs == [e] + ObjectEntries(items[1..]);
        assert objs[1..] == ObjectEntries(items[1..]);
        FoldFromVisited(tp, NoneIfEmpty(KeysOf(e)), items[1..]);
        CommonWithin(tp, KeysOf(e), objs[1..]);
      }
    }
  }

  /** `parse` of an array: the item node requires exactly `RequiredSet`,
      and nothing when that set is empty (src/compiler/parse.ts:27-35 and
      src/parse.ts:27-33 on the revisits of one node, 60-75 on its first
      close). */
  lemma ArrayItemRequired(tp: bool, items: seq<JsonValue>)
    ensures ChildAt(ParseTree(tp, Arr(items)), Item).Some? ==>
      ChildAt(ParseTree(tp, Arr(items)), Item).value.requiredKeys == NoneIfEmpty(RequiredSet(tp, items))
  {
    var fin, c := ArrayRun(tp, items);
    var f := FindChild(fin.nodes[c].children.value, Item);
    if f.Some? {
      ExtractFindChild(fin.nodes, c, Item);
      FoldFromFresh(tp, items);
    } else {
      ExtractNoChild(fin.nodes, c, Item);
    }
  }

  // ---------------------------------------------------------------------
  // The required keys in the terms of the items

  /** With `trackParents`, every key of an object is marked seen by its
      walk. */
  lemma {:induction false} SeenAllKeys(entries: seq<Entry>)
    ensures SeenOf(true, entries) == KeysOf(entries)
  {
    if |entries| > 0 {
      SeenAllKeys(entries[1..]);
    }
  }

  /** Without it, the same holds when every value is a primitive. */
  lemma {:induction false} SeenPrimitiveKeys(entries: seq<Entry>)
    requires forall j :: 0 <= j < |entries| ==> IsPrimitive(entries[j].value)
    ensures SeenOf(false, entries) == KeysOf(entries)
  {
    if |entries| > 0 {
      assert IsPrimitive(entries[0].value);
      SeenPrimitiveKeys(entries[1..]);
    }
  }

  /** A key is one of an object's keys exactly when some entry has it. */
  lemma {:induction false} KeysOfIn(entries: seq<Entry>, k: string)
    ensures k in KeysOf(entries) <==> exists j :: 0 <= j < |entries| && entries[j].key == k
  {
    if |entries| > 0 {
      KeysOfIn(entries[1..], k);
      if exists j :: 0 <= j < |entries[1..]| && entries[1..][j].key == k {
        var j :| 0 <= j < |entries[1..]| && entries[1..][j].key == k;
        assert entries[j + 1] == entries[1..][j];
      }
      if exists j :: 0 <= j < |entries| && entries[j].key == k {
        var j :| 0 <= j < |entries| && entries[j].key == k;
        if j > 0 {
          assert entries[1..][j - 1] == entries[j];
        }
      }
    }
  }

  /** Where an object item stands among the object items. */
  lemma {:induction false} ObjectIndex(items: seq<JsonValue>, i: nat) returns (j: nat)
    requires i < |items| && items[i].Obj?
    ensures j < |ObjectEntries(items)| && ObjectEntries(items)[j] == items[i].entries
  {
    var d := if items[0].Obj? then 1 else 0;
    assert ObjectEntries(items) == (if items[0].Obj? then [items[0].entries] else []) + ObjectEntries(items[1..]);
    if i == 0 {
      j := 0;
    } else {
      assert items[1..][i - 1] == items[i];
      var j' := ObjectIndex(items[1..], i - 1);
      j := j' + d;
    }
  }

  /** Which item an object item is. */
  lemma {:induction false} ItemIndex(items: seq<JsonValue>, j: nat) returns (i: nat)
    requires j < |ObjectEntries(items)|
    ensures i < |items| && items[i] == Obj(ObjectEntries(items)[j])
  {
    var d := if items[0].Obj? then 1 else 0;
    assert ObjectEntries(items) == (if items[0].Obj? then [items[0].entries] else []) + ObjectEntries(items[1..]);
    if j < d {
      i := 0;
    } else {
      var i' := ItemIndex(items[1..], j - d);
      i := i' + 1;
      assert items[i] == items[1..][i'];
    }
  }

  /** src/compiler/parse.ts: the item node of an array requires exactly the
      keys present in every object item, as long as there is an object item
      (a key whose value is `undefined` is present). */
  lemma RequiredInEveryObject(items: seq<JsonValue>, k: string)
    ensures k in RequiredSet(true, items) <==>
      && (exists i :: 0 <= i < |items| && items[i].Obj?)
      && (forall i :: 0 <= i < |items| && items[i].Obj? ==> k in KeysOf(items[i].entries))
  {
    var objs := ObjectEntries(items);
    if k in RequiredSet(true, items) {
      var i0 := ItemIndex(items, 0);
      forall i | 0 <= i < |items| && items[i].Obj? ensures k in KeysOf(items[i].entries) {
        var j := ObjectIndex(items, i);
        if j > 0 {
          assert objs[1..][j - 1] == objs[j];
          SeenAllKeys(objs[j]);
        }
      }
    }
    if && (exists i :: 0 <= i < |items| && items[i].Obj?)
       && (forall i :: 0 <= i < |items| && items[i].Obj? ==> k in KeysOf(items[i].entries))
    {
      var i0 :| 0 <= i0 < |items| && items[i0].Obj?;
      var j0 := ObjectIndex(items, i0);
      var i1 := ItemIndex(items, 0);
      forall j | 0 <= j < |objs[1..]| ensures k in SeenOf(true, objs[1..][j]) {
        var i := ItemIndex(items, j + 1);
        assert objs[1..][j] == objs[j + 1];
        SeenAllKeys(objs[j + 1]);
      }
    }
  }

  /** When every object item holds only primitive values, src/parse.ts and
      src/compiler/parse.ts require the same keys. */
  lemma PrimitiveObjectsAgree(items: seq<JsonValue>)
    requires forall i, j :: 0 <= i < |items| && items[i].Obj? && 0 <= j < |items[i].entries| ==>
      IsPrimitive(items[i].entries[j].value)
    ensures RequiredSet(false, items) == RequiredSet(true, items)
  {
    var objs := ObjectEntries(items);
    forall j | 0 <= j < |objs| ensures SeenOf(false, objs[j]) == SeenOf(true, objs[j]) {
      var i := ItemIndex(items, j);
      assert items[i].entries == objs[j];
      SeenPrimitiveKeys(objs[j]);
      SeenAllKeys(objs[j]);
    }
    if |objs| > 0 {
      forall k ensures k in Common(false, KeysOf(objs[0]), objs[1..]) <==> k in Common(true, KeysOf(objs[0]), objs[1..]) {
        assert forall i :: 0 <= i < |objs[1..]| ==> objs[1..][i] == objs[i + 1];
      }
    }
  }

  /** `[{a: 1}, {a: undefined}]` (src/tests/parse.test.ts, "complex
      objects"): a key whose value is `undefined` counts as present, so the
      item requires `a` whichever parser runs. */
  lemma UndefinedCountsAsPresent(tp: bool)
    ensures var items := [Obj([Entry("a", Num(1))]), Obj([Entry("a", Undefined)])];
      && ChildAt(ParseTree(tp, Arr(items)), Item).Some?
      && ChildAt(ParseTree(tp, Arr(items)), Item).value.requiredKeys == Some({"a"})
  {
    var items := [Obj([Entry("a", Num(1))]), Obj([Entry("a", Undefined)])];
    ArrayItemTypes(tp, items);
    ArrayItemRequired(tp, items);
    UndefinedItemsRequire(tp, items);
  }

  lemma UndefinedItemsRequire(tp: bool, items: seq<JsonValue>)
    requires items == [Obj([Entry("a", Num(1))]), Obj([Entry("a", Undefined)])]
    ensures NoneIfEmpty(RequiredSet(tp, items)) == Some({"a"})
  {
    var e0, e1 := [Entry("a", Num(1))], [Entry("a", Undefined)];
    assert ObjectEntries(items[2..]) == [];
    assert ObjectEntries(items[1..]) == [e1];
    assert ObjectEntries(items) == [e0, e1];
    assert KeysOf(e0) == {"a"};
    assert SeenOf(tp, e1) == {"a"};
    assert "a" in RequiredSet(tp, items);
    assert RequiredSet(tp, items) == {"a"};
  }
}
