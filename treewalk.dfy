/** The depth-first event stream over a value (`treeWalk` in
    src/compiler/tree-walk.ts and `jsonTreeWalk` in src/tree-walk.ts, which
    are the same algorithm): one `visitLeaf` per primitive, and an
    `openObject`/`closeObject` pair around the children of each container. */
module TreeWalk {
  import opened Json
  import opened Wrappers

  /** The key under which a value is reached: an array index or an object key. */
  datatype Key = Index(i: nat) | Name(name: string)

  datatype EventType = OpenObject | CloseObject | VisitLeaf

  datatype Event = Event(eventType: EventType, key: Key, value: JsonValue, valueType: string)

  /** The events for `root` reached under `key` (default `"root"`). */
  function Walk(root: JsonValue, key: Key := Name("root")): (r: seq<Event>)
    ensures |r| >= 1
    ensures r[0].key == key && r[0].valueType == ValueType(root)
    ensures r[0].eventType == (if IsPrimitive(root) then VisitLeaf else OpenObject)
    ensures IsPrimitive(root) <==> |r| == 1
    ensures !IsPrimitive(root) ==>
      r[|r| - 1] == Event(CloseObject, key, root, ValueType(root))
    decreases root, 1
  {
    match root
    case Arr(items) =>
      [Event(OpenObject, key, root, "array")] + WalkItems(items, 0) + [Event(CloseObject, key, root, "array")]
    case Obj(entries) =>
      [Event(OpenObject, key, root, "object")] + WalkEntries(entries) + [Event(CloseObject, key, root, "object")]
    case _ =>
      [Event(VisitLeaf, key, root, ValueType(root))]
  }

  /** The events of array items, the first under index `start`. */
  function WalkItems(items: seq<JsonValue>, start: nat): (r: seq<Event>)
    ensures |r| >= |items|
    ensures |items| > 0 ==> r[0].key == Index(start) && r[0].valueType == ValueType(items[0])
    decreases items, 0
  {
    if |items| == 0 then [] else Walk(items[0], Index(start)) + WalkItems(items[1..], start + 1)
  }

  /** The events of object entries, each under its key. */
  function WalkEntries(entries: seq<Entry>): (r: seq<Event>)
    ensures |r| >= |entries|
    ensures |entries| > 0 ==> r[0].key == Name(entries[0].key) && r[0].valueType == ValueType(entries[0].value)
    decreases entries, 0
  {
    if |entries| == 0 then []
    else Walk(entries[0].value, Name(entries[0].key)) + WalkEntries(entries[1..])
  }

  // ---------------------------------------------------------------------
  // Reading a stream back: the walk loses nothing

  /** Reads the events of one value from the front of `es` and rebuilds the
      value and its key from the stream's structure alone (the `value` carried
      by an open event is not used), returning the unread rest. */
  function ReadValue(es: seq<Event>): (r: Option<(Key, JsonValue, seq<Event>)>)
    ensures r.Some? ==> |r.value.2| < |es|
    decreases |es|, 0
  {
    if |es| == 0 then None
    else
      var e := es[0];
      match e.eventType
      case VisitLeaf =>
        if IsPrimitive(e.value) then Some((e.key, e.value, es[1..])) else None
      case CloseObject => None
      case OpenObject =>
        if e.valueType == "array" then
          match ReadItems(es[1..], 0)
          case None => None
          case Some((items, rest)) =>
            if |rest| > 0 && rest[0] == Event(CloseObject, e.key, Arr(items), "array")
            then Some((e.key, Arr(items), rest[1..]))
            else None
        else if e.valueType == "object" then
          match ReadEntries(es[1..])
          case None => None
          case Some((entries, rest)) =>
            if |rest| > 0 && rest[0] == Event(CloseObject, e.key, Obj(entries), "object")
            then Some((e.key, Obj(entries), rest[1..]))
            else None
        else None
  }

  /** Reads array items keyed `next`, `next + 1`, ... up to a close event. */
  function ReadItems(es: seq<Event>, next: nat): (r: Option<(seq<JsonValue>, seq<Event>)>)
    ensures r.Some? ==> |r.value.1| <= |es|
    decreases |es|, 1
  {
    if |es| == 0 then None
    else if es[0].eventType == CloseObject then Some(([], es))
    else
      match ReadValue(es)
      case None => None
      case Some((k, v, rest)) =>
        if k != Index(next) then None
        else
          match ReadItems(rest, next + 1)
          case None => None
          case Some((vs, rest')) => Some(([v] + vs, rest'))
  }

  /** Reads object entries, each under a string key, up to a close event. */
  function ReadEntries(es: seq<Event>): (r: Option<(seq<Entry>, seq<Event>)>)
    ensures r.Some? ==> |r.value.1| <= |es|
    decreases |es|, 1
  {
    if |es| == 0 then None
    else if es[0].eventType == CloseObject then Some(([], es))
    else
      match ReadValue(es)
      case None => None
      case Some((k, v, rest)) =>
        if !k.Name? then None
        else
          match ReadEntries(rest)
          case None => None
          case Some((ents, rest')) => Some(([Entry(k.name, v)] + ents, rest'))
  }

  /** The walk of a value reads back as that value under that key, whatever
      follows it: array children carry the indices 0..n-1 in order and object
      children their keys in entry order. */
  lemma {:induction false} ReadWalk(v: JsonValue, k: Key, tail: seq<Event>)
    ensures ReadValue(Walk(v, k) + tail) == Some((k, v, tail))
    decreases v, 1
  {
    var es := Walk(v, k) + tail;
    match v
    case Arr(items) =>
      var close := Event(CloseObject, k, v, "array");
      assert es == [Event(OpenObject, k, v, "array")] + (WalkItems(items, 0) + ([close] + tail));
      ReadWalkItems(items, 0, [close] + tail);
    case Obj(entries) =>
      var close := Event(CloseObject, k, v, "object");
      assert es == [Event(OpenObject, k, v, "object")] + (WalkEntries(entries) + ([close] + tail));
      ReadWalkEntries(entries, [close] + tail);
    case _ =>
  }

  lemma {:induction false} ReadWalkItems(items: seq<JsonValue>, start: nat, tail: seq<Event>)
    requires |tail| > 0 && tail[0].eventType == CloseObject
    ensures ReadItems(WalkItems(items, start) + tail, start) == Some((items, tail))
    decreases items, 0
  {
    if |items| > 0 {
      var rest := WalkItems(items[1..], start + 1) + tail;
      var es := WalkItems(items, start) + tail;
      assert es == Walk(items[0], Index(start)) + rest;
      assert es[0] == Walk(items[0], Index(start))[0];
      ReadWalk(items[0], Index(start), rest);
      ReadWalkItems(items[1..], start + 1, tail);
      assert es[0].eventType != CloseObject;
      assert ReadValue(es) == Some((Index(start), items[0], rest));
      assert ReadItems(rest, start + 1) == Some((items[1..], tail));
      assert [items[0]] + items[1..] == items;
    } else {
      assert WalkItems(items, start) + tail == tail;
    }
  }

  lemma {:induction false} ReadWalkEntries(entries: seq<Entry>, tail: seq<Event>)
    requires |tail| > 0 && tail[0].eventType == CloseObject
    ensures ReadEntries(WalkEntries(entries) + tail) == Some((entries, tail))
    decreases entries, 0
  {
    if |entries| > 0 {
      var rest := WalkEntries(entries[1..]) + tail;
      var es := WalkEntries(entries) + tail;
      assert es == Walk(entries[0].value, Name(entries[0].key)) + rest;
      assert es[0] == Walk(entries[0].value, Name(entries[0].key))[0];
      ReadWalk(entries[0].value, Name(entries[0].key), rest);
      ReadWalkEntries(entries[1..], tail);
      assert [Entry(entries[0].key, entries[0].value)] + entries[1..] == entries;
    } else {
      assert WalkEntries(entries) + tail == tail;
    }
  }

  // ---------------------------------------------------------------------
  // Bracketing and counts

  function Delta(e: Event): int
  {
    match e.eventType
    case OpenObject => 1
    case CloseObject => -1
    case VisitLeaf => 0
  }

  /** Number of open events minus number of close events. */
  function Depth(es: seq<Event>): int
  {
    if |es| == 0 then 0 else Depth(es[..|es| - 1]) + Delta(es[|es| - 1])
  }

  /** Every prefix has at least as many opens as closes, and the whole stream
      has as many of each. */
  predicate WellBracketed(es: seq<Event>)
  {
    Depth(es) == 0 && forall j :: 0 <= j <= |es| ==> Depth(es[..j]) >= 0
  }

  lemma {:induction false} DepthAppend(a: seq<Event>, b: seq<Event>)
    ensures Depth(a + b) == Depth(a) + Depth(b)
    decreases |b|
  {
    if |b| > 0 {
      assert (a + b)[..|a + b| - 1] == a + b[..|b| - 1];
      DepthAppend(a, b[..|b| - 1]);
    } else {
      assert a + b == a;
    }
  }

  lemma WellBracketedAppend(a: seq<Event>, b: seq<Event>)
    requires WellBracketed(a) && WellBracketed(b)
    ensures WellBracketed(a + b)
  {
    DepthAppend(a, b);
    forall j | 0 <= j <= |a + b| ensures Depth((a + b)[..j]) >= 0 {
      if j <= |a| {
        assert (a + b)[..j] == a[..j];
      } else {
        assert (a + b)[..j] == a + b[..j - |a|];
        DepthAppend(a, b[..j - |a|]);
      }
    }
  }

  lemma WellBracketedWrap(open: Event, b: seq<Event>, close: Event)
    requires open.eventType == OpenObject && close.eventType == CloseObject
    requires WellBracketed(b)
    ensures WellBracketed([open] + b + [close])
  {
    var es := [open] + b + [close];
    DepthAppend([open], b);
    DepthAppend([open] + b, [close]);
    forall j | 0 <= j <= |es| ensures Depth(es[..j]) >= 0 {
      if j == 0 {
      } else if j <= |b| + 1 {
        assert es[..j] == [open] + b[..j - 1];
        DepthAppend([open], b[..j - 1]);
      }
      else {
        assert es[..j] == es;
      }
    }
  }

  /** The stream of every value is well bracketed. */
  lemma {:induction false} WalkWellBracketed(v: JsonValue, k: Key)
    ensures WellBracketed(Walk(v, k))
    decreases v, 1
  {
    match v
    case Arr(items) =>
      ItemsWellBracketed(items, 0);
      WellBracketedWrap(Event(OpenObject, k, v, "array"), WalkItems(items, 0), Event(CloseObject, k, v, "array"));
    case Obj(entries) =>
      EntriesWellBracketed(entries);
      WellBracketedWrap(Event(OpenObject, k, v, "object"), WalkEntries(entries), Event(CloseObject, k, v, "object"));
    case _ =>
      assert Walk(v, k)[..0] == [];
      assert Walk(v, k)[..1] == Walk(v, k);
  }

  lemma {:induction false} ItemsWellBracketed(items: seq<JsonValue>, start: nat)
    ensures WellBracketed(WalkItems(items, start))
    decreases items, 0
  {
    if |items| > 0 {
      WalkWellBracketed(items[0], Index(start));
      ItemsWellBracketed(items[1..], start + 1);
      WellBracketedAppend(Walk(items[0], Index(start)), WalkItems(items[1..], start + 1));
    } else {
      assert WalkItems(items, start)[..0] == [];
    }
  }

  lemma {:induction false} EntriesWellBracketed(entries: seq<Entry>)
    ensures WellBracketed(WalkEntries(entries))
    decreases entries, 0
  {
    if |entries| > 0 {
      WalkWellBracketed(entries[0].value, Name(entries[0].key));
      EntriesWellBracketed(entries[1..]);
      WellBracketedAppend(Walk(entries[0].value, Name(entries[0].key)), WalkEntries(entries[1..]));
    } else {
      assert WalkEntries(entries)[..0] == [];
    }
  }

  /** Number of events of type `t`. */
  function Count(es: seq<Event>, t: EventType): nat
  {
    if |es| == 0 then 0 else (if es[0].eventType == t then 1 else 0) + Count(es[1..], t)
  }

  lemma {:induction false} CountAppend(a: seq<Event>, b: seq<Event>, t: EventType)
    ensures Count(a + b, t) == Count(a, t) + Count(b, t)
  {
    if |a| > 0 {
      assert (a + b)[1..] == a[1..] + b;
      CountAppend(a[1..], b, t);
    } else {
      assert a + b == b;
    }
  }

  /** Number of primitive values (leaves) in a value. */
  function Leaves(v: JsonValue): nat
    decreases v, 1
  {
    match v
    case Arr(items) => LeavesOfItems(items)
    case Obj(entries) => LeavesOfEntries(entries)
    case _ => 1
  }

  function LeavesOfItems(items: seq<JsonValue>): nat
    decreases items, 0
  {
    if |items| == 0 then 0 else Leaves(items[0]) + LeavesOfItems(items[1..])
  }

  function LeavesOfEntries(entries: seq<Entry>): nat
    decreases entries, 0
  {
    if |entries| == 0 then 0 else Leaves(entries[0].value) + LeavesOfEntries(entries[1..])
  }

  /** Number of arrays and objects in a value, itself included. */
  function Containers(v: JsonValue): nat
    decreases v, 1
  {
    match v
    case Arr(items) => 1 + ContainersOfItems(items)
    case Obj(entries) => 1 + ContainersOfEntries(entries)
    case _ => 0
  }

  function ContainersOfItems(items: seq<JsonValue>): nat
    decreases items, 0
  {
    if |items| == 0 then 0 else Containers(items[0]) + ContainersOfItems(items[1..])
  }

  function ContainersOfEntries(entries: seq<Entry>): nat
    decreases entries, 0
  {
    if |entries| == 0 then 0 else Containers(entries[0].value) + ContainersOfEntries(entries[1..])
  }

  /** One leaf event per primitive, one open and one close event per container. */
  lemma {:induction false} WalkCounts(v: JsonValue, k: Key)
    ensures Count(Walk(v, k), VisitLeaf) == Leaves(v)
    ensures Count(Walk(v, k), OpenObject) == Count(Walk(v, k), CloseObject) == Containers(v)
    decreases v, 1
  {
    match v
    case Arr(items) =>
      var open, close := Event(OpenObject, k, v, "array"), Event(CloseObject, k, v, "array");
      ItemsCounts(items, 0);
      WrapCounts(open, WalkItems(items, 0), close);
    case Obj(entries) =>
      var open, close := Event(OpenObject, k, v, "object"), Event(CloseObject, k, v, "object");
      EntriesCounts(entries);
      WrapCounts(open, WalkEntries(entries), close);
    case _ =>
  }

  lemma WrapCounts(open: Event, b: seq<Event>, close: Event)
    requires open.eventType == OpenObject && close.eventType == CloseObject
    ensures Count([open] + b + [close], VisitLeaf) == Count(b, VisitLeaf)
    ensures Count([open] + b + [close], OpenObject) == 1 + Count(b, OpenObject)
    ensures Count([open] + b + [close], CloseObject) == 1 + Count(b, CloseObject)
  {
    CountAppend([open], b, VisitLeaf);
    CountAppend([open] + b, [close], VisitLeaf);
    CountAppend([open], b, OpenObject);
    CountAppend([open] + b, [close], OpenObject);
    CountAppend([open], b, CloseObject);
    CountAppend([open] + b, [close], CloseObject);
  }

  lemma {:induction false} ItemsCounts(items: seq<JsonValue>, start: nat)
    ensures Count(WalkItems(items, start), VisitLeaf) == LeavesOfItems(items)
    ensures Count(WalkItems(items, start), OpenObject) == Count(WalkItems(items, start), CloseObject) == ContainersOfItems(items)
    decreases items, 0
  {
    if |items| > 0 {
      WalkCounts(items[0], Index(start));
      ItemsCounts(items[1..], start + 1);
      var a, b := Walk(items[0], Index(start)), WalkItems(items[1..], start + 1);
      CountAppend(a, b, VisitLeaf);
      CountAppend(a, b, OpenObject);
      CountAppend(a, b, CloseObject);
    }
  }

  lemma {:induction false} EntriesCounts(entries: seq<Entry>)
    ensures Count(WalkEntries(entries), VisitLeaf) == LeavesOfEntries(entries)
    ensures Count(WalkEntries(entries), OpenObject) == Count(WalkEntries(entries), CloseObject) == ContainersOfEntries(entries)
    decreases entries, 0
  {
    if |entries| > 0 {
      WalkCounts(entries[0].value, Name(entries[0].key));
      EntriesCounts(entries[1..]);
      var a, b := Walk(entries[0].value, Name(entries[0].key)), WalkEntries(entries[1..]);
      CountAppend(a, b, VisitLeaf);
      CountAppend(a, b, OpenObject);
      CountAppend(a, b, CloseObject);
    }
  }

  /** An empty container yields exactly its open and close events. */
  lemma EmptyContainerWalk(v: JsonValue, k: Key)
    requires v == Arr([]) || v == Obj([])
    ensures Walk(v, k) == [Event(OpenObject, k, v, ValueType(v)), Event(CloseObject, k, v, ValueType(v))]
  {
  }
}
