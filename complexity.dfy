/** `complexity` in src/utils/complexity.ts: a structural size measure of a
    JSON value, used to decide whether a value is too large to show as is.
    Strings score their length plus two (the quotes), other primitives one,
    an array one plus one per item (the separators) plus its items, an
    object one plus two per key (colon and separator) plus its values. */
module Complexity {
  import opened Json

  function Complexity(v: JsonValue): (r: nat)
    ensures r >= 1
    decreases v, 1
  {
    match v
    case Str(s) => |s| + 2
    case Arr(items) => 1 + |items| + ItemsComplexity(items)
    case Obj(entries) => 1 + 2 * |entries| + EntriesComplexity(entries)
    case _ => 1
  }

  /** The `reduce` over array items. */
  function ItemsComplexity(items: seq<JsonValue>): nat
    decreases items, 0
  {
    if |items| == 0 then 0 else Complexity(items[0]) + ItemsComplexity(items[1..])
  }

  /** The `reduce` over `Object.values`; keys are not scored. */
  function EntriesComplexity(entries: seq<Entry>): nat
    decreases entries, 0
  {
    if |entries| == 0 then 0 else Complexity(entries[0].value) + EntriesComplexity(entries[1..])
  }

  /** Each item scores at least one, so the items add at least their count. */
  lemma {:induction false} ItemsAtLeastCount(items: seq<JsonValue>)
    ensures ItemsComplexity(items) >= |items|
  {
    if |items| > 0 {
      ItemsAtLeastCount(items[1..]);
    }
  }

  lemma {:induction false} ItemsAppend(items: seq<JsonValue>, x: JsonValue)
    ensures ItemsComplexity(items + [x]) == ItemsComplexity(items) + Complexity(x)
  {
    if |items| == 0 {
      assert items + [x] == [x];
      assert [x][1..] == [];
    } else {
      assert (items + [x])[1..] == items[1..] + [x];
      ItemsAppend(items[1..], x);
    }
  }

  lemma {:induction false} EntriesAppend(entries: seq<Entry>, e: Entry)
    ensures EntriesComplexity(entries + [e]) == EntriesComplexity(entries) + Complexity(e.value)
  {
    if |entries| == 0 {
      assert entries + [e] == [e];
      assert [e][1..] == [];
    } else {
      assert (entries + [e])[1..] == entries[1..] + [e];
      EntriesAppend(entries[1..], e);
    }
  }

  /** Adding an item to an array raises its score by the item's score plus
      one for the separator, so the score strictly increases. */
  lemma ArrayAppendIncreases(items: seq<JsonValue>, x: JsonValue)
    ensures Complexity(Arr(items + [x])) == Complexity(Arr(items)) + 1 + Complexity(x)
    ensures Complexity(Arr(items + [x])) > Complexity(Arr(items))
  {
    ItemsAppend(items, x);
  }

  /** Adding a key to an object raises its score by the value's score plus
      two, so the score strictly increases. */
  lemma ObjectAppendIncreases(entries: seq<Entry>, e: Entry)
    ensures Complexity(Obj(entries + [e])) == Complexity(Obj(entries)) + 2 + Complexity(e.value)
    ensures Complexity(Obj(entries + [e])) > Complexity(Obj(entries))
  {
    EntriesAppend(entries, e);
  }

  lemma {:induction false} EntriesAreValues(entries: seq<Entry>)
    ensures EntriesComplexity(entries) == ItemsComplexity(Values(entries))
  {
    if |entries| > 0 {
      assert Values(entries)[1..] == Values(entries[1..]);
      EntriesAreValues(entries[1..]);
    }
  }

  /** An object scores exactly one per key more than the array of its
      values; in particular `{k: v}` scores one more than `[v]`. */
  lemma ObjectVersusArray(entries: seq<Entry>)
    ensures Complexity(Obj(entries)) == Complexity(Arr(Values(entries))) + |entries|
  {
    EntriesAreValues(entries);
  }

  lemma SingleKeyObject(k: string, v: JsonValue)
    ensures Complexity(Obj([Entry(k, v)])) == Complexity(Arr([v])) + 1
  {
    ObjectVersusArray([Entry(k, v)]);
    assert Values([Entry(k, v)]) == [v];
  }

  /** A container scores more than each of its items. */
  lemma {:induction false} ItemBelowArray(items: seq<JsonValue>, i: nat)
    requires i < |items|
    ensures Complexity(items[i]) < Complexity(Arr(items))
  {
    ItemBelowSum(items, i);
  }

  lemma {:induction false} ItemBelowSum(items: seq<JsonValue>, i: nat)
    requires i < |items|
    ensures Complexity(items[i]) <= ItemsComplexity(items)
  {
    if i > 0 {
      ItemBelowSum(items[1..], i - 1);
    }
  }
}
