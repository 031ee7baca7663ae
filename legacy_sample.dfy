/** `sample` in src/sample.ts: shrinks a JSON value for display by keeping at
    most three items of each array (first, middle and last, without falsy
    and repeated items) and cutting strings longer than 48 characters. */
module LegacySample {
  import opened Json
  import opened Arrays
  import opened Text

  /** Strings longer than this are cut. */
  const MaxText: nat := 48

  /** `sample(object)`. */
  function Sample(v: JsonValue): (r: JsonValue)
    ensures ValueType(r) == ValueType(v)
    ensures v.Arr? ==> |r.items| <= 3 && (|v.items| == 0 ==> r.items == [])
    ensures v.Obj? ==>
      |r.entries| == |v.entries| && forall j :: 0 <= j < |r.entries| ==> r.entries[j].key == v.entries[j].key
    ensures v.Str? ==> r == Str(TrimText(MaxText, v.s))
    ensures IsPrimitive(v) && !v.Str? ==> r == v
    decreases v, 1
  {
    match v
    case Arr(items) =>
      if |items| == 0 then Arr([])
      else
        var picks := ThreePointPicks(items);
        Arr(seq(|picks|, j requires 0 <= j < |picks| => Sample(items[picks[j].index])))
    case Obj(entries) => Obj(SampleEntries(entries))
    case Str(s) => Str(TrimText(MaxText, s))
    case _ => v
  }

  function SampleEntries(entries: seq<Entry>): (r: seq<Entry>)
    ensures |r| == |entries| && forall j :: 0 <= j < |r| ==> r[j].key == entries[j].key
    ensures forall j :: 0 <= j < |r| ==> r[j].value == Sample(entries[j].value)
    decreases entries, 0
  {
    if |entries| == 0 then []
    else [Entry(entries[0].key, Sample(entries[0].value))] + SampleEntries(entries[1..])
  }

  /** Every array in the value has at most `items` items and every string at
      most `text` characters. */
  predicate Bounded(v: JsonValue, items: nat, text: nat)
  {
    match v
    case Arr(xs) => |xs| <= items && forall j :: 0 <= j < |xs| ==> Bounded(xs[j], items, text)
    case Obj(es) => forall j :: 0 <= j < |es| ==> Bounded(es[j].value, items, text)
    case Str(s) => |s| <= text
    case _ => true
  }

  /** A sample, at every depth, has at most three items per array and at most
      51 characters per string. */
  lemma {:induction false} SampleBounded(v: JsonValue)
    ensures Bounded(Sample(v), 3, MaxText + 3)
    decreases v, 1
  {
    match v
    case Arr(items) =>
      if |items| > 0 {
        var picks := ThreePointPicks(items);
        var r := Sample(v);
        forall j | 0 <= j < |r.items| ensures Bounded(r.items[j], 3, MaxText + 3) {
          SampleBounded(items[picks[j].index]);
        }
      }
    case Obj(entries) => EntriesBounded(entries);
    case _ =>
  }

  lemma {:induction false} EntriesBounded(entries: seq<Entry>)
    ensures forall j :: 0 <= j < |entries| ==> Bounded(SampleEntries(entries)[j].value, 3, MaxText + 3)
    decreases entries, 0
  {
    if |entries| > 0 {
      SampleBounded(entries[0].value);
      EntriesBounded(entries[1..]);
    }
  }

  /** `null` stays `null`, numbers are returned as is, and an empty array
      stays empty. */
  lemma SampleExamples()
    ensures Sample(Null) == Null
    ensures Sample(Arr([])) == Arr([])
    ensures Sample(Num(0)) == Num(0)
  {
  }

  /** An object is sampled entry by entry: same keys, in order, each value
      sampled. */
  lemma SampleObject(entries: seq<Entry>)
    ensures |Sample(Obj(entries)).entries| == |entries|
    ensures forall j :: 0 <= j < |entries| ==>
      Sample(Obj(entries)).entries[j] == Entry(entries[j].key, Sample(entries[j].value))
  {
  }

  /** The kept items are the samples of the three-point sample's items, in
      its order: the first, middle and last positions, increasing. */
  lemma SampleArrayItems(items: seq<JsonValue>)
    requires |items| > 0
    ensures |Sample(Arr(items)).items| == |ThreePointSample(items)|
    ensures forall j :: 0 <= j < |ThreePointSample(items)| ==>
      Sample(Arr(items)).items[j] == Sample(ThreePointSample(items)[j])
    ensures forall i, j :: 0 <= i < j < |ThreePointPicks(items)| ==>
      ThreePointPicks(items)[i].index < ThreePointPicks(items)[j].index
  {
  }

  lemma PicksDropFalsy()
    ensures ThreePointPicks([Num(0), Num(0), Num(5)]) == [Pick(2, Num(5))]
  {
    var ps := SamplePoints([Num(0), Num(0), Num(5)]);
    assert ps == [Pick(0, Num(0)), Pick(1, Num(0)), Pick(2, Num(5))];
    assert KeepTruthy(ps[2..]) == [Pick(2, Num(5))];
    assert ps[1..][1..] == ps[2..];
    assert KeepTruthy(ps) == [Pick(2, Num(5))];
    DedupOne(Pick(2, Num(5)));
  }

  /** `[0, 0, 5]`: the falsy zeros are dropped. */
  lemma SampleDropsFalsy()
    ensures Sample(Arr([Num(0), Num(0), Num(5)])) == Arr([Num(5)])
  {
    PicksDropFalsy();
    var r := Sample(Arr([Num(0), Num(0), Num(5)]));
    assert |r.items| == 1 && r.items[0] == Sample(Num(5));
  }
}
