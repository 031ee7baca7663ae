/** The array helpers of src/array.ts: splitting an array into chunks, and
    the three-point sample (first, middle, last item) that src/sample.ts
    repeats word for word. */
module Arrays {
  import opened Json

  /** The elements of the chunks, in order. */
  function Flatten<T>(chunks: seq<seq<T>>): seq<T>
  {
    if |chunks| == 0 then [] else chunks[0] + Flatten(chunks[1..])
  }

  lemma {:induction false} FlattenAppend<T>(chunks: seq<seq<T>>, c: seq<T>)
    ensures Flatten(chunks + [c]) == Flatten(chunks) + c
  {
    if |chunks| == 0 {
      assert chunks + [c] == [c];
      assert [c][1..] == [];
    } else {
      assert (chunks + [c])[1..] == chunks[1..] + [c];
      FlattenAppend(chunks[1..], c);
    }
  }

  /** `getChunks(array, chunkSize)`: the loop advances by `chunkSize` and
      pushes `array.slice(i, i + chunkSize)`. A chunk size of zero never
      advances, so it only terminates on an empty array. The chunks give
      back the array, none is empty, none is longer than `chunkSize`, all
      but the last are exactly `chunkSize` long, and there are
      ⌈n / chunkSize⌉ of them (the least count whose chunks cover n). */
  method GetChunks<T>(a: seq<T>, chunkSize: nat) returns (chunks: seq<seq<T>>)
    requires chunkSize > 0 || |a| == 0
    ensures Flatten(chunks) == a
    ensures forall j :: 0 <= j < |chunks| ==> 0 < |chunks[j]| <= chunkSize
    ensures forall j :: 0 <= j < |chunks| - 1 ==> |chunks[j]| == chunkSize
    ensures |a| > 0 ==> (|chunks| - 1) * chunkSize < |a| <= |chunks| * chunkSize
    ensures |a| == 0 ==> chunks == []
  {
    chunks := [];
    var i := 0;
    while i < |a|
      invariant 0 <= i <= |a| || (chunkSize > 0 && |a| < i < |a| + chunkSize)
      invariant chunkSize > 0 ==> i == |chunks| * chunkSize
      invariant i <= |a| ==> Flatten(chunks) == a[..i]
      invariant i > |a| ==> Flatten(chunks) == a
      invariant forall j :: 0 <= j < |chunks| ==> 0 < |chunks[j]| <= chunkSize
      invariant forall j :: 0 <= j < |chunks| - 1 ==> |chunks[j]| == chunkSize
      invariant |chunks| > 0 && |chunks[|chunks| - 1]| < chunkSize ==> i > |a|
      invariant |chunks| > 0 ==> i - chunkSize < |a|
      decreases |a| - i
    {
      var end := if i + chunkSize <= |a| then i + chunkSize else |a|;
      var chunk := a[i..end];
      FlattenAppend(chunks, chunk);
      MulSucc(|chunks|, chunkSize);
      assert a[..i] + a[i..end] == a[..end];
      chunks := chunks + [chunk];
      i := i + chunkSize;
    }
    if i == |a| {
      assert a[..i] == a;
    }
    if |a| > 0 {
      MulSucc(|chunks| - 1, chunkSize);
    }
  }

  lemma MulSucc(k: int, s: int)
    ensures (k + 1) * s == k * s + s
  {
  }

  // ---------------------------------------------------------------------
  // Three-point sample

  /** One item picked by index. */
  datatype Pick = Pick(index: nat, value: JsonValue)

  /** What `new Set` merges: the same item (same index, which stands for the
      same object reference), or equal primitive values (`===`). */
  predicate Same(p: Pick, q: Pick)
  {
    p.index == q.index || (IsPrimitive(p.value) && p.value == q.value)
  }

  /** The items at `0`, `Math.floor(n / 2)` and `at(-1)`, in that order. */
  function SamplePoints(a: seq<JsonValue>): (r: seq<Pick>)
    requires |a| > 0
    ensures |r| == 3 && r[0].index == 0 && r[1].index == |a| / 2 && r[2].index == |a| - 1
    ensures forall j :: 0 <= j < 3 ==> r[j].index < |a| && r[j].value == a[r[j].index]
  {
    [Pick(0, a[0]), Pick(|a| / 2, a[|a| / 2]), Pick(|a| - 1, a[|a| - 1])]
  }

  /** `filter(Boolean)`. */
  function KeepTruthy(ps: seq<Pick>): (r: seq<Pick>)
    ensures |r| <= |ps|
    ensures forall p :: p in r <==> p in ps && Truthy(p.value)
  {
    if |ps| == 0 then []
    else if Truthy(ps[0].value) then [ps[0]] + KeepTruthy(ps[1..])
    else KeepTruthy(ps[1..])
  }

  lemma {:induction false} KeepTruthyAll(ps: seq<Pick>)
    requires forall j :: 0 <= j < |ps| ==> Truthy(ps[j].value)
    ensures KeepTruthy(ps) == ps
  {
    if |ps| > 0 {
      KeepTruthyAll(ps[1..]);
    }
  }

  lemma {:induction false} KeepTruthyNone(ps: seq<Pick>)
    requires forall j :: 0 <= j < |ps| ==> !Truthy(ps[j].value)
    ensures KeepTruthy(ps) == []
  {
    if |ps| > 0 {
      KeepTruthyNone(ps[1..]);
    }
  }

  /** `[...new Set(ps)]`: first occurrences, in order. */
  function Dedup(ps: seq<Pick>): (r: seq<Pick>)
    ensures |r| <= |ps|
    ensures forall i :: 0 <= i < |r| ==> r[i] in ps
  {
    if |ps| == 0 then []
    else
      var rest := Dedup(ps[..|ps| - 1]);
      var last := ps[|ps| - 1];
      if SameAsSome(rest, last) then rest else rest + [last]
  }

  /** `r` is `ps` with some picks left out and the others in their order. */
  predicate Subsequence(r: seq<Pick>, ps: seq<Pick>)
    decreases |ps|
  {
    |r| == 0 ||
    (|ps| > 0 &&
     ((r[|r| - 1] == ps[|ps| - 1] && Subsequence(r[..|r| - 1], ps[..|ps| - 1])) ||
      Subsequence(r, ps[..|ps| - 1])))
  }

  /** `Dedup` keeps the input's order. */
  lemma {:induction false} DedupSubsequence(ps: seq<Pick>)
    ensures Subsequence(Dedup(ps), ps)
  {
    if |ps| > 0 {
      var rest := Dedup(ps[..|ps| - 1]);
      var last := ps[|ps| - 1];
      DedupSubsequence(ps[..|ps| - 1]);
      if !SameAsSome(rest, last) {
        assert (rest + [last])[..|rest|] == rest;
      }
    }
  }

  /** A pick unlike every earlier pick is kept: a `Set` keeps the first
      occurrence of each item. */
  lemma {:induction false} DedupKeepsFirst(ps: seq<Pick>, j: nat)
    requires j < |ps| && forall k :: 0 <= k < j ==> !Same(ps[k], ps[j])
    ensures ps[j] in Dedup(ps)
  {
    var rest := Dedup(ps[..|ps| - 1]);
    var last := ps[|ps| - 1];
    if j < |ps| - 1 {
      DedupKeepsFirst(ps[..|ps| - 1], j);
    } else {
      forall i | 0 <= i < |rest|
        ensures !Same(rest[i], last)
      {
        assert rest[i] in ps[..|ps| - 1];
      }
    }
  }

  predicate IndicesSorted(ps: seq<Pick>)
  {
    forall i, j :: 0 <= i < j < |ps| ==> ps[i].index <= ps[j].index
  }

  lemma {:induction false} KeepTruthySorted(ps: seq<Pick>)
    requires IndicesSorted(ps)
    ensures IndicesSorted(KeepTruthy(ps))
  {
    if |ps| > 0 {
      KeepTruthySorted(ps[1..]);
      var t := KeepTruthy(ps[1..]);
      assert forall i :: 0 <= i < |t| ==> t[i] in ps[1..];
    }
  }

  /** Picks sorted by position come out of `Dedup` in strictly increasing
      positions, since two picks at one position are the same. */
  lemma {:induction false} DedupIncreasing(ps: seq<Pick>)
    requires IndicesSorted(ps)
    ensures forall i, j :: 0 <= i < j < |Dedup(ps)| ==> Dedup(ps)[i].index < Dedup(ps)[j].index
  {
    if |ps| > 0 {
      var rest := Dedup(ps[..|ps| - 1]);
      var last := ps[|ps| - 1];
      DedupIncreasing(ps[..|ps| - 1]);
      if !SameAsSome(rest, last) {
        forall i | 0 <= i < |rest|
          ensures rest[i].index < last.index
        {
          assert rest[i] in ps[..|ps| - 1];
          assert !Same(rest[i], last);
        }
      }
    }
  }

  predicate SameAsSome(ps: seq<Pick>, p: Pick)
  {
    exists i :: 0 <= i < |ps| && Same(ps[i], p)
  }

  /** No two kept picks are the same. */
  lemma {:induction false} DedupDistinct(ps: seq<Pick>, i: nat, j: nat)
    requires i < j < |Dedup(ps)|
    ensures !Same(Dedup(ps)[i], Dedup(ps)[j])
  {
    var rest := Dedup(ps[..|ps| - 1]);
    var last := ps[|ps| - 1];
    if j < |rest| {
      DedupDistinct(ps[..|ps| - 1], i, j);
    } else {
      assert !SameAsSome(rest, last);
    }
  }

  /** Every input pick is represented in the output of `Dedup`. */
  lemma {:induction false} DedupCovers(ps: seq<Pick>, j: nat)
    requires j < |ps|
    ensures SameAsSome(Dedup(ps), ps[j])
  {
    var rest := Dedup(ps[..|ps| - 1]);
    var last := ps[|ps| - 1];
    if j < |ps| - 1 {
      DedupCovers(ps[..|ps| - 1], j);
      var i :| 0 <= i < |rest| && Same(rest[i], ps[j]);
      assert Dedup(ps)[i] == rest[i];
    } else if !SameAsSome(rest, last) {
      assert Dedup(ps)[|rest|] == last;
    }
  }

  /** The picked values, in order. */
  function PickValues(ps: seq<Pick>): (r: seq<JsonValue>)
    ensures |r| == |ps| && forall j :: 0 <= j < |ps| ==> r[j] == ps[j].value
  {
    seq(|ps|, j requires 0 <= j < |ps| => ps[j].value)
  }

  /** The picks behind `threePointSampleArrayItems`. */
  function ThreePointPicks(a: seq<JsonValue>): (r: seq<Pick>)
    requires |a| > 0
    ensures |r| <= 3
    ensures forall j :: 0 <= j < |r| ==> Truthy(r[j].value) && r[j].index < |a| && r[j].value == a[r[j].index]
    ensures forall j :: 0 <= j < |r| ==> r[j].index in {0, |a| / 2, |a| - 1}
    ensures forall i, j :: 0 <= i < j < |r| ==> r[i].index < r[j].index
  {
    var points := SamplePoints(a);
    KeepTruthySorted(points);
    DedupIncreasing(KeepTruthy(points));
    var r := Dedup(KeepTruthy(points));
    assert forall j :: 0 <= j < |r| ==> r[j] in points;
    r
  }

  /** `threePointSampleArrayItems(arr)`: at most three items, all truthy,
      each the first, middle or last item, none the same as another, in the
      order of their positions. */
  function ThreePointSample(a: seq<JsonValue>): (r: seq<JsonValue>)
    ensures |r| <= 3
    ensures |a| == 0 ==> r == []
    ensures forall j :: 0 <= j < |r| ==> Truthy(r[j]) && r[j] in {a[0], a[|a| / 2], a[|a| - 1]}
    ensures |a| > 0 ==>
      |r| == |ThreePointPicks(a)| && forall j :: 0 <= j < |r| ==> r[j] == a[ThreePointPicks(a)[j].index]
  {
    if |a| == 0 then [] else PickValues(ThreePointPicks(a))
  }

  /** Head, middle and tail, in that order, when all three are truthy and
      no two are the same. */
  lemma HeadMiddleTail(a: seq<JsonValue>)
    requires |a| > 0
    requires forall j :: 0 <= j < 3 ==> Truthy(SamplePoints(a)[j].value)
    requires forall i, j :: 0 <= i < j < 3 ==> !Same(SamplePoints(a)[i], SamplePoints(a)[j])
    ensures ThreePointSample(a) == [a[0], a[|a| / 2], a[|a| - 1]]
  {
    var ps := SamplePoints(a);
    AllThreeKept(ps);
    assert ThreePointPicks(a) == ps;
  }

  /** Three truthy picks no two of which are the same are all kept. */
  lemma AllThreeKept(ps: seq<Pick>)
    requires |ps| == 3 && forall j :: 0 <= j < 3 ==> Truthy(ps[j].value)
    requires forall i, j :: 0 <= i < j < 3 ==> !Same(ps[i], ps[j])
    ensures Dedup(KeepTruthy(ps)) == ps
  {
    KeepTruthyAll(ps);
    assert ps == [ps[0], ps[1], ps[2]];
    DedupThree(ps[0], ps[1], ps[2]);
  }

  /** Three picks no two of which are the same are all kept. */
  lemma DedupThree(p0: Pick, p1: Pick, p2: Pick)
    requires !Same(p0, p1) && !Same(p0, p2) && !Same(p1, p2)
    ensures Dedup([p0, p1, p2]) == [p0, p1, p2]
  {
    DedupOne(p0);
    DedupAdd([p0], p0, p1);
    assert [p0] + [p1] == [p0, p1];
    assert !SameAsSome([p0, p1], p2);
    assert [p0, p1, p2][..2] == [p0, p1];
  }

  /** Every truthy sample point is represented in the sample. */
  lemma ThreePointCovers(a: seq<JsonValue>, j: nat)
    requires |a| > 0 && j < 3 && Truthy(SamplePoints(a)[j].value)
    ensures SameAsSome(ThreePointPicks(a), SamplePoints(a)[j])
  {
    var points := SamplePoints(a);
    var t := KeepTruthy(points);
    assert points[j] in t;
    var k :| 0 <= k < |t| && t[k] == points[j];
    DedupCovers(t, k);
  }

  lemma DedupOne(p: Pick)
    ensures Dedup([p]) == [p]
  {
    assert [p][..0] == [];
    assert !SameAsSome([], p);
  }

  /** Appending a pick the same as one already kept leaves the result. */
  lemma DedupSkip(ps: seq<Pick>, p: Pick, i: nat)
    requires i < |Dedup(ps)| && Same(Dedup(ps)[i], p)
    ensures Dedup(ps + [p]) == Dedup(ps)
  {
    assert (ps + [p])[..|ps|] == ps;
    assert SameAsSome(Dedup(ps), p);
  }

  /** Appending a pick unlike the only kept one adds it at the end. */
  lemma DedupAdd(ps: seq<Pick>, q: Pick, p: Pick)
    requires Dedup(ps) == [q] && !Same(q, p)
    ensures Dedup(ps + [p]) == [q, p]
  {
    assert (ps + [p])[..|ps|] == ps;
    assert !SameAsSome([q], p);
  }

  /** The same pick repeated is kept once. */
  lemma {:induction false} DedupRepeated(ps: seq<Pick>, p: Pick)
    requires |ps| > 0 && forall j :: 0 <= j < |ps| ==> ps[j] == p
    ensures Dedup(ps) == [p]
  {
    if |ps| == 1 {
      assert ps == [p];
      DedupOne(p);
    } else {
      DedupRepeated(ps[..|ps| - 1], p);
      assert ps == ps[..|ps| - 1] + [p];
      DedupSkip(ps[..|ps| - 1], p, 0);
    }
  }

  /** A single item is sampled once (all three points are the same item). */
  lemma ThreePointSingle(x: JsonValue)
    ensures ThreePointSample([x]) == if Truthy(x) then [x] else []
  {
    var p := Pick(0, x);
    var ps := SamplePoints([x]);
    assert ps == [p, p, p];
    if Truthy(x) {
      KeepTruthyAll(ps);
      DedupRepeated(ps, p);
      assert ThreePointPicks([x]) == [p];
    } else {
      KeepTruthyNone(ps);
      assert ThreePointPicks([x]) == [];
    }
  }

  /** Two equal objects at different positions are both kept: the source
      deduplicates objects by reference, not by content. */
  lemma ThreePointKeepsEqualObjects()
    ensures ThreePointSample([Obj([]), Obj([])]) == [Obj([]), Obj([])]
  {
    var a := [Obj([]), Obj([])];
    var p0, p1 := Pick(0, Obj([])), Pick(1, Obj([]));
    var ps := SamplePoints(a);
    assert ps == [p0, p1, p1];
    KeepFirstTwo(p0, p1, ps[2]);
    assert ThreePointPicks(a) == [p0, p1];
  }

  /** Three truthy picks, the first two different and the third the same as
      one of them: the first two are kept. */
  lemma KeepFirstTwo(p0: Pick, p1: Pick, p2: Pick)
    requires Truthy(p0.value) && Truthy(p1.value) && Truthy(p2.value)
    requires !Same(p0, p1) && (Same(p0, p2) || Same(p1, p2))
    ensures Dedup(KeepTruthy([p0, p1, p2])) == [p0, p1]
  {
    KeepTruthyAll([p0, p1, p2]);
    DedupTwo(p0, p1);
    assert [p0, p1] + [p2] == [p0, p1, p2];
    if Same(p0, p2) {
      DedupSkip([p0, p1], p2, 0);
    } else {
      DedupSkip([p0, p1], p2, 1);
    }
  }

  lemma DedupTwo(p0: Pick, p1: Pick)
    requires !Same(p0, p1)
    ensures Dedup([p0, p1]) == [p0, p1]
  {
    DedupOne(p0);
    DedupAdd([p0], p0, p1);
    assert [p0] + [p1] == [p0, p1];
  }

  /** Equal primitives at different positions are merged. */
  lemma ThreePointMergesEqualPrimitives()
    ensures ThreePointSample([Num(7), Num(5), Num(7)]) == [Num(7), Num(5)]
  {
    var a := [Num(7), Num(5), Num(7)];
    var p0, p1, p2 := Pick(0, Num(7)), Pick(1, Num(5)), Pick(2, Num(7));
    var ps := SamplePoints(a);
    assert ps == [p0, p1, p2];
    KeepFirstTwo(p0, p1, ps[2]);
    assert ThreePointPicks(a) == [p0, p1];
  }

}
