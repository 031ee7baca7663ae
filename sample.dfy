/** `sample`, `getSample` and `stringifySample` in src/utils/sample.ts: a JSON
    value is reduced for display (long strings cut, long arrays reduced to
    their first and last items with the middle hidden) and rendered as text
    close to `JSON.stringify`, with hidden runs shown as `...(k items)`. */
module Sample {
  import opened Json
  import opened Text
  import opened Wrappers
  import JsonString

  /** `arrayCompression`. */
  datatype Compression = HideMiddle | NoCompression

  /** `SampleOptions` with its defaults filled in. */
  datatype Options = Options(maxTextLength: nat, arrayCompression: Compression)

  const DefaultOptions := Options(48, HideMiddle)

  /** `ArrayFragment`: a shown item at `pos`, or a run of `skip` hidden items
      starting at `pos`. */
  datatype Fragment<T> = Shown(pos: nat, value: T) | Hidden(pos: nat, skip: nat)

  /** The values `typeof` does not report as "object", plus `null`. */
  type Primitive = v: JsonValue | IsPrimitive(v) witness Null

  /** A sampled value: a primitive, a plain array, an array carrying the
      `fragments` property (one that was compressed), or an object. */
  datatype Sampled =
    | SPrim(v: Primitive)
    | SArr(items: seq<Sampled>)
    | SFragmented(items: seq<Sampled>, fragments: seq<Fragment<Sampled>>)
    | SObj(entries: seq<SEntry>)

  /** One member of a sampled object. */
  datatype SEntry = SEntry(key: string, value: Sampled)

  /** A JavaScript value as the renderer sees it when it was not sampled:
      arrays carry no fragments. */
  function Lift(v: JsonValue): (r: Sampled)
    ensures IsPrimitive(v) <==> r.SPrim?
    ensures v.Arr? ==> r.SArr? && |r.items| == |v.items|
    decreases v, 1
  {
    match v
    case Arr(items) => SArr(seq(|items|, j requires 0 <= j < |items| => Lift(items[j])))
    case Obj(entries) => SObj(LiftEntries(entries))
    case _ => SPrim(v)
  }

  function LiftEntries(entries: seq<Entry>): (r: seq<SEntry>)
    ensures |r| == |entries|
    decreases entries, 0
  {
    if |entries| == 0 then [] else [SEntry(entries[0].key, Lift(entries[0].value))] + LiftEntries(entries[1..])
  }

  // ----- skipMiddle -----

  /** The indices `skipMiddle` keeps: all of up to three items (so a single
      middle item is never hidden), otherwise the first and the last. They
      are strictly increasing, so the `Set` that follows keeps them all. */
  function SampledIndices(n: nat): (r: seq<nat>)
    requires n > 0
    ensures |r| >= 1 && r[0] == 0 && r[|r| - 1] == n - 1
    ensures forall j :: 0 <= j < |r| ==> r[j] < n
    ensures forall i, j :: 0 <= i < j < |r| ==> r[i] < r[j]
  {
    if n == 1 then [0] else if n == 2 then [0, 1] else if n == 3 then [0, 1, 2] else [0, n - 1]
  }

  /** `pairs`: the items at even positions, each with its successor when
      there is one. */
  function Pairs(xs: seq<nat>): (r: seq<(nat, Option<nat>)>)
    ensures |r| == (|xs| + 1) / 2
    ensures forall j :: 0 <= j < |r| ==>
      (r[j].0 == xs[2 * j]
      && (r[j].1.Some? <==> 2 * j + 1 < |xs|)
      && (r[j].1.Some? ==> r[j].1.value == xs[2 * j + 1]))
  {
    if |xs| == 0 then []
    else if |xs| == 1 then [(xs[0], None)]
    else [(xs[0], Some(xs[1]))] + Pairs(xs[2..])
  }

  /** The hidden run between the two ends of each pair, when it is not
      empty; a pair without an end gives `NaN`, which the filter drops. */
  function HiddenRanges(ps: seq<(nat, Option<nat>)>): (r: seq<Fragment<JsonValue>>)
    ensures forall j :: 0 <= j < |r| ==> r[j].Hidden? && r[j].skip > 0
  {
    if |ps| == 0 then []
    else
      var rest := HiddenRanges(ps[1..]);
      var (start, end) := ps[0];
      if end.Some? && end.value > start + 1 then [Hidden(start + 1, end.value - start - 1)] + rest else rest
  }

  /** The shown item at each kept index. */
  function ShownRanges(a: seq<JsonValue>, idx: seq<nat>): (r: seq<Fragment<JsonValue>>)
    requires forall j :: 0 <= j < |idx| ==> idx[j] < |a|
    ensures |r| == |idx| && forall j :: 0 <= j < |r| ==> r[j] == Shown(idx[j], a[idx[j]])
  {
    seq(|idx|, j requires 0 <= j < |idx| => Shown(idx[j], a[idx[j]]))
  }

  predicate SortedByPos<T>(fs: seq<Fragment<T>>)
  {
    forall i, j :: 0 <= i < j < |fs| ==> fs[i].pos <= fs[j].pos
  }

  /** Places `f` after every fragment whose position is not greater. */
  function InsertByPos<T>(fs: seq<Fragment<T>>, f: Fragment<T>): seq<Fragment<T>>
  {
    if |fs| == 0 then [f]
    else if fs[|fs| - 1].pos <= f.pos then fs + [f]
    else InsertByPos(fs[..|fs| - 1], f) + [fs[|fs| - 1]]
  }

  /** `sort((a, b) => a.pos - b.pos)`, which is stable: an insertion sort
      that places each fragment after the ones before it with an equal
      position. */
  function SortByPos<T>(fs: seq<Fragment<T>>): seq<Fragment<T>>
  {
    if |fs| == 0 then [] else InsertByPos(SortByPos(fs[..|fs| - 1]), fs[|fs| - 1])
  }

  lemma {:induction false} InsertByPosPermutes<T>(fs: seq<Fragment<T>>, f: Fragment<T>)
    ensures multiset(InsertByPos(fs, f)) == multiset(fs) + multiset{f}
  {
    if |fs| > 0 && fs[|fs| - 1].pos > f.pos {
      var init := fs[..|fs| - 1];
      assert fs == init + [fs[|fs| - 1]];
      InsertByPosPermutes(init, f);
    }
  }

  lemma {:induction false} InsertByPosSorted<T>(fs: seq<Fragment<T>>, f: Fragment<T>)
    requires SortedByPos(fs)
    ensures SortedByPos(InsertByPos(fs, f))
  {
    if |fs| > 0 && fs[|fs| - 1].pos > f.pos {
      var init, last := fs[..|fs| - 1], fs[|fs| - 1];
      assert fs == init + [last];
      InsertByPosSorted(init, f);
      InsertByPosPermutes(init, f);
      var r := InsertByPos(init, f);
      forall i | 0 <= i < |r| ensures r[i].pos <= last.pos {
        assert r[i] in multiset(init) + multiset{f};
      }
    }
  }

  /** The sort orders by position and loses or adds no fragment. */
  lemma {:induction false} SortByPosCorrect<T>(fs: seq<Fragment<T>>)
    ensures SortedByPos(SortByPos(fs))
    ensures multiset(SortByPos(fs)) == multiset(fs)
  {
    if |fs| > 0 {
      var init := fs[..|fs| - 1];
      assert fs == init + [fs[|fs| - 1]];
      SortByPosCorrect(init);
      InsertByPosSorted(SortByPos(init), fs[|fs| - 1]);
      InsertByPosPermutes(SortByPos(init), fs[|fs| - 1]);
    }
  }

  /** A sorted list is left as it is, which is what makes the sort stable. */
  lemma {:induction false} SortSortedIsIdentity<T>(fs: seq<Fragment<T>>)
    requires SortedByPos(fs)
    ensures SortByPos(fs) == fs
  {
    if |fs| > 0 {
      var init := fs[..|fs| - 1];
      assert fs == init + [fs[|fs| - 1]];
      SortSortedIsIdentity(init);
    }
  }

  /** `arr.at(index)` for the kept indices, without the items equal to
      `undefined`. */
  function DefinedAt(a: seq<JsonValue>, idx: seq<nat>): (r: seq<JsonValue>)
    requires forall j :: 0 <= j < |idx| ==> idx[j] < |a|
    ensures |r| <= |idx|
    ensures forall j :: 0 <= j < |r| ==> r[j] != Undefined && r[j] in a
  {
    if |idx| == 0 then []
    else
      var rest := DefinedAt(a, idx[1..]);
      if a[idx[0]] == Undefined then rest else [a[idx[0]]] + rest
  }

  /** The result of `skipMiddle(arr)` for a non-empty array: the kept items
      and the fragments, shown items then hidden runs, sorted by position. */
  function SkipMiddle(a: seq<JsonValue>): (r: (seq<JsonValue>, seq<Fragment<JsonValue>>))
    requires |a| > 0
    ensures |r.0| <= 3 && forall j :: 0 <= j < |r.0| ==> r.0[j] != Undefined && r.0[j] in a
    ensures SortedByPos(r.1)
    ensures forall f :: f in r.1 && f.Shown? ==> f.pos < |a| && f.value == a[f.pos]
  {
    var idx := SampledIndices(|a|);
    var fs := ShownRanges(a, idx) + HiddenRanges(Pairs(idx));
    SortByPosCorrect(fs);
    assert forall f :: f in SortByPos(fs) ==> f in multiset(fs);
    (DefinedAt(a, idx), SortByPos(fs))
  }

  /** The fragments of `skipMiddle` as they come out: up to three items all
      shown; otherwise the first shown, the `n - 2` middle items hidden, the
      last shown. */
  function ExpectedFragments(a: seq<JsonValue>): (r: seq<Fragment<JsonValue>>)
    requires |a| > 0
    ensures forall j :: 0 <= j < |r| && r[j].Shown? ==> r[j].pos < |a| && r[j].value == a[r[j].pos]
  {
    var n := |a|;
    if n == 1 then [Shown(0, a[0])]
    else if n == 2 then [Shown(0, a[0]), Shown(1, a[1])]
    else if n == 3 then [Shown(0, a[0]), Shown(1, a[1]), Shown(2, a[2])]
    else [Shown(0, a[0]), Hidden(1, n - 2), Shown(n - 1, a[n - 1])]
  }

  /** For four or more items the sort moves the hidden middle between the
      two shown ends. */
  lemma SkipMiddleLong(a: seq<JsonValue>)
    requires |a| >= 4
    ensures SkipMiddle(a).1 == ExpectedFragments(a)
  {
    var n := |a|;
    var idx := SampledIndices(n);
    assert idx == [0, n - 1];
    var ps := Pairs(idx);
    assert ps == [(0, Some(n - 1))];
    assert HiddenRanges(ps[1..]) == [];
    var s0, h, s1 := Shown(0, a[0]), Hidden(1, n - 2), Shown(n - 1, a[n - 1]);
    assert HiddenRanges(ps) == [h];
    var fs := ShownRanges(a, idx) + [h];
    assert fs == [s0, s1, h];
    assert fs[..2] == [s0, s1];
    SortSortedIsIdentity([s0, s1]);
    assert [s0, s1][..1] == [s0];
    assert InsertByPos([s0], h) == [s0, h];
    assert InsertByPos([s0, s1], h) == [s0, h, s1];
  }

  /** Up to three items are all shown and nothing is hidden. */
  lemma SkipMiddleShort(a: seq<JsonValue>)
    requires 1 <= |a| <= 3
    ensures SkipMiddle(a).1 == ExpectedFragments(a)
  {
    var n := |a|;
    var idx := SampledIndices(n);
    var ps := Pairs(idx);
    if n == 1 {
      assert ps == [(0, None)];
    } else if n == 2 {
      assert ps == [(0, Some(1))];
    } else {
      assert ps == [(0, Some(1)), (2, None)];
      assert HiddenRanges(ps[1..]) == [];
    }
    assert HiddenRanges(ps) == [];
    var shown := ShownRanges(a, idx);
    assert shown + [] == shown;
    assert shown == ExpectedFragments(a);
    SortSortedIsIdentity(shown);
  }

  lemma SkipMiddleFragments(a: seq<JsonValue>)
    requires |a| > 0
    ensures SkipMiddle(a).1 == ExpectedFragments(a)
  {
    if |a| >= 4 {
      SkipMiddleLong(a);
    } else {
      SkipMiddleShort(a);
    }
  }

  /** The fragments tile the positions `from .. |a|`: each starts where the
      previous one ended, a shown item covers one position and holds the
      item there, a hidden run covers `skip > 0` positions. */
  predicate Tiles(fs: seq<Fragment<JsonValue>>, a: seq<JsonValue>, from: nat)
    decreases |fs|
  {
    if |fs| == 0 then from == |a|
    else
      fs[0].pos == from &&
      match fs[0]
      case Shown(pos, value) => pos < |a| && value == a[pos] && Tiles(fs[1..], a, from + 1)
      case Hidden(pos, skip) => skip > 0 && Tiles(fs[1..], a, from + skip)
  }

  /** Whatever the length, the fragments of `skipMiddle` account for every
      position of the array exactly once, in order. */
  lemma SkipMiddleTiles(a: seq<JsonValue>)
    requires |a| > 0
    ensures Tiles(SkipMiddle(a).1, a, 0)
  {
    SkipMiddleFragments(a);
    var fs := ExpectedFragments(a);
    var n := |a|;
    if n >= 4 {
      assert Tiles(fs[2..][1..], a, n);
      assert Tiles(fs[1..][1..], a, n - 1);
      assert Tiles(fs[1..], a, 1);
    } else if n == 3 {
      assert Tiles(fs[2..][1..], a, 3);
      assert Tiles(fs[1..][1..], a, 2);
      assert Tiles(fs[1..], a, 1);
    } else if n == 2 {
      assert Tiles(fs[1..][1..], a, 2);
      assert Tiles(fs[1..], a, 1);
    } else {
      assert Tiles(fs[1..], a, 1);
    }
  }

  /** For four or more items only the two ends are kept (when defined). */
  lemma SkipMiddleKeepsEnds(a: seq<JsonValue>)
    requires |a| >= 4 && a[0] != Undefined && a[|a| - 1] != Undefined
    ensures SkipMiddle(a).0 == [a[0], a[|a| - 1]]
  {
    var idx := SampledIndices(|a|);
    assert idx == [0, |a| - 1];
    assert idx[1..][1..] == [];
    assert DefinedAt(a, idx[1..]) == [a[|a| - 1]];
  }

  // ----- sample -----

  /** `sample(object, options)` as written: the fragments of a compressed
      array are copied from `skipMiddle`, so they hold the original items. */
  function SampleAsWritten(opts: Options, v: JsonValue): (r: Sampled)
    ensures IsPrimitive(v) <==> r.SPrim?
    ensures v.Arr? <==> r.SArr? || r.SFragmented?
    ensures v.Str? ==> r == SPrim(Str(TrimText(opts.maxTextLength, v.s)))
    ensures v.Arr? && |v.items| > 0 && opts.arrayCompression == HideMiddle ==>
      r.SFragmented? && forall j :: 0 <= j < |r.fragments| && r.fragments[j].Shown? ==>
        r.fragments[j].pos < |v.items| && r.fragments[j].value == Lift(v.items[r.fragments[j].pos])
    decreases v, 1
  {
    match v
    case Null => SPrim(Null)
    case Arr(items) =>
      if |items| == 0 then SArr([])
      else if opts.arrayCompression == HideMiddle then
        SkipMiddleFragments(items);
        var (kept, frags) := SkipMiddle(items);
        SFragmented(seq(|kept|, j requires 0 <= j < |kept| => SampleAsWritten(opts, kept[j])), LiftFragments(frags))
      else
        SArr(seq(|items|, j requires 0 <= j < |items| => SampleAsWritten(opts, items[j])))
    case Obj(entries) => SObj(SampleEntriesAsWritten(entries))
    case Str(s) => SPrim(Str(TrimText(opts.maxTextLength, s)))
    case _ => SPrim(v)
  }

  /** Object values are sampled with the default options. */
  function SampleEntriesAsWritten(entries: seq<Entry>): (r: seq<SEntry>)
    ensures |r| == |entries|
    decreases entries, 0
  {
    if |entries| == 0 then []
    else [SEntry(entries[0].key, SampleAsWritten(DefaultOptions, entries[0].value))] + SampleEntriesAsWritten(entries[1..])
  }

  function LiftFragment(f: Fragment<JsonValue>): Fragment<Sampled>
  {
    match f
    case Shown(pos, value) => Shown(pos, Lift(value))
    case Hidden(pos, skip) => Hidden(pos, skip)
  }

  function LiftFragments(fs: seq<Fragment<JsonValue>>): (r: seq<Fragment<Sampled>>)
    ensures |r| == |fs| && forall j :: 0 <= j < |r| ==> r[j] == LiftFragment(fs[j])
  {
    seq(|fs|, j requires 0 <= j < |fs| => LiftFragment(fs[j]))
  }

  /** `sample(object, options)` with the shown fragments holding the sampled
      items, so that what is rendered is what was sampled. */
  function Sample(opts: Options, v: JsonValue): (r: Sampled)
    ensures IsPrimitive(v) <==> r.SPrim?
    ensures v.Arr? <==> r.SArr? || r.SFragmented?
    ensures v.Str? ==> r == SPrim(Str(TrimText(opts.maxTextLength, v.s)))
    ensures IsPrimitive(v) && !v.Str? ==> r == SPrim(v)
    ensures v == Arr([]) ==> r == SArr([])
    ensures v.Obj? ==>
      && r.SObj? && |r.entries| == |v.entries|
      && forall j :: 0 <= j < |v.entries| ==> r.entries[j].key == v.entries[j].key
    ensures v.Arr? && |v.items| > 0 && opts.arrayCompression == HideMiddle ==>
      r.SFragmented? && forall j :: 0 <= j < |r.fragments| && r.fragments[j].Shown? ==>
        r.fragments[j].pos < |v.items| && r.fragments[j].value == Sample(opts, v.items[r.fragments[j].pos])
    decreases v, 2
  {
    match v
    case Null => SPrim(Null)
    case Arr(items) =>
      if |items| == 0 then SArr([])
      else if opts.arrayCompression == HideMiddle then
        SkipMiddleFragments(items);
        var (kept, frags) := SkipMiddle(items);
        SFragmented(seq(|kept|, j requires 0 <= j < |kept| => Sample(opts, kept[j])), SampleFragments(opts, items, frags))
      else
        SArr(seq(|items|, j requires 0 <= j < |items| => Sample(opts, items[j])))
    case Obj(entries) => SObj(SampleEntries(entries))
    case Str(s) => SPrim(Str(TrimText(opts.maxTextLength, s)))
    case _ => SPrim(v)
  }

  /** A shown fragment of `items` carries the sample of its item. */
  function SampleFragment(opts: Options, items: seq<JsonValue>, f: Fragment<JsonValue>): Fragment<Sampled>
    requires f.Shown? ==> f.pos < |items|
    decreases items, 0
  {
    match f
    case Shown(pos, _) => Shown(pos, Sample(opts, items[pos]))
    case Hidden(pos, skip) => Hidden(pos, skip)
  }

  function SampleFragments(opts: Options, items: seq<JsonValue>, fs: seq<Fragment<JsonValue>>): (r: seq<Fragment<Sampled>>)
    requires forall j :: 0 <= j < |fs| && fs[j].Shown? ==> fs[j].pos < |items|
    ensures |r| == |fs| && forall j :: 0 <= j < |r| ==> r[j] == SampleFragment(opts, items, fs[j])
    decreases items, 1
  {
    seq(|fs|, j requires 0 <= j < |fs| => SampleFragment(opts, items, fs[j]))
  }

  function SampleEntries(entries: seq<Entry>): (r: seq<SEntry>)
    ensures |r| == |entries|
    ensures forall j :: 0 <= j < |r| ==> r[j].key == entries[j].key
    decreases entries, 0
  {
    if |entries| == 0 then []
    else [SEntry(entries[0].key, Sample(DefaultOptions, entries[0].value))] + SampleEntries(entries[1..])
  }

  /** The values of an object are sampled with the default options, not
      the ones given: the options never reach below an object. */
  lemma {:induction false} ObjectValuesUseDefaults(opts: Options, entries: seq<Entry>)
    ensures Sample(opts, Obj(entries)) == Sample(DefaultOptions, Obj(entries))
    ensures Sample(opts, Obj(entries)).SObj?
    ensures forall j :: 0 <= j < |entries| ==>
      Sample(opts, Obj(entries)).entries[j] == SEntry(entries[j].key, Sample(DefaultOptions, entries[j].value))
  {
    SampleEntriesValues(entries);
  }

  lemma {:induction false} SampleEntriesValues(entries: seq<Entry>)
    ensures forall j :: 0 <= j < |entries| ==> SampleEntries(entries)[j].value == Sample(DefaultOptions, entries[j].value)
  {
    if |entries| > 0 {
      SampleEntriesValues(entries[1..]);
    }
  }

  /** So a string inside an object is cut at 48 characters even when a
      shorter limit was asked for. */
  lemma NestedStringUsesDefaultLimit(s: string)
    ensures Sample(Options(5, HideMiddle), Obj([Entry("k", Str(s))])).entries == [SEntry("k", SPrim(Str(TrimText(48, s))))]
  {
    ObjectValuesUseDefaults(Options(5, HideMiddle), [Entry("k", Str(s))]);
  }

  /** Without compression every item is kept, each sampled. */
  lemma NoCompressionKeepsAll(opts: Options, items: seq<JsonValue>)
    requires opts.arrayCompression == NoCompression
    ensures Sample(opts, Arr(items)).SArr?
    ensures |Sample(opts, Arr(items)).items| == |items|
    ensures forall j :: 0 <= j < |items| ==> Sample(opts, Arr(items)).items[j] == Sample(opts, items[j])
  {
  }

  /** With compression the fragments describe the whole array: shown
      positions hold the samples of the items there and hidden runs cover
      the rest, in order. */
  lemma {:induction false} HideMiddleFragments(opts: Options, items: seq<JsonValue>)
    requires opts.arrayCompression == HideMiddle && |items| > 0
    ensures Sample(opts, Arr(items)).SFragmented?
    ensures var fs := Sample(opts, Arr(items)).fragments;
      |fs| == |ExpectedFragments(items)|
      && forall j :: 0 <= j < |fs| ==> fs[j] == SampleFragment(opts, items, ExpectedFragments(items)[j])
  {
    SkipMiddleFragments(items);
  }

  /** The finding: for a compressed array holding one string longer than the
      limit, the fragment copied from `skipMiddle` holds the whole string,
      while the sampled item is cut. */
  lemma AsWrittenKeepsLongString(opts: Options, s: string)
    requires opts.arrayCompression == HideMiddle && |s| > opts.maxTextLength
    ensures SampleAsWritten(opts, Arr([Str(s)])).items == [SPrim(Str(TrimText(opts.maxTextLength, s)))]
    ensures SampleAsWritten(opts, Arr([Str(s)])).fragments == [Shown(0, SPrim(Str(s)))]
    ensures Sample(opts, Arr([Str(s)])).fragments == [Shown(0, SPrim(Str(TrimText(opts.maxTextLength, s))))]
  {
    var a := [Str(s)];
    SkipMiddleFragments(a);
    assert SampledIndices(1) == [0];
    assert DefinedAt(a, [0]) == [Str(s)];
    assert SkipMiddle(a).0 == [Str(s)];
    assert ExpectedFragments(a) == [Shown(0, Str(s))];
    assert LiftFragments([Shown(0, Str(s))]) == [Shown(0, SPrim(Str(s)))];
    assert SampleFragments(opts, a, [Shown(0, Str(s))]) == [Shown(0, SPrim(Str(TrimText(opts.maxTextLength, s))))];
  }

  // ----- stringifySample -----

  /** `JSON.stringify` of a primitive (`undefined` gives no string, which
      the renderer shows as `undefined`). */
  function PrimitiveText(v: Primitive): (t: string)
    ensures |t| >= 1
  {
    match v
    case Null => "null"
    case Undefined => "undefined"
    case Bool(b) => if b then "true" else "false"
    case Num(n) => IntToString(n)
    case Str(s) => JsonString.Quote(s)
  }

  /** A rendering and whether it is a `PrimitiveString`. */
  datatype Rendered = Rendered(text: string, primitive: bool)

  /** The text shown for a hidden run. */
  function SkipText(skip: nat): string
  {
    "...(" + NatToString(skip) + " " + (if skip > 1 then "items" else "item") + ")"
  }

  predicate AllPrimitive(rs: seq<Rendered>)
  {
    forall j :: 0 <= j < |rs| ==> rs[j].primitive
  }

  function Texts(rs: seq<Rendered>): (r: seq<string>)
    ensures |r| == |rs| && forall j :: 0 <= j < |rs| ==> r[j] == rs[j].text
  {
    seq(|rs|, j requires 0 <= j < |rs| => rs[j].text)
  }

  /** Each line prefixed with `indent` spaces. */
  function Indented(indent: nat, lines: seq<string>): (r: seq<string>)
    ensures |r| == |lines| && forall j :: 0 <= j < |r| ==> r[j] == Spaces(indent) + lines[j]
  {
    seq(|lines|, j requires 0 <= j < |lines| => Spaces(indent) + lines[j])
  }

  /** The array layout: on one line when every item is primitive, otherwise
      one item per line, indented, with the closing bracket two spaces
      further out. */
  function ArrayLayout(indent: nat, rs: seq<Rendered>): (r: Rendered)
    requires indent >= 2
    ensures !r.primitive
    ensures |r.text| >= 2 && r.text[0] == '[' && r.text[|r.text| - 1] == ']'
  {
    if AllPrimitive(rs) then Rendered("[" + Join(Texts(rs), ", ") + "]", false)
    else Rendered("[\n" + Join(Indented(indent, Texts(rs)), ",\n") + "\n" + Spaces(indent - 2) + "]", false)
  }

  /** `"key": value`; the key is written as is, without escaping. */
  function Member(key: string, value: string): string
  {
    "\"" + key + "\": " + value
  }

  function Members(keys: seq<string>, rs: seq<Rendered>): (r: seq<string>)
    requires |keys| == |rs|
    ensures |r| == |rs| && forall j :: 0 <= j < |r| ==> r[j] == Member(keys[j], rs[j].text)
  {
    seq(|rs|, j requires 0 <= j < |rs| => Member(keys[j], rs[j].text))
  }

  /** The object layout: `{}` when empty, on one line when every value is
      primitive, otherwise one member per line. */
  function ObjectLayout(indent: nat, keys: seq<string>, rs: seq<Rendered>): (r: Rendered)
    requires indent >= 2 && |keys| == |rs|
    ensures !r.primitive
    ensures |r.text| >= 2 && r.text[0] == '{' && r.text[|r.text| - 1] == '}'
  {
    if AllPrimitive(rs) then
      Rendered(if |rs| == 0 then "{}" else "{ " + Join(Members(keys, rs), ", ") + " }", false)
    else
      Rendered("{\n" + Join(Indented(indent, Members(keys, rs)), ",\n") + "\n" + Spaces(indent - 2) + "}", false)
  }

  /** `stringifySampleInternal({ lineIndent }, value)`: only primitives and
      hidden runs render as `PrimitiveString`s. */
  function Render(indent: nat, v: Sampled): (r: Rendered)
    requires indent >= 2
    ensures r.primitive <==> v.SPrim?
    decreases v, 2
  {
    match v
    case SPrim(p) => Rendered(PrimitiveText(p), true)
    case SArr(items) => ArrayLayout(indent, RenderItems(indent + 2, items))
    case SFragmented(_, frags) => ArrayLayout(indent, RenderFragments(indent + 2, frags))
    case SObj(entries) => ObjectLayout(indent, Keys(entries), RenderValues(indent + 2, entries))
  }

  function RenderItems(indent: nat, items: seq<Sampled>): (r: seq<Rendered>)
    requires indent >= 2
    ensures |r| == |items|
    ensures forall j :: 0 <= j < |r| ==> r[j] == Render(indent, items[j])
    decreases items, 1
  {
    seq(|items|, j requires 0 <= j < |items| => Render(indent, items[j]))
  }

  /** A hidden run (with a non-zero count) renders as its count; any other
      fragment renders its value. */
  function RenderFragment(indent: nat, f: Fragment<Sampled>): (r: Rendered)
    requires indent >= 2
    decreases f, 0
  {
    match f
    case Hidden(_, skip) => Rendered(if skip > 0 then SkipText(skip) else "undefined", true)
    case Shown(_, value) => Render(indent, value)
  }

  function RenderFragments(indent: nat, fs: seq<Fragment<Sampled>>): (r: seq<Rendered>)
    requires indent >= 2
    ensures |r| == |fs|
    ensures forall j :: 0 <= j < |r| ==> r[j] == RenderFragment(indent, fs[j])
    decreases fs, 1
  {
    seq(|fs|, j requires 0 <= j < |fs| => RenderFragment(indent, fs[j]))
  }

  function Keys(entries: seq<SEntry>): (r: seq<string>)
    ensures |r| == |entries| && forall j :: 0 <= j < |r| ==> r[j] == entries[j].key
  {
    seq(|entries|, j requires 0 <= j < |entries| => entries[j].key)
  }

  function RenderValues(indent: nat, entries: seq<SEntry>): (r: seq<Rendered>)
    requires indent >= 2
    ensures |r| == |entries|
    ensures forall j :: 0 <= j < |r| ==> r[j] == Render(indent, entries[j].value)
    decreases entries, 1
  {
    seq(|entries|, j requires 0 <= j < |entries| => Render(indent, entries[j].value))
  }

  /** `stringifySample(value)`. */
  function StringifySample(v: Sampled): (r: string)
    ensures v.SPrim? ==> r == PrimitiveText(v.v)
    ensures v.SArr? || v.SFragmented? ==> |r| >= 2 && r[0] == '[' && r[|r| - 1] == ']'
    ensures v.SObj? ==> |r| >= 2 && r[0] == '{' && r[|r| - 1] == '}'
  {
    Render(2, v).text
  }

  /** `getSample(input, options)`. */
  function GetSample(opts: Options, v: JsonValue): (r: string)
    ensures v.Str? ==> r == JsonString.Quote(TrimText(opts.maxTextLength, v.s))
    ensures IsPrimitive(v) && !v.Str? ==> r == PrimitiveText(v)
    ensures v.Arr? ==> |r| >= 2 && r[0] == '[' && r[|r| - 1] == ']'
    ensures v.Obj? ==> |r| >= 2 && r[0] == '{' && r[|r| - 1] == '}'
  {
    StringifySample(Sample(opts, v))
  }

  /** `getSample` as written, rendering the original items of compressed
      arrays. */
  function GetSampleAsWritten(opts: Options, v: JsonValue): (r: string)
    ensures IsPrimitive(v) ==> r == GetSample(opts, v)
    ensures v.Arr? ==> |r| >= 2 && r[0] == '[' && r[|r| - 1] == ']'
  {
    StringifySample(SampleAsWritten(opts, v))
  }

  /** An array whose only fragment shows a string renders as that string
      quoted, in brackets. */
  lemma RenderOneString(items: seq<Sampled>, x: string)
    ensures Render(2, SFragmented(items, [Shown(0, SPrim(Str(x)))])).text == "[" + JsonString.Quote(x) + "]"
  {
    var q := JsonString.Quote(x);
    assert Render(4, SPrim(Str(x))) == Rendered(q, true);
    assert RenderFragment(4, Shown(0, SPrim(Str(x)))) == Rendered(q, true);
    var rs := RenderFragments(4, [Shown(0, SPrim(Str(x)))]);
    assert rs == [Rendered(q, true)];
    assert Texts(rs) == [q];
    assert Join([q], ", ") == q;
  }

  /** The finding, as text: for an array holding one string longer than the
      limit, the as-written output shows the whole string in quotes, the
      corrected output shows it cut; the two differ unless the string
      already ends in the marker. */
  lemma AsWrittenRendersUncut(opts: Options, s: string)
    requires opts.arrayCompression == HideMiddle && |s| > opts.maxTextLength
    ensures GetSampleAsWritten(opts, Arr([Str(s)])) == "[" + JsonString.Quote(s) + "]"
    ensures GetSample(opts, Arr([Str(s)])) == "[" + JsonString.Quote(TrimText(opts.maxTextLength, s)) + "]"
    ensures |s| > opts.maxTextLength + 3 ==> GetSampleAsWritten(opts, Arr([Str(s)])) != GetSample(opts, Arr([Str(s)]))
  {
    AsWrittenKeepsLongString(opts, s);
    var t := TrimText(opts.maxTextLength, s);
    RenderOneString(SampleAsWritten(opts, Arr([Str(s)])).items, s);
    RenderOneString(Sample(opts, Arr([Str(s)])).items, t);
    if GetSampleAsWritten(opts, Arr([Str(s)])) == GetSample(opts, Arr([Str(s)])) {
      var qs, qt := JsonString.Quote(s), JsonString.Quote(t);
      assert ("[" + qs + "]")[1..|qs| + 1] == qs;
      assert ("[" + qt + "]")[1..|qt| + 1] == qt;
      JsonString.QuoteInjective(s, t);
    }
  }

  // ----- properties of the rendering -----

  /** A primitive renders on one line. */
  lemma PrimitiveTextOneLine(v: Primitive)
    ensures '\n' !in PrimitiveText(v)
  {
    match v
    case Str(s) => JsonString.QuoteNoControl(s);
    case _ =>
  }

  /** An array renders on one line exactly when every item renders as a
      `PrimitiveString`, provided no item text holds a line break. */
  lemma ArrayLayoutOneLine(indent: nat, rs: seq<Rendered>)
    requires indent >= 2
    requires forall j :: 0 <= j < |rs| ==> '\n' !in rs[j].text
    ensures '\n' in ArrayLayout(indent, rs).text <==> !AllPrimitive(rs)
  {
    var t := ArrayLayout(indent, rs).text;
    if AllPrimitive(rs) {
      JoinAvoids(Texts(rs), ", ", '\n');
    } else {
      assert t[1] == '\n';
    }
  }

  /** A plain array of sampled values renders on one line exactly when all
      its items are primitives. */
  lemma ArrayOneLine(indent: nat, items: seq<Sampled>)
    requires indent >= 2
    ensures '\n' in Render(indent, SArr(items)).text <==> exists j :: 0 <= j < |items| && !items[j].SPrim?
  {
    var rs := RenderItems(indent + 2, items);
    forall j | 0 <= j < |rs| && items[j].SPrim?
      ensures '\n' !in rs[j].text
    {
      PrimitiveTextOneLine(items[j].v);
    }
    if forall j :: 0 <= j < |items| ==> items[j].SPrim? {
      ArrayLayoutOneLine(indent, rs);
    } else {
      var j :| 0 <= j < |items| && !items[j].SPrim?;
      assert !rs[j].primitive;
      assert Render(indent, SArr(items)).text[1] == '\n';
    }
  }

  /** An object renders on one line exactly when every value renders as a
      `PrimitiveString`, provided no key and no value text holds a line
      break (keys are written unescaped). */
  lemma ObjectLayoutOneLine(indent: nat, keys: seq<string>, rs: seq<Rendered>)
    requires indent >= 2 && |keys| == |rs|
    requires forall j :: 0 <= j < |rs| ==> '\n' !in keys[j] && '\n' !in rs[j].text
    ensures '\n' in ObjectLayout(indent, keys, rs).text <==> !AllPrimitive(rs)
  {
    if AllPrimitive(rs) {
      var ms := Members(keys, rs);
      forall j | 0 <= j < |ms|
        ensures '\n' !in ms[j]
      {
        assert ms[j] == "\"" + keys[j] + "\": " + rs[j].text;
      }
      JoinAvoids(ms, ", ", '\n');
    } else {
      assert ObjectLayout(indent, keys, rs).text[1] == '\n';
    }
  }

  /** A sampled object renders on one line exactly when all its values are
      primitives (given keys without line breaks); with no entries it is
      `{}`. */
  lemma ObjectOneLine(indent: nat, entries: seq<SEntry>)
    requires indent >= 2
    requires forall j :: 0 <= j < |entries| ==> '\n' !in entries[j].key
    ensures '\n' in Render(indent, SObj(entries)).text <==> exists j :: 0 <= j < |entries| && !entries[j].value.SPrim?
    ensures |entries| == 0 ==> Render(indent, SObj(entries)).text == "{}"
  {
    var keys, rs := Keys(entries), RenderValues(indent + 2, entries);
    forall j | 0 <= j < |rs| && entries[j].value.SPrim?
      ensures '\n' !in rs[j].text
    {
      PrimitiveTextOneLine(entries[j].value.v);
    }
    assert Render(indent, SObj(entries)) == ObjectLayout(indent, keys, rs);
    if forall j :: 0 <= j < |entries| ==> entries[j].value.SPrim? {
      ObjectLayoutOneLine(indent, keys, rs);
    } else {
      var j :| 0 <= j < |entries| && !entries[j].value.SPrim?;
      assert !rs[j].primitive;
      assert !AllPrimitive(rs);
      assert ObjectLayout(indent, keys, rs).text[1] == '\n';
    }
  }

  /** The one-line form: `{ "key": value, ... }` with each value as
      `JSON.stringify` writes it. */
  lemma ObjectOfPrimitives(indent: nat, entries: seq<SEntry>)
    requires indent >= 2 && |entries| > 0
    requires forall j :: 0 <= j < |entries| ==> entries[j].value.SPrim?
    ensures Render(indent, SObj(entries)).text ==
      "{ " + Join(seq(|entries|, j requires 0 <= j < |entries| => Member(entries[j].key, PrimitiveText(entries[j].value.v))), ", ") + " }"
  {
    var keys, rs := Keys(entries), RenderValues(indent + 2, entries);
    assert AllPrimitive(rs);
    assert Members(keys, rs) == seq(|entries|, j requires 0 <= j < |entries| => Member(entries[j].key, PrimitiveText(entries[j].value.v)));
  }

  /** The multi-line form: one line per entry, indented, holding the key in
      quotes and the value rendered two spaces deeper, with the closing brace
      two spaces further out. */
  lemma ObjectOfContainers(indent: nat, entries: seq<SEntry>)
    requires indent >= 2
    requires exists j :: 0 <= j < |entries| && !entries[j].value.SPrim?
    ensures Render(indent, SObj(entries)).text ==
      "{\n" + Join(seq(|entries|, j requires 0 <= j < |entries| =>
        Spaces(indent) + Member(entries[j].key, Render(indent + 2, entries[j].value).text)), ",\n")
      + "\n" + Spaces(indent - 2) + "}"
  {
    var keys, rs := Keys(entries), RenderValues(indent + 2, entries);
    var j :| 0 <= j < |entries| && !entries[j].value.SPrim?;
    assert !rs[j].primitive;
    var lines := seq(|entries|, j requires 0 <= j < |entries| =>
        Spaces(indent) + Member(entries[j].key, Render(indent + 2, entries[j].value).text));
    var ind := Indented(indent, Members(keys, rs));
    forall i | 0 <= i < |lines|
      ensures ind[i] == lines[i]
    {
    }
    assert ind == lines;
  }

  /** An object of one primitive member. */
  lemma OnePrimitiveMember(indent: nat, k: string, p: Primitive)
    requires indent >= 2
    ensures Render(indent, SObj([SEntry(k, SPrim(p))])).text == "{ \"" + k + "\": " + PrimitiveText(p) + " }"
  {
    ObjectOfPrimitives(indent, [SEntry(k, SPrim(p))]);
    var ms := seq(1, j requires 0 <= j < 1 => Member(k, PrimitiveText(p)));
    assert ms == [Member(k, PrimitiveText(p))];
  }

  /** An object of one container member. */
  lemma OneContainerMember(indent: nat, k: string, v: Sampled)
    requires indent >= 2 && !v.SPrim?
    ensures Render(indent, SObj([SEntry(k, v)])).text ==
      "{\n" + Spaces(indent) + "\"" + k + "\": " + Render(indent + 2, v).text + "\n" + Spaces(indent - 2) + "}"
  {
    var e := [SEntry(k, v)];
    var rv := Render(indent + 2, v);
    assert Keys(e) == [k];
    assert RenderValues(indent + 2, e) == [rv];
    OneContainerLayout(indent, k, rv);
  }

  lemma OneContainerLayout(indent: nat, k: string, rv: Rendered)
    requires indent >= 2 && !rv.primitive
    ensures ObjectLayout(indent, [k], [rv]).text ==
      "{\n" + Spaces(indent) + "\"" + k + "\": " + rv.text + "\n" + Spaces(indent - 2) + "}"
  {
    assert [rv][0] == rv;
    assert !AllPrimitive([rv]);
    var line := Spaces(indent) + Member(k, rv.text);
    assert Indented(indent, Members([k], [rv])) == [line];
    assert ObjectLayout(indent, [k], [rv]).text == "{\n" + line + "\n" + Spaces(indent - 2) + "}";
  }

  /** An object of five primitive members, on one line. */
  lemma FivePrimitiveMembers(es: seq<SEntry>)
    requires |es| == 5 && forall j :: 0 <= j < 5 ==> es[j].value.SPrim?
    ensures StringifySample(SObj(es)) ==
      "{ " + (PrimitiveMember(es[0]) + ", " + (PrimitiveMember(es[1]) + ", " + (PrimitiveMember(es[2]) + ", " +
        (PrimitiveMember(es[3]) + ", " + PrimitiveMember(es[4]))))) + " }"
  {
    ObjectOfPrimitives(2, es);
    var ms := seq(|es|, j requires 0 <= j < |es| => Member(es[j].key, PrimitiveText(es[j].value.v)));
    var five := [PrimitiveMember(es[0]), PrimitiveMember(es[1]), PrimitiveMember(es[2]), PrimitiveMember(es[3]), PrimitiveMember(es[4])];
    forall i | 0 <= i < 5
      ensures ms[i] == five[i]
    {
    }
    assert ms == five;
    JoinFive(five[0], five[1], five[2], five[3], five[4], ", ");
  }

  /** `"key": value` for a member whose value is primitive. */
  function PrimitiveMember(e: SEntry): string
    requires e.value.SPrim?
  {
    Member(e.key, PrimitiveText(e.value.v))
  }

  lemma JoinFive(a: string, b: string, c: string, d: string, e: string, sep: string)
    ensures Join([a, b, c, d, e], sep) == a + sep + (b + sep + (c + sep + (d + sep + e)))
  {
    assert [a, b, c, d, e][1..] == [b, c, d, e];
    assert [b, c, d, e][1..] == [c, d, e];
    assert [c, d, e][1..] == [d, e];
    assert [d, e][1..] == [e];
    assert Join([e], sep) == e;
    assert Join([d, e], sep) == d + sep + e;
    assert Join([c, d, e], sep) == c + sep + (d + sep + e);
    assert Join([b, c, d, e], sep) == b + sep + (c + sep + (d + sep + e));
  }

  /** `stringifySample({ a: null, b: 0, c: "a", d: undefined, e: true })`:
      all values primitive, so one line. */
  lemma PrimitiveObjectText()
    ensures StringifySample(SObj([SEntry("a", SPrim(Null)), SEntry("b", SPrim(Num(0))), SEntry("c", SPrim(Str("a"))),
                                  SEntry("d", SPrim(Undefined)), SEntry("e", SPrim(Bool(true)))]))
      == "{ \"a\": null, \"b\": 0, \"c\": \"a\", \"d\": undefined, \"e\": true }"
  {
    var es := [SEntry("a", SPrim(Null)), SEntry("b", SPrim(Num(0))), SEntry("c", SPrim(Str("a"))),
               SEntry("d", SPrim(Undefined)), SEntry("e", SPrim(Bool(true)))];
    FivePrimitiveMembers(es);
    PrimitiveMembersText(es);
    PrimitiveObjectLine();
  }

  lemma PrimitiveMembersText(es: seq<SEntry>)
    requires es == [SEntry("a", SPrim(Null)), SEntry("b", SPrim(Num(0))), SEntry("c", SPrim(Str("a"))),
                    SEntry("d", SPrim(Undefined)), SEntry("e", SPrim(Bool(true)))]
    ensures PrimitiveMember(es[0]) == "\"a\": null"
    ensures PrimitiveMember(es[1]) == "\"b\": 0"
    ensures PrimitiveMember(es[2]) == "\"c\": \"a\""
    ensures PrimitiveMember(es[3]) == "\"d\": undefined"
    ensures PrimitiveMember(es[4]) == "\"e\": true"
  {
    MemberText("a", "null");
    assert IntToString(0) == "0";
    MemberText("b", "0");
    QuoteA();
    MemberText("c", "\"a\"");
    MemberText("d", "undefined");
    MemberText("e", "true");
  }

  lemma MemberText(k: string, t: string)
    ensures Member(k, t) == "\"" + k + "\": " + t
  {
  }

  lemma QuoteA()
    ensures PrimitiveText(Str("a")) == "\"a\""
  {
    assert JsonString.Escape("a") == "a";
  }

  lemma PrimitiveObjectLine()
    ensures "{ " + ("\"a\": null" + ", " + ("\"b\": 0" + ", " + ("\"c\": \"a\"" + ", " +
        ("\"d\": undefined" + ", " + "\"e\": true")))) + " }"
      == "{ \"a\": null, \"b\": 0, \"c\": \"a\", \"d\": undefined, \"e\": true }"
  {
    LeftNested("{ ", "\"a\": null", "\"b\": 0", "\"c\": \"a\"", "\"d\": undefined", "\"e\": true", ", ", " }");
    var t := "{ " + "\"a\": null";
    assert t == "{ \"a\": null";
    t := t + ", " + "\"b\": 0";
    assert t == "{ \"a\": null, \"b\": 0";
    t := t + ", " + "\"c\": \"a\"";
    assert t == "{ \"a\": null, \"b\": 0, \"c\": \"a\"";
    t := t + ", " + "\"d\": undefined";
    assert t == "{ \"a\": null, \"b\": 0, \"c\": \"a\", \"d\": undefined";
    t := t + ", " + "\"e\": true";
    assert t == "{ \"a\": null, \"b\": 0, \"c\": \"a\", \"d\": undefined, \"e\": true";
    t := t + " }";
    assert t == "{ \"a\": null, \"b\": 0, \"c\": \"a\", \"d\": undefined, \"e\": true }";
  }

  lemma LeftNested(open: string, a: string, b: string, c: string, d: string, e: string, sep: string, close: string)
    ensures open + (a + sep + (b + sep + (c + sep + (d + sep + e)))) + close
         == open + a + sep + b + sep + c + sep + d + sep + e + close
  {
  }

  /** `stringifySample({})` is `{}`, and so is `getSample({})`. */
  lemma EmptyObjectText(opts: Options)
    ensures StringifySample(SObj([])) == "{}"
    ensures GetSample(opts, Obj([])) == "{}"
  {
    ObjectOneLine(2, []);
    assert Sample(opts, Obj([])) == SObj([]);
  }

  /** Three nested single-member objects: the two outer levels are spread
      over lines, the innermost stays on one line. */
  lemma NestedObjects(ka: string, kb: string, kc: string, x: Primitive)
    ensures StringifySample(SObj([SEntry(ka, SObj([SEntry(kb, SObj([SEntry(kc, SPrim(x))]))]))]))
      == "{\n" +
         ("  \"" + ka + "\": {\n") +
         ("    \"" + kb + "\": { \"" + kc + "\": " + PrimitiveText(x) + " }\n") +
         "  }\n" +
         "}"
  {
    var c := SObj([SEntry(kc, SPrim(x))]);
    var b := SObj([SEntry(kb, c)]);
    var tc := "{ \"" + kc + "\": " + PrimitiveText(x) + " }";
    OnePrimitiveMember(6, kc, x);
    assert Render(6, c).text == tc;
    var tb := "{\n" + "    " + "\"" + kb + "\": " + tc + "\n" + "  " + "}";
    OneContainerMember(4, kb, c);
    assert Spaces(4) == "    " && Spaces(2) == "  ";
    assert Render(4, b).text == tb;
    var ta := "{\n" + "  " + "\"" + ka + "\": " + tb + "\n" + "" + "}";
    OneContainerMember(2, ka, b);
    assert Spaces(0) == "";
    assert Render(2, SObj([SEntry(ka, b)])).text == ta;
    ConcatAssoc(ka, kb, kc, PrimitiveText(x));
  }

  lemma ConcatAssoc(ka: string, kb: string, kc: string, t: string)
    ensures "{\n" + "  " + "\"" + ka + "\": " +
              ("{\n" + "    " + "\"" + kb + "\": " + ("{ \"" + kc + "\": " + t + " }") + "\n" + "  " + "}")
            + "\n" + "" + "}"
         == "{\n" +
            ("  \"" + ka + "\": {\n") +
            ("    \"" + kb + "\": { \"" + kc + "\": " + t + " }\n") +
            "  }\n" +
            "}"
  {
  }

  /** `stringifySample({ a: { b: { c: 1 } } })`, line by line. */
  lemma NestedObjectText()
    ensures StringifySample(SObj([SEntry("a", SObj([SEntry("b", SObj([SEntry("c", SPrim(Num(1)))]))]))]))
      == "{\n" +
         "  \"a\": {\n" +
         "    \"b\": { \"c\": 1 }\n" +
         "  }\n" +
         "}"
  {
    NestedObjects("a", "b", "c", Num(1));
    NestedLines();
  }

  lemma NestedLines()
    ensures "  \"" + "a" + "\": {\n" == "  \"a\": {\n"
    ensures "    \"" + "b" + "\": { \"" + "c" + "\": " + PrimitiveText(Num(1)) + " }\n" == "    \"b\": { \"c\": 1 }\n"
  {
    assert PrimitiveText(Num(1)) == "1";
  }

  /** With compression, an array of four or more items is shown as its
      first item, the count of hidden items and its last item. */
  lemma LongArrayRendering(opts: Options, a: seq<JsonValue>)
    requires opts.arrayCompression == HideMiddle && |a| >= 4
    ensures GetSample(opts, Arr(a)) == ArrayLayout(2, [
      Render(4, Sample(opts, a[0])),
      Rendered(SkipText(|a| - 2), true),
      Render(4, Sample(opts, a[|a| - 1]))]).text
  {
    var n := |a|;
    HideMiddleLong(opts, a);
    var s := Sample(opts, Arr(a));
    var x, y := Sample(opts, a[0]), Sample(opts, a[n - 1]);
    var k: nat := n - 2;
    assert k + 1 == n - 1;
    var v := SFragmented(s.items, [Shown(0, x), Hidden(1, k), Shown(k + 1, y)]);
    assert s == v;
    RenderThree(s.items, x, k, y);
    assert GetSample(opts, Arr(a)) == Render(2, v).text;
  }

  lemma HideMiddleLong(opts: Options, a: seq<JsonValue>)
    requires opts.arrayCompression == HideMiddle && |a| >= 4
    ensures Sample(opts, Arr(a)) == SFragmented(Sample(opts, Arr(a)).items,
      [Shown(0, Sample(opts, a[0])), Hidden(1, |a| - 2), Shown(|a| - 1, Sample(opts, a[|a| - 1]))])
  {
    HideMiddleFragments(opts, a);
    LongFragments(opts, a);
  }

  lemma LongFragments(opts: Options, a: seq<JsonValue>)
    requires |a| >= 4
    ensures |ExpectedFragments(a)| == 3
    ensures SampleFragment(opts, a, ExpectedFragments(a)[0]) == Shown(0, Sample(opts, a[0]))
    ensures SampleFragment(opts, a, ExpectedFragments(a)[1]) == Hidden(1, |a| - 2)
    ensures SampleFragment(opts, a, ExpectedFragments(a)[2]) == Shown(|a| - 1, Sample(opts, a[|a| - 1]))
  {
  }

  lemma RenderThree(items: seq<Sampled>, x: Sampled, k: nat, y: Sampled)
    requires k > 0
    ensures Render(2, SFragmented(items, [Shown(0, x), Hidden(1, k), Shown(k + 1, y)])).text
      == ArrayLayout(2, [Render(4, x), Rendered(SkipText(k), true), Render(4, y)]).text
  {
    var fs := [Shown(0, x), Hidden(1, k), Shown(k + 1, y)];
    assert RenderFragments(4, fs) == [Render(4, x), Rendered(SkipText(k), true), Render(4, y)];
  }

  /** A long array of numbers: `[first, ...(k items), last]`. */
  lemma LongNumberArray(opts: Options, a: seq<JsonValue>, x: int, y: int)
    requires opts.arrayCompression == HideMiddle && |a| >= 4
    requires a[0] == Num(x) && a[|a| - 1] == Num(y)
    ensures GetSample(opts, Arr(a)) == "[" + IntToString(x) + ", " + SkipText(|a| - 2) + ", " + IntToString(y) + "]"
  {
    LongArrayRendering(opts, a);
    var sx, sy := Sample(opts, a[0]), Sample(opts, a[|a| - 1]);
    assert sx == SPrim(Num(x)) && sy == SPrim(Num(y));
    var rx, ry := Render(4, sx), Render(4, sy);
    assert rx == Rendered(IntToString(x), true);
    assert ry == Rendered(IntToString(y), true);
    var parts := [IntToString(x), SkipText(|a| - 2), IntToString(y)];
    var rs := [rx, Rendered(SkipText(|a| - 2), true), ry];
    assert AllPrimitive(rs);
    assert Texts(rs) == parts;
    assert ArrayLayout(2, rs).text == "[" + Join(parts, ", ") + "]";
    JoinThree(IntToString(x), SkipText(|a| - 2), IntToString(y), ", ");
    Bracketed(IntToString(x), SkipText(|a| - 2), IntToString(y));
  }

  lemma Bracketed(x: string, k: string, y: string)
    ensures "[" + (x + ", " + k + ", " + y) + "]" == "[" + x + ", " + k + ", " + y + "]"
  {
  }

  /** `getSample` of ten numbers from 0 to 9: only the ends are shown. */
  lemma TenNumbers(a: seq<JsonValue>)
    requires |a| == 10 && a[0] == Num(0) && a[9] == Num(9)
    ensures GetSample(DefaultOptions, Arr(a)) == "[0, ...(8 items), 9]"
  {
    LongNumberArray(DefaultOptions, a, 0, 9);
    TenNumbersText();
  }

  lemma TenNumbersText()
    ensures "[" + IntToString(0) + ", " + SkipText(8) + ", " + IntToString(9) + "]" == "[0, ...(8 items), 9]"
  {
    SkipEight();
    assert IntToString(0) == "0";
    assert IntToString(9) == "9";
    assert "[" + "0" == "[0";
    assert "[0" + ", " == "[0, ";
    assert "[0, " + "...(8 items)" == "[0, ...(8 items)";
    assert "[0, ...(8 items)" + ", " == "[0, ...(8 items), ";
    assert "[0, ...(8 items), " + "9" == "[0, ...(8 items), 9";
    assert "[0, ...(8 items), 9" + "]" == "[0, ...(8 items), 9]";
  }

  lemma SkipEight()
    ensures SkipText(8) == "...(8 items)"
  {
    assert NatToString(8) == "8";
  }
}
