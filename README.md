# torex in Dafny

torex turns example JSON values into TypeScript type declarations, reduces
JSON values to short samples for display, measures how large a value is, and
schedules chat-completion tasks over model endpoints under per-window token
limits. This project models the core of the library and proves what it
promises:

- **Tree walk** (`TreeWalk`, for src/tree-walk.ts and src/compiler/tree-walk.ts,
  which are the same code): a value becomes a well-bracketed list of
  `openObject` / `visitLeaf` / `closeObject` events, and the value can be read
  back from its events.
- **Parse** (`Parse`, `ParseRequired`): the events are folded into a tree of
  type nodes that are shared between the items of an array. The shared,
  mutable `TypeNode` objects live in an arena (`seq<NodeRec>`) and a node's
  identity is its index. One state machine covers both parsers. The flag
  `trackParents` selects src/compiler/parse.ts (`true`): closing a keyed
  container marks its key as seen in the parent. It is `false` for
  src/parse.ts, which does not do this. `Parse.Parse` is the event loop,
  proved equal to the fold.
- **Emit** (`Emit`): a type tree becomes TypeScript declarations. A
  `NameGenerator` class holds the set of used names and numbers repeats
  (`Name2`, `Name3`, …). A `Memo` class models `memoize`. `GetIdentifiers` is
  the recursive method that builds unions, array types, object literals and
  interfaces.
- **Entry points** (`Index`): `getType` and `getItemType`. Both parse with
  src/parse.ts (`trackParents = false`), which src/index.ts imports, so they
  inherit that parser's dropped container keys (see Findings).
- **Sampling** (`Sample` for src/utils/sample.ts, `LegacySample` for
  src/sample.ts, `Arrays` for src/array.ts): cutting long strings, reducing
  arrays to their ends with the middle hidden, and rendering the sample as
  text close to `JSON.stringify`.
- **Complexity** (`Complexity`): the size score of a value.
- **Scheduler** (`Capacity`, `Chat`): the token capacity left in the 1 s,
  10 s and 60 s windows, the queue and worker-history updates, one
  scheduling pass (a loop), reservation on run, requeueing on failure, and
  the demand estimate of a chat request.

JSON values are the datatype `Json.JsonValue` (`null`, `undefined`,
booleans, integers, strings, arrays, objects as ordered entry lists). The
clock (`Date.now()`) is the parameter `now`. The packing function
`dfsPack` is the parameter `pack`, with the hypothesis `Chat.PackOk` that
it returns distinct indices in range.

## Model

| member | source | states |
|---|---|---|
| Json.Values | src/utils/complexity.ts:27 | `Object.values` gives the entry values in order, one per entry |
| Text.NatToString | src/emit.ts:157 | the decimal text of a number is non-empty and all digits |
| Text.NatToStringInjective | src/emit.ts:157-161 | different numbers give different texts, so numbered names never collide |
| Text.NatToStringValue | src/emit.ts:157-161 | the decimal text read back digit by digit is the number itself, with no leading zero |
| Text.SplitInnerNonEmpty | src/emit.ts:144 | splitting a text with no two separators in a row gives no empty piece except possibly the first and the last |
| Text.Split | src/emit.ts:144 | `split(c)` gives at least one piece and no piece contains `c` |
| Text.SplitLength | src/chat/chat.ts:104 | a text splits into one more piece than it has separators |
| Text.SplitJoin | src/emit.ts:144 | joining the pieces with the separator gives the text back |
| Text.TrimText | src/utils/sample.ts:70-78 | a text up to the limit is kept; a longer one becomes its first `length` characters plus `...` |
| Text.TrimTextIdempotent | src/utils/sample.ts:70-78 | cutting an already cut text changes nothing |
| JsonString.EscapeChar | src/utils/sample.ts:127 | a character is escaped exactly when it is a quote, a backslash or a control character |
| JsonString.Quote | src/emit.ts:132 | `JSON.stringify` of a string is wrapped in double quotes |
| JsonString.UnquoteQuote | src/emit.ts:132 | reading back a quoted string gives the original string and the rest of the input |
| JsonString.UnescapeEscape | src/emit.ts:132 | unescaping an escaped string gives it back, up to the closing quote |
| JsonString.QuoteInjective | src/utils/sample.ts:127 | different strings quote differently |
| JsonString.QuoteNoControl | src/utils/sample.ts:127 | a quoted string holds no control character |
| JsonString.EscapeLonger | src/emit.ts:132 | escaping never shortens a string |
| JsonString.HexRoundTrip | src/emit.ts:132 | a hexadecimal digit reads back as its value |
| TreeWalk.Walk | src/tree-walk.ts:12-35 | a primitive or null gives one `visitLeaf` event; a container gives an `openObject` and a `closeObject` of its own type around the events of its items (keyed by index) or entries (keyed by name) |
| TreeWalk.ReadWalk | src/tree-walk.ts:12-35 | the value and its key can be read back from its events, with any events that follow left over |
| TreeWalk.ReadWalkItems | src/tree-walk.ts:20-22 | the items of an array can be read back from their events |
| TreeWalk.ReadWalkEntries | src/tree-walk.ts:26-28 | the entries of an object can be read back from their events |
| TreeWalk.WalkWellBracketed | src/compiler/tree-walk.ts:12-35 | the events of any value are well bracketed: every prefix opens at least as many containers as it closes, and the whole list closes all it opens |
| TreeWalk.WalkCounts | src/compiler/tree-walk.ts:12-35 | there is one `visitLeaf` per leaf of the value and one `openObject` and one `closeObject` per container |
| TreeWalk.EmptyContainerWalk | src/tree-walk.ts:18-29 | an empty array or object gives exactly its open and close events |
| TreeWalk.DepthAppend | src/tree-walk.ts:12-35 | the nesting depth of joined event lists is the sum of their depths |
| Parse.AddType | src/parse.ts:30 | adding a type to a node's type set adds it and keeps every type already there |
| Parse.OnLeaf | src/parse.ts:27-37 | a leaf needs an open parent and fails without one; it links the child node under the leaf's key (index keys become 0) with the leaf's type, and keeps the stack |
| Parse.OnOpen | src/compiler/parse.ts:40-56 | opening a container pushes exactly one node and links it under its key with its type in the parent |
| Parse.DropMissed | src/parse.ts:58-62 | dropping the keys missed on a revisit leaves a subset of the required keys, and never an empty set (an empty set becomes no set) |
| Parse.RequiredFromChildren | src/parse.ts:68 | the keys inferred on a first close are among the node's keyed children |
| Parse.ClosedRequired | src/compiler/parse.ts:70-86 | the required keys after a close are a non-empty subset of the keyed children; a revisited node keeps its old keys less the missed ones |
| Parse.OnClose | src/compiler/parse.ts:57-89 | a close fails only when the stack is empty and an object is closed; otherwise it pops one node and keeps the arena well formed |
| Parse.Step | src/parse.ts:23-77 | one event keeps the arena well formed and only adds nodes |
| Parse.Run | src/parse.ts:23-77 | folding the events keeps the arena well formed and only adds nodes |
| Parse.RunAppend | src/parse.ts:23-77 | folding joined event lists is folding one after the other |
| Parse.RunKeepsFirstLink | src/compiler/parse.ts:40-56 | the link made by the first event of a balanced run stays in place to the end |
| Parse.RunWrappedSucceeds | src/parse.ts:18-21 | the walk of `{ _: data }` never fails to parse: it ends with the root node on the stack and the data linked under `_` |
| Parse.ParseTree | src/parse.ts:79 | the parsed root carries the type of the input |
| Parse.Parse | src/compiler/parse.ts:24-93 | the event loop returns exactly the tree of the fold |
| Parse.RunEvents | src/parse.ts:23-77 | the loop's running state is the fold of the events seen so far |
| Parse.ParsePrimitive | src/compiler/parse.ts:28-39 | a primitive parses to a childless node whose only type is its own, with no required keys |
| Parse.Extract | src/parse.ts:3-9 | a node read out of the arena keeps its types, its required keys and its number of children |
| Parse.ChildAt | src/index.ts:18 | a child found under a key is one of the node's children under that key |
| Parse.ExtractFindChild | src/index.ts:18 | reading a child from the tree is reading it from the arena |
| Parse.ArrayItem | src/index.ts:17-19 | a non-empty array always has an item node under key 0, which holds the first item's type (all item types: `ParseItems.ArrayItemTypes`) |
| ParseItems.ArrayItemTypes | src/compiler/parse.ts:28-44 | for both parsers, an array has an item node exactly when it has items, and that node's types are exactly the union of the item types |
| ParseItems.ItemTypesIn | src/parse.ts:30 | a type is in the collected item types exactly when some item has it |
| ParseItems.ArrayItemRequired | src/parse.ts:52-75 | for both parsers and every array, the item node's required keys are the keys of the first object item that every later object item marks seen, and no set when there are none |
| ParseItems.FoldFromFresh | src/parse.ts:52-75 | folding the object items into the item node from scratch gives nothing before the first object, then those common keys |
| ParseItems.RequiredInEveryObject | src/compiler/parse.ts:57-89 | with parent tracking, a key is required on the item node exactly when there is an object item and every object item has that key, whatever its value |
| ParseItems.PrimitiveObjectsAgree | src/parse.ts:27-37 | when every entry of every object item is a primitive, both parsers require the same keys |
| ParseItems.UndefinedCountsAsPresent | src/tests/parse.test.ts:134-142 | `[{a: 1}, {a: undefined}]` requires `a` on its item node in both parsers: an `undefined` value counts as present |
| ParseItems.EmptyObjectItem | src/index.ts:17-19 | the item node of `[{}]` exists and is an object node with no children |
| ParseRequired.OpenKeepsRequired | src/compiler/parse.ts:40-56 | opening a container never changes any node's required keys |
| ParseRequired.LeafKeepsRequired | src/parse.ts:27-37 | a leaf never changes any node's required keys |
| ParseRequired.CloseStep | src/compiler/parse.ts:57-89 | a close changes the required keys of the closed node only |
| ParseRequired.StepSettles | src/compiler/parse.ts:68-86 | once a node has been closed, its required keys only shrink |
| ParseRequired.RequiredOnlyShrink | src/parse.ts:56-72 | over any run of events, a closed node's required keys only shrink |
| ParseRequired.LaterKeysNeverRequired | src/tests/parse.test.ts:144-159 | a key that is absent when a node first closes is never required later |
| ParseRequired.TwoItemsWalk | src/tree-walk.ts:18-29 | the events of `[{a: []}, {a: []}]`, item by item |
| ParseRequired.BothVisits | src/parse.ts:38-75 | parsing the two items, step by step |
| ParseRequired.TwoItemsRun | src/parse.ts:21-79 | the whole run over `[{a: []}, {a: []}]` succeeds and yields the item node |
| ParseRequired.RevisitedContainerKey | src/compiler/parse.ts:60-66 | the item node of `[{a: []}, {a: []}]` requires `a` with parent tracking and has no required keys without it |
| ParseRequired.ParseDropsContainerKey | src/parse.ts:33 | as written, src/parse.ts gives the item node of `[{a: []}, {a: []}]` no required keys (the general form is `ParseItems.ArrayItemRequired` with `trackParents = false`) |
| ParseRequired.CompilerKeepsContainerKey | src/compiler/parse.ts:60-66 | corrected definition: src/compiler/parse.ts keeps `a` required on the item node (in general `ParseItems.RequiredInEveryObject`) |
| Emit.RenderKeyVerbatim | src/emit.ts:129-138 | a key is written as it is exactly when it is a JavaScript identifier |
| Emit.IsJsIdentifier | src/emit.ts:136-138 | an identifier is non-empty, does not start with a digit or a quote, and holds only letters, digits, `_` and `$` |
| Emit.RenderKey | src/emit.ts:129-134 | an identifier key is written verbatim; any other key is quoted and reads back as exactly the key; the written key is an identifier exactly when the key is |
| Emit.FieldLineOptional | src/emit.ts:83 | a field line has `?` after the key exactly when the key is not required |
| Emit.ReplaceRuns | src/emit.ts:143 | after replacing runs of other characters by a space, only letters, digits and spaces remain |
| Emit.ReplaceKeepsAlnum | src/emit.ts:143 | replacing runs keeps the letters and digits, in order |
| Emit.ReplaceKeepsWord | src/emit.ts:143 | a word of letters and digits passes through unchanged |
| Emit.ReplaceRunOnce | src/emit.ts:143 | a whole run of other characters becomes exactly one space (none when a run is already open) |
| Emit.ReplaceNoDoubleSpace | src/emit.ts:143 | the replaced text never holds two spaces in a row |
| Emit.ToAlphaNumericParts | src/emit.ts:140-145 | every part holds only letters and digits, and the parts joined are exactly the letters and digits of the text, in order |
| Emit.PartsJoin | src/emit.ts:140-145 | the parts joined by single spaces give back the trimmed text with each run replaced by one space; no inner part is empty |
| Emit.Trim | src/emit.ts:142 | trimming adds no character (the full statement is `Emit.TrimSpec`) |
| Emit.TrimStartSpec | src/emit.ts:142 | the leading white space and nothing else is dropped; the rest does not start with white space |
| Emit.TrimEndSpec | src/emit.ts:142 | the trailing white space and nothing else is dropped; the rest does not end with white space |
| Emit.TrimSpec | src/emit.ts:142 | trimming keeps a contiguous middle of the text, everything before and after it is white space, and it neither starts nor ends with white space |
| Emit.ToUpper | src/emit.ts:188 | a lower-case ASCII letter becomes its upper-case letter; any other character is kept |
| Emit.Capitalize | src/emit.ts:186-189 | the length is kept, the first character is upper-cased and the rest is kept; an empty text stays empty |
| Emit.CapitalizedAlnum | src/emit.ts:175-177 | capitalizing alphanumeric parts and joining them gives an alphanumeric name |
| Emit.SegmentName | src/emit.ts:173-184 | a path segment's name is non-empty and all letters and digits; an index gives `Item`, a key without letters or digits gives `Field`, any other key gives as many characters as it has letters and digits |
| Emit.ConcatCapitalized | src/emit.ts:175-177 | capitalizing the parts and joining them changes no character except by upper-casing |
| Emit.SegmentNameLetters | src/emit.ts:173-180 | a key with letters or digits is named by exactly those letters and digits, in order, up to upper-casing |
| Emit.SameTrimSameName | src/emit.ts:140-180 | two keys that trim to the same text get the same name |
| Emit.TwoRunKey | src/emit.ts:140-180 | two letters separated by a space give the two letters upper-cased |
| Emit.SpacedWord | src/emit.ts:140-180 | a word with a space on each side gives the word capitalized |
| Emit.SegmentNameAB | src/tests/emit.test.ts:140-188 | the key `"a b"` is named `AB` |
| Emit.SegmentNameTest | src/tests/emit.test.ts:140-188 | the key `" test "` is named `Test` |
| Emit.SegmentNameNoAlnum | src/tests/emit.test.ts:140-188 | the keys `""`, `" "`, `"\n"`, `"\""`, `"\\"` and `"'"` are all named `Field` |
| Emit.NumberedFieldName | src/tests/emit.test.ts:140-188 | the key `" "` under the root gives `IRootField`, and once that is used the next is `IRootField2` |
| Emit.PathToNameShape | src/emit.ts:169-171 | a path's name starts with the prefix and has at least one character per segment after it |
| Emit.PathToNameAlnum | src/emit.ts:169-171 | after the prefix, a path's name is all letters and digits |
| Emit.SegmentNameOfWord | src/emit.ts:173-189 | a key that is one alphanumeric word becomes that word capitalized |
| Emit.PathToNameAppend | src/emit.ts:169-171 | extending a path appends the segment's name, so a child's name is longer than its parent's |
| Emit.SuffixInjective | src/emit.ts:157-161 | different numeric suffixes give different names |
| Emit.NextName | src/emit.ts:153-166 | the name drawn for a base is unused, starts with the base, and is the base itself when that is unused |
| Emit.SuffixesBound | src/emit.ts:156-159 | the numbering loop ends: it cannot pass more used names than there are |
| Emit.FirstFreeSuffix | src/emit.ts:156-159 | the loop finds the smallest suffix from 2 whose name is unused |
| Emit.NameGenerator.constructor | src/emit.ts:152 | a generator starts from the given used names and has drawn nothing |
| Emit.NameGenerator.Next | src/emit.ts:153-166 | the name drawn is the path's name when unused, else the first free numbered one; it is then recorded as used |
| Emit.Memo.constructor | src/emit.ts:201-203 | a memo starts with no remembered call |
| Emit.Memo.Call | src/emit.ts:204-211 | the same arguments as the last call give the last result without drawing; other arguments draw a new name and are remembered |
| Emit.InlineUnion | src/emit.ts:194-196 | the union of no member is empty and of one member is that member |
| Emit.GroupedUnion | src/emit.ts:191-193 | a union is put in parentheses exactly when it has more than one member; one member is written alone |
| Emit.DeclaredName | src/emit.ts:121-123 | a declaration starts with `interface ` or `type ` and then the name; it is an interface exactly when asked; an alias ends with `;` |
| Emit.PrimitiveTypes | src/emit.ts:36 | the primitive identifiers are exactly the node's types other than `object` and `array` |
| Emit.IndexedChildren | src/emit.ts:39 | exactly the children under an index |
| Emit.KeyedChildren | src/emit.ts:38 | exactly the children under a key |
| Emit.ArrayIdentifiers | src/emit.ts:36-60 | a node with a primitive type has at least one identifier |
| Emit.ArrayIdentifiersLayout | src/emit.ts:36-60 | the array part of a union is the primitive types, then `any[]` exactly when the node is an array with no item child, then one entry per item child |
| Emit.ItemArrays | src/emit.ts:49 | each item child's identifiers are written as their grouped union followed by `[]` |
| Emit.ObjectOut | src/emit.ts:80-96 | no fields: `any` for an object type, nothing otherwise; fields and inlined: one literal of the field lines; fields and declared: one interface of that literal under a fresh name for the path prefixed `I`, recorded as used |
| Emit.ChildIdentifiers | src/emit.ts:43-77 | the loop over the children gives, in order, each child's identifiers and declarations as specified for that child, threading the used names; names drawn for the children are longer than this node's name |
| Emit.ObjectIdentifier | src/emit.ts:80-96 | the object part of the union and the used names are those `Emit.ObjectOut` specifies; an inlined object draws no name |
| Emit.UnionParts | src/emit.ts:34-96 | the union is the primitive types, `any[]`, the item arrays and the object part, and the declarations are the object's then the children's, as the specification `UnionOut` gives; a node with a type has a non-empty union |
| Emit.DeclareUnion | src/emit.ts:98-108 | the union is declared under a freshly drawn name, as an interface exactly when it is one object literal |
| Emit.GetIdentifiers | src/emit.ts:33-114 | the union, the declarations and the used names are those of the specification `NodeOut`: the union as above, with `declarePrimitive` its declaration first under a fresh name; a childless node's union is its primitives plus `any[]` and `any` |
| Emit.Emit | src/emit.ts:16-23 | fails exactly when the root has no type, with that message; otherwise the result is the specification's declarations joined by blank lines, the first is the root's declaration under the root name itself, declaring the root node's own identifiers |
| Emit.EmitSimpleObject | src/emit.ts:16-114 | `{a: 1}` (an object node with one required number field) emits `interface IRoot {\n  a: number;\n}` |
| Emit.EmptyObjectDeclared | src/emit.ts:80-108 | a node that is only an empty object is declared `type <name> = any;` |
| Index.GetType | src/index.ts:8-12 | never fails; the result is the emitted text of the src/parse.ts tree of the input; the first declaration is the root's, under the root name, with the root node's identifiers; a primitive becomes one alias of its type |
| Index.PrimitiveAlias | src/index.ts:8-12 | `getType` of a primitive is `type Root = <type>;` |
| Index.DefaultRootPathName | src/emit.ts:19 | the default root name `Root` keeps its spelling as a type name |
| Index.GetItemType | src/index.ts:14-22 | fails exactly when the input is not an array, with that message; for a non-empty array the result is the emitted text of the item node of the src/parse.ts tree; `[]` gives `type Item = any;` |
| Index.EmptyItemAlias | src/index.ts:16-21 | the item node of `[{}]`, which `[]` is read as, is declared `type <name> = any;` |
| Index.DefaultItemAlias | src/index.ts:14 | under the default name that is `type Item = any;` |
| Complexity.Complexity | src/utils/complexity.ts:7-31 | every value scores at least 1 |
| Complexity.ItemsAtLeastCount | src/utils/complexity.ts:20-22 | the items of an array score at least their number |
| Complexity.ArrayAppendIncreases | src/utils/complexity.ts:20-22 | one more item adds 1 plus its own score |
| Complexity.ObjectAppendIncreases | src/utils/complexity.ts:26-28 | one more entry adds 2 plus its value's score |
| Complexity.ObjectVersusArray | src/utils/complexity.ts:20-28 | an object scores one more per key than the array of its values |
| Complexity.ItemBelowArray | src/utils/complexity.ts:20-22 | an item scores less than its array |
| Complexity.ItemBelowSum | src/utils/complexity.ts:21 | an item scores at most the sum over the items |
| Arrays.GetChunks | src/array.ts:14-20 | the chunks concatenate back to the array; each is non-empty and at most the chunk size; all but the last are full |
| Arrays.SamplePoints | src/array.ts:8 | the sample points are the first, middle and last positions with their items |
| Arrays.KeepTruthy | src/array.ts:8 | exactly the truthy picks are kept |
| Arrays.Dedup | src/array.ts:9 | deduplication keeps picks of the input only |
| Arrays.DedupSubsequence | src/array.ts:9 | the kept picks are a subsequence of the input: in the input's order |
| Arrays.DedupKeepsFirst | src/array.ts:9 | a pick unlike every earlier pick is kept, so each item's first occurrence survives |
| Arrays.KeepTruthySorted | src/array.ts:8 | dropping falsy picks keeps the picks sorted by position |
| Arrays.DedupIncreasing | src/array.ts:9 | from picks sorted by position, the kept picks have strictly increasing positions |
| Arrays.DedupDistinct | src/array.ts:9 | no two kept picks are the same (same primitive value, or same array position for containers) |
| Arrays.DedupCovers | src/array.ts:9 | every input pick has a kept equal |
| Arrays.ThreePointPicks | src/array.ts:6-12 | at most three truthy items, each from the first, middle or last position, in strictly increasing positions |
| Arrays.ThreePointSample | src/array.ts:6-12 | at most three truthy items drawn from the first, middle and last, each the item at its pick's position, in the picks' order; none for an empty array |
| Arrays.HeadMiddleTail | src/array.ts:6-12 | when the three points are truthy and pairwise different, the sample is head, middle and tail, in that order |
| Arrays.ThreePointCovers | src/array.ts:6-12 | every truthy sample point has an equal among the picks |
| Arrays.ThreePointSingle | src/array.ts:6-12 | a one-item array samples to that item when truthy, to nothing otherwise |
| Arrays.ThreePointKeepsEqualObjects | src/array.ts:9 | two equal objects are both kept, since they are different references |
| Arrays.ThreePointMergesEqualPrimitives | src/array.ts:9 | equal primitives are kept once |
| LegacySample.Sample | src/sample.ts:8-31 | sampling keeps the value's type; arrays keep at most three items; strings are cut; other primitives are kept |
| LegacySample.SampleEntries | src/sample.ts:19-25 | an object keeps its keys, in order, and each value is sampled |
| LegacySample.SampleObject | src/sample.ts:19-25 | each entry of a sampled object is its key with the sample of its value |
| LegacySample.SampleBounded | src/sample.ts:8-31 | every array in a sample has at most three items and every string at most the limit plus three characters |
| LegacySample.SampleArrayItems | src/sample.ts:15-18 | a sampled array holds the samples of the three-point sample's items, in its order, which takes strictly increasing positions |
| LegacySample.SampleDropsFalsy | src/sample.ts:43-49 | falsy items are dropped: `[0, 0, 5]` samples to `[5]` |
| Sample.Lift | src/utils/sample.ts:141 | an unsampled value has the same shape, arrays without fragments |
| Sample.SampledIndices | src/utils/sample.ts:87 | the sampled indices start at 0, end at the last index and increase |
| Sample.Pairs | src/utils/sample.ts:103-110 | `pairs` groups the list two by two, the last pair open when the length is odd |
| Sample.HiddenRanges | src/utils/sample.ts:93-95 | every hidden range skips at least one item |
| Sample.ShownRanges | src/utils/sample.ts:92 | each shown range holds the item at its index |
| Sample.SortByPosCorrect | src/utils/sample.ts:97 | sorting the fragments by position gives a sorted permutation |
| Sample.SortSortedIsIdentity | src/utils/sample.ts:97 | sorting sorted fragments changes nothing |
| Sample.DefinedAt | src/utils/sample.ts:89 | the samples are items of the array |
| Sample.SkipMiddleFragments | src/utils/sample.ts:80-101 | the fragments are the whole array for up to three items, and first item, hidden middle, last item beyond |
| Sample.SkipMiddleTiles | src/utils/sample.ts:80-101 | the fragments tile the array in order: every position is shown or hidden exactly once |
| Sample.SkipMiddleKeepsEnds | src/utils/sample.ts:87-89 | beyond three items only the first and the last are kept |
| Sample.SkipMiddle | src/utils/sample.ts:80-101 | at most three samples, all items of the array and none `undefined`; the fragments are sorted by position and each shown one holds the item at its position |
| Sample.Sample | src/utils/sample.ts:35-68 | corrected definition (see Findings): primitives stay primitives with strings cut, arrays stay arrays, empty arrays stay empty, objects keep their keys in order; each shown fragment holds the sample of the item at its position |
| Sample.SampleAsWritten | src/utils/sample.ts:35-68 | as written (see Findings): the same shapes, but each shown fragment holds the item at its position unsampled |
| Sample.SampleEntries | src/utils/sample.ts:57-61 | an object keeps its keys in order |
| Sample.ObjectValuesUseDefaults | src/utils/sample.ts:57-61 | object values are sampled with the default options, whatever options were given |
| Sample.NestedStringUsesDefaultLimit | src/utils/sample.ts:59 | a string inside an object is cut at 48 even when a smaller limit was asked for |
| Sample.NoCompressionKeepsAll | src/utils/sample.ts:54 | without compression every item is sampled and kept |
| Sample.HideMiddleFragments | src/utils/sample.ts:47-52 | with compression the fragments describe the whole array, each shown one holding the sample of its item |
| Sample.AsWrittenKeepsLongString | src/utils/sample.ts:50-51 | as written, the fragment of a long string holds the uncut string while the item is cut |
| Sample.AsWrittenRendersUncut | src/utils/sample.ts:134-138 | as written, `getSample` of `[<long string>]` shows the whole string; corrected, it shows the cut one |
| Sample.Render | src/utils/sample.ts:122-168 | a value renders as a primitive string exactly when it is a primitive |
| Sample.StringifySample | src/utils/sample.ts:112-168 | a primitive renders as its text; an array renders inside `[` and `]` and an object inside `{` and `}`; the line layout of arrays and objects is stated by `Sample.ArrayOneLine`, `Sample.ObjectOneLine`, `Sample.ObjectOfPrimitives` and `Sample.ObjectOfContainers` |
| Sample.GetSample | src/utils/sample.ts:30-33 | a string renders as its cut, quoted text, another primitive as its text, an array inside brackets and an object inside braces |
| Sample.GetSampleAsWritten | src/utils/sample.ts:30-33 | as written: primitives render as in the corrected definition and arrays inside brackets |
| Sample.PrimitiveTextOneLine | src/utils/sample.ts:126-129 | a primitive renders on one line |
| Sample.ArrayLayoutOneLine | src/utils/sample.ts:144-151 | an array is written on several lines exactly when one of its items is not primitive |
| Sample.ArrayOneLine | src/utils/sample.ts:141-151 | a plain array is multi-line exactly when it holds a non-primitive item |
| Sample.ObjectLayoutOneLine | src/utils/sample.ts:154-166 | an object is written on several lines exactly when one of its values is not primitive (keys and values without line breaks) |
| Sample.ObjectOneLine | src/utils/sample.ts:154-166 | a sampled object is multi-line exactly when it holds a non-primitive value; with no entries it is `{}` |
| Sample.ObjectOfPrimitives | src/utils/sample.ts:156-157 | a non-empty object of primitives is `{ "key": value, ... }` on one line, each value as `JSON.stringify` writes it |
| Sample.ObjectOfContainers | src/utils/sample.ts:158-165 | otherwise one indented `"key": value` line per entry, values rendered two spaces deeper, the closing brace two spaces further out |
| Sample.OnePrimitiveMember | src/utils/sample.ts:156-157 | an object of one primitive member is `{ "key": value }` |
| Sample.OneContainerMember | src/utils/sample.ts:158-165 | an object of one container member is spread over three lines |
| Sample.EmptyObjectText | src/tests/sample.test.ts:58-60 | `{}` renders as `{}`, and so does its sample |
| Sample.PrimitiveObjectText | src/tests/sample.test.ts:66-68 | `{ a: null, b: 0, c: "a", d: undefined, e: true }` renders on one line |
| Sample.FivePrimitiveMembers | src/utils/sample.ts:156-157 | an object of five primitive members renders as its five members separated by commas, in braces |
| Sample.NestedObjects | src/utils/sample.ts:154-166 | three nested single-member objects: the two outer levels are multi-line, the innermost is on one line |
| Sample.NestedObjectText | src/tests/sample.test.ts:81-93 | `{ a: { b: { c: 1 } } }` renders as the five lines of the test |
| Sample.LongArrayRendering | src/utils/sample.ts:134-145 | an array of more than three primitives renders as first item, skip marker, last item |
| Sample.LongNumberArray | src/utils/sample.ts:134-145 | for numbers that is `[x, ...(k items), y]` |
| Sample.TenNumbers | src/tests/sample.test.ts:129-133 | `getSample([0, …, 9])` is `[0, ...(8 items), 9]` |
| Capacity.Min3 | src/scheduler/capacity.ts:59 | the minimum of three is one of them and at most each |
| Capacity.Tally | src/scheduler/capacity.ts:25-36 | one record adds to the 1 s window no more than to the 10 s one, and to that no more than to the 60 s one, at most one each; a record a minute old or more adds nothing |
| Capacity.TokenCapacity | src/scheduler/capacity.ts:55-59 | the capacity never exceeds what is left of the per-minute limit, and with nothing in the last 10 s it is exactly that |
| Capacity.TalliedIsWindows | src/scheduler/capacity.ts:23-53 | the tally of the records is the count and the token sum of the records started within each of the 1 s, 10 s and 60 s windows |
| Capacity.WindowsNested | src/scheduler/capacity.ts:25-36 | the 1 s window counts no more records than the 10 s one, which counts no more than the 60 s one |
| Capacity.OldRecordsIgnored | src/scheduler/capacity.ts:25 | records a minute old or more do not change the capacity |
| Capacity.NoRecordInLastSecond | src/scheduler/capacity.ts:57 | with nothing in the last second, the 1 s residual falls back to the 60 s one |
| Capacity.NoRecords | src/scheduler/capacity.ts:18-60 | with no record the whole per-minute limit is available |
| Capacity.NotClamped | src/scheduler/capacity.ts:57-59 | the capacity can be negative: limit 60 with 55 tokens started half a second ago gives -54 |
| Capacity.MoreRecordsLessCapacity | src/scheduler/capacity.ts:23-59 | one more started task never raises the capacity |
| Chat.RemoveTaskFromQueue | src/chat/chat.ts:209-211 | exactly the tasks with another id remain, in order |
| Chat.RemoveIdempotent | src/chat/chat.ts:209-211 | removing twice is removing once |
| Chat.CountAfterRemove | src/chat/chat.ts:209-211 | no task with the id is left, and the queue loses exactly those tasks |
| Chat.AddTaskToQueue | src/chat/chat.ts:205-207 | the task is appended at the back |
| Chat.AddTaskOnce | src/chat/chat.ts:205-207 | after adding, the id is queued exactly once, after the other tasks in their order |
| Chat.AddTaskIdempotent | src/chat/chat.ts:205-207 | adding the same task twice is adding it once |
| Chat.AddTaskToWorker | src/chat/chat.ts:195-203 | the named worker's history gains the task with its expiry; other workers are unchanged |
| Chat.Unexpired | src/chat/chat.ts:216 | exactly the history entries expiring after now remain |
| Chat.RemoveWorkerExpiredTasks | src/chat/chat.ts:213-218 | each worker keeps only its unexpired history |
| Chat.PruneIdempotent | src/chat/chat.ts:213-218 | pruning twice is pruning once |
| Chat.PruneAfterAdd | src/chat/chat.ts:195-218 | a task already expired is pruned again right away; an unexpired one survives pruning |
| Chat.ReservationUsesCapacity | src/chat/chat.ts:195-221 | a reservation lowers its worker's capacity by the task's demand and leaves the others alone |
| Chat.Without | src/chat/chat.ts:159 | exactly the remaining tasks not chosen stay |
| Chat.Chosen | src/chat/chat.ts:155 | the chosen tasks are the ones at the picked indices |
| Chat.WorkerCapacity | src/chat/chat.ts:221 | a worker with no history has its whole token limit; with non-negative demands the capacity never exceeds it |
| Chat.Pass | src/chat/chat.ts:152-161 | every assignment names a remaining task and a worker from the current one on; nothing is assigned when no task remains |
| Chat.Schedule | src/chat/chat.ts:141-167 | the scheduling loop returns the assignments of the pass over the workers in order |
| Chat.PassAssignsOnce | src/chat/chat.ts:152-161 | no task is assigned twice, every assigned task was remaining, and workers come in list order |
| Chat.ScheduleAssignsOnce | src/chat/chat.ts:141-167 | in one pass no task is handed out twice, and every assignment names a queued task and a listed worker |
| Chat.ReserveFacts | src/chat/chat.ts:186-189 | running a task takes every copy of it off the queue and lowers its worker's capacity by its demand |
| Chat.Reserve | src/chat/chat.ts:186-189 | the queue keeps exactly the tasks with another id; the worker list keeps its length; the workers with the id gain the task with its expiry and keep the rest; the other workers are unchanged |
| Chat.OnFailure | src/chat/chat.ts:172-183 | a failed task is queued again exactly when it has retries left; it is then the queue without its id followed by the task with one retry less, which is queued once |
| Chat.AttemptsWhenFailing | src/chat/chat.ts:175-181 | a task that always fails is tried at least once, and exactly once when it has no retry left |
| Chat.RetryBudget | src/chat/chat.ts:175-181 | a task that always fails is tried exactly its retries plus one times |
| Chat.EstimatedDemand | src/chat/chat.ts:101-107 | the demand accepts the given models and allows 3 retries |
| Chat.EstimateCountsWords | src/chat/chat.ts:104 | the estimate is `max_tokens` plus 1.5 per word, where each message has one more word than spaces |

## Left out

- The OpenAI proxy (`getOpenAIJsonProxy`), `createChatEngine`, timers and promises in src/chat/chat.ts are not modelled: they are I/O. A run's outcome is a parameter (`Chat.OnFailure` models the failure branch).
- `dfsPack` is a parameter with the hypothesis that it picks distinct indices in range; its search is not modelled.
- `Date.now()` is the parameter `now`.
- `Math.random` and `randomSampleArrayItems` in src/array.ts are not modelled: they are random.
- Scheduler arithmetic uses exact reals, not IEEE doubles.
- JSON numbers are integers; fractions, `NaN` and `Infinity` and their text are not modelled.
- The `historyDemands` list of `getChatScheduler` is not modelled: it is filled and never read.
- Chat.Schedule: the `historyTasks` a pass reads is the worker's whole history, as in `dfsSelectTaskIndices`; token windows are not checked there, as in the source.
- Object references stand as positions: `includes` on tasks (`Chat.Without`) compares queue positions, and the `Set` over sampled items (`Arrays.Same`) compares array positions for containers and values for primitives. Aliasing between references is not modelled. The memo's `===` on arguments compares values.
- Emit.Memo.Call: the memo remembers one call per `getIdentifiers` call, as in the source; the path arrays it compares are new per call.
- The `strategy` and `fragments` symbol properties of sampled arrays are fields of the `SFragmented` case.
- `toUpperCase` is modelled for ASCII letters only.
- `interfacePrefix` of `EmitConfig` is accepted and not read, as in the source.
- Text.TrimText: strings are sequences of Unicode scalar values, while `length` and `slice` count UTF-16 code units; outside the Basic Multilingual Plane they differ. For 30 copies of "😀" (length 60 in JavaScript) `trimTextIfOverflow(48)` keeps 24 emoji plus `...`, while the model keeps the text whole.
- Complexity.Complexity: the string score counts scalar values, not UTF-16 code units; the 30 emoji above score 62 in JavaScript and 32 in the model.
- JsonString.Quote: lone surrogates are escaped by `JSON.stringify`; the model has no surrogate characters.
- src/type-reflection.ts is not part of this model.

## Findings

| source | as written | input that shows it | evidently intended | confidence | as-written member | corrected member |
|---|---|---|---|---|---|---|
| src/utils/sample.ts:50-51 | the fragments of a compressed array are copied from `skipMiddle`, so they hold the original items, and `stringifySample` renders the fragments (src/utils/sample.ts:134-138) | `getSample(["<a string longer than maxTextLength + 3>"])` renders the whole string | the rendered items are the sampled ones, with long strings cut | not executed | Sample.AsWrittenKeepsLongString | Sample.HideMiddleFragments |
| src/parse.ts:33 | only a leaf marks its key as seen on a revisit; a container-valued key is never marked, so it is dropped from the required keys | `parse([{a: []}, {a: []}])`: the item node gets no required keys | `a` stays required, as src/tests/parse.test.ts:123-131 expects and src/compiler/parse.ts:60-66 does; `getType` and `getItemType` keep the parser as written, since src/index.ts:2 imports it | not executed | ParseRequired.ParseDropsContainerKey | ParseRequired.CompilerKeepsContainerKey |
