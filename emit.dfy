/** `emit` in src/emit.ts: renders a type tree as TypeScript declarations.
    The root becomes `type <Name> = <union>;`, or `interface I<Name> {…}`
    when its only identifier is an object literal; child objects are inlined
    as object literals, arrays as `<item union>[]`. Names come from the path
    of a node (`Item` for array items, the capitalised alphanumeric runs of a
    key otherwise) and from one generator per `emit` that never hands out a
    name twice. The text-building helpers are functions; the generator and
    its memoising wrapper are objects, and the tree walk is a recursive
    method that threads the generator through. */
module Emit {
  import opened Text
  import opened Wrappers
  import opened JsonString
  import opened Parse

  // ----- keys -----

  predicate IsAsciiLetter(c: char) { 'a' <= c <= 'z' || 'A' <= c <= 'Z' }

  predicate IsAsciiDigit(c: char) { '0' <= c <= '9' }

  predicate IsAlnum(c: char) { IsAsciiLetter(c) || IsAsciiDigit(c) }

  predicate IdentifierStart(c: char) { IsAsciiLetter(c) || c == '_' || c == '$' }

  /** `isJsIdentifier(text)`: the whole text matches `[a-zA-Z_$][a-zA-Z0-9_$]*`. */
  predicate IsJsIdentifier(text: string)
    ensures IsJsIdentifier(text) ==>
      |text| > 0 && !IsAsciiDigit(text[0]) && text[0] != '"' && forall c :: c in text ==> IsAlnum(c) || c == '_' || c == '$'
  {
    |text| > 0 && IdentifierStart(text[0])
    && forall i :: 1 <= i < |text| ==> IdentifierStart(text[i]) || IsAsciiDigit(text[i])
  }

  /** `renderKey(key)`: the key itself when it is an identifier, its JSON
      string literal otherwise. */
  function RenderKey(key: string): (r: string)
    ensures IsJsIdentifier(r) <==> IsJsIdentifier(key)
    ensures IsJsIdentifier(key) ==> r == key
    ensures !IsJsIdentifier(key) ==> Unquote(r) == Some((key, ""))
  {
    if IsJsIdentifier(key) then key
    else
      UnquoteQuote(key, "");
      assert Quote(key) + "" == Quote(key);
      Quote(key)
  }

  /** A key is rendered verbatim exactly when it is an identifier. */
  lemma RenderKeyVerbatim(key: string)
    ensures RenderKey(key) == key <==> IsJsIdentifier(key)
  {
    EscapeLonger(key);
  }

  /** One field line of an object literal. */
  function FieldLine(key: string, value: string, required: bool): string
  {
    "  " + RenderKey(key) + (if required then "" else "?") + ": " + value + ";"
  }

  /** The line marks the field optional, with a `?` right after the key,
      exactly when the key is not required. */
  lemma FieldLineOptional(key: string, value: string, required: bool)
    ensures var line := FieldLine(key, value, required);
      |line| > 2 + |RenderKey(key)| && (line[2 + |RenderKey(key)|] == '?' <==> !required)
  {
    var k := RenderKey(key);
    var line := FieldLine(key, value, required);
    if required {
      assert line == ("  " + k) + (": " + value + ";");
    } else {
      assert line == ("  " + k) + ("?: " + value + ";");
    }
  }

  /** `node.requiredKeys?.has(k)`. */
  predicate IsRequired(requiredKeys: Option<set<string>>, key: string)
  {
    requiredKeys.Some? && key in requiredKeys.value
  }

  function FieldLines(entries: seq<(string, string)>, requiredKeys: Option<set<string>>): (r: seq<string>)
    ensures |r| == |entries|
  {
    seq(|entries|, j requires 0 <= j < |entries| => FieldLine(entries[j].0, entries[j].1, IsRequired(requiredKeys, entries[j].0)))
  }

  /** The object literal `{\n<lines>\n}`. */
  function ObjectLiteral(lines: seq<string>): (r: string)
    ensures |r| >= 1 && r[0] == '{'
  {
    "{\n" + Join(lines, "\n") + "\n}"
  }

  // ----- names -----

  /** The characters `String.prototype.trim` removes: white space and line
      terminators. */
  predicate IsJsSpace(c: char)
  {
    c == '\t' || c == '\n' || c == '\U{B}' || c == '\U{C}' || c == '\r' || c == ' '
    || c == '\U{A0}' || c == '\U{1680}' || ('\U{2000}' <= c <= '\U{200A}')
    || c == '\U{2028}' || c == '\U{2029}' || c == '\U{202F}' || c == '\U{205F}'
    || c == '\U{3000}' || c == '\U{FEFF}'
  }

  function TrimStart(s: string): (r: string)
    ensures forall x :: x in r ==> x in s
  {
    if |s| > 0 && IsJsSpace(s[0]) then TrimStart(s[1..]) else s
  }

  function TrimEnd(s: string): (r: string)
    ensures forall x :: x in r ==> x in s
  {
    if |s| > 0 && IsJsSpace(s[|s| - 1]) then TrimEnd(s[..|s| - 1]) else s
  }

  /** `text.trim()`. */
  function Trim(s: string): (r: string)
    ensures forall x :: x in r ==> x in s
  {
    TrimEnd(TrimStart(s))
  }

  /** `trimStart` drops exactly the leading white space: what is left is
      the end of the text and does not start with white space. */
  lemma {:induction false} TrimStartSpec(s: string)
    ensures var r := TrimStart(s);
      && |r| <= |s| && r == s[|s| - |r|..]
      && (forall k :: 0 <= k < |s| - |r| ==> IsJsSpace(s[k]))
      && (|r| > 0 ==> !IsJsSpace(r[0]))
  {
    if |s| > 0 && IsJsSpace(s[0]) {
      TrimStartSpec(s[1..]);
    }
  }

  /** `trimEnd` drops exactly the trailing white space. */
  lemma {:induction false} TrimEndSpec(s: string)
    ensures var r := TrimEnd(s);
      && |r| <= |s| && r == s[..|r|]
      && (forall k :: |r| <= k < |s| ==> IsJsSpace(s[k]))
      && (|r| > 0 ==> !IsJsSpace(r[|r| - 1]))
  {
    if |s| > 0 && IsJsSpace(s[|s| - 1]) {
      TrimEndSpec(s[..|s| - 1]);
    }
  }

  /** `trim` keeps the middle of the text: it removes the white space at
      both ends and nothing else, and what is left neither starts nor ends
      with white space. */
  lemma TrimSpec(s: string)
    ensures |TrimStart(s)| <= |s|
    ensures var i := |s| - |TrimStart(s)|; var r := Trim(s);
      && i + |r| <= |s| && r == s[i..i + |r|]
      && (forall k :: 0 <= k < i ==> IsJsSpace(s[k]))
      && (forall k :: i + |r| <= k < |s| ==> IsJsSpace(s[k]))
      && (|r| > 0 ==> !IsJsSpace(r[0]) && !IsJsSpace(r[|r| - 1]))
  {
    var t := TrimStart(s);
    var i := |s| - |t|;
    TrimStartSpec(s);
    TrimEndSpec(t);
    var r := Trim(s);
    assert r == t[..|r|];
    assert r == s[i..i + |r|];
    forall k | i + |r| <= k < |s| ensures IsJsSpace(s[k]) {
      assert s[k] == t[k - i];
    }
  }

  /** `replace(/[^a-zA-Z0-9]+/g, " ")`, scanning left to right; `inRun` says
      that the previous character was already replaced. */
  function ReplaceRuns(s: string, inRun: bool): (r: string)
    ensures forall x :: x in r ==> IsAlnum(x) || x == ' '
  {
    if |s| == 0 then ""
    else if IsAlnum(s[0]) then [s[0]] + ReplaceRuns(s[1..], false)
    else if inRun then ReplaceRuns(s[1..], true)
    else " " + ReplaceRuns(s[1..], true)
  }

  /** The letters and digits of a text, in order. */
  function AlnumOnly(s: string): (r: string)
    ensures forall x :: x in r ==> IsAlnum(x)
  {
    if |s| == 0 then "" else (if IsAlnum(s[0]) then [s[0]] else "") + AlnumOnly(s[1..])
  }

  /** The replacement keeps every letter and digit, in order, and adds none. */
  lemma {:induction false} ReplaceKeepsAlnum(s: string, inRun: bool)
    ensures AlnumOnly(ReplaceRuns(s, inRun)) == AlnumOnly(s)
  {
    if |s| > 0 {
      ReplaceKeepsAlnum(s[1..], !IsAlnum(s[0]));
      var rest := ReplaceRuns(s[1..], !IsAlnum(s[0]));
      if IsAlnum(s[0]) {
        assert ([s[0]] + rest)[1..] == rest;
      } else if !inRun {
        assert (" " + rest)[1..] == rest;
      }
    }
  }

  /** A word of letters and digits is copied as it is. */
  lemma {:induction false} ReplaceKeepsWord(w: string, rest: string, inRun: bool)
    requires |w| > 0 && AllAlnum(w)
    ensures ReplaceRuns(w + rest, inRun) == w + ReplaceRuns(rest, false)
  {
    var s := w + rest;
    assert s[0] == w[0] && s[1..] == w[1..] + rest;
    assert w[0] in w;
    if |w| > 1 {
      assert AllAlnum(w[1..]) by {
        assert forall x :: x in w[1..] ==> x in w;
      }
      ReplaceKeepsWord(w[1..], rest, false);
      assert w == [w[0]] + w[1..];
    } else {
      assert w == [w[0]] && w[1..] + rest == rest;
    }
  }

  /** A run of other characters becomes a single space, or nothing when the
      character before it was already replaced. */
  lemma {:induction false} ReplaceRunOnce(m: string, rest: string, inRun: bool)
    requires |m| > 0 && forall x :: x in m ==> !IsAlnum(x)
    ensures ReplaceRuns(m + rest, inRun) == (if inRun then "" else " ") + ReplaceRuns(rest, true)
  {
    var s := m + rest;
    assert s[0] == m[0] && s[1..] == m[1..] + rest;
    assert m[0] in m;
    if |m| > 1 {
      assert forall x :: x in m[1..] ==> x in m;
      ReplaceRunOnce(m[1..], rest, true);
    } else {
      assert m[1..] + rest == rest;
    }
  }

  /** No two spaces side by side. */
  predicate NoDoubleSpace(r: string)
  {
    forall i :: 0 <= i < |r| - 1 ==> r[i] != ' ' || r[i + 1] != ' '
  }

  /** The replacement never leaves two spaces side by side, and after a
      replaced character it does not start with a space. */
  lemma {:induction false} ReplaceNoDoubleSpace(s: string, inRun: bool)
    ensures NoDoubleSpace(ReplaceRuns(s, inRun))
    ensures inRun && |ReplaceRuns(s, inRun)| > 0 ==> ReplaceRuns(s, inRun)[0] != ' '
  {
    if |s| > 0 {
      var rest := ReplaceRuns(s[1..], !IsAlnum(s[0]));
      ReplaceNoDoubleSpace(s[1..], !IsAlnum(s[0]));
      var r := ReplaceRuns(s, inRun);
      if IsAlnum(s[0]) {
        assert r == [s[0]] + rest;
        forall i | 0 <= i < |r| - 1 ensures r[i] != ' ' || r[i + 1] != ' ' {
          if i == 0 {
            assert r[0] == s[0] && !IsAlnum(' ');
          } else {
            assert r[i] == rest[i - 1] && r[i + 1] == rest[i];
            assert rest[i - 1] != ' ' || rest[i] != ' ';
          }
        }
      } else if !inRun {
        assert r == " " + rest;
        forall i | 0 <= i < |r| - 1 ensures r[i] != ' ' || r[i + 1] != ' ' {
          if i > 0 {
            assert r[i] == rest[i - 1] && r[i + 1] == rest[i];
            assert rest[i - 1] != ' ' || rest[i] != ' ';
          } else {
            assert r[1] == rest[0];
          }
        }
      }
    }
  }

  /** `toAlphaNumericParts(text)`: the maximal runs of letters and digits,
      which together hold every letter and digit of the text, in order. */
  function ToAlphaNumericParts(text: string): (r: seq<string>)
    ensures forall j :: 0 <= j < |r| ==> AllAlnum(r[j])
    ensures Concat(r) == AlnumOnly(text)
  {
    var replaced := ReplaceRuns(Trim(text), false);
    SplitChars(replaced, ' ');
    ReplaceKeepsAlnum(Trim(text), false);
    ConcatSplitAlnum(replaced);
    TrimKeepsAlnum(text);
    Split(replaced, ' ')
  }

  /** Where the text is split: joined by single spaces, the parts are the
      trimmed text with each run of other characters replaced by one space.
      So every part but the first and the last is non-empty, and the first
      or the last is empty only when the trimmed text starts or ends with
      such a run. */
  lemma PartsJoin(text: string)
    ensures Join(ToAlphaNumericParts(text), " ") == ReplaceRuns(Trim(text), false)
    ensures var r := ToAlphaNumericParts(text); forall j :: 0 < j < |r| - 1 ==> |r[j]| > 0
  {
    var replaced := ReplaceRuns(Trim(text), false);
    SplitJoin(replaced, ' ');
    ReplaceNoDoubleSpace(Trim(text), false);
    SplitInnerNonEmpty(replaced, ' ');
  }

  /** Splitting a text of letters, digits and spaces at the spaces and
      joining the pieces drops exactly the spaces. */
  lemma {:induction false} ConcatSplitAlnum(s: string)
    requires forall x :: x in s ==> IsAlnum(x) || x == ' '
    ensures Concat(Split(s, ' ')) == AlnumOnly(s)
  {
    if |s| > 0 {
      var tail := s[1..];
      assert forall x :: x in tail ==> x in s;
      ConcatSplitAlnum(tail);
      SplitStep(s);
      assert s[0] in s;
    }
  }

  /** One character further into `s.split(" ")`: a space starts a new
      piece, anything else extends the first one. */
  lemma SplitStep(s: string)
    requires |s| > 0
    ensures s[0] == ' ' ==> Concat(Split(s, ' ')) == Concat(Split(s[1..], ' '))
    ensures s[0] != ' ' ==> Concat(Split(s, ' ')) == [s[0]] + Concat(Split(s[1..], ' '))
  {
    var rest := Split(s[1..], ' ');
    if s[0] == ' ' {
      assert Split(s, ' ') == [""] + rest;
      ConcatEmptyFirst(rest);
    } else {
      assert Split(s, ' ') == [[s[0]] + rest[0]] + rest[1..];
      ConcatExtendFirst(s[0], rest);
    }
  }

  lemma {:induction false} AlnumOnlyAppend(a: string, b: string)
    ensures AlnumOnly(a + b) == AlnumOnly(a) + AlnumOnly(b)
  {
    if |a| > 0 {
      assert (a + b)[1..] == a[1..] + b;
      AlnumOnlyAppend(a[1..], b);
    } else {
      assert a + b == b;
    }
  }

  lemma JsSpaceNotAlnum(c: char)
    requires IsJsSpace(c)
    ensures !IsAlnum(c)
  {
  }

  /** Trimming removes no letter or digit. */
  lemma {:induction false} TrimKeepsAlnum(s: string)
    ensures AlnumOnly(Trim(s)) == AlnumOnly(s)
  {
    TrimStartKeepsAlnum(s);
    TrimEndKeepsAlnum(TrimStart(s));
  }

  lemma {:induction false} TrimStartKeepsAlnum(s: string)
    ensures AlnumOnly(TrimStart(s)) == AlnumOnly(s)
  {
    if |s| > 0 && IsJsSpace(s[0]) {
      JsSpaceNotAlnum(s[0]);
      TrimStartKeepsAlnum(s[1..]);
    }
  }

  lemma {:induction false} TrimEndKeepsAlnum(s: string)
    ensures AlnumOnly(TrimEnd(s)) == AlnumOnly(s)
  {
    if |s| > 0 && IsJsSpace(s[|s| - 1]) {
      var init := s[..|s| - 1];
      JsSpaceNotAlnum(s[|s| - 1]);
      TrimEndKeepsAlnum(init);
      assert s == init + [s[|s| - 1]];
      AlnumOnlyAppend(init, [s[|s| - 1]]);
      assert AlnumOnly([s[|s| - 1]]) == "" + AlnumOnly([]);
    }
  }

  /** `toUpperCase` on one character: a lower-case ASCII letter becomes its
      capital, any other character is kept. */
  function ToUpper(c: char): (r: char)
    ensures 'a' <= c <= 'z' ==> 'A' <= r <= 'Z' && r as int + 32 == c as int
    ensures !('a' <= c <= 'z') ==> r == c
  {
    if 'a' <= c <= 'z' then (c as int - 32) as char else c
  }

  /** `capitalizeFirstChar(text)` for the alphanumeric parts it is given. */
  function Capitalize(text: string): (r: string)
    ensures |r| == |text|
    ensures |text| > 0 ==> r[0] == ToUpper(text[0]) && r[1..] == text[1..]
  {
    if |text| == 0 then text else [ToUpper(text[0])] + text[1..]
  }

  predicate AllAlnum(s: string)
  {
    forall x :: x in s ==> IsAlnum(x)
  }

  function CapitalizeAll(parts: seq<string>): (r: seq<string>)
    ensures |r| == |parts| && forall j :: 0 <= j < |r| ==> r[j] == Capitalize(parts[j])
  {
    seq(|parts|, j requires 0 <= j < |parts| => Capitalize(parts[j]))
  }

  /** Capitalising runs of letters and digits keeps them letters and digits. */
  lemma CapitalizedAlnum(parts: seq<string>)
    requires forall j :: 0 <= j < |parts| ==> AllAlnum(parts[j])
    ensures AllAlnum(Concat(CapitalizeAll(parts)))
  {
    var caps := CapitalizeAll(parts);
    forall j | 0 <= j < |caps|
      ensures AllAlnum(caps[j])
    {
      if |parts[j]| > 0 {
        assert caps[j] == [ToUpper(parts[j][0])] + parts[j][1..];
        assert forall x :: x in parts[j][1..] ==> x in parts[j];
      }
    }
    ConcatChars(caps);
  }

  /** `indexToItemKey(key)`: `Item` for an array index; for an object key
      its capitalised alphanumeric runs, or `Field` when there are none.
      Either way a non-empty run of letters and digits. */
  function SegmentName(key: ChildKey): (r: string)
    ensures |r| >= 1 && AllAlnum(r)
    ensures key.Item? ==> r == "Item"
    ensures key.Field? && AlnumOnly(key.name) == "" ==> r == "Field"
    ensures key.Field? && AlnumOnly(key.name) != "" ==> |r| == |AlnumOnly(key.name)|
  {
    match key
    case Item => "Item"
    case Field(name) =>
      var parts := ToAlphaNumericParts(name);
      var joined := Concat(CapitalizeAll(parts));
      CapitalizedAlnum(parts);
      ConcatCapitalized(parts);
      if joined == "" then "Field" else joined
  }

  /** Capitalising the parts changes no length and no letter up to case. */
  lemma {:induction false} ConcatCapitalized(parts: seq<string>)
    ensures |Concat(CapitalizeAll(parts))| == |Concat(parts)|
    ensures forall i :: 0 <= i < |Concat(parts)| ==> ToUpper(Concat(CapitalizeAll(parts))[i]) == ToUpper(Concat(parts)[i])
  {
    if |parts| > 0 {
      var caps := CapitalizeAll(parts);
      assert caps[1..] == CapitalizeAll(parts[1..]);
      ConcatCapitalized(parts[1..]);
      var a, b := Concat(caps), Concat(parts);
      assert a == caps[0] + Concat(caps[1..]);
      assert b == parts[0] + Concat(parts[1..]);
      forall i | 0 <= i < |b| ensures ToUpper(a[i]) == ToUpper(b[i]) {
        if i >= |parts[0]| {
          assert a[i] == Concat(caps[1..])[i - |parts[0]|];
          assert b[i] == Concat(parts[1..])[i - |parts[0]|];
        } else if i > 0 {
          assert a[i] == caps[0][1..][i - 1];
        }
      }
    }
  }

  /** A key's name holds exactly its letters and digits, in order, up to
      case: the first of each alphanumeric run is upper-cased. */
  lemma SegmentNameLetters(name: string)
    requires AlnumOnly(name) != ""
    ensures var r := SegmentName(Field(name));
      |r| == |AlnumOnly(name)| && forall i :: 0 <= i < |r| ==> ToUpper(r[i]) == ToUpper(AlnumOnly(name)[i])
  {
    ConcatCapitalized(ToAlphaNumericParts(name));
  }

  /** A key of two letters or digits around one space is named by the two
      characters, each capitalised. */
  lemma TwoRunKey(a: char, b: char)
    requires IsAlnum(a) && IsAlnum(b)
    ensures SegmentName(Field([a, ' ', b])) == [ToUpper(a), ToUpper(b)]
  {
    var key := [a, ' ', b];
    assert TrimStart(key) == key && TrimEnd(key) == key;
    assert key == [a] + [' '] + [b];
    ReplaceKeepsWord([a], [' '] + [b], false);
    ReplaceRunOnce([' '], [b], true);
    ReplaceKeepsWord([b], [], true);
    assert ReplaceRuns(key, false) == key;
    assert Split(key, ' ') == [[a], [b]] by {
      assert key[1..] == [' ', b] && [' ', b][1..] == [b] && [b][1..] == [];
      assert Split([b], ' ') == [[b] + ""] + [];
      assert Split([' ', b], ' ') == [""] + [[b]];
      assert Split(key, ' ') == [[a] + ""] + [[b]];
      assert [a] + "" == [a];
    }
    var parts := ToAlphaNumericParts(key);
    assert parts == [[a], [b]];
    assert Capitalize([a]) == [ToUpper(a)] && Capitalize([b]) == [ToUpper(b)] by {
      assert [a][1..] == [] && [b][1..] == [];
    }
    var caps := [[ToUpper(a)], [ToUpper(b)]];
    assert CapitalizeAll(parts) == caps;
    assert caps[1..] == [[ToUpper(b)]] && caps[1..][1..] == [];
    assert Concat(caps) == [ToUpper(a)] + ([ToUpper(b)] + Concat([]));
  }

  /** The key `a b` of src/tests/emit.test.ts:140-190 is named `AB`: each
      alphanumeric run is capitalised. */
  lemma SegmentNameAB()
    ensures SegmentName(Field("a b")) == "AB"
  {
    TwoRunKey('a', 'b');
    assert "a b" == ['a', ' ', 'b'];
    assert [ToUpper('a'), ToUpper('b')] == "AB";
  }

  /** Keys that trim to the same text get the same name. */
  lemma SameTrimSameName(k1: string, k2: string)
    requires Trim(k1) == Trim(k2)
    ensures SegmentName(Field(k1)) == SegmentName(Field(k2))
  {
    assert ToAlphaNumericParts(k1) == ToAlphaNumericParts(k2);
  }

  /** A word with white space around it is named as the word alone. */
  lemma SpacedWord(w: string)
    requires |w| > 0 && AllAlnum(w)
    ensures SegmentName(Field(" " + w + " ")) == Capitalize(w)
  {
    var key := " " + w + " ";
    assert key[1..] == w + " ";
    assert TrimStart(key) == TrimStart(w + " ");
    assert w[0] in w && w[|w| - 1] in w;
    assert TrimStart(w + " ") == w + " ";
    assert (w + " ")[..|w|] == w;
    assert TrimEnd(w + " ") == TrimEnd(w);
    assert TrimStart(w) == w && TrimEnd(w) == w;
    SameTrimSameName(key, w);
    SegmentNameOfWord(w);
  }

  /** The key ` test ` is named `Test`: the white space around it goes. */
  lemma SegmentNameTest()
    ensures SegmentName(Field(" test ")) == "Test"
  {
    var word := "test";
    assert AllAlnum(word) by {
      forall x | x in word ensures IsAlnum(x) {
        assert x == word[0] || x == word[1] || x == word[2];
      }
    }
    SpacedWord(word);
    assert " test " == " " + word + " ";
    assert Capitalize(word) == "Test" by {
      assert ToUpper('t') == 'T';
      assert word[1..] == "est";
    }
  }

  /** Keys with no letter or digit, as in the same test, are all named
      `Field`; the generator then numbers them `Field2`, `Field3`, …. */
  lemma SegmentNameNoAlnum()
    ensures SegmentName(Field("")) == "Field"
    ensures SegmentName(Field(" ")) == "Field"
    ensures SegmentName(Field("\n")) == "Field"
    ensures SegmentName(Field("\"")) == "Field"
    ensures SegmentName(Field("\\")) == "Field"
    ensures SegmentName(Field("'")) == "Field"
  {
    assert AlnumOnly(" ") == "" + AlnumOnly("");
    assert AlnumOnly("\n") == "" + AlnumOnly("");
    assert AlnumOnly("\"") == "" + AlnumOnly("");
    assert AlnumOnly("\\") == "" + AlnumOnly("");
    assert AlnumOnly("'") == "" + AlnumOnly("");
  }

  /** Once `IRootField` is taken, the next key without letters or digits
      under the root interface gets `IRootField2`. */
  lemma NumberedFieldName()
    ensures PathToName([Field("Root"), Field(" ")], "I") == "IRootField"
    ensures NextName("IRootField", {"IRootField"}) == "IRootField2"
  {
    RootFieldPath();
    SecondFieldName("IRootField");
  }

  lemma RootFieldPath()
    ensures PathToName([Field("Root"), Field(" ")], "I") == "IRootField"
  {
    RootIsWord("Root");
    WordPathName("Root", "I");
    PathToNameAppend([Field("Root")], Field(" "), "I");
    assert [Field("Root")] + [Field(" ")] == [Field("Root"), Field(" ")];
    assert SegmentName(Field(" ")) == "Field" by {
      assert AlnumOnly(" ") == "" + AlnumOnly("");
    }
    RootFieldText("I" + "Root", "Field");
  }

  lemma RootFieldText(a: string, b: string)
    requires a == "I" + "Root" && b == "Field"
    ensures a + b == "IRootField"
  {
  }

  lemma SecondFieldName(name: string)
    requires name == "IRootField"
    ensures NextName(name, {name}) == name + "2"
  {
    assert NatToString(2) == "2";
    assert name + "2" != name;
    assert FirstFree(name, {name}, 2) == 2;
  }

  /** A key that is one word of letters and digits is just capitalised. */
  lemma SegmentNameOfWord(word: string)
    requires |word| > 0 && AllAlnum(word)
    ensures SegmentName(Field(word)) == Capitalize(word)
  {
    assert word[0] in word && word[|word| - 1] in word;
    assert Trim(word) == word;
    AlnumReplacesNothing(word);
    NoSpaceSplit(word);
    var parts := ToAlphaNumericParts(word);
    assert parts == [word];
    var caps := CapitalizeAll(parts);
    assert caps == [Capitalize(word)];
    assert Concat(caps) == Capitalize(word) + Concat([]);
  }

  lemma {:induction false} AlnumReplacesNothing(word: string)
    requires AllAlnum(word)
    ensures ReplaceRuns(word, false) == word
  {
    if |word| > 0 {
      assert AllAlnum(word[1..]) by {
        assert forall x :: x in word[1..] ==> x in word;
      }
      AlnumReplacesNothing(word[1..]);
      assert word == [word[0]] + word[1..];
    }
  }

  lemma {:induction false} NoSpaceSplit(word: string)
    requires ' ' !in word
    ensures Split(word, ' ') == [word]
  {
    if |word| > 0 {
      assert ' ' !in word[1..] by {
        assert forall x :: x in word[1..] ==> x in word;
      }
      NoSpaceSplit(word[1..]);
      assert word == [word[0]] + word[1..];
    }
  }

  function SegmentNames(path: seq<ChildKey>): (r: seq<string>)
    ensures |r| == |path|
  {
    seq(|path|, j requires 0 <= j < |path| => SegmentName(path[j]))
  }

  /** `pathToName(path, prefix)`. */
  function PathToName(path: seq<ChildKey>, prefix: string): string
  {
    prefix + Concat(SegmentNames(path))
  }

  /** A path name is the prefix followed by at least one character per path
      segment. */
  lemma PathToNameShape(path: seq<ChildKey>, prefix: string)
    ensures |PathToName(path, prefix)| >= |prefix| + |path|
    ensures PathToName(path, prefix)[..|prefix|] == prefix
  {
    SegmentNamesFacts(path);
  }

  /** What follows the prefix is letters and digits only. */
  lemma PathToNameAlnum(path: seq<ChildKey>, prefix: string)
    ensures AllAlnum(PathToName(path, prefix)[|prefix|..])
  {
    var names := SegmentNames(path);
    ConcatChars(names);
    assert PathToName(path, prefix)[|prefix|..] == Concat(names);
  }

  lemma {:induction false} SegmentNamesFacts(path: seq<ChildKey>)
    ensures |Concat(SegmentNames(path))| >= |path|
  {
    if |path| > 0 {
      var names := SegmentNames(path);
      SegmentNamesFacts(path[1..]);
      assert names[1..] == SegmentNames(path[1..]);
      assert |names[0]| >= 1;
      assert Concat(names) == names[0] + Concat(names[1..]);
    }
  }

  /** Going one level down appends that level's segment name, so a child's
      name is strictly longer than its parent's. */
  lemma PathToNameAppend(path: seq<ChildKey>, key: ChildKey, prefix: string)
    ensures PathToName(path + [key], prefix) == PathToName(path, prefix) + SegmentName(key)
    ensures |PathToName(path + [key], prefix)| > |PathToName(path, prefix)|
  {
    var names, seg := SegmentNames(path), SegmentName(key);
    assert SegmentNames(path + [key]) == names + [seg];
    PrefixConcatAppend(prefix, names, seg);
  }

  lemma PrefixConcatAppend(prefix: string, names: seq<string>, seg: string)
    ensures prefix + Concat(names + [seg]) == (prefix + Concat(names)) + seg
  {
    ConcatAppend(names, [seg]);
    assert Concat([seg]) == seg + Concat([]);
  }

  /** A name the generator may return for `base` when `used` are taken: the
      base itself when free, otherwise the base with the smallest suffix
      `2, 3, …` that is free. */
  ghost predicate FreshFor(base: string, used: set<string>, name: string)
  {
    name !in used
    && (base !in used ==> name == base)
    && (base in used ==>
          exists i :: i >= 2 && name == base + NatToString(i)
            && forall j :: 2 <= j < i ==> base + NatToString(j) in used)
  }

  lemma SuffixInjective(base: string, i: nat, j: nat)
    requires base + NatToString(i) == base + NatToString(j)
    ensures i == j
  {
    var x := base + NatToString(i);
    assert x[|base|..] == NatToString(i) && x[|base|..] == NatToString(j);
    NatToStringInjective(i, j);
  }

  /** When `base + 2`, ..., `base + i` are all used, `used` holds at least
      `i - 1` names, since those names are distinct. So the loop below ends. */
  lemma {:induction false} SuffixesBound(base: string, used: set<string>, i: nat)
    requires i >= 2
    requires forall j :: 2 <= j <= i ==> base + NatToString(j) in used
    ensures i - 1 <= |used|
    decreases i
  {
    var top := base + NatToString(i);
    var rest := used - {top};
    if i > 2 {
      forall j | 2 <= j <= i - 1 ensures base + NatToString(j) in rest {
        if base + NatToString(j) == top {
          SuffixInjective(base, i, j);
        }
      }
      SuffixesBound(base, rest, i - 1);
    }
  }

  /** The first suffix from `i` on whose numbered name is unused, when those
      from `2` to `i - 1` are all used. */
  function FirstFree(base: string, used: set<string>, i: nat): (r: nat)
    requires i >= 2 && forall j :: 2 <= j < i ==> base + NatToString(j) in used
    ensures r >= i && base + NatToString(r) !in used
    ensures forall j :: 2 <= j < r ==> base + NatToString(j) in used
    decreases |used| + 2 - i
  {
    if base + NatToString(i) !in used then i
    else
      SuffixesBound(base, used, i);
      FirstFree(base, used, i + 1)
  }

  /** The `while` loop of the generator: the smallest `i >= 2` for which
      `base + i` is unused. */
  method FirstFreeSuffix(base: string, used: set<string>) returns (i: nat)
    ensures i == FirstFree(base, used, 2)
  {
    i := 2;
    while base + NatToString(i) in used
      invariant i >= 2 && i - 2 <= |used|
      invariant forall j :: 2 <= j < i ==> base + NatToString(j) in used
      invariant FirstFree(base, used, i) == FirstFree(base, used, 2)
      decreases |used| - (i - 2)
    {
      SuffixesBound(base, used, i);
      i := i + 1;
    }
  }

  /** The name the generator hands out for `base` when `used` are taken. */
  function NextName(base: string, used: set<string>): (r: string)
    ensures FreshFor(base, used, r)
    ensures |r| >= |base| && r[..|base|] == base
  {
    if base in used then base + NatToString(FirstFree(base, used, 2)) else base
  }

  /** The generator of `getPathNameGenerator`: its `usedNames` set, and the
      names it handed out so far. */
  class NameGenerator {
    var usedNames: set<string>
    ghost const initial: set<string>
    ghost var issued: seq<string>

    /** The used names are the initial ones and those handed out, and none
        was handed out twice. */
    ghost predicate Valid()
      reads this
    {
      (forall k, l :: 0 <= k < l < |issued| ==> issued[k] != issued[l])
      && (forall n :: n in usedNames <==> n in initial || n in issued)
    }

    constructor (used: set<string>)
      ensures usedNames == used && initial == used && issued == [] && Valid()
    {
      usedNames := used;
      initial := used;
      issued := [];
    }

    /** The name for a path: `pathToName(path, prefix)` when unused, the
        first unused numbered variant otherwise; it is used from now on. */
    method Next(path: seq<ChildKey>, prefix: string) returns (name: string)
      requires Valid()
      modifies this
      ensures Valid()
      ensures name == NextName(PathToName(path, prefix), old(usedNames))
      ensures usedNames == old(usedNames) + {name} && issued == old(issued) + [name]
    {
      var base := PathToName(path, prefix);
      if base in usedNames {
        var i := FirstFreeSuffix(base, usedNames);
        name := base + NatToString(i);
      } else {
        name := base;
      }
      usedNames := usedNames + {name};
      issued := issued + [name];
    }
  }

  /** `memoize(generator)`: a call with the same arguments as the previous
      one returns the previous result without asking the generator. */
  class Memo {
    const gen: NameGenerator
    var last: Option<(seq<ChildKey>, string)>
    var lastResult: string

    constructor (gen: NameGenerator)
      ensures this.gen == gen && last == None && fresh(this)
    {
      this.gen := gen;
      last := None;
      lastResult := "";
    }

    method Call(path: seq<ChildKey>, prefix: string) returns (name: string)
      requires gen.Valid()
      modifies this, gen
      ensures gen.Valid()
      ensures old(last) == Some((path, prefix)) ==>
        name == old(lastResult) && last == old(last) && gen.usedNames == old(gen.usedNames) && gen.issued == old(gen.issued)
      ensures old(last) != Some((path, prefix)) ==>
        name == NextName(PathToName(path, prefix), old(gen.usedNames))
        && gen.usedNames == old(gen.usedNames) + {name} && gen.issued == old(gen.issued) + [name]
      ensures last == Some((path, prefix)) && lastResult == name
    {
      if last == Some((path, prefix)) {
        name := lastResult;
      } else {
        name := gen.Next(path, prefix);
        last := Some((path, prefix));
        lastResult := name;
      }
    }
  }

  // ----- unions and declarations -----

  /** `inlineUnion(items)`. */
  function InlineUnion(items: seq<string>): (r: string)
    ensures |items| == 0 ==> r == ""
    ensures |items| == 1 ==> r == items[0]
  {
    Join(items, " | ")
  }

  /** `groupedUnion(items)`; with no item the template renders `undefined`. */
  function GroupedUnion(items: seq<string>): (r: string)
    ensures r == "(" + InlineUnion(items) + ")" <==> |items| > 1
    ensures |items| == 1 ==> r == items[0] == InlineUnion(items)
  {
    if |items| > 1 then "(" + InlineUnion(items) + ")"
    else if |items| == 1 then items[0]
    else
      assert |"(" + InlineUnion(items) + ")"| == 2;
      "undefined"
  }

  /** `renderDeclaration({lValue, rValue, isInterface})`. */
  function RenderDeclaration(lValue: string, rValue: string, isInterface: bool): (r: string)
  {
    if isInterface then "interface " + lValue + " " + rValue else "type " + lValue + " = " + rValue + ";"
  }

  /** The kind and the name can be read off a declaration: an interface
      starts with `i`, an alias with `t` and ends with `;`, and the declared
      name follows the keyword. */
  lemma DeclaredName(lValue: string, rValue: string, isInterface: bool)
    ensures var r := RenderDeclaration(lValue, rValue, isInterface);
      var head := if isInterface then "interface " else "type ";
      |r| > |head| + |lValue| && r[..|head|] == head && r[|head|..|head| + |lValue|] == lValue
      && (r[0] == 'i' <==> isInterface) && (!isInterface ==> r[|r| - 1] == ';')
  {
  }

  /** The check at src/emit.ts:100: a single identifier that is an object
      literal. */
  predicate IsInterfaceUnion(ids: seq<string>)
  {
    |ids| == 1 && |ids[0]| > 0 && ids[0][0] == '{'
  }

  /** The types of a node that are not containers, in order. */
  function PrimitiveTypes(types: seq<string>): (r: seq<string>)
    ensures forall t :: t in r <==> t in types && t != "object" && t != "array"
  {
    if |types| == 0 then []
    else (if types[0] != "object" && types[0] != "array" then [types[0]] else []) + PrimitiveTypes(types[1..])
  }

  function IndexedChildren(cs: seq<Child>): (r: seq<Child>)
    ensures forall c :: c in r <==> c in cs && c.key.Item?
  {
    if |cs| == 0 then [] else (if cs[0].key.Item? then [cs[0]] else []) + IndexedChildren(cs[1..])
  }

  function KeyedChildren(cs: seq<Child>): (r: seq<Child>)
    ensures forall c :: c in r <==> c in cs && c.key.Field?
  {
    if |cs| == 0 then [] else (if cs[0].key.Field? then [cs[0]] else []) + KeyedChildren(cs[1..])
  }

  /** `b` is `a` with more names after it. */
  ghost predicate Extends(a: seq<string>, b: seq<string>)
  {
    |a| <= |b| && b[..|a|] == a
  }

  /** Two growth steps, each drawing names longer than `bound`, make one. */
  lemma GrowTwice(a: seq<string>, b: seq<string>, c: seq<string>, bound: nat)
    requires Extends(a, b) && Extends(b, c)
    requires LongerSince(b, |a|, bound) && LongerSince(c, |b|, bound)
    ensures Extends(a, c) && LongerSince(c, |a|, bound)
  {
    assert c[..|b|][..|a|] == c[..|a|];
  }

  /** The names handed out since `from` are all longer than `bound`. */
  ghost predicate LongerSince(issued: seq<string>, from: nat, bound: nat)
  {
    forall k :: from <= k < |issued| ==> |issued[k]| > bound
  }

  /** The array item types: each item union grouped, followed by `[]`. */
  function ItemArrays(idss: seq<seq<string>>): (r: seq<string>)
    ensures |r| == |idss|
    ensures forall j :: 0 <= j < |idss| ==> r[j] == GroupedUnion(idss[j]) + "[]"
  {
    seq(|idss|, j requires 0 <= j < |idss| => GroupedUnion(idss[j]) + "[]")
  }

  /** The field entries: each key with its child's inline union. */
  function FieldEntries(keyed: seq<Child>, idss: seq<seq<string>>): (r: seq<(string, string)>)
    requires |idss| == |keyed| && forall j :: 0 <= j < |keyed| ==> keyed[j].key.Field?
    ensures |r| == |keyed|
  {
    seq(|keyed|, j requires 0 <= j < |keyed| => (keyed[j].key.name, InlineUnion(idss[j])))
  }

  function ChildrenOf(node: TypeNode): seq<Child>
  {
    if node.children.Present? then node.children.entries else []
  }

  /** The identifiers of a node before its object part: its primitive
      types, then `any[]` for an array type without items, then one grouped
      item union with `[]` per item child. */
  function ArrayIdentifiers(types: seq<string>, noItems: bool, itemIdss: seq<seq<string>>): (r: seq<string>)
    ensures (exists t :: t in types && t != "object" && t != "array") ==> |r| > 0
  {
    PrimitiveTypes(types) + (if "array" in types && noItems then ["any[]"] else []) + ItemArrays(itemIdss)
  }

  /** Where each part sits in `ArrayIdentifiers`: the primitive types
      first, then `any[]` exactly when the node has the array type and no
      item child, then one `<grouped item union>[]` per item child, in
      order. */
  lemma ArrayIdentifiersLayout(types: seq<string>, noItems: bool, itemIdss: seq<seq<string>>)
    ensures var extra := if "array" in types && noItems then 1 else 0;
      |ArrayIdentifiers(types, noItems, itemIdss)| == |PrimitiveTypes(types)| + extra + |itemIdss|
    ensures ArrayIdentifiers(types, noItems, itemIdss)[..|PrimitiveTypes(types)|] == PrimitiveTypes(types)
    ensures "array" in types && noItems ==> ArrayIdentifiers(types, noItems, itemIdss)[|PrimitiveTypes(types)|] == "any[]"
    ensures var r := ArrayIdentifiers(types, noItems, itemIdss);
      |r| >= |itemIdss| && r[|r| - |itemIdss|..] == ItemArrays(itemIdss)
  {
    var mid: seq<string> := if "array" in types && noItems then ["any[]"] else [];
    ThreeParts(PrimitiveTypes(types), mid, ItemArrays(itemIdss));
  }

  /** The last element of `a + b` is the last of `b`. */
  lemma LastOfAppend<T>(a: seq<T>, b: seq<T>)
    requires |b| > 0
    ensures (a + b)[|a + b| - 1] == b[|b| - 1]
  {
  }

  /** Indexing into a concatenation of three sequences. */
  lemma ThreeParts<T>(a: seq<T>, b: seq<T>, c: seq<T>)
    ensures |a + b + c| == |a| + |b| + |c|
    ensures (a + b + c)[..|a|] == a
    ensures |b| > 0 ==> (a + b + c)[|a|] == b[0]
    ensures (a + b + c)[|a| + |b|..] == c
  {
    assert (a + b + c)[..|a|] == a;
    assert (a + b + c)[|a| + |b|..] == c;
  }

  /** What `getIdentifiers` gives back, with the names the generator holds
      once it returns. */
  datatype Out = Out(ids: seq<string>, decls: seq<string>, used: set<string>)

  /** What one `reduce` over children gives back: each child's identifiers,
      all their declarations, and the names the generator then holds. */
  datatype ChildOuts = ChildOuts(idss: seq<seq<string>>, decls: seq<string>, used: set<string>)

  /** The `reduce` over the children `cs` of `parent` (lines 43-58 and
      63-77 of src/emit.ts), child after child: each is walked under the
      path extended by its key, with the names the previous ones left. */
  function ChildrenOut(ghost parent: TypeNode, path: seq<ChildKey>, cs: seq<Child>, used: set<string>): (r: ChildOuts)
    requires forall c :: c in cs ==> c in ChildrenOf(parent)
    ensures |r.idss| == |cs|
    decreases parent, 0, |cs|
  {
    if |cs| == 0 then ChildOuts([], [], used)
    else
      assert cs[0] in cs && cs[0] in ChildrenOf(parent);
      assert parent.children.Present? && cs[0] in parent.children.entries;
      var first := NodeOut(path + [cs[0].key], cs[0].node, used, false, false);
      var rest := ChildrenOut(parent, path, cs[1..], first.used);
      ChildOuts([first.ids] + rest.idss, first.decls + rest.decls, rest.used)
  }

  /** Lines 80-96 of src/emit.ts: with an object type and no fields the
      identifier `any`; with fields the object literal of the field lines,
      inlined, or declared as an interface under the next name for
      `I<path name>`. */
  function ObjectOut(path: seq<ChildKey>, node: TypeNode, keyed: seq<Child>, keyedIdss: seq<seq<string>>,
                     used: set<string>, inlineObject: bool): (r: Out)
    requires |keyedIdss| == |keyed| && forall j :: 0 <= j < |keyed| ==> keyed[j].key.Field?
    ensures |keyed| == 0 ==> r == Out(if "object" in node.types then ["any"] else [], [], used)
    ensures |keyed| > 0 && inlineObject ==>
      r == Out([ObjectLiteral(FieldLines(FieldEntries(keyed, keyedIdss), node.requiredKeys))], [], used)
    ensures |keyed| > 0 && !inlineObject ==>
      && |r.ids| == 1 && FreshFor(PathToName(path, "I"), used, r.ids[0])
      && r.decls == [RenderDeclaration(r.ids[0], ObjectLiteral(FieldLines(FieldEntries(keyed, keyedIdss), node.requiredKeys)), true)]
      && r.used == used + {r.ids[0]}
  {
    var hasEmptyObject := "object" in node.types && |keyed| == 0;
    if !hasEmptyObject && |keyed| == 0 then Out([], [], used)
    else
      var body := if hasEmptyObject then "any" else ObjectLiteral(FieldLines(FieldEntries(keyed, keyedIdss), node.requiredKeys));
      if hasEmptyObject || inlineObject then Out([body], [], used)
      else
        var name := NextName(PathToName(path, "I"), used);
        Out([name], [RenderDeclaration(name, InlineUnion([body]), true)], used + {name})
  }

  /** Lines 34-96 of src/emit.ts: the node's union before its own
      declaration — its array identifiers, then its object identifier — and
      the declarations of its object part, its item children and its keyed
      children, in that order. */
  function UnionOut(path: seq<ChildKey>, node: TypeNode, used: set<string>, inlineObject: bool): (r: Out)
    decreases node, 1
  {
    var children := ChildrenOf(node);
    var indexed := IndexedChildren(children);
    var keyed := KeyedChildren(children);
    var ix := ChildrenOut(node, path, indexed, used);
    var kx := ChildrenOut(node, path, keyed, ix.used);
    assert forall j :: 0 <= j < |keyed| ==> keyed[j] in keyed;
    var obj := ObjectOut(path, node, keyed, kx.idss, kx.used, inlineObject);
    Out(ArrayIdentifiers(node.types, |indexed| == 0, ix.idss) + obj.ids, obj.decls + (ix.decls + kx.decls), obj.used)
  }

  /** `getIdentifiers(path, node, config)`: the union, and with
      `declarePrimitive` the declaration of the whole union in front, under
      the next name for the path (`I`-prefixed when the union is one object
      literal). */
  function NodeOut(path: seq<ChildKey>, node: TypeNode, used: set<string>, declarePrimitive: bool, inlineObject: bool): (r: Out)
    decreases node, 2
  {
    WithDeclaration(path, UnionOut(path, node, used, inlineObject), declarePrimitive)
  }

  /** Lines 98-108 of src/emit.ts: with `declarePrimitive` and a non-empty
      union, the declaration of the union goes in front, under the next name
      for the path (`I`-prefixed when the union is one object literal). */
  function WithDeclaration(path: seq<ChildKey>, u: Out, declarePrimitive: bool): (r: Out)
  {
    if |u.ids| > 0 && declarePrimitive then
      var isInterface := IsInterfaceUnion(u.ids);
      var name := NextName(PathToName(path, if isInterface then "I" else ""), u.used);
      Out(u.ids, [RenderDeclaration(name, InlineUnion(u.ids), isInterface)] + u.decls, u.used + {name})
    else u
  }

  /** One of the two `reduce`s over the children of a node: the identifiers
      of each child, under the path extended by the child's key, and all
      their declarations in order, as `ChildrenOut` gives them. Every name
      drawn is longer than the path's own name. */
  method ChildIdentifiers(ghost parent: TypeNode, path: seq<ChildKey>, cs: seq<Child>, gen: NameGenerator)
    returns (idss: seq<seq<string>>, decls: seq<string>)
    requires forall c :: c in cs ==> c in ChildrenOf(parent)
    requires gen.Valid()
    modifies gen
    ensures gen.Valid()
    ensures ChildOuts(idss, decls, gen.usedNames) == ChildrenOut(parent, path, cs, old(gen.usedNames))
    ensures Extends(old(gen.issued), gen.issued)
    ensures LongerSince(gen.issued, |old(gen.issued)|, |PathToName(path, "")| + 1)
    ensures |cs| == 0 ==> gen.issued == old(gen.issued)
    decreases parent, 1
  {
    idss := [];
    decls := [];
    var j := 0;
    while j < |cs|
      invariant 0 <= j <= |cs| && |idss| == j
      invariant gen.Valid()
      invariant var rest := ChildrenOut(parent, path, cs[j..], gen.usedNames);
        ChildrenOut(parent, path, cs, old(gen.usedNames)) == ChildOuts(idss + rest.idss, decls + rest.decls, rest.used)
      invariant Extends(old(gen.issued), gen.issued)
      invariant LongerSince(gen.issued, |old(gen.issued)|, |PathToName(path, "")| + 1)
      invariant j == 0 ==> gen.issued == old(gen.issued)
    {
      ghost var before := gen.issued;
      ghost var usedBefore := gen.usedNames;
      var childIds, childDecls := WalkChild(parent, path, cs, j, gen);
      GrowTwice(old(gen.issued), before, gen.issued, |PathToName(path, "")| + 1);
      ChildrenOutStep(parent, path, cs, j, usedBefore, gen.usedNames, childIds, childDecls, idss, decls);
      idss := idss + [childIds];
      decls := decls + childDecls;
      j := j + 1;
    }
    assert cs[j..] == [];
  }

  /** The walk of the child `cs[j]`, under the path extended by its key. */
  method WalkChild(ghost parent: TypeNode, path: seq<ChildKey>, cs: seq<Child>, j: nat, gen: NameGenerator)
    returns (ids: seq<string>, decls: seq<string>)
    requires j < |cs| && forall c :: c in cs ==> c in ChildrenOf(parent)
    requires gen.Valid()
    modifies gen
    ensures gen.Valid()
    ensures Out(ids, decls, gen.usedNames) == NodeOut(path + [cs[j].key], cs[j].node, old(gen.usedNames), false, false)
    ensures Extends(old(gen.issued), gen.issued)
    ensures LongerSince(gen.issued, |old(gen.issued)|, |PathToName(path, "")| + 1)
    decreases parent, 0
  {
    assert cs[j] in cs;
    assert parent.children.Present? && cs[j] in parent.children.entries;
    PathToNameAppend(path, cs[j].key, "");
    ids, decls := GetIdentifiers(path + [cs[j].key], cs[j].node, gen, false, false);
  }

  /** One more child moves the `reduce` one step on. */
  lemma ChildrenOutStep(parent: TypeNode, path: seq<ChildKey>, cs: seq<Child>, j: nat, u0: set<string>, u1: set<string>,
                        ids: seq<string>, ds: seq<string>, idss: seq<seq<string>>, decls: seq<string>)
    requires j < |cs| && forall c :: c in cs ==> c in ChildrenOf(parent)
    requires Out(ids, ds, u1) == NodeOut(path + [cs[j].key], cs[j].node, u0, false, false)
    ensures var rest0 := ChildrenOut(parent, path, cs[j..], u0);
      var rest1 := ChildrenOut(parent, path, cs[j + 1..], u1);
      ChildOuts(idss + rest0.idss, decls + rest0.decls, rest0.used)
        == ChildOuts((idss + [ids]) + rest1.idss, (decls + ds) + rest1.decls, rest1.used)
  {
    assert cs[j..][0] == cs[j] && cs[j..][1..] == cs[j + 1..];
    var rest1 := ChildrenOut(parent, path, cs[j + 1..], u1);
    assert idss + ([ids] + rest1.idss) == (idss + [ids]) + rest1.idss;
    assert decls + (ds + rest1.decls) == (decls + ds) + rest1.decls;
  }

  /** Lines 80-96 of src/emit.ts, `ObjectOut` drawn through the memo: the
      second call for the interface name returns the first one's, so one
      name is drawn, and the memo then remembers it. */
  method ObjectIdentifier(path: seq<ChildKey>, node: TypeNode, keyed: seq<Child>, keyedIdss: seq<seq<string>>,
                          memo: Memo, inlineObject: bool)
    returns (extraIds: seq<string>, extraDecls: seq<string>)
    requires |keyedIdss| == |keyed| && forall j :: 0 <= j < |keyed| ==> keyed[j].key.Field?
    requires memo.gen.Valid() && memo.last == None
    modifies memo, memo.gen
    ensures memo.gen.Valid()
    ensures Out(extraIds, extraDecls, memo.gen.usedNames)
      == ObjectOut(path, node, keyed, keyedIdss, old(memo.gen.usedNames), inlineObject)
    ensures memo.last.Some? ==>
      memo.last == Some((path, "I")) && |extraIds| == 1 && |extraIds[0]| > 0 && extraIds[0][0] == 'I'
    ensures Extends(old(memo.gen.issued), memo.gen.issued)
    ensures LongerSince(memo.gen.issued, |old(memo.gen.issued)|, |PathToName(path, "")|)
    ensures inlineObject ==> memo.last == None && memo.gen.issued == old(memo.gen.issued)
  {
    var hasEmptyObject := "object" in node.types && |keyed| == 0;
    extraIds := [];
    extraDecls := [];
    if hasEmptyObject || |keyed| > 0 {
      var body := if hasEmptyObject then "any" else ObjectLiteral(FieldLines(FieldEntries(keyed, keyedIdss), node.requiredKeys));
      if hasEmptyObject || inlineObject {
        extraIds := [body];
      } else {
        var name, decl := DeclareInterface(path, body, memo);
        extraIds := [name];
        extraDecls := [decl];
      }
    }
  }

  /** Lines 87-94 of src/emit.ts: the interface name is asked for twice and
      drawn once, the memo returning the first answer. */
  method DeclareInterface(path: seq<ChildKey>, body: string, memo: Memo) returns (name: string, decl: string)
    requires memo.gen.Valid() && memo.last == None
    modifies memo, memo.gen
    ensures memo.gen.Valid()
    ensures name == NextName(PathToName(path, "I"), old(memo.gen.usedNames))
    ensures decl == RenderDeclaration(name, body, true)
    ensures memo.gen.usedNames == old(memo.gen.usedNames) + {name}
    ensures memo.last == Some((path, "I")) && |name| > 0 && name[0] == 'I'
    ensures Extends(old(memo.gen.issued), memo.gen.issued)
    ensures LongerSince(memo.gen.issued, |old(memo.gen.issued)|, |PathToName(path, "")|)
  {
    name := memo.Call(path, "I");
    assert PathToName(path, "I") == "I" + PathToName(path, "");
    assert name[..|PathToName(path, "I")|][0] == 'I';
    var same := memo.Call(path, "I");
    assert InlineUnion([body]) == body;
    decl := RenderDeclaration(same, InlineUnion([body]), true);
    assert memo.gen.issued == old(memo.gen.issued) + [name];
  }

  /** `getIdentifiers(path, node, config)`: the identifiers of the node's
      union and the declarations it needs, exactly as `NodeOut` gives them,
      drawing the names `NodeOut` names from the generator. Every name drawn
      below this node is longer than this node's own name. */
  method GetIdentifiers(path: seq<ChildKey>, node: TypeNode, gen: NameGenerator, declarePrimitive: bool, inlineObject: bool)
    returns (ids: seq<string>, decls: seq<string>)
    requires gen.Valid()
    modifies gen
    ensures gen.Valid()
    ensures Out(ids, decls, gen.usedNames) == NodeOut(path, node, old(gen.usedNames), declarePrimitive, inlineObject)
    ensures Extends(old(gen.issued), gen.issued)
    ensures |node.types| > 0 ==> |ids| > 0
    ensures node.children.Absent? ==> ids == LeafIdentifiers(node.types)
    ensures node.children.Absent? && !(declarePrimitive && |ids| > 0) ==> decls == []
    ensures !(declarePrimitive && |ids| > 0) ==> LongerSince(gen.issued, |old(gen.issued)|, |PathToName(path, "")|)
    ensures declarePrimitive && inlineObject && |ids| > 0 ==> RootDeclared(path, ids, decls, gen.issued, gen.usedNames, |old(gen.issued)|)
    ensures declarePrimitive && inlineObject && |ids| > 0 && node.children.Absent? ==> |decls| == 1
    decreases node, 4
  {
    var memo := new Memo(gen);
    ghost var s0 := gen.issued;
    ids, decls := UnionParts(path, node, memo, inlineObject);
    decls := DeclareIfAsked(path, ids, decls, memo, declarePrimitive, |s0|);
  }

  /** Lines 98-108 of src/emit.ts, `WithDeclaration` drawn through the memo.
      The memo can only remember the interface name of lines 87-94, which
      ends the union and so never makes it a single object literal: the
      union's name is always drawn fresh. */
  method DeclareIfAsked(path: seq<ChildKey>, ids: seq<string>, decls: seq<string>, memo: Memo,
                        declarePrimitive: bool, ghost from: nat) returns (decls': seq<string>)
    requires memo.gen.Valid()
    requires memo.last.Some? ==>
      memo.last == Some((path, "I")) && |ids| > 0 && |ids[|ids| - 1]| > 0 && ids[|ids| - 1][0] == 'I'
    modifies memo, memo.gen
    ensures memo.gen.Valid()
    ensures Out(ids, decls', memo.gen.usedNames) == WithDeclaration(path, Out(ids, decls, old(memo.gen.usedNames)), declarePrimitive)
    ensures Extends(old(memo.gen.issued), memo.gen.issued)
    ensures !(declarePrimitive && |ids| > 0) ==> decls' == decls && memo.gen.issued == old(memo.gen.issued)
    ensures declarePrimitive && |ids| > 0 && old(memo.last) == None && from <= |old(memo.gen.issued)|
      && LongerSince(old(memo.gen.issued), from, |PathToName(path, "")| + 1)
      ==> RootDeclared(path, ids, decls', memo.gen.issued, memo.gen.usedNames, from)
  {
    decls' := decls;
    if |ids| > 0 && declarePrimitive {
      ghost var s1 := memo.gen.issued;
      var decl := DeclareUnion(path, ids, memo);
      decls' := [decl] + decls;
      if old(memo.last) == None {
        assert memo.gen.issued[..|memo.gen.issued| - 1] == s1 by {
          assert memo.gen.issued[..|s1|] == s1;
        }
      }
    }
  }

  /** Lines 34-96 of src/emit.ts: the identifiers and declarations of a node
      before its own declaration, as `UnionOut` gives them. With
      `inlineObject` no name is drawn at this level, so every name drawn is
      a descendant's; without it the memo may remember the interface name,
      which then ends the union. */
  method UnionParts(path: seq<ChildKey>, node: TypeNode, memo: Memo, inlineObject: bool)
    returns (ids: seq<string>, decls: seq<string>)
    requires memo.gen.Valid() && memo.last == None
    modifies memo, memo.gen
    ensures memo.gen.Valid()
    ensures Out(ids, decls, memo.gen.usedNames) == UnionOut(path, node, old(memo.gen.usedNames), inlineObject)
    ensures memo.last.Some? ==>
      memo.last == Some((path, "I")) && |ids| > 0 && |ids[|ids| - 1]| > 0 && ids[|ids| - 1][0] == 'I'
    ensures Extends(old(memo.gen.issued), memo.gen.issued)
    ensures LongerSince(memo.gen.issued, |old(memo.gen.issued)|, |PathToName(path, "")|)
    ensures inlineObject ==>
      memo.last == None && LongerSince(memo.gen.issued, |old(memo.gen.issued)|, |PathToName(path, "")| + 1)
    ensures |node.types| > 0 ==> |ids| > 0
    ensures node.children.Absent? ==> ids == LeafIdentifiers(node.types) && decls == []
    decreases node, 3
  {
    var gen := memo.gen;
    ghost var s0 := gen.issued;
    ghost var bound := |PathToName(path, "")|;
    var children := ChildrenOf(node);
    var indexed := IndexedChildren(children);
    var keyed := KeyedChildren(children);

    var indexedIdss, indexedDecls, keyedIdss, keyedDecls := ChildParts(path, node, gen);
    ghost var s2 := gen.issued;

    ids, decls := UnionTail(path, node, indexedIdss, keyedIdss, indexedDecls + keyedDecls, memo, inlineObject);
    ghost var s3 := gen.issued;
    LongerSinceWeaker(s2, |s0|, bound + 1, bound);
    GrowTwice(s0, s2, s3, bound);
    UnionOutShape(path, node, old(memo.gen.usedNames), inlineObject);
  }

  /** The last step of a union, once the children are walked: the array
      part of the identifiers, then the object part drawn through the memo;
      the object's declaration goes before the children's. */
  method UnionTail(path: seq<ChildKey>, node: TypeNode, indexedIdss: seq<seq<string>>, keyedIdss: seq<seq<string>>,
                   childDecls: seq<string>, memo: Memo, inlineObject: bool)
    returns (ids: seq<string>, decls: seq<string>)
    requires |keyedIdss| == |KeyedChildren(ChildrenOf(node))|
    requires memo.gen.Valid() && memo.last == None
    modifies memo, memo.gen
    ensures memo.gen.Valid()
    ensures var keyed := KeyedChildren(ChildrenOf(node));
      (forall j :: 0 <= j < |keyed| ==> keyed[j].key.Field?)
      && var obj := ObjectOut(path, node, keyed, keyedIdss, old(memo.gen.usedNames), inlineObject);
      Out(ids, decls, memo.gen.usedNames)
        == Out(ArrayIdentifiers(node.types, |IndexedChildren(ChildrenOf(node))| == 0, indexedIdss) + obj.ids,
               obj.decls + childDecls, obj.used)
    ensures memo.last.Some? ==>
      memo.last == Some((path, "I")) && |ids| > 0 && |ids[|ids| - 1]| > 0 && ids[|ids| - 1][0] == 'I'
    ensures Extends(old(memo.gen.issued), memo.gen.issued)
    ensures LongerSince(memo.gen.issued, |old(memo.gen.issued)|, |PathToName(path, "")|)
    ensures inlineObject ==> memo.last == None && memo.gen.issued == old(memo.gen.issued)
  {
    var keyed := KeyedChildren(ChildrenOf(node));
    assert forall j :: 0 <= j < |keyed| ==> keyed[j] in keyed;
    var arrayIds := ArrayIdentifiers(node.types, |IndexedChildren(ChildrenOf(node))| == 0, indexedIdss);
    var extraIds, extraDecls := ObjectIdentifier(path, node, keyed, keyedIdss, memo, inlineObject);
    ids := arrayIds + extraIds;
    decls := extraDecls + childDecls;
    if memo.last.Some? {
      LastOfAppend(arrayIds, extraIds);
    }
  }

  /** A node with a type has a non-empty union; a node without children has
      the union of its types alone and declares nothing. */
  lemma UnionOutShape(path: seq<ChildKey>, node: TypeNode, used: set<string>, inlineObject: bool)
    ensures |node.types| > 0 ==> |UnionOut(path, node, used, inlineObject).ids| > 0
    ensures node.children.Absent? ==>
      UnionOut(path, node, used, inlineObject).ids == LeafIdentifiers(node.types)
      && UnionOut(path, node, used, inlineObject).decls == []
  {
    var children := ChildrenOf(node);
    var indexed := IndexedChildren(children);
    var keyed := KeyedChildren(children);
    var ix := ChildrenOut(node, path, indexed, used);
    var kx := ChildrenOut(node, path, keyed, ix.used);
    assert forall j :: 0 <= j < |keyed| ==> keyed[j] in keyed;
    var obj := ObjectOut(path, node, keyed, kx.idss, kx.used, inlineObject);
    if node.children.Absent? {
      assert indexed == [] && keyed == [];
    }
    if |node.types| > 0 {
      if |indexed| > 0 {
        assert |ix.idss| > 0;
      }
      UnionNonEmpty(node.types, |indexed| == 0, ix.idss, obj.ids);
    }
  }

  /** The two `reduce`s of lines 43-77 of src/emit.ts: the item children,
      then the keyed children with the names the items left. */
  method ChildParts(path: seq<ChildKey>, node: TypeNode, gen: NameGenerator)
    returns (indexedIdss: seq<seq<string>>, indexedDecls: seq<string>, keyedIdss: seq<seq<string>>, keyedDecls: seq<string>)
    requires gen.Valid()
    modifies gen
    ensures gen.Valid()
    ensures var ix := ChildrenOut(node, path, IndexedChildren(ChildrenOf(node)), old(gen.usedNames));
      var kx := ChildrenOut(node, path, KeyedChildren(ChildrenOf(node)), ix.used);
      && ix == ChildOuts(indexedIdss, indexedDecls, ix.used)
      && kx == ChildOuts(keyedIdss, keyedDecls, gen.usedNames)
    ensures Extends(old(gen.issued), gen.issued)
    ensures LongerSince(gen.issued, |old(gen.issued)|, |PathToName(path, "")| + 1)
    decreases node, 2
  {
    var children := ChildrenOf(node);
    ghost var s0 := gen.issued;
    indexedIdss, indexedDecls := ChildIdentifiers(node, path, IndexedChildren(children), gen);
    ghost var s1 := gen.issued;
    keyedIdss, keyedDecls := ChildIdentifiers(node, path, KeyedChildren(children), gen);
    GrowTwice(s0, s1, gen.issued, |PathToName(path, "")| + 1);
  }

  lemma LongerSinceWeaker(a: seq<string>, from: nat, bound: nat, lower: nat)
    requires LongerSince(a, from, bound) && lower <= bound
    ensures LongerSince(a, from, lower)
  {
  }

  /** Lines 98-107 of src/emit.ts: the declaration of the whole union, an
      interface when the union is a single object literal, under the next
      name for the path unless the memo remembers that very call. */
  method DeclareUnion(path: seq<ChildKey>, ids: seq<string>, memo: Memo) returns (decl: string)
    requires memo.gen.Valid()
    modifies memo, memo.gen
    ensures memo.gen.Valid()
    ensures Extends(old(memo.gen.issued), memo.gen.issued)
    ensures var prefix := if IsInterfaceUnion(ids) then "I" else "";
      old(memo.last) != Some((path, prefix)) ==>
        var name := NextName(PathToName(path, prefix), old(memo.gen.usedNames));
        decl == RenderDeclaration(name, InlineUnion(ids), IsInterfaceUnion(ids))
        && memo.gen.usedNames == old(memo.gen.usedNames) + {name}
    ensures old(memo.last) == None ==>
      |memo.gen.issued| == |old(memo.gen.issued)| + 1
      && memo.gen.issued[..|old(memo.gen.issued)|] == old(memo.gen.issued)
      && decl == RenderDeclaration(memo.gen.issued[|memo.gen.issued| - 1], InlineUnion(ids), IsInterfaceUnion(ids))
      && FreshFor(PathToName(path, if IsInterfaceUnion(ids) then "I" else ""),
                  memo.gen.usedNames - {memo.gen.issued[|memo.gen.issued| - 1]}, memo.gen.issued[|memo.gen.issued| - 1])
  {
    var isInterface := IsInterfaceUnion(ids);
    var name := memo.Call(path, if isInterface then "I" else "");
    if old(memo.last) == None {
      assert memo.gen.issued[..|memo.gen.issued| - 1] == old(memo.gen.issued);
      assert memo.gen.usedNames - {name} == old(memo.gen.usedNames);
    }
    decl := RenderDeclaration(name, InlineUnion(ids), isInterface);
  }

  lemma UnionNonEmpty(types: seq<string>, noItems: bool, itemIdss: seq<seq<string>>, extra: seq<string>)
    requires |types| > 0 && (noItems <==> |itemIdss| == 0) && ("object" in types ==> |extra| == 1)
    ensures |ArrayIdentifiers(types, noItems, itemIdss) + extra| > 0
  {
    assert types[0] in types;
  }

  /** The identifiers of a node without children. */
  function LeafIdentifiers(types: seq<string>): seq<string>
  {
    PrimitiveTypes(types) + (if "array" in types then ["any[]"] else []) + (if "object" in types then ["any"] else [])
  }

  /** The union of `ids` is declared first in `decls` under the last name
      drawn, which was drawn fresh for the path's name (prefixed with `I` for
      an interface); the names drawn before it, since `from`, are longer
      than the path's name plus one character. */
  ghost predicate RootDeclared(path: seq<ChildKey>, ids: seq<string>, decls: seq<string>,
                               issued: seq<string>, usedNames: set<string>, from: nat)
  {
    |decls| >= 1 && |issued| > from
    && LongerSince(issued[..|issued| - 1], from, |PathToName(path, "")| + 1)
    && decls[0] == RenderDeclaration(issued[|issued| - 1], InlineUnion(ids), IsInterfaceUnion(ids))
    && FreshFor(PathToName(path, if IsInterfaceUnion(ids) then "I" else ""), usedNames - {issued[|issued| - 1]}, issued[|issued| - 1])
  }

  // ----- emit -----

  /** `EmitConfig`; `interfacePrefix` is accepted and never read. */
  datatype EmitConfig = EmitConfig(rootName: Option<string>, interfacePrefix: Option<string>)

  function RootName(config: EmitConfig): string
  {
    if config.rootName.Some? then config.rootName.value else "Root"
  }

  /** The first declaration `emit` writes for a root whose union is `ids`:
      an interface `I<Name>` when the union is a single object literal, a
      type alias `<Name>` otherwise, where `<Name>` is the root name turned
      into a path segment name. */
  function RootDeclaration(rootName: string, ids: seq<string>): string
  {
    var isInterface := IsInterfaceUnion(ids);
    RenderDeclaration(PathToName([Field(rootName)], if isInterface then "I" else ""), InlineUnion(ids), isInterface)
  }

  /** What `emit(node, config)` returns: an error for a root without a
      type, otherwise the declarations of the root, walked with
      `declarePrimitive` and `inlineObject` and a generator holding no
      name, joined by blank lines. */
  function EmitSpec(node: TypeNode, config: EmitConfig): Result<string>
  {
    if |node.types| == 0 then Err("Root node is missing type")
    else Ok(Join(NodeOut([Field(RootName(config))], node, {}, true, true).decls, "\n\n"))
  }

  /** `emit(node, config)`: the declarations joined by blank lines, the
      root's first, under the root name itself (the root name is never
      numbered, since every name drawn below the root is longer). */
  method Emit(node: TypeNode, config: EmitConfig) returns (r: Result<string>)
    ensures r == EmitSpec(node, config)
    ensures r.Err? <==> |node.types| == 0
    ensures r.Err? ==> r.message == "Root node is missing type"
    ensures r.Ok? ==>
      var out := NodeOut([Field(RootName(config))], node, {}, true, true);
      |out.ids| > 0 && |out.decls| > 0 && out.decls[0] == RootDeclaration(RootName(config), out.ids)
    ensures r.Ok? && node.children.Absent? ==> r.value == RootDeclaration(RootName(config), LeafIdentifiers(node.types))
  {
    if |node.types| == 0 {
      return Err("Root node is missing type");
    }
    var rootName := RootName(config);
    var gen := new NameGenerator({});
    var ids, decls := GetIdentifiers([Field(rootName)], node, gen, true, true);
    var name := gen.issued[|gen.issued| - 1];
    var base := PathToName([Field(rootName)], if IsInterfaceUnion(ids) then "I" else "");
    assert |base| <= |PathToName([Field(rootName)], "")| + 1;
    forall n | n in gen.usedNames - {name}
      ensures n != base
    {
      var k :| 0 <= k < |gen.issued| && gen.issued[k] == n;
      assert k < |gen.issued| - 1;
      assert gen.issued[..|gen.issued| - 1][k] == n;
    }
    assert decls[0] == RootDeclaration(rootName, ids);
    assert [decls[0]] + decls[1..] == decls;
    r := Ok(Join(decls, "\n\n"));
  }

  /** The tree `parse` gives for `{a: 1}`: an object root requiring `a`,
      whose field `a` is a number. */
  function SimpleObjectTree(): TypeNode
  {
    TypeNode(Present([Child(Field("a"), TypeNode(Absent, ["number"], None))]), ["object"], Some({"a"}))
  }

  /** `emit` of that tree with the default configuration is one interface
      named after the root, with `a` required (src/tests/emit.test.ts,
      "simple objects"). */
  lemma EmitSimpleObject(node: TypeNode, config: EmitConfig)
    requires node == SimpleObjectTree() && config == EmitConfig(None, None)
    ensures EmitSpec(node, config) == Ok("interface IRoot {\n  a: number;\n}")
  {
    var root := [Field(RootName(config))];
    var leaf := TypeNode(Absent, ["number"], None);
    NumberLeaf(root + [Field("a")]);
    SingleFieldUnion(root, "a", leaf, Some({"a"}), {}, ["number"]);
    var line := FieldLine("a", InlineUnion(["number"]), IsRequired(Some({"a"}), "a"));
    RequiredNumberField(line);
    var literal := ObjectLiteral([line]);
    OneLineLiteral(line, literal);
    RootIsWord(RootName(config));
    WordPathName(RootName(config), "I");
    SingleLiteralDeclared(root, node, literal);
    var name := PathToName(root, "I");
    InterfaceName(RootName(config), name);
    var decl := "interface " + name + " " + literal;
    InterfaceText(name, literal, decl);
    assert Join([decl], "\n\n") == decl;
  }

  lemma InterfaceName(word: string, name: string)
    requires word == "Root" && name == "I" + word
    ensures name == "IRoot"
  {
  }

  lemma InterfaceText(name: string, literal: string, decl: string)
    requires name == "IRoot" && literal == "{\n  a: number;\n}" && decl == "interface " + name + " " + literal
    ensures decl == "interface IRoot {\n  a: number;\n}"
  {
  }

  /** `Root` is one capitalised word. */
  lemma RootIsWord(name: string)
    requires name == "Root"
    ensures |name| > 0 && AllAlnum(name) && !('a' <= name[0] <= 'z')
  {
    assert forall x :: x in name ==> x == 'R' || x == 'o' || x == 't';
  }

  /** An object literal of one line. */
  lemma OneLineLiteral(line: string, literal: string)
    requires line == "  a: number;" && literal == ObjectLiteral([line])
    ensures literal == "{\n  a: number;\n}" && literal[0] == '{'
  {
    assert Join([line], "\n") == line;
  }

  /** An object node with one field and no other type: its union is the
      literal of that field's line, inlined. */
  lemma SingleFieldUnion(path: seq<ChildKey>, key: string, child: TypeNode, req: Option<set<string>>,
                         used: set<string>, childIds: seq<string>)
    requires NodeOut(path + [Field(key)], child, used, false, false) == Out(childIds, [], used)
    ensures UnionOut(path, TypeNode(Present([Child(Field(key), child)]), ["object"], req), used, true)
      == Out([ObjectLiteral([FieldLine(key, InlineUnion(childIds), IsRequired(req, key))])], [], used)
  {
    var node := TypeNode(Present([Child(Field(key), child)]), ["object"], req);
    var keyed := [Child(Field(key), child)];
    assert IndexedChildren(ChildrenOf(node)) == [];
    assert KeyedChildren(ChildrenOf(node)) == keyed;
    assert ChildrenOut(node, path, keyed, used) == ChildOuts([childIds], [], used) by {
      assert keyed[1..] == [];
    }
    assert PrimitiveTypes(["object"]) == [];
    assert FieldEntries(keyed, [childIds]) == [(key, InlineUnion(childIds))];
  }

  /** A node whose union is one object literal is declared as the interface
      `I<path name>`, the first name drawn. */
  lemma SingleLiteralDeclared(path: seq<ChildKey>, node: TypeNode, literal: string)
    requires UnionOut(path, node, {}, true) == Out([literal], [], {})
    requires |literal| > 0 && literal[0] == '{'
    ensures NodeOut(path, node, {}, true, true).decls == ["interface " + PathToName(path, "I") + " " + literal]
  {
    assert IsInterfaceUnion([literal]);
    assert InlineUnion([literal]) == literal;
  }

  /** A number leaf walked without declarations is the identifier `number`. */
  lemma NumberLeaf(path: seq<ChildKey>)
    ensures NodeOut(path, TypeNode(Absent, ["number"], None), {}, false, false) == Out(["number"], [], {})
  {
    var leaf := TypeNode(Absent, ["number"], None);
    UnionOutShape(path, leaf, {}, false);
    assert PrimitiveTypes(["number"]) == ["number"];
  }

  /** The field line of a required `a` holding a number. */
  lemma RequiredNumberField(line: string)
    requires line == FieldLine("a", InlineUnion(["number"]), IsRequired(Some({"a"}), "a"))
    ensures line == "  a: number;"
  {
    assert InlineUnion(["number"]) == "number";
    assert IsJsIdentifier("a") by {
      assert IdentifierStart("a"[0]);
    }
  }

  /** A one-word root name that starts with a capital or a digit names the
      root `<word>`, and `I<word>` as an interface. */
  lemma WordPathName(word: string, prefix: string)
    requires |word| > 0 && AllAlnum(word) && !('a' <= word[0] <= 'z')
    ensures PathToName([Field(word)], prefix) == prefix + word
  {
    SegmentNameOfWord(word);
    assert Capitalize(word) == word;
    assert SegmentNames([Field(word)]) == [word];
    assert Concat([word]) == word + Concat([]);
  }
  /** A node that is only an empty object, such as the item node of `[{}]`,
      has the union `any` and is declared as the alias `type <name> = any;`. */
  lemma EmptyObjectDeclared(path: seq<ChildKey>, node: TypeNode)
    requires node.children == Present([]) && |node.types| > 0
    requires forall j :: 0 <= j < |node.types| ==> node.types[j] == "object"
    ensures NodeOut(path, node, {}, true, true).decls == ["type " + PathToName(path, "") + " = any;"]
  {
    EmptyObjectUnion(path, node);
    assert InlineUnion(["any"]) == "any";
    assert !IsInterfaceUnion(["any"]) by {
      assert "any"[0] == 'a';
    }
    var name := PathToName(path, "");
    assert NextName(name, {}) == name;
    assert NodeOut(path, node, {}, true, true).decls == [RenderDeclaration(name, "any", false)];
    AnyAliasText(name);
  }

  /** Such a node's union is `any` alone, with nothing declared. */
  lemma EmptyObjectUnion(path: seq<ChildKey>, node: TypeNode)
    requires node.children == Present([]) && |node.types| > 0
    requires forall j :: 0 <= j < |node.types| ==> node.types[j] == "object"
    ensures UnionOut(path, node, {}, true) == Out(["any"], [], {})
  {
    assert ChildrenOf(node) == [];
    assert node.types[0] in node.types;
    NoPrimitiveTypes(node.types);
    assert ArrayIdentifiers(node.types, true, []) == [];
    assert ChildrenOut(node, path, [], {}) == ChildOuts([], [], {});
  }

  lemma AnyAliasText(typeName: string)
    ensures "type " + typeName + " = " + "any" + ";" == "type " + typeName + " = any;"
  {
  }

  /** Only objects: no primitive type. */
  lemma {:induction false} NoPrimitiveTypes(types: seq<string>)
    requires forall j :: 0 <= j < |types| ==> types[j] == "object"
    ensures PrimitiveTypes(types) == []
  {
    if |types| > 0 {
      NoPrimitiveTypes(types[1..]);
    }
  }
}
