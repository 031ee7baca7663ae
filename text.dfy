/** String helpers used by several renderers: decimal numerals, joining and
    splitting, repetition. Strings are sequences of characters. */
module Text {

  /** The decimal digit for `d`. */
  function Digit(d: nat): (c: char)
    requires d < 10
    ensures '0' <= c <= '9'
  {
    "0123456789"[d]
  }

  /** The decimal numeral of `n`, without leading zeros (as `String(n)`). */
  function NatToString(n: nat): (s: string)
    ensures |s| >= 1
    ensures forall i :: 0 <= i < |s| ==> '0' <= s[i] <= '9'
    decreases n
  {
    if n < 10 then [Digit(n)] else NatToString(n / 10) + [Digit(n % 10)]
  }

  lemma DigitInjective(a: nat, b: nat)
    requires a < 10 && b < 10 && Digit(a) == Digit(b)
    ensures a == b
  {
  }

  /** Distinct numbers have distinct numerals. */
  lemma {:induction false} NatToStringInjective(a: nat, b: nat)
    requires NatToString(a) == NatToString(b)
    ensures a == b
    decreases a
  {
    var sa, sb := NatToString(a), NatToString(b);
    if a < 10 && b < 10 {
      DigitInjective(a, b);
    } else if a < 10 || b < 10 {
      // one numeral has a single digit, the other at least two
      assert false;
    } else {
      assert sa[|sa| - 1] == Digit(a % 10);
      assert sb[|sb| - 1] == Digit(b % 10);
      DigitInjective(a % 10, b % 10);
      assert sa[..|sa| - 1] == NatToString(a / 10);
      assert sb[..|sb| - 1] == NatToString(b / 10);
      NatToStringInjective(a / 10, b / 10);
    }
  }

  /** The value of a decimal digit character. */
  function DigitValue(c: char): (d: nat)
    ensures '0' <= c <= '9' ==> d < 10 && Digit(d) == c
  {
    if '0' <= c <= '9' then c as int - '0' as int else 0
  }

  /** The number a string of decimal digits reads as, most significant
      digit first. */
  function DigitsValue(s: string): nat
  {
    if |s| == 0 then 0 else 10 * DigitsValue(s[..|s| - 1]) + DigitValue(s[|s| - 1])
  }

  /** `NatToString(n)` is the decimal numeral of `n`: it reads back as `n`,
      and it has no leading zero. */
  lemma {:induction false} NatToStringValue(n: nat)
    ensures DigitsValue(NatToString(n)) == n
    ensures |NatToString(n)| > 1 ==> NatToString(n)[0] != '0'
    decreases n
  {
    var s := NatToString(n);
    if n >= 10 {
      NatToStringValue(n / 10);
      assert s[..|s| - 1] == NatToString(n / 10);
      assert s[|s| - 1] == Digit(n % 10);
      assert s[0] == NatToString(n / 10)[0];
    }
  }

  /** The numeral of an integer, with a leading `-` when negative. */
  function IntToString(i: int): (s: string)
    ensures |s| >= 1
    ensures (s[0] == '-') <==> i < 0
  {
    if i < 0 then "-" + NatToString(-i) else NatToString(i)
  }

  /** `parts.join(sep)`. */
  function Join(parts: seq<string>, sep: string): string
  {
    if |parts| == 0 then ""
    else if |parts| == 1 then parts[0]
    else parts[0] + sep + Join(parts[1..], sep)
  }

  /** `parts.join("")`. */
  function Concat(parts: seq<string>): string
  {
    if |parts| == 0 then "" else parts[0] + Concat(parts[1..])
  }

  lemma {:induction false} ConcatAppend(a: seq<string>, b: seq<string>)
    ensures Concat(a + b) == Concat(a) + Concat(b)
  {
    if |a| > 0 {
      assert (a + b)[1..] == a[1..] + b;
      ConcatAppend(a[1..], b);
    } else {
      assert a + b == b;
    }
  }

  lemma ConcatEmptyFirst(rest: seq<string>)
    ensures Concat([""] + rest) == Concat(rest)
  {
    assert ([""] + rest)[1..] == rest;
  }

  /** Putting a character in front of the first part puts it in front of
      the whole. */
  lemma ConcatExtendFirst(c: char, parts: seq<string>)
    requires |parts| > 0
    ensures Concat([[c] + parts[0]] + parts[1..]) == [c] + Concat(parts)
  {
    var r := [[c] + parts[0]] + parts[1..];
    assert r[1..] == parts[1..];
  }

  lemma {:induction false} JoinEmptySep(parts: seq<string>)
    ensures Join(parts, "") == Concat(parts)
  {
    if |parts| > 1 {
      JoinEmptySep(parts[1..]);
    }
  }

  /** `" ".repeat(n)`. */
  function Spaces(n: nat): (s: string)
    ensures |s| == n && forall i :: 0 <= i < n ==> s[i] == ' '
  {
    seq(n, _ => ' ')
  }

  /** Number of occurrences of `c` in `s`. */
  function CountChar(s: string, c: char): nat
  {
    if |s| == 0 then 0 else (if s[0] == c then 1 else 0) + CountChar(s[1..], c)
  }

  /** `s.split(c)` for a one-character separator: the maximal pieces between
      separators, including empty ones at either end. */
  function Split(s: string, c: char): (r: seq<string>)
    ensures |r| >= 1
    ensures forall i :: 0 <= i < |r| ==> c !in r[i]
  {
    if |s| == 0 then [""]
    else
      var rest := Split(s[1..], c);
      if s[0] == c then [""] + rest else [[s[0]] + rest[0]] + rest[1..]
  }

  /** Splitting yields one more piece than there are separators. */
  lemma {:induction false} SplitLength(s: string, c: char)
    ensures |Split(s, c)| == CountChar(s, c) + 1
  {
    if |s| > 0 {
      SplitLength(s[1..], c);
    }
  }

  /** The first piece is non-empty exactly when the string starts with
      another character than the separator. */
  lemma SplitFirst(s: string, c: char)
    ensures |Split(s, c)[0]| > 0 <==> |s| > 0 && s[0] != c
    ensures |Split(s, c)| > 1 ==> |s| > 0
  {
  }

  /** When no two separators are adjacent, only the first and the last
      piece can be empty. */
  lemma {:induction false} SplitInnerNonEmpty(s: string, c: char)
    requires forall i :: 0 <= i < |s| - 1 ==> s[i] != c || s[i + 1] != c
    ensures forall j :: 0 < j < |Split(s, c)| - 1 ==> |Split(s, c)[j]| > 0
  {
    if |s| > 0 {
      var t := s[1..];
      assert forall i :: 0 <= i < |t| - 1 ==> t[i] != c || t[i + 1] != c by {
        forall i | 0 <= i < |t| - 1 ensures t[i] != c || t[i + 1] != c {
          assert t[i] == s[i + 1] && t[i + 1] == s[i + 2];
        }
      }
      SplitInnerNonEmpty(t, c);
      var rest := Split(t, c);
      var r := Split(s, c);
      SplitFirst(t, c);
      forall j | 0 < j < |r| - 1 ensures |r[j]| > 0 {
        if s[0] == c {
          assert r[j] == rest[j - 1];
          if j == 1 {
            assert |t| > 0 && t[0] == s[1];
          }
        } else {
          assert r[j] == rest[j];
        }
      }
    }
  }

  /** Joining the pieces with the separator gives the string back. */
  lemma {:induction false} SplitJoin(s: string, c: char)
    ensures Join(Split(s, c), [c]) == s
  {
    if |s| > 0 {
      SplitJoin(s[1..], c);
      var rest := Split(s[1..], c);
      if s[0] == c {
        assert s == [c] + s[1..];
      } else {
        if |rest| > 1 {
          assert ([[s[0]] + rest[0]] + rest[1..])[1..] == rest[1..];
        }
        assert s == [s[0]] + s[1..];
      }
    }
  }

  /** `trimTextIfOverflow(length)(text)`: the first `length` characters and
      `"..."` when the text is longer, otherwise the text. */
  function TrimText(length: nat, text: string): (r: string)
    ensures |text| <= length ==> r == text
    ensures |text| > length ==> |r| == length + 3 && r[..length] == text[..length] && r[length..] == "..."
  {
    if |text| > length then text[..length] + "..." else text
  }

  /** Cutting is idempotent: once cut, a text is cut again to itself. */
  lemma TrimTextIdempotent(length: nat, text: string)
    ensures TrimText(length, TrimText(length, text)) == TrimText(length, text)
  {
  }

  /** A character in neither the parts nor the separator is not in the
      joined text. */
  lemma {:induction false} JoinAvoids(parts: seq<string>, sep: string, c: char)
    requires forall j :: 0 <= j < |parts| ==> c !in parts[j]
    requires c !in sep
    ensures c !in Join(parts, sep)
  {
    if |parts| > 1 {
      JoinAvoids(parts[1..], sep, c);
    }
  }

  lemma JoinThree(a: string, b: string, c: string, sep: string)
    ensures Join([a, b, c], sep) == a + sep + b + sep + c
  {
    assert [a, b, c][1..] == [b, c];
    assert [b, c][1..] == [c];
    assert Join([b, c], sep) == b + sep + c;
    assert a + sep + (b + sep + c) == a + sep + b + sep + c;
  }

  /** Every character of a piece of `s.split(c)` comes from `s`. */
  lemma {:induction false} SplitChars(s: string, c: char)
    ensures forall i, x :: 0 <= i < |Split(s, c)| && x in Split(s, c)[i] ==> x in s
  {
    if |s| > 0 {
      SplitChars(s[1..], c);
      var rest := Split(s[1..], c);
      var r := Split(s, c);
      assert s == [s[0]] + s[1..];
      forall i, x | 0 <= i < |r| && x in r[i]
        ensures x in s
      {
        if s[0] == c {
          if i > 0 {
            assert r[i] == rest[i - 1];
          }
        } else if i == 0 {
          assert x == s[0] || x in rest[0];
        } else {
          assert r[i] == rest[i];
        }
      }
    }
  }

  /** `parts.join("")` of parts that each satisfy a character test
      satisfies it too: the parts' characters are all there is. */
  lemma {:induction false} ConcatChars(parts: seq<string>)
    ensures forall x :: x in Concat(parts) ==> exists j :: 0 <= j < |parts| && x in parts[j]
  {
    if |parts| > 0 {
      ConcatChars(parts[1..]);
      forall x | x in Concat(parts)
        ensures exists j :: 0 <= j < |parts| && x in parts[j]
      {
        if x !in parts[0] {
          var j :| 0 <= j < |parts[1..]| && x in parts[1..][j];
          assert x in parts[j + 1];
        }
      }
    }
  }
}
