/** `JSON.stringify` applied to a string: the string in double quotes, with
    the escapes of section 7 of RFC 8259 as ECMAScript's QuoteJSONString
    chooses them (two-character escapes for quote, backslash, backspace,
    form feed, newline, carriage return and tab; `\u00xx` with lower-case
    hex digits for the other control characters; every other character as
    is). Characters here are Unicode scalar values, so there are no lone
    surrogates to escape. */
module JsonString {
  import opened Wrappers

  function HexDigit(d: nat): (c: char)
    requires d < 16
  {
    "0123456789abcdef"[d]
  }

  function HexValue(c: char): (r: Option<nat>)
    ensures r.Some? ==> r.value < 16
  {
    if '0' <= c <= '9' then Some(c as nat - '0' as nat)
    else if 'a' <= c <= 'f' then Some(c as nat - 'a' as nat + 10)
    else None
  }

  lemma HexRoundTrip(d: nat)
    requires d < 16
    ensures HexValue(HexDigit(d)) == Some(d)
  {
  }

  /** The escape for one character. */
  function EscapeChar(c: char): (r: string)
    ensures |r| >= 1
    ensures r[0] == '\\' <==> (c == '"' || c == '\\' || c < ' ')
    ensures |r| == 1 ==> r == [c]
  {
    if c == '"' then "\\\""
    else if c == '\\' then "\\\\"
    else if c == '\U{8}' then "\\b"
    else if c == '\U{C}' then "\\f"
    else if c == '\n' then "\\n"
    else if c == '\r' then "\\r"
    else if c == '\t' then "\\t"
    else if c < ' ' then "\\u00" + [HexDigit(c as nat / 16), HexDigit(c as nat % 16)]
    else [c]
  }

  function Escape(s: string): string
  {
    if |s| == 0 then "" else EscapeChar(s[0]) + Escape(s[1..])
  }

  /** `JSON.stringify(s)` for a string `s`. */
  function Quote(s: string): (r: string)
    ensures |r| >= 2 && r[0] == '"' && r[|r| - 1] == '"'
  {
    "\"" + Escape(s) + "\""
  }

  /** Reads escaped text up to the closing quote, returning the decoded
      characters and what follows the quote. */
  function Unescape(t: string): (r: Option<(string, string)>)
    decreases |t|
  {
    if |t| == 0 then None
    else if t[0] == '"' then Some(("", t[1..]))
    else if t[0] != '\\' then
      match Unescape(t[1..])
      case None => None
      case Some((s, rest)) => Some(([t[0]] + s, rest))
    else if |t| < 2 then None
    else
      var e := t[1];
      var decoded: Option<(char, nat)> :=
        if e == '"' then Some(('"', 2))
        else if e == '\\' then Some(('\\', 2))
        else if e == 'b' then Some(('\U{8}', 2))
        else if e == 'f' then Some(('\U{C}', 2))
        else if e == 'n' then Some(('\n', 2))
        else if e == 'r' then Some(('\r', 2))
        else if e == 't' then Some(('\t', 2))
        else if e == 'u' && |t| >= 6 && t[2] == '0' && t[3] == '0' && HexValue(t[4]).Some? && HexValue(t[5]).Some?
        then Some(((HexValue(t[4]).value * 16 + HexValue(t[5]).value) as char, 6))
        else None;
      match decoded
      case None => None
      case Some((c, n)) =>
        match Unescape(t[n..])
        case None => None
        case Some((s, rest)) => Some(([c] + s, rest))
  }

  /** Reads a quoted string from the front of `t`. */
  function Unquote(t: string): Option<(string, string)>
  {
    if |t| == 0 || t[0] != '"' then None else Unescape(t[1..])
  }

  lemma {:induction false} UnescapeChar(c: char, tail: string)
    ensures Unescape(EscapeChar(c) + tail) ==
      (match Unescape(tail)
       case None => None
       case Some((s, rest)) => Some(([c] + s, rest)))
  {
    var t := EscapeChar(c) + tail;
    if c < ' ' && c != '\U{8}' && c != '\U{C}' && c != '\n' && c != '\r' && c != '\t' {
      var hi, lo := c as nat / 16, c as nat % 16;
      HexRoundTrip(hi);
      HexRoundTrip(lo);
      assert t[..6] == "\\u00" + [HexDigit(hi), HexDigit(lo)];
      assert t[6..] == tail;
    } else if |EscapeChar(c)| == 2 {
      assert t[2..] == tail;
    } else {
      assert t[1..] == tail;
    }
  }

  lemma {:induction false} UnescapeEscape(s: string, tail: string)
    ensures Unescape(Escape(s) + "\"" + tail) == Some((s, tail))
  {
    if |s| == 0 {
      assert Escape(s) + "\"" + tail == "\"" + tail;
      assert ("\"" + tail)[1..] == tail;
    } else {
      assert Escape(s) + "\"" + tail == EscapeChar(s[0]) + (Escape(s[1..]) + "\"" + tail);
      UnescapeChar(s[0], Escape(s[1..]) + "\"" + tail);
      UnescapeEscape(s[1..], tail);
      assert [s[0]] + s[1..] == s;
    }
  }

  /** Quoting loses nothing: the quoted text reads back as the string, and
      reading stops right after the closing quote. */
  lemma UnquoteQuote(s: string, tail: string)
    ensures Unquote(Quote(s) + tail) == Some((s, tail))
  {
    assert (Quote(s) + tail)[1..] == Escape(s) + "\"" + tail;
    UnescapeEscape(s, tail);
  }

  /** Hence quoting is injective. */
  lemma QuoteInjective(a: string, b: string)
    requires Quote(a) == Quote(b)
    ensures a == b
  {
    UnquoteQuote(a, "");
    UnquoteQuote(b, "");
    assert Quote(a) + "" == Quote(a);
    assert Quote(b) + "" == Quote(b);
  }

  /** Escaping leaves no control character in the text. */
  lemma {:induction false} EscapeNoControl(s: string)
    ensures forall i :: 0 <= i < |Escape(s)| ==> Escape(s)[i] >= ' '
  {
    if |s| > 0 {
      EscapeNoControl(s[1..]);
      var e := EscapeChar(s[0]);
      assert forall i :: 0 <= i < |e| ==> e[i] >= ' ';
      assert Escape(s) == e + Escape(s[1..]);
    }
  }

  /** The output of `JSON.stringify` for a string has no control character,
      in particular no line break, as section 7 of RFC 8259 requires. */
  lemma QuoteNoControl(s: string)
    ensures forall i :: 0 <= i < |Quote(s)| ==> Quote(s)[i] >= ' '
  {
    EscapeNoControl(s);
  }

  /** Escaping never shortens a text. */
  lemma {:induction false} EscapeLonger(s: string)
    ensures |Escape(s)| >= |s|
  {
    if |s| > 0 {
      EscapeLonger(s[1..]);
    }
  }
}
