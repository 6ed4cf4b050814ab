/** The query escaping of net/url, and cutting text at separators. A character stands for a
    byte; one beyond that range, which no Go string has, is left as it is. */
module QueryEscaping {
  import opened Wrappers

  predicate Unreserved(c: char) {
    'a' <= c <= 'z' || 'A' <= c <= 'Z' || '0' <= c <= '9' || c == '-' || c == '_' || c == '.' || c == '~'
  }

  function Hex(d: nat): (c: char)
    requires d < 16
    ensures Unreserved(c)
  {
    if d < 10 then '0' + d as char else 'A' + (d - 10) as char
  }

  function EscapeChar(c: char): (e: string)
    ensures e != "" && ';' !in e && '=' !in e
  {
    if Unreserved(c) || c >= 256 as char then [c]
    else if c == ' ' then "+"
    else ['%', Hex(c as nat / 16), Hex(c as nat % 16)]
  }

  /** How one byte is written: letters, digits and four marks as they are, a space as a plus
      sign, and everything else as two upper-case hexadecimal digits. */
  lemma EscapedByte(c: char)
    requires c < 256 as char
    ensures 'a' <= c <= 'z' || 'A' <= c <= 'Z' || '0' <= c <= '9' || c in "-_.~" ==> EscapeChar(c) == [c]
    ensures c == ' ' ==> EscapeChar(c) == "+"
    ensures !('a' <= c <= 'z' || 'A' <= c <= 'Z' || '0' <= c <= '9' || c in "-_.~ ") ==>
      EscapeChar(c) == ['%', "0123456789ABCDEF"[c as nat / 16], "0123456789ABCDEF"[c as nat % 16]]
  {
    HexDigits(c as nat / 16);
    HexDigits(c as nat % 16);
    hide Hex;
  }

  lemma HexDigits(d: nat)
    requires d < 16
    ensures Hex(d) == "0123456789ABCDEF"[d]
  {
  }

  /** url.QueryEscape */
  function Escape(s: string): (e: string)
    ensures ';' !in e && '=' !in e
  {
    if s == "" then "" else EscapeChar(s[0]) + Escape(s[1..])
  }

  // ---------------------------------------------------------------------
  // Unescaping
  // ---------------------------------------------------------------------

  function HexValue(c: char): Option<nat> {
    if '0' <= c <= '9' then Some((c - '0') as nat)
    else if 'A' <= c <= 'F' then Some((c - 'A') as nat + 10)
    else if 'a' <= c <= 'f' then Some((c - 'a') as nat + 10)
    else None
  }

  /** url.QueryUnescape; None where it reports an error. */
  function Unescape(s: string): Option<string> {
    if s == "" then Some("")
    else if s[0] == '%' then
      if |s| < 3 || HexValue(s[1]).None? || HexValue(s[2]).None? then None
      else
        var rest := Unescape(s[3..]);
        if rest.None? then None else Some([(HexValue(s[1]).value * 16 + HexValue(s[2]).value) as char] + rest.value)
    else
      var rest := Unescape(s[1..]);
      if rest.None? then None else Some([if s[0] == '+' then ' ' else s[0]] + rest.value)
  }

  lemma {:induction false} UnescapeInvertsEscape(s: string)
    ensures Unescape(Escape(s)) == Some(s)
  {
    if s != "" {
      UnescapeInvertsEscape(s[1..]);
      UnescapeFirst(s[0], Escape(s[1..]));
      assert s == [s[0]] + s[1..];
    }
  }

  lemma EscapeIsInjective(a: string, b: string)
    requires Escape(a) == Escape(b)
    ensures a == b
  {
    UnescapeInvertsEscape(a);
    UnescapeInvertsEscape(b);
  }

  lemma UnescapeFirst(c: char, rest: string)
    requires Unescape(rest).Some?
    ensures Unescape(EscapeChar(c) + rest) == Some([c] + Unescape(rest).value)
  {
    var s := EscapeChar(c) + rest;
    if Unreserved(c) || c == ' ' || c >= 256 as char {
      assert s[1..] == rest;
    } else {
      HexRoundTrip(c as nat / 16);
      HexRoundTrip(c as nat % 16);
      assert s[3..] == rest;
      hide Hex, HexValue;
    }
  }

  lemma HexRoundTrip(d: nat)
    requires d < 16
    ensures HexValue(Hex(d)) == Some(d)
  {
  }

  // ---------------------------------------------------------------------
  // Separators
  // ---------------------------------------------------------------------

  /** The first occurrence of a separator, or the length of the text. */
  function FirstIndex(s: string, separator: char): (i: nat)
    ensures i <= |s| && separator !in s[..i] && (i < |s| ==> s[i] == separator)
  {
    if s == "" || s[0] == separator then 0 else 1 + FirstIndex(s[1..], separator)
  }

  lemma {:induction false} FirstIndexIsPrefix(a: string, x: string, separator: char)
    requires separator !in a
    ensures FirstIndex(a + [separator] + x, separator) == |a|
  {
    if a != "" {
      assert (a + [separator] + x)[1..] == a[1..] + [separator] + x;
      FirstIndexIsPrefix(a[1..], x, separator);
    }
  }

  /** Text up to the first separator is determined by the whole. */
  lemma SeparatorCuts(a: string, b: string, x: string, y: string, separator: char)
    requires separator !in a && separator !in b && a + [separator] + x == b + [separator] + y
    ensures a == b && x == y
  {
    FirstIndexIsPrefix(a, x, separator);
    FirstIndexIsPrefix(b, y, separator);
    var s, t := a + [separator] + x, b + [separator] + y;
    assert s[..|a|] == a && t[..|b|] == b;
    assert s[|a| + 1..] == x && t[|b| + 1..] == y;
  }
}
