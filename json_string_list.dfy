/**
 * The encoding the persistence mappings use for a list of ids: the text
 * `JSON.stringify` produces for an array of strings, and the part of
 * `JSON.parse` that reads such text back.
 */
module JsonStringList {
  import opened Wrappers

  const Quote: char := '"'
  const Backslash: char := '\\'

  /** Lower-case hexadecimal digit for 0..15, as `JSON.stringify` writes in `\u` escapes. */
  function HexDigit(n: nat): (c: char)
    requires n < 16
    ensures HexValue(c) == Some(n)
  {
    if n < 10 then (48 + n) as char else (87 + n) as char
  }

  /** Value of one hexadecimal digit of either case. */
  function HexValue(c: char): (r: Option<nat>)
    ensures r.Some? ==> r.value < 16
  {
    if '0' <= c <= '9' then Some(c as int - 48)
    else if 'a' <= c <= 'f' then Some(c as int - 87)
    else if 'A' <= c <= 'F' then Some(c as int - 55)
    else None
  }

  /** How `JSON.stringify` writes one character inside a string literal. */
  function EscapeChar(c: char): string
  {
    if c == Quote then [Backslash, Quote]
    else if c == Backslash then [Backslash, Backslash]
    else if c == 8 as char then [Backslash, 'b']
    else if c == 12 as char then [Backslash, 'f']
    else if c == '\n' then [Backslash, 'n']
    else if c == '\r' then [Backslash, 'r']
    else if c == '\t' then [Backslash, 't']
    else if c < ' ' then [Backslash, 'u', '0', '0', HexDigit(c as int / 16), HexDigit(c as int % 16)]
    else [c]
  }

  function EscapeString(s: string): string
  {
    if s == [] then [] else EscapeChar(s[0]) + EscapeString(s[1..])
  }

  /** A string literal: the escaped characters between double quotes. */
  function QuoteString(s: string): string
  {
    [Quote] + EscapeString(s) + [Quote]
  }

  function JoinQuoted(l: seq<string>): string
    requires l != []
  {
    if |l| == 1 then QuoteString(l[0]) else QuoteString(l[0]) + [','] + JoinQuoted(l[1..])
  }

  /** `JSON.stringify` of an array of strings: compact, no white space. */
  function Stringify(l: seq<string>): string
  {
    if l == [] then "[]" else ['['] + JoinQuoted(l) + [']']
  }

  /**
   * Reads the escape sequence that follows a backslash; gives the character
   * and the text after the sequence.  A `\u` escape naming a UTF-16
   * surrogate is refused (see README).
   */
  function ParseEscape(t: string): (r: Option<(char, string)>)
    ensures r.Some? ==> |r.value.1| < |t|
  {
    if |t| == 0 then None
    else if t[0] == Quote then Some((Quote, t[1..]))
    else if t[0] == Backslash then Some((Backslash, t[1..]))
    else if t[0] == '/' then Some(('/', t[1..]))
    else if t[0] == 'b' then Some((8 as char, t[1..]))
    else if t[0] == 'f' then Some((12 as char, t[1..]))
    else if t[0] == 'n' then Some(('\n', t[1..]))
    else if t[0] == 'r' then Some(('\r', t[1..]))
    else if t[0] == 't' then Some(('\t', t[1..]))
    else if t[0] == 'u' && |t| >= 5 then
      match (HexValue(t[1]), HexValue(t[2]), HexValue(t[3]), HexValue(t[4]))
      case (Some(a), Some(b), Some(c), Some(d)) =>
        var v := ((a * 16 + b) * 16 + c) * 16 + d;
        if 0xD800 <= v < 0xE000 then None else Some((v as char, t[5..]))
      case _ => None
    else None
  }

  /**
   * Reads the characters of a string literal whose opening quote has been
   * consumed; gives the decoded string and the text after the closing quote.
   */
  function ParseChars(t: string): (r: Option<(string, string)>)
    ensures r.Some? ==> |r.value.1| < |t|
    decreases |t|
  {
    if |t| == 0 then None
    else if t[0] == Quote then Some(([], t[1..]))
    else if t[0] == Backslash then
      match ParseEscape(t[1..])
      case None => None
      case Some((c, rest)) =>
        match ParseChars(rest)
        case None => None
        case Some((s, after)) => Some(([c] + s, after))
    else if t[0] < ' ' then None
    else
      match ParseChars(t[1..])
      case None => None
      case Some((s, after)) => Some(([t[0]] + s, after))
  }

  /**
   * Reads `"..." (, "...")* ]`, the elements of a non-empty array after its
   * opening bracket; gives the strings and the text after the closing bracket.
   */
  function ParseItems(t: string): (r: Option<(seq<string>, string)>)
    decreases |t|
  {
    if |t| == 0 || t[0] != Quote then None
    else
      match ParseChars(t[1..])
      case None => None
      case Some((s, rest)) =>
        if |rest| > 0 && rest[0] == ']' then Some(([s], rest[1..]))
        else if |rest| > 0 && rest[0] == ',' then
          match ParseItems(rest[1..])
          case None => None
          case Some((more, after)) => Some(([s] + more, after))
        else None
  }

  /** `JSON.parse` restricted to compact arrays of strings; None where it would throw or yield another value. */
  function Parse(t: string): Option<seq<string>>
  {
    if t == "[]" then Some([])
    else if |t| > 0 && t[0] == '[' then
      match ParseItems(t[1..])
      case Some((l, rest)) => if rest == [] then Some(l) else None
      case None => None
    else None
  }

  /** The escape sequence `JSON.stringify` writes for a character reads back as that character. */
  lemma ParseEscapeChar(c: char, rest: string)
    requires EscapeChar(c) != [c]
    ensures |EscapeChar(c)| > 1 && EscapeChar(c)[0] == Backslash
    ensures ParseEscape(EscapeChar(c)[1..] + rest) == Some((c, rest))
  {
    var e := EscapeChar(c)[1..] + rest;
    if c < ' ' && c != 8 as char && c != 12 as char && c != '\n' && c != '\r' && c != '\t' {
      var hi, lo := c as int / 16, c as int % 16;
      assert e[..5] == ['u', '0', '0', HexDigit(hi), HexDigit(lo)];
      assert e[5..] == rest;
      assert ((0 * 16 + 0) * 16 + hi) * 16 + lo == c as int;
    } else {
      assert e[1..] == rest;
    }
  }

  /** One step of `ParseChars` over an ordinary character. */
  lemma ParseCharsPlain(c: char, u: string)
    requires c != Quote && c != Backslash && !(c < ' ')
    ensures ParseChars([c] + u) == (match ParseChars(u)
                                    case None => None
                                    case Some((s, after)) => Some(([c] + s, after)))
  {
    assert ([c] + u)[1..] == u;
  }

  /** One step of `ParseChars` over an escape sequence. */
  lemma ParseCharsEscape(u: string)
    ensures ParseChars([Backslash] + u) == (match ParseEscape(u)
                                            case None => None
                                            case Some((c, rest)) =>
                                              match ParseChars(rest)
                                              case None => None
                                              case Some((s, after)) => Some(([c] + s, after)))
  {
    assert ([Backslash] + u)[1..] == u;
  }

  /** The way `JSON.stringify` writes one character, ahead of text that reads back, reads back as that character first. */
  lemma ParseCharsPrefix(c: char, tail: string, s: string, rest: string)
    requires ParseChars(tail) == Some((s, rest))
    ensures ParseChars(EscapeChar(c) + tail) == Some(([c] + s, rest))
  {
    if EscapeChar(c) == [c] {
      ParseCharsPlain(c, tail);
    } else {
      ParseEscapeChar(c, tail);
      assert EscapeChar(c) + tail == [Backslash] + (EscapeChar(c)[1..] + tail);
      ParseCharsEscape(EscapeChar(c)[1..] + tail);
    }
  }

  /** The escaped characters of `s`, a closing quote and any text read back as `s` and that text. */
  lemma {:induction false} ParseCharsEscaped(s: string, rest: string)
    ensures ParseChars(EscapeString(s) + [Quote] + rest) == Some((s, rest))
  {
    if s == [] {
      assert EscapeString(s) + [Quote] + rest == [Quote] + rest;
      assert ([Quote] + rest)[1..] == rest;
    } else {
      var tail := EscapeString(s[1..]) + [Quote] + rest;
      ParseCharsEscaped(s[1..], rest);
      assert EscapeString(s) + [Quote] + rest == EscapeChar(s[0]) + tail;
      ParseCharsPrefix(s[0], tail, s[1..], rest);
      assert [s[0]] + s[1..] == s;
    }
  }

  /** A single literal followed by the closing bracket reads back as a one-element list. */
  lemma ParseItemsLast(x: string, rest: string)
    ensures ParseItems(QuoteString(x) + [']'] + rest) == Some(([x], rest))
  {
    var after := [']'] + rest;
    var u := EscapeString(x) + [Quote] + after;
    assert QuoteString(x) + [']'] + rest == [Quote] + u;
    assert ([Quote] + u)[1..] == u;
    ParseCharsEscaped(x, after);
    assert after[1..] == rest;
  }

  /** A literal followed by a comma and items that read back extends their list by one. */
  lemma ParseItemsMore(x: string, u: string, more: seq<string>, rest: string)
    requires ParseItems(u) == Some((more, rest))
    ensures ParseItems(QuoteString(x) + [','] + u) == Some(([x] + more, rest))
  {
    var after := [','] + u;
    var v := EscapeString(x) + [Quote] + after;
    assert QuoteString(x) + [','] + u == [Quote] + v;
    assert ([Quote] + v)[1..] == v;
    ParseCharsEscaped(x, after);
    assert after[1..] == u;
  }

  /** The joined literals of a non-empty list, a closing bracket and any text read back as the list. */
  lemma {:induction false} ParseItemsJoined(l: seq<string>, rest: string)
    requires l != []
    ensures ParseItems(JoinQuoted(l) + [']'] + rest) == Some((l, rest))
  {
    if |l| == 1 {
      ParseItemsLast(l[0], rest);
      assert [l[0]] == l;
    } else {
      var u := JoinQuoted(l[1..]) + [']'] + rest;
      assert JoinQuoted(l) + [']'] + rest == QuoteString(l[0]) + [','] + u;
      ParseItemsJoined(l[1..], rest);
      ParseItemsMore(l[0], u, l[1..], rest);
      assert [l[0]] + l[1..] == l;
    }
  }

  /** Reading back what `Stringify` wrote gives the original list. */
  lemma ParseStringify(l: seq<string>)
    ensures Parse(Stringify(l)) == Some(l)
  {
    if l != [] {
      var t := Stringify(l);
      assert t[1..] == JoinQuoted(l) + [']'] + [];
      ParseItemsJoined(l, []);
      assert t[1] == Quote;
    }
  }
}
