/**
 The escaping both hand-written printers use (src/jwk.rs `json_escape`, src/error.rs `escape_quoted`:
 one function under two names) and the reader of a quoted string, whose quoted pairs are those of
 section 5.6.4 of RFC 9110.
 */
module Text {
  import opened Wrappers

  /** `str::replace` of one character. */
  function ReplaceChar(s: string, c: char, to: string): string {
    if s == "" then "" else (if s[0] == c then to else [s[0]]) + ReplaceChar(s[1..], c, to)
  }

  /** Backslashes first, then quotes: two passes over the text. */
  function Escape(s: string): string {
    ReplaceChar(ReplaceChar(s, '\\', "\\\\"), '"', "\\\"")
  }

  /** A backslash before each backslash and each quote: one pass. */
  function EscapeOnce(s: string): string {
    if s == "" then ""
    else (if s[0] == '\\' || s[0] == '"' then ['\\', s[0]] else [s[0]]) + EscapeOnce(s[1..])
  }

  /** Reads on after an opening quote: the text meant, and what follows the closing quote. */
  function ScanQuoted(s: string): Option<(string, string)>
    decreases |s|
  {
    if s == "" then None
    else if s[0] == '"' then Some(("", s[1..]))
    else if s[0] == '\\' then
      if |s| < 2 then None
      else
        match ScanQuoted(s[2..])
        case None => None
        case Some((text, rest)) => Some(([s[1]] + text, rest))
    else
      match ScanQuoted(s[1..])
      case None => None
      case Some((text, rest)) => Some(([s[0]] + text, rest))
  }

  /** The text a well-formed quoted content stands for. */
  function Unescape(e: string): Option<string> {
    match ScanQuoted(e + "\"")
    case Some((text, rest)) => if rest == "" then Some(text) else None
    case None => None
  }

  predicate IsPlain(s: string) {
    '"' !in s && '\\' !in s
  }

  lemma {:induction false} ReplaceCharAppend(a: string, b: string, c: char, to: string)
    ensures ReplaceChar(a + b, c, to) == ReplaceChar(a, c, to) + ReplaceChar(b, c, to)
  {
    if a == "" {
      assert a + b == b;
    } else {
      assert (a + b)[1..] == a[1..] + b;
      ReplaceCharAppend(a[1..], b, c, to);
    }
  }

  /** The second pass leaves the backslashes of the first alone: two passes are the one. */
  lemma {:induction false} TwoPassesAreOne(s: string)
    ensures Escape(s) == EscapeOnce(s)
  {
    if s == "" {
    } else {
      var first := if s[0] == '\\' then "\\\\" else [s[0]];
      ReplaceCharAppend(first, ReplaceChar(s[1..], '\\', "\\\\"), '"', "\\\"");
      TwoPassesAreOne(s[1..]);
      if s[0] == '\\' {
        assert first[1..] == ['\\'];
        assert ReplaceChar(['\\'], '"', "\\\"") == ['\\'] + ReplaceChar("", '"', "\\\"");
        assert ReplaceChar(first, '"', "\\\"") == ['\\', '\\'];
      } else {
        assert ReplaceChar(first, '"', "\\\"") == (if s[0] == '"' then "\\\"" else [s[0]]) +
            ReplaceChar("", '"', "\\\"");
      }
    }
  }

  /** What was escaped and quoted is read back, and reading stops at its own closing quote. */
  lemma ScanEscaped(s: string, rest: string)
    ensures ScanQuoted(Escape(s) + ("\"" + rest)) == Some((s, rest))
  {
    TwoPassesAreOne(s);
    ScanEscapedOnce(s, rest);
  }

  lemma {:induction false} ScanEscapedOnce(s: string, rest: string)
    ensures ScanQuoted(EscapeOnce(s) + ("\"" + rest)) == Some((s, rest))
  {
    var text := EscapeOnce(s) + ("\"" + rest);
    if s == "" {
      assert text == "\"" + rest && text[1..] == rest;
    } else {
      ScanEscapedOnce(s[1..], rest);
      var tail := EscapeOnce(s[1..]) + ("\"" + rest);
      if s[0] == '\\' || s[0] == '"' {
        assert text == ['\\', s[0]] + tail && text[2..] == tail;
      } else {
        assert text == [s[0]] + tail && text[1..] == tail;
      }
      assert s == [s[0]] + s[1..];
    }
  }

  /** Unescaping inverts escaping, so escaping never maps two texts to one. */
  lemma UnescapeInverts(s: string)
    ensures Unescape(Escape(s)) == Some(s)
  {
    ScanEscaped(s, "");
    assert "\"" + "" == "\"";
  }

  lemma EscapeInjective(s: string, t: string)
    ensures Escape(s) == Escape(t) <==> s == t
  {
    UnescapeInverts(s);
    UnescapeInverts(t);
  }

  lemma {:induction false} ScanShrinks(s: string)
    ensures ScanQuoted(s).Some? ==> |ScanQuoted(s).value.0| + |ScanQuoted(s).value.1| < |s|
    decreases |s|
  {
    if s != "" && s[0] != '"' {
      if s[0] != '\\' {
        ScanShrinks(s[1..]);
      } else if |s| >= 2 {
        ScanShrinks(s[2..]);
      }
    }
  }

  /** Unescaped text survives quoting exactly when it has nothing to escape. */
  lemma {:induction false} ScanPlainIff(s: string, rest: string)
    ensures ScanQuoted(s + ("\"" + rest)) == Some((s, rest)) <==> IsPlain(s)
  {
    var text := s + ("\"" + rest);
    if s == "" {
      assert text == "\"" + rest && text[1..] == rest;
    } else if s[0] == '\\' {
      ScanShrinks(text[2..]);
    } else if s[0] != '"' {
      assert text[1..] == s[1..] + ("\"" + rest);
      ScanPlainIff(s[1..], rest);
      assert s == [s[0]] + s[1..];
      assert IsPlain(s) <==> IsPlain(s[1..]);
      if ScanQuoted(text) == Some((s, rest)) {
        var r := ScanQuoted(text[1..]).value;
        assert ([s[0]] + r.0)[1..] == r.0;
      }
    }
  }

  /** The rest of `s` after a fixed beginning. */
  function Expect(s: string, literal: string): Option<string> {
    if literal <= s then Some(s[|literal|..]) else None
  }

  lemma ExpectIff(s: string, literal: string, rest: string)
    ensures Expect(s, literal) == Some(rest) <==> s == literal + rest
  {
    assert (literal + rest)[|literal|..] == rest;
    if literal <= s {
      assert s == literal + s[|literal|..];
    }
  }

  lemma ExpectFinds(literal: string, rest: string)
    ensures Expect(literal + rest, literal) == Some(rest)
  {
    assert (literal + rest)[|literal|..] == rest;
  }

  /** `parts.join(separator)` */
  function Join(parts: seq<string>, separator: string): string {
    if parts == [] then ""
    else if |parts| == 1 then parts[0]
    else parts[0] + separator + Join(parts[1..], separator)
  }

  /** Splits at every occurrence of a character. */
  function SplitAll(s: string, c: char): (parts: seq<string>)
    ensures parts != []
    decreases |s|
  {
    match SplitAt(s, c)
    case None => [s]
    case Some((front, rest)) => if |rest| < |s| then [front] + SplitAll(rest, c) else [s]
  }

  /** Parts without the separator are told apart again, in their order. */
  lemma {:induction false} JoinSplits(parts: seq<string>, c: char)
    requires parts != [] && forall i :: 0 <= i < |parts| ==> c !in parts[i]
    ensures SplitAll(Join(parts, [c]), c) == parts
  {
    if |parts| == 1 {
      SplitAtJoins(parts[0], c);
    } else {
      JoinSplits(parts[1..], c);
      var rest := Join(parts[1..], [c]);
      assert Join(parts, [c]) == parts[0] + ([c] + rest);
      SplitAtFirst(parts[0], c, rest);
      assert parts == [parts[0]] + parts[1..];
    }
  }

  // ---------------------------------------------------------------------------------------------
  // Characters that may not appear as they are
  // ---------------------------------------------------------------------------------------------

  /** What the value of an HTTP field may consist of (RFC 9110, section 5.5): no control character but the tab. */
  predicate IsFieldChar(c: char) {
    c == '\t' || (c >= ' ' && c != '\U{7F}')
  }

  /** What a JSON string may hold unescaped, quote and backslash apart (RFC 8259, section 7). */
  predicate IsJsonChar(c: char) {
    c >= ' '
  }

  /** In code points: the controls are 0 to 31 and 127, and of these only the tab is a field character. */
  lemma CharsIff(c: char)
    ensures IsFieldChar(c) <==> c as int == 9 || (32 <= c as int && c as int != 127)
    ensures IsJsonChar(c) <==> 32 <= c as int
  {}

  predicate AllAre(s: string, ok: char -> bool) {
    forall i :: 0 <= i < |s| ==> ok(s[i])
  }

  lemma AllAppend(a: string, b: string, ok: char -> bool)
    ensures AllAre(a + b, ok) <==> AllAre(a, ok) && AllAre(b, ok)
  {
    if AllAre(a + b, ok) {
      assert forall i :: 0 <= i < |a| ==> a[i] == (a + b)[i];
      assert forall i :: 0 <= i < |b| ==> b[i] == (a + b)[|a| + i];
    }
  }

  /** Escaping adds backslashes only: it neither removes nor introduces any other character. */
  lemma {:induction false} EscapeKeepsAll(s: string, ok: char -> bool)
    requires ok('\\')
    ensures AllAre(Escape(s), ok) <==> AllAre(s, ok)
  {
    TwoPassesAreOne(s);
    if s == "" {
    } else {
      EscapeKeepsAll(s[1..], ok);
      TwoPassesAreOne(s[1..]);
      AllAppend(if s[0] == '\\' || s[0] == '"' then ['\\', s[0]] else [s[0]], EscapeOnce(s[1..]), ok);
      AllAppend([s[0]], s[1..], ok);
      assert s == [s[0]] + s[1..];
      var first := if s[0] == '\\' || s[0] == '"' then ['\\', s[0]] else [s[0]];
      assert AllAre(first, ok) <==> AllAre([s[0]], ok) by {
        assert first[|first| - 1] == s[0] == [s[0]][0];
      }
    }
  }

  lemma {:induction false} JoinAll(parts: seq<string>, separator: string, ok: char -> bool)
    requires AllAre(separator, ok)
    ensures AllAre(Join(parts, separator), ok) <==> forall i :: 0 <= i < |parts| ==> AllAre(parts[i], ok)
  {
    if |parts| <= 1 {
    } else {
      JoinAll(parts[1..], separator, ok);
      AllAppend(parts[0] + separator, Join(parts[1..], separator), ok);
      AllAppend(parts[0], separator, ok);
      assert parts == [parts[0]] + parts[1..];
    }
  }

  /** `eq_ignore_ascii_case` */
  function AsciiLower(c: char): char {
    if 'A' <= c <= 'Z' then c - 'A' + 'a' else c
  }

  predicate EqIgnoreAsciiCase(s: string, t: string) {
    |s| == |t| && forall i :: 0 <= i < |s| ==> AsciiLower(s[i]) == AsciiLower(t[i])
  }

  /** One letter in either case, or one and the same character. */
  predicate SameLetter(c: char, d: char) {
    || c == d
    || ('A' <= c <= 'Z' && d as int == c as int + 32)
    || ('A' <= d <= 'Z' && c as int == d as int + 32)
  }

  /** Equality up to the case of the letters A to Z, and of nothing else. */
  lemma EqIgnoreAsciiCaseIff(s: string, t: string)
    ensures EqIgnoreAsciiCase(s, t) <==> |s| == |t| && forall i :: 0 <= i < |s| ==> SameLetter(s[i], t[i])
  {}

  lemma CaseExamples()
    ensures EqIgnoreAsciiCase("AT+JWT", "at+jwt") && EqIgnoreAsciiCase("DPoP+JWT", "dpop+jwt") &&
                EqIgnoreAsciiCase("OCT", "oct")
    ensures !EqIgnoreAsciiCase("JWT", "at+jwt") && !EqIgnoreAsciiCase("at-jwt", "at+jwt")
  {
    assert |"JWT"| == 3 && |"at+jwt"| == 6;
    assert "at-jwt"[2] == '-' && "at+jwt"[2] == '+';
  }

  /** Splits at the first occurrence of `c`. */
  function SplitAt(s: string, c: char): Option<(string, string)> {
    if s == "" then None
    else if s[0] == c then Some(("", s[1..]))
    else
      match SplitAt(s[1..], c)
      case None => None
      case Some((front, rest)) => Some(([s[0]] + front, rest))
  }

  /** Splitting finds the part before the first occurrence. */
  lemma {:induction false} SplitAtFirst(front: string, c: char, rest: string)
    requires c !in front
    ensures SplitAt(front + ([c] + rest), c) == Some((front, rest))
  {
    var s := front + ([c] + rest);
    if front == "" {
      assert s == [c] + rest && s[1..] == rest;
    } else {
      assert s[1..] == front[1..] + ([c] + rest);
      SplitAtFirst(front[1..], c, rest);
      assert front == [front[0]] + front[1..];
    }
  }

  lemma {:induction false} SplitAtJoins(s: string, c: char)
    ensures SplitAt(s, c).Some? ==>
              s == SplitAt(s, c).value.0 + ([c] + SplitAt(s, c).value.1) && c !in SplitAt(s, c).value.0
    ensures SplitAt(s, c).None? ==> c !in s
  {
    if s != "" && s[0] != c {
      SplitAtJoins(s[1..], c);
      if SplitAt(s[1..], c).Some? {
        var r := SplitAt(s[1..], c).value;
        assert s == [s[0]] + (r.0 + ([c] + r.1));
        assert [s[0]] + (r.0 + ([c] + r.1)) == ([s[0]] + r.0) + ([c] + r.1);
      }
    } else if s != "" {
      assert s == "" + ([c] + s[1..]);
    }
  }
}
