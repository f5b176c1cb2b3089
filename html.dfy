/**
 * `escapeHtml` (script.js:59): each of `& < > " '` becomes its character reference,
 * every other character is kept. `Unescape` reads the five references back; it is the
 * inverse used to state that escaping loses nothing.
 */
module Html {

  predicate IsSpecial(c: char) {
    c == '&' || c == '<' || c == '>' || c == '"' || c == '\''
  }

  /** The replacement for one character. */
  function EscapeChar(c: char): (r: string)
    ensures |r| >= 1
    ensures !IsSpecial(c) ==> r == [c]
    ensures IsSpecial(c) ==> r[0] == '&'
  {
    match c
    case '&' => "&amp;"
    case '<' => "&lt;"
    case '>' => "&gt;"
    case '"' => "&quot;"
    case '\'' => "&#39;"
    case _ => [c]
  }

  /** The markup-active characters that survive no escaping. */
  predicate IsMarkup(c: char) {
    c == '<' || c == '>' || c == '"' || c == '\''
  }

  function Escape(s: string): (r: string)
    ensures |r| >= |s|
    ensures forall k :: 0 <= k < |r| ==> !IsMarkup(r[k])
    ensures (forall k :: 0 <= k < |s| ==> !IsSpecial(s[k])) ==> r == s
  {
    if s == [] then []
    else
      var head := EscapeChar(s[0]);
      assert forall k :: 0 <= k < |head| ==> !IsMarkup(head[k]);
      assert s == [s[0]] + s[1..];
      head + Escape(s[1..])
  }

  predicate StartsWith(t: string, p: string) {
    |p| <= |t| && t[..|p|] == p
  }

  /** Reads the five references of `Escape` back into characters. */
  function Unescape(t: string): string
    decreases |t|
  {
    if t == [] then []
    else if StartsWith(t, "&amp;") then "&" + Unescape(t[5..])
    else if StartsWith(t, "&lt;") then "<" + Unescape(t[4..])
    else if StartsWith(t, "&gt;") then ">" + Unescape(t[4..])
    else if StartsWith(t, "&quot;") then "\"" + Unescape(t[6..])
    else if StartsWith(t, "&#39;") then "'" + Unescape(t[5..])
    else [t[0]] + Unescape(t[1..])
  }

  lemma StartsWithAt(t: string, p: string, i: nat)
    requires StartsWith(t, p) && i < |p|
    ensures t[i] == p[i]
  {
    assert t[..|p|][i] == t[i];
  }

  lemma UnescapeChar(c: char, rest: string)
    ensures Unescape(EscapeChar(c) + rest) == [c] + Unescape(rest)
  {
    var e := EscapeChar(c);
    var t := e + rest;
    assert t[..|e|] == e && t[|e|..] == rest;
    assert t[0] == e[0];
    if !IsSpecial(c) {
      assert t[1..] == rest;
      if StartsWith(t, "&amp;") { StartsWithAt(t, "&amp;", 0); }
      if StartsWith(t, "&lt;") { StartsWithAt(t, "&lt;", 0); }
      if StartsWith(t, "&gt;") { StartsWithAt(t, "&gt;", 0); }
      if StartsWith(t, "&quot;") { StartsWithAt(t, "&quot;", 0); }
      if StartsWith(t, "&#39;") { StartsWithAt(t, "&#39;", 0); }
    } else if c != '&' {
      assert t[1] == e[1];
      if StartsWith(t, "&amp;") { StartsWithAt(t, "&amp;", 1); }
      if c != '<' && StartsWith(t, "&lt;") { StartsWithAt(t, "&lt;", 1); }
      if c != '>' && StartsWith(t, "&gt;") { StartsWithAt(t, "&gt;", 1); }
      if c != '"' && StartsWith(t, "&quot;") { StartsWithAt(t, "&quot;", 1); }
    }
  }

  /** Escaping loses nothing: unescaping the output gives the input back. */
  lemma {:induction false} EscapeRoundTrip(s: string)
    ensures Unescape(Escape(s)) == s
  {
    if s != [] {
      EscapeRoundTrip(s[1..]);
      UnescapeChar(s[0], Escape(s[1..]));
      assert s == [s[0]] + s[1..];
    }
  }
}
