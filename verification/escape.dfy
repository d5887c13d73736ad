/**
 The HTML escaper applied to every chat line before it is broadcast
 (`htmlEscaper` and `escapeString` in internal/handlers/handlers.go).

 The replacer's five patterns are single ASCII characters, so it rewrites the
 input one character at a time: each of `&`, `'`, `<`, `>`, `"` becomes its
 entity and every other character is copied unchanged.
 */
module Escape {

  /** The five characters the replacer rewrites. */
  predicate IsSpecial(c: char)
  {
    c == '&' || c == '\'' || c == '<' || c == '>' || c == '"'
  }

  /** The characters that open or close markup; none survive escaping. */
  predicate IsMarkup(c: char)
  {
    c == '\'' || c == '<' || c == '>' || c == '"'
  }

  /** The replacement table, one entry per pattern. */
  function EscapeChar(c: char): (r: string)
    ensures IsSpecial(c) ==> |r| > 1 && r[0] == '&'
    ensures !IsSpecial(c) ==> r == [c]
    ensures forall i :: 0 <= i < |r| ==> !IsMarkup(r[i])
  {
    if c == '&' then "&amp;"
    else if c == '\'' then "&#39;"
    else if c == '<' then "&lt;"
    else if c == '>' then "&gt;"
    else if c == '"' then "&#34;"
    else [c]
  }

  /** `escapeString`: replaces each character by its table entry. */
  function Escape(s: string): (r: string)
    ensures |r| >= |s|
    ensures forall i :: 0 <= i < |r| ==> !IsMarkup(r[i])
    decreases |s|
  {
    if |s| == 0 then ""
    else EscapeChar(s[0]) + Escape(s[1..])
  }

  /** Escaping works character by character: it distributes over concatenation. */
  lemma {:induction false} EscapeConcat(a: string, b: string)
    ensures Escape(a + b) == Escape(a) + Escape(b)
    decreases |a|
  {
    if |a| == 0 {
      assert a + b == b;
    } else {
      assert (a + b)[0] == a[0];
      assert (a + b)[1..] == a[1..] + b;
      EscapeConcat(a[1..], b);
    }
  }

  /** A string is left unchanged by escaping exactly when it holds none of the
      five special characters; otherwise escaping makes it strictly longer. */
  lemma {:induction false} EscapeFixedPoint(s: string)
    ensures Escape(s) == s <==> forall i :: 0 <= i < |s| ==> !IsSpecial(s[i])
    ensures (exists i :: 0 <= i < |s| && IsSpecial(s[i])) ==> |Escape(s)| > |s|
    decreases |s|
  {
    if |s| > 0 {
      EscapeFixedPoint(s[1..]);
      assert s == [s[0]] + s[1..];
      if exists i :: 0 <= i < |s| && IsSpecial(s[i]) {
        var i :| 0 <= i < |s| && IsSpecial(s[i]);
        if i > 0 {
          assert IsSpecial(s[1..][i - 1]);
        }
      }
      if forall i :: 0 <= i < |s[1..]| ==> !IsSpecial(s[1..][i]) {
        if !IsSpecial(s[0]) {
          forall i | 0 <= i < |s| ensures !IsSpecial(s[i]) {
            if i > 0 { assert s[i] == s[1..][i - 1]; }
          }
        }
      }
    }
  }

  /** Decodes the five entities the escaper produces; any other character is
      kept. This is how a browser reads the escaped text back. */
  function Unescape(t: string): (s: string)
    decreases |t|
  {
    if |t| == 0 then ""
    else if |t| >= 5 && t[..5] == "&amp;" then "&" + Unescape(t[5..])
    else if |t| >= 5 && t[..5] == "&#39;" then "'" + Unescape(t[5..])
    else if |t| >= 4 && t[..4] == "&lt;" then "<" + Unescape(t[4..])
    else if |t| >= 4 && t[..4] == "&gt;" then ">" + Unescape(t[4..])
    else if |t| >= 5 && t[..5] == "&#34;" then "\"" + Unescape(t[5..])
    else [t[0]] + Unescape(t[1..])
  }

  /** Decoding undoes one table entry in front of any text. */
  lemma UnescapeEntry(c: char, rest: string)
    ensures Unescape(EscapeChar(c) + rest) == [c] + Unescape(rest)
  {
    if c == '&' {
      UnescapeAmp(rest);
    } else if c == '\'' {
      UnescapeApos(rest);
    } else if c == '<' {
      UnescapeAngle('l', '<', rest);
    } else if c == '>' {
      UnescapeAngle('g', '>', rest);
    } else if c == '"' {
      UnescapeQuot(rest);
    } else {
      UnescapePlain(c, rest);
    }
  }

  lemma UnescapePlain(c: char, rest: string)
    requires c != '&'
    ensures Unescape([c] + rest) == [c] + Unescape(rest)
  {
    var t := [c] + rest;
    assert |t| >= 4 ==> t[..4][0] == c;
    assert |t| >= 5 ==> t[..5][0] == c;
    assert t[1..] == rest;
  }

  lemma UnescapeAmp(rest: string)
    ensures Unescape("&amp;" + rest) == "&" + Unescape(rest)
  {
  }

  lemma UnescapeApos(rest: string)
    ensures Unescape("&#39;" + rest) == "'" + Unescape(rest)
  {
  }

  /** The two four-character entities, `&lt;` and `&gt;`, differ only in
      their second character. */
  lemma UnescapeAngle(x: char, c: char, rest: string)
    requires (x, c) == ('l', '<') || (x, c) == ('g', '>')
    ensures Unescape(['&', x, 't', ';'] + rest) == [c] + Unescape(rest)
  {
    var t := ['&', x, 't', ';'] + rest;
    assert t[..4] == ['&', x, 't', ';'];
    assert t[4..] == rest;
    assert t[1] == x;
  }

  lemma UnescapeQuot(rest: string)
    ensures Unescape("&#34;" + rest) == "\"" + Unescape(rest)
  {
  }

  /** Escaping loses nothing: the escaped text decodes back to the original,
      so the chat line a client displays is the one that was sent. */
  lemma {:induction false} EscapeRoundTrip(s: string)
    ensures Unescape(Escape(s)) == s
    decreases |s|
  {
    if |s| > 0 {
      UnescapeEntry(s[0], Escape(s[1..]));
      EscapeRoundTrip(s[1..]);
      assert s == [s[0]] + s[1..];
    }
  }

  /** Different inputs never escape to the same text. */
  lemma EscapeInjective(a: string, b: string)
    requires Escape(a) == Escape(b)
    ensures a == b
  {
    EscapeRoundTrip(a);
    EscapeRoundTrip(b);
  }
}
