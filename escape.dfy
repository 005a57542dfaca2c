/**
 * `escapeHtml`: absent input becomes the empty string; otherwise five global
 * substitutions are applied in a fixed order, ampersand first.
 */
module Escape {
  import opened Wrappers

  /** `s.replace(/c/g, rep)`: every occurrence of the character `c` becomes `rep`. */
  function ReplaceAll(s: string, c: char, rep: string): (r: string)
    ensures c !in s ==> r == s
  {
    if |s| == 0 then ""
    else (if s[0] == c then rep else [s[0]]) + ReplaceAll(s[1..], c, rep)
  }

  /** `escapeHtml(unsafe)`, with `null`/`undefined` as `None`. */
  function EscapeHtml(unsafe: Option<string>): (r: string)
    ensures unsafe.None? ==> r == ""
  {
    match unsafe
    case None => ""
    case Some(s) =>
      ReplaceAll(ReplaceAll(ReplaceAll(ReplaceAll(ReplaceAll(
        s, '&', "&amp;"), '<', "&lt;"), '>', "&gt;"), '"', "&quot;"), '\'', "&#039;")
  }

  // ----- An independent, character-at-a-time definition -----

  /** The entity one character turns into, or the character itself. */
  function EscapeChar(c: char): string {
    match c
    case '&' => "&amp;"
    case '<' => "&lt;"
    case '>' => "&gt;"
    case '"' => "&quot;"
    case '\'' => "&#039;"
    case _ => [c]
  }

  function EscapeChars(s: string): string {
    if |s| == 0 then "" else EscapeChar(s[0]) + EscapeChars(s[1..])
  }

  /** Replacing distributes over concatenation. */
  lemma {:induction false} ReplaceAllAppend(a: string, b: string, c: char, rep: string)
    ensures ReplaceAll(a + b, c, rep) == ReplaceAll(a, c, rep) + ReplaceAll(b, c, rep)
  {
    if |a| > 0 {
      assert (a + b)[1..] == a[1..] + b;
      ReplaceAllAppend(a[1..], b, c, rep);
    } else {
      assert a + b == b;
    }
  }

  /** The five chained replacements of `EscapeHtml`, on a plain string. */
  function Chain(s: string): string {
    ReplaceAll(ReplaceAll(ReplaceAll(ReplaceAll(ReplaceAll(
      s, '&', "&amp;"), '<', "&lt;"), '>', "&gt;"), '"', "&quot;"), '\'', "&#039;")
  }

  lemma ChainAppend(a: string, b: string)
    ensures Chain(a + b) == Chain(a) + Chain(b)
  {
    var a1, b1 := ReplaceAll(a, '&', "&amp;"), ReplaceAll(b, '&', "&amp;");
    ReplaceAllAppend(a, b, '&', "&amp;");
    var a2, b2 := ReplaceAll(a1, '<', "&lt;"), ReplaceAll(b1, '<', "&lt;");
    ReplaceAllAppend(a1, b1, '<', "&lt;");
    var a3, b3 := ReplaceAll(a2, '>', "&gt;"), ReplaceAll(b2, '>', "&gt;");
    ReplaceAllAppend(a2, b2, '>', "&gt;");
    var a4, b4 := ReplaceAll(a3, '"', "&quot;"), ReplaceAll(b3, '"', "&quot;");
    ReplaceAllAppend(a3, b3, '"', "&quot;");
    ReplaceAllAppend(a4, b4, '\'', "&#039;");
  }

  lemma ChainChar(c: char)
    ensures Chain([c]) == EscapeChar(c)
  {
    var s1 := ReplaceAll([c], '&', "&amp;");
    var s2 := ReplaceAll(s1, '<', "&lt;");
    var s3 := ReplaceAll(s2, '>', "&gt;");
    var s4 := ReplaceAll(s3, '"', "&quot;");
    var e := EscapeChar(c);
    EntityPlain(c);
    ReplaceAllSingle(c, '&', "&amp;");
    if c != '&' {
      ReplaceAllSingle(c, '<', "&lt;");
      if c != '<' {
        ReplaceAllSingle(c, '>', "&gt;");
        if c != '>' {
          ReplaceAllSingle(c, '"', "&quot;");
          if c != '"' {
            ReplaceAllSingle(c, '\'', "&#039;");
          }
        }
      }
    }
  }

  lemma ReplaceAllSingle(d: char, c: char, rep: string)
    ensures ReplaceAll([d], c, rep) == if d == c then rep else [d]
  {
    assert [d][1..] == [];
  }

  /** An entity holds none of the four characters replaced after the ampersand. */
  lemma EntityPlain(c: char)
    ensures var e := EscapeChar(c);
      |e| > 1 ==> '<' !in e && '>' !in e && '"' !in e && '\'' !in e
  {
  }

  /** Ampersand first: the chained replacements escape each character exactly once. */
  lemma EscapeHtmlIsPerChar(s: string)
    ensures EscapeHtml(Some(s)) == EscapeChars(s)
  {
    ChainIsPerChar(s);
  }

  lemma {:induction false} ChainIsPerChar(s: string)
    ensures Chain(s) == EscapeChars(s)
  {
    if |s| > 0 {
      var h, t := [s[0]], s[1..];
      assert s == h + t;
      ChainAppend(h, t);
      ChainChar(s[0]);
      ChainIsPerChar(t);
      assert EscapeChars(s) == EscapeChar(s[0]) + EscapeChars(t);
    }
  }

  // ----- What the output looks like -----

  /** One of the four characters that never survive escaping. */
  predicate Reserved(c: char) {
    c == '<' || c == '>' || c == '"' || c == '\''
  }

  /** `t` begins with one of the five entities the escaper emits. */
  predicate StartsWithEntity(t: string) {
    "&amp;" <= t || "&lt;" <= t || "&gt;" <= t || "&quot;" <= t || "&#039;" <= t
  }

  /** No reserved character, and every ampersand begins an entity. */
  predicate MarkupSafe(r: string) {
    && (forall i :: 0 <= i < |r| ==> !Reserved(r[i]))
    && (forall i :: 0 <= i < |r| && r[i] == '&' ==> StartsWithEntity(r[i..]))
  }

  lemma MarkupSafeAppend(a: string, b: string)
    requires MarkupSafe(a) && MarkupSafe(b)
    ensures MarkupSafe(a + b)
  {
    var r := a + b;
    forall i | 0 <= i < |r| && r[i] == '&' ensures StartsWithEntity(r[i..]) {
      if i < |a| {
        assert r[i..] == a[i..] + b;
        assert StartsWithEntity(a[i..]);
      } else {
        assert r[i..] == b[i - |a|..];
      }
    }
  }

  lemma {:induction false} EscapeCharsSafe(s: string)
    ensures MarkupSafe(EscapeChars(s))
  {
    if |s| > 0 {
      var e := EscapeChar(s[0]);
      EscapeCharSafe(s[0]);
      EscapeCharsSafe(s[1..]);
      MarkupSafeAppend(e, EscapeChars(s[1..]));
      assert EscapeChars(s) == e + EscapeChars(s[1..]);
    }
  }

  lemma EscapeCharSafe(c: char)
    ensures MarkupSafe(EscapeChar(c))
  {
    var e := EscapeChar(c);
    EntityShape(c);
    if |e| > 1 {
      forall i | 0 <= i < |e| && e[i] == '&' ensures StartsWithEntity(e[i..]) {
        assert i == 0 && e[0..] == e;
      }
    }
  }

  /** A character is either kept, being neither `&` nor reserved, or becomes an entity. */
  lemma EntityShape(c: char)
    ensures var e := EscapeChar(c);
      && (|e| == 1 ==> e == [c] && c != '&' && !Reserved(c))
      && (|e| > 1 ==> StartsWithEntity(e) && forall i :: 0 < i < |e| ==> e[i] != '&' && !Reserved(e[i]))
  {
  }

  /**
   * The output of `escapeHtml` holds no `<`, `>`, `"` or `'`, and each `&` in it
   * begins `&amp;`, `&lt;`, `&gt;`, `&quot;` or `&#039;`.
   */
  lemma EscapeHtmlSafe(unsafe: Option<string>)
    ensures MarkupSafe(EscapeHtml(unsafe))
  {
    if unsafe.Some? {
      EscapeHtmlIsPerChar(unsafe.value);
      EscapeCharsSafe(unsafe.value);
    }
  }

  // ----- Decoding -----

  /** Replaces each of the five entities by the character it stands for, left to right. */
  function Unescape(s: string): string {
    if |s| == 0 then ""
    else if "&amp;" <= s then "&" + Unescape(s[5..])
    else if "&lt;" <= s then "<" + Unescape(s[4..])
    else if "&gt;" <= s then ">" + Unescape(s[4..])
    else if "&quot;" <= s then "\"" + Unescape(s[6..])
    else if "&#039;" <= s then "'" + Unescape(s[6..])
    else [s[0]] + Unescape(s[1..])
  }

  lemma UnescapeCons(c: char, rest: string)
    ensures Unescape(EscapeChar(c) + rest) == [c] + Unescape(rest)
  {
    var e := EscapeChar(c) + rest;
    assert e[|EscapeChar(c)|..] == rest;
    if c == '&' {
      assert "&amp;" <= e && e[5..] == rest;
    } else if c == '<' {
      assert "&lt;" <= e && e[1] == 'l' && e[4..] == rest;
      assert !("&amp;" <= e);
    } else if c == '>' {
      assert "&gt;" <= e && e[1] == 'g' && e[4..] == rest;
      assert !("&amp;" <= e) && !("&lt;" <= e);
    } else if c == '"' {
      assert "&quot;" <= e && e[1] == 'q' && e[6..] == rest;
      assert !("&amp;" <= e) && !("&lt;" <= e) && !("&gt;" <= e);
    } else if c == '\'' {
      assert "&#039;" <= e && e[1] == '#' && e[6..] == rest;
      assert !("&amp;" <= e) && !("&lt;" <= e) && !("&gt;" <= e) && !("&quot;" <= e);
    } else {
      assert e[0] == c && e[1..] == rest;
      assert !StartsWithEntity(e);
    }
  }

  lemma {:induction false} UnescapeEscapeChars(s: string)
    ensures Unescape(EscapeChars(s)) == s
  {
    if |s| > 0 {
      var t := EscapeChars(s[1..]);
      assert EscapeChars(s) == EscapeChar(s[0]) + t;
      UnescapeCons(s[0], t);
      UnescapeEscapeChars(s[1..]);
      assert s == [s[0]] + s[1..];
    }
  }

  /** Decoding the five entities gives back the original text; absent input gives "". */
  lemma EscapeHtmlRoundTrip(unsafe: Option<string>)
    ensures Unescape(EscapeHtml(unsafe)) == unsafe.GetOr("")
  {
    if unsafe.Some? {
      EscapeHtmlIsPerChar(unsafe.value);
      UnescapeEscapeChars(unsafe.value);
    }
  }

  /** Text with nothing to escape passes through unchanged. */
  lemma {:induction false} EscapeHtmlPlainText(s: string)
    requires forall i :: 0 <= i < |s| ==> s[i] != '&' && !Reserved(s[i])
    ensures EscapeHtml(Some(s)) == s
  {
    EscapeHtmlIsPerChar(s);
    PlainEscapeChars(s);
  }

  lemma {:induction false} PlainEscapeChars(s: string)
    requires forall i :: 0 <= i < |s| ==> s[i] != '&' && !Reserved(s[i])
    ensures EscapeChars(s) == s
  {
    if |s| > 0 {
      PlainEscapeChars(s[1..]);
      assert s == [s[0]] + s[1..];
    }
  }

  lemma EscapeCharsAppend(a: string, b: string)
    ensures EscapeChars(a + b) == EscapeChars(a) + EscapeChars(b)
  {
    if |a| > 0 {
      assert (a + b)[1..] == a[1..] + b;
      EscapeCharsAppend(a[1..], b);
    } else {
      assert a + b == b;
    }
  }

  /** Escaping is not idempotent: a second call encodes the ampersand again. */
  lemma EscapeHtmlNotIdempotent(amp: string)
    requires amp == "&"
    ensures EscapeHtml(Some(amp)) == "&amp;"
    ensures EscapeHtml(Some(EscapeHtml(Some(amp)))) == "&amp;amp;"
  {
    var once := "&amp;";
    assert EscapeChars(amp) == once by {
      EscapeCharsSingle('&');
      assert amp == ['&'];
    }
    assert EscapeChars(once) == "&amp;amp;" by {
      var tail := "amp;";
      assert once == ['&'] + tail;
      EscapeCharsAppend(['&'], tail);
      EscapeCharsSingle('&');
      PlainEscapeChars(tail);
    }
    EscapeHtmlIsPerChar(amp);
    EscapeHtmlIsPerChar(once);
  }

  /** The worked example: `<b>&'"` escapes to `&lt;b&gt;&amp;&#039;&quot;`. */
  lemma EscapeHtmlExample(s: string)
    requires s == "<b>&'\""
    ensures EscapeHtml(Some(s)) == "&lt;b&gt;&amp;&#039;&quot;"
  {
    assert s == [s[0]] + [s[1]] + [s[2]] + [s[3]] + [s[4]] + [s[5]];
    EscapeCharsSix(s[0], s[1], s[2], s[3], s[4], s[5]);
    ExampleEntities(s[0], s[1], s[2], s[3], s[4], s[5]);
    EscapeHtmlIsPerChar(s);
  }

  lemma ExampleEntities(c0: char, c1: char, c2: char, c3: char, c4: char, c5: char)
    requires c0 == '<' && c1 == 'b' && c2 == '>' && c3 == '&' && c4 == '\'' && c5 == '"'
    ensures EscapeChar(c0) + EscapeChar(c1) + EscapeChar(c2) + EscapeChar(c3) + EscapeChar(c4) + EscapeChar(c5)
         == "&lt;b&gt;&amp;&#039;&quot;"
  {
  }

  lemma EscapeCharsSix(c0: char, c1: char, c2: char, c3: char, c4: char, c5: char)
    ensures EscapeChars([c0] + [c1] + [c2] + [c3] + [c4] + [c5])
         == EscapeChar(c0) + EscapeChar(c1) + EscapeChar(c2) + EscapeChar(c3) + EscapeChar(c4) + EscapeChar(c5)
  {
    EscapeCharsAppend([c0] + [c1] + [c2] + [c3] + [c4], [c5]);
    EscapeCharsAppend([c0] + [c1] + [c2] + [c3], [c4]);
    EscapeCharsAppend([c0] + [c1] + [c2], [c3]);
    EscapeCharsAppend([c0] + [c1], [c2]);
    EscapeCharsAppend([c0], [c1]);
    EscapeCharsSingle(c0);
    EscapeCharsSingle(c1);
    EscapeCharsSingle(c2);
    EscapeCharsSingle(c3);
    EscapeCharsSingle(c4);
    EscapeCharsSingle(c5);
  }

  lemma EscapeCharsSingle(c: char)
    ensures EscapeChars([c]) == EscapeChar(c)
  {
    assert [c][1..] == [];
  }
}
