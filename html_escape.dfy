/**
 * The contact form's HTML escaper, `escapeHtml`: five `replaceAll` passes that turn
 * `& < > " '` into the character references `&amp; &lt; &gt; &quot; &#039;`,
 * ampersand first. The review panel runs every submitted value through it before the
 * value is placed inside markup.
 */
module HtmlEscape {
  import opened Wrappers

  /** The five characters the escaper rewrites. */
  predicate IsSpecial(c: char) {
    c == '&' || c == '<' || c == '>' || c == '"' || c == '\''
  }

  /** Characters that would open or close a tag or an attribute value. */
  predicate IsMarkup(c: char) {
    c == '<' || c == '>' || c == '"' || c == '\''
  }

  /** A string in which no character can start markup. */
  predicate NoMarkup(s: string) {
    forall k :: 0 <= k < |s| ==> !IsMarkup(s[k])
  }

  /** What one input character becomes in the escaped text. */
  function Entity(c: char): string {
    match c
    case '&' => "&amp;"
    case '<' => "&lt;"
    case '>' => "&gt;"
    case '"' => "&quot;"
    case '\'' => "&#039;"
    case _ => [c]
  }

  /**
   * `String.prototype.replaceAll` with a one-character pattern: every occurrence of `c`,
   * scanning left to right, is replaced by `rep`; the replacement text is not rescanned.
   */
  function ReplaceAll(s: string, c: char, rep: string): (r: string)
    ensures c !in rep ==> c !in r
  {
    if s == [] then []
    else (if s[0] == c then rep else [s[0]]) + ReplaceAll(s[1..], c, rep)
  }

  /** The chain of replacements in the order the escaper applies them. */
  function ReplaceChain(s: string): string {
    ReplaceAll(
      ReplaceAll(
        ReplaceAll(
          ReplaceAll(
            ReplaceAll(s, '&', "&amp;"),
            '<', "&lt;"),
          '>', "&gt;"),
        '"', "&quot;"),
      '\'', "&#039;")
  }

  /**
   * The reference definition of escaping: each character replaced by its entity, in
   * order. It never yields a character that could start markup.
   */
  function EscapeChars(s: string): (r: string)
    ensures |r| >= |s|
    ensures NoMarkup(r)
  {
    if s == [] then [] else Entity(s[0]) + EscapeChars(s[1..])
  }

  /**
   * `escapeHtml`: a missing or empty value gives the empty string; otherwise the
   * replacement chain, which amounts to escaping character by character.
   */
  function EscapeHtml(str: Option<string>): (r: string)
    ensures str == None ==> r == []
    ensures str.Some? ==> r == EscapeChars(str.value)
  {
    if str == None || str.value == [] then []
    else
      ChainIsPerChar(str.value);
      ReplaceChain(str.value)
  }

  /** Decoding of the five character references; any other character stands for itself. */
  function Unescape(t: string): string
    decreases |t|
  {
    if t == [] then []
    else if "&amp;" <= t then ['&'] + Unescape(t[5..])
    else if "&lt;" <= t then ['<'] + Unescape(t[4..])
    else if "&gt;" <= t then ['>'] + Unescape(t[4..])
    else if "&quot;" <= t then ['"'] + Unescape(t[6..])
    else if "&#039;" <= t then ['\''] + Unescape(t[6..])
    else [t[0]] + Unescape(t[1..])
  }

  /** `t` begins with one of the five character references. */
  predicate StartsWithEntity(t: string) {
    "&amp;" <= t || "&lt;" <= t || "&gt;" <= t || "&quot;" <= t || "&#039;" <= t
  }

  lemma {:induction false} ReplaceAllAppend(a: string, b: string, c: char, rep: string)
    ensures ReplaceAll(a + b, c, rep) == ReplaceAll(a, c, rep) + ReplaceAll(b, c, rep)
  {
    if a == [] {
      assert a + b == b;
    } else {
      assert (a + b)[1..] == a[1..] + b;
      ReplaceAllAppend(a[1..], b, c, rep);
    }
  }

  lemma {:induction false} ReplaceAllAbsent(s: string, c: char, rep: string)
    requires c !in s
    ensures ReplaceAll(s, c, rep) == s
  {
    if s != [] {
      assert c !in s[1..];
      ReplaceAllAbsent(s[1..], c, rep);
    }
  }

  lemma ReplaceChainAppend(a: string, b: string)
    ensures ReplaceChain(a + b) == ReplaceChain(a) + ReplaceChain(b)
  {
    var s1a, s1b := ReplaceAll(a, '&', "&amp;"), ReplaceAll(b, '&', "&amp;");
    ReplaceAllAppend(a, b, '&', "&amp;");
    var s2a, s2b := ReplaceAll(s1a, '<', "&lt;"), ReplaceAll(s1b, '<', "&lt;");
    ReplaceAllAppend(s1a, s1b, '<', "&lt;");
    var s3a, s3b := ReplaceAll(s2a, '>', "&gt;"), ReplaceAll(s2b, '>', "&gt;");
    ReplaceAllAppend(s2a, s2b, '>', "&gt;");
    var s4a, s4b := ReplaceAll(s3a, '"', "&quot;"), ReplaceAll(s3b, '"', "&quot;");
    ReplaceAllAppend(s3a, s3b, '"', "&quot;");
    ReplaceAllAppend(s4a, s4b, '\'', "&#039;");
  }

  lemma ReplaceAllSingle(d: char, c: char, rep: string)
    ensures ReplaceAll([d], c, rep) == if d == c then rep else [d]
  {
    assert [d][1..] == [];
  }

  /**
   * Once a stage has produced text in which none of the later patterns occur, the later
   * stages leave it alone.
   */
  lemma ChainTail(t: string, from: nat)
    requires 1 <= from <= 5
    requires from <= 1 ==> '<' !in t
    requires from <= 2 ==> '>' !in t
    requires from <= 3 ==> '"' !in t
    requires '\'' !in t
    ensures Stages(t, from) == t
  {
    if from <= 1 { ReplaceAllAbsent(t, '<', "&lt;"); }
    if from <= 2 { ReplaceAllAbsent(t, '>', "&gt;"); }
    if from <= 3 { ReplaceAllAbsent(t, '"', "&quot;"); }
    ReplaceAllAbsent(t, '\'', "&#039;");
  }

  /** The stages of the chain after the first `from` replacements have been applied. */
  function Stages(t: string, from: nat): string
    requires from <= 5
  {
    var t2 := if from <= 1 then ReplaceAll(t, '<', "&lt;") else t;
    var t3 := if from <= 2 then ReplaceAll(t2, '>', "&gt;") else t2;
    var t4 := if from <= 3 then ReplaceAll(t3, '"', "&quot;") else t3;
    if from <= 4 then ReplaceAll(t4, '\'', "&#039;") else t4
  }

  lemma ChainOnPlain(c: char)
    requires !IsSpecial(c)
    ensures ReplaceChain([c]) == [c]
  {
    ReplaceAllSingle(c, '&', "&amp;");
    ReplaceAllSingle(c, '<', "&lt;");
    ReplaceAllSingle(c, '>', "&gt;");
    ReplaceAllSingle(c, '"', "&quot;");
    ReplaceAllSingle(c, '\'', "&#039;");
  }

  lemma ChainOnAmpersand()
    ensures ReplaceChain(['&']) == "&amp;"
  {
    ReplaceAllSingle('&', '&', "&amp;");
    ChainTail("&amp;", 1);
  }

  lemma ChainOnLess()
    ensures ReplaceChain(['<']) == "&lt;"
  {
    ReplaceAllSingle('<', '&', "&amp;");
    ReplaceAllSingle('<', '<', "&lt;");
    ChainTail("&lt;", 2);
  }

  lemma ChainOnGreater()
    ensures ReplaceChain(['>']) == "&gt;"
  {
    ReplaceAllSingle('>', '&', "&amp;");
    ReplaceAllSingle('>', '<', "&lt;");
    ReplaceAllSingle('>', '>', "&gt;");
    ChainTail("&gt;", 3);
  }

  lemma ChainOnQuote()
    ensures ReplaceChain(['"']) == "&quot;"
  {
    ReplaceAllSingle('"', '&', "&amp;");
    ReplaceAllSingle('"', '<', "&lt;");
    ReplaceAllSingle('"', '>', "&gt;");
    ReplaceAllSingle('"', '"', "&quot;");
    ChainTail("&quot;", 4);
  }

  lemma ChainOnApostrophe()
    ensures ReplaceChain(['\'']) == "&#039;"
  {
    ReplaceAllSingle('\'', '&', "&amp;");
    ReplaceAllSingle('\'', '<', "&lt;");
    ReplaceAllSingle('\'', '>', "&gt;");
    ReplaceAllSingle('\'', '"', "&quot;");
    ReplaceAllSingle('\'', '\'', "&#039;");
  }

  /** On a single character the chain produces exactly that character's entity. */
  lemma ReplaceChainOne(c: char)
    ensures ReplaceChain([c]) == Entity(c)
  {
    match c
    case '&' => ChainOnAmpersand();
    case '<' => ChainOnLess();
    case '>' => ChainOnGreater();
    case '"' => ChainOnQuote();
    case '\'' => ChainOnApostrophe();
    case _ => ChainOnPlain(c);
  }

  /** Replacing `&` first means the chain never re-escapes an ampersand it introduced. */
  lemma {:induction false} ChainIsPerChar(s: string)
    ensures ReplaceChain(s) == EscapeChars(s)
  {
    if s != [] {
      assert s == [s[0]] + s[1..];
      ReplaceChainAppend([s[0]], s[1..]);
      ReplaceChainOne(s[0]);
      ChainIsPerChar(s[1..]);
    }
  }

  /** Decoding a text that opens with `e`, the reference for `c`, yields `c` and decodes the rest. */
  lemma UnescapeReference(e: string, c: char, rest: string)
    requires (e, c) in {("&amp;", '&'), ("&lt;", '<'), ("&gt;", '>'), ("&quot;", '"'), ("&#039;", '\'')}
    ensures Unescape(e + rest) == [c] + Unescape(rest)
  {
    var t := e + rest;
    assert t[|e|..] == rest;
    if e == "&amp;" {
      assert "&amp;" <= t;
    } else if e == "&lt;" {
      assert t[1] == 'l' && "&lt;" <= t;
    } else if e == "&gt;" {
      assert t[1] == 'g' && "&gt;" <= t;
    } else if e == "&quot;" {
      assert t[1] == 'q' && "&quot;" <= t;
    } else {
      assert t[1] == '#' && "&#039;" <= t;
    }
  }

  /** A character that is not one of the five special ones decodes to itself. */
  lemma UnescapePlain(c: char, rest: string)
    requires !IsSpecial(c)
    ensures Unescape([c] + rest) == [c] + Unescape(rest)
  {
    var t := [c] + rest;
    assert t[0] == c && t[1..] == rest;
  }

  /** Decoding the replacement of `c`, followed by any text, yields `c` and decodes that text. */
  lemma UnescapeEntity(c: char, rest: string)
    ensures Unescape(Entity(c) + rest) == [c] + Unescape(rest)
  {
    match c
    case '&' => UnescapeReference("&amp;", c, rest);
    case '<' => UnescapeReference("&lt;", c, rest);
    case '>' => UnescapeReference("&gt;", c, rest);
    case '"' => UnescapeReference("&quot;", c, rest);
    case '\'' => UnescapeReference("&#039;", c, rest);
    case _ => UnescapePlain(c, rest);
  }

  /** Decoding the escaped text gives back the original value. */
  lemma {:induction false} EscapeRoundTrip(s: string)
    ensures Unescape(EscapeChars(s)) == s
  {
    if s != [] {
      UnescapeEntity(s[0], EscapeChars(s[1..]));
      EscapeRoundTrip(s[1..]);
    }
  }

  /** The escaper's output decodes to the value it was given (a missing value to ""). */
  lemma EscapeHtmlRoundTrip(str: Option<string>)
    ensures Unescape(EscapeHtml(str)) == str.GetOr("")
  {
    if str.Some? {
      EscapeRoundTrip(str.value);
    }
  }

  /** Different values escape to different texts. */
  lemma EscapeHtmlInjective(s: string, t: string)
    requires EscapeHtml(Some(s)) == EscapeHtml(Some(t))
    ensures s == t
  {
    EscapeRoundTrip(s);
    EscapeRoundTrip(t);
  }

  /** Every `&` in escaped text opens one of the five character references. */
  lemma {:induction false} AmpersandsOpenEntities(s: string, i: nat)
    requires i < |EscapeChars(s)| && EscapeChars(s)[i] == '&'
    ensures StartsWithEntity(EscapeChars(s)[i..])
  {
    var e, rest := Entity(s[0]), EscapeChars(s[1..]);
    assert EscapeChars(s) == e + rest;
    if i < |e| {
      assert IsSpecial(s[0]) && i == 0;
      assert EscapeChars(s)[i..] == e + rest;
    } else {
      assert EscapeChars(s)[i..] == rest[i - |e|..];
      AmpersandsOpenEntities(s[1..], i - |e|);
    }
  }

  /** A value without special characters is left as it is. */
  lemma {:induction false} EscapeKeepsPlainText(s: string)
    requires forall k :: 0 <= k < |s| ==> !IsSpecial(s[k])
    ensures EscapeChars(s) == s
  {
    if s != [] {
      EscapeKeepsPlainText(s[1..]);
    }
  }
}
