/**
 The comment sanitiser of app/modules/nanos/service.py: strip, two newline replacements, then html.escape
 without quotes, which is itself three replacements in a fixed order.
 */
module Sanitiser {
  import opened Options
  import opened Text

  const MAX_COMMENT_LENGTH := 1000

  function Normalize(s: string): string {
    Replace(Replace(s, "\r\n", "\n"), "\r", "\n")
  }

  function Escape(s: string): string {
    Replace(Replace(Replace(s, "&", "&amp;"), "<", "&lt;"), ">", "&gt;")
  }

  function Sanitize(content: string): string {
    Escape(Normalize(Strip(content)))
  }

  /** The text stored for `content`, or None when its sanitised form is too long (422). */
  function Accept(content: string): Option<string> {
    if |Sanitize(content)| > MAX_COMMENT_LENGTH then None else Some(Sanitize(content))
  }

  // ---- one-pass forms ----------------------------------------------------------------------------

  function NewlinesOnce(s: string): string {
    if s == [] then []
    else if |s| >= 2 && s[0] == '\r' && s[1] == '\n' then "\n" + NewlinesOnce(s[2..])
    else if s[0] == '\r' then "\n" + NewlinesOnce(s[1..])
    else [s[0]] + NewlinesOnce(s[1..])
  }

  function Entity(c: char): string {
    match c
    case '&' => "&amp;"
    case '<' => "&lt;"
    case '>' => "&gt;"
    case _ => [c]
  }

  function EscapeEach(s: string): string {
    if s == [] then [] else Entity(s[0]) + EscapeEach(s[1..])
  }

  function Unescape(s: string): string {
    if s == [] then []
    else if "&amp;" <= s then "&" + Unescape(s[5..])
    else if "&lt;" <= s then "<" + Unescape(s[4..])
    else if "&gt;" <= s then ">" + Unescape(s[4..])
    else [s[0]] + Unescape(s[1..])
  }

  // ---- the chains equal the one-pass forms --------------------------------------------------------

  lemma {:induction false} NormalizeIsOnePass(s: string)
    ensures Normalize(s) == NewlinesOnce(s)
  {
    if s == [] {
    } else if |s| >= 2 && s[0] == '\r' && s[1] == '\n' {
      assert "\r\n" <= s;
      NormalizeIsOnePass(s[2..]);
      NormalizeHead('\n', Replace(s[2..], "\r\n", "\n"));
    } else {
      NormalizeIsOnePass(s[1..]);
      if |s| == 1 { assert s == [s[0]] + s[1..]; }
      assert Replace(s, "\r\n", "\n") == [s[0]] + Replace(s[1..], "\r\n", "\n");
      NormalizeHead(s[0], Replace(s[1..], "\r\n", "\n"));
    }
  }

  lemma NormalizeHead(c: char, rest: string)
    ensures Replace([c] + rest, "\r", "\n") == [if c == '\r' then '\n' else c] + Replace(rest, "\r", "\n")
  {
    ReplaceConcat([c], rest, '\r', "\n");
    ReplaceOne(c, '\r', "\n");
  }

  lemma EscapeConcat(a: string, b: string)
    ensures Escape(a + b) == Escape(a) + Escape(b)
  {
    ReplaceConcat(a, b, '&', "&amp;");
    var a1, b1 := Replace(a, "&", "&amp;"), Replace(b, "&", "&amp;");
    ReplaceConcat(a1, b1, '<', "&lt;");
    ReplaceConcat(Replace(a1, "<", "&lt;"), Replace(b1, "<", "&lt;"), '>', "&gt;");
  }

  lemma EscapeOne(c: char)
    ensures Escape([c]) == Entity(c)
  {
    ReplaceOne(c, '&', "&amp;");
    ReplaceOne(c, '<', "&lt;");
    ReplaceOne(c, '>', "&gt;");
    Inert("&amp;", '<', "&lt;");
    Inert("&amp;", '>', "&gt;");
    Inert("&lt;", '>', "&gt;");
  }

  /** The three replacements, in this order, escape each character once. */
  lemma {:induction false} EscapeIsPerCharacter(s: string)
    ensures Escape(s) == EscapeEach(s)
  {
    if s != [] {
      assert s == [s[0]] + s[1..];
      EscapeConcat([s[0]], s[1..]);
      EscapeOne(s[0]);
      EscapeIsPerCharacter(s[1..]);
    }
  }

  // ---- nothing is lost, nothing dangerous is left ---------------------------------------------------

  lemma UnescapeEntity(c: char, rest: string)
    ensures Unescape(Entity(c) + rest) == [c] + Unescape(rest)
  {
    var s := Entity(c) + rest;
    assert s[|Entity(c)|..] == rest;
    if c == '&' {
      assert "&amp;" <= s;
    } else if c == '<' {
      assert s[1] == 'l' && "&lt;" <= s;
    } else if c == '>' {
      assert s[1] == 'g' && "&gt;" <= s;
    } else {
      assert s[0] != '&';
    }
  }

  lemma {:induction false} UnescapeEach(s: string)
    ensures Unescape(EscapeEach(s)) == s
  {
    if s != [] {
      UnescapeEach(s[1..]);
      UnescapeEntity(s[0], EscapeEach(s[1..]));
    }
  }

  lemma {:induction false} NewlinesClean(s: string)
    ensures '\r' !in NewlinesOnce(s)
    ensures s != [] ==> NewlinesOnce(s) != []
  {
    if s != [] {
      NewlinesClean(if |s| >= 2 && s[0] == '\r' && s[1] == '\n' then s[2..] else s[1..]);
    }
  }

  lemma EntityClean(c: char)
    requires c != '\r'
    ensures '<' !in Entity(c) && '>' !in Entity(c) && '\r' !in Entity(c) && |Entity(c)| >= 1
  {
  }

  lemma {:induction false} EscapeClean(s: string)
    requires '\r' !in s
    ensures '<' !in EscapeEach(s) && '>' !in EscapeEach(s) && '\r' !in EscapeEach(s)
    ensures |EscapeEach(s)| >= |s|
  {
    if s != [] {
      assert s[0] in s && forall x | x in s[1..] :: x in s;
      EscapeClean(s[1..]);
      EntityClean(s[0]);
      hide Entity;
    }
  }

  ghost predicate Storable(text: string) {
    1 <= |text| <= MAX_COMMENT_LENGTH && '<' !in text && '>' !in text && '\r' !in text
  }

  /**
   A comment that is not blank is stored without markup or carriage returns, within the length limit, and
   unescaping gives back exactly the stripped text with its line breaks normalised.
   */
  lemma AcceptedIsStorable(content: string)
    requires Strip(content) != []
    ensures Accept(content).Some? ==>
      && Storable(Accept(content).value)
      && Unescape(Accept(content).value) == NewlinesOnce(Strip(content))
  {
    var normal := NewlinesOnce(Strip(content));
    NormalizeIsOnePass(Strip(content));
    EscapeIsPerCharacter(normal);
    NewlinesClean(Strip(content));
    EscapeClean(normal);
    UnescapeEach(normal);
  }
}
