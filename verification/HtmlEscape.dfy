/** HTML escaping (`escapeHtml` in src/core/dx/dev-portal-shell.ts): five replacement passes
    over the whole text. */
module HtmlEscape {

  /** `s.replace(/c/g, entity)` */
  function ReplaceAll(s: string, c: char, entity: string): string {
    if s == [] then [] else (if s[0] == c then entity else [s[0]]) + ReplaceAll(s[1..], c, entity)
  }

  function EscapeHtml(input: string): string {
    FromLess(ReplaceAll(input, '&', "&amp;"))
  }

  /** The passes from `<` on. */
  function FromLess(s: string): string {
    FromGreater(ReplaceAll(s, '<', "&lt;"))
  }

  function FromGreater(s: string): string {
    FromQuote(ReplaceAll(s, '>', "&gt;"))
  }

  function FromQuote(s: string): string {
    FromApostrophe(ReplaceAll(s, '"', "&quot;"))
  }

  function FromApostrophe(s: string): string {
    ReplaceAll(s, '\'', "&#39;")
  }

  /** The entity of a character that has one, the character itself otherwise. */
  function Entity(c: char): string {
    if c == '&' then "&amp;"
    else if c == '<' then "&lt;"
    else if c == '>' then "&gt;"
    else if c == '"' then "&quot;"
    else if c == '\'' then "&#39;"
    else [c]
  }

  /** One pass, character by character. */
  function Escaped(s: string): string {
    if s == [] then [] else Entity(s[0]) + Escaped(s[1..])
  }

  lemma {:induction false} ReplaceConcat(a: string, b: string, c: char, entity: string)
    ensures ReplaceAll(a + b, c, entity) == ReplaceAll(a, c, entity) + ReplaceAll(b, c, entity)
  {
    if a == [] {
      assert [] + b == b;
    } else {
      assert (a + b)[1..] == a[1..] + b;
      ReplaceConcat(a[1..], b, c, entity);
    }
  }

  lemma {:induction false} ReplaceAbsent(s: string, c: char, entity: string)
    requires c !in s
    ensures ReplaceAll(s, c, entity) == s
  {
    if s != [] {
      ReplaceAbsent(s[1..], c, entity);
    }
  }

  lemma ReplaceOne(x: char, c: char, entity: string)
    ensures ReplaceAll([x], c, entity) == if x == c then entity else [x]
  {
    assert [x][1..] == [];
    assert ReplaceAll([], c, entity) == [];
  }

  predicate IsMarkup(c: char) {
    c == '<' || c == '>' || c == '"' || c == '\''
  }

  /** What one pass writes, no later pass touches. */
  lemma LaterPassesKeep(t: string)
    requires forall c :: c in t ==> !IsMarkup(c)
    ensures FromLess(t) == FromGreater(t) == FromQuote(t) == FromApostrophe(t) == t
  {
    ReplaceAbsent(t, '<', "&lt;");
    ReplaceAbsent(t, '>', "&gt;");
    ReplaceAbsent(t, '"', "&quot;");
    ReplaceAbsent(t, '\'', "&#39;");
  }

  lemma EntityHasNoMarkup(x: char)
    ensures forall c :: c in Entity(x) ==> !IsMarkup(c)
  {
  }

  lemma PassesOfAmpersand(x: char)
    requires x == '&'
    ensures EscapeHtml([x]) == Entity(x)
  {
    ReplaceOne(x, '&', "&amp;");
    EntityHasNoMarkup(x);
    LaterPassesKeep(Entity(x));
  }

  lemma PassesOfLess(x: char)
    requires x == '<'
    ensures FromLess([x]) == Entity(x)
  {
    ReplaceOne(x, '<', "&lt;");
    EntityHasNoMarkup(x);
    LaterPassesKeep(Entity(x));
  }

  lemma PassesOfGreater(x: char)
    requires x == '>'
    ensures FromGreater([x]) == Entity(x)
  {
    ReplaceOne(x, '>', "&gt;");
    EntityHasNoMarkup(x);
    LaterPassesKeep(Entity(x));
  }

  lemma PassesOfQuote(x: char)
    requires x == '"'
    ensures FromQuote([x]) == Entity(x)
  {
    ReplaceOne(x, '"', "&quot;");
    EntityHasNoMarkup(x);
    LaterPassesKeep(Entity(x));
  }

  /** A pass for another character leaves this one alone. */
  lemma OtherPassKeeps(x: char, c: char, entity: string)
    requires x != c
    ensures ReplaceAll([x], c, entity) == [x]
  {
    ReplaceOne(x, c, entity);
  }

  lemma PassesOfOne(x: char)
    ensures EscapeHtml([x]) == Entity(x)
  {
    if x == '&' {
      PassesOfAmpersand(x);
    } else {
      OtherPassKeeps(x, '&', "&amp;");
      PassesFromLess(x);
    }
  }

  lemma PassesFromLess(x: char)
    requires x != '&'
    ensures FromLess([x]) == Entity(x)
  {
    if x == '<' {
      PassesOfLess(x);
    } else {
      OtherPassKeeps(x, '<', "&lt;");
      PassesFromGreater(x);
    }
  }

  lemma PassesFromGreater(x: char)
    requires x != '&' && x != '<'
    ensures FromGreater([x]) == Entity(x)
  {
    if x == '>' {
      PassesOfGreater(x);
    } else {
      OtherPassKeeps(x, '>', "&gt;");
      PassesFromQuote(x);
    }
  }

  lemma PassesFromQuote(x: char)
    requires x != '&' && x != '<' && x != '>'
    ensures FromQuote([x]) == Entity(x)
  {
    if x == '"' {
      PassesOfQuote(x);
    } else {
      OtherPassKeeps(x, '"', "&quot;");
      ReplaceOne(x, '\'', "&#39;");
    }
  }

  lemma EscapeConcat(a: string, b: string)
    ensures EscapeHtml(a + b) == EscapeHtml(a) + EscapeHtml(b)
  {
    ReplaceConcat(a, b, '&', "&amp;");
    var a1, b1 := ReplaceAll(a, '&', "&amp;"), ReplaceAll(b, '&', "&amp;");
    ReplaceConcat(a1, b1, '<', "&lt;");
    var a2, b2 := ReplaceAll(a1, '<', "&lt;"), ReplaceAll(b1, '<', "&lt;");
    ReplaceConcat(a2, b2, '>', "&gt;");
    var a3, b3 := ReplaceAll(a2, '>', "&gt;"), ReplaceAll(b2, '>', "&gt;");
    ReplaceConcat(a3, b3, '"', "&quot;");
    var a4, b4 := ReplaceAll(a3, '"', "&quot;"), ReplaceAll(b3, '"', "&quot;");
    ReplaceConcat(a4, b4, '\'', "&#39;");
  }

  /** Five passes one after the other are one pass. */
  lemma {:induction false} FivePassesAreOne(s: string)
    ensures EscapeHtml(s) == Escaped(s)
  {
    if s != [] {
      assert s == [s[0]] + s[1..];
      EscapeConcat([s[0]], s[1..]);
      PassesOfOne(s[0]);
      FivePassesAreOne(s[1..]);
    }
  }

  lemma {:induction false} EscapedHasNoMarkup(s: string)
    ensures forall c :: c in EscapeHtml(s) ==> c !in {'<', '>', '"', '\''}
  {
    FivePassesAreOne(s);
    if s != [] {
      EscapedHasNoMarkup(s[1..]);
      FivePassesAreOne(s[1..]);
      EntityHasNoMarkup(s[0]);
    }
  }

  // ------------------------------------------------------------ reading escaped text

  /** What a browser makes of the five entities. */
  function Unescaped(t: string): string
    decreases |t|
  {
    if t == [] then []
    else if "&amp;" <= t then ['&'] + Unescaped(t[5..])
    else if "&lt;" <= t then ['<'] + Unescaped(t[4..])
    else if "&gt;" <= t then ['>'] + Unescaped(t[4..])
    else if "&quot;" <= t then ['"'] + Unescaped(t[6..])
    else if "&#39;" <= t then ['\''] + Unescaped(t[5..])
    else [t[0]] + Unescaped(t[1..])
  }

  lemma EntityIsRead(c: char, rest: string)
    ensures Unescaped(Entity(c) + rest) == [c] + Unescaped(rest)
  {
    var t := Entity(c) + rest;
    assert t[0] == Entity(c)[0];
    if c == '&' {
      assert "&amp;" <= t && t[5..] == rest;
    } else if c == '<' {
      assert t[1] == 'l' && "&lt;" <= t && t[4..] == rest;
    } else if c == '>' {
      assert t[1] == 'g' && "&gt;" <= t && t[4..] == rest;
    } else if c == '"' {
      assert t[1] == 'q' && "&quot;" <= t && t[6..] == rest;
    } else if c == '\'' {
      assert t[1] == '#' && "&#39;" <= t && t[5..] == rest;
    } else {
      assert t[0] == c && t[1..] == rest;
    }
  }

  /** Escaping loses nothing: reading the escaped text gives the text back. */
  lemma {:induction false} UnescapedEscape(s: string)
    ensures Unescaped(EscapeHtml(s)) == s
  {
    FivePassesAreOne(s);
    if s != [] {
      FivePassesAreOne(s[1..]);
      UnescapedEscape(s[1..]);
      EntityIsRead(s[0], Escaped(s[1..]));
    }
  }

  lemma EscapeIsInjective(s: string, t: string)
    requires EscapeHtml(s) == EscapeHtml(t)
    ensures s == t
  {
    UnescapedEscape(s);
    UnescapedEscape(t);
  }
}
