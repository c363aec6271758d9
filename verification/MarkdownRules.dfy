/** Which characters the escaper puts a backslash before. */
module MarkdownRules {
  import opened Markdown
  import opened Options

  // ---- characters that are escaped wherever they stand ----

  lemma {:induction false} AmpersandsInParts(a: string, b: string)
    ensures Ampersands(a + b) == Ampersands(a) + Ampersands(b)
  {
    hide Ampersands;
    if a == "" {
      assert a + b == b;
      Nothing();
    } else {
      var c, rest := a[0], a[1..];
      AmpersandsInParts(rest, b);
      assert a == [c] + rest && a + b == [c] + (rest + b);
      AmpersandsOne(c, rest);
      AmpersandsOne(c, rest + b);
    }
  }

  lemma AmpersandsOne(c: char, rest: string)
    ensures Ampersands([c] + rest) == Ampersands([c]) + Ampersands(rest)
  {
    assert ([c] + rest)[1..] == rest && [c][1..] == "";
  }


  lemma {:induction false} SpecialsInParts(a: string, b: string)
    ensures Specials(a + b) == Specials(a) + Specials(b)
  {
    hide Specials;
    if a == "" {
      assert a + b == b;
      Nothing();
    } else {
      var c, rest := a[0], a[1..];
      SpecialsInParts(rest, b);
      assert a == [c] + rest && a + b == [c] + (rest + b);
      SpecialsOne(c, rest);
      SpecialsOne(c, rest + b);
    }
  }

  lemma SpecialsOne(c: char, rest: string)
    ensures Specials([c] + rest) == Specials([c]) + Specials(rest)
  {
    assert ([c] + rest)[1..] == rest && [c][1..] == "";
  }


  lemma Nothing()
    ensures Ampersands("") == "" && Specials("") == "" && LineStarts(true, "") == "" && LineStarts(false, "") == ""
  {
  }

  /** The ampersand becomes its entity, eleven characters get a backslash, all others stay. */
  lemma OneCharacter(c: char)
    ensures Ampersands([c]) == if c == '&' then "&amp;" else [c]
    ensures Specials([c]) == if c in {'\\', '`', '*', '[', ']', '<', '>', '#', '+', '|', '~'} then ['\\', c] else [c]
  {
    assert [c][1..] == "";
  }

  /** The 32 characters a backslash escapes for a reader. */
  lemma PunctuationIs(c: char)
    ensures IsPunctuation(c) <==> c in {
      '!', '"', '#', '$', '%', '&', '\'', '(', ')', '*', '+', ',', '-', '.', '/', ':', ';', '<', '=', '>', '?', '@',
      '[', '\\', ']', '^', '_', '`', '{', '|', '}', '~'}
  {
    var n := c as int;
    assert 33 <= n <= 47 || 58 <= n <= 64 || 91 <= n <= 96 || 123 <= n <= 126 <==> IsPunctuation(c);
  }

  // ---- underscores ----

  predicate Alphanumeric(c: Option<char>) {
    c.Some? && ('A' <= c.value <= 'Z' || 'a' <= c.value <= 'z' || '0' <= c.value <= '9')
  }

  function First(s: string): Option<char> {
    if s == "" then None else Some(s[0])
  }

  function LastOf(before: Option<char>, s: string): Option<char> {
    if s == "" then before else Some(s[|s| - 1])
  }

  /** The pass over a piece of text between two others. */
  function Between(before: Option<char>, s: string, after: Option<char>): string
    decreases |s|
  {
    if s == "" then ""
    else
      (if s[0] == '_' && !(Alphanumeric(before) && Alphanumeric(if |s| > 1 then Some(s[1]) else after)) then "\\_" else [s[0]])
      + Between(Some(s[0]), s[1..], after)
  }

  /** The pass over a whole text is the pass over its parts, each seeing the character before and the one after. */
  lemma {:induction false} UnderscoresInParts(before: Option<char>, a: string, b: string)
    ensures Underscores(before, a + b) == Between(before, a, First(b)) + Underscores(LastOf(before, a), b)
    decreases |a|
  {
    hide Underscores, Between;
    var s := a + b;
    if a == "" {
      assert s == b;
      NothingBetween(before, First(b));
    } else {
      UnderscoresInParts(Some(a[0]), a[1..], b);
      assert s[1..] == a[1..] + b;
      FirstUnderscore(before, s);
      FirstBetween(before, a, First(b));
      assert First(s[1..]) == if |a| > 1 then Some(a[1]) else First(b);
    }
  }

  function Escaped(before: Option<char>, c: char, next: Option<char>): string {
    if c == '_' && !(Alphanumeric(before) && Alphanumeric(next)) then "\\_" else [c]
  }

  lemma NothingBetween(before: Option<char>, after: Option<char>)
    ensures Between(before, "", after) == ""
  {
  }

  lemma FirstUnderscore(before: Option<char>, s: string)
    requires s != ""
    ensures Underscores(before, s) == Escaped(before, s[0], First(s[1..])) + Underscores(Some(s[0]), s[1..])
  {
  }

  lemma FirstBetween(before: Option<char>, s: string, after: Option<char>)
    requires s != ""
    ensures Between(before, s, after) ==
      Escaped(before, s[0], if |s| > 1 then Some(s[1]) else after) + Between(Some(s[0]), s[1..], after)
  {
  }

  /** An underscore gets its backslash unless a letter or digit stands right before it and another right behind it. */
  lemma UnderscoreEscaped(before: Option<char>, a: string, b: string)
    ensures Underscores(before, a + ("_" + b)) ==
      Between(before, a, Some('_'))
      + ((if Alphanumeric(LastOf(before, a)) && Alphanumeric(First(b)) then "_" else "\\_") + Underscores(Some('_'), b))
  {
    UnderscoresInParts(before, a, "_" + b);
    assert ("_" + b)[1..] == b;
  }

  // ---- the starts of lines ----

  predicate White(c: char) {
    c in {' ', '\t', '\n', '\U{0B}', '\U{0C}', '\r'}
  }

  /** Only white space stands between the start of the line and the end of the text. */
  predicate AtLineStart(leading: bool, s: string) {
    if s == "" then leading else s[|s| - 1] == '\n' || (White(s[|s| - 1]) && AtLineStart(leading, s[..|s| - 1]))
  }

  lemma {:induction false} AtLineStartStep(leading: bool, s: string)
    requires s != ""
    ensures AtLineStart(leading, s) == AtLineStart(s[0] == '\n' || (leading && White(s[0])), s[1..])
    decreases |s|
  {
    if |s| > 1 {
      AtLineStartStep(leading, s[..|s| - 1]);
      assert s[1..][..|s| - 2] == s[..|s| - 1][1..];
    } else {
      assert s[1..] == "" && s[..0] == "";
    }
  }

  /** The pass goes on in a part as it ended in the one before. */
  lemma {:induction false} LineStartsInParts(leading: bool, a: string, b: string)
    ensures LineStarts(leading, a + b) == LineStarts(leading, a) + LineStarts(AtLineStart(leading, a), b)
    decreases |a|
  {
    hide LineStarts, AtLineStart;
    NoLineStart(leading);
    if a == "" {
      assert a + b == b;
    } else {
      var c, rest, next := a[0], a[1..], a[0] == '\n' || (leading && White(a[0]));
      AtLineStartStep(leading, a);
      LineStartsInParts(next, rest, b);
      assert a == [c] + rest && a + b == [c] + (rest + b);
      LineStartsOne(leading, c, rest);
      LineStartsOne(leading, c, rest + b);
    }
  }

  lemma NoLineStart(leading: bool)
    ensures LineStarts(leading, "") == "" && AtLineStart(leading, "") == leading
  {
  }

  lemma LineStartsOne(leading: bool, c: char, rest: string)
    ensures LineStarts(leading, [c] + rest) ==
      (if leading && c in {'-', ':', '.'} then ['\\', c] else [c]) + LineStarts(c == '\n' || (leading && White(c)), rest)
  {
    assert ([c] + rest)[1..] == rest;
    assert IsSpace(c) == White(c);
    assert c in "-:." <==> c in {'-', ':', '.'};
  }

  /** A dash, colon or full stop gets its backslash exactly where only white space stands before it on its line; any other
      character stays. */
  lemma LineStartEscaped(leading: bool, a: string, c: char, b: string)
    ensures LineStarts(leading, a + ([c] + b)) ==
      LineStarts(leading, a)
      + ((if AtLineStart(leading, a) && c in {'-', ':', '.'} then ['\\', c] else [c]) + LineStarts(AtLineStart(leading, a + [c]), b))
  {
    LineStartsInParts(leading, a, [c] + b);
    assert ([c] + b)[1..] == b && (a + [c])[..|a|] == a;
    assert IsSpace(c) == White(c);
  }

  /** The four passes, one after the other; no value is written as nothing. */
  lemma EscapeIsFourPasses(value: Option<string>)
    ensures Escape(value) ==
      LineStarts(true, Underscores(None, Specials(Ampersands(match value case Some(s) => s case None => ""))))
  {
  }
}
