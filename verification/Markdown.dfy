/** The Markdown escaper, and its inverse: what a Markdown reader makes of the escaped text. */
module Markdown {
  import opened Options

  predicate IsSpecial(c: char) {
    c in "\\`*[]<>#+|~"
  }

  predicate IsWord(c: char) {
    'A' <= c <= 'Z' || 'a' <= c <= 'z' || '0' <= c <= '9'
  }

  predicate IsSpace(c: char) {
    c == ' ' || '\t' <= c <= '\r'
  }

  // ---- the four passes ----

  function Ampersands(s: string): string {
    if s == "" then "" else (if s[0] == '&' then "&amp;" else [s[0]]) + Ampersands(s[1..])
  }

  function Specials(s: string): string {
    if s == "" then "" else (if IsSpecial(s[0]) then ['\\', s[0]] else [s[0]]) + Specials(s[1..])
  }

  /** An underscore is escaped unless it stands between two word characters; `before` is the character in
      front of the text. */
  function Underscores(before: Option<char>, s: string): string
    decreases |s|
  {
    if s == "" then ""
    else
      var inside := before.Some? && IsWord(before.value) && |s| > 1 && IsWord(s[1]);
      (if s[0] == '_' && !inside then ['\\', '_'] else [s[0]]) + Underscores(Some(s[0]), s[1..])
  }

  /** The first `-`, `:` or `.` of a line, after white space at most, is escaped; `leading` tells whether nothing
      but white space stands before the text on its line. */
  function LineStarts(leading: bool, s: string): string
    decreases |s|
  {
    if s == "" then ""
    else
      (if leading && s[0] in "-:." then ['\\', s[0]] else [s[0]])
      + LineStarts(s[0] == '\n' || (leading && IsSpace(s[0])), s[1..])
  }

  function Escape(value: Option<string>): string {
    var text := if value.None? then "" else value.value;
    LineStarts(true, Underscores(None, Specials(Ampersands(text))))
  }

  // ---- reading Markdown ----

  /** The ASCII punctuation characters, which a backslash escapes (section 2.4 of CommonMark 0.31). */
  predicate IsPunctuation(c: char) {
    '!' <= c <= '/' || ':' <= c <= '@' || '[' <= c <= '`' || '{' <= c <= '~'
  }

  /** Resolves backslash escapes and the entity `&amp;`. */
  function Read(s: string): string {
    if s == "" then ""
    else if s[0] == '\\' && |s| > 1 && IsPunctuation(s[1]) then [s[1]] + Read(s[2..])
    else if "&amp;" <= s then "&" + Read(s[5..])
    else [s[0]] + Read(s[1..])
  }

  // ---- tokens: a plain character, an escape, or the entity ----

  /** Every backslash begins an escape of a special character, every ampersand the entity, and no special
      character stands without its backslash. */
  predicate Tokens(s: string) {
    s == "" ||
    if s[0] == '\\' then |s| > 1 && IsSpecial(s[1]) && Tokens(s[2..])
    else if s[0] == '&' then "&amp;" <= s && Tokens(s[5..])
    else !IsSpecial(s[0]) && Tokens(s[1..])
  }

  /** As above, but after a backslash any punctuation may stand. */
  predicate Escapes(s: string) {
    s == "" ||
    if s[0] == '\\' then |s| > 1 && IsPunctuation(s[1]) && Escapes(s[2..])
    else if s[0] == '&' then "&amp;" <= s && Escapes(s[5..])
    else !IsSpecial(s[0]) && Escapes(s[1..])
  }

  lemma EscapeToken(c: char, rest: string)
    requires IsPunctuation(c)
    ensures Escapes(['\\', c] + rest) == Escapes(rest) && Read(['\\', c] + rest) == [c] + Read(rest)
  {
    assert (['\\', c] + rest)[2..] == rest;
  }

  lemma EntityToken(rest: string)
    ensures Escapes("&amp;" + rest) == Escapes(rest) && Read("&amp;" + rest) == "&" + Read(rest)
  {
    assert ("&amp;" + rest)[5..] == rest;
  }

  lemma PlainToken(c: char, rest: string)
    requires !IsSpecial(c) && c != '&'
    ensures Escapes([c] + rest) == Escapes(rest) && Read([c] + rest) == [c] + Read(rest)
  {
    assert ([c] + rest)[1..] == rest;
  }

  lemma SpecialIsPunctuation(c: char)
    ensures IsSpecial(c) ==> IsPunctuation(c)
  {
  }

  lemma SpecialsStep(c: char, rest: string)
    ensures Specials([c] + rest) == (if IsSpecial(c) then ['\\', c] else [c]) + Specials(rest)
  {
    assert ([c] + rest)[1..] == rest;
  }

  lemma EntityStays(rest: string)
    ensures Specials("&amp;" + rest) == "&amp;" + Specials(rest)
  {
    hide Specials;
    assert "&amp;" + rest == ['&'] + (['a'] + (['m'] + (['p'] + ([';'] + rest))));
    SpecialsStep(';', rest);
    SpecialsStep('p', [';'] + rest);
    SpecialsStep('m', ['p'] + ([';'] + rest));
    SpecialsStep('a', ['m'] + (['p'] + ([';'] + rest)));
    SpecialsStep('&', ['a'] + (['m'] + (['p'] + ([';'] + rest))));
  }

  lemma AmpersandsStep(c: char, rest: string)
    ensures Ampersands([c] + rest) == (if c == '&' then "&amp;" else [c]) + Ampersands(rest)
  {
    assert ([c] + rest)[1..] == rest;
  }

  lemma TokenFirst(c: char, rest: string)
    requires Tokens(rest)
    ensures IsSpecial(c) ==> Tokens(['\\', c] + rest) && Read(['\\', c] + rest) == [c] + Read(rest)
    ensures !IsSpecial(c) && c != '&' ==> Tokens([c] + rest) && Read([c] + rest) == [c] + Read(rest)
    ensures Tokens("&amp;" + rest) && Read("&amp;" + rest) == "&" + Read(rest)
  {
    hide IsPunctuation;
    SpecialIsPunctuation(c);
    assert (['\\', c] + rest)[2..] == rest && ([c] + rest)[1..] == rest && ("&amp;" + rest)[5..] == rest;
  }

  /** The first two passes write each character as one token that reads back as it. */
  lemma {:induction false} FirstPassesRead(s: string)
    ensures var t := Specials(Ampersands(s)); Tokens(t) && Read(t) == s
  {
    hide Tokens, Read, Specials, Ampersands, IsSpecial;
    if s == "" {
      EmptyPasses();
    } else {
      var c, rest := s[0], Ampersands(s[1..]);
      FirstPassesRead(s[1..]);
      assert s == [c] + s[1..];
      AmpersandsStep(c, s[1..]);
      TokenFirst(c, Specials(rest));
      if c == '&' {
        EntityStays(rest);
      } else {
        SpecialsStep(c, rest);
      }
    }
  }

  lemma EmptyPasses()
    ensures Specials(Ampersands("")) == "" && Tokens("") && Read("") == ""
  {
  }

  lemma EntityPlain(s: string)
    requires "&amp;" <= s
    ensures Underscores(Some('&'), s[1..]) == "amp;" + Underscores(Some(';'), s[5..])
  {
    var rest := s[5..];
    assert s == "&amp;" + rest;
    assert s[1..] == "amp;" + rest && ("amp;" + rest)[1..] == "mp;" + rest;
    assert ("mp;" + rest)[1..] == "p;" + rest && ("p;" + rest)[1..] == ";" + rest && (";" + rest)[1..] == rest;
    assert Underscores(Some('p'), ";" + rest) == ";" + Underscores(Some(';'), rest);
    assert Underscores(Some('m'), "p;" + rest) == "p" + Underscores(Some('p'), ";" + rest);
    assert Underscores(Some('a'), "mp;" + rest) == "m" + Underscores(Some('m'), "p;" + rest);
    assert Underscores(Some('&'), "amp;" + rest) == "a" + Underscores(Some('a'), "mp;" + rest);
  }

  lemma {:induction false} UnderscoresRead(before: Option<char>, s: string)
    requires Tokens(s)
    ensures var t := Underscores(before, s); Escapes(t) && Read(t) == Read(s)
    decreases |s|
  {
    hide Read, Escapes, IsPunctuation, IsSpecial, IsWord;
    if s == "" {
      NothingReads();
    } else if s[0] == '\\' {
      var rest := Underscores(Some(s[1]), s[2..]);
      UnderscoresRead(Some(s[1]), s[2..]);
      SpecialIsPunctuation(s[1]);
      UnderscoreIsPlain();
      assert s[1..][1..] == s[2..] && s == ['\\', s[1]] + s[2..];
      assert Underscores(before, s) == ['\\', s[1]] + rest;
      EscapeToken(s[1], rest);
      EscapeToken(s[1], s[2..]);
    } else if s[0] == '&' {
      UnderscoresRead(Some(';'), s[5..]);
      EntityPlain(s);
      assert s == "&amp;" + s[5..];
      assert Underscores(before, s) == "&amp;" + Underscores(Some(';'), s[5..]);
      EntityToken(Underscores(Some(';'), s[5..]));
      EntityToken(s[5..]);
    } else {
      var rest := Underscores(Some(s[0]), s[1..]);
      UnderscoresRead(Some(s[0]), s[1..]);
      UnderscoreIsPlain();
      assert s == [s[0]] + s[1..];
      PlainToken(s[0], s[1..]);
      PlainToken(s[0], rest);
      EscapeToken('_', rest);
    }
  }

  lemma NothingReads()
    ensures Escapes("") && Read("") == ""
  {
  }

  lemma UnderscoreIsPlain()
    ensures !IsSpecial('_') && IsPunctuation('_')
  {
  }

  lemma EntityOnLine(s: string)
    requires "&amp;" <= s
    ensures LineStarts(false, s[1..]) == "amp;" + LineStarts(false, s[5..])
  {
    var rest := s[5..];
    assert s == "&amp;" + rest;
    assert s[1..] == "amp;" + rest && ("amp;" + rest)[1..] == "mp;" + rest;
    assert ("mp;" + rest)[1..] == "p;" + rest && ("p;" + rest)[1..] == ";" + rest && (";" + rest)[1..] == rest;
    assert LineStarts(false, ";" + rest) == ";" + LineStarts(false, rest);
    assert LineStarts(false, "p;" + rest) == "p" + LineStarts(false, ";" + rest);
    assert LineStarts(false, "mp;" + rest) == "m" + LineStarts(false, "p;" + rest);
    assert LineStarts(false, "amp;" + rest) == "a" + LineStarts(false, "mp;" + rest);
  }

  lemma {:induction false} LineStartsRead(leading: bool, s: string)
    requires Escapes(s)
    ensures var t := LineStarts(leading, s); Escapes(t) && Read(t) == Read(s)
    decreases |s|
  {
    hide Read, IsPunctuation, IsSpecial, IsSpace, Escapes;
    if s == "" {
      NothingReads();
    } else if s[0] == '\\' {
      EscapeFirst(s);
      var rest := LineStarts(false, s[2..]);
      LineStartsRead(false, s[2..]);
      NoLineMark(s[1]);
      assert s[1..][1..] == s[2..] && s == ['\\', s[1]] + s[2..];
      assert LineStarts(leading, s) == ['\\', s[1]] + rest;
      EscapeToken(s[1], rest);
      EscapeToken(s[1], s[2..]);
    } else if s[0] == '&' {
      EscapeFirst(s);
      NoLineMark('&');
      LineStartsRead(false, s[5..]);
      EntityOnLine(s);
      assert s == "&amp;" + s[5..];
      assert LineStarts(leading, s) == "&amp;" + LineStarts(false, s[5..]);
      EntityToken(LineStarts(false, s[5..]));
      EntityToken(s[5..]);
    } else {
      EscapeFirst(s);
      var next := s[0] == '\n' || (leading && IsSpace(s[0]));
      var rest := LineStarts(next, s[1..]);
      LineStartsRead(next, s[1..]);
      NoLineMark(s[0]);
      assert s == [s[0]] + s[1..];
      PlainToken(s[0], s[1..]);
      PlainToken(s[0], rest);
      if leading && s[0] in "-:." {
        EscapeToken(s[0], rest);
      }
    }
  }

  lemma EscapeFirst(s: string)
    requires Escapes(s) && s != ""
    ensures s[0] == '\\' ==> |s| > 1 && IsPunctuation(s[1]) && Escapes(s[2..])
    ensures s[0] == '&' ==> "&amp;" <= s && Escapes(s[5..])
    ensures s[0] != '\\' && s[0] != '&' ==> !IsSpecial(s[0]) && Escapes(s[1..])
  {
  }

  /** White space and line-start marks among the tokens. */
  lemma NoLineMark(c: char)
    ensures !IsSpace('\\') && !IsSpace('&') && (IsPunctuation(c) ==> !IsSpace(c))
    ensures c in "-:." ==> IsPunctuation(c) && !IsSpecial(c)
  {
  }

  /** Whatever the text, a Markdown reader that resolves escapes and the entity sees the original again; and
      every special character of the escaped text stands behind a backslash, every ampersand in the entity. */
  lemma EscapeReadsBack(text: string)
    ensures Read(Escape(Some(text))) == text && Escapes(Escape(Some(text)))
  {
    hide Read, Escapes, LineStarts, Underscores, Specials, Ampersands, Tokens;
    FirstPassesRead(text);
    var t := Specials(Ampersands(text));
    UnderscoresRead(None, t);
    LineStartsRead(true, Underscores(None, t));
  }
}
