/** Quoting one argument for a POSIX shell, and the shell's own word splitting.

`Lex` reads a simple command by the quoting rules of sections 2.2.1 (backslash) and 2.2.2 (single quotes)
of the Shell Command Language in IEEE Std 1003.1. A character those rules tell an application to quote,
and any construct beyond them, makes it give up, so a result `Some(words)` means that nothing was expanded.
 */
module PosixShell {
  import opened CliText

  predicate Blank(c: char) {
    c == ' ' || c == '\t'
  }

  /** Section 2.2: the characters that must be quoted, and those that may have to be. */
  predicate Special(c: char) {
    c in "|&;<>()$`\\\"' \t\n" || c in "*?[#~=%"
  }

  /** Reads `s` outside quotes. `started` says whether a word is open; `''` opens an empty one. */
  function Lex(s: string, word: string, started: bool): Option<seq<string>>
    decreases |s|
  {
    if s == [] then Some(if started then [word] else [])
    else if Blank(s[0]) then
      match Lex(s[1..], "", false)
      case None => None
      case Some(words) => Some((if started then [word] else []) + words)
    else if s[0] == '\\' then
      if |s| > 1 && s[1] != '\n' then Lex(s[2..], word + [s[1]], true) else None
    else if s[0] == '\'' then LexQuoted(s[1..], word)
    else if Special(s[0]) then None
    else Lex(s[1..], word + [s[0]], true)
  }

  /** Reads `s` inside single quotes. */
  function LexQuoted(s: string, word: string): Option<seq<string>>
    decreases |s|
  {
    if s == [] then None
    else if s[0] == '\'' then Lex(s[1..], word, true)
    else LexQuoted(s[1..], word + [s[0]])
  }

  // ----- the printer -----

  predicate Safe(c: char) {
    'a' <= c <= 'z' || 'A' <= c <= 'Z' || '0' <= c <= '9' || c in "._:/@-"
  }

  predicate AllSafe(s: string) {
    forall i | 0 <= i < |s| :: Safe(s[i])
  }

  /** `value.replaceAll("'", "'\\''")` */
  function EscapeQuotes(value: string): string {
    if value == [] then []
    else (if value[0] == '\'' then "'\\''" else [value[0]]) + EscapeQuotes(value[1..])
  }

  function QuoteArgument(value: string): string {
    if value != [] && AllSafe(value) then value else "'" + EscapeQuotes(value) + "'"
  }

  // ----- reading it back -----

  lemma {:induction false} LexEscaped(value: string, tail: string, word: string)
    ensures LexQuoted(EscapeQuotes(value) + "'" + tail, word) == Lex(tail, word + value, true)
    decreases |value|
  {
    if value == [] {
      assert (EscapeQuotes(value) + "'" + tail)[1..] == tail;
      assert word + value == word;
    } else {
      var c, rest := value[0], value[1..];
      var after := EscapeQuotes(rest) + "'" + tail;
      LexEscaped(rest, tail, word + [c]);
      assert word + [c] + rest == word + value;
      if c == '\'' {
        Regroup("'\\''", EscapeQuotes(rest), "'", tail);
        LexEscapedQuote(after, word);
      } else {
        Regroup([c], EscapeQuotes(rest), "'", tail);
        assert ([c] + after)[1..] == after;
      }
    }
  }

  /** Leave the quotes, one escaped quote, enter them again. */
  lemma LexEscapedQuote(after: string, word: string)
    ensures LexQuoted("'\\''" + after, word) == LexQuoted(after, word + ['\''])
  {
    var s := "'\\''" + after;
    var t := s[1..];
    assert t == "\\''" + after && t[0] == '\\' && t[1] == '\'';
    var u := t[2..];
    assert u == "'" + after && u[1..] == after;
    assert LexQuoted(s, word) == Lex(t, word, true) == Lex(u, word + ['\''], true);
  }

  /** A character that is not special stands for itself. */
  predicate Ordinary(text: string) {
    forall i | 0 <= i < |text| :: !Special(text[i])
  }

  lemma {:induction false} LexOrdinary(text: string, tail: string, word: string, started: bool)
    requires Ordinary(text) && (text != [] || started)
    ensures Lex(text + tail, word, started) == Lex(tail, word + text, true)
    decreases |text|
  {
    if text == [] {
      assert text + tail == tail && word + text == word;
    } else {
      assert (text + tail)[1..] == text[1..] + tail;
      assert Special(' ') && Special('\t') && Special('\\') && Special('\'');
      LexOrdinary(text[1..], tail, word + [text[0]], true);
      assert word + [text[0]] + text[1..] == word + text;
    }
  }

  lemma SafeIsOrdinary(c: char)
    requires Safe(c)
    ensures !Special(c)
  {
  }

  /** Whatever the value is, the shell reads its quoted form as that one word. */
  lemma LexArgument(value: string, tail: string)
    ensures Lex(QuoteArgument(value) + tail, "", false) == Lex(tail, value, true)
  {
    if value != [] && AllSafe(value) {
      LexSafe(value, tail);
    } else {
      LexSingleQuoted(value, tail);
    }
  }

  lemma LexSafe(value: string, tail: string)
    requires value != [] && AllSafe(value)
    ensures Lex(value + tail, "", false) == Lex(tail, value, true)
  {
    forall i | 0 <= i < |value| ensures !Special(value[i]) {
      SafeIsOrdinary(value[i]);
    }
    LexOrdinary(value, tail, "", false);
    assert "" + value == value;
  }

  lemma Regroup(a: string, b: string, c: string, tail: string)
    ensures (a + b + c) + tail == a + (b + c + tail)
  {
  }

  lemma LexSingleQuoted(value: string, tail: string)
    ensures Lex(("'" + EscapeQuotes(value) + "'") + tail, "", false) == Lex(tail, value, true)
  {
    var after := EscapeQuotes(value) + "'" + tail;
    LexOpenQuote(after);
    Regroup("'", EscapeQuotes(value), "'", tail);
    LexEscaped(value, tail, "");
    assert "" + value == value;
  }

  lemma LexOpenQuote(after: string)
    ensures Lex("'" + after, "", false) == LexQuoted(after, "")
  {
    assert ("'" + after)[1..] == after;
  }

  // ----- which values stay bare -----

  lemma {:induction false} EscapedIsNoShorter(value: string)
    ensures |EscapeQuotes(value)| >= |value|
  {
    if value != [] {
      EscapedIsNoShorter(value[1..]);
    }
  }

  /** A value is printed as it is exactly when it is not empty and has only ASCII letters, digits and the
      signs `. _ : / @ -`; any other gets quotes around it. */
  lemma BareExactly(value: string)
    ensures QuoteArgument(value) == value <==>
              value != "" && forall c | c in value ::
                'a' <= c <= 'z' || 'A' <= c <= 'Z' || '0' <= c <= '9' || c in "._:/@-"
    ensures QuoteArgument(value) != value ==> |QuoteArgument(value)| >= |value| + 2
  {
    EscapedIsNoShorter(value);
    if AllSafe(value) {
      forall c | c in value ensures Safe(c) {
        var i :| 0 <= i < |value| && value[i] == c;
      }
    } else {
      var i :| 0 <= i < |value| && !Safe(value[i]);
      assert value[i] in value;
    }
  }
}
