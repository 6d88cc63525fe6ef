/** The command composers of clients/markets/markets.js, clients/land/registrar.js
    and clients/foundation/foundation.js, and the words a POSIX shell reads back:
    Shell Command Language, sections 2.2 (Quoting) and 2.3 (Token Recognition). */
module Shell {
  import opened Basics

  // ------------------------------------------------------------------- reading

  /** /^[A-Za-z0-9_@%+=:,.\/-]$/ */
  predicate IsSafe(c: char) {
    'A' <= c <= 'Z' || 'a' <= c <= 'z' || '0' <= c <= '9' || c == '_' || c == '@' || c == '%' || c == '+' || c == '=' ||
    c == ':' || c == ',' || c == '.' || c == '/' || c == '-'
  }

  /** The characters that section 2.2 makes special wherever they stand unquoted, other
      than blanks, the backslash and the single quote: operators, expansions, double
      quotes, patterns, and the newline that ends a command. A bracket is only one where
      it closes: see Glob. */
  predicate IsSpecial(c: char) {
    c == '|' || c == '&' || c == ';' || c == '<' || c == '>' || c == '(' || c == ')' || c == '$' || c == '`' || c == '"' ||
    c == '\n' || c == '*' || c == '?'
  }

  predicate IsBlank(c: char) {
    c == ' ' || c == '\t'
  }

  /** A character that, unquoted, joins the word. */
  predicate Joins(c: char) {
    !IsSpecial(c) && !IsBlank(c) && c != '\'' && c != '\\'
  }

  /** And one that may begin it: a # there starts a comment, and a ~ is replaced. */
  predicate Begins(c: char) {
    Joins(c) && c != '#' && c != '~'
  }

  /** How far an unquoted [ in the word has got to being a pattern (section 2.13): the
      character after it, and after a ! that follows it, is in the brackets even if it
      is a ], and a slash means that there are none. */
  datatype Glob = Shut | Opened | Negated | Inside

  function GlobStep(g: Glob, c: char): Glob {
    if g.Shut? then (if c == '[' then Opened else Shut)
    else if c == '/' then Shut
    else if g.Opened? && c == '!' then Negated
    else Inside
  }

  /** A pattern is complete: what the word then reads as depends on the directory. */
  predicate Closes(g: Glob, c: char) {
    g.Inside? && c == ']'
  }

  /** The same for a quoted character, which is in the brackets if there are any. */
  function GlobQuoted(g: Glob): Glob {
    if g.Shut? then Shut else Inside
  }

  /** Recognising tokens, character by character: the finished words, the word being
      read, and whether it is inside single quotes or just after a backslash. */
  datatype Lexer =
    | Plain(words: seq<string>, cur: Option<string>, glob: Glob)
    | Quoted(words: seq<string>, open: string, glob: Glob)
    | Escaped(words: seq<string>, cur: Option<string>, glob: Glob)
    | Refused

  // Refused: the text has more in it than quoting and blanks, and no words are claimed.

  function Flush(words: seq<string>, cur: Option<string>): seq<string> {
    if cur.Some? then words + [cur.value] else words
  }

  function Text(cur: Option<string>): string {
    if cur.Some? then cur.value else ""
  }

  function Step(l: Lexer, c: char): Lexer {
    match l
    case Refused => Refused
    case Quoted(ws, w, g) => if c == '\'' then Plain(ws, Some(w), g) else Quoted(ws, w + [c], GlobQuoted(g))
    case Escaped(ws, cur, g) => if c == '\n' then Plain(ws, cur, g) else Plain(ws, Some(Text(cur) + [c]), GlobQuoted(g))
    case Plain(ws, cur, g) =>
      if IsBlank(c) then Plain(Flush(ws, cur), None, Shut)
      else if c == '\'' then Quoted(ws, Text(cur), g)
      else if c == '\\' then Escaped(ws, cur, g)
      else if (if cur.None? then Begins(c) else Joins(c)) && !Closes(g, c) then Plain(ws, Some(Text(cur) + [c]), GlobStep(g, c))
      else Refused
  }

  function Lex(l: Lexer, text: string): Lexer
    decreases |text|
  {
    if text == "" then l else Lex(Step(l, text[0]), text[1..])
  }

  const START: Lexer := Plain([], None, Shut)

  /** The words of a whole command, when it is one complete command. */
  function Words(text: string): Option<seq<string>> {
    match Lex(START, text)
    case Plain(ws, cur, _) => Some(Flush(ws, cur))
    case _ => None
  }

  lemma {:induction false} LexConcat(l: Lexer, a: string, b: string)
    ensures Lex(l, a + b) == Lex(Lex(l, a), b)
    decreases |a|
  {
    if a == "" {
      assert a + b == b;
    } else {
      assert (a + b)[1..] == a[1..] + b;
      LexConcat(Step(l, a[0]), a[1..], b);
    }
  }

  /** Words already read do not affect those still to come. */
  function Behind(ws: seq<string>, l: Lexer): Lexer {
    match l
    case Plain(more, cur, g) => Plain(ws + more, cur, g)
    case Quoted(more, w, g) => Quoted(ws + more, w, g)
    case Escaped(more, cur, g) => Escaped(ws + more, cur, g)
    case Refused => Refused
  }

  lemma StepBehind(ws: seq<string>, l: Lexer, c: char)
    ensures Step(Behind(ws, l), c) == Behind(ws, Step(l, c))
  {
    if l.Plain? { assert Flush(ws + l.words, l.cur) == ws + Flush(l.words, l.cur); }
  }

  lemma {:induction false} LexBehind(ws: seq<string>, l: Lexer, text: string)
    ensures Lex(Behind(ws, l), text) == Behind(ws, Lex(l, text))
    decreases |text|
  {
    if text != "" {
      StepBehind(ws, l, text[0]);
      LexBehind(ws, Step(l, text[0]), text[1..]);
    }
  }

  // ------------------------------------------------------------------- quoting

  predicate AllSafe(s: string) {
    forall i :: 0 <= i < |s| ==> IsSafe(s[i])
  }

  /** `s.replace(/'/g, "'\\''")`. */
  function EscapeQuotes(s: string): string {
    if s == "" then "" else (if s[0] == '\'' then "'\\''" else [s[0]]) + EscapeQuotes(s[1..])
  }

  /** `sh`. */
  function Sh(s: string): string {
    if s != "" && AllSafe(s) then s else "'" + EscapeQuotes(s) + "'"
  }

  /** A bracket in s is closed, g being how far one has got before it. */
  predicate Patterned(g: Glob, s: string)
    decreases |s|
  {
    s != "" && (Closes(g, s[0]) || Patterned(GlobStep(g, s[0]), s[1..]))
  }

  function GlobAfter(g: Glob, s: string): Glob
    decreases |s|
  {
    if s == "" then g else GlobAfter(GlobStep(g, s[0]), s[1..])
  }

  /** A bracket expression from i to j: at least one character, apart from a ! at its
      beginning, stands between the brackets, and no slash. */
  ghost predicate Bracket(s: string, i: int, j: int) {
    0 <= i < j < |s| && s[i] == '[' && s[j] == ']' && j > (if s[i + 1] == '!' then i + 2 else i + 1) && '/' !in s[i..j]
  }

  /** One that began before s is closed at j. */
  ghost predicate Ends(g: Glob, s: string, j: int) {
    0 <= j < |s| && s[j] == ']' && '/' !in s[..j] &&
    match g
    case Shut => false
    case Opened => j > if s[0] == '!' then 1 else 0
    case Negated => j > 0
    case Inside => true
  }

  lemma {:induction false} PatternedFrom(g: Glob, s: string)
    ensures Patterned(g, s) <==> (exists i, j :: Bracket(s, i, j)) || exists j :: Ends(g, s, j)
    decreases |s|
  {
    if s != "" {
      var h, r := GlobStep(g, s[0]), s[1..];
      PatternedFrom(h, r);
      forall i, j | Bracket(r, i, j) ensures Bracket(s, i + 1, j + 1) { BracketShift(s, i + 1, j + 1); }
      forall i, j | Bracket(s, i, j) && i > 0 ensures Bracket(r, i - 1, j - 1) { BracketShift(s, i, j); }
      forall j | Bracket(s, 0, j) ensures Ends(h, r, j - 1) || Ends(g, s, j) { BracketOpens(g, s, j); }
      forall j | Ends(h, r, j) ensures Bracket(s, 0, j + 1) || Ends(g, s, j + 1) { EndsShift(g, s, j + 1); }
      forall j | Ends(g, s, j) && j > 0 ensures Ends(h, r, j - 1) { EndsShift(g, s, j); }
      if Closes(g, s[0]) { assert Ends(g, s, 0); }
    }
  }

  lemma BracketShift(s: string, i: int, j: int)
    requires s != "" && i > 0
    ensures Bracket(s, i, j) <==> Bracket(s[1..], i - 1, j - 1)
  {
    if 0 < i < j < |s| { SliceShift(s, i, j); }
  }

  lemma SliceShift(s: string, i: nat, j: nat)
    requires 0 < i <= j <= |s|
    ensures s[i..j] == s[1..][i - 1..j - 1]
  {
    forall k | 0 <= k < j - i ensures s[i..j][k] == s[1..][i - 1..j - 1][k] {
      assert s[i..j][k] == s[i + k] == s[1..][i + k - 1];
    }
  }

  lemma BracketOpens(g: Glob, s: string, j: int)
    requires Bracket(s, 0, j)
    ensures Ends(GlobStep(g, s[0]), s[1..], j - 1) || Ends(g, s, j)
  {
    SliceShift(s, 1, j);
    assert s[0..j] == [s[0]] + s[1..j];
  }

  lemma EndsShift(g: Glob, s: string, j: int)
    requires s != "" && j > 0
    ensures Ends(g, s, j) ==> Ends(GlobStep(g, s[0]), s[1..], j - 1)
    ensures Ends(GlobStep(g, s[0]), s[1..], j - 1) ==> Bracket(s, 0, j) || Ends(g, s, j)
  {
    if j < |s| {
      SliceShift(s, 1, j);
      assert s[0..j] == [s[0]] + s[1..j];
    }
  }

  /** A word has a pattern in brackets exactly when it has a bracket expression. */
  lemma PatternedExactly(s: string)
    ensures Patterned(Shut, s) <==> exists i, j :: Bracket(s, i, j)
  {
    PatternedFrom(Shut, s);
  }

  /** One unquoted word: every character joins it, the first may begin it, and it is no
      pattern. */
  predicate IsBareWord(s: string) {
    s != "" && Begins(s[0]) && (forall i :: 0 <= i < |s| ==> Joins(s[i])) && !Patterned(Shut, s)
  }

  lemma {:induction false} LexBare(ws: seq<string>, cur: Option<string>, g: Glob, s: string)
    requires (forall i :: 0 <= i < |s| ==> Joins(s[i])) && !Patterned(g, s)
    requires cur.None? ==> s != "" && Begins(s[0])
    ensures Lex(Plain(ws, cur, g), s) == Plain(ws, Some(Text(cur) + s), GlobAfter(g, s))
    decreases |s|
  {
    if s == "" {
      assert Text(cur) + s == Text(cur);
    } else {
      LexBare(ws, Some(Text(cur) + [s[0]]), GlobStep(g, s[0]), s[1..]);
      assert Text(cur) + [s[0]] + s[1..] == Text(cur) + s;
    }
  }

  lemma {:induction false} NoBracket(s: string)
    requires '[' !in s
    ensures !Patterned(Shut, s) && GlobAfter(Shut, s) == Shut
  {
    if s != "" { NoBracket(s[1..]); }
  }

  /** What sh leaves unquoted is a bare word. */
  lemma SafeIsBare(s: string)
    requires s != "" && AllSafe(s)
    ensures IsBareWord(s) && GlobAfter(Shut, s) == Shut
  {
    forall i | 0 <= i < |s| ensures Begins(s[i]) && s[i] != '[' { assert IsSafe(s[i]); }
    NoBracket(s);
  }

  lemma LexClosedQuote(ws: seq<string>, w: string)
    ensures Lex(Quoted(ws, w, Shut), "'\\''") == Quoted(ws, w + "'", Shut)
  {
    var l1 := Step(Quoted(ws, w, Shut), '\'');
    var l2 := Step(l1, '\\');
    var l3 := Step(l2, '\'');
    assert "'\\''"[1..] == "\\''" && "\\''"[1..] == "''" && "''"[1..] == "'" && "'"[1..] == "";
    assert Lex(l3, "'") == Step(l3, '\'');
    assert Lex(l2, "''") == Lex(l3, "'");
    assert Lex(l1, "\\''") == Lex(l2, "''");
  }

  lemma {:induction false} LexEscaped(ws: seq<string>, w: string, s: string)
    ensures Lex(Quoted(ws, w, Shut), EscapeQuotes(s)) == Quoted(ws, w + s, Shut)
    decreases |s|
  {
    if s == "" {
      assert w + s == w;
    } else {
      var head := if s[0] == '\'' then "'\\''" else [s[0]];
      LexConcat(Quoted(ws, w, Shut), head, EscapeQuotes(s[1..]));
      if s[0] == '\'' { LexClosedQuote(ws, w); } else { assert head[1..] == ""; }
      LexEscaped(ws, w + [s[0]], s[1..]);
      assert w + [s[0]] + s[1..] == w + s;
    }
  }

  /** sh(s) is exactly one word, and it is s: for every string, quotes, newlines and
      the empty string included. */
  lemma QuotedIsOneWord(ws: seq<string>, s: string)
    ensures Lex(Plain(ws, None, Shut), Sh(s)) == Plain(ws, Some(s), Shut)
  {
    if s != "" && AllSafe(s) {
      SafeIsBare(s);
      LexBare(ws, None, Shut, s);
      assert "" + s == s;
    } else {
      LexConcat(Plain(ws, None, Shut), "'" + EscapeQuotes(s), "'");
      LexConcat(Plain(ws, None, Shut), "'", EscapeQuotes(s));
      assert "'"[1..] == "";
      LexEscaped(ws, "", s);
      assert "" + s == s;
    }
  }

  const UPPER: string := "ABCDEFGHIJKLMNOPQRSTUVWXYZ"
  const LOWER: string := "abcdefghijklmnopqrstuvwxyz"
  const NUMERALS: string := "0123456789"
  const MARKS: string := "_@%+=:,./-"

  /** A value is left as it is exactly when it has only these characters, and one at least. */
  lemma LeftAsItIs(s: string)
    ensures Sh(s) == s <==> s != "" && forall i :: 0 <= i < |s| ==> s[i] in UPPER || s[i] in LOWER || s[i] in NUMERALS || s[i] in MARKS
  {
    hide IsSafe;
    forall i | 0 <= i < |s| ensures IsSafe(s[i]) <==> s[i] in UPPER || s[i] in LOWER || s[i] in NUMERALS || s[i] in MARKS {
      UpperListed(s[i]);
      LowerListed(s[i]);
      NumeralsListed(s[i]);
      SafeListed(s[i]);
    }
    if s == "" || !AllSafe(s) { EscapingGrows(s); }
  }

  lemma UpperListed(c: char)
    ensures c in UPPER <==> 'A' <= c <= 'Z'
  {
    if 'A' <= c <= 'Z' { assert UPPER[c as int - 65] == c; }
  }

  lemma LowerListed(c: char)
    ensures c in LOWER <==> 'a' <= c <= 'z'
  {
    if 'a' <= c <= 'z' { assert LOWER[c as int - 97] == c; }
  }

  lemma NumeralsListed(c: char)
    ensures c in NUMERALS <==> '0' <= c <= '9'
  {
    if '0' <= c <= '9' { assert NUMERALS[c as int - 48] == c; }
  }

  lemma SafeListed(c: char)
    ensures IsSafe(c) <==> 'A' <= c <= 'Z' || 'a' <= c <= 'z' || '0' <= c <= '9' || c in MARKS
  {
  }

  lemma {:induction false} EscapingGrows(s: string)
    ensures |EscapeQuotes(s)| >= |s|
  {
    if s != "" { EscapingGrows(s[1..]); }
  }

  /** No two values are quoted alike. */
  lemma QuotingIsInjective(s: string, t: string)
    requires Sh(s) == Sh(t)
    ensures s == t
  {
    QuotedIsOneWord([], s);
    QuotedIsOneWord([], t);
  }

  // ------------------------------------------------------------------ wrapping

  const WIDTH: nat := 78

  /** The lines once one more part is placed. */
  function Place(lines: seq<string>, part: string): seq<string>
    requires lines != []
  {
    var last := lines[|lines| - 1];
    if |last| + |part| + 1 <= WIDTH then lines[..|lines| - 1] + [last + " " + part] else lines + ["  " + part]
  }

  function PlaceAll(lines: seq<string>, parts: seq<string>): (r: seq<string>)
    requires lines != []
    ensures r != []
    decreases |parts|
  {
    if parts == [] then lines else PlaceAll(Place(lines, parts[0]), parts[1..])
  }

  /** Every line but the last gets a backslash; lines are joined by newlines. */
  function Render(lines: seq<string>): string
    requires lines != []
  {
    if |lines| == 1 then lines[0] else Render(lines[..|lines| - 1]) + " \\" + "\n" + lines[|lines| - 1]
  }

  /** `wrap(parts)`, and the same loop in `tx` and `landTx`: it edits its array of
      lines in place. */
  method Wrap(first: string, parts: seq<string>) returns (text: string)
    ensures text == Render(PlaceAll([first], parts))
  {
    var lines := [first];
    for k := 0 to |parts|
      invariant lines != [] && PlaceAll(lines, parts[k..]) == PlaceAll([first], parts)
    {
      var last, part := lines[|lines| - 1], parts[k];
      assert parts[k..][1..] == parts[k + 1..];
      if |last| + |part| + 1 <= WIDTH {
        lines := lines[..|lines| - 1] + [last + " " + part];
      } else {
        lines := lines + ["  " + part];
      }
    }
    text := lines[0];
    for i := 1 to |lines|
      invariant text == Render(lines[..i])
    {
      assert lines[..i + 1][..i] == lines[..i];
      text := text + " \\" + "\n" + lines[i];
    }
    assert lines[..|lines|] == lines;
  }

  /** A part that is whole words by itself. */
  ghost predicate Complete(part: string) {
    Words(part).Some?
  }

  /** The words of parts one after another. */
  ghost function AllWords(parts: seq<string>): seq<string>
    requires forall i :: 0 <= i < |parts| ==> Complete(parts[i])
  {
    if parts == [] then [] else
    assert Complete(parts[0]);
    Words(parts[0]).value + AllWords(parts[1..])
  }

  /** text so far reads as these words. */
  ghost predicate ReadsAs(text: string, words: seq<string>) {
    Words(text) == Some(words)
  }

  lemma SpaceThenPart(text: string, words: seq<string>, gap: string, part: string)
    requires ReadsAs(text, words) && Complete(part) && (gap == " " || gap == " \\" + "\n" + "  ")
    ensures ReadsAs(text + gap + part, words + Words(part).value)
  {
    var l := Lex(START, text);
    LexConcat(START, text + gap, part);
    LexConcat(START, text, gap);
    LexGap(l.words, l.cur, l.glob, gap);
    assert Behind(words, START) == Plain(words, None, Shut) by { assert words + [] == words; }
    LexBehind(words, START, part);
    var m := Lex(START, part);
    assert Flush(words + m.words, m.cur) == words + Flush(m.words, m.cur);
  }

  /** A blank ends a word; a continued line adds nothing. */
  lemma LexGap(ws: seq<string>, cur: Option<string>, g: Glob, gap: string)
    requires gap == " " || gap == " \\" + "\n" + "  "
    ensures Lex(Plain(ws, cur, g), gap) == Plain(Flush(ws, cur), None, Shut)
  {
    var l := Plain(Flush(ws, cur), None, Shut);
    assert gap[0] == ' ' && Step(Plain(ws, cur, g), ' ') == l;
    if gap == " " {
      assert gap[1..] == "";
    } else {
      assert gap[1..] == "\\" + "\n" + "  ";
      LexConcat(l, "\\" + "\n", "  ");
      assert ("\\" + "\n")[1..] == "\n" && "\n"[1..] == "";
      assert "  "[1..] == " " && " "[1..] == "";
      assert Lex(Step(l, '\\'), "\n") == l;
    }
  }

  lemma PlaceRenders(lines: seq<string>, part: string)
    requires lines != []
    ensures Render(Place(lines, part)) == Render(lines) + " " + part || Render(Place(lines, part)) == Render(lines) + (" \\" + "\n" + "  ") + part
  {
    var n, last := |lines|, lines[|lines| - 1];
    var placed := Place(lines, part);
    if |last| + |part| + 1 <= WIDTH {
      assert placed[..n - 1] == lines[..n - 1] && placed[n - 1] == last + " " + part;
      if n > 1 {
        assert Render(lines[..n - 1]) + " \\" + "\n" + (last + " " + part) == Render(lines[..n - 1]) + " \\" + "\n" + last + " " + part;
      }
    } else {
      assert placed[..n] == lines;
      assert Render(lines) + " \\" + "\n" + ("  " + part) == Render(lines) + (" \\" + "\n" + "  ") + part;
    }
  }

  lemma {:induction false} PlacedReads(lines: seq<string>, words: seq<string>, parts: seq<string>)
    requires lines != [] && ReadsAs(Render(lines), words) && forall i :: 0 <= i < |parts| ==> Complete(parts[i])
    ensures ReadsAs(Render(PlaceAll(lines, parts)), words + AllWords(parts))
    decreases |parts|
  {
    if parts == [] {
      assert words + AllWords(parts) == words;
    } else {
      hide ReadsAs, Render, Place;
      var part := parts[0];
      PlaceRenders(lines, part);
      if Render(Place(lines, part)) == Render(lines) + " " + part {
        SpaceThenPart(Render(lines), words, " ", part);
      } else {
        SpaceThenPart(Render(lines), words, " \\" + "\n" + "  ", part);
      }
      PlacedReads(Place(lines, part), words + Words(part).value, parts[1..]);
      Assoc(words, Words(part).value, AllWords(parts[1..]));
    }
  }

  /** The words of a wrapped command are exactly those of its parts, wherever the
      lines break. */
  lemma WrappedReparses(first: string, parts: seq<string>)
    requires Complete(first) && forall i :: 0 <= i < |parts| ==> Complete(parts[i])
    ensures ReadsAs(Render(PlaceAll([first], parts)), Words(first).value + AllWords(parts))
  {
    PlacedReads([first], Words(first).value, parts);
  }

  /** Within the width, or a part that no line could hold. */
  ghost predicate Fits(line: string, first: string, parts: seq<string>) {
    |line| <= 78 || line == first || exists i :: 0 <= i < |parts| && line == "  " + parts[i]
  }

  /** No line is wider than 78 unless it is a single part by itself. */
  lemma {:induction false} LinesFit(lines: seq<string>, first: string, placed: seq<string>, parts: seq<string>)
    requires lines != [] && forall i :: 0 <= i < |lines| ==> Fits(lines[i], first, placed + parts)
    ensures forall i :: 0 <= i < |PlaceAll(lines, parts)| ==> Fits(PlaceAll(lines, parts)[i], first, placed + parts)
    decreases |parts|
  {
    if parts != [] {
      var next := Place(lines, parts[0]);
      assert (placed + parts)[|placed|] == parts[0];
      assert placed + [parts[0]] + parts[1..] == placed + parts;
      LinesFit(next, first, placed + [parts[0]], parts[1..]);
    }
  }

  lemma WrappedFits(first: string, parts: seq<string>)
    ensures forall i :: 0 <= i < |PlaceAll([first], parts)| ==> Fits(PlaceAll([first], parts)[i], first, parts)
  {
    assert [] + parts == parts;
    LinesFit([first], first, [], parts);
  }

  /** The line after i begins with a part that i had no room for. */
  ghost predicate BrokenAt(lines: seq<string>, parts: seq<string>, i: nat, k: nat)
    requires i + 1 < |lines|
  {
    k < |parts| && "  " + parts[k] <= lines[i + 1] && |lines[i]| + 1 + |parts[k]| > 78
  }

  ghost predicate Breaks(lines: seq<string>, parts: seq<string>, i: nat)
    requires i + 1 < |lines|
  {
    exists k :: BrokenAt(lines, parts, i, k)
  }

  ghost predicate Full(lines: seq<string>, parts: seq<string>) {
    forall i :: 0 <= i < |lines| - 1 ==> Breaks(lines, parts, i)
  }

  lemma PlaceBreaks(lines: seq<string>, parts: seq<string>, k: nat)
    requires lines != [] && k < |parts| && Full(lines, parts)
    ensures Full(Place(lines, parts[k]), parts)
  {
    var next := Place(lines, parts[k]);
    forall i | 0 <= i < |next| - 1 ensures Breaks(next, parts, i) {
      if i == |lines| - 1 {
        assert BrokenAt(next, parts, i, k);
      } else {
        assert Breaks(lines, parts, i);
        var j :| BrokenAt(lines, parts, i, j);
        assert BrokenAt(next, parts, i, j);
      }
    }
  }

  lemma {:induction false} PlacedBreaks(lines: seq<string>, placed: seq<string>, parts: seq<string>)
    requires lines != [] && Full(lines, placed + parts)
    ensures Full(PlaceAll(lines, parts), placed + parts)
    decreases |parts|
  {
    if parts != [] {
      assert (placed + parts)[|placed|] == parts[0];
      assert placed + [parts[0]] + parts[1..] == placed + parts;
      PlaceBreaks(lines, placed + parts, |placed|);
      PlacedBreaks(Place(lines, parts[0]), placed + [parts[0]], parts[1..]);
    }
  }

  /** A command is broken only where the next part would not have fitted in 78. */
  lemma BrokenWhereFull(first: string, parts: seq<string>)
    ensures Full(PlaceAll([first], parts), parts)
  {
    assert [] + parts == parts;
    PlacedBreaks([first], [], parts);
  }

  // ----------------------------------------------------------------- commands

  lemma QuotedWord(s: string)
    ensures Words(Sh(s)) == Some([s]) && Complete(Sh(s))
  {
    QuotedIsOneWord([], s);
    assert [] + [s] == [s];
  }

  /** `args.map(sh)`. */
  function Quote(args: seq<string>): seq<string> {
    if args == [] then [] else [Sh(args[0])] + Quote(args[1..])
  }

  lemma {:induction false} QuotedArgs(args: seq<string>)
    ensures (forall i :: 0 <= i < |Quote(args)| ==> Complete(Quote(args)[i])) && AllWords(Quote(args)) == args
  {
    if args != [] {
      QuotedWord(args[0]);
      QuotedArgs(args[1..]);
      assert Quote(args)[1..] == Quote(args[1..]);
      assert args == [args[0]] + args[1..];
    }
  }

  lemma {:induction false} AllWordsConcat(a: seq<string>, b: seq<string>)
    requires forall i :: 0 <= i < |a| ==> Complete(a[i])
    requires forall i :: 0 <= i < |b| ==> Complete(b[i])
    ensures AllWords(a + b) == AllWords(a) + AllWords(b)
  {
    if a == [] {
      assert a + b == b;
    } else {
      assert (a + b)[1..] == a[1..] + b;
      AllWordsConcat(a[1..], b);
    }
  }

  /** A command line: whatever the arguments are, the shell reads the command's own
      words, then exactly the arguments, then the words of the flags. */
  lemma CommandReparses(command: string, args: seq<string>, flags: seq<string>)
    requires Complete(command) && forall i :: 0 <= i < |flags| ==> Complete(flags[i])
    ensures ReadsAs(Render(PlaceAll([command], Quote(args) + flags)), Words(command).value + (args + AllWords(flags)))
  {
    QuotedArgs(args);
    AllWordsConcat(Quote(args), flags);
    WrappedReparses(command, Quote(args) + flags);
  }

  // ---------------------------------------------------------------- the sender

  const FROM: string := "--from "

  lemma DashesAreBare()
    ensures IsBareWord("--from") && GlobAfter(Shut, "--from") == Shut
  {
    var s := "--from";
    assert s[0] == '-' && s[1] == '-' && s[2] == 'f' && s[3] == 'r' && s[4] == 'o' && s[5] == 'm';
    SafeIsBare(s);
  }

  lemma LexFlagName()
    ensures Lex(START, "--from") == Plain([], Some("--from"), Shut)
  {
    DashesAreBare();
    hide Joins, Begins, Patterned, GlobAfter;
    LexBare([], None, Shut, "--from");
    assert "" + "--from" == "--from";
  }

  lemma FromLexes()
    ensures Lex(START, FROM) == Plain(["--from"], None, Shut)
  {
    LexConcat(START, "--from", " ");
    assert "--from" + " " == FROM;
    LexFlagName();
    LexGap([], Some("--from"), Shut, " ");
  }

  /** The sender flag as markets and foundation write it. */
  lemma QuotedSender(from: string)
    ensures Words(FROM + Sh(from)) == Some(["--from", from])
  {
    LexConcat(START, FROM, Sh(from));
    FromLexes();
    QuotedIsOneWord(["--from"], from);
    assert ["--from"] + [from] == ["--from", from];
  }

  /** How many characters a lexer has kept, and how many are behind it. */
  function Letters(ws: seq<string>): nat {
    if ws == [] then 0 else Letters(ws[..|ws| - 1]) + |ws[|ws| - 1]|
  }

  function Kept(l: Lexer): nat {
    match l
    case Plain(ws, cur, _) => Letters(ws) + |Text(cur)|
    case Quoted(ws, w, _) => Letters(ws) + |w|
    case Escaped(ws, cur, _) => Letters(ws) + |Text(cur)|
    case Refused => 0
  }

  lemma StepKeeps(l: Lexer, c: char)
    requires !Step(l, c).Refused?
    ensures Kept(Step(l, c)) <= Kept(l) + 1
    ensures l.Plain? && !Joins(c) ==> Kept(Step(l, c)) == Kept(l)
    ensures l.Plain? && l.cur.None? && Joins(c) ==> Begins(c)
    ensures l.Plain? && Joins(c) ==> !Closes(l.glob, c) && Step(l, c).Plain? && Step(l, c).glob == GlobStep(l.glob, c)
  {
    if l.Plain? && l.cur.Some? { assert (l.words + [l.cur.value])[..|l.words|] == l.words; }
  }

  lemma RefusedStays(text: string)
    ensures Lex(Refused, text) == Refused
    decreases |text|
  {
    if text != "" { RefusedStays(text[1..]); }
  }

  /** Reading keeps at most every character, and all of them only if each joins. */
  lemma {:induction false} LexKeeps(l: Lexer, text: string)
    requires !Lex(l, text).Refused?
    ensures Kept(Lex(l, text)) <= Kept(l) + |text|
    ensures l.Plain? && Kept(Lex(l, text)) == Kept(l) + |text| ==> forall i :: 0 <= i < |text| ==> Joins(text[i])
    ensures l.Plain? && Kept(Lex(l, text)) == Kept(l) + |text| ==> !Patterned(l.glob, text)
    ensures l.Plain? && l.cur.None? && text != "" && Joins(text[0]) ==> Begins(text[0])
    decreases |text|
  {
    if text != "" {
      if Step(l, text[0]).Refused? { RefusedStays(text[1..]); }
      StepKeeps(l, text[0]);
      LexKeeps(Step(l, text[0]), text[1..]);
    }
  }

  /** registrar.js does not quote its sender. The flag still reads as the one sender,
      whatever files the directory has, exactly when the sender is a bare word by
      itself. A pattern stays as it is only where no file matches it. */
  lemma UnquotedSenderExactly(from: string)
    ensures Words(FROM + from) == Some(["--from", from]) <==>
      from != "" && from[0] !in "#~" && (forall i :: 0 <= i < |from| ==> from[i] !in SPECIALS) && !exists i, j :: Bracket(from, i, j)
  {
    BareExactly(from);
    if IsBareWord(from) { BareSender(from); }
    if Words(FROM + from) == Some(["--from", from]) { OneWordSender(from); }
  }

  /** Section 2.2's characters and blanks, but for those special only at the beginning of a
      word or in brackets. */
  const SPECIALS: string := "|&;<>()$`\"\n*? \t'\\"

  lemma BareExactly(from: string)
    ensures IsBareWord(from) <==>
      from != "" && from[0] !in "#~" && (forall i :: 0 <= i < |from| ==> from[i] !in SPECIALS) && !exists i, j :: Bracket(from, i, j)
  {
    PatternedExactly(from);
    hide Patterned, Joins;
    forall i | 0 <= i < |from| ensures Joins(from[i]) <==> from[i] !in SPECIALS { SpecialsListed(from[i]); }
  }

  lemma SpecialsListed(c: char)
    ensures Joins(c) <==> c !in SPECIALS
  {
  }

  lemma BareSender(from: string)
    requires IsBareWord(from)
    ensures Words(FROM + from) == Some(["--from", from])
  {
    LexConcat(START, FROM, from);
    FromLexes();
    LexBare(["--from"], None, Shut, from);
    assert "" + from == from;
    assert ["--from"] + [from] == ["--from", from];
  }

  lemma OneWordSender(from: string)
    requires Words(FROM + from) == Some(["--from", from])
    ensures IsBareWord(from)
  {
    LexConcat(START, FROM, from);
    FromLexes();
    var l := Plain(["--from"], None, Shut);
    var m := Lex(l, from);
    assert from == "" ==> m == l;
    hide Lex, Joins, Begins, Patterned;
    LexKeeps(l, from);
    FlushKeeps(m.words, m.cur);
    assert ["--from", from][..1] == ["--from"] && ["--from"][..0] == [];
    assert Letters(["--from"]) == 6 && Letters(["--from", from]) == 6 + |from|;
  }

  lemma FlushKeeps(ws: seq<string>, cur: Option<string>)
    ensures Letters(Flush(ws, cur)) == Letters(ws) + |Text(cur)|
  {
    if cur.Some? { assert (ws + [cur.value])[..|ws|] == ws; }
  }
}
