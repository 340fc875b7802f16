// What the lexer reads is all of the text: blanks and comments, and the tokens' own spellings.
module SqlLexemes {
  import opened Wrappers
  import opened Decimal
  import opened SqlLexer

  // ---- Blanks ----

  /** A space, a comment to the end of its line, or a bracketed comment up to its first closing mark; one
      that never closes leaves at most one character. */
  ghost predicate IsChunk(c: string, rest: string) {
    (|c| == 1 && IsSpace(c[0])) ||
    ("--" <= c && '\n' !in c && (rest == "" || rest[0] == '\n')) ||
    ("/*" <= c && (forall j :: 2 <= j < |c| - 2 ==> !(c[j] == '*' && c[j + 1] == '/')) &&
      ((|c| >= 4 && c[|c| - 2] == '*' && c[|c| - 1] == '/') || |rest| <= 1))
  }

  function Flat(parts: seq<string>): string { if parts == [] then "" else parts[0] + Flat(parts[1..]) }

  ghost predicate IsGap(chunks: seq<string>, rest: string) {
    chunks == [] || (IsChunk(chunks[0], Flat(chunks[1..]) + rest) && IsGap(chunks[1..], rest))
  }

  /** A token begins here, or the text is over. */
  predicate Stands(rest: string) {
    rest == "" || !(IsSpace(rest[0]) || "--" <= rest || "/*" <= rest)
  }

  lemma {:induction false} LineEndStops(text: string, at: Place)
    requires at.pos <= |text|
    ensures var end := LineEnd(text, at);
            '\n' !in text[at.pos..end.pos] && (end.pos == |text| || text[end.pos] == '\n')
    decreases |text| - at.pos
  {
    if at.pos < |text| && text[at.pos] != '\n' {
      var next := Place(at.pos + 1, at.line, at.column);
      LineEndStops(text, next);
      var end := LineEnd(text, next);
      assert text[at.pos..end.pos] == [text[at.pos]] + text[next.pos..end.pos];
    }
  }

  lemma {:induction false} CommentEndStops(text: string, at: Place)
    requires at.pos <= |text|
    ensures var end := CommentEnd(text, at);
            (forall j :: at.pos <= j < end.pos - 2 ==> !(text[j] == '*' && text[j + 1] == '/')) &&
            ((end.pos >= at.pos + 2 && text[end.pos - 2] == '*' && text[end.pos - 1] == '/') || |text| - end.pos <= 1)
    decreases |text| - at.pos
  {
    if at.pos + 1 < |text| && !(text[at.pos] == '*' && text[at.pos + 1] == '/') {
      CommentEndStops(text, StepOver(text, at));
    }
  }

  lemma OneChunk(text: string, from: nat, mid: nat, end: nat, chunks: seq<string>)
    requires from <= mid <= end <= |text| && text[mid..end] == Flat(chunks) && IsGap(chunks, text[end..])
    requires IsChunk(text[from..mid], text[mid..])
    ensures var all := [text[from..mid]] + chunks;
            text[from..end] == Flat(all) && IsGap(all, text[end..])
  {
    hide IsChunk;
    var all := [text[from..mid]] + chunks;
    assert all[1..] == chunks;
    assert text[from..end] == text[from..mid] + text[mid..end];
    assert text[mid..end] + text[end..] == text[mid..];
  }

  lemma Slice(text: string, from: nat, to: nat)
    requires from <= to <= |text|
    ensures |text[from..to]| == to - from && forall j :: 0 <= j < to - from ==> text[from..to][j] == text[from + j]
  {
  }

  /** What is skipped is blanks and comments, and then a token stands or the text is over. */
  lemma {:induction false} SkippedIsGap(text: string, from: Place) returns (chunks: seq<string>)
    requires from.pos <= |text|
    ensures var at := SkipBlank(text, from);
            text[from.pos..at.pos] == Flat(chunks) && IsGap(chunks, text[at.pos..]) && Stands(text[at.pos..])
    decreases |text| - from.pos
  {
    hide IsChunk;
    var pos := from.pos;
    chunks := [];
    if pos < |text| {
      if IsSpace(text[pos]) {
        var rest := SkippedIsGap(text, StepOver(text, from));
        SpaceIsChunk(text, pos);
        OneChunk(text, pos, pos + 1, SkipBlank(text, from).pos, rest);
        chunks := [text[pos..pos + 1]] + rest;
      } else if text[pos] == '-' && Looking(text, pos + 1, '-') {
        LineEndMoves(text, from);
        var end := LineEnd(text, from);
        var rest := SkippedIsGap(text, end);
        LineIsChunk(text, from);
        OneChunk(text, pos, end.pos, SkipBlank(text, from).pos, rest);
        chunks := [text[pos..end.pos]] + rest;
      } else if text[pos] == '/' && Looking(text, pos + 1, '*') {
        var end := CommentEnd(text, Forward(from, 2));
        var rest := SkippedIsGap(text, end);
        CommentIsChunk(text, from);
        OneChunk(text, pos, end.pos, SkipBlank(text, from).pos, rest);
        chunks := [text[pos..end.pos]] + rest;
      } else {
        assert text[pos..] != "" && text[pos..][0] == text[pos];
        assert pos + 1 < |text| ==> text[pos..][1] == text[pos + 1];
      }
    }
  }

  lemma SpaceIsChunk(text: string, pos: nat)
    requires pos < |text| && IsSpace(text[pos])
    ensures IsChunk(text[pos..pos + 1], text[pos + 1..])
  {
  }

  lemma LineIsChunk(text: string, from: Place)
    requires Looking(text, from.pos, '-') && Looking(text, from.pos + 1, '-')
    ensures IsChunk(text[from.pos..LineEnd(text, from).pos], text[LineEnd(text, from).pos..])
  {
    var end := LineEnd(text, from);
    LineEndStops(text, from);
    assert end == LineEnd(text, Place(from.pos + 2, from.line, from.column));
    Slice(text, from.pos, end.pos);
  }

  lemma CommentIsChunk(text: string, from: Place)
    requires Looking(text, from.pos, '/') && Looking(text, from.pos + 1, '*')
    ensures var end := CommentEnd(text, Forward(from, 2));
            IsChunk(text[from.pos..end.pos], text[end.pos..])
  {
    var end := CommentEnd(text, Forward(from, 2));
    CommentEndStops(text, Forward(from, 2));
    Slice(text, from.pos, end.pos);
    var c := text[from.pos..end.pos];
    forall j | 2 <= j < |c| - 2 ensures !(c[j] == '*' && c[j + 1] == '/') {
      assert c[j] == text[from.pos + j] && c[j + 1] == text[from.pos + (j + 1)];
    }
  }

  // ---- Lexemes ----

  /** The text between quotes that stands for a value: its quotes doubled. */
  function Doubled(value: string, quote: char): string {
    if value == "" then "" else (if value[0] == quote then [quote, quote] else [value[0]]) + Doubled(value[1..], quote)
  }

  predicate NoMore(rest: string, c: char) { rest == "" || rest[0] != c }

  /** Quotes around a value with its quotes doubled, and no further quote. */
  predicate IsQuoted(w: string, value: string, quote: char, rest: string) {
    w == [quote] + Doubled(value, quote) + [quote] && NoMore(rest, quote)
  }

  /** A letter or underscore and then word characters, as many as there are. */
  predicate IsWholeWord(w: string, rest: string) {
    w != "" && (IsLetter(w[0]) || w[0] == '_') && (forall j :: 0 <= j < |w| ==> IsWordChar(w[j])) &&
    (rest == "" || !IsWordChar(rest[0]))
  }

  predicate IsExponent(c: char) { c == 'e' || c == 'E' }

  /** Digits, a point between digits before any exponent, exponents and their signs. */
  predicate IsNumberChar(w: string, j: nat)
    requires j < |w|
  {
    IsDigit(w[j]) || IsExponent(w[j]) ||
    (w[j] == '.' && AllDigits(w[..j])) ||
    ((w[j] == '+' || w[j] == '-') && j > 0 && IsExponent(w[j - 1]))
  }

  /** A number goes on as long as it can. */
  predicate NumberStops(w: string, rest: string) {
    rest == "" ||
    (!IsDigit(rest[0]) && !IsExponent(rest[0]) &&
     (rest[0] == '.' && AllDigits(w) ==> |rest| == 1 || !IsDigit(rest[1])))
  }

  predicate IsWholeNumber(w: string, rest: string, isFloat: bool) {
    w != "" && IsDigit(w[0]) && (forall j :: 0 <= j < |w| ==> IsNumberChar(w, j)) && NumberStops(w, rest) &&
    (isFloat <==> !AllDigits(w))
  }

  const DOUBLE_SIGNS: set<string> := {"!=", "<=", "<>", ">=", "||"}

  /** Two characters where two make an operator, else one. */
  predicate IsWholeSign(w: string, rest: string) {
    w in DOUBLE_SIGNS || (|w| == 1 && (rest == "" || w + [rest[0]] !in DOUBLE_SIGNS))
  }

  /** How a token is spelled, given what follows it. */
  predicate IsLexeme(t: Token, w: string, rest: string) {
    match t.kind
    case EOF => w == "" && rest == ""
    case ERROR => w != ""
    case STRING => IsQuoted(w, t.value, '\'', rest)
    case QUOTED_IDENTIFIER => IsQuoted(w, t.value, '"', rest)
    case INTEGER => w == t.value && IsWholeNumber(w, rest, false)
    case FLOAT => w == t.value && IsWholeNumber(w, rest, true)
    case _ =>
      w == t.value && if IsWholeWord(w, rest) then t.kind == WordKind(Upper(w)) else IsWholeSign(w, rest)
  }

  // ---- Each kind of token ----

  lemma {:induction false} DoubledConcat(a: string, b: string, quote: char)
    ensures Doubled(a + b, quote) == Doubled(a, quote) + Doubled(b, quote)
  {
    if a == "" {
      assert a + b == b;
    } else {
      assert (a + b)[1..] == a[1..] + b;
      DoubledConcat(a[1..], b, quote);
    }
  }

  lemma DoubledOne(c: char, quote: char)
    ensures Doubled([c], quote) == if c == quote then [quote, quote] else [c]
  {
    assert [c][1..] == "";
  }

  /** One character of a value, and the text it is read from. */
  lemma QuotedStep(text: string, at: Place, quote: char, value: string, next: nat, end: nat, found: string)
    requires at.pos < next <= end <= |text|
    requires next == at.pos + (if text[at.pos] == quote then 2 else 1) && (text[at.pos] == quote ==> text[at.pos + 1] == quote)
    requires Doubled(found, quote) + [quote] == Doubled(value + [text[at.pos]], quote) + text[next..end]
    ensures Doubled(found, quote) + [quote] == Doubled(value, quote) + text[at.pos..end]
  {
    hide Doubled;
    var c := text[at.pos];
    DoubledConcat(value, [c], quote);
    DoubledOne(c, quote);
    assert text[at.pos..next] == if c == quote then [quote, quote] else [c];
    assert text[at.pos..end] == text[at.pos..next] + text[next..end];
  }

  lemma {:induction false} QuotedCovers(text: string, at: Place, quote: char, value: string)
    requires at.pos <= |text|
    ensures var (found, end) := QuotedAt(text, at, quote, value);
            found.Some? ==>
              Doubled(found.value, quote) + [quote] == Doubled(value, quote) + text[at.pos..end.pos] && NoMore(text[end.pos..], quote)
    decreases |text| - at.pos
  {
    hide Doubled;
    if at.pos < |text| {
      var c := text[at.pos];
      var (found, end) := QuotedAt(text, at, quote, value);
      if c == quote && !Looking(text, at.pos + 1, quote) {
        assert text[at.pos..end.pos] == [quote];
      } else {
        var next := if c == quote then Forward(at, 2) else if quote == '\'' then StepOver(text, at) else Forward(at, 1);
        QuotedCovers(text, next, quote, value + [c]);
        if found.Some? { QuotedStep(text, at, quote, value, next.pos, end.pos, found.value); }
      }
    }
  }

  lemma {:induction false} WordCovers(text: string, at: Place, value: string)
    requires at.pos <= |text|
    ensures var (word, end) := WordAt(text, at, value);
            word == value + text[at.pos..end.pos] &&
            (forall j :: at.pos <= j < end.pos ==> IsWordChar(text[j])) &&
            (end.pos == |text| || !IsWordChar(text[end.pos]))
    decreases |text| - at.pos
  {
    if at.pos < |text| && IsWordChar(text[at.pos]) {
      WordCovers(text, Forward(at, 1), value + [text[at.pos]]);
      var end := WordAt(text, at, value).1;
      assert text[at.pos..end.pos] == [text[at.pos]] + text[at.pos + 1..end.pos];
    } else {
      assert value + "" == value;
    }
  }

  /** The number read so far, and whether it is a float already. */
  ghost predicate IsNumberSoFar(value: string, hasDot: bool) {
    (forall j :: 0 <= j < |value| ==> IsNumberChar(value, j)) && (hasDot <==> !AllDigits(value))
  }

  lemma AllDigitsMore(value: string, c: char)
    ensures AllDigits(value + [c]) <==> AllDigits(value) && IsDigit(c)
  {
    var more := value + [c];
    assert forall j :: 0 <= j < |value| ==> more[j] == value[j];
    assert more[|value|] == c;
  }

  lemma NumberOneMore(value: string, hasDot: bool, c: char)
    requires IsNumberSoFar(value, hasDot)
    requires IsDigit(c) || IsExponent(c) || (c == '.' && !hasDot) ||
             ((c == '+' || c == '-') && value != "" && IsExponent(value[|value| - 1]))
    ensures IsNumberSoFar(value + [c], hasDot || !IsDigit(c))
  {
    var more := value + [c];
    AllDigitsMore(value, c);
    forall j | 0 <= j < |more| ensures IsNumberChar(more, j) {
      if j < |value| {
        assert IsNumberChar(value, j) && more[..j] == value[..j] && more[j] == value[j];
      } else {
        assert more[..j] == value;
      }
    }
  }

  lemma Reread(value: string, text: string, from: nat, mid: nat, end: nat)
    requires from <= mid <= end <= |text|
    ensures value + text[from..mid] + text[mid..end] == value + text[from..end]
  {
    assert text[from..mid] + text[mid..end] == text[from..end];
  }

  lemma {:induction false} NumberCovers(text: string, at: Place, value: string, hasDot: bool)
    requires at.pos <= |text| && IsNumberSoFar(value, hasDot) && value != ""
    ensures var (number, isFloat, end) := NumberAt(text, at, value, hasDot);
            number == value + text[at.pos..end.pos] && IsNumberSoFar(number, isFloat) && NumberStops(number, text[end.pos..])
    decreases |text| - at.pos
  {
    hide IsNumberSoFar, AllDigits;
    var (number, isFloat, end) := NumberAt(text, at, value, hasDot);
    if at.pos < |text| {
      var c := text[at.pos];
      if IsExponent(c) && at.pos + 1 < |text| && (text[at.pos + 1] == '+' || text[at.pos + 1] == '-') {
        var sign := text[at.pos + 1];
        NumberOneMore(value, hasDot, c);
        NumberOneMore(value + [c], true, sign);
        assert value + [c] + [sign] == value + [c, sign] && text[at.pos..at.pos + 2] == [c, sign];
        NumberCovers(text, Forward(at, 2), value + [c, sign], true);
        Reread(value, text, at.pos, at.pos + 2, end.pos);
      } else if IsDigit(c) || IsExponent(c) || (c == '.' && !hasDot && at.pos + 1 < |text| && IsDigit(text[at.pos + 1])) {
        NumberOneMore(value, hasDot, c);
        assert text[at.pos..at.pos + 1] == [c];
        NumberCovers(text, Forward(at, 1), value + [c], hasDot || !IsDigit(c));
        Reread(value, text, at.pos, at.pos + 1, end.pos);
      } else {
        assert value + "" == value;
        NothingFollows(text, at, value, hasDot);
      }
    } else {
      assert value + "" == value;
    }
  }

  lemma NothingFollows(text: string, at: Place, value: string, hasDot: bool)
    requires at.pos < |text| && IsNumberSoFar(value, hasDot) && !IsDigit(text[at.pos]) && !IsExponent(text[at.pos])
    requires text[at.pos] == '.' && !hasDot && at.pos + 1 < |text| ==> !IsDigit(text[at.pos + 1])
    ensures NumberStops(value, text[at.pos..])
  {
    assert text[at.pos..][0] == text[at.pos];
    assert at.pos + 1 < |text| ==> text[at.pos..][1] == text[at.pos + 1];
  }

  lemma FloatMeans(value: string, hasDot: bool)
    requires IsNumberSoFar(value, hasDot)
    ensures hasDot <==> !AllDigits(value)
  {
  }

  // ---- Tokens ----

  lemma QuotedLexeme(text: string, at: Place, quote: char)
    requires Looking(text, at.pos, quote)
    ensures var (found, end) := QuotedAt(text, Forward(at, 1), quote, "");
            found.Some? ==> IsQuoted(text[at.pos..end.pos], found.value, quote, text[end.pos..])
  {
    QuotedCovers(text, Forward(at, 1), quote, "");
    var (found, end) := QuotedAt(text, Forward(at, 1), quote, "");
    assert text[at.pos..end.pos] == [quote] + text[at.pos + 1..end.pos];
    if found.Some? {
      assert "" + text[at.pos + 1..end.pos] == text[at.pos + 1..end.pos];
      assert [quote] + (Doubled(found.value, quote) + [quote]) == [quote] + Doubled(found.value, quote) + [quote];
    }
  }

  lemma WordLexeme(text: string, at: Place)
    requires at.pos < |text| && (IsLetter(text[at.pos]) || text[at.pos] == '_')
    ensures var (word, end) := WordAt(text, at, "");
            word == text[at.pos..end.pos] && IsWholeWord(word, text[end.pos..])
  {
    WordCovers(text, at, "");
    var (word, end) := WordAt(text, at, "");
    Slice(text, at.pos, end.pos);
    assert word == text[at.pos..end.pos];
  }

  lemma NumberLexeme(text: string, at: Place)
    requires at.pos < |text| && IsDigit(text[at.pos])
    ensures var (number, isFloat, end) := NumberAt(text, at, "", false);
            number == text[at.pos..end.pos] && IsWholeNumber(number, text[end.pos..], isFloat)
  {
    var c := text[at.pos];
    assert "" + [c] == [c];
    NumberCovers(text, Forward(at, 1), [c], false);
    var end := NumberAt(text, at, "", false).2;
    assert text[at.pos..end.pos] == [c] + text[at.pos + 1..end.pos];
  }

  lemma SignLexeme(text: string, pos: nat)
    requires pos < |text| && !IsLetter(text[pos]) && text[pos] != '_'
    ensures var (kind, value, length) := OperatorAt(text, pos);
            kind != ERROR ==>
              value == text[pos..pos + length] && IsWholeSign(value, text[pos + length..]) && !IsWholeWord(value, text[pos + length..])
  {
    var (kind, value, length) := OperatorAt(text, pos);
    Slice(text, pos, pos + length);
    if kind != ERROR && length == 1 && pos + 1 < |text| {
      assert text[pos + 1..][0] == text[pos + 1];
      assert value + [text[pos + 1]] == [text[pos], text[pos + 1]];
    }
  }

  lemma WordKinds(upper: string)
    ensures WordKind(upper) !in {EOF, ERROR, STRING, QUOTED_IDENTIFIER, INTEGER, FLOAT}
  {
  }

  lemma OperatorKinds(text: string, pos: nat)
    requires pos < |text|
    ensures OperatorAt(text, pos).0 !in {EOF, STRING, QUOTED_IDENTIFIER, INTEGER, FLOAT}
  {
  }

  /** Each token is spelled by the text it stands for, and takes as much of it as it can. */
  lemma {:induction false} TokenIsLexeme(text: string, from: Place)
    requires from.pos <= |text|
    ensures var (token, end) := TokenAt(text, from);
            var at := SkipBlank(text, from);
            at.pos <= end.pos && IsLexeme(token, text[at.pos..end.pos], text[end.pos..]) &&
            (token.line, token.column) == (at.line, at.column)
  {
    hide SkipBlank, QuotedAt, WordAt, NumberAt, OperatorAt, IsQuoted, IsWholeWord, IsWholeNumber, IsWholeSign, IsDigit, IsLetter, WordKind, Upper;
    var at := SkipBlank(text, from);
    if at.pos < |text| {
      var c := text[at.pos];
      if c == '\'' || c == '"' {
        QuotedLexeme(text, at, c);
      } else if IsDigit(c) {
        NumberLexeme(text, at);
      } else if IsLetter(c) || c == '_' {
        WordLexeme(text, at);
        WordKinds(Upper(WordAt(text, at, "").0));
      } else {
        SignLexeme(text, at.pos);
        OperatorKinds(text, at.pos);
      }
    }
  }

  // ---- The whole text ----

  function Woven(gaps: seq<string>, words: seq<string>): string
    requires |gaps| == |words|
  {
    if gaps == [] then "" else gaps[0] + words[0] + Woven(gaps[1..], words[1..])
  }

  ghost predicate IsSomeGap(gap: string, rest: string) { exists chunks :: gap == Flat(chunks) && IsGap(chunks, rest) }

  /** The tokens, with blanks and comments between them, spell the text. */
  ghost predicate Spells(tokens: seq<Token>, gaps: seq<string>, words: seq<string>) {
    |tokens| == |gaps| == |words| &&
    (tokens != [] ==>
      var rest := Woven(gaps[1..], words[1..]);
      IsSomeGap(gaps[0], words[0] + rest) && Stands(words[0] + rest) && IsLexeme(tokens[0], words[0], rest) &&
      Spells(tokens[1..], gaps[1..], words[1..]))
  }

  /** Nothing of the text is lost: it is the tokens' spellings in turn, with blanks and comments before
      each, and one more end token comes after them. */
  lemma {:induction false} TokensSpellText(text: string, at: Place) returns (gaps: seq<string>, words: seq<string>)
    requires at.pos <= |text|
    ensures |gaps| == |words| && text[at.pos..] == Woven(gaps, words)
    ensures var tokens := TokensFrom(text, at);
            tokens[|tokens| - 1].kind == EOF && Spells(tokens[..|tokens| - 1], gaps, words)
    decreases |text| - at.pos
  {
    gaps, words := [], [];
    if at.pos < |text| {
      hide TokenAt, SkipBlank, IsLexeme, Stands, IsGap, Woven, Flat, Spells;
      var (token, next) := TokenAt(text, at);
      var start := SkipBlank(text, at);
      var chunks := SkippedIsGap(text, at);
      TokenIsLexeme(text, at);
      var laterGaps, laterWords := TokensSpellText(text, next);
      var gap, word := text[at.pos..start.pos], text[start.pos..next.pos];
      gaps, words := [gap] + laterGaps, [word] + laterWords;
      WovenFirst(gap, word, laterGaps, laterWords);
      Cut(text, at.pos, start.pos, next.pos);
      assert IsSomeGap(gap, word + Woven(laterGaps, laterWords));
      OneMoreSpelled(token, TokensFrom(text, next), gaps, words);
    } else {
      assert text[at.pos..] == "";
    }
  }

  lemma WovenFirst(gap: string, word: string, gaps: seq<string>, words: seq<string>)
    requires |gaps| == |words|
    ensures ([gap] + gaps)[1..] == gaps && ([word] + words)[1..] == words
    ensures Woven([gap] + gaps, [word] + words) == gap + word + Woven(gaps, words)
  {
  }

  lemma Cut(text: string, a: nat, b: nat, c: nat)
    requires a <= b <= c <= |text|
    ensures text[b..] == text[b..c] + text[c..] && text[a..] == text[a..b] + text[b..c] + text[c..]
  {
  }

  lemma OneMoreSpelled(token: Token, later: seq<Token>, gaps: seq<string>, words: seq<string>)
    requires later != [] && gaps != [] && words != [] && |gaps| == |words|
    requires Spells(later[..|later| - 1], gaps[1..], words[1..])
    requires var rest := Woven(gaps[1..], words[1..]);
             IsSomeGap(gaps[0], words[0] + rest) && Stands(words[0] + rest) && IsLexeme(token, words[0], rest)
    ensures var tokens := [token] + later;
            Spells(tokens[..|tokens| - 1], gaps, words)
  {
    hide IsSomeGap, Stands, IsLexeme, Woven;
    var tokens := [token] + later;
    assert tokens[..|tokens| - 1] == [token] + later[..|later| - 1];
    assert tokens[..|tokens| - 1][1..] == later[..|later| - 1];
  }
}
