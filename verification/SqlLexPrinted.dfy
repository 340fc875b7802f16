// Lexing a printed expression gives its pieces back.
module SqlLexPrinted {
  import opened Wrappers
  import opened Decimal
  import opened SqlLexer
  import opened SqlAst
  import opened SqlPrinted
  import opened SqlLexemes

  // ---- Which expressions ----

  predicate AllWordChars(w: string) { forall j :: 0 <= j < |w| ==> IsWordChar(w[j]) }

  predicate StartsWord(w: string) { w != "" && (IsLetter(w[0]) || w[0] == '_') }

  /** A name that lexes as an identifier: a word that is no keyword. */
  predicate IsName(w: string) { StartsWord(w) && AllWordChars(w) && WordKind(Upper(w)) == IDENTIFIER }

  /** Expressions whose printed form is SQL again. */
  predicate Printable(e: Expr)
    decreases e, 0
  {
    match e
    case NullLiteral => true
    case BooleanLiteral(_) => true
    case IntegerLiteral(n) => n >= 0
    case FloatLiteral(_) => false
    case StringLiteral(s) => '\'' !in s
    case Parameter(name) => name.None?
    case ColumnReference(table, column) => IsName(column) && (table.Some? ==> IsName(table.value))
    case BinaryExpression(left, _, right) => Printable(left) && Printable(right)
    case UnaryExpression(_, operand) => Printable(operand)
    case ComparisonExpression(left, _, right) => Printable(left) && Printable(right)
    case NullTest(operand, _) => Printable(operand)
    case InExpression(operand, values, _) => Printable(operand) && values != [] && AllPrintable(values)
    case BetweenExpression(operand, low, high, _) => Printable(operand) && Printable(low) && Printable(high)
    case FunctionCall(name, AllColumns, _) => IsName(name)
    case FunctionCall(name, Listed(es), _) => IsName(name) && AllPrintable(es)
  }

  predicate AllPrintable(es: seq<Expr>)
    decreases es, 1
  {
    es == [] || (Printable(es[0]) && AllPrintable(es[1..]))
  }

  // ---- Pieces that lex as intended ----

  predicate ContinuesWord(next: Option<char>) { next.Some? && IsWordChar(next.value) }

  predicate IsWordPiece(p: Piece, next: Option<char>) {
    StartsWord(p.text) && AllWordChars(p.text) && p.kind == WordKind(Upper(p.text)) && p.value == p.text && !ContinuesWord(next)
  }

  predicate IsNumberPiece(p: Piece, next: Option<char>) {
    p.text != "" && AllDigits(p.text) && p.kind == INTEGER && p.value == p.text &&
    !ContinuesWord(next) && next != Some('.')
  }

  /** A number with a point or an exponent, written so that the lexer reads all of it. */
  predicate IsFloatText(w: string) {
    w != "" && IsDigit(w[0]) && !AllDigits(w) && !IsExponent(w[|w| - 1]) &&
    forall j :: 0 <= j < |w| ==> IsNumberChar(w, j) && PointGoesOn(w, j)
  }

  predicate PointGoesOn(w: string, j: nat)
    requires j < |w|
  {
    w[j] == '.' ==> j + 1 < |w| && IsDigit(w[j + 1])
  }

  predicate IsFloatPiece(p: Piece, next: Option<char>) {
    IsFloatText(p.text) && p.kind == FLOAT && p.value == p.text && !ContinuesWord(next) && next != Some('.')
  }

  function QuoteKind(quote: char): Kind { if quote == '\'' then STRING else QUOTED_IDENTIFIER }

  predicate IsQuotedPiece(p: Piece, quote: char, next: Option<char>) {
    p.text == [quote] + Doubled(p.value, quote) + [quote] && p.kind == QuoteKind(quote) && next != Some(quote)
  }

  predicate IsStringPiece(p: Piece, next: Option<char>) { IsQuotedPiece(p, '\'', next) || IsQuotedPiece(p, '"', next) }

  lemma {:induction false} NothingDoubled(value: string, quote: char)
    requires quote !in value
    ensures Doubled(value, quote) == value
  {
    if value != "" {
      NothingDoubled(value[1..], quote);
      assert value == [value[0]] + value[1..];
    }
  }

  /** One-character operators that could begin something longer are followed by a blank. */
  predicate IsSignPiece(p: Piece, next: Option<char>) {
    |p.text| == 1 && p.value == p.text && p.kind == OneCharKind(p.text[0]) && p.kind != ERROR &&
    (p.text[0] in {'<', '>', '-', '/'} ==> next == Some(' '))
  }

  predicate IsDoubleSignPiece(p: Piece) {
    p.value == p.text && (p.text, p.kind) in {("!=", NE), ("<=", LE), (">=", GE), ("||", CONCAT)}
  }

  predicate Readable(p: Piece, next: Option<char>) {
    IsWordPiece(p, next) || IsNumberPiece(p, next) || IsFloatPiece(p, next) || IsStringPiece(p, next) ||
    IsSignPiece(p, next) || IsDoubleSignPiece(p)
  }

  /** The character that begins the pieces, or the one after them. */
  function Head(ps: seq<Piece>, next: Option<char>): Option<char> {
    if ps == [] then next
    else if ps[0].spaced then Some(' ')
    else if ps[0].text != "" then Some(ps[0].text[0])
    else None
  }

  /** Each piece is readable before what follows it. */
  predicate Chain(ps: seq<Piece>, next: Option<char>) {
    ps == [] || (Readable(ps[0], Head(ps[1..], next)) && Chain(ps[1..], next))
  }

  lemma {:induction false} ChainConcat(a: seq<Piece>, b: seq<Piece>, next: Option<char>)
    ensures Chain(a + b, next) <==> Chain(a, Head(b, next)) && Chain(b, next)
    decreases |a|
  {
    hide Readable;
    if a == [] {
      assert a + b == b;
    } else {
      assert (a + b)[1..] == a[1..] + b;
      ChainConcat(a[1..], b, next);
      if a[1..] == [] { assert a[1..] + b == b; }
    }
  }

  lemma ChainOne(p: Piece, next: Option<char>)
    requires Readable(p, next)
    ensures Chain([p], next)
  {
    assert [p][1..] == [];
  }

  lemma ChainSpaced(ps: seq<Piece>, next: Option<char>)
    requires ps != [] && Chain(ps, next)
    ensures Chain(Spaced(ps), next) && Head(Spaced(ps), next) == Some(' ')
  {
    assert Spaced(ps)[1..] == ps[1..];
  }

  /** What may follow an operand. */
  predicate Ends(next: Option<char>) { next == None || next == Some(' ') || next == Some(')') || next == Some(',') }

  lemma Keyword(text: string, kind: Kind, next: Option<char>)
    requires (text, kind) in {("NULL", NULL), ("TRUE", TRUE), ("FALSE", FALSE), ("AND", AND), ("OR", OR), ("NOT", NOT), ("IN", IN),
                              ("BETWEEN", BETWEEN), ("LIKE", LIKE), ("IS", IS), ("DISTINCT", DISTINCT)}
    requires !ContinuesWord(next)
    ensures Readable(Mark(text, kind), next) && Readable(Gap(text, kind), next)
  {
    assert Upper(text) == text;
    assert IsWordPiece(Mark(text, kind), next) && IsWordPiece(Gap(text, kind), next);
  }

  lemma Sign(text: string, kind: Kind, next: Option<char>)
    requires (text, kind) in {("+", PLUS), ("-", MINUS), ("*", STAR), ("/", SLASH), ("%", PERCENT), ("||", CONCAT), ("=", EQ),
                              ("!=", NE), ("<", LT), ("<=", LE), (">", GT), (">=", GE)}
    requires next == Some(' ')
    ensures Readable(Mark(text, kind), next) && Readable(Gap(text, kind), next)
  {
  }

  lemma BinarySign(op: BinaryOp)
    ensures Readable(Gap(BinaryText(op), BinaryKind(op)), Some(' '))
  {
    match op
    case AndOp => Keyword("AND", AND, Some(' '));
    case OrOp => Keyword("OR", OR, Some(' '));
    case _ => Sign(BinaryText(op), BinaryKind(op), Some(' '));
  }

  lemma UnarySign(op: UnaryOp)
    ensures Readable(Mark(UnaryText(op), UnaryKind(op)), Some(' '))
  {
    match op
    case NotOp => Keyword("NOT", NOT, Some(' '));
    case _ => Sign(UnaryText(op), UnaryKind(op), Some(' '));
  }

  lemma ComparisonSigns(op: ComparisonOp)
    ensures Chain(ComparisonPieces(op), Some(' ')) && Head(ComparisonPieces(op), None) == Some(' ')
  {
    Keyword("NOT", NOT, Some(' '));
    Keyword("LIKE", LIKE, Some(' '));
    if op == NotLike {
      assert ComparisonPieces(op)[1..] == [Gap("LIKE", LIKE)];
      ChainOne(Gap("LIKE", LIKE), Some(' '));
    } else {
      if op != Like { Sign(ComparisonText(op), ComparisonPieces(op)[0].kind, Some(' ')); }
      ChainOne(ComparisonPieces(op)[0], Some(' '));
    }
  }

  lemma NotSign(negated: bool)
    ensures Chain(NotPiece(negated), Some(' ')) && Head(NotPiece(negated), Some(' ')) == Some(' ')
  {
    if negated {
      Keyword("NOT", NOT, Some(' '));
      ChainOne(Gap("NOT", NOT), Some(' '));
    }
  }

  lemma SignIsReadable(text: string, kind: Kind, next: Option<char>)
    requires |text| == 1 && OneCharKind(text[0]) == kind != ERROR && text[0] !in {'<', '>', '-', '/'}
    ensures Readable(Mark(text, kind), next) && Readable(Gap(text, kind), next)
  {
    hide IsWordPiece, IsNumberPiece, IsFloatPiece, IsStringPiece, IsDoubleSignPiece, OneCharKind;
    assert IsSignPiece(Mark(text, kind), next) && IsSignPiece(Gap(text, kind), next);
  }

  lemma PunctuationKinds()
    ensures OneCharKind('(') == LPAREN && OneCharKind(')') == RPAREN && OneCharKind(',') == COMMA && OneCharKind('.') == DOT
    ensures OneCharKind('*') == STAR && OneCharKind('?') == QUESTION && OneCharKind(':') == COLON
  {
  }

  lemma Punctuation(next: Option<char>)
    ensures Readable(OPEN, next) && Readable(CLOSE, next) && Readable(Mark(",", COMMA), next) && Readable(Mark(".", DOT), next)
    ensures Readable(Gap("(", LPAREN), next) && Readable(Mark("*", STAR), next) && Readable(Mark("?", QUESTION), next)
    ensures Readable(Mark(":", COLON), next)
  {
    hide Readable, OneCharKind, Mark, Gap;
    PunctuationKinds();
    SignIsReadable("(", LPAREN, next);
    SignIsReadable(")", RPAREN, next);
    SignIsReadable(",", COMMA, next);
    SignIsReadable(".", DOT, next);
    SignIsReadable("*", STAR, next);
    SignIsReadable("?", QUESTION, next);
    SignIsReadable(":", COLON, next);
  }

  /** Appending one piece, or pieces after a blank. */
  lemma ChainMark(a: seq<Piece>, p: Piece, next: Option<char>)
    requires Chain(a, Head([p], next)) && Readable(p, next)
    ensures Chain(a + [p], next)
  {
    hide Readable;
    ChainOne(p, next);
    ChainConcat(a, [p], next);
  }

  lemma ChainThen(a: seq<Piece>, b: seq<Piece>, next: Option<char>)
    requires b != [] && Chain(a, Some(' ')) && Chain(b, next)
    ensures Chain(a + Spaced(b), next)
  {
    hide Readable;
    ChainSpaced(b, next);
    ChainConcat(a, Spaced(b), next);
  }

  lemma ChainOpen(a: seq<Piece>, next: Option<char>)
    requires Chain(a, next)
    ensures Chain([OPEN] + a, next)
  {
    hide Readable;
    Punctuation(Head(a, next));
    ChainOne(OPEN, Head(a, next));
    ChainConcat([OPEN], a, next);
  }

  /** An operand and a connective, with or without NOT. */
  lemma {:induction false} ChainNegated(a: seq<Piece>, negated: bool, text: string, kind: Kind, next: Option<char>)
    requires Chain(a, Some(' ')) && Readable(Gap(text, kind), next)
    ensures Chain(a + NotPiece(negated) + [Gap(text, kind)], next)
  {
    hide Readable, Chain, NotPiece;
    NotSign(negated);
    ChainConcat(a, NotPiece(negated), Some(' '));
    ChainMark(a + NotPiece(negated), Gap(text, kind), next);
  }

  // ---- Reading one piece ----

  function FirstOf(s: string): Option<char> { if s == "" then None else Some(s[0]) }

  /** The text from a position on is w and then rest. */
  predicate Ahead(text: string, pos: nat, w: string, rest: string) { pos <= |text| && text[pos..] == w + rest }

  lemma AheadAt(text: string, pos: nat, w: string, rest: string)
    requires Ahead(text, pos, w, rest)
    ensures pos + |w| <= |text| && |text| == pos + |w| + |rest|
    ensures forall j :: 0 <= j < |w| ==> text[pos + j] == w[j]
    ensures rest != "" ==> text[pos + |w|] == rest[0]
    ensures Ahead(text, pos + |w|, "", rest)
    ensures w != "" ==> Ahead(text, pos + 1, w[1..], rest)
  {
    var tail := text[pos..];
    assert forall j :: 0 <= j < |w| ==> tail[j] == w[j];
    if rest != "" { assert tail[|w|] == rest[0]; }
    assert text[pos + |w|..] == tail[|w|..] == rest;
    if w != "" { assert text[pos + 1..] == tail[1..] == w[1..] + rest; }
  }

  lemma {:induction false} WordReads(text: string, at: Place, w: string, rest: string, value: string)
    requires Ahead(text, at.pos, w, rest) && AllWordChars(w) && !ContinuesWord(FirstOf(rest))
    ensures WordAt(text, at, value) == (value + w, Forward(at, |w|))
    decreases |w|
  {
    AheadAt(text, at.pos, w, rest);
    if w != "" {
      WordReads(text, Forward(at, 1), w[1..], rest, value + [w[0]]);
      assert value + [w[0]] + w[1..] == value + w;
    } else {
      assert value + w == value;
    }
  }

  lemma {:induction false} NumberReads(text: string, at: Place, w: string, rest: string, value: string)
    requires Ahead(text, at.pos, w, rest) && AllDigits(w) && !ContinuesWord(FirstOf(rest)) && FirstOf(rest) != Some('.')
    ensures NumberAt(text, at, value, false) == (value + w, false, Forward(at, |w|))
    decreases |w|
  {
    AheadAt(text, at.pos, w, rest);
    if w != "" {
      NumberReads(text, Forward(at, 1), w[1..], rest, value + [w[0]]);
      assert value + [w[0]] + w[1..] == value + w;
    } else {
      assert value + w == value;
    }
  }

  lemma AheadSplit(text: string, pos: nat, a: string, b: string, rest: string)
    requires Ahead(text, pos, a + b, rest)
    ensures pos + |a| <= |text| && (forall j :: 0 <= j < |a| ==> text[pos + j] == a[j]) && Ahead(text, pos + |a|, b, rest)
  {
    AheadAt(text, pos, a + b, rest);
    assert text[pos + |a|..] == text[pos..][|a|..] == b + rest;
    assert forall j :: 0 <= j < |a| ==> (a + b)[j] == a[j];
  }

  function DoubledChar(c: char, quote: char): string { if c == quote then [quote, quote] else [c] }

  lemma DoubledFirst(w: string, quote: char)
    requires w != ""
    ensures Doubled(w, quote) + [quote] == DoubledChar(w[0], quote) + (Doubled(w[1..], quote) + [quote])
    ensures |Doubled(w, quote)| == |DoubledChar(w[0], quote)| + |Doubled(w[1..], quote)|
  {
  }

  /** The text that comes, one character of the value at a time. */
  lemma QuotedAhead(text: string, pos: nat, quote: char, w: string, rest: string)
    requires w != "" && Ahead(text, pos, Doubled(w, quote) + [quote], rest)
    ensures var n := if w[0] == quote then 2 else 1;
            pos + n <= |text| && text[pos] == w[0] && (n == 2 ==> text[pos + 1] == quote) &&
            |Doubled(w, quote)| == n + |Doubled(w[1..], quote)| && Ahead(text, pos + n, Doubled(w[1..], quote) + [quote], rest)
  {
    hide Ahead, Doubled;
    DoubledFirst(w, quote);
    var first := DoubledChar(w[0], quote);
    AheadSplit(text, pos, first, Doubled(w[1..], quote) + [quote], rest);
    assert text[pos + 0] == first[0];
    if |first| == 2 { assert text[pos + 1] == first[1]; }
  }

  lemma {:induction false} QuotedReads(text: string, at: Place, quote: char, w: string, rest: string, value: string)
    requires Ahead(text, at.pos, Doubled(w, quote) + [quote], rest) && FirstOf(rest) != Some(quote)
    ensures QuotedAt(text, at, quote, value).0 == Some(value + w)
    ensures QuotedAt(text, at, quote, value).1.pos == at.pos + |Doubled(w, quote)| + 1
    decreases |w|
  {
    hide Doubled;
    if w != "" {
      QuotedAhead(text, at.pos, quote, w, rest);
      var next := if w[0] == quote then Forward(at, 2) else if quote == '\'' then StepOver(text, at) else Forward(at, 1);
      QuotedReads(text, next, quote, w[1..], rest, value + [w[0]]);
      assert value + [w[0]] + w[1..] == value + w;
    } else {
      NothingDoubled(w, quote);
      assert value + w == value && w + [quote] == [quote];
      AheadAt(text, at.pos, [quote], rest);
      if rest != "" { assert text[at.pos + 1] == rest[0]; }
    }
  }

  /** One step of reading a number. */
  lemma NumberStep(text: string, at: Place, value: string, hasDot: bool)
    requires at.pos < |text|
    ensures var c, next := text[at.pos], if at.pos + 1 < |text| then Some(text[at.pos + 1]) else None;
            var signed := next == Some('+') || next == Some('-');
            (IsDigit(c) || (IsExponent(c) && value != "" && !signed) || (c == '.' && !hasDot && next.Some? && IsDigit(next.value)) ==>
              NumberAt(text, at, value, hasDot) == NumberAt(text, Forward(at, 1), value + [c], hasDot || !IsDigit(c))) &&
            (IsExponent(c) && value != "" && signed ==>
              NumberAt(text, at, value, hasDot) == NumberAt(text, Forward(at, 2), value + [c, next.value], true))
  {
  }

  lemma NumberIsOver(text: string, at: Place, rest: string, value: string, hasDot: bool)
    requires Ahead(text, at.pos, "", rest) && !ContinuesWord(FirstOf(rest)) && FirstOf(rest) != Some('.')
    ensures NumberAt(text, at, value, hasDot) == (value, hasDot, at)
  {
    AheadAt(text, at.pos, "", rest);
  }

  lemma FloatTextAt(all: string, k: nat)
    requires IsFloatText(all) && k < |all|
    ensures IsNumberChar(all, k)
    ensures all[k] == '.' || IsExponent(all[k]) ==> k + 1 < |all|
    ensures all[k] == '.' ==> IsDigit(all[k + 1]) && AllDigits(all[..k])
    ensures k > 0 && !IsExponent(all[k - 1]) ==> all[k] != '+' && all[k] != '-'
    ensures k == 0 ==> IsDigit(all[k])
  {
    assert IsNumberChar(all, k) && PointGoesOn(all, k);
  }

  /** How many characters one step reads: an exponent is read with its sign. */
  function StepLength(w: string): nat
    requires w != ""
  {
    if IsExponent(w[0]) && |w| > 1 && (w[1] == '+' || w[1] == '-') then 2 else 1
  }

  /** What is left to read does not begin with a sign. */
  predicate Unsigned(w: string) { w == "" || (w[0] != '+' && w[0] != '-') }

  lemma FloatStep(text: string, at: Place, w: string, rest: string, value: string, hasDot: bool)
    requires w != "" && Ahead(text, at.pos, w, rest) && IsFloatText(value + w) && IsNumberSoFar(value, hasDot) && Unsigned(w)
    ensures var n := StepLength(w);
            var hasDot' := hasDot || n == 2 || !IsDigit(w[0]);
            IsNumberSoFar(value + w[..n], hasDot') &&
            NumberAt(text, at, value, hasDot) == NumberAt(text, Forward(at, n), value + w[..n], hasDot')
  {
    hide IsNumberSoFar, AllDigits, NumberAt, IsFloatText, Ahead;
    AheadAt(text, at.pos, w, rest);
    FloatMeans(value, hasDot);
    var all, k, c := value + w, |value|, w[0];
    FloatTextAt(all, k);
    NumberStep(text, at, value, hasDot);
    assert all[k] == c && all[..k] == value;
    NumberOneMore(value, hasDot, c);
    if StepLength(w) == 2 {
      NumberOneMore(value + [c], true, w[1]);
      assert w[..2] == [c, w[1]] && value + [c] + [w[1]] == value + [c, w[1]];
    } else {
      assert w[..1] == [c];
      if |w| > 1 { assert all[k + 1] == w[1]; }
    }
  }

  lemma FloatRest(text: string, at: Place, w: string, rest: string, value: string)
    requires w != "" && Ahead(text, at.pos, w, rest) && IsFloatText(value + w) && Unsigned(w)
    ensures var n := StepLength(w);
            n <= |w| && Ahead(text, at.pos + n, w[n..], rest) && Unsigned(w[n..]) && value + w[..n] + w[n..] == value + w
  {
    hide IsFloatText, Ahead;
    AheadAt(text, at.pos, w, rest);
    var all, k, n := value + w, |value|, StepLength(w);
    if n == 2 {
      AheadAt(text, at.pos + 1, w[1..], rest);
      assert w[1..][1..] == w[2..];
    }
    if |w| > n {
      FloatTextAt(all, k + n);
      assert all[k + n] == w[n] && all[k + n - 1] == w[n - 1];
    }
    assert w[..n] + w[n..] == w;
  }

  lemma {:induction false} FloatReads(text: string, at: Place, w: string, rest: string, value: string, hasDot: bool)
    requires Ahead(text, at.pos, w, rest) && IsFloatText(value + w) && IsNumberSoFar(value, hasDot) && Unsigned(w)
    requires !ContinuesWord(FirstOf(rest)) && FirstOf(rest) != Some('.')
    ensures NumberAt(text, at, value, hasDot) == (value + w, true, Forward(at, |w|))
    decreases |w|
  {
    hide IsNumberSoFar, AllDigits, NumberAt, IsFloatText, Ahead, Unsigned;
    AheadAt(text, at.pos, w, rest);
    if w == "" {
      assert value + w == value;
      FloatMeans(value, hasDot);
      FloatIsFloat(value);
      NumberIsOver(text, at, rest, value, hasDot);
    } else {
      var n := StepLength(w);
      FloatStep(text, at, w, rest, value, hasDot);
      FloatRest(text, at, w, rest, value);
      FloatReads(text, Forward(at, n), w[n..], rest, value + w[..n], hasDot || n == 2 || !IsDigit(w[0]));
    }
  }

  lemma FloatIsFloat(w: string)
    requires IsFloatText(w)
    ensures !AllDigits(w)
  {
  }

  /** The lexer skips a piece's blank and nothing else. */
  lemma {:induction false} BlankIsSkipped(text: string, from: Place, p: Piece, rest: string)
    requires Ahead(text, from.pos, ShowPiece(p), rest) && Readable(p, FirstOf(rest))
    ensures SkipBlank(text, from) == if p.spaced then Forward(from, 1) else from
    ensures Ahead(text, SkipBlank(text, from).pos, p.text, rest) && SkipBlank(text, from).pos < |text|
  {
    var at := if p.spaced then Forward(from, 1) else from;
    AheadAt(text, from.pos, ShowPiece(p), rest);
    assert Ahead(text, at.pos, p.text, rest) by {
      if p.spaced { assert ShowPiece(p)[1..] == p.text; } else { assert ShowPiece(p) == p.text; }
    }
    AheadAt(text, at.pos, p.text, rest);
    NothingToSkip(text, at, p, rest);
  }

  /** Pieces begin neither blanks nor comments. */
  lemma FirstCharacter(p: Piece, next: Option<char>)
    requires Readable(p, next)
    ensures p.text != "" && !IsSpace(p.text[0])
    ensures p.text[0] == '-' || p.text[0] == '/' ==> |p.text| == 1 && next == Some(' ')
  {
    if IsWordPiece(p, next) {
    } else if IsNumberPiece(p, next) || IsFloatPiece(p, next) {
    } else if IsQuotedPiece(p, '\'', next) {
      assert p.text[0] == '\'';
    } else if IsQuotedPiece(p, '"', next) {
      assert p.text[0] == '"';
    }
  }

  lemma NothingToSkip(text: string, at: Place, p: Piece, rest: string)
    requires Ahead(text, at.pos, p.text, rest) && Readable(p, FirstOf(rest))
    ensures SkipBlank(text, at) == at && at.pos < |text|
  {
    FirstCharacter(p, FirstOf(rest));
    hide Readable;
    AheadAt(text, at.pos, p.text, rest);
    assert text[at.pos] == p.text[0];
    if |p.text| == 1 && rest != "" { assert text[at.pos + 1] == rest[0]; }
  }

  /** A piece is read as the token it stands for, up to its end. */
  ghost predicate ReadAs(text: string, from: Place, p: Piece) {
    from.pos <= |text| &&
    var (token, next) := TokenAt(text, from);
    token.kind == p.kind && token.value == p.value && next.pos == from.pos + |ShowPiece(p)|
  }

  lemma {:induction false} WordPieceReads(text: string, from: Place, p: Piece, rest: string)
    requires Ahead(text, from.pos, ShowPiece(p), rest) && IsWordPiece(p, FirstOf(rest))
    ensures ReadAs(text, from, p)
  {
    BlankIsSkipped(text, from, p, rest);
    var at := SkipBlank(text, from);
    AheadAt(text, at.pos, p.text, rest);
    WordReads(text, at, p.text, rest, "");
    WordTokenAt(text, from, p.text);
  }

  lemma WordTokenAt(text: string, from: Place, w: string)
    requires from.pos <= |text| && StartsWord(w)
    requires var at := SkipBlank(text, from);
             at.pos < |text| && text[at.pos] == w[0] && WordAt(text, at, "") == ("" + w, Forward(at, |w|))
    ensures var at := SkipBlank(text, from);
            TokenAt(text, from) == (Token(WordKind(Upper(w)), w, at.line, at.column), Forward(at, |w|))
  {
    hide SkipBlank, WordKind, Upper, WordAt;
    assert "" + w == w;
  }

  lemma NumberPieceReads(text: string, from: Place, p: Piece, rest: string)
    requires Ahead(text, from.pos, ShowPiece(p), rest) && IsNumberPiece(p, FirstOf(rest))
    ensures ReadAs(text, from, p)
  {
    BlankIsSkipped(text, from, p, rest);
    var at := SkipBlank(text, from);
    AheadAt(text, at.pos, p.text, rest);
    NumberReads(text, at, p.text, rest, "");
    NumberTokenAt(text, from, p.text);
  }

  lemma NumberTokenAt(text: string, from: Place, w: string)
    requires from.pos <= |text| && w != "" && IsDigit(w[0])
    requires var at := SkipBlank(text, from);
             at.pos < |text| && text[at.pos] == w[0] && NumberAt(text, at, "", false) == ("" + w, false, Forward(at, |w|))
    ensures var at := SkipBlank(text, from);
            TokenAt(text, from) == (Token(INTEGER, w, at.line, at.column), Forward(at, |w|))
  {
    hide SkipBlank, NumberAt;
    assert "" + w == w;
  }

  lemma FloatStarts(p: Piece, next: Option<char>)
    requires IsFloatPiece(p, next)
    ensures Readable(p, next) && p.text != "" && IsDigit(p.text[0]) && Unsigned(p.text) && "" + p.text == p.text
    ensures IsFloatText(p.text) && IsNumberSoFar("", false) && !ContinuesWord(next) && next != Some('.')
  {
  }

  lemma FloatPieceReads(text: string, from: Place, p: Piece, rest: string)
    requires Ahead(text, from.pos, ShowPiece(p), rest) && IsFloatPiece(p, FirstOf(rest))
    ensures ReadAs(text, from, p)
  {
    hide Readable, SkipBlank, NumberAt, IsFloatText, IsNumberSoFar, Unsigned, Ahead, TokenAt;
    FloatStarts(p, FirstOf(rest));
    BlankIsSkipped(text, from, p, rest);
    var at := SkipBlank(text, from);
    AheadAt(text, at.pos, p.text, rest);
    FloatReads(text, at, p.text, rest, "", false);
    FloatTokenAt(text, from, p.text);
    assert |ShowPiece(p)| == |p.text| + if p.spaced then 1 else 0;
    assert from.pos <= |text|;
  }

  lemma FloatTokenAt(text: string, from: Place, w: string)
    requires from.pos <= |text| && w != "" && IsDigit(w[0])
    requires var at := SkipBlank(text, from);
             at.pos < |text| && text[at.pos] == w[0] && NumberAt(text, at, "", false) == ("" + w, true, Forward(at, |w|))
    ensures var at := SkipBlank(text, from);
            TokenAt(text, from) == (Token(FLOAT, w, at.line, at.column), Forward(at, |w|))
  {
    hide SkipBlank, NumberAt;
    assert "" + w == w;
  }

  lemma QuotedStarts(p: Piece, quote: char, next: Option<char>)
    requires (quote == '\'' || quote == '"') && IsQuotedPiece(p, quote, next)
    ensures Readable(p, next) && p.kind == QuoteKind(quote) && next != Some(quote)
    ensures p.text != "" && p.text[0] == quote && p.text[1..] == Doubled(p.value, quote) + [quote]
    ensures |p.text| == |Doubled(p.value, quote)| + 2
  {
    hide Doubled;
  }

  lemma QuotedTokenAt(text: string, from: Place, quote: char, value: string, end: nat)
    requires from.pos <= |text| && (quote == '\'' || quote == '"')
    requires var at := SkipBlank(text, from);
             Looking(text, at.pos, quote) &&
             QuotedAt(text, Forward(at, 1), quote, "").0 == Some(value) && QuotedAt(text, Forward(at, 1), quote, "").1.pos == end
    ensures var (token, next) := TokenAt(text, from);
            token.kind == QuoteKind(quote) && token.value == value && next.pos == end
  {
    hide SkipBlank, QuotedAt, NumberAt, WordAt, OperatorAt, WordKind, Upper;
  }

  lemma StringPieceReads(text: string, from: Place, p: Piece, quote: char, rest: string)
    requires Ahead(text, from.pos, ShowPiece(p), rest) && (quote == '\'' || quote == '"') && IsQuotedPiece(p, quote, FirstOf(rest))
    ensures ReadAs(text, from, p)
  {
    hide SkipBlank, Readable, IsQuotedPiece, Doubled, Ahead, TokenAt, QuotedAt;
    QuotedStarts(p, quote, FirstOf(rest));
    BlankIsSkipped(text, from, p, rest);
    var at := SkipBlank(text, from);
    AheadAt(text, from.pos, ShowPiece(p), rest);
    AheadAt(text, at.pos, p.text, rest);
    QuotedReads(text, Forward(at, 1), quote, p.value, rest, "");
    assert "" + p.value == p.value;
    QuotedTokenAt(text, from, quote, p.value, at.pos + |p.text|);
  }

  lemma SignAhead(text: string, pos: nat, p: Piece, rest: string)
    requires Ahead(text, pos, p.text, rest) && IsSignPiece(p, FirstOf(rest))
    ensures pos < |text| && OperatorAt(text, pos) == (p.kind, p.value, 1)
    ensures !IsLetter(text[pos]) && !IsDigit(text[pos]) && text[pos] !in {'_', '\'', '"'}
  {
    AheadAt(text, pos, p.text, rest);
    assert text[pos] == p.text[0] && [p.text[0]] == p.text;
    if rest != "" { assert text[pos + 1] == rest[0]; }
  }

  lemma DoubleSignAhead(text: string, pos: nat, p: Piece, rest: string)
    requires Ahead(text, pos, p.text, rest) && IsDoubleSignPiece(p)
    ensures pos < |text| && OperatorAt(text, pos) == (p.kind, p.value, 2) && |p.text| == 2
    ensures !IsLetter(text[pos]) && !IsDigit(text[pos]) && text[pos] !in {'_', '\'', '"'}
  {
    AheadAt(text, pos, p.text, rest);
    assert text[pos] == p.text[0] && text[pos + 1] == p.text[1];
  }

  lemma {:induction false} SignPieceReads(text: string, from: Place, p: Piece, rest: string)
    requires Ahead(text, from.pos, ShowPiece(p), rest) && (IsSignPiece(p, FirstOf(rest)) || IsDoubleSignPiece(p))
    ensures ReadAs(text, from, p)
  {
    BlankIsSkipped(text, from, p, rest);
    var at := SkipBlank(text, from);
    if IsDoubleSignPiece(p) { DoubleSignAhead(text, at.pos, p, rest); } else { SignAhead(text, at.pos, p, rest); }
    hide SkipBlank, OperatorAt, IsDoubleSignPiece, Ahead;
    assert |ShowPiece(p)| == |p.text| + if p.spaced then 1 else 0;
  }

  lemma PieceReads(text: string, from: Place, p: Piece, rest: string)
    requires Ahead(text, from.pos, ShowPiece(p), rest) && Readable(p, FirstOf(rest))
    ensures ReadAs(text, from, p)
  {
    if IsWordPiece(p, FirstOf(rest)) {
      WordPieceReads(text, from, p, rest);
    } else if IsNumberPiece(p, FirstOf(rest)) {
      NumberPieceReads(text, from, p, rest);
    } else if IsFloatPiece(p, FirstOf(rest)) {
      FloatPieceReads(text, from, p, rest);
    } else if IsStringPiece(p, FirstOf(rest)) {
      StringPieceReads(text, from, p, if IsQuotedPiece(p, '\'', FirstOf(rest)) then '\'' else '"', rest);
    } else {
      SignPieceReads(text, from, p, rest);
    }
  }

  // ---- Reading them all ----

  /** The tokens from a position on are those the pieces stand for. */
  ghost predicate Spell(ts: seq<Token>, pos: nat, ps: seq<Piece>) {
    pos + |ps| <= |ts| && forall j :: 0 <= j < |ps| ==> ts[pos + j].kind == ps[j].kind && ts[pos + j].value == ps[j].value
  }

  lemma HeadIsFirst(ps: seq<Piece>)
    requires Chain(ps, None)
    ensures Head(ps, None) == FirstOf(Show(ps))
  {
    if ps != [] {
      assert ps[0].text != "";
      if ps[0].spaced { assert Show(ps)[0] == ' '; } else { assert Show(ps)[0] == ps[0].text[0]; }
    }
  }

  lemma SpellMore(token: Token, ts: seq<Token>, ps: seq<Piece>)
    requires ps != [] && token.kind == ps[0].kind && token.value == ps[0].value && Spell(ts, 0, ps[1..])
    ensures Spell([token] + ts, 0, ps)
  {
    var all := [token] + ts;
    forall j | 0 <= j < |ps| ensures all[0 + j].kind == ps[j].kind && all[0 + j].value == ps[j].value {
      if j > 0 {
        assert ps[j] == ps[1..][j - 1];
        assert ts[0 + (j - 1)].kind == ps[1..][j - 1].kind && all[j] == ts[j - 1];
      }
    }
  }

  lemma {:induction false} PiecesRead(text: string, at: Place, ps: seq<Piece>)
    requires at.pos <= |text| && text[at.pos..] == Show(ps) && Chain(ps, None)
    ensures |TokensFrom(text, at)| == |ps| + 1
    ensures Spell(TokensFrom(text, at), 0, ps)
    decreases |ps|
  {
    hide TokenAt, Readable, ShowPiece, Spell;
    if ps == [] {
      assert text[at.pos..] == "";
      NothingSpelled(TokensFrom(text, at));
    } else {
      HeadIsFirst(ps[1..]);
      PieceReads(text, at, ps[0], Show(ps[1..]));
      AheadAt(text, at.pos, ShowPiece(ps[0]), Show(ps[1..]));
      ShowNotEmpty(ps[0], FirstOf(Show(ps[1..])));
      var (token, next) := TokenAt(text, at);
      PiecesRead(text, next, ps[1..]);
      SpellMore(token, TokensFrom(text, next), ps);
    }
  }

  lemma NothingSpelled(ts: seq<Token>)
    ensures Spell(ts, 0, [])
  {
  }

  lemma ShowNotEmpty(p: Piece, next: Option<char>)
    requires Readable(p, next)
    ensures |ShowPiece(p)| > 0
  {
  }
}
