// The expression grammar as trees: what may stand where without parentheses, how a tree is written,
// and what it means.
module SqlGrammar {
  import opened Wrappers
  import opened Decimal
  import opened SqlLexer
  import opened SqlLexemes
  import opened SqlAst
  import opened SqlPrinted
  import opened SqlLexPrinted

  /** A token without its place. */
  datatype Word = Word(kind: Kind, value: string)

  /** An expression as it is written: parentheses are part of it. */
  datatype Syntax =
    | Atom(word: Word)
    | Named(name: Word)
    | Qualified(table: Word, column: Word)
    | Paren(inner: Syntax)
    | Infix(left: Syntax, operator: BinaryOp, right: Syntax)
    | Prefix(sign: UnaryOp, operand: Syntax)
    | Compare(left: Syntax, comparison: ComparisonOp, right: Syntax)
    | IsNull(operand: Syntax, negated: bool)
    | OneOf(operand: Syntax, values: seq<Syntax>, negated: bool)
    | Within(operand: Syntax, low: Syntax, high: Syntax, negated: bool)
    | Call(name: Word, arguments: seq<Syntax>, distinct: bool)
    | CallAll(name: Word, distinct: bool)

  // ---- What a tree means ----

  predicate IsNameWord(w: Word) { w.kind == IDENTIFIER || w.kind == QUOTED_IDENTIFIER }

  /** Literals, parameters without a name, columns. */
  function WordMeaning(w: Word): Option<Expr> {
    match w.kind
    case NULL => Some(NullLiteral)
    case TRUE => Some(BooleanLiteral(true))
    case FALSE => Some(BooleanLiteral(false))
    case INTEGER => if AllDigits(w.value) then Some(IntegerLiteral(TextValue(w.value))) else None
    case FLOAT => Some(FloatLiteral(w.value))
    case STRING => Some(StringLiteral(w.value))
    case QUESTION => Some(Parameter(None))
    case IDENTIFIER => Some(ColumnReference(None, w.value))
    case QUOTED_IDENTIFIER => Some(ColumnReference(None, w.value))
    case _ => None
  }

  /** Parentheses mean what is in them. */
  function Meaning(c: Syntax): Expr
    decreases c, 0
  {
    match c
    case Atom(word) => if WordMeaning(word).Some? then WordMeaning(word).value else NullLiteral
    case Named(name) => Parameter(Some(name.value))
    case Qualified(table, column) => ColumnReference(Some(table.value), column.value)
    case Paren(inner) => Meaning(inner)
    case Infix(left, op, right) => BinaryExpression(Meaning(left), op, Meaning(right))
    case Prefix(op, operand) => UnaryExpression(op, Meaning(operand))
    case Compare(left, op, right) => ComparisonExpression(Meaning(left), op, Meaning(right))
    case IsNull(operand, negated) => NullTest(Meaning(operand), negated)
    case OneOf(operand, values, negated) => InExpression(Meaning(operand), Meanings(values), negated)
    case Within(operand, low, high, negated) => BetweenExpression(Meaning(operand), Meaning(low), Meaning(high), negated)
    case Call(name, arguments, distinct) => FunctionCall(name.value, Listed(Meanings(arguments)), distinct)
    case CallAll(name, distinct) => FunctionCall(name.value, AllColumns, distinct)
  }

  function Meanings(cs: seq<Syntax>): (es: seq<Expr>)
    ensures |es| == |cs|
    decreases cs, 1
  {
    if cs == [] then [] else [Meaning(cs[0])] + Meanings(cs[1..])
  }

  // ---- Where a tree may stand ----

  /** How tightly a form binds: OR, AND, NOT, comparisons, sums, products, signs, and what stands
      anywhere. */
  const OR_RANK: nat := 0
  const AND_RANK: nat := 1
  const NOT_RANK: nat := 2
  const COMPARISON_RANK: nat := 3
  const SUM_RANK: nat := 4
  const PRODUCT_RANK: nat := 5
  const SIGN_RANK: nat := 6
  const PRIMARY_RANK: nat := 7

  function OperatorRank(op: BinaryOp): nat {
    match op
    case OrOp => OR_RANK
    case AndOp => AND_RANK
    case Add => SUM_RANK
    case Sub => SUM_RANK
    case Concat => SUM_RANK
    case _ => PRODUCT_RANK
  }

  function Rank(c: Syntax): nat {
    match c
    case Infix(_, op, _) => OperatorRank(op)
    case Prefix(op, _) => if op == NotOp then NOT_RANK else SIGN_RANK
    case Compare(_, _, _) => COMPARISON_RANK
    case IsNull(_, _) => COMPARISON_RANK
    case OneOf(_, _, _) => COMPARISON_RANK
    case Within(_, _, _, _) => COMPARISON_RANK
    case _ => PRIMARY_RANK
  }

  /** What the grammar allows: a left operand may be as loose as its operator, a right one must be
      tighter; NOT and the signs apply to another of their kind; the operands of comparisons are sums. */
  predicate Grammatical(c: Syntax)
    decreases c, 0
  {
    match c
    case Atom(word) => WordMeaning(word).Some?
    case Named(name) => IsNameWord(name)
    case Qualified(table, column) => IsNameWord(table) && IsNameWord(column)
    case Paren(inner) => Grammatical(inner)
    case Infix(left, op, right) =>
      Grammatical(left) && Grammatical(right) && Rank(left) >= OperatorRank(op) && Rank(right) > OperatorRank(op)
    case Prefix(_, operand) => Grammatical(operand) && Rank(operand) >= Rank(c)
    case Compare(left, _, right) => Grammatical(left) && Grammatical(right) && Rank(left) >= SUM_RANK && Rank(right) >= SUM_RANK
    case IsNull(operand, _) => Grammatical(operand) && Rank(operand) >= SUM_RANK
    case OneOf(operand, values, _) =>
      Grammatical(operand) && Rank(operand) >= SUM_RANK && values != [] && AllGrammatical(values)
    case Within(operand, low, high, _) =>
      Grammatical(operand) && Grammatical(low) && Grammatical(high) &&
      Rank(operand) >= SUM_RANK && Rank(low) >= SUM_RANK && Rank(high) >= SUM_RANK
    case Call(name, arguments, _) => IsNameWord(name) && AllGrammatical(arguments)
    case CallAll(name, _) => IsNameWord(name)
  }

  predicate AllGrammatical(cs: seq<Syntax>)
    decreases cs, 1
  {
    cs == [] || (Grammatical(cs[0]) && AllGrammatical(cs[1..]))
  }

  /** How many more expressions the parser enters to read a tree: one per parenthesis, one per list
      element. */
  function Deep(c: Syntax): nat
    decreases c, 0
  {
    match c
    case Paren(inner) => 1 + Deep(inner)
    case Infix(left, _, right) => Larger(Deep(left), Deep(right))
    case Prefix(_, operand) => Deep(operand)
    case Compare(left, _, right) => Larger(Deep(left), Deep(right))
    case IsNull(operand, _) => Deep(operand)
    case OneOf(operand, values, _) => Larger(Deep(operand), ListDeep(values))
    case Within(operand, low, high, _) => Larger(Deep(operand), Larger(Deep(low), Deep(high)))
    case Call(_, arguments, _) => ListDeep(arguments)
    case _ => 0
  }

  function ListDeep(cs: seq<Syntax>): nat
    decreases cs, 1
  {
    if cs == [] then 0 else Larger(1 + Deep(cs[0]), ListDeep(cs[1..]))
  }

  // ---- How a tree is written ----

  function TestWords(negated: bool): (ps: seq<Piece>)
    ensures |ps| == if negated then 3 else 2
  {
    [Gap("IS", IS)] + NotPiece(negated) + [Gap("NULL", NULL)]
  }

  function InWords(negated: bool): (ps: seq<Piece>)
    ensures |ps| == if negated then 3 else 2
  {
    NotPiece(negated) + [Gap("IN", IN)] + [Gap("(", LPAREN)]
  }

  function BetweenWords(negated: bool): (ps: seq<Piece>)
    ensures |ps| == if negated then 2 else 1
  {
    NotPiece(negated) + [Gap("BETWEEN", BETWEEN)]
  }

  /** Strings and quoted names stand between quotes, with their quotes doubled. */
  function WordText(w: Word): string {
    if w.kind == STRING then ['\''] + Doubled(w.value, '\'') + ['\'']
    else if w.kind == QUOTED_IDENTIFIER then ['"'] + Doubled(w.value, '"') + ['"']
    else w.value
  }

  function WordPiece(w: Word): Piece { Piece(false, WordText(w), w.kind, w.value) }

  function CallPieces(name: Word, inner: seq<Piece>, distinct: bool): (ps: seq<Piece>)
    ensures |ps| == (if distinct then 3 else 2) + |inner| + 1
  {
    if distinct then [WordPiece(name)] + [OPEN] + [Mark("DISTINCT", DISTINCT)] + Spaced(inner + [CLOSE])
    else [WordPiece(name)] + [OPEN] + inner + [CLOSE]
  }

  function Written(c: Syntax): (ps: seq<Piece>)
    ensures ps != []
    decreases c, 0
  {
    match c
    case Atom(word) => [WordPiece(word)]
    case Named(name) => [Mark(":", COLON)] + [WordPiece(name)]
    case Qualified(table, column) => [WordPiece(table)] + [Mark(".", DOT)] + [WordPiece(column)]
    case Paren(inner) => [OPEN] + Written(inner) + [CLOSE]
    case Infix(left, op, right) => Written(left) + [Gap(BinaryText(op), BinaryKind(op))] + Spaced(Written(right))
    case Prefix(op, operand) => [Mark(UnaryText(op), UnaryKind(op))] + Spaced(Written(operand))
    case Compare(left, op, right) => Written(left) + ComparisonPieces(op) + Spaced(Written(right))
    case IsNull(operand, negated) => Written(operand) + TestWords(negated)
    case OneOf(operand, values, negated) => Written(operand) + InWords(negated) + WrittenList(values) + [CLOSE]
    case Within(operand, low, high, negated) =>
      Written(operand) + BetweenWords(negated) + Spaced(Written(low)) + [Gap("AND", AND)] + Spaced(Written(high))
    case Call(name, arguments, distinct) => CallPieces(name, WrittenList(arguments), distinct)
    case CallAll(name, distinct) => CallPieces(name, [Mark("*", STAR)], distinct)
  }

  function WrittenList(cs: seq<Syntax>): (ps: seq<Piece>)
    ensures cs != [] ==> ps != []
    decreases cs, 1
  {
    if cs == [] then []
    else if |cs| == 1 then Written(cs[0])
    else Written(cs[0]) + [Mark(",", COMMA)] + Spaced(WrittenList(cs[1..]))
  }

  // ---- Lexing what is written ----

  /** The token is one the lexer gives for how it is written. */
  predicate IsSpelled(w: Word) {
    match w.kind
    case STRING => true
    case QUOTED_IDENTIFIER => true
    case QUESTION => w.value == "?"
    case INTEGER => w.value != "" && AllDigits(w.value)
    case FLOAT => IsFloatText(w.value)
    case _ => StartsWord(w.value) && AllWordChars(w.value) && WordKind(Upper(w.value)) == w.kind
  }

  predicate Spellable(c: Syntax)
    decreases c, 0
  {
    match c
    case Atom(word) => IsSpelled(word)
    case Named(name) => IsSpelled(name)
    case Qualified(table, column) => IsSpelled(table) && IsSpelled(column)
    case Paren(inner) => Spellable(inner)
    case Infix(left, _, right) => Spellable(left) && Spellable(right)
    case Prefix(_, operand) => Spellable(operand)
    case Compare(left, _, right) => Spellable(left) && Spellable(right)
    case IsNull(operand, _) => Spellable(operand)
    case OneOf(operand, values, _) => Spellable(operand) && AllSpellable(values)
    case Within(operand, low, high, _) => Spellable(operand) && Spellable(low) && Spellable(high)
    case Call(name, arguments, _) => IsSpelled(name) && AllSpellable(arguments)
    case CallAll(name, _) => IsSpelled(name)
  }

  predicate AllSpellable(cs: seq<Syntax>)
    decreases cs, 1
  {
    cs == [] || (Spellable(cs[0]) && AllSpellable(cs[1..]))
  }

  /** What may follow a token of any kind: not a quote, nor a word's or number's next character. */
  predicate EndsWord(next: Option<char>) { !ContinuesWord(next) && next != Some('.') && next != Some('\'') && next != Some('"') }

  lemma WordIsReadable(w: Word, next: Option<char>)
    requires IsSpelled(w) && (EndsWord(next) || (IsNameWord(w) && next == Some('.')))
    ensures Readable(WordPiece(w), next)
  {
    var p := WordPiece(w);
    match w.kind
    case STRING => assert IsQuotedPiece(p, '\'', next);
    case QUOTED_IDENTIFIER => assert IsQuotedPiece(p, '"', next);
    case QUESTION => Punctuation(next);
    case INTEGER => assert IsNumberPiece(p, next);
    case FLOAT => assert IsFloatPiece(p, next);
    case _ => assert IsWordPiece(p, next);
  }

  lemma {:induction false} ChainName(name: Word, inner: seq<Piece>, distinct: bool, next: Option<char>)
    requires IsSpelled(name) && Chain(inner, Some(')'))
    ensures Chain(CallPieces(name, inner, distinct), next)
  {
    hide Readable, Chain, Spaced, IsSpelled, WordPiece;
    var start := [WordPiece(name)] + [OPEN];
    WordIsReadable(name, Some('('));
    ChainOne(WordPiece(name), Some('('));
    Punctuation(next);
    if distinct {
      Punctuation(Some('D'));
      ChainMark([WordPiece(name)], OPEN, Some('D'));
      Keyword("DISTINCT", DISTINCT, Some(' '));
      ChainMark(start, Mark("DISTINCT", DISTINCT), Some(' '));
      ChainMark(inner, CLOSE, next);
      ChainThen(start + [Mark("DISTINCT", DISTINCT)], inner + [CLOSE], next);
    } else {
      var first := Head(inner, Some(')'));
      Punctuation(first);
      ChainMark([WordPiece(name)], OPEN, first);
      ChainConcat(start, inner, Some(')'));
      ChainMark(start + inner, CLOSE, next);
    }
  }

  lemma {:induction false} ChainWords(c: Syntax, next: Option<char>)
    requires (c.Atom? || c.Named? || c.Qualified?) && Grammatical(c) && Spellable(c) && Ends(next)
    ensures Chain(Written(c), next)
  {
    hide Readable, IsSpelled, WordPiece;
    match c
    case Atom(word) =>
      WordIsReadable(word, next);
      ChainOne(WordPiece(word), next);
    case Named(name) =>
      WordIsReadable(name, next);
      var first := Head([WordPiece(name)], next);
      Punctuation(first);
      ChainOne(Mark(":", COLON), first);
      ChainMark([Mark(":", COLON)], WordPiece(name), next);
    case Qualified(table, column) =>
      WordIsReadable(table, Some('.'));
      ChainOne(WordPiece(table), Some('.'));
      var first := Head([WordPiece(column)], next);
      Punctuation(first);
      ChainMark([WordPiece(table)], Mark(".", DOT), first);
      WordIsReadable(column, next);
      ChainMark([WordPiece(table)] + [Mark(".", DOT)], WordPiece(column), next);
  }

  lemma {:induction false} ChainPair(a: seq<Piece>, p: Piece, b: seq<Piece>, next: Option<char>)
    requires Chain(a, Some(' ')) && p.spaced && Readable(p, Some(' ')) && b != [] && Chain(b, next)
    ensures Chain(a + [p] + Spaced(b), next)
  {
    hide Readable, Chain, Spaced;
    ChainMark(a, p, Some(' '));
    ChainThen(a + [p], b, next);
  }

  lemma {:induction false} ChainIn(a: seq<Piece>, negated: bool, values: seq<Piece>, next: Option<char>)
    requires Chain(a, Some(' ')) && Chain(values, Some(')'))
    ensures Chain(a + InWords(negated) + values + [CLOSE], next)
  {
    hide Readable, Chain, NotPiece;
    var start := a + NotPiece(negated) + [Gap("IN", IN)];
    var first := Head(values, Some(')'));
    Keyword("IN", IN, Some(' '));
    ChainNegated(a, negated, "IN", IN, Some(' '));
    Punctuation(first);
    ChainMark(start, Gap("(", LPAREN), first);
    assert start + [Gap("(", LPAREN)] == a + InWords(negated);
    ChainConcat(a + InWords(negated), values, Some(')'));
    Punctuation(next);
    ChainMark(a + InWords(negated) + values, CLOSE, next);
  }

  lemma {:induction false} ChainTest(a: seq<Piece>, negated: bool, next: Option<char>)
    requires Chain(a, Some(' ')) && Ends(next)
    ensures Chain(a + TestWords(negated), next)
  {
    hide Readable, Chain, NotPiece;
    var start := a + [Gap("IS", IS)];
    Keyword("IS", IS, Some(' '));
    ChainMark(a, Gap("IS", IS), Some(' '));
    Keyword("NULL", NULL, next);
    ChainNegated(start, negated, "NULL", NULL, next);
    assert start + NotPiece(negated) + [Gap("NULL", NULL)] == a + TestWords(negated);
  }

  lemma {:induction false} ChainBetween(a: seq<Piece>, negated: bool, low: seq<Piece>, high: seq<Piece>, next: Option<char>)
    requires Chain(a, Some(' ')) && low != [] && Chain(low, Some(' ')) && high != [] && Chain(high, next)
    ensures Chain(a + BetweenWords(negated) + Spaced(low) + [Gap("AND", AND)] + Spaced(high), next)
  {
    hide Readable, Chain, NotPiece, Spaced;
    var start := a + BetweenWords(negated);
    Keyword("BETWEEN", BETWEEN, Some(' '));
    ChainNegated(a, negated, "BETWEEN", BETWEEN, Some(' '));
    assert start == a + NotPiece(negated) + [Gap("BETWEEN", BETWEEN)];
    ChainThen(start, low, Some(' '));
    Keyword("AND", AND, Some(' '));
    ChainPair(start + Spaced(low), Gap("AND", AND), high, next);
  }

  /** Every piece of a grammatical tree lexes as intended. */
  lemma {:induction false} WrittenChain(c: Syntax, next: Option<char>)
    requires Grammatical(c) && Spellable(c) && Ends(next)
    ensures Chain(Written(c), next)
    decreases c, 0
  {
    hide Readable, Chain, Spaced, InWords, TestWords, BetweenWords, ComparisonPieces, BinaryText, UnaryText,
         BinaryKind, UnaryKind, IsSpelled, WordPiece, CallPieces;
    match c
    case Paren(inner) =>
      WrittenChain(inner, Some(')'));
      ChainOpen(Written(inner), Some(')'));
      Punctuation(next);
      ChainMark([OPEN] + Written(inner), CLOSE, next);
    case Infix(left, op, right) =>
      WrittenChain(left, Some(' '));
      WrittenChain(right, next);
      BinarySign(op);
      ChainPair(Written(left), Gap(BinaryText(op), BinaryKind(op)), Written(right), next);
    case Prefix(op, operand) =>
      WrittenChain(operand, next);
      UnarySign(op);
      ChainOne(Mark(UnaryText(op), UnaryKind(op)), Some(' '));
      ChainThen([Mark(UnaryText(op), UnaryKind(op))], Written(operand), next);
    case Compare(left, op, right) =>
      WrittenChain(left, Some(' '));
      WrittenChain(right, next);
      ComparisonSigns(op);
      ChainConcat(Written(left), ComparisonPieces(op), Some(' '));
      ChainThen(Written(left) + ComparisonPieces(op), Written(right), next);
    case IsNull(operand, negated) =>
      WrittenChain(operand, Some(' '));
      ChainTest(Written(operand), negated, next);
    case OneOf(operand, values, negated) =>
      WrittenChain(operand, Some(' '));
      WrittenListChain(values, Some(')'));
      ChainIn(Written(operand), negated, WrittenList(values), next);
    case Within(operand, low, high, negated) =>
      WrittenChain(operand, Some(' '));
      WrittenChain(low, Some(' '));
      WrittenChain(high, next);
      ChainBetween(Written(operand), negated, Written(low), Written(high), next);
    case Call(name, arguments, distinct) =>
      WrittenListChain(arguments, Some(')'));
      ChainName(name, WrittenList(arguments), distinct, next);
    case CallAll(name, distinct) =>
      Punctuation(Some(')'));
      ChainOne(Mark("*", STAR), Some(')'));
      ChainName(name, [Mark("*", STAR)], distinct, next);
    case _ => ChainWords(c, next);
  }

  lemma {:induction false} WrittenListChain(cs: seq<Syntax>, next: Option<char>)
    requires AllGrammatical(cs) && AllSpellable(cs) && Ends(next)
    ensures Chain(WrittenList(cs), next)
    decreases cs, 1
  {
    if |cs| == 1 {
      WrittenChain(cs[0], next);
    } else if |cs| > 1 {
      WrittenChain(cs[0], Some(','));
      WrittenListChain(cs[1..], next);
      Punctuation(Some(' '));
      ChainMark(Written(cs[0]), Mark(",", COMMA), Some(' '));
      ChainThen(Written(cs[0]) + [Mark(",", COMMA)], WrittenList(cs[1..]), next);
    }
  }

  /** Lexing what a tree is written as gives its pieces and the end. */
  lemma WrittenTokens(c: Syntax)
    requires Grammatical(c) && Spellable(c)
    ensures var ts := Tokenize(Show(Written(c)));
            |ts| == |Written(c)| + 1 && Spell(ts, 0, Written(c)) && Ended(ts)
  {
    var text := Show(Written(c));
    WrittenChain(c, None);
    assert text[0..] == text;
    PiecesRead(text, START, Written(c));
  }
}
