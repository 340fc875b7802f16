// The expression grammar: what the parser makes of a token sequence.
module SqlParser {
  import opened Wrappers
  import opened Decimal
  import opened SqlLexer
  import opened SqlAst

  /** Unmodelled stands for CASE, CAST, EXISTS and subqueries. */
  datatype ParseError = RecursionLimit | Unexpected | Expected(kind: Kind) | ExpectedIdentifier | Unmodelled

  /** An expression and the position after it, or an error and the position it was noticed at. */
  datatype Parsed =
    | Success(value: Expr, pos: nat)
    | Failure(error: ParseError, pos: nat)

  datatype ParsedList =
    | SuccessList(values: seq<Expr>, pos: nat)
    | FailureList(error: ParseError, pos: nat)

  /** The token at a position; past the end, the last one. */
  function KindAt(ts: seq<Token>, pos: nat): Kind
    requires ts != []
  {
    if pos < |ts| then ts[pos].kind else ts[|ts| - 1].kind
  }

  /** Parsing moves on, and stays inside the tokens. */
  predicate Moved(r: Parsed, ts: seq<Token>, pos: nat) {
    r.pos < |ts| && pos <= r.pos && (r.Success? ==> pos < r.pos)
  }

  predicate MovedList(r: ParsedList, ts: seq<Token>, pos: nat) {
    r.pos < |ts| && pos <= r.pos && (r.SuccessList? ==> pos < r.pos)
  }

  /** The loops that fold operators of one precedence to the left. */
  datatype Level = OrLevel | AndLevel | AddLevel | MulLevel

  function Operator(level: Level, kind: Kind): Option<BinaryOp> {
    match (level, kind)
    case (OrLevel, OR) => Some(OrOp)
    case (AndLevel, AND) => Some(AndOp)
    case (AddLevel, PLUS) => Some(Add)
    case (AddLevel, MINUS) => Some(Sub)
    case (AddLevel, CONCAT) => Some(Concat)
    case (MulLevel, STAR) => Some(Mul)
    case (MulLevel, SLASH) => Some(Div)
    case (MulLevel, PERCENT) => Some(Mod)
    case _ => None
  }

  function Comparison(kind: Kind): Option<ComparisonOp> {
    match kind
    case EQ => Some(Eq)
    case NE => Some(Ne)
    case LT => Some(Lt)
    case LE => Some(Le)
    case GT => Some(Gt)
    case GE => Some(Ge)
    case LIKE => Some(Like)
    case _ => None
  }

  /** _parse_expression: the depth counts the expressions being parsed. */
  function ParseExpression(ts: seq<Token>, pos: nat, depth: nat, max: nat): (r: Parsed)
    requires Ended(ts) && pos < |ts|
    ensures Moved(r, ts, pos)
    decreases |ts| - pos, 9
  {
    if depth + 1 > max then Failure(RecursionLimit, pos) else ParseLevel(ts, pos, depth + 1, max, OrLevel)
  }

  function LevelRank(level: Level): nat {
    match level
    case OrLevel => 8
    case AndLevel => 7
    case AddLevel => 4
    case MulLevel => 3
  }

  function ParseLevel(ts: seq<Token>, pos: nat, depth: nat, max: nat, level: Level): (r: Parsed)
    requires Ended(ts) && pos < |ts|
    ensures Moved(r, ts, pos)
    decreases |ts| - pos, LevelRank(level)
  {
    var first := ParseOperand(ts, pos, depth, max, level);
    if first.Failure? then first else ParseRest(ts, first.pos, depth, max, level, first.value)
  }

  /** The operands of a level's loop. */
  function ParseOperand(ts: seq<Token>, pos: nat, depth: nat, max: nat, level: Level): (r: Parsed)
    requires Ended(ts) && pos < |ts|
    ensures Moved(r, ts, pos)
    decreases |ts| - pos, LevelRank(level), 0
  {
    match level
    case OrLevel => ParseLevel(ts, pos, depth, max, AndLevel)
    case AndLevel => ParseNot(ts, pos, depth, max)
    case AddLevel => ParseLevel(ts, pos, depth, max, MulLevel)
    case MulLevel => ParseUnary(ts, pos, depth, max)
  }

  function ParseRest(ts: seq<Token>, pos: nat, depth: nat, max: nat, level: Level, left: Expr): (r: Parsed)
    requires Ended(ts) && pos < |ts|
    ensures r.pos < |ts| && pos <= r.pos
    decreases |ts| - pos, LevelRank(level), 1
  {
    var op := Operator(level, ts[pos].kind);
    if op.None? then Success(left, pos)
    else
      var right := ParseOperand(ts, pos + 1, depth, max, level);
      if right.Failure? then right
      else ParseRest(ts, right.pos, depth, max, level, BinaryExpression(left, op.value, right.value))
  }

  function ParseNot(ts: seq<Token>, pos: nat, depth: nat, max: nat): (r: Parsed)
    requires Ended(ts) && pos < |ts|
    ensures Moved(r, ts, pos)
    decreases |ts| - pos, 6
  {
    if ts[pos].kind == NOT then
      var operand := ParseNot(ts, pos + 1, depth, max);
      if operand.Failure? then operand else Success(UnaryExpression(NotOp, operand.value), operand.pos)
    else ParseComparison(ts, pos, depth, max)
  }

  function ParseComparison(ts: seq<Token>, pos: nat, depth: nat, max: nat): (r: Parsed)
    requires Ended(ts) && pos < |ts|
    ensures Moved(r, ts, pos)
    decreases |ts| - pos, 5
  {
    var left := ParseLevel(ts, pos, depth, max, AddLevel);
    if left.Failure? then left else ParseComparisonTail(ts, left.pos, depth, max, left.value)
  }

  /** What may follow the left side of a comparison. */
  function ParseComparisonTail(ts: seq<Token>, pos: nat, depth: nat, max: nat, left: Expr): (r: Parsed)
    requires Ended(ts) && pos < |ts|
    ensures r.pos < |ts| && pos <= r.pos
    decreases |ts| - pos, 4
  {
    var kind := ts[pos].kind;
    var next := KindAt(ts, pos + 1);
    if Comparison(kind).Some? then ParseRight(ts, pos + 1, depth, max, left, Comparison(kind).value)
    else if kind == NOT && next == LIKE then ParseRight(ts, pos + 2, depth, max, left, NotLike)
    else if kind == IS then
      var negated := next == NOT;
      var at := if negated then pos + 2 else pos + 1;
      if ts[at].kind != NULL then Failure(Expected(NULL), at)
      else Success(NullTest(left, negated), at + 1)
    else ParseMembership(ts, pos, depth, max, left)
  }

  function ParseMembership(ts: seq<Token>, pos: nat, depth: nat, max: nat, left: Expr): (r: Parsed)
    requires Ended(ts) && pos < |ts|
    ensures r.pos < |ts| && pos <= r.pos
    decreases |ts| - pos, 3
  {
    var kind := ts[pos].kind;
    var next := KindAt(ts, pos + 1);
    if kind == NOT && next == IN then ParseIn(ts, pos + 2, depth, max, left, true)
    else if kind == NOT && next == BETWEEN then ParseBetween(ts, pos + 2, depth, max, left, true)
    else if kind == IN then ParseIn(ts, pos + 1, depth, max, left, false)
    else if kind == BETWEEN then ParseBetween(ts, pos + 1, depth, max, left, false)
    else Success(left, pos)
  }

  function ParseRight(ts: seq<Token>, pos: nat, depth: nat, max: nat, left: Expr, op: ComparisonOp): (r: Parsed)
    requires Ended(ts) && pos < |ts|
    ensures Moved(r, ts, pos)
    decreases |ts| - pos, 5
  {
    var right := ParseLevel(ts, pos, depth, max, AddLevel);
    if right.Failure? then right else Success(ComparisonExpression(left, op, right.value), right.pos)
  }

  function ParseIn(ts: seq<Token>, pos: nat, depth: nat, max: nat, left: Expr, negated: bool): (r: Parsed)
    requires Ended(ts) && pos < |ts|
    ensures Moved(r, ts, pos)
    decreases |ts| - pos, 5
  {
    if ts[pos].kind != LPAREN then Failure(Expected(LPAREN), pos)
    else
      var values := ParseList(ts, pos + 1, depth, max);
      if values.FailureList? then Failure(values.error, values.pos)
      else if ts[values.pos].kind != RPAREN then Failure(Expected(RPAREN), values.pos)
      else Success(InExpression(left, values.values, negated), values.pos + 1)
  }

  function ParseBetween(ts: seq<Token>, pos: nat, depth: nat, max: nat, left: Expr, negated: bool): (r: Parsed)
    requires Ended(ts) && pos < |ts|
    ensures Moved(r, ts, pos)
    decreases |ts| - pos, 5
  {
    var low := ParseLevel(ts, pos, depth, max, AddLevel);
    if low.Failure? then low
    else if ts[low.pos].kind != AND then Failure(Expected(AND), low.pos)
    else
      var high := ParseLevel(ts, low.pos + 1, depth, max, AddLevel);
      if high.Failure? then high else Success(BetweenExpression(left, low.value, high.value, negated), high.pos)
  }

  function ParseUnary(ts: seq<Token>, pos: nat, depth: nat, max: nat): (r: Parsed)
    requires Ended(ts) && pos < |ts|
    ensures Moved(r, ts, pos)
    decreases |ts| - pos, 2
  {
    if ts[pos].kind == MINUS || ts[pos].kind == PLUS then
      var operand := ParseUnary(ts, pos + 1, depth, max);
      if operand.Failure? then operand
      else Success(UnaryExpression(if ts[pos].kind == MINUS then Minus else Plus, operand.value), operand.pos)
    else ParsePrimary(ts, pos, depth, max)
  }

  function ParsePrimary(ts: seq<Token>, pos: nat, depth: nat, max: nat): (r: Parsed)
    requires Ended(ts) && pos < |ts|
    ensures Moved(r, ts, pos)
    decreases |ts| - pos, 1
  {
    var token := ts[pos];
    match token.kind
    case NULL => Success(NullLiteral, pos + 1)
    case TRUE => Success(BooleanLiteral(true), pos + 1)
    case FALSE => Success(BooleanLiteral(false), pos + 1)
    case INTEGER => if AllDigits(token.value) then Success(IntegerLiteral(TextValue(token.value)), pos + 1) else Failure(Unexpected, pos)
    case FLOAT => Success(FloatLiteral(token.value), pos + 1)
    case STRING => Success(StringLiteral(token.value), pos + 1)
    case QUESTION => Success(Parameter(None), pos + 1)
    case COLON =>
      if IsNameKind(ts[pos + 1].kind) then Success(Parameter(Some(ts[pos + 1].value)), pos + 2)
      else Failure(ExpectedIdentifier, pos + 1)
    case LPAREN =>
      if ts[pos + 1].kind == SELECT then Failure(Unmodelled, pos + 1)
      else
        var inner := ParseExpression(ts, pos + 1, depth, max);
        if inner.Failure? then inner
        else if ts[inner.pos].kind != RPAREN then Failure(Expected(RPAREN), inner.pos)
        else Success(inner.value, inner.pos + 1)
    case IDENTIFIER => ParseName(ts, pos + 1, depth, max, token.value)
    case QUOTED_IDENTIFIER => ParseName(ts, pos + 1, depth, max, token.value)
    case CASE => Failure(Unmodelled, pos)
    case CAST => Failure(Unmodelled, pos)
    case EXISTS => Failure(Unmodelled, pos)
    case _ => Failure(Unexpected, pos)
  }

  predicate IsNameKind(kind: Kind) { kind == IDENTIFIER || kind == QUOTED_IDENTIFIER }

  /** _parse_identifier_or_function, past the name. */
  function ParseName(ts: seq<Token>, pos: nat, depth: nat, max: nat, name: string): (r: Parsed)
    requires Ended(ts) && pos < |ts|
    ensures r.pos < |ts| && pos <= r.pos
    decreases |ts| - pos, 0
  {
    if ts[pos].kind == LPAREN then ParseArguments(ts, pos + 1, depth, max, name)
    else if ts[pos].kind == DOT then
      if IsNameKind(ts[pos + 1].kind) then Success(ColumnReference(Some(name), ts[pos + 1].value), pos + 2)
      else Failure(ExpectedIdentifier, pos + 1)
    else Success(ColumnReference(None, name), pos)
  }

  function ParseArguments(ts: seq<Token>, pos: nat, depth: nat, max: nat, name: string): (r: Parsed)
    requires Ended(ts) && pos < |ts|
    ensures Moved(r, ts, pos)
    decreases |ts| - pos, 11
  {
    var distinct := ts[pos].kind == DISTINCT;
    var at := if distinct then pos + 1 else pos;
    if ts[at].kind == RPAREN then Success(FunctionCall(name, Listed([]), distinct), at + 1)
    else if ts[at].kind == STAR then
      if ts[at + 1].kind == RPAREN then Success(FunctionCall(name, AllColumns, distinct), at + 2)
      else Failure(Expected(RPAREN), at + 1)
    else
      var arguments := ParseList(ts, at, depth, max);
      if arguments.FailureList? then Failure(arguments.error, arguments.pos)
      else if ts[arguments.pos].kind != RPAREN then Failure(Expected(RPAREN), arguments.pos)
      else Success(FunctionCall(name, Listed(arguments.values), distinct), arguments.pos + 1)
  }

  /** _parse_expression_list: one expression, then one more after each comma. */
  function ParseList(ts: seq<Token>, pos: nat, depth: nat, max: nat): (r: ParsedList)
    requires Ended(ts) && pos < |ts|
    ensures MovedList(r, ts, pos)
    decreases |ts| - pos, 10
  {
    var first := ParseExpression(ts, pos, depth, max);
    if first.Failure? then FailureList(first.error, first.pos)
    else ParseMore(ts, first.pos, depth, max, [first.value])
  }

  function ParseMore(ts: seq<Token>, pos: nat, depth: nat, max: nat, before: seq<Expr>): (r: ParsedList)
    requires Ended(ts) && pos < |ts|
    ensures r.pos < |ts| && pos <= r.pos
    decreases |ts| - pos, 10
  {
    if ts[pos].kind != COMMA then SuccessList(before, pos)
    else
      var next := ParseExpression(ts, pos + 1, depth, max);
      if next.Failure? then FailureList(next.error, next.pos)
      else ParseMore(ts, next.pos, depth, max, before + [next.value])
  }
}
