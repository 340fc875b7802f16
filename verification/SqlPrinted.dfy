// A printed expression as the tokens it is made of, and lexing it back into them.
module SqlPrinted {
  import opened Wrappers
  import opened Decimal
  import opened SqlLexer
  import opened SqlAst

  /** A token of a printed expression: how it is written, whether a blank comes before it, and what
      the lexer should make of it. */
  datatype Piece = Piece(spaced: bool, text: string, kind: Kind, value: string)

  function Mark(text: string, kind: Kind): Piece { Piece(false, text, kind, text) }

  function Gap(text: string, kind: Kind): Piece { Piece(true, text, kind, text) }

  function Spaced(ps: seq<Piece>): (qs: seq<Piece>)
    requires ps != []
    ensures |qs| == |ps|
  {
    [ps[0].(spaced := true)] + ps[1..]
  }

  const OPEN: Piece := Mark("(", LPAREN)
  const CLOSE: Piece := Mark(")", RPAREN)

  function BinaryKind(op: BinaryOp): Kind {
    match op
    case Add => PLUS
    case Sub => MINUS
    case Mul => STAR
    case Div => SLASH
    case Mod => PERCENT
    case AndOp => AND
    case OrOp => OR
    case Concat => CONCAT
  }

  function UnaryKind(op: UnaryOp): Kind {
    match op
    case NotOp => NOT
    case Minus => MINUS
    case Plus => PLUS
  }

  function ComparisonPieces(op: ComparisonOp): seq<Piece> {
    match op
    case Eq => [Gap("=", EQ)]
    case Ne => [Gap("!=", NE)]
    case Lt => [Gap("<", LT)]
    case Le => [Gap("<=", LE)]
    case Gt => [Gap(">", GT)]
    case Ge => [Gap(">=", GE)]
    case Like => [Gap("LIKE", LIKE)]
    case NotLike => [Gap("NOT", NOT), Gap("LIKE", LIKE)]
  }

  function NotPiece(negated: bool): seq<Piece> { if negated then [Gap("NOT", NOT)] else [] }

  function Pieces(e: Expr): (ps: seq<Piece>)
    ensures ps != []
    decreases e, 0
  {
    match e
    case NullLiteral => [Mark("NULL", NULL)]
    case BooleanLiteral(b) => [if b then Mark("TRUE", TRUE) else Mark("FALSE", FALSE)]
    case IntegerLiteral(n) => [Mark(IntText(n), INTEGER)]
    case FloatLiteral(text) => [Mark(text, FLOAT)]
    case StringLiteral(s) => [Piece(false, "'" + s + "'", STRING, s)]
    case Parameter(name) => [Mark(if name.Some? && name.value != "" then "$" + name.value else "?", QUESTION)]
    case ColumnReference(table, column) =>
      if table.Some? && table.value != "" then [Mark(table.value, IDENTIFIER)] + [Mark(".", DOT)] + [Mark(column, IDENTIFIER)]
      else [Mark(column, IDENTIFIER)]
    case BinaryExpression(left, op, right) =>
      [OPEN] + Pieces(left) + [Gap(BinaryText(op), BinaryKind(op))] + Spaced(Pieces(right)) + [CLOSE]
    case UnaryExpression(op, operand) =>
      [OPEN] + [Mark(UnaryText(op), UnaryKind(op))] + Spaced(Pieces(operand)) + [CLOSE]
    case ComparisonExpression(left, op, right) =>
      [OPEN] + Pieces(left) + ComparisonPieces(op) + Spaced(Pieces(right)) + [CLOSE]
    case NullTest(operand, negated) =>
      [OPEN] + Pieces(operand) + [Gap("IS", IS)] + NotPiece(negated) + [Gap("NULL", NULL)] + [CLOSE]
    case InExpression(operand, values, negated) =>
      [OPEN] + Pieces(operand) + NotPiece(negated) + [Gap("IN", IN)] + [Gap("(", LPAREN)] + ListPieces(values) + [CLOSE] + [CLOSE]
    case BetweenExpression(operand, low, high, negated) =>
      [OPEN] + Pieces(operand) + NotPiece(negated) + [Gap("BETWEEN", BETWEEN)] + Spaced(Pieces(low))
      + [Gap("AND", AND)] + Spaced(Pieces(high)) + [CLOSE]
    case FunctionCall(name, arguments, distinct) =>
      var inner := match arguments
        case AllColumns => [Mark("*", STAR)]
        case Listed(es) => ListPieces(es);
      if distinct then [Mark(name, IDENTIFIER)] + [OPEN] + [Mark("DISTINCT", DISTINCT)] + Spaced(inner + [CLOSE])
      else [Mark(name, IDENTIFIER)] + [OPEN] + inner + [CLOSE]
  }

  function ListPieces(es: seq<Expr>): seq<Piece>
    decreases es, 1
  {
    if es == [] then []
    else if |es| == 1 then Pieces(es[0])
    else Pieces(es[0]) + [Mark(",", COMMA)] + Spaced(ListPieces(es[1..]))
  }

  // ---- The pieces spell the printed form ----

  function ShowPiece(p: Piece): string { (if p.spaced then " " else "") + p.text }

  function Show(ps: seq<Piece>): string {
    if ps == [] then "" else ShowPiece(ps[0]) + Show(ps[1..])
  }

  lemma {:induction false} ShowConcat(a: seq<Piece>, b: seq<Piece>)
    ensures Show(a + b) == Show(a) + Show(b)
    decreases |a|
  {
    if a == [] {
      assert a + b == b;
    } else {
      assert (a + b)[1..] == a[1..] + b;
      ShowConcat(a[1..], b);
    }
  }

  lemma ShowOne(p: Piece)
    ensures Show([p]) == ShowPiece(p)
  {
    assert [p][1..] == [];
  }

  lemma Glue(x: string, a: string, b: string)
    ensures x + (a + b) == x + a + b
  {
  }

  lemma ShowMark(a: seq<Piece>, text: string, kind: Kind)
    ensures Show(a + [Mark(text, kind)]) == Show(a) + text
  {
    ShowConcat(a, [Mark(text, kind)]);
    ShowOne(Mark(text, kind));
  }

  lemma ShowGap(a: seq<Piece>, text: string, kind: Kind)
    ensures Show(a + [Gap(text, kind)]) == Show(a) + " " + text
  {
    ShowConcat(a, [Gap(text, kind)]);
    ShowOne(Gap(text, kind));
    Glue(Show(a), " ", text);
  }

  lemma ShowThen(a: seq<Piece>, b: seq<Piece>)
    requires b != [] && !b[0].spaced
    ensures Show(a + Spaced(b)) == Show(a) + " " + Show(b)
  {
    ShowConcat(a, Spaced(b));
    ShowSpaced(b);
    Glue(Show(a), " ", Show(b));
  }

  lemma ShowSpaced(b: seq<Piece>)
    requires b != [] && !b[0].spaced
    ensures Show(Spaced(b)) == " " + Show(b)
  {
    var first, rest := b[0], b[1..];
    assert Spaced(b)[1..] == rest;
    assert ShowPiece(first) == first.text;
    Glue(" ", first.text, Show(rest));
  }

  /** An opening parenthesis and an operand. */
  lemma ShowOperand(a: seq<Piece>)
    ensures Show([OPEN] + a) == "(" + Show(a)
  {
    ShowConcat([OPEN], a);
    ShowOne(OPEN);
  }

  lemma ShowBinary(a: seq<Piece>, text: string, kind: Kind, b: seq<Piece>)
    requires b != [] && !b[0].spaced
    ensures Show([OPEN] + a + [Gap(text, kind)] + Spaced(b) + [CLOSE]) == "(" + Show(a) + " " + text + " " + Show(b) + ")"
  {
    hide Show, Spaced;
    ShowOperand(a);
    ShowGap([OPEN] + a, text, kind);
    ShowThen([OPEN] + a + [Gap(text, kind)], b);
    ShowMark([OPEN] + a + [Gap(text, kind)] + Spaced(b), ")", RPAREN);
  }

  lemma ShowOpen()
    ensures Show([OPEN]) == "("
  {
    ShowOne(OPEN);
  }

  lemma {:induction false} ShowUnary(text: string, kind: Kind, a: seq<Piece>)
    requires a != [] && !a[0].spaced
    ensures Show([OPEN] + [Mark(text, kind)] + Spaced(a) + [CLOSE]) == "(" + text + " " + Show(a) + ")"
  {
    hide Show, ShowPiece, Spaced;
    ShowOpen();
    ShowMark([OPEN], text, kind);
    ShowThen([OPEN] + [Mark(text, kind)], a);
    ShowMark([OPEN] + [Mark(text, kind)] + Spaced(a), ")", RPAREN);
  }

  lemma TwoWords(x: string, a: string, b: string)
    ensures x + " " + a + " " + b == x + " " + (a + " " + b)
  {
  }

  /** A connective with or without NOT before it. */
  lemma ShowNegated(a: seq<Piece>, negated: bool, text: string, kind: Kind)
    ensures Show(a + NotPiece(negated) + [Gap(text, kind)]) == Show(a) + " " + (if negated then "NOT" + " " + text else text)
  {
    hide Show;
    if negated {
      ShowGap(a, "NOT", NOT);
      ShowGap(a + [Gap("NOT", NOT)], text, kind);
      TwoWords(Show(a), "NOT", text);
    } else {
      assert a + [] == a;
      ShowGap(a, text, kind);
    }
  }

  lemma ShowComparison(a: seq<Piece>, op: ComparisonOp, b: seq<Piece>)
    requires b != [] && !b[0].spaced
    ensures Show([OPEN] + a + ComparisonPieces(op) + Spaced(b) + [CLOSE])
         == "(" + Show(a) + " " + ComparisonText(op) + " " + Show(b) + ")"
  {
    hide Show, Spaced;
    if op == NotLike {
      var start := [OPEN] + a;
      ShowOperand(a);
      ShowNegated(start, true, "LIKE", LIKE);
      assert start + ComparisonPieces(op) == start + NotPiece(true) + [Gap("LIKE", LIKE)];
      ShowThen(start + ComparisonPieces(op), b);
      ShowMark(start + ComparisonPieces(op) + Spaced(b), ")", RPAREN);
    } else {
      ShowBinary(a, ComparisonText(op), ComparisonPieces(op)[0].kind, b);
    }
  }

  lemma ShowTest(a: seq<Piece>, negated: bool)
    ensures Show([OPEN] + a + [Gap("IS", IS)] + NotPiece(negated) + [Gap("NULL", NULL)] + [CLOSE])
         == "(" + Show(a) + " " + (if negated then "IS NOT NULL" else "IS NULL") + ")"
  {
    hide Show;
    var start := [OPEN] + a + [Gap("IS", IS)];
    ShowOperand(a);
    ShowGap([OPEN] + a, "IS", IS);
    ShowNegated(start, negated, "NULL", NULL);
    TwoWords("(" + Show(a), "IS", if negated then "NOT NULL" else "NULL");
    ShowMark(start + NotPiece(negated) + [Gap("NULL", NULL)], ")", RPAREN);
  }

  lemma ShowIn(a: seq<Piece>, negated: bool, values: seq<Piece>)
    ensures Show([OPEN] + a + NotPiece(negated) + [Gap("IN", IN)] + [Gap("(", LPAREN)] + values + [CLOSE] + [CLOSE])
         == "(" + Show(a) + " " + (if negated then "NOT IN" else "IN") + " (" + Show(values) + "))"
  {
    hide Show, NotPiece;
    var start := [OPEN] + a + NotPiece(negated) + [Gap("IN", IN)];
    var prefix := start + [Gap("(", LPAREN)];
    ShowOperand(a);
    ShowNegated([OPEN] + a, negated, "IN", IN);
    ShowGap(start, "(", LPAREN);
    Glue(Show(start), " ", "(");
    ShowConcat(prefix, values);
    ShowMark(prefix + values, ")", RPAREN);
    ShowMark(prefix + values + [CLOSE], ")", RPAREN);
    Glue(Show(prefix + values), ")", ")");
  }

  lemma {:induction false} ShowBetween(a: seq<Piece>, negated: bool, low: seq<Piece>, high: seq<Piece>)
    requires low != [] && !low[0].spaced && high != [] && !high[0].spaced
    ensures Show([OPEN] + a + NotPiece(negated) + [Gap("BETWEEN", BETWEEN)] + Spaced(low) + [Gap("AND", AND)] + Spaced(high) + [CLOSE])
         == "(" + Show(a) + " " + (if negated then "NOT BETWEEN" else "BETWEEN") + " " + Show(low) + " AND " + Show(high) + ")"
  {
    hide Show, Spaced, NotPiece;
    var start := [OPEN] + a + NotPiece(negated) + [Gap("BETWEEN", BETWEEN)];
    ShowOperand(a);
    ShowNegated([OPEN] + a, negated, "BETWEEN", BETWEEN);
    ShowThen(start, low);
    ShowGap(start + Spaced(low), "AND", AND);
    ShowThen(start + Spaced(low) + [Gap("AND", AND)], high);
    AndWord(Show(start + Spaced(low)), Show(high));
    ShowMark(start + Spaced(low) + [Gap("AND", AND)] + Spaced(high), ")", RPAREN);
  }

  lemma AndWord(x: string, y: string)
    ensures x + " " + "AND" + " " + y == x + " AND " + y
  {
  }

  lemma {:induction false} ShowCall(name: string, inner: seq<Piece>, distinct: bool)
    requires inner != [] ==> !inner[0].spaced
    ensures Show(if distinct then [Mark(name, IDENTIFIER)] + [OPEN] + [Mark("DISTINCT", DISTINCT)] + Spaced(inner + [CLOSE])
                 else [Mark(name, IDENTIFIER)] + [OPEN] + inner + [CLOSE])
         == name + "(" + (if distinct then "DISTINCT " else "") + Show(inner) + ")"
  {
    hide Show, Spaced;
    var start := [Mark(name, IDENTIFIER)] + [OPEN];
    ShowOne(Mark(name, IDENTIFIER));
    ShowMark([Mark(name, IDENTIFIER)], "(", LPAREN);
    if distinct {
      ShowMark(start, "DISTINCT", DISTINCT);
      ShowThen(start + [Mark("DISTINCT", DISTINCT)], inner + [CLOSE]);
      ShowMark(inner, ")", RPAREN);
      DistinctWord(Show(start), Show(inner));
    } else {
      ShowConcat(start, inner);
      ShowMark(start + inner, ")", RPAREN);
    }
  }

  lemma DistinctWord(x: string, y: string)
    ensures x + "DISTINCT" + " " + (y + ")") == x + "DISTINCT " + y + ")"
  {
  }

  lemma ShowQualified(table: string, column: string)
    ensures Show([Mark(table, IDENTIFIER)] + [Mark(".", DOT)] + [Mark(column, IDENTIFIER)]) == table + "." + column
  {
    hide Show;
    ShowOne(Mark(table, IDENTIFIER));
    ShowMark([Mark(table, IDENTIFIER)], ".", DOT);
    ShowMark([Mark(table, IDENTIFIER)] + [Mark(".", DOT)], column, IDENTIFIER);
  }

  /** The pieces of an expression, written one after the other, are its printed form. */
  lemma {:induction false} PiecesSpellPrint(e: Expr)
    ensures Show(Pieces(e)) == Print(e) && !Pieces(e)[0].spaced
    decreases e, 0
  {
    hide Show, Spaced, NotPiece, ComparisonPieces, BinaryText, UnaryText, ComparisonText, BinaryKind, UnaryKind;
    match e
    case BinaryExpression(left, op, right) =>
      PiecesSpellPrint(left);
      PiecesSpellPrint(right);
      ShowBinary(Pieces(left), BinaryText(op), BinaryKind(op), Pieces(right));
    case UnaryExpression(op, operand) =>
      PiecesSpellPrint(operand);
      ShowUnary(UnaryText(op), UnaryKind(op), Pieces(operand));
    case ComparisonExpression(left, op, right) =>
      PiecesSpellPrint(left);
      PiecesSpellPrint(right);
      ShowComparison(Pieces(left), op, Pieces(right));
    case NullTest(operand, negated) =>
      PiecesSpellPrint(operand);
      ShowTest(Pieces(operand), negated);
    case InExpression(operand, values, negated) =>
      PiecesSpellPrint(operand);
      ListSpellsPrint(values);
      ShowIn(Pieces(operand), negated, ListPieces(values));
    case BetweenExpression(operand, low, high, negated) =>
      PiecesSpellPrint(operand);
      PiecesSpellPrint(low);
      PiecesSpellPrint(high);
      ShowBetween(Pieces(operand), negated, Pieces(low), Pieces(high));
    case FunctionCall(name, Listed(es), distinct) =>
      ListSpellsPrint(es);
      ShowCall(name, ListPieces(es), distinct);
    case FunctionCall(name, AllColumns, distinct) =>
      ShowOne(Mark("*", STAR));
      ShowCall(name, [Mark("*", STAR)], distinct);
    case _ => LeafSpellsPrint(e);
  }

  predicate IsLeaf(e: Expr) {
    e.NullLiteral? || e.BooleanLiteral? || e.IntegerLiteral? || e.FloatLiteral? || e.StringLiteral? || e.Parameter? || e.ColumnReference?
  }

  lemma LeafSpellsPrint(e: Expr)
    requires IsLeaf(e)
    ensures Show(Pieces(e)) == Print(e) && !Pieces(e)[0].spaced
  {
    hide Show;
    if e.ColumnReference? {
      ShowOne(Mark(e.column, IDENTIFIER));
      if e.table.Some? { ShowQualified(e.table.value, e.column); }
    } else {
      ShowOne(Pieces(e)[0]);
    }
  }

  lemma {:induction false} ListSpellsPrint(es: seq<Expr>)
    ensures Show(ListPieces(es)) == PrintAll(es)
    ensures es != [] ==> ListPieces(es) != [] && !ListPieces(es)[0].spaced
    decreases es, 1
  {
    if es != [] {
      PiecesSpellPrint(es[0]);
      if |es| > 1 {
        ListSpellsPrint(es[1..]);
        ShowMark(Pieces(es[0]), ",", COMMA);
        ShowThen(Pieces(es[0]) + [Mark(",", COMMA)], ListPieces(es[1..]));
        CommaBlank(Print(es[0]), PrintAll(es[1..]));
      }
    }
  }

  lemma CommaBlank(x: string, y: string)
    ensures x + "," + " " + y == x + ", " + y
  {
  }
}
