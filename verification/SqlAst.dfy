// SQL expressions and their printed form.
module SqlAst {
  import opened Wrappers
  import opened Decimal

  datatype BinaryOp = Add | Sub | Mul | Div | Mod | AndOp | OrOp | Concat

  datatype UnaryOp = NotOp | Minus | Plus

  /** The operators the parser builds comparisons with. */
  datatype ComparisonOp = Eq | Ne | Lt | Le | Gt | Ge | Like | NotLike

  /** A float literal is known by its text. */
  datatype Expr =
    | NullLiteral
    | BooleanLiteral(b: bool)
    | IntegerLiteral(n: int)
    | FloatLiteral(text: string)
    | StringLiteral(s: string)
    | Parameter(name: Option<string>)
    | ColumnReference(table: Option<string>, column: string)
    | BinaryExpression(left: Expr, operator: BinaryOp, right: Expr)
    | UnaryExpression(sign: UnaryOp, operand: Expr)
    | ComparisonExpression(left: Expr, comparison: ComparisonOp, right: Expr)
    | NullTest(operand: Expr, negated: bool)
    | InExpression(operand: Expr, values: seq<Expr>, negated: bool)
    | BetweenExpression(operand: Expr, low: Expr, high: Expr, negated: bool)
    | FunctionCall(function_: string, arguments: Arguments, distinct: bool)

  datatype Arguments = AllColumns | Listed(es: seq<Expr>)

  function BinaryText(op: BinaryOp): string {
    match op
    case Add => "+"
    case Sub => "-"
    case Mul => "*"
    case Div => "/"
    case Mod => "%"
    case AndOp => "AND"
    case OrOp => "OR"
    case Concat => "||"
  }

  function UnaryText(op: UnaryOp): string {
    match op
    case NotOp => "NOT"
    case Minus => "-"
    case Plus => "+"
  }

  function ComparisonText(op: ComparisonOp): string {
    match op
    case Eq => "="
    case Ne => "!="
    case Lt => "<"
    case Le => "<="
    case Gt => ">"
    case Ge => ">="
    case Like => "LIKE"
    case NotLike => "NOT LIKE"
  }

  /** __repr__. */
  function Print(e: Expr): string
    decreases e, 0
  {
    match e
    case NullLiteral => "NULL"
    case BooleanLiteral(b) => if b then "TRUE" else "FALSE"
    case IntegerLiteral(n) => IntText(n)
    case FloatLiteral(text) => text
    case StringLiteral(s) => "'" + s + "'"
    case Parameter(name) => if name.Some? && name.value != "" then "$" + name.value else "?"
    case ColumnReference(table, column) => if table.Some? && table.value != "" then table.value + "." + column else column
    case BinaryExpression(left, op, right) => "(" + Print(left) + " " + BinaryText(op) + " " + Print(right) + ")"
    case UnaryExpression(op, operand) => "(" + UnaryText(op) + " " + Print(operand) + ")"
    case ComparisonExpression(left, op, right) => "(" + Print(left) + " " + ComparisonText(op) + " " + Print(right) + ")"
    case NullTest(operand, negated) => "(" + Print(operand) + " " + (if negated then "IS NOT NULL" else "IS NULL") + ")"
    case InExpression(operand, values, negated) =>
      "(" + Print(operand) + " " + (if negated then "NOT IN" else "IN") + " (" + PrintAll(values) + "))"
    case BetweenExpression(operand, low, high, negated) =>
      "(" + Print(operand) + " " + (if negated then "NOT BETWEEN" else "BETWEEN") + " " + Print(low) + " AND " + Print(high) + ")"
    case FunctionCall(name, arguments, distinct) =>
      name + "(" + (if distinct then "DISTINCT " else "") +
      (match arguments
       case AllColumns => "*"
       case Listed(es) => PrintAll(es)) + ")"
  }

  function PrintAll(es: seq<Expr>): string
    decreases es, 1
  {
    if es == [] then ""
    else if |es| == 1 then Print(es[0])
    else Print(es[0]) + ", " + PrintAll(es[1..])
  }

  /** How many more expressions the parser enters, below the one it is in, to read the printed form:
      one per parenthesis, one per list element. */
  function Nesting(e: Expr): nat
    decreases e, 0
  {
    match e
    case BinaryExpression(left, _, right) => 1 + Larger(Nesting(left), Nesting(right))
    case UnaryExpression(_, operand) => 1 + Nesting(operand)
    case ComparisonExpression(left, _, right) => 1 + Larger(Nesting(left), Nesting(right))
    case NullTest(operand, _) => 1 + Nesting(operand)
    case InExpression(operand, values, _) => 1 + Larger(Nesting(operand), ListNesting(values))
    case BetweenExpression(operand, low, high, _) => 1 + Larger(Nesting(operand), Larger(Nesting(low), Nesting(high)))
    case FunctionCall(_, Listed(es), _) => ListNesting(es)
    case _ => 0
  }

  function ListNesting(es: seq<Expr>): nat
    decreases es, 1
  {
    if es == [] then 0 else Larger(1 + Nesting(es[0]), ListNesting(es[1..]))
  }

  function Larger(a: nat, b: nat): nat { if a < b then b else a }
}
