// The Parser class, proved against the grammar.
module SqlParserClass {
  import opened Wrappers
  import opened Decimal
  import opened SqlLexer
  import opened SqlAst
  import opened SqlParser

  function Outcome(p: Parsed): Result<Expr, ParseError> {
    if p.Success? then Ok(p.value) else Err(p.error)
  }

  function ListOutcome(p: ParsedList): Result<seq<Expr>, ParseError> {
    if p.SuccessList? then Ok(p.values) else Err(p.error)
  }

  /** Leaving an expression lowers the depth again, even on an error.  Only the entry that finds the
      limit exceeded is never left: it has raised the depth before raising the error. */
  function DepthAfter<T>(r: Result<T, ParseError>, depth: nat): nat {
    if r.Err? && r.error.RecursionLimit? then depth + 1 else depth
  }

  class Parser {
    const tokens: seq<Token>
    const maxDepth: nat
    var pos: nat
    var currentDepth: nat

    ghost predicate Valid()
      reads this
    {
      Ended(tokens) && pos < |tokens|
    }

    /** The parser is as the grammar says: position, depth and result. */
    ghost predicate Gives(r: Result<Expr, ParseError>, p: Parsed, depth: nat)
      reads this
    {
      pos == p.pos && r == Outcome(p) && currentDepth == DepthAfter(r, depth)
    }

    ghost predicate GivesList(r: Result<seq<Expr>, ParseError>, p: ParsedList, depth: nat)
      reads this
    {
      pos == p.pos && r == ListOutcome(p) && currentDepth == DepthAfter(r, depth)
    }

    constructor (tokens: seq<Token>, maxDepth: nat)
      requires Ended(tokens)
      ensures Valid() && this.tokens == tokens && this.maxDepth == maxDepth && pos == 0 && currentDepth == 0
    {
      this.tokens, this.maxDepth, pos, currentDepth := tokens, maxDepth, 0, 0;
    }

    method Advance() returns (token: Token)
      requires Valid()
      modifies this`pos
      ensures Valid() && token == tokens[old(pos)]
      ensures pos == old(pos) + if token.kind == EOF then 0 else 1
    {
      token := tokens[pos];
      if token.kind != EOF { pos := pos + 1; }
    }

    method Match(kind: Kind) returns (found: bool)
      requires Valid() && kind != EOF
      modifies this`pos
      ensures Valid() && found == (tokens[old(pos)].kind == kind)
      ensures pos == old(pos) + if found then 1 else 0
    {
      found := tokens[pos].kind == kind;
      if found { var _ := Advance(); }
    }

    method Expect(kind: Kind) returns (r: Result<Token, ParseError>)
      requires Valid() && kind != EOF
      modifies this`pos
      ensures Valid()
      ensures if tokens[old(pos)].kind == kind then r == Ok(tokens[old(pos)]) && pos == old(pos) + 1
              else r == Err(Expected(kind)) && pos == old(pos)
    {
      if tokens[pos].kind != kind {
        return Err(Expected(kind));
      }
      var token := Advance();
      r := Ok(token);
    }

    method ExpectIdentifier() returns (r: Result<Token, ParseError>)
      requires Valid()
      modifies this`pos
      ensures Valid()
      ensures if IsNameKind(tokens[old(pos)].kind) then r == Ok(tokens[old(pos)]) && pos == old(pos) + 1
              else r == Err(ExpectedIdentifier) && pos == old(pos)
    {
      if !IsNameKind(tokens[pos].kind) {
        return Err(ExpectedIdentifier);
      }
      var token := Advance();
      r := Ok(token);
    }

    method ParseExpression() returns (r: Result<Expr, ParseError>)
      requires Valid()
      modifies this
      ensures Valid() && Gives(r, SqlParser.ParseExpression(tokens, old(pos), old(currentDepth), maxDepth), old(currentDepth))
      decreases |tokens| - pos, 9
    {
      currentDepth := currentDepth + 1;
      if currentDepth > maxDepth {
        return Err(RecursionLimit);
      }
      r := ParseOrExpression();
      currentDepth := currentDepth - 1;
    }

    method ParseOrExpression() returns (r: Result<Expr, ParseError>)
      requires Valid()
      modifies this
      ensures Valid() && Gives(r, ParseLevel(tokens, old(pos), old(currentDepth), maxDepth, OrLevel), old(currentDepth))
      decreases |tokens| - pos, 8
    {
      var left :- ParseAndExpression();
      while true
        invariant Valid() && old(pos) < pos && currentDepth == old(currentDepth)
        invariant ParseRest(tokens, pos, currentDepth, maxDepth, OrLevel, left)
               == ParseLevel(tokens, old(pos), old(currentDepth), maxDepth, OrLevel)
        decreases |tokens| - pos
      {
        var more := Match(OR);
        if !more { break; }
        var right :- ParseAndExpression();
        left := BinaryExpression(left, OrOp, right);
      }
      r := Ok(left);
    }

    method ParseAndExpression() returns (r: Result<Expr, ParseError>)
      requires Valid()
      modifies this
      ensures Valid() && Gives(r, ParseLevel(tokens, old(pos), old(currentDepth), maxDepth, AndLevel), old(currentDepth))
      decreases |tokens| - pos, 7
    {
      hide ParseNot;
      var left :- ParseNotExpression();
      while true
        invariant Valid() && old(pos) < pos && currentDepth == old(currentDepth)
        invariant ParseRest(tokens, pos, currentDepth, maxDepth, AndLevel, left)
               == ParseLevel(tokens, old(pos), old(currentDepth), maxDepth, AndLevel)
        decreases |tokens| - pos
      {
        var more := Match(AND);
        if !more { break; }
        var right :- ParseNotExpression();
        left := BinaryExpression(left, AndOp, right);
      }
      r := Ok(left);
    }

    method ParseNotExpression() returns (r: Result<Expr, ParseError>)
      requires Valid()
      modifies this
      ensures Valid() && Gives(r, ParseNot(tokens, old(pos), old(currentDepth), maxDepth), old(currentDepth))
      decreases |tokens| - pos, 6
    {
      hide ParseComparison;
      var negated := Match(NOT);
      if negated {
        var operand :- ParseNotExpression();
        return Ok(UnaryExpression(NotOp, operand));
      }
      r := ParseComparisonExpression();
    }

    method ParseComparisonExpression() returns (r: Result<Expr, ParseError>)
      requires Valid()
      modifies this
      ensures Valid() && Gives(r, ParseComparison(tokens, old(pos), old(currentDepth), maxDepth), old(currentDepth))
      decreases |tokens| - pos, 5
    {
      hide ParseLevel, ParseComparisonTail;
      var left :- ParseAdditiveExpression();
      r := ParseComparisonRest(left);
    }

    method ParseComparisonRest(left: Expr) returns (r: Result<Expr, ParseError>)
      requires Valid()
      modifies this
      ensures Valid() && Gives(r, ParseComparisonTail(tokens, old(pos), old(currentDepth), maxDepth, left), old(currentDepth))
      decreases |tokens| - pos, 4
    {
      hide ParseRight, ParseMembership;
      var kind := tokens[pos].kind;
      var next := KindAt(tokens, pos + 1);
      if Comparison(kind).Some? {
        var _ := Advance();
        r := ParseRightSide(left, Comparison(kind).value);
        return;
      }
      if kind == NOT && next == LIKE {
        var _ := Advance();
        var _ := Advance();
        r := ParseRightSide(left, NotLike);
        return;
      }
      var isTest := Match(IS);
      if isTest {
        var negated := Match(NOT);
        var _ :- Expect(NULL);
        return Ok(NullTest(left, negated));
      }
      r := ParseMembershipTest(left);
    }

    method ParseMembershipTest(left: Expr) returns (r: Result<Expr, ParseError>)
      requires Valid()
      modifies this
      ensures Valid() && Gives(r, ParseMembership(tokens, old(pos), old(currentDepth), maxDepth, left), old(currentDepth))
      decreases |tokens| - pos, 3
    {
      hide ParseIn, ParseBetween;
      var kind := tokens[pos].kind;
      var next := KindAt(tokens, pos + 1);
      if kind == NOT && (next == IN || next == BETWEEN) {
        var _ := Advance();
        var inList := Match(IN);
        if inList {
          r := ParseInExpression(left, true);
          return;
        }
        var _ := Match(BETWEEN);
        r := ParseBetweenExpression(left, true);
        return;
      }
      var inList := Match(IN);
      if inList {
        r := ParseInExpression(left, false);
        return;
      }
      var between := Match(BETWEEN);
      if between {
        r := ParseBetweenExpression(left, false);
        return;
      }
      r := Ok(left);
    }

    method ParseRightSide(left: Expr, op: ComparisonOp) returns (r: Result<Expr, ParseError>)
      requires Valid()
      modifies this
      ensures Valid() && Gives(r, ParseRight(tokens, old(pos), old(currentDepth), maxDepth, left, op), old(currentDepth))
      decreases |tokens| - pos, 5
    {
      hide ParseLevel;
      var right :- ParseAdditiveExpression();
      r := Ok(ComparisonExpression(left, op, right));
    }

    method ParseInExpression(left: Expr, negated: bool) returns (r: Result<Expr, ParseError>)
      requires Valid()
      modifies this
      ensures Valid() && Gives(r, ParseIn(tokens, old(pos), old(currentDepth), maxDepth, left, negated), old(currentDepth))
      decreases |tokens| - pos, 5
    {
      hide ParseList;
      var _ :- Expect(LPAREN);
      var values :- ParseExpressionList();
      var _ :- Expect(RPAREN);
      r := Ok(InExpression(left, values, negated));
    }

    method ParseBetweenExpression(left: Expr, negated: bool) returns (r: Result<Expr, ParseError>)
      requires Valid()
      modifies this
      ensures Valid() && Gives(r, ParseBetween(tokens, old(pos), old(currentDepth), maxDepth, left, negated), old(currentDepth))
      decreases |tokens| - pos, 5
    {
      hide ParseLevel;
      var low :- ParseAdditiveExpression();
      var _ :- Expect(AND);
      var high :- ParseAdditiveExpression();
      r := Ok(BetweenExpression(left, low, high, negated));
    }

    method ParseAdditiveExpression() returns (r: Result<Expr, ParseError>)
      requires Valid()
      modifies this
      ensures Valid() && Gives(r, ParseLevel(tokens, old(pos), old(currentDepth), maxDepth, AddLevel), old(currentDepth))
      decreases |tokens| - pos, 4
    {
      var left :- ParseMultiplicativeExpression();
      while true
        invariant Valid() && old(pos) < pos && currentDepth == old(currentDepth)
        invariant ParseRest(tokens, pos, currentDepth, maxDepth, AddLevel, left)
               == ParseLevel(tokens, old(pos), old(currentDepth), maxDepth, AddLevel)
        decreases |tokens| - pos
      {
        var op := Operator(AddLevel, tokens[pos].kind);
        if op.None? { break; }
        var _ := Advance();
        var right :- ParseMultiplicativeExpression();
        left := BinaryExpression(left, op.value, right);
      }
      r := Ok(left);
    }

    method ParseMultiplicativeExpression() returns (r: Result<Expr, ParseError>)
      requires Valid()
      modifies this
      ensures Valid() && Gives(r, ParseLevel(tokens, old(pos), old(currentDepth), maxDepth, MulLevel), old(currentDepth))
      decreases |tokens| - pos, 3
    {
      hide ParseUnary;
      var left :- ParseUnaryExpression();
      while true
        invariant Valid() && old(pos) < pos && currentDepth == old(currentDepth)
        invariant ParseRest(tokens, pos, currentDepth, maxDepth, MulLevel, left)
               == ParseLevel(tokens, old(pos), old(currentDepth), maxDepth, MulLevel)
        decreases |tokens| - pos
      {
        var op := Operator(MulLevel, tokens[pos].kind);
        if op.None? { break; }
        var _ := Advance();
        var right :- ParseUnaryExpression();
        left := BinaryExpression(left, op.value, right);
      }
      r := Ok(left);
    }

    method ParseUnaryExpression() returns (r: Result<Expr, ParseError>)
      requires Valid()
      modifies this
      ensures Valid() && Gives(r, ParseUnary(tokens, old(pos), old(currentDepth), maxDepth), old(currentDepth))
      decreases |tokens| - pos, 2
    {
      hide ParsePrimary;
      var minus := Match(MINUS);
      if minus {
        var operand :- ParseUnaryExpression();
        return Ok(UnaryExpression(Minus, operand));
      }
      var plus := Match(PLUS);
      if plus {
        var operand :- ParseUnaryExpression();
        return Ok(UnaryExpression(Plus, operand));
      }
      r := ParsePrimaryExpression();
    }

    method ParsePrimaryExpression() returns (r: Result<Expr, ParseError>)
      requires Valid()
      modifies this
      ensures Valid() && Gives(r, ParsePrimary(tokens, old(pos), old(currentDepth), maxDepth), old(currentDepth))
      decreases |tokens| - pos, 1
    {
      hide SqlParser.ParseExpression, ParseName;
      var token := tokens[pos];
      match token.kind {
        case NULL => var _ := Advance(); r := Ok(NullLiteral);
        case TRUE => var _ := Advance(); r := Ok(BooleanLiteral(true));
        case FALSE => var _ := Advance(); r := Ok(BooleanLiteral(false));
        case INTEGER =>
          if !AllDigits(token.value) {
            return Err(Unexpected);
          }
          var _ := Advance();
          r := Ok(IntegerLiteral(TextValue(token.value)));
        case FLOAT => var _ := Advance(); r := Ok(FloatLiteral(token.value));
        case STRING => var _ := Advance(); r := Ok(StringLiteral(token.value));
        case QUESTION => var _ := Advance(); r := Ok(Parameter(None));
        case COLON =>
          var _ := Advance();
          var name :- ExpectIdentifier();
          r := Ok(Parameter(Some(name.value)));
        case LPAREN =>
          var _ := Advance();
          if tokens[pos].kind == SELECT {
            return Err(Unmodelled);
          }
          var inner :- ParseExpression();
          var _ :- Expect(RPAREN);
          r := Ok(inner);
        case IDENTIFIER => r := ParseIdentifierOrFunction();
        case QUOTED_IDENTIFIER => r := ParseIdentifierOrFunction();
        case CASE => r := Err(Unmodelled);
        case CAST => r := Err(Unmodelled);
        case EXISTS => r := Err(Unmodelled);
        case _ => r := Err(Unexpected);
      }
    }

    method ParseIdentifierOrFunction() returns (r: Result<Expr, ParseError>)
      requires Valid() && IsNameKind(tokens[pos].kind)
      modifies this
      ensures Valid()
      ensures Gives(r, ParseName(tokens, old(pos) + 1, old(currentDepth), maxDepth, tokens[old(pos)].value), old(currentDepth))
      decreases |tokens| - pos, 0
    {
      hide ParseArguments;
      var name := Advance();
      var call := Match(LPAREN);
      if call {
        r := ParseFunctionCall(name.value);
        return;
      }
      var qualified := Match(DOT);
      if qualified {
        var column :- ExpectIdentifier();
        return Ok(ColumnReference(Some(name.value), column.value));
      }
      r := Ok(ColumnReference(None, name.value));
    }

    method ParseFunctionCall(name: string) returns (r: Result<Expr, ParseError>)
      requires Valid()
      modifies this
      ensures Valid() && Gives(r, ParseArguments(tokens, old(pos), old(currentDepth), maxDepth, name), old(currentDepth))
      decreases |tokens| - pos, 11
    {
      hide ParseList;
      var distinct := Match(DISTINCT);
      var empty := Match(RPAREN);
      if empty {
        return Ok(FunctionCall(name, Listed([]), distinct));
      }
      var star := Match(STAR);
      if star {
        var _ :- Expect(RPAREN);
        return Ok(FunctionCall(name, AllColumns, distinct));
      }
      var arguments :- ParseExpressionList();
      var _ :- Expect(RPAREN);
      r := Ok(FunctionCall(name, Listed(arguments), distinct));
    }

    method ParseExpressionList() returns (r: Result<seq<Expr>, ParseError>)
      requires Valid()
      modifies this
      ensures Valid() && GivesList(r, ParseList(tokens, old(pos), old(currentDepth), maxDepth), old(currentDepth))
      decreases |tokens| - pos, 10
    {
      var first :- ParseExpression();
      var expressions := [first];
      while true
        invariant Valid() && old(pos) < pos && currentDepth == old(currentDepth)
        invariant ParseMore(tokens, pos, currentDepth, maxDepth, expressions)
               == ParseList(tokens, old(pos), old(currentDepth), maxDepth)
        decreases |tokens| - pos
      {
        var more := Match(COMMA);
        if !more { break; }
        var next :- ParseExpression();
        expressions := expressions + [next];
      }
      r := Ok(expressions);
    }
  }

  datatype SqlError = InputTooLarge(size: nat, maxSize: nat)

  /** Parser.__init__: the size check, then the tokens. */
  method NewParser(sql: string, maxDepth: nat, maxSize: nat) returns (r: Result<Parser, SqlError>)
    ensures |sql| > maxSize ==> r == Err(InputTooLarge(|sql|, maxSize))
    ensures |sql| <= maxSize ==>
      r.Ok? && fresh(r.value) && r.value.Valid() && r.value.tokens == Tokenize(sql) &&
      r.value.maxDepth == maxDepth && r.value.pos == 0 && r.value.currentDepth == 0
  {
    if |sql| > maxSize {
      return Err(InputTooLarge(|sql|, maxSize));
    }
    var lexer := new Lexer(sql);
    var tokens := lexer.Tokenize();
    assert tokens == Tokenize(sql);
    var parser := new Parser(tokens, maxDepth);
    r := Ok(parser);
  }
}
