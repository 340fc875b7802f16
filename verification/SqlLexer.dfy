// The SQL lexer: what it reads, and the class that reads it.
module SqlLexer {
  import opened Wrappers
  import opened Decimal

  /** Token types; the keywords that expressions do not use are OTHER. */
  datatype Kind =
    | INTEGER | FLOAT | STRING | IDENTIFIER | QUOTED_IDENTIFIER
    | SELECT | AND | OR | NOT | IN | BETWEEN | LIKE | IS | NULL | TRUE | FALSE | DISTINCT | EXISTS | CASE | CAST
    | OTHER(word: string)
    | EQ | NE | LT | LE | GT | GE | PLUS | MINUS | STAR | SLASH | PERCENT | CONCAT
    | LPAREN | RPAREN | LBRACKET | RBRACKET | COMMA | DOT | SEMICOLON | COLON | QUESTION
    | EOF | ERROR

  datatype Token = Token(kind: Kind, value: string, line: int, column: int)

  const OTHER_KEYWORDS: set<string> := {
    "FROM", "WHERE", "AS", "ON", "USING", "JOIN", "INNER", "LEFT", "RIGHT", "FULL", "OUTER", "CROSS",
    "ORDER", "BY", "ASC", "DESC", "NULLS", "FIRST", "LAST", "GROUP", "HAVING", "LIMIT", "OFFSET",
    "ALL", "UNION", "INTERSECT", "EXCEPT", "WHEN", "THEN", "ELSE", "END",
    "INSERT", "INTO", "VALUES", "UPDATE", "SET", "DELETE",
    "CREATE", "DROP", "TABLE", "INDEX", "SCHEMA", "DATABASE", "IF", "CASCADE", "UNIQUE", "PRIMARY", "KEY",
    "FOREIGN", "REFERENCES", "DEFAULT",
    "BOOLEAN", "TINYINT", "SMALLINT", "INT", "INTEGER", "BIGINT", "FLOAT", "DOUBLE", "DECIMAL", "STRING",
    "VARCHAR", "CHAR", "BYTES", "DATE", "TIME", "TIMESTAMP", "ARRAY", "STRUCT", "MAP"
  }

  /** The token type of an upper-cased word. */
  function WordKind(upper: string): Kind {
    if upper == "SELECT" then SELECT
    else if upper == "AND" then AND
    else if upper == "OR" then OR
    else if upper == "NOT" then NOT
    else if upper == "IN" then IN
    else if upper == "BETWEEN" then BETWEEN
    else if upper == "LIKE" then LIKE
    else if upper == "IS" then IS
    else if upper == "NULL" then NULL
    else if upper == "TRUE" then TRUE
    else if upper == "FALSE" then FALSE
    else if upper == "DISTINCT" then DISTINCT
    else if upper == "EXISTS" then EXISTS
    else if upper == "CASE" then CASE
    else if upper == "CAST" then CAST
    else if upper in OTHER_KEYWORDS then OTHER(upper)
    else IDENTIFIER
  }

  // ---- Characters ----

  predicate IsLetter(c: char) { 'a' <= c <= 'z' || 'A' <= c <= 'Z' }

  predicate IsWordChar(c: char) { IsLetter(c) || IsDigit(c) || c == '_' }

  predicate IsSpace(c: char) { '\t' <= c <= '\r' || '\U{1c}' <= c <= ' ' }

  function UpperChar(c: char): char { if 'a' <= c <= 'z' then c - 'a' + 'A' else c }

  function Upper(s: string): string { seq(|s|, j requires 0 <= j < |s| => UpperChar(s[j])) }

  // ---- Reading ----

  /** Where the lexer stands. */
  datatype Place = Place(pos: nat, line: int, column: int)

  function Forward(at: Place, n: nat): Place { Place(at.pos + n, at.line, at.column + n) }

  function NewLine(at: Place): Place { Place(at.pos + 1, at.line + 1, 1) }

  predicate Looking(text: string, pos: nat, c: char) { pos < |text| && text[pos] == c }

  function StepOver(text: string, at: Place): Place
    requires at.pos < |text|
  {
    if text[at.pos] == '\n' then NewLine(at) else Forward(at, 1)
  }

  /** The end of the line; the column stays. */
  function LineEnd(text: string, at: Place): (end: Place)
    ensures at.pos <= end.pos && (at.pos <= |text| ==> end.pos <= |text|)
    decreases |text| - at.pos
  {
    if at.pos < |text| && text[at.pos] != '\n' then LineEnd(text, Place(at.pos + 1, at.line, at.column)) else at
  }

  /** Just after the next closing mark; without one, before the last character. */
  function CommentEnd(text: string, at: Place): (end: Place)
    ensures at.pos <= end.pos && (at.pos <= |text| ==> end.pos <= |text|)
    decreases |text| - at.pos
  {
    if at.pos + 1 >= |text| then at
    else if text[at.pos] == '*' && text[at.pos + 1] == '/' then Forward(at, 2)
    else CommentEnd(text, StepOver(text, at))
  }

  /** _skip_whitespace_and_comments. */
  function SkipBlank(text: string, at: Place): (end: Place)
    ensures at.pos <= end.pos && (at.pos <= |text| ==> end.pos <= |text|)
    decreases |text| - at.pos
  {
    if at.pos >= |text| then at
    else if IsSpace(text[at.pos]) then SkipBlank(text, StepOver(text, at))
    else if text[at.pos] == '-' && Looking(text, at.pos + 1, '-') then
      LineEndMoves(text, at);
      SkipBlank(text, LineEnd(text, at))
    else if text[at.pos] == '/' && Looking(text, at.pos + 1, '*') then
      SkipBlank(text, CommentEnd(text, Forward(at, 2)))
    else at
  }

  lemma LineEndMoves(text: string, at: Place)
    requires Looking(text, at.pos, '-')
    ensures LineEnd(text, at).pos > at.pos
  {
  }

  /** What follows an opening quote: the text up to the closing one, or nothing when it never closes.
      Only string literals count lines. */
  function QuotedAt(text: string, at: Place, quote: char, value: string): (r: (Option<string>, Place))
    requires at.pos <= |text|
    ensures at.pos <= r.1.pos <= |text|
    decreases |text| - at.pos
  {
    if at.pos >= |text| then (None, at)
    else if text[at.pos] == quote then
      if Looking(text, at.pos + 1, quote) then QuotedAt(text, Forward(at, 2), quote, value + [quote])
      else (Some(value), Forward(at, 1))
    else
      QuotedAt(text, if quote == '\'' then StepOver(text, at) else Forward(at, 1), quote, value + [text[at.pos]])
  }

  /** The digits, point and exponent of a number, and whether it is a float. */
  function NumberAt(text: string, at: Place, value: string, hasDot: bool): (r: (string, bool, Place))
    requires at.pos <= |text|
    ensures at.pos <= r.2.pos <= |text|
    ensures at.pos < |text| && IsDigit(text[at.pos]) ==> at.pos < r.2.pos
    decreases |text| - at.pos
  {
    if at.pos >= |text| then (value, hasDot, at)
    else
      var c := text[at.pos];
      if IsDigit(c) then NumberAt(text, Forward(at, 1), value + [c], hasDot)
      else if c == '.' && !hasDot then
        if at.pos + 1 < |text| && IsDigit(text[at.pos + 1]) then NumberAt(text, Forward(at, 1), value + [c], true)
        else (value, hasDot, at)
      else if (c == 'e' || c == 'E') && value != [] then
        if at.pos + 1 < |text| && (text[at.pos + 1] == '+' || text[at.pos + 1] == '-')
        then NumberAt(text, Forward(at, 2), value + [c, text[at.pos + 1]], true)
        else NumberAt(text, Forward(at, 1), value + [c], true)
      else (value, hasDot, at)
  }

  function WordAt(text: string, at: Place, value: string): (r: (string, Place))
    requires at.pos <= |text|
    ensures at.pos <= r.1.pos <= |text|
    ensures at.pos < |text| && IsWordChar(text[at.pos]) ==> at.pos < r.1.pos
    decreases |text| - at.pos
  {
    if at.pos < |text| && IsWordChar(text[at.pos]) then WordAt(text, Forward(at, 1), value + [text[at.pos]])
    else (value, at)
  }

  function OneCharKind(c: char): Kind {
    match c
    case '=' => EQ
    case '+' => PLUS
    case '-' => MINUS
    case '*' => STAR
    case '/' => SLASH
    case '%' => PERCENT
    case '(' => LPAREN
    case ')' => RPAREN
    case '[' => LBRACKET
    case ']' => RBRACKET
    case ',' => COMMA
    case '.' => DOT
    case ';' => SEMICOLON
    case ':' => COLON
    case '?' => QUESTION
    case '<' => LT
    case '>' => GT
    case _ => ERROR
  }

  /** An operator or delimiter: its type, its text and its length. */
  function OperatorAt(text: string, pos: nat): (r: (Kind, string, nat))
    requires pos < |text|
    ensures 1 <= r.2 <= |text| - pos
  {
    var c := text[pos];
    if c == '!' && Looking(text, pos + 1, '=') then (NE, "!=", 2)
    else if c == '<' && Looking(text, pos + 1, '=') then (LE, "<=", 2)
    else if c == '<' && Looking(text, pos + 1, '>') then (NE, "<>", 2)
    else if c == '>' && Looking(text, pos + 1, '=') then (GE, ">=", 2)
    else if c == '|' && Looking(text, pos + 1, '|') then (CONCAT, "||", 2)
    else if OneCharKind(c) == ERROR then (ERROR, "Unexpected character: " + [c], 1)
    else (OneCharKind(c), [c], 1)
  }

  /** _next_token: a token and where the lexer then stands. */
  function TokenAt(text: string, from: Place): (r: (Token, Place))
    requires from.pos <= |text|
    ensures from.pos <= r.1.pos <= |text|
    ensures from.pos < |text| ==> from.pos < r.1.pos
  {
    var at := SkipBlank(text, from);
    if at.pos >= |text| then (Token(EOF, "", at.line, at.column), at)
    else
      var c := text[at.pos];
      if c == '\'' then
        var (value, end) := QuotedAt(text, Forward(at, 1), '\'', "");
        (if value.Some? then Token(STRING, value.value, at.line, at.column)
         else Token(ERROR, "Unterminated string", at.line, at.column), end)
      else if c == '"' then
        var (value, end) := QuotedAt(text, Forward(at, 1), '"', "");
        (if value.Some? then Token(QUOTED_IDENTIFIER, value.value, at.line, at.column)
         else Token(ERROR, "Unterminated identifier", at.line, at.column), end)
      else if IsDigit(c) then
        var (value, hasDot, end) := NumberAt(text, at, "", false);
        (Token(if hasDot then FLOAT else INTEGER, value, at.line, at.column), end)
      else if IsLetter(c) || c == '_' then
        var (word, end) := WordAt(text, at, "");
        (Token(WordKind(Upper(word)), word, at.line, at.column), end)
      else
        var (kind, value, length) := OperatorAt(text, at.pos);
        (Token(kind, value, at.line, at.column), Forward(at, length))
  }

  /** A lexed token sequence: it ends with an end token. */
  predicate Ended(ts: seq<Token>) { ts != [] && ts[|ts| - 1].kind == EOF }

  /** tokenize: tokens up to the end of the text, then one more end token. */
  function TokensFrom(text: string, at: Place): (tokens: seq<Token>)
    requires at.pos <= |text|
    ensures Ended(tokens)
    decreases |text| - at.pos
  {
    if at.pos >= |text| then [Token(EOF, "", at.line, at.column)]
    else
      var (token, next) := TokenAt(text, at);
      [token] + TokensFrom(text, next)
  }

  lemma {:induction false} OneMoreToken(text: string, at: Place, before: seq<Token>)
    requires at.pos < |text|
    ensures before + TokensFrom(text, at) == before + [TokenAt(text, at).0] + TokensFrom(text, TokenAt(text, at).1)
  {
    hide TokenAt;
  }

  const START: Place := Place(0, 1, 1)

  function Tokenize(text: string): seq<Token> { TokensFrom(text, START) }

  // ---- The class ----

  class Lexer {
    const text: string
    var pos: nat
    var line: int
    var column: int
    var tokens: seq<Token>

    ghost predicate Valid()
      reads this
    {
      pos <= |text|
    }

    function Here(): Place
      reads this
    {
      Place(pos, line, column)
    }

    constructor (text: string)
      ensures Valid() && this.text == text && Here() == START && tokens == []
    {
      this.text, pos, line, column, tokens := text, 0, 1, 1, [];
    }

    method Tokenize() returns (all: seq<Token>)
      requires Valid()
      modifies this
      ensures Valid() && all == tokens == old(tokens) + TokensFrom(text, old(Here()))
    {
      while pos < |text|
        invariant Valid()
        invariant tokens + TokensFrom(text, Here()) == old(tokens) + TokensFrom(text, old(Here()))
        decreases |text| - pos
      {
        hide TokenAt;
        OneMoreToken(text, Here(), tokens);
        var token := NextToken();
        tokens := tokens + [token];
      }
      tokens := tokens + [Token(EOF, "", line, column)];
      all := tokens;
    }

    method Advance() returns (c: char)
      requires Valid() && pos < |text|
      modifies this`pos, this`column
      ensures Valid() && c == text[old(pos)] && Here() == Forward(old(Here()), 1)
    {
      c := text[pos];
      pos, column := pos + 1, column + 1;
    }

    method SkipWhitespaceAndComments()
      requires Valid()
      modifies this`pos, this`line, this`column
      ensures Valid() && Here() == SkipBlank(text, old(Here()))
    {
      while pos < |text|
        invariant Valid() && SkipBlank(text, Here()) == SkipBlank(text, old(Here()))
        decreases |text| - pos
      {
        if IsSpace(text[pos]) {
          if text[pos] == '\n' { line, column := line + 1, 1; } else { column := column + 1; }
          pos := pos + 1;
        } else if text[pos] == '-' && Looking(text, pos + 1, '-') {
          LineEndMoves(text, Here());
          SkipLine();
        } else if text[pos] == '/' && Looking(text, pos + 1, '*') {
          pos, column := pos + 2, column + 2;
          SkipComment();
        } else {
          break;
        }
      }
    }

    method SkipLine()
      requires Valid()
      modifies this`pos
      ensures Valid() && Here() == LineEnd(text, old(Here()))
    {
      while pos < |text| && text[pos] != '\n'
        invariant Valid() && LineEnd(text, Here()) == LineEnd(text, old(Here()))
      {
        pos := pos + 1;
      }
    }

    method SkipComment()
      requires Valid()
      modifies this`pos, this`line, this`column
      ensures Valid() && Here() == CommentEnd(text, old(Here()))
    {
      while pos + 1 < |text|
        invariant Valid() && CommentEnd(text, Here()) == CommentEnd(text, old(Here()))
        decreases |text| - pos
      {
        if text[pos] == '*' && text[pos + 1] == '/' {
          pos, column := pos + 2, column + 2;
          break;
        }
        if text[pos] == '\n' { line, column := line + 1, 1; } else { column := column + 1; }
        pos := pos + 1;
      }
    }

    /** _read_string and _read_quoted_identifier, past the opening quote. */
    method ReadQuoted(quote: char) returns (value: Option<string>)
      requires Valid()
      modifies this`pos, this`line, this`column
      ensures Valid() && (value, Here()) == QuotedAt(text, old(Here()), quote, "")
    {
      var found := "";
      while pos < |text|
        invariant Valid() && QuotedAt(text, Here(), quote, found) == QuotedAt(text, old(Here()), quote, "")
        decreases |text| - pos
      {
        var c := text[pos];
        if c == quote {
          if Looking(text, pos + 1, quote) {
            found := found + [quote];
            pos, column := pos + 2, column + 2;
          } else {
            var _ := Advance();
            return Some(found);
          }
        } else if c == '\n' && quote == '\'' {
          found := found + [c];
          pos, line, column := pos + 1, line + 1, 1;
        } else {
          var _ := Advance();
          found := found + [c];
        }
      }
      value := None;
    }

    method ReadNumber() returns (value: string, hasDot: bool)
      requires Valid()
      modifies this`pos, this`column
      ensures Valid() && (value, hasDot, Here()) == NumberAt(text, old(Here()), "", false)
    {
      value, hasDot := "", false;
      while pos < |text|
        invariant Valid()
        invariant NumberAt(text, Here(), value, hasDot) == NumberAt(text, old(Here()), "", false)
        decreases |text| - pos
      {
        var c := text[pos];
        if IsDigit(c) {
          var _ := Advance();
          value := value + [c];
        } else if c == '.' && !hasDot {
          if pos + 1 < |text| && IsDigit(text[pos + 1]) {
            var _ := Advance();
            hasDot, value := true, value + [c];
          } else {
            break;
          }
        } else if (c == 'e' || c == 'E') && value != [] {
          var _ := Advance();
          ghost var seen := value;
          value := value + [c];
          if pos < |text| && (text[pos] == '+' || text[pos] == '-') {
            var sign := Advance();
            value := value + [sign];
            assert value == seen + [c, sign];
          }
          hasDot := true;
        } else {
          break;
        }
      }
    }

    method ReadWord() returns (word: string)
      requires Valid()
      modifies this`pos, this`column
      ensures Valid() && (word, Here()) == WordAt(text, old(Here()), "")
    {
      word := "";
      while pos < |text|
        invariant Valid() && WordAt(text, Here(), word) == WordAt(text, old(Here()), "")
        decreases |text| - pos
      {
        if !IsWordChar(text[pos]) {
          break;
        }
        var c := Advance();
        word := word + [c];
      }
    }

    method NextToken() returns (token: Token)
      requires Valid()
      modifies this`pos, this`line, this`column
      ensures Valid() && (token, Here()) == TokenAt(text, old(Here()))
    {
      SkipWhitespaceAndComments();
      if pos >= |text| {
        return Token(EOF, "", line, column);
      }
      var startLine, startColumn := line, column;
      var c := text[pos];
      if c == '\'' || c == '"' {
        var _ := Advance();
        var value := ReadQuoted(c);
        if value.Some? {
          token := Token(if c == '\'' then STRING else QUOTED_IDENTIFIER, value.value, startLine, startColumn);
        } else {
          token := Token(ERROR, if c == '\'' then "Unterminated string" else "Unterminated identifier", startLine, startColumn);
        }
      } else if IsDigit(c) {
        var value, hasDot := ReadNumber();
        token := Token(if hasDot then FLOAT else INTEGER, value, startLine, startColumn);
      } else if IsLetter(c) || c == '_' {
        var word := ReadWord();
        token := Token(WordKind(Upper(word)), word, startLine, startColumn);
      } else {
        token := ReadOperator(startLine, startColumn);
      }
    }

    method ReadOperator(startLine: int, startColumn: int) returns (token: Token)
      requires Valid() && pos < |text|
      modifies this`pos, this`column
      ensures Valid()
      ensures var (kind, value, length) := OperatorAt(text, old(pos));
              token == Token(kind, value, startLine, startColumn) && Here() == Forward(old(Here()), length)
    {
      var c := Advance();
      if c == '!' && Looking(text, pos, '=') {
        var _ := Advance();
        return Token(NE, "!=", startLine, startColumn);
      }
      if c == '<' {
        if Looking(text, pos, '=') {
          var _ := Advance();
          return Token(LE, "<=", startLine, startColumn);
        }
        if Looking(text, pos, '>') {
          var _ := Advance();
          return Token(NE, "<>", startLine, startColumn);
        }
        return Token(LT, "<", startLine, startColumn);
      }
      if c == '>' {
        if Looking(text, pos, '=') {
          var _ := Advance();
          return Token(GE, ">=", startLine, startColumn);
        }
        return Token(GT, ">", startLine, startColumn);
      }
      if c == '|' && Looking(text, pos, '|') {
        var _ := Advance();
        return Token(CONCAT, "||", startLine, startColumn);
      }
      if OneCharKind(c) != ERROR {
        return Token(OneCharKind(c), [c], startLine, startColumn);
      }
      token := Token(ERROR, "Unexpected character: " + [c], startLine, startColumn);
    }
  }
}
