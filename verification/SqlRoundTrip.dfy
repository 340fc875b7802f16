// Parsing what was printed gives it back: with every parenthesis written, or only those needed.
module SqlRoundTrip {
  import opened Wrappers
  import opened Decimal
  import opened SqlLexer
  import opened SqlLexemes
  import opened SqlAst
  import opened SqlParser
  import opened SqlPrinted
  import opened SqlLexPrinted
  import opened SqlGrammar
  import opened SqlGrammarReads

  // ---- Any way of writing an expression ----

  /** Lexing and parsing a grammatical tree gives what it means, up to the end of the input, exactly
      when its nesting fits the depth limit; otherwise it is the recursion error. */
  lemma TreeRoundTrip(c: Syntax, max: nat)
    requires Grammatical(c) && Spellable(c)
    ensures var ts := Tokenize(Show(Written(c)));
            Ended(ts) && Reads(ParseExpression(ts, 0, 0, max), Meaning(c), |ts| - 1, 1 + Deep(c) <= max)
  {
    hide Tokenize, Written, Grammatical, Spellable, Show, ParseLevel;
    WrittenTokens(c);
    var ts := Tokenize(Show(Written(c)));
    SpelledMatches(ts, 0, Written(c));
    assert Placed(ts, 0, c);
    ElementReads(c, ts, 0, 0, max);
  }

  /** The grammar is unambiguous: trees that are written alike mean the same. */
  lemma WrittenAlikeMeansAlike(a: Syntax, b: Syntax)
    requires Grammatical(a) && Spellable(a) && Grammatical(b) && Spellable(b) && Show(Written(a)) == Show(Written(b))
    ensures Meaning(a) == Meaning(b)
  {
    hide Tokenize, Written, Grammatical, Show, ParseExpression, Deep, Meaning;
    var max := 1 + Larger(Deep(a), Deep(b));
    TreeRoundTrip(a, max);
    TreeRoundTrip(b, max);
  }

  // ---- Trees, one level at a time ----

  lemma InfixTree(left: Syntax, op: BinaryOp, right: Syntax)
    ensures var c := Infix(left, op, right);
            Meaning(c) == BinaryExpression(Meaning(left), op, Meaning(right)) && Deep(c) == Larger(Deep(left), Deep(right)) &&
            (Grammatical(c) <==>
              Grammatical(left) && Grammatical(right) && Rank(left) >= OperatorRank(op) && Rank(right) > OperatorRank(op)) &&
            (Spellable(c) <==> Spellable(left) && Spellable(right))
  {
  }

  lemma PrefixTree(op: UnaryOp, operand: Syntax)
    ensures var c := Prefix(op, operand);
            Meaning(c) == UnaryExpression(op, Meaning(operand)) && Deep(c) == Deep(operand) &&
            (Grammatical(c) <==> Grammatical(operand) && Rank(operand) >= if op == NotOp then NOT_RANK else SIGN_RANK) &&
            (Spellable(c) <==> Spellable(operand))
  {
  }

  lemma CompareTree(left: Syntax, op: ComparisonOp, right: Syntax)
    ensures var c := Compare(left, op, right);
            Meaning(c) == ComparisonExpression(Meaning(left), op, Meaning(right)) && Deep(c) == Larger(Deep(left), Deep(right)) &&
            (Grammatical(c) <==> Grammatical(left) && Grammatical(right) && Rank(left) >= SUM_RANK && Rank(right) >= SUM_RANK) &&
            (Spellable(c) <==> Spellable(left) && Spellable(right))
  {
  }

  lemma IsNullTree(operand: Syntax, negated: bool)
    ensures var c := IsNull(operand, negated);
            Meaning(c) == NullTest(Meaning(operand), negated) && Deep(c) == Deep(operand) &&
            (Grammatical(c) <==> Grammatical(operand) && Rank(operand) >= SUM_RANK) && (Spellable(c) <==> Spellable(operand))
  {
  }

  lemma OneOfTree(operand: Syntax, values: seq<Syntax>, negated: bool)
    ensures var c := OneOf(operand, values, negated);
            Meaning(c) == InExpression(Meaning(operand), Meanings(values), negated) &&
            Deep(c) == Larger(Deep(operand), ListDeep(values)) &&
            (Grammatical(c) <==> Grammatical(operand) && Rank(operand) >= SUM_RANK && values != [] && AllGrammatical(values)) &&
            (Spellable(c) <==> Spellable(operand) && AllSpellable(values))
  {
  }

  lemma WithinTree(operand: Syntax, low: Syntax, high: Syntax, negated: bool)
    ensures var c := Within(operand, low, high, negated);
            Meaning(c) == BetweenExpression(Meaning(operand), Meaning(low), Meaning(high), negated) &&
            Deep(c) == Larger(Deep(operand), Larger(Deep(low), Deep(high))) &&
            (Grammatical(c) <==>
              Grammatical(operand) && Grammatical(low) && Grammatical(high) &&
              Rank(operand) >= SUM_RANK && Rank(low) >= SUM_RANK && Rank(high) >= SUM_RANK) &&
            (Spellable(c) <==> Spellable(operand) && Spellable(low) && Spellable(high))
  {
  }

  lemma CallTree(name: Word, arguments: seq<Syntax>, distinct: bool)
    ensures var c := Call(name, arguments, distinct);
            Meaning(c) == FunctionCall(name.value, Listed(Meanings(arguments)), distinct) && Deep(c) == ListDeep(arguments) &&
            (Grammatical(c) <==> IsNameWord(name) && AllGrammatical(arguments)) &&
            (Spellable(c) <==> IsSpelled(name) && AllSpellable(arguments))
  {
    hide IsSpelled;
  }

  lemma ParenTree(inner: Syntax)
    ensures Meaning(Paren(inner)) == Meaning(inner) && Deep(Paren(inner)) == 1 + Deep(inner) &&
            (Grammatical(Paren(inner)) <==> Grammatical(inner)) && (Spellable(Paren(inner)) <==> Spellable(inner)) &&
            Rank(Paren(inner)) == PRIMARY_RANK
  {
  }

  // ---- Chains of operators ----

  /** Operands joined by operators, from the left. */
  function Chained(first: Syntax, rest: seq<(BinaryOp, Syntax)>): Syntax
    decreases |rest|
  {
    if rest == [] then first
    else
      var n := |rest| - 1;
      Infix(Chained(first, rest[..n]), rest[n].0, rest[n].1)
  }

  /** An operand's pieces, then a blank, each operator, a blank and the next operand's. */
  function ChainPieces(ps: seq<Piece>, rest: seq<(BinaryOp, Syntax)>): seq<Piece>
    decreases |rest|
  {
    if rest == [] then ps
    else
      var (op, next) := rest[0];
      ChainPieces(ps + [Gap(BinaryText(op), BinaryKind(op))] + Spaced(Written(next)), rest[1..])
  }

  /** The left fold of binary expressions over the operands' meanings. */
  function Folded(left: Expr, rest: seq<(BinaryOp, Syntax)>): Expr
    decreases |rest|
  {
    if rest == [] then left else Folded(BinaryExpression(left, rest[0].0, Meaning(rest[0].1)), rest[1..])
  }

  /** Operators of one rank between operands that bind more tightly. */
  ghost predicate ChainOf(rank: nat, first: Syntax, rest: seq<(BinaryOp, Syntax)>) {
    Grammatical(first) && Spellable(first) && Rank(first) > rank &&
    forall j :: 0 <= j < |rest| ==>
      OperatorRank(rest[j].0) == rank && Grammatical(rest[j].1) && Spellable(rest[j].1) && Rank(rest[j].1) > rank
  }

  lemma {:induction false} ChainPiecesSnoc(ps: seq<Piece>, rest: seq<(BinaryOp, Syntax)>, op: BinaryOp, next: Syntax)
    ensures ChainPieces(ps, rest + [(op, next)])
         == ChainPieces(ps, rest) + [Gap(BinaryText(op), BinaryKind(op))] + Spaced(Written(next))
    decreases |rest|
  {
    hide Written, Spaced;
    var more := rest + [(op, next)];
    if rest == [] {
      assert more[1..] == [];
    } else {
      assert more[1..] == rest[1..] + [(op, next)];
      ChainPiecesSnoc(ps + [Gap(BinaryText(rest[0].0), BinaryKind(rest[0].0))] + Spaced(Written(rest[0].1)), rest[1..], op, next);
    }
  }

  lemma {:induction false} FoldedSnoc(left: Expr, rest: seq<(BinaryOp, Syntax)>, op: BinaryOp, next: Syntax)
    ensures Folded(left, rest + [(op, next)]) == BinaryExpression(Folded(left, rest), op, Meaning(next))
    decreases |rest|
  {
    hide Meaning;
    var more := rest + [(op, next)];
    if rest == [] {
      assert more[1..] == [];
    } else {
      assert more[1..] == rest[1..] + [(op, next)];
      FoldedSnoc(BinaryExpression(left, rest[0].0, Meaning(rest[0].1)), rest[1..], op, next);
    }
  }

  lemma InfixRank(c: Syntax)
    requires c.Infix?
    ensures Rank(c) == OperatorRank(c.operator)
    ensures Written(c) == Written(c.left) + [Gap(BinaryText(c.operator), BinaryKind(c.operator))] + Spaced(Written(c.right))
  {
    hide Spaced;
  }

  lemma {:induction false} ChainIsTree(rank: nat, first: Syntax, rest: seq<(BinaryOp, Syntax)>)
    requires ChainOf(rank, first, rest)
    ensures Grammatical(Chained(first, rest)) && Spellable(Chained(first, rest)) && Rank(Chained(first, rest)) >= rank
    ensures Written(Chained(first, rest)) == ChainPieces(Written(first), rest)
    ensures Meaning(Chained(first, rest)) == Folded(Meaning(first), rest)
    decreases |rest|
  {
    if rest != [] {
      hide Spaced, Grammatical, Spellable, Meaning, ChainPieces, Folded, Rank;
      var n := |rest| - 1;
      assert rest == rest[..n] + [(rest[n].0, rest[n].1)];
      ChainIsTree(rank, first, rest[..n]);
      InfixTree(Chained(first, rest[..n]), rest[n].0, rest[n].1);
      InfixRank(Chained(first, rest));
      ChainPiecesSnoc(Written(first), rest[..n], rest[n].0, rest[n].1);
      FoldedSnoc(Meaning(first), rest[..n], rest[n].0, rest[n].1);
    }
  }

  /** A chain of operators of one rank, written without parentheses, is read as the left fold over its
      operands, however many there are and whatever tighter forms they are themselves. */
  lemma ChainFoldsLeft(rank: nat, first: Syntax, rest: seq<(BinaryOp, Syntax)>, max: nat)
    requires ChainOf(rank, first, rest)
    ensures var ts := Tokenize(Show(ChainPieces(Written(first), rest)));
            Ended(ts) && Reads(ParseExpression(ts, 0, 0, max), Folded(Meaning(first), rest), |ts| - 1,
                               1 + Deep(Chained(first, rest)) <= max)
  {
    hide Tokenize, Written, Show, ParseExpression, Meaning, Deep, Chained, ChainPieces, Folded;
    ChainIsTree(rank, first, rest);
    TreeRoundTrip(Chained(first, rest), max);
  }

  // ---- Only the parentheses that are needed ----

  /** A name as a word, or in double quotes when it is no word. */
  function NameWord(name: string): Word { if IsName(name) then Word(IDENTIFIER, name) else Word(QUOTED_IDENTIFIER, name) }

  function LeafTree(e: Expr): Syntax {
    match e
    case BooleanLiteral(b) => Atom(if b then Word(TRUE, "TRUE") else Word(FALSE, "FALSE"))
    case IntegerLiteral(n) => Atom(Word(INTEGER, IntText(n)))
    case FloatLiteral(text) => Atom(Word(FLOAT, text))
    case StringLiteral(s) => Atom(Word(STRING, s))
    case Parameter(None) => Atom(Word(QUESTION, "?"))
    case Parameter(Some(name)) => Named(NameWord(name))
    case ColumnReference(None, column) => Atom(NameWord(column))
    case ColumnReference(Some(table), column) => Qualified(NameWord(table), NameWord(column))
    case _ => Atom(Word(NULL, "NULL"))
  }

  /** The expressions that can be written: a negative integer or an empty IN list has no syntax, and the
      text of a float must be one. */
  predicate Writable(e: Expr)
    decreases e, 0
  {
    match e
    case IntegerLiteral(n) => n >= 0
    case FloatLiteral(text) => IsFloatText(text)
    case BinaryExpression(left, _, right) => Writable(left) && Writable(right)
    case UnaryExpression(_, operand) => Writable(operand)
    case ComparisonExpression(left, _, right) => Writable(left) && Writable(right)
    case NullTest(operand, _) => Writable(operand)
    case InExpression(operand, values, _) => Writable(operand) && values != [] && AllWritable(values)
    case BetweenExpression(operand, low, high, _) => Writable(operand) && Writable(low) && Writable(high)
    case FunctionCall(_, Listed(es), _) => AllWritable(es)
    case _ => true
  }

  predicate AllWritable(es: seq<Expr>)
    decreases es, 1
  {
    es == [] || (Writable(es[0]) && AllWritable(es[1..]))
  }

  lemma NameIsSpelled(name: string)
    ensures IsNameWord(NameWord(name)) && IsSpelled(NameWord(name)) && NameWord(name).value == name
  {
  }

  lemma LeafIsTree(e: Expr)
    requires IsLeaf(e) && Writable(e)
    ensures Grammatical(LeafTree(e)) && Spellable(LeafTree(e)) && Meaning(LeafTree(e)) == e
    ensures Rank(LeafTree(e)) == PRIMARY_RANK && Deep(LeafTree(e)) == 0
  {
    hide IsName, NameWord, IsFloatText, IsSpelled, AllDigits, TextValue;
    match e
    case BooleanLiteral(_) => WordsAreSpelled();
    case NullLiteral => WordsAreSpelled();
    case StringLiteral(s) => TokenIsSpelled(Word(STRING, s));
    case FloatLiteral(text) => TokenIsSpelled(Word(FLOAT, text));
    case Parameter(None) => TokenIsSpelled(Word(QUESTION, "?"));
    case IntegerLiteral(n) =>
      TextValueInvertsNatText(n);
      TokenIsSpelled(Word(INTEGER, IntText(n)));
    case Parameter(Some(name)) => NameIsSpelled(name);
    case ColumnReference(None, column) => NameIsSpelled(column);
    case ColumnReference(Some(table), column) => NameIsSpelled(table); NameIsSpelled(column);
  }

  lemma TokenIsSpelled(w: Word)
    ensures w.kind == STRING ==> IsSpelled(w)
    ensures w.kind == FLOAT ==> (IsSpelled(w) <==> IsFloatText(w.value))
    ensures w.kind == INTEGER ==> (IsSpelled(w) <==> w.value != "" && AllDigits(w.value))
    ensures w.kind == QUESTION ==> (IsSpelled(w) <==> w.value == "?")
  {
    hide IsFloatText;
  }

  lemma KeywordIsSpelled(text: string, kind: Kind)
    requires (text, kind) in {("TRUE", TRUE), ("FALSE", FALSE), ("NULL", NULL)}
    ensures IsSpelled(Word(kind, text))
  {
    hide IsWordPiece, IsFloatText;
    assert Upper(text) == text;
  }

  lemma WordsAreSpelled()
    ensures IsSpelled(Word(TRUE, "TRUE")) && IsSpelled(Word(FALSE, "FALSE")) && IsSpelled(Word(NULL, "NULL"))
  {
    hide IsSpelled;
    KeywordIsSpelled("TRUE", TRUE);
    KeywordIsSpelled("FALSE", FALSE);
    KeywordIsSpelled("NULL", NULL);
  }

  lemma {:induction false} PrintableIsWritable(e: Expr)
    requires Printable(e)
    ensures Writable(e)
    decreases e, 0
  {
    match e
    case BinaryExpression(left, _, right) => PrintableIsWritable(left); PrintableIsWritable(right);
    case UnaryExpression(_, operand) => PrintableIsWritable(operand);
    case ComparisonExpression(left, _, right) => PrintableIsWritable(left); PrintableIsWritable(right);
    case NullTest(operand, _) => PrintableIsWritable(operand);
    case InExpression(operand, values, _) => PrintableIsWritable(operand); AllPrintableIsWritable(values);
    case BetweenExpression(operand, low, high, _) => PrintableIsWritable(operand); PrintableIsWritable(low); PrintableIsWritable(high);
    case FunctionCall(_, Listed(es), _) => AllPrintableIsWritable(es);
    case _ =>
  }

  lemma {:induction false} AllPrintableIsWritable(es: seq<Expr>)
    requires AllPrintable(es)
    ensures AllWritable(es)
    decreases es, 1
  {
    if es != [] {
      PrintableIsWritable(es[0]);
      AllPrintableIsWritable(es[1..]);
    }
  }

  /** The tree with parentheses round an operand exactly where it binds too loosely for its place. */
  function Bare(e: Expr): Syntax
    decreases e, 0
  {
    match e
    case BinaryExpression(left, op, right) => Infix(InPlace(left, OperatorRank(op)), op, InPlace(right, OperatorRank(op) + 1))
    case UnaryExpression(op, operand) => Prefix(op, InPlace(operand, if op == NotOp then NOT_RANK else SIGN_RANK))
    case ComparisonExpression(left, op, right) => Compare(InPlace(left, SUM_RANK), op, InPlace(right, SUM_RANK))
    case NullTest(operand, negated) => IsNull(InPlace(operand, SUM_RANK), negated)
    case InExpression(operand, values, negated) => OneOf(InPlace(operand, SUM_RANK), BareList(values), negated)
    case BetweenExpression(operand, low, high, negated) =>
      Within(InPlace(operand, SUM_RANK), InPlace(low, SUM_RANK), InPlace(high, SUM_RANK), negated)
    case FunctionCall(name, AllColumns, distinct) => CallAll(NameWord(name), distinct)
    case FunctionCall(name, Listed(es), distinct) => Call(NameWord(name), BareList(es), distinct)
    case _ => LeafTree(e)
  }

  function InPlace(e: Expr, rank: nat): Syntax
    decreases e, 1
  {
    if Rank(Bare(e)) >= rank then Bare(e) else Paren(Bare(e))
  }

  function BareList(es: seq<Expr>): (cs: seq<Syntax>)
    ensures |cs| == |es|
    decreases es, 2
  {
    if es == [] then [] else [Bare(es[0])] + BareList(es[1..])
  }

  lemma {:induction false} BareIsTree(e: Expr)
    requires Writable(e)
    ensures Grammatical(Bare(e)) && Spellable(Bare(e)) && Meaning(Bare(e)) == e
    decreases e, 0
  {
    hide IsName, NameWord, OperatorRank, Grammatical, Spellable, Meaning, Deep, Rank, InPlace, BareList, IsFloatText;
    if IsLeaf(e) || (e.FunctionCall? && e.arguments.AllColumns?) {
      SimpleIsTree(e);
    } else {
      match e
      case BinaryExpression(left, op, right) =>
        RanksBelowPrimary(op);
        InPlaceIsTree(left, OperatorRank(op));
        InPlaceIsTree(right, OperatorRank(op) + 1);
        InfixTree(InPlace(left, OperatorRank(op)), op, InPlace(right, OperatorRank(op) + 1));
      case UnaryExpression(op, operand) =>
        var rank := if op == NotOp then NOT_RANK else SIGN_RANK;
        InPlaceIsTree(operand, rank);
        PrefixTree(op, InPlace(operand, rank));
      case ComparisonExpression(left, op, right) =>
        InPlaceIsTree(left, SUM_RANK);
        InPlaceIsTree(right, SUM_RANK);
        CompareTree(InPlace(left, SUM_RANK), op, InPlace(right, SUM_RANK));
      case NullTest(operand, negated) =>
        InPlaceIsTree(operand, SUM_RANK);
        IsNullTree(InPlace(operand, SUM_RANK), negated);
      case InExpression(operand, values, negated) =>
        InPlaceIsTree(operand, SUM_RANK);
        BareListIsTree(values);
        OneOfTree(InPlace(operand, SUM_RANK), BareList(values), negated);
      case BetweenExpression(operand, low, high, negated) =>
        InPlaceIsTree(operand, SUM_RANK);
        InPlaceIsTree(low, SUM_RANK);
        InPlaceIsTree(high, SUM_RANK);
        WithinTree(InPlace(operand, SUM_RANK), InPlace(low, SUM_RANK), InPlace(high, SUM_RANK), negated);
      case FunctionCall(name, Listed(es), distinct) =>
        BareListIsTree(es);
        NameIsSpelled(name);
        CallTree(NameWord(name), BareList(es), distinct);
      case _ =>
    }
  }

  lemma SimpleIsTree(e: Expr)
    requires Writable(e) && (IsLeaf(e) || (e.FunctionCall? && e.arguments.AllColumns?))
    ensures Bare(e) == Full(e) && Grammatical(Bare(e)) && Spellable(Bare(e)) && Meaning(Bare(e)) == e
    ensures Rank(Full(e)) == PRIMARY_RANK && Deep(Full(e)) == Nesting(e) == 0
  {
    hide IsName, NameWord;
    if IsLeaf(e) { LeafIsTree(e); } else { NameIsSpelled(e.function_); }
  }

  lemma RanksBelowPrimary(op: BinaryOp)
    ensures OperatorRank(op) < PRIMARY_RANK
  {
  }

  lemma {:induction false} InPlaceIsTree(e: Expr, rank: nat)
    requires Writable(e)
    ensures Grammatical(InPlace(e, rank)) && Spellable(InPlace(e, rank)) && Meaning(InPlace(e, rank)) == e
    ensures rank <= PRIMARY_RANK ==> Rank(InPlace(e, rank)) >= rank
    decreases e, 1
  {
    hide Bare, Writable;
    BareIsTree(e);
  }

  lemma {:induction false} BareListIsTree(es: seq<Expr>)
    requires AllWritable(es)
    ensures AllGrammatical(BareList(es)) && AllSpellable(BareList(es)) && Meanings(BareList(es)) == es
    decreases es, 2
  {
    hide Writable, Grammatical, Spellable, Meaning;
    if es != [] {
      BareIsTree(es[0]);
      BareListIsTree(es[1..]);
      assert BareList(es)[0] == Bare(es[0]) && BareList(es)[1..] == BareList(es[1..]);
    }
  }

  /** An expression written with only the parentheses it needs comes back: precedence, and which
      operators group to the left, to the right or not at all, are as the grammar has them. */
  lemma BareRoundTrip(e: Expr, max: nat)
    requires Writable(e)
    ensures var ts := Tokenize(Show(Written(Bare(e))));
            Ended(ts) && Reads(ParseExpression(ts, 0, 0, max), e, |ts| - 1, 1 + Deep(Bare(e)) <= max)
  {
    hide Tokenize, Written, Bare, Writable, Grammatical, Spellable, Show, ParseExpression, Deep, Meaning;
    BareIsTree(e);
    TreeRoundTrip(Bare(e), max);
  }

  // ---- Every parenthesis, as __repr__ writes them ----

  function Full(e: Expr): Syntax
    decreases e, 0
  {
    match e
    case BinaryExpression(left, op, right) => Paren(Infix(Full(left), op, Full(right)))
    case UnaryExpression(op, operand) => Paren(Prefix(op, Full(operand)))
    case ComparisonExpression(left, op, right) => Paren(Compare(Full(left), op, Full(right)))
    case NullTest(operand, negated) => Paren(IsNull(Full(operand), negated))
    case InExpression(operand, values, negated) => Paren(OneOf(Full(operand), FullList(values), negated))
    case BetweenExpression(operand, low, high, negated) => Paren(Within(Full(operand), Full(low), Full(high), negated))
    case FunctionCall(name, AllColumns, distinct) => CallAll(NameWord(name), distinct)
    case FunctionCall(name, Listed(es), distinct) => Call(NameWord(name), FullList(es), distinct)
    case _ => LeafTree(e)
  }

  function FullList(es: seq<Expr>): (cs: seq<Syntax>)
    ensures |cs| == |es|
    decreases es, 1
  {
    if es == [] then [] else [Full(es[0])] + FullList(es[1..])
  }

  lemma {:induction false} FullIsTree(e: Expr)
    requires Printable(e)
    ensures Grammatical(Full(e)) && Spellable(Full(e)) && Rank(Full(e)) == PRIMARY_RANK && Meaning(Full(e)) == e && Deep(Full(e)) == Nesting(e)
    decreases e, 0
  {
    hide IsName, NameWord, Grammatical, Spellable, Meaning, Deep, FullList, ListDeep, Meanings, OperatorRank, ListNesting;
    if IsLeaf(e) || (e.FunctionCall? && e.arguments.AllColumns?) {
      PrintableIsWritable(e);
      SimpleIsTree(e);
    } else {
      match e
      case BinaryExpression(left, op, right) =>
        FullIsTree(left);
        FullIsTree(right);
        RanksBelowPrimary(op);
        InfixTree(Full(left), op, Full(right));
        ParenTree(Infix(Full(left), op, Full(right)));
      case UnaryExpression(op, operand) =>
        FullIsTree(operand);
        PrefixTree(op, Full(operand));
        ParenTree(Prefix(op, Full(operand)));
      case ComparisonExpression(left, op, right) =>
        FullIsTree(left);
        FullIsTree(right);
        CompareTree(Full(left), op, Full(right));
        ParenTree(Compare(Full(left), op, Full(right)));
      case NullTest(operand, negated) =>
        FullIsTree(operand);
        IsNullTree(Full(operand), negated);
        ParenTree(IsNull(Full(operand), negated));
      case InExpression(operand, values, negated) =>
        FullIsTree(operand);
        FullListIsTree(values);
        OneOfTree(Full(operand), FullList(values), negated);
        ParenTree(OneOf(Full(operand), FullList(values), negated));
      case BetweenExpression(operand, low, high, negated) =>
        FullIsTree(operand);
        FullIsTree(low);
        FullIsTree(high);
        WithinTree(Full(operand), Full(low), Full(high), negated);
        ParenTree(Within(Full(operand), Full(low), Full(high), negated));
      case FunctionCall(name, Listed(es), distinct) =>
        FullListIsTree(es);
        NameIsSpelled(name);
        CallTree(NameWord(name), FullList(es), distinct);
      case _ =>
    }
  }

  lemma {:induction false} FullListIsTree(es: seq<Expr>)
    requires AllPrintable(es)
    ensures AllGrammatical(FullList(es)) && AllSpellable(FullList(es)) && Meanings(FullList(es)) == es && ListDeep(FullList(es)) == ListNesting(es)
    decreases es, 1
  {
    hide Printable, Grammatical, Spellable, Meaning, Deep;
    if es != [] {
      FullIsTree(es[0]);
      FullListIsTree(es[1..]);
      assert FullList(es)[0] == Full(es[0]) && FullList(es)[1..] == FullList(es[1..]);
    }
  }

  lemma AroundPieces(a: seq<Piece>, b: seq<Piece>, c: seq<Piece>)
    ensures [OPEN] + (a + b + c) + [CLOSE] == [OPEN] + a + b + c + [CLOSE]
  {
  }

  lemma BinaryPieces(e: Expr)
    requires e.BinaryExpression? && Written(Full(e.left)) == Pieces(e.left) && Written(Full(e.right)) == Pieces(e.right)
    ensures Written(Full(e)) == Pieces(e)
  {
    hide Spaced, BinaryText, BinaryKind;
    AroundPieces(Pieces(e.left), [Gap(BinaryText(e.operator), BinaryKind(e.operator))], Spaced(Pieces(e.right)));
  }

  lemma UnaryPieces(e: Expr)
    requires e.UnaryExpression? && Written(Full(e.operand)) == Pieces(e.operand)
    ensures Written(Full(e)) == Pieces(e)
  {
    hide Spaced, UnaryText, UnaryKind;
    var mark := [Mark(UnaryText(e.sign), UnaryKind(e.sign))];
    AroundPieces([], mark, Spaced(Pieces(e.operand)));
    assert [] + mark == mark && [OPEN] + [] == [OPEN];
  }

  lemma ComparedPieces(e: Expr)
    requires e.ComparisonExpression? && Written(Full(e.left)) == Pieces(e.left) && Written(Full(e.right)) == Pieces(e.right)
    ensures Written(Full(e)) == Pieces(e)
  {
    hide Spaced, ComparisonPieces;
    AroundPieces(Pieces(e.left), ComparisonPieces(e.comparison), Spaced(Pieces(e.right)));
  }

  lemma TestPieces(e: Expr)
    requires e.NullTest? && Written(Full(e.operand)) == Pieces(e.operand)
    ensures Written(Full(e)) == Pieces(e)
  {
    hide NotPiece, TestWords;
    TestAround(Pieces(e.operand), e.negated);
  }

  lemma InPieces(e: Expr)
    requires e.InExpression? && Written(Full(e.operand)) == Pieces(e.operand)
    requires WrittenList(FullList(e.values)) == ListPieces(e.values)
    ensures Written(Full(e)) == Pieces(e)
  {
    hide NotPiece, InWords, WrittenList, ListPieces, Written, Full, Pieces;
    InIs(e);
    InAround(Pieces(e.operand), e.negated, ListPieces(e.values));
  }

  lemma InIs(e: Expr)
    requires e.InExpression?
    ensures Written(Full(e)) ==
      [OPEN] + (Written(Full(e.operand)) + InWords(e.negated) + WrittenList(FullList(e.values)) + [CLOSE]) + [CLOSE]
    ensures Pieces(e) ==
      [OPEN] + Pieces(e.operand) + NotPiece(e.negated) + [Gap("IN", IN)] + [Gap("(", LPAREN)] + ListPieces(e.values)
      + [CLOSE] + [CLOSE]
  {
    hide NotPiece, InWords, WrittenList, ListPieces;
  }

  lemma BetweenPieces(e: Expr)
    requires e.BetweenExpression? && Written(Full(e.operand)) == Pieces(e.operand)
    requires Written(Full(e.low)) == Pieces(e.low) && Written(Full(e.high)) == Pieces(e.high)
    ensures Written(Full(e)) == Pieces(e)
  {
    hide NotPiece, BetweenWords, Spaced, Written, Full, Pieces;
    BetweenIs(e);
    BetweenAround(Pieces(e.operand), e.negated, Spaced(Pieces(e.low)), Spaced(Pieces(e.high)));
  }

  lemma BetweenIs(e: Expr)
    requires e.BetweenExpression?
    ensures Written(Full(e)) ==
      [OPEN] + (Written(Full(e.operand)) + BetweenWords(e.negated) + Spaced(Written(Full(e.low))) + [Gap("AND", AND)]
                + Spaced(Written(Full(e.high)))) + [CLOSE]
    ensures Pieces(e) ==
      [OPEN] + Pieces(e.operand) + NotPiece(e.negated) + [Gap("BETWEEN", BETWEEN)] + Spaced(Pieces(e.low))
      + [Gap("AND", AND)] + Spaced(Pieces(e.high)) + [CLOSE]
  {
    hide NotPiece, BetweenWords, Spaced;
  }

  lemma CallPiecesMatch(e: Expr)
    requires e.FunctionCall? && IsName(e.function_) && (e.arguments.Listed? ==> WrittenList(FullList(e.arguments.es)) == ListPieces(e.arguments.es))
    ensures Written(Full(e)) == Pieces(e)
  {
    hide WrittenList, ListPieces, Spaced, IsName;
    assert WordPiece(NameWord(e.function_)) == Mark(e.function_, IDENTIFIER);
  }

  lemma LeafPieces(e: Expr)
    requires IsLeaf(e) && Printable(e)
    ensures Written(Full(e)) == Pieces(e)
  {
    hide IsName, Doubled;
    if e.StringLiteral? {
      NothingDoubled(e.s, '\'');
      assert ['\''] + e.s + ['\''] == "'" + e.s + "'";
    }
    if e.ColumnReference? { ColumnPieces(e); }
  }

  lemma ColumnPieces(e: Expr)
    requires e.ColumnReference? && Printable(e)
    ensures WordPiece(NameWord(e.column)) == Mark(e.column, IDENTIFIER)
    ensures e.table.Some? ==> e.table.value != "" && WordPiece(NameWord(e.table.value)) == Mark(e.table.value, IDENTIFIER)
  {
  }

  /** The fully parenthesised tree is written as the printed form's pieces. */
  lemma {:induction false} FullPieces(e: Expr)
    requires Printable(e)
    ensures Written(Full(e)) == Pieces(e)
    decreases e, 0
  {
    hide Written, Full, Pieces, WrittenList, FullList, ListPieces, IsName, NameWord, LeafTree;
    match e
    case BinaryExpression(left, _, right) => FullPieces(left); FullPieces(right); BinaryPieces(e);
    case UnaryExpression(_, operand) => FullPieces(operand); UnaryPieces(e);
    case ComparisonExpression(left, _, right) => FullPieces(left); FullPieces(right); ComparedPieces(e);
    case NullTest(operand, _) => FullPieces(operand); TestPieces(e);
    case InExpression(operand, values, _) => FullPieces(operand); FullListPieces(values); InPieces(e);
    case BetweenExpression(operand, low, high, _) => FullPieces(operand); FullPieces(low); FullPieces(high); BetweenPieces(e);
    case FunctionCall(_, AllColumns, _) => CallPiecesMatch(e);
    case FunctionCall(_, Listed(es), _) => FullListPieces(es); CallPiecesMatch(e);
    case _ => LeafPieces(e);
  }

  lemma TestAround(a: seq<Piece>, negated: bool)
    ensures [OPEN] + (a + TestWords(negated)) + [CLOSE] == [OPEN] + a + [Gap("IS", IS)] + NotPiece(negated) + [Gap("NULL", NULL)] + [CLOSE]
  {
  }

  lemma InAround(a: seq<Piece>, negated: bool, values: seq<Piece>)
    ensures [OPEN] + (a + InWords(negated) + values + [CLOSE]) + [CLOSE]
         == [OPEN] + a + NotPiece(negated) + [Gap("IN", IN)] + [Gap("(", LPAREN)] + values + [CLOSE] + [CLOSE]
  {
  }

  lemma BetweenAround(a: seq<Piece>, negated: bool, low: seq<Piece>, high: seq<Piece>)
    ensures [OPEN] + (a + BetweenWords(negated) + low + [Gap("AND", AND)] + high) + [CLOSE]
         == [OPEN] + a + NotPiece(negated) + [Gap("BETWEEN", BETWEEN)] + low + [Gap("AND", AND)] + high + [CLOSE]
  {
  }

  lemma {:induction false} FullListPieces(es: seq<Expr>)
    requires AllPrintable(es)
    ensures WrittenList(FullList(es)) == ListPieces(es)
    decreases es, 1
  {
    hide Printable, Written, Pieces, Spaced;
    if es != [] {
      FullPieces(es[0]);
      FullListPieces(es[1..]);
      assert FullList(es)[0] == Full(es[0]) && FullList(es)[1..] == FullList(es[1..]);
    }
  }

  /** Lexing the printed form gives the expression's pieces and the end. */
  lemma PrintedTokens(e: Expr)
    requires Printable(e)
    ensures var ts := Tokenize(Print(e));
            |ts| == |Pieces(e)| + 1 && Spell(ts, 0, Pieces(e)) && Ended(ts)
  {
    hide Tokenize, Written, Full, Grammatical, Spellable, Print, Pieces, Show, Printable;
    PiecesSpellPrint(e);
    FullIsTree(e);
    FullPieces(e);
    WrittenTokens(Full(e));
  }

  /** Every printable expression, wherever its printed form stands, is read back as one primary
      expression, or runs into the depth limit; which of the two depends on its nesting alone. */
  lemma ParsesBack(e: Expr, ts: seq<Token>, pos: nat, depth: nat, max: nat)
    requires Printable(e) && Ended(ts) && Spell(ts, pos, Pieces(e)) && depth <= max
    requires var end := pos + |Pieces(e)|;
             end < |ts| && NameEnds(ts[end].kind)
    ensures pos < |ts| && Reads(ParsePrimary(ts, pos, depth, max), e, pos + |Pieces(e)|, depth + Nesting(e) <= max)
  {
    hide ParsePrimary, Written, Full, Grammatical, Spellable, Pieces, Printable, Meaning, Deep, Nesting;
    FullIsTree(e);
    FullPieces(e);
    SpelledMatches(ts, pos, Pieces(e));
    PrimaryReads(Full(e), ts, pos, depth, max);
  }

  // ---- The round trip ----

  /** Lexing and parsing the printed form of an expression gives the expression back, up to the end
      of the input, exactly when its nesting fits the depth limit; otherwise it is the recursion error. */
  lemma RoundTrip(e: Expr, max: nat)
    requires Printable(e)
    ensures var ts := Tokenize(Print(e));
            Ended(ts) && Reads(ParseExpression(ts, 0, 0, max), e, |ts| - 1, 1 + Nesting(e) <= max)
  {
    hide Tokenize, Written, Full, Grammatical, Spellable, Print, Pieces, Show, Printable, ParseExpression, Meaning, Deep, Nesting;
    PiecesSpellPrint(e);
    FullIsTree(e);
    FullPieces(e);
    TreeRoundTrip(Full(e), max);
  }

  /** No two printable expressions print alike. */
  lemma PrintIsInjective(a: Expr, b: Expr)
    requires Printable(a) && Printable(b) && Print(a) == Print(b)
    ensures a == b
  {
    hide Tokenize, Print, Printable, Nesting, ParseExpression;
    var max := 1 + Larger(Nesting(a), Nesting(b));
    RoundTrip(a, max);
    RoundTrip(b, max);
  }

  // ---- Why string literals must be free of quotes ----

  /** A literal is no longer than the text it is read from, and as long only without quotes in it. */
  lemma {:induction false} QuotedLength(text: string, at: Place, value: string)
    requires at.pos <= |text|
    ensures var (found, end) := QuotedAt(text, at, '\'', value);
            found.Some? ==>
              at.pos < end.pos && |found.value| <= |value| + (end.pos - 1 - at.pos) &&
              (|found.value| == |value| + (end.pos - 1 - at.pos) ==> forall j :: at.pos <= j < end.pos - 1 ==> text[j] != '\'')
    decreases |text| - at.pos
  {
    if at.pos < |text| {
      if text[at.pos] == '\'' {
        if Looking(text, at.pos + 1, '\'') { QuotedLength(text, Forward(at, 2), value + ['\'']); }
      } else {
        QuotedLength(text, StepOver(text, at), value + [text[at.pos]]);
      }
    }
  }

  lemma QuoteIsNotSkipped(text: string)
    requires text != "" && text[0] == '\''
    ensures SkipBlank(text, START) == START
  {
  }

  lemma QuotedToken(text: string)
    requires text != "" && text[0] == '\''
    ensures var (found, _) := QuotedAt(text, Forward(START, 1), '\'', "");
            TokenAt(text, START).0.kind == STRING ==> found == Some(TokenAt(text, START).0.value)
  {
    hide SkipBlank, QuotedAt, NumberAt, WordAt, OperatorAt, WordKind, IsLetter, IsDigit;
    QuoteIsNotSkipped(text);
  }

  lemma QuotedIsFirstToken(text: string)
    requires text != "" && text[0] == '\''
    ensures var (found, _) := QuotedAt(text, Forward(START, 1), '\'', "");
            Tokenize(text)[0].kind == STRING ==> found == Some(Tokenize(text)[0].value)
  {
    hide TokenAt, QuotedAt;
    QuotedToken(text);
    assert TokensFrom(text, START)[0] == TokenAt(text, START).0;
  }

  lemma InnerQuoteBreaks(s: string, j: nat)
    requires j < |s| && s[j] == '\''
    ensures var ts := Tokenize(Print(StringLiteral(s)));
            ts[0].kind == STRING ==> ts[0].value != s
  {
    hide TokensFrom, Tokenize, QuotedAt;
    var text := Print(StringLiteral(s));
    assert text == "'" + s + "'";
    QuotedIsFirstToken(text);
    LongestQuoted(text, s, j);
  }

  lemma LongestQuoted(text: string, s: string, j: nat)
    requires text == "'" + s + "'" && j < |s| && s[j] == '\''
    ensures QuotedAt(text, Forward(START, 1), '\'', "").0 != Some(s)
  {
    hide QuotedAt;
    QuotedLength(text, Forward(START, 1), "");
    assert text[j + 1] == '\'';
  }

  // What a parse that comes out as a string literal has read.

  /** The operator loops give back their left side or a binary expression. */
  lemma {:induction false} RestIsLeftOrBinary(ts: seq<Token>, pos: nat, depth: nat, max: nat, level: Level, left: Expr)
    requires Ended(ts) && pos < |ts|
    ensures var r := ParseRest(ts, pos, depth, max, level, left);
            r.Success? ==> r.value == left || r.value.BinaryExpression?
    decreases |ts| - pos
  {
    var op := Operator(level, ts[pos].kind);
    if op.Some? {
      var right := ParseOperand(ts, pos + 1, depth, max, level);
      if right.Success? {
        RestIsLeftOrBinary(ts, right.pos, depth, max, level, BinaryExpression(left, op.value, right.value));
      }
    }
  }

  /** The parse fails, or its value is no string literal, or it is the first token's. */
  predicate FirstTokenOnly(r: Parsed, token: Token) {
    r.Success? && r.value.StringLiteral? ==> token.kind == STRING && r.value == StringLiteral(token.value)
  }

  predicate QuotedOrError(kind: Kind) { kind == STRING || kind == ERROR }

  lemma {:induction false} LevelOfQuoted(ts: seq<Token>, pos: nat, depth: nat, max: nat, level: Level)
    requires Ended(ts) && pos < |ts| && QuotedOrError(ts[pos].kind)
    ensures FirstTokenOnly(ParseLevel(ts, pos, depth, max, level), ts[pos])
    decreases LevelRank(level)
  {
    var first := ParseOperand(ts, pos, depth, max, level);
    assert FirstTokenOnly(first, ts[pos]) by {
      match level
      case OrLevel => LevelOfQuoted(ts, pos, depth, max, AndLevel);
      case AndLevel => NotOfQuoted(ts, pos, depth, max);
      case AddLevel => LevelOfQuoted(ts, pos, depth, max, MulLevel);
      case MulLevel => UnaryOfQuoted(ts, pos, depth, max);
    }
    if first.Success? { RestIsLeftOrBinary(ts, first.pos, depth, max, level, first.value); }
  }

  lemma UnaryOfQuoted(ts: seq<Token>, pos: nat, depth: nat, max: nat)
    requires Ended(ts) && pos < |ts| && QuotedOrError(ts[pos].kind)
    ensures FirstTokenOnly(ParseUnary(ts, pos, depth, max), ts[pos])
  {
    hide ParseExpression, ParseName;
  }

  lemma {:induction false} NotOfQuoted(ts: seq<Token>, pos: nat, depth: nat, max: nat)
    requires Ended(ts) && pos < |ts| && QuotedOrError(ts[pos].kind)
    ensures FirstTokenOnly(ParseNot(ts, pos, depth, max), ts[pos])
    decreases 6
  {
    hide ParseLevel, ParseComparisonTail;
    LevelOfQuoted(ts, pos, depth, max, AddLevel);
    var left := ParseLevel(ts, pos, depth, max, AddLevel);
    if left.Success? { TailIsLeftOrNoLiteral(ts, left.pos, depth, max, left.value); }
  }

  lemma TailIsLeftOrNoLiteral(ts: seq<Token>, pos: nat, depth: nat, max: nat, left: Expr)
    requires Ended(ts) && pos < |ts|
    ensures var r := ParseComparisonTail(ts, pos, depth, max, left);
            r.Success? && r.value.StringLiteral? ==> r.value == left
  {
    hide ParseLevel, ParseMembership;
    MembershipIsLeftOrNoLiteral(ts, pos, depth, max, left);
  }

  lemma MembershipIsLeftOrNoLiteral(ts: seq<Token>, pos: nat, depth: nat, max: nat, left: Expr)
    requires Ended(ts) && pos < |ts|
    ensures var r := ParseMembership(ts, pos, depth, max, left);
            r.Success? && r.value.StringLiteral? ==> r.value == left
  {
    hide ParseLevel, ParseList;
  }

  lemma LiteralIsFirstToken(ts: seq<Token>, max: nat)
    requires Ended(ts) && QuotedOrError(ts[0].kind)
    ensures FirstTokenOnly(ParseExpression(ts, 0, 0, max), ts[0])
  {
    hide ParseLevel;
    if 1 <= max { LevelOfQuoted(ts, 0, 1, max, OrLevel); }
  }

  lemma QuotedTokenKind(text: string)
    requires text != "" && text[0] == '\''
    ensures Ended(Tokenize(text)) && QuotedOrError(Tokenize(text)[0].kind)
  {
    hide TokenAt, SkipBlank, QuotedOrError;
    QuotedTokenIsOne(text);
    assert TokensFrom(text, START)[0] == TokenAt(text, START).0;
  }

  lemma QuotedTokenIsOne(text: string)
    requires text != "" && text[0] == '\''
    ensures QuotedOrError(TokenAt(text, START).0.kind)
  {
    hide SkipBlank, QuotedAt, NumberAt, WordAt, OperatorAt, WordKind, Upper, IsLetter, IsDigit;
    QuoteIsNotSkipped(text);
  }

  /** The printer does not escape quotes: a string literal comes back through lexer and parser exactly
      when it has none (and the depth limit admits an expression at all). */
  lemma StringRoundTripsIff(s: string, max: nat)
    ensures var ts := Tokenize(Print(StringLiteral(s)));
            var r := ParseExpression(ts, 0, 0, max);
            r.Success? && r.value == StringLiteral(s) <==> '\'' !in s && 1 <= max
  {
    hide TokensFrom, Tokenize, ParseLevel;
    var e := StringLiteral(s);
    if '\'' in s {
      var j: nat :| j < |s| && s[j] == '\'';
      InnerQuoteBreaks(s, j);
      QuotedTokenKind(Print(e));
      LiteralIsFirstToken(Tokenize(Print(e)), max);
    } else {
      RoundTrip(e, max);
    }
  }
}
