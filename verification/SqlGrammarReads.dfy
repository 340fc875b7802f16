// What the parser makes of a tree of the grammar, wherever its tokens stand.
module SqlGrammarReads {
  import opened Wrappers
  import opened Decimal
  import opened SqlLexer
  import opened SqlAst
  import opened SqlParser
  import opened SqlPrinted
  import opened SqlLexPrinted
  import opened SqlGrammar

  /** The expression, ending here, if it fits the depth limit; otherwise the recursion error. */
  ghost predicate Reads(r: Parsed, e: Expr, end: nat, fits: bool) {
    if fits then r == Success(e, end) else r.Failure? && r.error == RecursionLimit
  }

  ghost predicate ReadsList(r: ParsedList, es: seq<Expr>, end: nat, fits: bool) {
    if fits then r == SuccessList(es, end) else r.FailureList? && r.error == RecursionLimit
  }

  // ---- Tokens that read as pieces ----

  /** The kinds of token that the parser looks at the value of. */
  predicate HasValue(kind: Kind) { kind in {IDENTIFIER, QUOTED_IDENTIFIER, STRING, INTEGER, FLOAT} }

  predicate MatchesOne(t: Token, p: Piece) { t.kind == p.kind && (HasValue(p.kind) ==> t.value == p.value) }

  /** The tokens from a position on are of the pieces' kinds and, where it matters, have their values:
      keywords may be in either case, and <> may stand for !=. */
  ghost predicate Matches(ts: seq<Token>, pos: nat, ps: seq<Piece>) {
    pos + |ps| <= |ts| && forall j :: 0 <= j < |ps| ==> MatchesOne(ts[pos + j], ps[j])
  }

  lemma SpelledMatches(ts: seq<Token>, pos: nat, ps: seq<Piece>)
    requires Spell(ts, pos, ps)
    ensures Matches(ts, pos, ps)
  {
  }

  lemma MatchSplit(ts: seq<Token>, pos: nat, a: seq<Piece>, b: seq<Piece>)
    ensures Matches(ts, pos, a + b) <==> Matches(ts, pos, a) && Matches(ts, pos + |a|, b)
  {
    hide MatchesOne;
    var ps := a + b;
    if Matches(ts, pos, ps) {
      assert forall j :: 0 <= j < |a| ==> ps[j] == a[j];
      forall j | 0 <= j < |b| ensures MatchesOne(ts[pos + |a| + j], b[j]) {
        assert ps[|a| + j] == b[j];
        assert MatchesOne(ts[pos + (|a| + j)], ps[|a| + j]);
      }
    }
    if Matches(ts, pos, a) && Matches(ts, pos + |a|, b) {
      forall j | 0 <= j < |ps| ensures MatchesOne(ts[pos + j], ps[j]) {
        if j >= |a| {
          assert ps[j] == b[j - |a|];
          assert MatchesOne(ts[pos + |a| + (j - |a|)], b[j - |a|]);
        }
      }
    }
  }

  lemma MatchSpaced(ts: seq<Token>, pos: nat, ps: seq<Piece>)
    requires ps != []
    ensures Matches(ts, pos, Spaced(ps)) <==> Matches(ts, pos, ps)
  {
    hide HasValue;
    var qs := Spaced(ps);
    assert forall j :: 0 <= j < |ps| ==> qs[j].kind == ps[j].kind && qs[j].value == ps[j].value;
    if pos + |ps| <= |ts| {
      forall j | 0 <= j < |ps| ensures MatchesOne(ts[pos + j], qs[j]) <==> MatchesOne(ts[pos + j], ps[j]) {}
    }
  }

  lemma MatchOne(ts: seq<Token>, pos: nat, p: Piece)
    ensures Matches(ts, pos, [p]) <==> pos < |ts| && MatchesOne(ts[pos], p)
  {
    hide MatchesOne;
    if pos < |ts| && MatchesOne(ts[pos], p) { assert MatchesOne(ts[pos + 0], [p][0]); }
    if Matches(ts, pos, [p]) { assert MatchesOne(ts[pos + 0], [p][0]); }
  }

  lemma MatchLast(ts: seq<Token>, pos: nat, a: seq<Piece>, p: Piece)
    ensures Matches(ts, pos, a + [p]) <==> Matches(ts, pos, a) && pos + |a| < |ts| && MatchesOne(ts[pos + |a|], p)
  {
    hide MatchesOne, Matches;
    MatchSplit(ts, pos, a, [p]);
    MatchOne(ts, pos + |a|, p);
  }

  lemma MatchFirst(ts: seq<Token>, pos: nat, p: Piece, a: seq<Piece>)
    ensures Matches(ts, pos, [p] + a) <==> pos < |ts| && MatchesOne(ts[pos], p) && Matches(ts, pos + 1, a)
  {
    hide MatchesOne, Matches;
    MatchSplit(ts, pos, [p], a);
    MatchOne(ts, pos, p);
  }

  lemma MatchThen(ts: seq<Token>, pos: nat, a: seq<Piece>, b: seq<Piece>)
    requires b != []
    ensures Matches(ts, pos, a + Spaced(b)) <==> Matches(ts, pos, a) && Matches(ts, pos + |a|, b)
  {
    hide Matches, Spaced;
    MatchSplit(ts, pos, a, Spaced(b));
    MatchSpaced(ts, pos + |a|, b);
  }

  // ---- How trees begin ----

  predicate StartsPrimary(kind: Kind) {
    kind in {NULL, TRUE, FALSE, INTEGER, FLOAT, STRING, QUESTION, COLON, IDENTIFIER, QUOTED_IDENTIFIER, LPAREN}
  }

  predicate StartsTree(kind: Kind) { StartsPrimary(kind) || kind in {NOT, MINUS, PLUS} }

  lemma PrimaryStarts(c: Syntax)
    requires Grammatical(c) && Rank(c) == PRIMARY_RANK
    ensures StartsPrimary(Written(c)[0].kind)
  {
    hide Spaced, WrittenList, WordText;
  }

  lemma FirstOfWritten(c: Syntax)
    requires Grammatical(c)
    ensures c.Infix? || c.Compare? ==>
      Written(c)[0] == Written(c.left)[0] && Grammatical(c.left) && Rank(c) <= Rank(c.left) < 8 && (c.Compare? ==> Rank(c.left) >= SUM_RANK)
    ensures c.IsNull? || c.OneOf? || c.Within? ==>
      Written(c)[0] == Written(c.operand)[0] && Grammatical(c.operand) && Rank(c.operand) >= SUM_RANK
    ensures c.Prefix? ==> Written(c)[0].kind == UnaryKind(c.sign)
  {
    hide Spaced, WrittenList, TestWords, InWords, BetweenWords, ComparisonPieces, CallPieces, WordPiece;
  }

  lemma {:induction false} FirstPiece(c: Syntax)
    requires Grammatical(c)
    ensures var kind := Written(c)[0].kind;
            StartsTree(kind) && (Rank(c) > NOT_RANK ==> kind != NOT) && (Rank(c) == PRIMARY_RANK ==> StartsPrimary(kind))
    decreases c
  {
    hide Written, Grammatical;
    FirstOfWritten(c);
    match c
    case Infix(left, _, _) => FirstPiece(left);
    case Compare(left, _, _) => FirstPiece(left);
    case IsNull(operand, _) => FirstPiece(operand);
    case OneOf(operand, _, _) => FirstPiece(operand);
    case Within(operand, _, _, _) => FirstPiece(operand);
    case Prefix(_, _) =>
    case _ => PrimaryStarts(c);
  }

  function End(pos: nat, c: Syntax): nat { pos + |Written(c)| }

  /** A grammatical tree stands at this position, and something follows it. */
  ghost predicate Placed(ts: seq<Token>, pos: nat, c: Syntax) {
    Grammatical(c) && Ended(ts) && Matches(ts, pos, Written(c)) && End(pos, c) < |ts|
  }

  lemma InTokens(ts: seq<Token>, pos: nat, c: Syntax)
    requires Placed(ts, pos, c)
    ensures Ended(ts) && pos < End(pos, c) < |ts| && StartsTree(ts[pos].kind)
    ensures Rank(c) > NOT_RANK ==> ts[pos].kind != NOT
    ensures Rank(c) == PRIMARY_RANK ==> StartsPrimary(ts[pos].kind)
  {
    hide Written, Grammatical, StartsTree, StartsPrimary;
    FirstPiece(c);
    assert ts[pos + 0].kind == Written(c)[0].kind;
  }

  // ---- Climbing the grammar ----

  /** The loop that folds the operators of a rank. */
  function LevelAt(rank: nat): Option<Level> {
    if rank == OR_RANK then Some(OrLevel)
    else if rank == AND_RANK then Some(AndLevel)
    else if rank == SUM_RANK then Some(AddLevel)
    else if rank == PRODUCT_RANK then Some(MulLevel)
    else None
  }

  function ParseRank(ts: seq<Token>, pos: nat, depth: nat, max: nat, rank: nat): (r: Parsed)
    requires Ended(ts) && pos < |ts|
    ensures Moved(r, ts, pos)
  {
    var level := LevelAt(rank);
    if level.Some? then ParseLevel(ts, pos, depth, max, level.value)
    else if rank == NOT_RANK then ParseNot(ts, pos, depth, max)
    else if rank == COMPARISON_RANK then ParseComparison(ts, pos, depth, max)
    else if rank == SIGN_RANK then ParseUnary(ts, pos, depth, max)
    else ParsePrimary(ts, pos, depth, max)
  }

  /** What the loop of a rank, if it has one, makes of its first operand. */
  function GoOn(ts: seq<Token>, pos: nat, depth: nat, max: nat, rank: nat, left: Expr): Parsed
    requires Ended(ts) && pos < |ts|
  {
    var level := LevelAt(rank);
    if level.Some? then ParseRest(ts, pos, depth, max, level.value, left) else Success(left, pos)
  }

  /** No call or qualified name goes on. */
  predicate NameEnds(kind: Kind) { kind != LPAREN && kind != DOT }

  predicate ComparisonEnds(kind: Kind) { Comparison(kind).None? && kind !in {NOT, IS, IN, BETWEEN} }

  /** A token that nothing binding more tightly than a rank goes on with. */
  predicate Closes(rank: nat, kind: Kind) {
    NameEnds(kind) &&
    (rank < PRODUCT_RANK ==> Operator(MulLevel, kind).None?) &&
    (rank < SUM_RANK ==> Operator(AddLevel, kind).None? && ComparisonEnds(kind)) &&
    (rank < AND_RANK ==> Operator(AndLevel, kind).None?)
  }

  /** The parser, at a rank, has read the expression up to here, and goes on with what follows. */
  ghost predicate ReadsOn(r: Parsed, ts: seq<Token>, end: nat, depth: nat, max: nat, rank: nat, e: Expr, fits: bool)
    requires Ended(ts) && end < |ts|
  {
    if fits then r == GoOn(ts, end, depth, max, rank, e) else r.Failure? && r.error == RecursionLimit
  }

  lemma GoesNoFurther(ts: seq<Token>, pos: nat, depth: nat, max: nat, rank: nat, e: Expr)
    requires Ended(ts) && pos < |ts| && 0 < rank && Closes(rank - 1, ts[pos].kind)
    ensures GoOn(ts, pos, depth, max, rank, e) == Success(e, pos)
  {
  }

  lemma ReadsUpTo(r: Parsed, ts: seq<Token>, end: nat, depth: nat, max: nat, rank: nat, e: Expr, fits: bool)
    requires Ended(ts) && end < |ts| && 0 < rank && Closes(rank - 1, ts[end].kind)
    requires ReadsOn(r, ts, end, depth, max, rank, e, fits)
    ensures Reads(r, e, end, fits)
  {
    hide GoOn, Closes;
    GoesNoFurther(ts, end, depth, max, rank, e);
  }

  lemma NoTail(ts: seq<Token>, pos: nat, depth: nat, max: nat, left: Expr)
    requires Ended(ts) && pos < |ts| && ComparisonEnds(ts[pos].kind)
    ensures ParseComparisonTail(ts, pos, depth, max, left) == Success(left, pos)
  {
    hide ParseRight, ParseIn, ParseBetween;
  }

  /** What one rank reads, the next looser one reads and goes on from. */
  lemma LooserReads(ts: seq<Token>, pos: nat, depth: nat, max: nat, rank: nat, e: Expr, end: nat, fits: bool)
    requires Ended(ts) && pos < |ts| && end < |ts| && rank < PRIMARY_RANK && Closes(rank, ts[end].kind)
    requires rank == NOT_RANK ==> ts[pos].kind != NOT
    requires rank == SIGN_RANK ==> StartsPrimary(ts[pos].kind)
    requires ReadsOn(ParseRank(ts, pos, depth, max, rank + 1), ts, end, depth, max, rank + 1, e, fits)
    ensures ReadsOn(ParseRank(ts, pos, depth, max, rank), ts, end, depth, max, rank, e, fits)
  {
    hide GoOn, Closes, ParseRank, ParseRest, ParseNot, ParseLevel, ParseOperand, ParseComparison, ParseUnary, ParsePrimary, Reads;
    ReadsUpTo(ParseRank(ts, pos, depth, max, rank + 1), ts, end, depth, max, rank + 1, e, fits);
    if LevelAt(rank).Some? {
      LoopStarts(ts, pos, depth, max, rank, e, end, fits);
    } else {
      PlainStep(ts, pos, depth, max, rank, e, end, fits);
    }
  }

  lemma LoopStarts(ts: seq<Token>, pos: nat, depth: nat, max: nat, rank: nat, e: Expr, end: nat, fits: bool)
    requires Ended(ts) && pos < |ts| && end < |ts| && LevelAt(rank).Some?
    requires Reads(ParseRank(ts, pos, depth, max, rank + 1), e, end, fits)
    ensures ReadsOn(ParseRank(ts, pos, depth, max, rank), ts, end, depth, max, rank, e, fits)
  {
    hide ParseRest, ParseNot, ParseUnary;
    assert ParseOperand(ts, pos, depth, max, LevelAt(rank).value) == ParseRank(ts, pos, depth, max, rank + 1);
  }

  lemma PlainStep(ts: seq<Token>, pos: nat, depth: nat, max: nat, rank: nat, e: Expr, end: nat, fits: bool)
    requires Ended(ts) && pos < |ts| && end < |ts| && rank < PRIMARY_RANK && LevelAt(rank).None? && Closes(rank, ts[end].kind)
    requires rank == NOT_RANK ==> ts[pos].kind != NOT
    requires rank == SIGN_RANK ==> StartsPrimary(ts[pos].kind)
    requires Reads(ParseRank(ts, pos, depth, max, rank + 1), e, end, fits)
    ensures ReadsOn(ParseRank(ts, pos, depth, max, rank), ts, end, depth, max, rank, e, fits)
  {
    hide ParseLevel, ParsePrimary, ParseComparisonTail;
    if rank == COMPARISON_RANK && fits { NoTail(ts, end, depth, max, e); }
  }

  // ---- One form at a time ----

  /** What a subtree reads, by the parser for what binds as tightly as a given rank, before a token that
      ends it there. */
  lemma {:induction false} SubtreeReads(c: Syntax, ts: seq<Token>, pos: nat, depth: nat, max: nat, rank: nat)
    requires Placed(ts, pos, c) && depth <= max && 0 < rank <= Rank(c) && Closes(rank - 1, ts[End(pos, c)].kind)
    ensures pos < |ts| && Reads(ParseRank(ts, pos, depth, max, rank), Meaning(c), End(pos, c), depth + Deep(c) <= max)
    decreases c, 19
  {
    hide Placed, End, Written, ParseRank, GoOn, Closes, ReadsOn, Reads, Deep, Meaning;
    InTokens(ts, pos, c);
    ClosesTighter(rank - 1, ts[End(pos, c)].kind);
    TreeReads(c, ts, pos, depth, max, rank);
    ReadsUpTo(ParseRank(ts, pos, depth, max, rank), ts, End(pos, c), depth, max, rank, Meaning(c), depth + Deep(c) <= max);
  }

  lemma ClosesTighter(rank: nat, kind: Kind)
    requires Closes(rank, kind)
    ensures Closes(rank + 1, kind)
  {
  }

  /** Tokens that end a sum: either side of a comparison, and the bounds of BETWEEN. */
  predicate SumEnds(kind: Kind) { NameEnds(kind) && Operator(MulLevel, kind).None? && Operator(AddLevel, kind).None? }

  lemma {:induction false} SumReads(c: Syntax, ts: seq<Token>, pos: nat, depth: nat, max: nat)
    requires Placed(ts, pos, c) && depth <= max && Rank(c) >= SUM_RANK && SumEnds(ts[End(pos, c)].kind)
    ensures pos < |ts| && Reads(ParseLevel(ts, pos, depth, max, AddLevel), Meaning(c), End(pos, c), depth + Deep(c) <= max)
    decreases c, 19
  {
    hide Placed, End, Written, ParseLevel, Deep, Meaning;
    InTokens(ts, pos, c);
    TreeReads(c, ts, pos, depth, max, SUM_RANK);
  }

  lemma InfixReads(ts: seq<Token>, pos: nat, depth: nat, max: nat, left: Expr, mid: nat, leftFits: bool, op: BinaryOp,
        right: Expr, end: nat, rightFits: bool)
    requires Ended(ts) && pos < |ts| && mid + 1 < |ts| && end < |ts| && ts[mid].kind == BinaryKind(op)
    requires ReadsOn(ParseRank(ts, pos, depth, max, OperatorRank(op)), ts, mid, depth, max, OperatorRank(op), left, leftFits)
    requires Reads(ParseRank(ts, mid + 1, depth, max, OperatorRank(op) + 1), right, end, rightFits)
    ensures ReadsOn(ParseRank(ts, pos, depth, max, OperatorRank(op)), ts, end, depth, max, OperatorRank(op),
                    BinaryExpression(left, op, right), leftFits && rightFits)
  {
    hide ParseLevel, ParseNot, ParseUnary;
    var level := LevelAt(OperatorRank(op)).value;
    assert ParseOperand(ts, mid + 1, depth, max, level) == ParseRank(ts, mid + 1, depth, max, OperatorRank(op) + 1);
  }

  lemma OperatorCloses(op: BinaryOp)
    ensures LevelAt(OperatorRank(op)).Some? && Operator(LevelAt(OperatorRank(op)).value, BinaryKind(op)) == Some(op)
    ensures Closes(OperatorRank(op), BinaryKind(op))
  {
  }

  lemma InfixPlaced(c: Syntax, ts: seq<Token>, pos: nat)
    requires c.Infix? && Placed(ts, pos, c)
    ensures var mid := End(pos, c.left);
            Placed(ts, pos, c.left) && ts[mid].kind == BinaryKind(c.operator) && Placed(ts, mid + 1, c.right) &&
            End(mid + 1, c.right) == End(pos, c) &&
            Rank(c) == OperatorRank(c.operator) && Rank(c) <= Rank(c.left) && Rank(c) < Rank(c.right)
  {
    hide Matches, Spaced;
    var gap := Gap(BinaryText(c.operator), BinaryKind(c.operator));
    MatchThen(ts, pos, Written(c.left) + [gap], Written(c.right));
    MatchLast(ts, pos, Written(c.left), gap);
  }

  lemma {:induction false} InfixTreeReads(c: Syntax, ts: seq<Token>, pos: nat, depth: nat, max: nat)
    requires c.Infix? && Placed(ts, pos, c) && depth <= max && Closes(Rank(c), ts[End(pos, c)].kind)
    ensures pos < |ts| && ReadsOn(ParseRank(ts, pos, depth, max, Rank(c)), ts, End(pos, c), depth, max, Rank(c),
                                  Meaning(c), depth + Deep(c) <= max)
    decreases c, 0
  {
    hide Placed, End, Written, ParseRank, GoOn, Closes, ReadsOn, Reads, LevelAt, OperatorRank;
    var left, op, right := c.left, c.operator, c.right;
    InTokens(ts, pos, c);
    InfixPlaced(c, ts, pos);
    OperatorCloses(op);
    var mid := End(pos, left);
    InTokens(ts, mid + 1, right);
    TreeReads(left, ts, pos, depth, max, Rank(c));
    SubtreeReads(right, ts, mid + 1, depth, max, Rank(c) + 1);
    InfixReads(ts, pos, depth, max, Meaning(left), mid, depth + Deep(left) <= max, op,
               Meaning(right), End(pos, c), depth + Deep(right) <= max);
  }

  lemma PrefixPlaced(c: Syntax, ts: seq<Token>, pos: nat)
    requires c.Prefix? && Placed(ts, pos, c)
    ensures pos + 1 < |ts| && ts[pos].kind == UnaryKind(c.sign) && Placed(ts, pos + 1, c.operand) &&
            End(pos + 1, c.operand) == End(pos, c) && Rank(c) <= Rank(c.operand) && LevelAt(Rank(c)).None?
  {
    hide Matches, Spaced;
    var mark := Mark(UnaryText(c.sign), UnaryKind(c.sign));
    MatchFirst(ts, pos, mark, Spaced(Written(c.operand)));
    MatchSpaced(ts, pos + 1, Written(c.operand));
  }

  lemma PrefixReads(ts: seq<Token>, pos: nat, depth: nat, max: nat, op: UnaryOp, operand: Expr, end: nat, fits: bool)
    requires Ended(ts) && pos + 1 < |ts| && end < |ts| && ts[pos].kind == UnaryKind(op)
    requires var rank := if op == NotOp then NOT_RANK else SIGN_RANK;
             Reads(ParseRank(ts, pos + 1, depth, max, rank), operand, end, fits)
    ensures var rank := if op == NotOp then NOT_RANK else SIGN_RANK;
            ReadsOn(ParseRank(ts, pos, depth, max, rank), ts, end, depth, max, rank, UnaryExpression(op, operand), fits)
  {
    hide ParseComparison, ParsePrimary;
  }

  lemma {:induction false} PrefixTreeReads(c: Syntax, ts: seq<Token>, pos: nat, depth: nat, max: nat)
    requires c.Prefix? && Placed(ts, pos, c) && depth <= max && Closes(Rank(c), ts[End(pos, c)].kind)
    ensures pos < |ts| && ReadsOn(ParseRank(ts, pos, depth, max, Rank(c)), ts, End(pos, c), depth, max, Rank(c),
                                  Meaning(c), depth + Deep(c) <= max)
    decreases c, 0
  {
    hide Placed, End, Written, ParseRank, GoOn, Closes, Reads, LevelAt;
    InTokens(ts, pos, c);
    PrefixPlaced(c, ts, pos);
    InTokens(ts, pos + 1, c.operand);
    TreeReads(c.operand, ts, pos + 1, depth, max, Rank(c));
    PlainReads(ParseRank(ts, pos + 1, depth, max, Rank(c)), ts, End(pos, c), depth, max, Rank(c), Meaning(c.operand),
               depth + Deep(c) <= max);
    PrefixReads(ts, pos, depth, max, c.sign, Meaning(c.operand), End(pos, c), depth + Deep(c) <= max);
  }

  /** At a rank without a loop nothing goes on. */
  lemma PlainReads(r: Parsed, ts: seq<Token>, end: nat, depth: nat, max: nat, rank: nat, e: Expr, fits: bool)
    requires Ended(ts) && end < |ts| && LevelAt(rank).None?
    ensures ReadsOn(r, ts, end, depth, max, rank, e, fits) <==> Reads(r, e, end, fits)
  {
  }

  // ---- Comparisons ----

  /** The left side, then what the tail makes of it. */
  lemma TailReads(ts: seq<Token>, pos: nat, depth: nat, max: nat, left: Expr, mid: nat, leftFits: bool, e: Expr,
        end: nat, tailFits: bool)
    requires Ended(ts) && pos < |ts| && mid < |ts| && end < |ts|
    requires Reads(ParseLevel(ts, pos, depth, max, AddLevel), left, mid, leftFits)
    requires Reads(ParseComparisonTail(ts, mid, depth, max, left), e, end, tailFits)
    ensures ReadsOn(ParseRank(ts, pos, depth, max, COMPARISON_RANK), ts, end, depth, max, COMPARISON_RANK, e, leftFits && tailFits)
  {
    hide ParseLevel, ParseComparisonTail;
  }

  lemma RightReads(ts: seq<Token>, pos: nat, depth: nat, max: nat, left: Expr, op: ComparisonOp, right: Expr,
        end: nat, fits: bool)
    requires Ended(ts) && pos < |ts| && Reads(ParseLevel(ts, pos, depth, max, AddLevel), right, end, fits)
    ensures Reads(ParseRight(ts, pos, depth, max, left, op), ComparisonExpression(left, op, right), end, fits)
  {
    hide ParseLevel;
  }

  lemma SignTail(ts: seq<Token>, pos: nat, depth: nat, max: nat, left: Expr, op: ComparisonOp)
    requires Ended(ts) && pos + 1 < |ts| && Comparison(ts[pos].kind) == Some(op)
    ensures ParseComparisonTail(ts, pos, depth, max, left) == ParseRight(ts, pos + 1, depth, max, left, op)
    ensures SumEnds(ts[pos].kind)
  {
    hide ParseRight, ParseIn, ParseBetween;
  }

  lemma NotLikeTail(ts: seq<Token>, pos: nat, depth: nat, max: nat, left: Expr)
    requires Ended(ts) && pos + 2 < |ts| && ts[pos].kind == NOT && ts[pos + 1].kind == LIKE
    ensures ParseComparisonTail(ts, pos, depth, max, left) == ParseRight(ts, pos + 2, depth, max, left, NotLike)
    ensures SumEnds(ts[pos].kind)
  {
    hide ParseRight, ParseIn, ParseBetween;
  }

  /** The tokens of a comparison operator lead to its right side. */
  lemma ComparisonTail(ts: seq<Token>, pos: nat, depth: nat, max: nat, left: Expr, op: ComparisonOp)
    requires Ended(ts) && Matches(ts, pos, ComparisonPieces(op)) && pos + |ComparisonPieces(op)| < |ts|
    ensures ParseComparisonTail(ts, pos, depth, max, left) == ParseRight(ts, pos + |ComparisonPieces(op)|, depth, max, left, op)
    ensures SumEnds(ts[pos].kind)
  {
    hide ParseRight, ParseComparisonTail, SumEnds;
    assert ts[pos + 0].kind == ComparisonPieces(op)[0].kind;
    if op == NotLike {
      assert ts[pos + 1].kind == ComparisonPieces(op)[1].kind;
      NotLikeTail(ts, pos, depth, max, left);
    } else {
      SignTail(ts, pos, depth, max, left, op);
    }
  }

  lemma ComparePlaced(c: Syntax, ts: seq<Token>, pos: nat)
    requires c.Compare? && Placed(ts, pos, c)
    ensures var mid := End(pos, c.left);
            var start := mid + |ComparisonPieces(c.comparison)|;
            Placed(ts, pos, c.left) && Matches(ts, mid, ComparisonPieces(c.comparison)) && Placed(ts, start, c.right) &&
            End(start, c.right) == End(pos, c) && Rank(c.left) >= SUM_RANK && Rank(c.right) >= SUM_RANK
  {
    hide Matches, Spaced, ComparisonPieces;
    MatchThen(ts, pos, Written(c.left) + ComparisonPieces(c.comparison), Written(c.right));
    MatchSplit(ts, pos, Written(c.left), ComparisonPieces(c.comparison));
    ComparisonHasPieces(c.comparison);
  }

  lemma ComparisonHasPieces(op: ComparisonOp)
    ensures ComparisonPieces(op) != []
  {
  }

  lemma ClosedSum(kind: Kind)
    requires Closes(COMPARISON_RANK, kind)
    ensures SumEnds(kind)
  {
  }

  lemma {:induction false} CompareTreeReads(c: Syntax, ts: seq<Token>, pos: nat, depth: nat, max: nat)
    requires c.Compare? && Placed(ts, pos, c) && depth <= max && Closes(COMPARISON_RANK, ts[End(pos, c)].kind)
    ensures pos < |ts| && ReadsOn(ParseRank(ts, pos, depth, max, COMPARISON_RANK), ts, End(pos, c), depth, max, COMPARISON_RANK,
                                  Meaning(c), depth + Deep(c) <= max)
    decreases c, 0
  {
    hide Placed, End, Written, ParseRank, ParseLevel, ParseComparisonTail, ParseRight, Closes, ReadsOn, Reads, SumEnds, ComparisonPieces, Matches;
    var left, op, right := c.left, c.comparison, c.right;
    InTokens(ts, pos, c);
    ComparePlaced(c, ts, pos);
    var mid := End(pos, left);
    var start := mid + |ComparisonPieces(op)|;
    InTokens(ts, pos, left);
    InTokens(ts, start, right);
    ClosedSum(ts[End(pos, c)].kind);
    ComparisonTail(ts, mid, depth, max, Meaning(left), op);
    SumReads(left, ts, pos, depth, max);
    SumReads(right, ts, start, depth, max);
    RightReads(ts, start, depth, max, Meaning(left), op, Meaning(right), End(pos, c), depth + Deep(right) <= max);
    TailReads(ts, pos, depth, max, Meaning(left), mid, depth + Deep(left) <= max, Meaning(c), End(pos, c), depth + Deep(right) <= max);
  }

  lemma TestTail(ts: seq<Token>, pos: nat, depth: nat, max: nat, left: Expr, negated: bool)
    requires Ended(ts) && Matches(ts, pos, TestWords(negated))
    ensures pos < |ts| && SumEnds(ts[pos].kind)
    ensures ParseComparisonTail(ts, pos, depth, max, left) == Success(NullTest(left, negated), pos + |TestWords(negated)|)
  {
    hide ParseRight, ParseIn, ParseBetween;
    var ps := TestWords(negated);
    assert ts[pos + 0].kind == ps[0].kind;
    assert ts[pos + 1].kind == ps[1].kind;
    if negated { assert ts[pos + 2].kind == ps[2].kind; }
  }

  lemma TestPlaced(c: Syntax, ts: seq<Token>, pos: nat)
    requires c.IsNull? && Placed(ts, pos, c)
    ensures var mid := End(pos, c.operand);
            Placed(ts, pos, c.operand) && Matches(ts, mid, TestWords(c.negated)) && mid + |TestWords(c.negated)| == End(pos, c) &&
            Rank(c.operand) >= SUM_RANK
  {
    hide Matches, TestWords;
    MatchSplit(ts, pos, Written(c.operand), TestWords(c.negated));
  }

  lemma {:induction false} TestTreeReads(c: Syntax, ts: seq<Token>, pos: nat, depth: nat, max: nat)
    requires c.IsNull? && Placed(ts, pos, c) && depth <= max
    ensures pos < |ts| && ReadsOn(ParseRank(ts, pos, depth, max, COMPARISON_RANK), ts, End(pos, c), depth, max, COMPARISON_RANK,
                                  Meaning(c), depth + Deep(c) <= max)
    decreases c, 0
  {
    hide Placed, End, Written, ParseRank, ParseLevel, ParseComparisonTail, SumEnds, Matches, TestWords;
    InTokens(ts, pos, c);
    TestPlaced(c, ts, pos);
    var mid := End(pos, c.operand);
    TestTail(ts, mid, depth, max, Meaning(c.operand), c.negated);
    SumReads(c.operand, ts, pos, depth, max);
    TailReads(ts, pos, depth, max, Meaning(c.operand), mid, depth + Deep(c.operand) <= max, Meaning(c), End(pos, c), true);
  }

  lemma BetweenWordsMatches(ts: seq<Token>, pos: nat, negated: bool)
    requires Ended(ts) && Matches(ts, pos, BetweenWords(negated))
    ensures pos < |ts| && SumEnds(ts[pos].kind)
    ensures if negated then pos + 1 < |ts| && ts[pos].kind == NOT && ts[pos + 1].kind == BETWEEN else ts[pos].kind == BETWEEN
  {
    var ps := BetweenWords(negated);
    assert ts[pos + 0].kind == ps[0].kind;
    if negated { assert ts[pos + 1].kind == ps[1].kind; }
  }

  lemma BetweenReads(ts: seq<Token>, pos: nat, depth: nat, max: nat, left: Expr, negated: bool,
                     low: Expr, mid: nat, lowFits: bool, high: Expr, end: nat, highFits: bool)
    requires Ended(ts) && pos < |ts| && Reads(ParseLevel(ts, pos, depth, max, AddLevel), low, mid, lowFits)
    requires mid + 1 < |ts| && ts[mid].kind == AND && Reads(ParseLevel(ts, mid + 1, depth, max, AddLevel), high, end, highFits)
    ensures Reads(ParseBetween(ts, pos, depth, max, left, negated), BetweenExpression(left, low, high, negated), end, lowFits && highFits)
  {
    hide ParseLevel;
  }

  lemma TailIsBetween(ts: seq<Token>, pos: nat, depth: nat, max: nat, left: Expr, negated: bool)
    requires Ended(ts) && Matches(ts, pos, BetweenWords(negated)) && pos + |BetweenWords(negated)| < |ts|
    ensures ParseComparisonTail(ts, pos, depth, max, left) == ParseBetween(ts, pos + |BetweenWords(negated)|, depth, max, left, negated)
  {
    hide ParseRight, ParseIn, ParseBetween;
    BetweenWordsMatches(ts, pos, negated);
  }

  lemma WithinPlaced(c: Syntax, ts: seq<Token>, pos: nat)
    requires c.Within? && Placed(ts, pos, c)
    ensures var mid := End(pos, c.operand);
            var start := mid + |BetweenWords(c.negated)|;
            var middle := End(start, c.low);
            Placed(ts, pos, c.operand) && Matches(ts, mid, BetweenWords(c.negated)) && Placed(ts, start, c.low) &&
            ts[middle].kind == AND && Placed(ts, middle + 1, c.high) && End(middle + 1, c.high) == End(pos, c) &&
            Rank(c.operand) >= SUM_RANK && Rank(c.low) >= SUM_RANK && Rank(c.high) >= SUM_RANK
  {
    hide Matches, Spaced, BetweenWords, Written, Grammatical;
    WithinParts(c);
    var and := Gap("AND", AND);
    var head := Written(c.operand) + BetweenWords(c.negated);
    MatchThen(ts, pos, head + Spaced(Written(c.low)) + [and], Written(c.high));
    MatchLast(ts, pos, head + Spaced(Written(c.low)), and);
    MatchThen(ts, pos, head, Written(c.low));
    MatchSplit(ts, pos, Written(c.operand), BetweenWords(c.negated));
  }

  lemma WithinParts(c: Syntax)
    requires c.Within? && Grammatical(c)
    ensures Grammatical(c.operand) && Grammatical(c.low) && Grammatical(c.high)
    ensures Rank(c.operand) >= SUM_RANK && Rank(c.low) >= SUM_RANK && Rank(c.high) >= SUM_RANK
    ensures Written(c) == Written(c.operand) + BetweenWords(c.negated) + Spaced(Written(c.low)) + [Gap("AND", AND)]
                          + Spaced(Written(c.high))
  {
    hide Spaced, BetweenWords;
  }

  lemma AndEndsSum()
    ensures SumEnds(AND)
  {
  }

  lemma {:induction false} WithinTreeReads(c: Syntax, ts: seq<Token>, pos: nat, depth: nat, max: nat)
    requires c.Within? && Placed(ts, pos, c) && depth <= max && Closes(COMPARISON_RANK, ts[End(pos, c)].kind)
    ensures pos < |ts| && ReadsOn(ParseRank(ts, pos, depth, max, COMPARISON_RANK), ts, End(pos, c), depth, max, COMPARISON_RANK,
                                  Meaning(c), depth + Deep(c) <= max)
    decreases c, 0
  {
    hide Placed, End, Written, ParseRank, ParseLevel, ParseComparisonTail, ParseBetween, Closes, ReadsOn, Reads, SumEnds, Matches, BetweenWords;
    var left, low, high := c.operand, c.low, c.high;
    InTokens(ts, pos, c);
    WithinPlaced(c, ts, pos);
    AndEndsSum();
    ClosedSum(ts[End(pos, c)].kind);
    var mid := End(pos, left);
    var start := mid + |BetweenWords(c.negated)|;
    var middle := End(start, low);
    InTokens(ts, start, low);
    InTokens(ts, middle + 1, high);
    BetweenWordsMatches(ts, mid, c.negated);
    SumReads(left, ts, pos, depth, max);
    SumReads(low, ts, start, depth, max);
    SumReads(high, ts, middle + 1, depth, max);
    TailIsBetween(ts, mid, depth, max, Meaning(left), c.negated);
    BetweenReads(ts, start, depth, max, Meaning(left), c.negated, Meaning(low), middle, depth + Deep(low) <= max,
                 Meaning(high), End(pos, c), depth + Deep(high) <= max);
    TailReads(ts, pos, depth, max, Meaning(left), mid, depth + Deep(left) <= max, Meaning(c), End(pos, c),
              depth + Deep(low) <= max && depth + Deep(high) <= max);
  }

  // ---- Lists ----

  lemma {:induction false} ElementReads(c: Syntax, ts: seq<Token>, pos: nat, depth: nat, max: nat)
    requires Placed(ts, pos, c) && depth <= max
    requires ts[End(pos, c)].kind == COMMA || ts[End(pos, c)].kind == RPAREN || ts[End(pos, c)].kind == EOF
    ensures pos < |ts| && StartsTree(ts[pos].kind)
    ensures Reads(ParseExpression(ts, pos, depth, max), Meaning(c), End(pos, c), depth + 1 + Deep(c) <= max)
    decreases c, 20
  {
    hide ParseExpression, ParseRank, ReadsOn, Reads, Closes, Placed, End, Deep, Meaning, StartsTree;
    InTokens(ts, pos, c);
    EndsExpression(ts[End(pos, c)].kind);
    if depth + 1 <= max { TreeReads(c, ts, pos, depth + 1, max, OR_RANK); }
    ExpressionReads(ts, pos, depth, max, Meaning(c), End(pos, c), depth + 1 + Deep(c) <= max);
  }

  lemma EndsExpression(kind: Kind)
    requires kind == COMMA || kind == RPAREN || kind == EOF
    ensures Closes(OR_RANK, kind) && Operator(OrLevel, kind).None?
  {
  }

  lemma ExpressionReads(ts: seq<Token>, pos: nat, depth: nat, max: nat, e: Expr, end: nat, fits: bool)
    requires Ended(ts) && pos < |ts| && end < |ts| && Operator(OrLevel, ts[end].kind).None?
    requires if depth + 1 > max then !fits
             else ReadsOn(ParseRank(ts, pos, depth + 1, max, OR_RANK), ts, end, depth + 1, max, OR_RANK, e, fits)
    ensures Reads(ParseExpression(ts, pos, depth, max), e, end, fits)
  {
    hide ParseLevel;
  }

  /** A parsed expression followed by the rest of a list. */
  function Joined(ts: seq<Token>, first: Parsed, depth: nat, max: nat, before: seq<Expr>): ParsedList
    requires Ended(ts) && first.pos < |ts|
  {
    if first.Failure? then FailureList(first.error, first.pos) else ParseMore(ts, first.pos, depth, max, before + [first.value])
  }

  /** The list that goes on with an expression already read. */
  lemma {:induction false} ListReads(cs: seq<Syntax>, ts: seq<Token>, pos: nat, depth: nat, max: nat, before: seq<Expr>)
    requires cs != [] && AllGrammatical(cs) && Ended(ts) && Matches(ts, pos, WrittenList(cs)) && depth <= max
    requires pos + |WrittenList(cs)| < |ts| && ts[pos + |WrittenList(cs)|].kind == RPAREN
    ensures pos < |ts| && StartsTree(ts[pos].kind)
    ensures ReadsList(Joined(ts, ParseExpression(ts, pos, depth, max), depth, max, before), before + Meanings(cs),
                      pos + |WrittenList(cs)|, depth + ListDeep(cs) <= max)
    decreases cs, 1
  {
    hide *;
    var c := cs[0];
    if |cs| == 1 {
      OnePlaced(cs, ts, pos);
      ElementReads(c, ts, pos, depth, max);
      OnlyElementReads(cs, ts, pos, depth, max, before);
    } else {
      MorePlaced(cs, ts, pos);
      var next := End(pos, c);
      InTokens(ts, pos, c);
      ElementReads(c, ts, pos, depth, max);
      ListNotEmpty(cs[1..]);
      ListReads(cs[1..], ts, next + 1, depth, max, before + [Meaning(c)]);
      MoreElementsRead(cs, ts, pos, depth, max, before, next);
    }
  }

  lemma ListNotEmpty(cs: seq<Syntax>)
    requires cs != []
    ensures |WrittenList(cs)| > 0
  {
  }

  lemma OnlyElementReads(cs: seq<Syntax>, ts: seq<Token>, pos: nat, depth: nat, max: nat, before: seq<Expr>)
    requires |cs| == 1 && Ended(ts) && pos + |WrittenList(cs)| < |ts| && ts[pos + |WrittenList(cs)|].kind == RPAREN
    requires ListDeep(cs) == 1 + Deep(cs[0]) && Meanings(cs) == [Meaning(cs[0])]
    requires Reads(ParseExpression(ts, pos, depth, max), Meaning(cs[0]), pos + |WrittenList(cs)|, depth + 1 + Deep(cs[0]) <= max)
    ensures ReadsList(Joined(ts, ParseExpression(ts, pos, depth, max), depth, max, before), before + Meanings(cs),
                      pos + |WrittenList(cs)|, depth + ListDeep(cs) <= max)
  {
    hide ParseExpression, Joined, Reads, ReadsList, WrittenList, ListDeep, Deep, Meaning, Meanings;
    LastReads(ts, ParseExpression(ts, pos, depth, max), depth, max, before, Meaning(cs[0]), pos + |WrittenList(cs)|,
              depth + 1 + Deep(cs[0]) <= max);
  }

  lemma MoreElementsRead(cs: seq<Syntax>, ts: seq<Token>, pos: nat, depth: nat, max: nat, before: seq<Expr>, next: nat)
    requires |cs| > 1 && Ended(ts) && pos < |ts| && next + 1 < |ts| && ts[next].kind == COMMA
    requires next + 1 + |WrittenList(cs[1..])| == pos + |WrittenList(cs)|
    requires Reads(ParseExpression(ts, pos, depth, max), Meaning(cs[0]), next, depth + 1 + Deep(cs[0]) <= max)
    requires ReadsList(Joined(ts, ParseExpression(ts, next + 1, depth, max), depth, max, before + [Meaning(cs[0])]),
                       before + [Meaning(cs[0])] + Meanings(cs[1..]), next + 1 + |WrittenList(cs[1..])|, depth + ListDeep(cs[1..]) <= max)
    ensures ReadsList(Joined(ts, ParseExpression(ts, pos, depth, max), depth, max, before), before + Meanings(cs),
                      pos + |WrittenList(cs)|, depth + ListDeep(cs) <= max)
  {
    hide ParseExpression, Joined, Reads, ReadsList, WrittenList, ListDeep, Deep, Meaning, Meanings;
    ListParts(cs);
    assert before + [Meaning(cs[0])] + Meanings(cs[1..]) == before + ([Meaning(cs[0])] + Meanings(cs[1..]));
    MoreReads(ts, ParseExpression(ts, pos, depth, max), depth, max, before, Meaning(cs[0]), next, depth + 1 + Deep(cs[0]) <= max,
              before + Meanings(cs), pos + |WrittenList(cs)|, depth + ListDeep(cs[1..]) <= max);
  }

  lemma OnePlaced(cs: seq<Syntax>, ts: seq<Token>, pos: nat)
    requires |cs| == 1 && AllGrammatical(cs) && Ended(ts) && Matches(ts, pos, WrittenList(cs)) && pos + |WrittenList(cs)| < |ts|
    ensures Placed(ts, pos, cs[0]) && End(pos, cs[0]) == pos + |WrittenList(cs)|
    ensures ListDeep(cs) == 1 + Deep(cs[0]) && Meanings(cs) == [Meaning(cs[0])]
  {
    hide Matches;
    assert cs[1..] == [];
  }

  lemma ListParts(cs: seq<Syntax>)
    requires cs != []
    ensures Meanings(cs) == [Meaning(cs[0])] + Meanings(cs[1..]) && ListDeep(cs) == Larger(1 + Deep(cs[0]), ListDeep(cs[1..]))
    ensures AllGrammatical(cs) <==> Grammatical(cs[0]) && AllGrammatical(cs[1..])
    ensures |cs| > 1 ==> WrittenList(cs) == Written(cs[0]) + [Mark(",", COMMA)] + Spaced(WrittenList(cs[1..]))
  {
    hide Meaning, Deep, Grammatical, Written, Spaced;
  }

  lemma MorePlaced(cs: seq<Syntax>, ts: seq<Token>, pos: nat)
    requires |cs| > 1 && AllGrammatical(cs) && Ended(ts) && Matches(ts, pos, WrittenList(cs)) && pos + |WrittenList(cs)| < |ts|
    ensures Placed(ts, pos, cs[0])
    ensures var next := End(pos, cs[0]);
            ts[next].kind == COMMA && Matches(ts, next + 1, WrittenList(cs[1..])) && AllGrammatical(cs[1..]) &&
            next + 1 + |WrittenList(cs[1..])| == pos + |WrittenList(cs)|
  {
    hide Matches, Spaced, Written, WrittenList, Grammatical, AllGrammatical;
    ListParts(cs);
    MatchThen(ts, pos, Written(cs[0]) + [Mark(",", COMMA)], WrittenList(cs[1..]));
    MatchLast(ts, pos, Written(cs[0]), Mark(",", COMMA));
  }

  lemma LastReads(ts: seq<Token>, first: Parsed, depth: nat, max: nat, before: seq<Expr>, e: Expr, end: nat, fits: bool)
    requires Ended(ts) && first.pos < |ts| && Reads(first, e, end, fits) && end < |ts| && ts[end].kind == RPAREN
    ensures ReadsList(Joined(ts, first, depth, max, before), before + [e], end, fits)
  {
    hide ParseExpression;
  }

  lemma MoreReads(ts: seq<Token>, first: Parsed, depth: nat, max: nat, before: seq<Expr>, e: Expr, next: nat, fits: bool,
                  es: seq<Expr>, end: nat, restFits: bool)
    requires Ended(ts) && first.pos < |ts| && Reads(first, e, next, fits) && next + 1 < |ts| && ts[next].kind == COMMA
    requires ReadsList(Joined(ts, ParseExpression(ts, next + 1, depth, max), depth, max, before + [e]), es, end, restFits)
    ensures ReadsList(Joined(ts, first, depth, max, before), es, end, fits && restFits)
  {
    hide ParseExpression;
  }

  lemma {:induction false} WholeListReads(cs: seq<Syntax>, ts: seq<Token>, pos: nat, depth: nat, max: nat)
    requires cs != [] && AllGrammatical(cs) && Ended(ts) && Matches(ts, pos, WrittenList(cs)) && depth <= max
    requires pos + |WrittenList(cs)| < |ts| && ts[pos + |WrittenList(cs)|].kind == RPAREN
    ensures pos < |ts| && StartsTree(ts[pos].kind)
    ensures ReadsList(ParseList(ts, pos, depth, max), Meanings(cs), pos + |WrittenList(cs)|, depth + ListDeep(cs) <= max)
    decreases cs, 2
  {
    hide ParseExpression, ParseMore, WrittenList, Matches, StartsTree;
    ListReads(cs, ts, pos, depth, max, []);
    assert [] + Meanings(cs) == Meanings(cs);
    var first := ParseExpression(ts, pos, depth, max);
    if first.Success? { assert [] + [first.value] == [first.value]; }
  }

  lemma InWordsMatches(ts: seq<Token>, pos: nat, negated: bool)
    requires Ended(ts) && Matches(ts, pos, InWords(negated))
    ensures pos + |InWords(negated)| <= |ts| && SumEnds(ts[pos].kind)
    ensures negated ==> ts[pos].kind == NOT
    ensures var at := if negated then pos + 1 else pos;
            ts[at].kind == IN && ts[at + 1].kind == LPAREN
  {
    var ps := InWords(negated);
    assert ts[pos + 0].kind == ps[0].kind;
    assert ts[pos + 1].kind == ps[1].kind;
    if negated { assert ts[pos + 2].kind == ps[2].kind; }
  }

  lemma TailIsIn(ts: seq<Token>, pos: nat, depth: nat, max: nat, left: Expr, negated: bool)
    requires Ended(ts) && pos + 2 < |ts|
    requires if negated then ts[pos].kind == NOT && ts[pos + 1].kind == IN else ts[pos].kind == IN
    ensures ParseComparisonTail(ts, pos, depth, max, left) == ParseIn(ts, pos + if negated then 2 else 1, depth, max, left, negated)
  {
    hide ParseRight, ParseIn, ParseBetween;
  }

  lemma InReads(ts: seq<Token>, pos: nat, depth: nat, max: nat, left: Expr, negated: bool, values: seq<Expr>,
        end: nat, fits: bool)
    requires Ended(ts) && pos + 1 < |ts| && ts[pos].kind == LPAREN
    requires ReadsList(ParseList(ts, pos + 1, depth, max), values, end, fits) && end < |ts| && ts[end].kind == RPAREN
    ensures Reads(ParseIn(ts, pos, depth, max, left, negated), InExpression(left, values, negated), end + 1, fits)
  {
    hide ParseList;
  }

  lemma OneOfPlaced(c: Syntax, ts: seq<Token>, pos: nat)
    requires c.OneOf? && Placed(ts, pos, c)
    ensures var mid := End(pos, c.operand);
            var start := mid + |InWords(c.negated)|;
            var end := start + |WrittenList(c.values)|;
            Placed(ts, pos, c.operand) && Matches(ts, mid, InWords(c.negated)) && Matches(ts, start, WrittenList(c.values)) &&
            c.values != [] && AllGrammatical(c.values) && end < |ts| && ts[end].kind == RPAREN && End(pos, c) == end + 1 &&
            Rank(c.operand) >= SUM_RANK
  {
    hide Matches, InWords, WrittenList, AllGrammatical;
    MatchLast(ts, pos, Written(c.operand) + InWords(c.negated) + WrittenList(c.values), CLOSE);
    MatchSplit(ts, pos, Written(c.operand) + InWords(c.negated), WrittenList(c.values));
    MatchSplit(ts, pos, Written(c.operand), InWords(c.negated));
  }

  lemma OneOfMeans(c: Syntax)
    requires c.OneOf?
    ensures Meaning(c) == InExpression(Meaning(c.operand), Meanings(c.values), c.negated)
    ensures Deep(c) == Larger(Deep(c.operand), ListDeep(c.values))
  {
  }

  lemma {:induction false} OneOfTreeReads(c: Syntax, ts: seq<Token>, pos: nat, depth: nat, max: nat)
    requires c.OneOf? && Placed(ts, pos, c) && depth <= max
    ensures pos < |ts| && ReadsOn(ParseRank(ts, pos, depth, max, COMPARISON_RANK), ts, End(pos, c), depth, max, COMPARISON_RANK,
                                  Meaning(c), depth + Deep(c) <= max)
    decreases c, 0
  {
    hide Placed, End, Written, WrittenList, ParseRank, ParseLevel, ParseComparisonTail, ParseIn, ParseList,
         ReadsOn, Reads, ReadsList, SumEnds, Matches, InWords, AllGrammatical, StartsTree, Meaning, Meanings,
         Deep, ListDeep;
    OneOfMeans(c);
    var left, values := c.operand, c.values;
    InTokens(ts, pos, c);
    OneOfPlaced(c, ts, pos);
    var mid := End(pos, left);
    var start := mid + |InWords(c.negated)|;
    var end := start + |WrittenList(values)|;
    InTokens(ts, pos, left);
    InWordsMatches(ts, mid, c.negated);
    SumReads(left, ts, pos, depth, max);
    WholeListReads(values, ts, start, depth, max);
    TailIsIn(ts, mid, depth, max, Meaning(left), c.negated);
    InReads(ts, mid + if c.negated then 2 else 1, depth, max, Meaning(left), c.negated, Meanings(values), end,
            depth + ListDeep(values) <= max);
    TailReads(ts, pos, depth, max, Meaning(left), mid, depth + Deep(left) <= max, Meaning(c), End(pos, c),
              depth + ListDeep(values) <= max);
  }

  // ---- What stands anywhere ----

  lemma ParenReads(ts: seq<Token>, pos: nat, depth: nat, max: nat, e: Expr, close: nat, fits: bool)
    requires Ended(ts) && pos + 1 < |ts| && ts[pos].kind == LPAREN && ts[pos + 1].kind != SELECT
    requires close < |ts| && ts[close].kind == RPAREN && Reads(ParseExpression(ts, pos + 1, depth, max), e, close, fits)
    ensures Reads(ParsePrimary(ts, pos, depth, max), e, close + 1, fits)
  {
    hide ParseExpression;
  }

  lemma ParenPlaced(c: Syntax, ts: seq<Token>, pos: nat)
    requires c.Paren? && Placed(ts, pos, c)
    ensures pos + 1 < |ts| && ts[pos].kind == LPAREN && Placed(ts, pos + 1, c.inner)
    ensures var close := End(pos + 1, c.inner);
            ts[close].kind == RPAREN && End(pos, c) == close + 1
  {
    hide Matches;
    MatchLast(ts, pos, [OPEN] + Written(c.inner), CLOSE);
    MatchFirst(ts, pos, OPEN, Written(c.inner));
  }

  lemma {:induction false} ParenTreeReads(c: Syntax, ts: seq<Token>, pos: nat, depth: nat, max: nat)
    requires c.Paren? && Placed(ts, pos, c) && depth <= max
    ensures pos < |ts| && Reads(ParsePrimary(ts, pos, depth, max), Meaning(c), End(pos, c), depth + Deep(c) <= max)
    decreases c, 0
  {
    hide Placed, End, Written, ParsePrimary, ParseExpression, Reads;
    InTokens(ts, pos, c);
    ParenPlaced(c, ts, pos);
    ElementReads(c.inner, ts, pos + 1, depth, max);
    ParenReads(ts, pos, depth, max, Meaning(c), End(pos + 1, c.inner), depth + Deep(c) <= max);
  }

  lemma ArgumentsRead(ts: seq<Token>, pos: nat, depth: nat, max: nat, name: string, distinct: bool, es: seq<Expr>,
        end: nat, fits: bool)
    requires Ended(ts) && pos < |ts| && (distinct <==> ts[pos].kind == DISTINCT)
    requires var at := if distinct then pos + 1 else pos;
             at < |ts| && StartsTree(ts[at].kind) && ReadsList(ParseList(ts, at, depth, max), es, end, fits)
    requires end < |ts| && ts[end].kind == RPAREN
    ensures Reads(ParseArguments(ts, pos, depth, max, name), FunctionCall(name, Listed(es), distinct), end + 1, fits)
  {
    hide ParseList;
  }

  lemma NoArgumentsRead(ts: seq<Token>, pos: nat, depth: nat, max: nat, name: string, distinct: bool, end: nat)
    requires Ended(ts) && pos < |ts| && (distinct <==> ts[pos].kind == DISTINCT)
    requires var at := if distinct then pos + 1 else pos;
             at < |ts| && ts[at].kind == RPAREN && end == at + 1
    ensures Reads(ParseArguments(ts, pos, depth, max, name), FunctionCall(name, Listed([]), distinct), end, true)
  {
  }

  lemma StarReads(ts: seq<Token>, pos: nat, depth: nat, max: nat, name: string, distinct: bool, end: nat)
    requires Ended(ts) && pos < |ts| && (distinct <==> ts[pos].kind == DISTINCT)
    requires var at := if distinct then pos + 1 else pos;
             at + 1 < |ts| && ts[at].kind == STAR && ts[at + 1].kind == RPAREN && end == at + 2
    ensures Reads(ParseArguments(ts, pos, depth, max, name), FunctionCall(name, AllColumns, distinct), end, true)
  {
  }

  lemma NamedReads(ts: seq<Token>, pos: nat, depth: nat, max: nat, name: string, e: Expr, end: nat, fits: bool)
    requires Ended(ts) && pos + 2 < |ts| && IsNameKind(ts[pos].kind) && ts[pos].value == name && ts[pos + 1].kind == LPAREN
    requires Reads(ParseArguments(ts, pos + 2, depth, max, name), e, end, fits)
    ensures Reads(ParsePrimary(ts, pos, depth, max), e, end, fits)
  {
    hide ParseArguments;
  }

  /** The tokens of a call: its name, a parenthesis, perhaps DISTINCT, the arguments, a parenthesis. */
  ghost predicate CallStands(ts: seq<Token>, pos: nat, name: Word, inner: seq<Piece>, distinct: bool) {
    var at := pos + if distinct then 3 else 2;
    at + |inner| < |ts| && Matches(ts, at, inner) && ts[at + |inner|].kind == RPAREN &&
    MatchesOne(ts[pos], WordPiece(name)) && ts[pos + 1].kind == LPAREN && (distinct ==> ts[pos + 2].kind == DISTINCT)
  }

  lemma {:induction false} CallSpells(ts: seq<Token>, pos: nat, name: Word, inner: seq<Piece>, distinct: bool)
    ensures Matches(ts, pos, CallPieces(name, inner, distinct)) <==> CallStands(ts, pos, name, inner, distinct)
  {
    hide Matches, Spaced, WordPiece;
    var start := [WordPiece(name)] + [OPEN];
    if distinct {
      var words := start + [Mark("DISTINCT", DISTINCT)];
      MatchThen(ts, pos, words, inner + [CLOSE]);
      MatchLast(ts, pos + 3, inner, CLOSE);
      MatchLast(ts, pos, start, Mark("DISTINCT", DISTINCT));
    } else {
      MatchLast(ts, pos, start + inner, CLOSE);
      MatchSplit(ts, pos, start, inner);
    }
    MatchLast(ts, pos, [WordPiece(name)], OPEN);
    MatchOne(ts, pos, WordPiece(name));
  }

  lemma StartsNoMark(kind: Kind)
    requires StartsTree(kind)
    ensures kind != DISTINCT && kind != SELECT
  {
  }

  lemma CallMeans(c: Syntax)
    requires c.Call? && Grammatical(c)
    ensures Written(c) == CallPieces(c.name, WrittenList(c.arguments), c.distinct) && AllGrammatical(c.arguments)
    ensures Meaning(c) == FunctionCall(c.name.value, Listed(Meanings(c.arguments)), c.distinct) && Deep(c) == ListDeep(c.arguments)
    ensures IsNameWord(c.name)
  {
  }

  lemma NameMatches(t: Token, name: Word)
    requires MatchesOne(t, WordPiece(name)) && IsNameWord(name)
    ensures IsNameKind(t.kind) && t.value == name.value
  {
  }

  lemma CallPlaced(ts: seq<Token>, pos: nat, name: Word, inner: seq<Piece>, distinct: bool)
    requires Matches(ts, pos, CallPieces(name, inner, distinct)) && IsNameWord(name)
    ensures var at := pos + if distinct then 3 else 2;
            at + |inner| < |ts| && Matches(ts, at, inner) && ts[at + |inner|].kind == RPAREN &&
            IsNameKind(ts[pos].kind) && ts[pos].value == name.value && ts[pos + 1].kind == LPAREN &&
            (distinct ==> ts[pos + 2].kind == DISTINCT) && |CallPieces(name, inner, distinct)| == at - pos + |inner| + 1
  {
    hide Matches, CallPieces, WordPiece;
    CallSpells(ts, pos, name, inner, distinct);
    NameMatches(ts[pos], name);
  }

  lemma EmptyCallReads(c: Syntax, ts: seq<Token>, pos: nat, depth: nat, max: nat)
    requires c.Call? && c.arguments == [] && Placed(ts, pos, c) && depth <= max
    ensures pos < |ts| && Reads(ParsePrimary(ts, pos, depth, max), Meaning(c), End(pos, c), depth + Deep(c) <= max)
  {
    hide *;
    PlacedMeans(ts, pos, c);
    CallMeans(c);
    CallPlaced(ts, pos, c.name, WrittenList([]), c.distinct);
    NothingListed([]);
    var at := pos + if c.distinct then 3 else 2;
    NoArgumentsRead(ts, pos + 2, depth, max, c.name.value, c.distinct, at + 1);
    NamedReads(ts, pos, depth, max, c.name.value, Meaning(c), at + 1, true);
  }

  lemma {:induction false} CallTreeReads(c: Syntax, ts: seq<Token>, pos: nat, depth: nat, max: nat)
    requires c.Call? && Placed(ts, pos, c) && depth <= max
    ensures pos < |ts| && Reads(ParsePrimary(ts, pos, depth, max), Meaning(c), End(pos, c), depth + Deep(c) <= max)
    decreases c, 0
  {
    hide *;
    var name, cs, distinct := c.name.value, c.arguments, c.distinct;
    if cs == [] {
      EmptyCallReads(c, ts, pos, depth, max);
    } else {
      PlacedMeans(ts, pos, c);
      CallMeans(c);
      CallPlaced(ts, pos, c.name, WrittenList(cs), distinct);
      var at := pos + if distinct then 3 else 2;
      var end := at + |WrittenList(cs)|;
      WholeListReads(cs, ts, at, depth, max);
      StartsNoMark(ts[at].kind);
      ArgumentsRead(ts, pos + 2, depth, max, name, distinct, Meanings(cs), end, depth + ListDeep(cs) <= max);
      NamedReads(ts, pos, depth, max, name, Meaning(c), end + 1, depth + ListDeep(cs) <= max);
    }
  }

  lemma NothingListed(cs: seq<Syntax>)
    requires cs == []
    ensures WrittenList(cs) == [] && ListDeep(cs) == 0 && Meanings(cs) == []
  {
  }

  lemma PlacedMeans(ts: seq<Token>, pos: nat, c: Syntax)
    requires Placed(ts, pos, c)
    ensures Grammatical(c) && Ended(ts) && Matches(ts, pos, Written(c)) && End(pos, c) == pos + |Written(c)| < |ts|
  {
  }

  lemma CallAllMeans(c: Syntax)
    requires c.CallAll? && Grammatical(c)
    ensures Written(c) == CallPieces(c.name, [Mark("*", STAR)], c.distinct) && IsNameWord(c.name)
    ensures Meaning(c) == FunctionCall(c.name.value, AllColumns, c.distinct)
  {
  }

  lemma StarMatches(ts: seq<Token>, pos: nat)
    ensures Matches(ts, pos, [Mark("*", STAR)]) <==> pos < |ts| && ts[pos].kind == STAR
  {
    MatchOne(ts, pos, Mark("*", STAR));
  }

  lemma CallAllReads(c: Syntax, ts: seq<Token>, pos: nat, depth: nat, max: nat)
    requires c.CallAll? && Placed(ts, pos, c) && depth <= max
    ensures pos < |ts| && Reads(ParsePrimary(ts, pos, depth, max), Meaning(c), End(pos, c), true)
  {
    hide *;
    PlacedMeans(ts, pos, c);
    CallAllMeans(c);
    CallPlaced(ts, pos, c.name, [Mark("*", STAR)], c.distinct);
    var at := pos + if c.distinct then 3 else 2;
    StarMatches(ts, at);
    StarReads(ts, pos + 2, depth, max, c.name.value, c.distinct, at + 2);
    NamedReads(ts, pos, depth, max, c.name.value, Meaning(c), at + 2, true);
  }

  // ---- Literals, parameters and columns ----

  lemma AtomMatches(ts: seq<Token>, pos: nat, w: Word)
    ensures Matches(ts, pos, [WordPiece(w)]) <==> pos < |ts| && MatchesOne(ts[pos], WordPiece(w))
  {
    hide WordPiece;
    MatchOne(ts, pos, WordPiece(w));
  }

  lemma AtomReads(w: Word, ts: seq<Token>, pos: nat, depth: nat, max: nat)
    requires Ended(ts) && pos + 1 < |ts| && MatchesOne(ts[pos], WordPiece(w)) && WordMeaning(w).Some? && NameEnds(ts[pos + 1].kind)
    ensures ParsePrimary(ts, pos, depth, max) == Success(WordMeaning(w).value, pos + 1)
  {
    hide ParseExpression, ParseArguments, AllDigits, TextValue, WordText;
  }

  lemma ParameterReads(name: Word, ts: seq<Token>, pos: nat, depth: nat, max: nat)
    requires Ended(ts) && pos + 1 < |ts| && ts[pos].kind == COLON && MatchesOne(ts[pos + 1], WordPiece(name)) && IsNameWord(name)
    ensures ParsePrimary(ts, pos, depth, max) == Success(Parameter(Some(name.value)), pos + 2)
  {
    hide WordText;
  }

  lemma QualifiedReads(table: Word, column: Word, ts: seq<Token>, pos: nat, depth: nat, max: nat)
    requires Ended(ts) && pos + 2 < |ts| && ts[pos + 1].kind == DOT && IsNameWord(table) && IsNameWord(column)
    requires MatchesOne(ts[pos], WordPiece(table)) && MatchesOne(ts[pos + 2], WordPiece(column))
    ensures ParsePrimary(ts, pos, depth, max) == Success(ColumnReference(Some(table.value), column.value), pos + 3)
  {
    hide ParseArguments, WordText;
  }

  lemma NamedMatches(ts: seq<Token>, pos: nat, name: Word)
    ensures Matches(ts, pos, [Mark(":", COLON)] + [WordPiece(name)]) <==>
            pos + 1 < |ts| && ts[pos].kind == COLON && MatchesOne(ts[pos + 1], WordPiece(name))
  {
    hide Matches, WordPiece;
    MatchFirst(ts, pos, Mark(":", COLON), [WordPiece(name)]);
    MatchOne(ts, pos + 1, WordPiece(name));
  }

  lemma QualifiedMatches(ts: seq<Token>, pos: nat, table: Word, column: Word)
    ensures Matches(ts, pos, [WordPiece(table)] + [Mark(".", DOT)] + [WordPiece(column)]) <==>
            pos + 2 < |ts| && MatchesOne(ts[pos], WordPiece(table)) && ts[pos + 1].kind == DOT &&
            MatchesOne(ts[pos + 2], WordPiece(column))
  {
    hide Matches, WordPiece;
    MatchLast(ts, pos, [WordPiece(table)] + [Mark(".", DOT)], WordPiece(column));
    MatchLast(ts, pos, [WordPiece(table)], Mark(".", DOT));
    MatchOne(ts, pos, WordPiece(table));
  }

  lemma {:induction false} WordsRead(c: Syntax, ts: seq<Token>, pos: nat, depth: nat, max: nat)
    requires (c.Atom? || c.Named? || c.Qualified?) && Placed(ts, pos, c) && NameEnds(ts[End(pos, c)].kind)
    ensures pos < |ts| && Reads(ParsePrimary(ts, pos, depth, max), Meaning(c), End(pos, c), true)
  {
    hide ParsePrimary, Matches, WordPiece, WordMeaning, NameEnds;
    match c
    case Atom(word) => AtomMatches(ts, pos, word); AtomReads(word, ts, pos, depth, max);
    case Named(name) => NamedMatches(ts, pos, name); ParameterReads(name, ts, pos, depth, max);
    case Qualified(table, column) =>
      QualifiedMatches(ts, pos, table, column);
      QualifiedReads(table, column, ts, pos, depth, max);
  }

  // ---- Every tree ----

  lemma {:induction false} PrimaryReads(c: Syntax, ts: seq<Token>, pos: nat, depth: nat, max: nat)
    requires Placed(ts, pos, c) && depth <= max && Rank(c) == PRIMARY_RANK && NameEnds(ts[End(pos, c)].kind)
    ensures pos < |ts| && Reads(ParsePrimary(ts, pos, depth, max), Meaning(c), End(pos, c), depth + Deep(c) <= max)
    decreases c, 1
  {
    hide ParsePrimary, Placed, End, Reads;
    match c
    case Paren(_) => ParenTreeReads(c, ts, pos, depth, max);
    case Call(_, _, _) => CallTreeReads(c, ts, pos, depth, max);
    case CallAll(_, _) => CallAllReads(c, ts, pos, depth, max);
    case _ => WordsRead(c, ts, pos, depth, max);
  }

  /** The parser reads every grammatical tree as what it means: by the function for any rank that the
      tree may stand at, up to a token that nothing tighter goes on with.  Which operators group which
      way is in what the grammar allows; the depth limit alone decides whether it is the recursion
      error instead. */
  lemma {:induction false} TreeReads(c: Syntax, ts: seq<Token>, pos: nat, depth: nat, max: nat, rank: nat)
    requires Placed(ts, pos, c) && depth <= max && rank <= Rank(c) && Closes(rank, ts[End(pos, c)].kind)
    ensures pos < |ts| && ReadsOn(ParseRank(ts, pos, depth, max, rank), ts, End(pos, c), depth, max, rank, Meaning(c),
                                  depth + Deep(c) <= max)
    decreases c, 18 - rank
  {
    hide ParseRank, Placed, End, GoOn, Closes, ReadsOn, Deep, Meaning, StartsTree, StartsPrimary, LevelAt;
    InTokens(ts, pos, c);
    if rank < Rank(c) {
      ClosesTighter(rank, ts[End(pos, c)].kind);
      TreeReads(c, ts, pos, depth, max, rank + 1);
      LooserReads(ts, pos, depth, max, rank, Meaning(c), End(pos, c), depth + Deep(c) <= max);
    } else {
      match c
      case Infix(_, _, _) => InfixTreeReads(c, ts, pos, depth, max);
      case Prefix(_, _) => PrefixTreeReads(c, ts, pos, depth, max);
      case Compare(_, _, _) => CompareTreeReads(c, ts, pos, depth, max);
      case IsNull(_, _) => TestTreeReads(c, ts, pos, depth, max);
      case OneOf(_, _, _) => OneOfTreeReads(c, ts, pos, depth, max);
      case Within(_, _, _, _) => WithinTreeReads(c, ts, pos, depth, max);
      case _ => PrimaryTreeReads(c, ts, pos, depth, max);
    }
  }

  lemma {:induction false} PrimaryTreeReads(c: Syntax, ts: seq<Token>, pos: nat, depth: nat, max: nat)
    requires Placed(ts, pos, c) && depth <= max && Rank(c) == PRIMARY_RANK && Closes(PRIMARY_RANK, ts[End(pos, c)].kind)
    ensures pos < |ts| && ReadsOn(ParseRank(ts, pos, depth, max, PRIMARY_RANK), ts, End(pos, c), depth, max, PRIMARY_RANK,
                                  Meaning(c), depth + Deep(c) <= max)
    decreases c, 2
  {
    hide ParsePrimary, Placed, End, Deep, Meaning;
    InTokens(ts, pos, c);
    PrimaryReads(c, ts, pos, depth, max);
  }
}
