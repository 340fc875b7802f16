// Whatever the parser accepts is a tree of the grammar, and is read as what it means.
module SqlGrammarSound {
  import opened Wrappers
  import opened Decimal
  import opened SqlLexer
  import opened SqlAst
  import opened SqlParser
  import opened SqlPrinted
  import opened SqlLexPrinted
  import opened SqlGrammar
  import opened SqlGrammarReads

  /** The tokens between two positions are a tree that may stand at this rank, means this and fits the
      depth limit. */
  ghost predicate TreeAt(c: Syntax, ts: seq<Token>, pos: nat, depth: nat, max: nat, rank: nat, e: Expr, end: nat) {
    Grammatical(c) && Rank(c) >= rank && Matches(ts, pos, Written(c)) && End(pos, c) == end && Meaning(c) == e && depth + Deep(c) <= max
  }

  ghost predicate TreesAt(cs: seq<Syntax>, ts: seq<Token>, pos: nat, depth: nat, max: nat, es: seq<Expr>, end: nat) {
    cs != [] && AllGrammatical(cs) && Matches(ts, pos, WrittenList(cs)) && pos + |WrittenList(cs)| == end && Meanings(cs) == es &&
    depth + ListDeep(cs) <= max
  }

  // ---- Putting trees together ----

  lemma InfixAt(left: Syntax, right: Syntax, ts: seq<Token>, pos: nat, depth: nat, max: nat, op: BinaryOp,
        l: Expr, mid: nat, r: Expr, end: nat)
    requires TreeAt(left, ts, pos, depth, max, OperatorRank(op), l, mid) && mid < |ts| && ts[mid].kind == BinaryKind(op)
    requires TreeAt(right, ts, mid + 1, depth, max, OperatorRank(op) + 1, r, end)
    ensures TreeAt(Infix(left, op, right), ts, pos, depth, max, OperatorRank(op), BinaryExpression(l, op, r), end)
  {
    hide Matches, Spaced, OperatorRank, BinaryKind, BinaryText;
    var gap := Gap(BinaryText(op), BinaryKind(op));
    MatchThen(ts, pos, Written(left) + [gap], Written(right));
    MatchLast(ts, pos, Written(left), gap);
    BinaryHasNoValue(op);
    SignMatches(ts[mid], gap);
  }

  lemma SignMatches(t: Token, p: Piece)
    requires t.kind == p.kind && !HasValue(p.kind)
    ensures MatchesOne(t, p)
  {
  }

  lemma BinaryHasNoValue(op: BinaryOp)
    ensures !HasValue(BinaryKind(op))
  {
  }

  lemma PrefixAt(operand: Syntax, ts: seq<Token>, pos: nat, depth: nat, max: nat, op: UnaryOp, e: Expr, end: nat)
    requires var rank := if op == NotOp then NOT_RANK else SIGN_RANK;
             pos < |ts| && ts[pos].kind == UnaryKind(op) && TreeAt(operand, ts, pos + 1, depth, max, rank, e, end)
    ensures var rank := if op == NotOp then NOT_RANK else SIGN_RANK;
            TreeAt(Prefix(op, operand), ts, pos, depth, max, rank, UnaryExpression(op, e), end)
  {
    hide Matches, Spaced;
    var mark := Mark(UnaryText(op), UnaryKind(op));
    MatchFirst(ts, pos, mark, Spaced(Written(operand)));
    MatchSpaced(ts, pos + 1, Written(operand));
    SignMatches(ts[pos], mark);
  }

  lemma CompareAt(left: Syntax, right: Syntax, ts: seq<Token>, pos: nat, depth: nat, max: nat, op: ComparisonOp,
        l: Expr, mid: nat, r: Expr, end: nat)
    requires TreeAt(left, ts, pos, depth, max, SUM_RANK, l, mid) && Matches(ts, mid, ComparisonPieces(op))
    requires TreeAt(right, ts, mid + |ComparisonPieces(op)|, depth, max, SUM_RANK, r, end)
    ensures TreeAt(Compare(left, op, right), ts, pos, depth, max, COMPARISON_RANK, ComparisonExpression(l, op, r), end)
  {
    hide Matches, Spaced, ComparisonPieces;
    MatchThen(ts, pos, Written(left) + ComparisonPieces(op), Written(right));
    MatchSplit(ts, pos, Written(left), ComparisonPieces(op));
  }

  lemma IsNullAt(operand: Syntax, ts: seq<Token>, pos: nat, depth: nat, max: nat, negated: bool, e: Expr, mid: nat)
    requires TreeAt(operand, ts, pos, depth, max, SUM_RANK, e, mid) && Matches(ts, mid, TestWords(negated))
    ensures TreeAt(IsNull(operand, negated), ts, pos, depth, max, COMPARISON_RANK, NullTest(e, negated), mid + |TestWords(negated)|)
  {
    hide Matches, TestWords;
    MatchSplit(ts, pos, Written(operand), TestWords(negated));
  }

  lemma OneOfAt(operand: Syntax, values: seq<Syntax>, ts: seq<Token>, pos: nat, depth: nat, max: nat, negated: bool,
        e: Expr, mid: nat, es: seq<Expr>, end: nat)
    requires TreeAt(operand, ts, pos, depth, max, SUM_RANK, e, mid) && Matches(ts, mid, InWords(negated))
    requires TreesAt(values, ts, mid + |InWords(negated)|, depth, max, es, end) && end < |ts| && ts[end].kind == RPAREN
    ensures TreeAt(OneOf(operand, values, negated), ts, pos, depth, max, COMPARISON_RANK, InExpression(e, es, negated), end + 1)
  {
    hide Matches, InWords, WrittenList, AllGrammatical;
    var words := InWords(negated);
    MatchLast(ts, pos, Written(operand) + words + WrittenList(values), CLOSE);
    MatchSplit(ts, pos, Written(operand) + words, WrittenList(values));
    MatchSplit(ts, pos, Written(operand), words);
  }

  lemma WithinAt(operand: Syntax, low: Syntax, high: Syntax, ts: seq<Token>, pos: nat, depth: nat, max: nat,
        negated: bool, e: Expr, mid: nat, l: Expr, middle: nat, h: Expr, end: nat)
    requires TreeAt(operand, ts, pos, depth, max, SUM_RANK, e, mid) && Matches(ts, mid, BetweenWords(negated))
    requires TreeAt(low, ts, mid + |BetweenWords(negated)|, depth, max, SUM_RANK, l, middle)
    requires middle < |ts| && ts[middle].kind == AND && TreeAt(high, ts, middle + 1, depth, max, SUM_RANK, h, end)
    ensures TreeAt(Within(operand, low, high, negated), ts, pos, depth, max, COMPARISON_RANK, BetweenExpression(e, l, h, negated), end)
  {
    hide Matches, BetweenWords, Spaced, Written, Grammatical, Meaning, Deep;
    WithinIs(operand, low, high, negated);
    var words, and := BetweenWords(negated), Gap("AND", AND);
    var head := Written(operand) + words + Spaced(Written(low));
    MatchThen(ts, pos, head + [and], Written(high));
    MatchLast(ts, pos, head, and);
    MatchThen(ts, pos, Written(operand) + words, Written(low));
    MatchSplit(ts, pos, Written(operand), words);
    SignMatches(ts[middle], and);
  }

  lemma WithinIs(operand: Syntax, low: Syntax, high: Syntax, negated: bool)
    ensures var c := Within(operand, low, high, negated);
            (Grammatical(c) <==>
              Grammatical(operand) && Grammatical(low) && Grammatical(high) &&
              Rank(operand) >= SUM_RANK && Rank(low) >= SUM_RANK && Rank(high) >= SUM_RANK) &&
            Meaning(c) == BetweenExpression(Meaning(operand), Meaning(low), Meaning(high), negated) &&
            Deep(c) == Larger(Deep(operand), Larger(Deep(low), Deep(high))) &&
            Written(c) == Written(operand) + BetweenWords(negated) + Spaced(Written(low)) + [Gap("AND", AND)] + Spaced(Written(high))
  {
    hide Spaced, BetweenWords;
  }

  lemma ParenAt(inner: Syntax, ts: seq<Token>, pos: nat, depth: nat, max: nat, e: Expr, close: nat)
    requires pos < |ts| && ts[pos].kind == LPAREN && TreeAt(inner, ts, pos + 1, depth + 1, max, OR_RANK, e, close)
    requires close < |ts| && ts[close].kind == RPAREN
    ensures TreeAt(Paren(inner), ts, pos, depth, max, PRIMARY_RANK, e, close + 1)
  {
    hide Matches;
    MatchLast(ts, pos, [OPEN] + Written(inner), CLOSE);
    MatchFirst(ts, pos, OPEN, Written(inner));
  }

  lemma CallAt(name: Word, cs: seq<Syntax>, distinct: bool, ts: seq<Token>, pos: nat, depth: nat, max: nat, es: seq<Expr>, end: nat)
    requires IsNameWord(name) && AllGrammatical(cs) && Meanings(cs) == es && depth + ListDeep(cs) <= max
    requires CallStands(ts, pos, name, WrittenList(cs), distinct) && end == pos + (if distinct then 3 else 2) + |WrittenList(cs)| + 1
    ensures TreeAt(Call(name, cs, distinct), ts, pos, depth, max, PRIMARY_RANK, FunctionCall(name.value, Listed(es), distinct), end)
  {
    hide Matches, CallPieces, CallStands, WrittenList, AllGrammatical;
    CallSpells(ts, pos, name, WrittenList(cs), distinct);
  }

  lemma CallAllAt(name: Word, distinct: bool, ts: seq<Token>, pos: nat, depth: nat, max: nat, end: nat)
    requires IsNameWord(name) && depth <= max && CallStands(ts, pos, name, [Mark("*", STAR)], distinct)
    requires end == pos + (if distinct then 3 else 2) + 2
    ensures TreeAt(CallAll(name, distinct), ts, pos, depth, max, PRIMARY_RANK, FunctionCall(name.value, AllColumns, distinct), end)
  {
    hide Matches, CallPieces, CallStands;
    CallSpells(ts, pos, name, [Mark("*", STAR)], distinct);
  }

  lemma MoreAt(c: Syntax, cs: seq<Syntax>, ts: seq<Token>, pos: nat, depth: nat, max: nat, e: Expr, next: nat,
        es: seq<Expr>, end: nat)
    requires TreeAt(c, ts, pos, depth + 1, max, OR_RANK, e, next)
    requires if cs == [] then es == [] && end == next
             else next < |ts| && ts[next].kind == COMMA && TreesAt(cs, ts, next + 1, depth, max, es, end)
    ensures TreesAt([c] + cs, ts, pos, depth, max, [e] + es, end)
  {
    hide Matches, Spaced, Grammatical, Written, Meaning, Deep, AllGrammatical, WrittenList, Meanings, ListDeep;
    assert ([c] + cs)[1..] == cs;
    ListParts([c] + cs);
    if cs != [] {
      MatchThen(ts, pos, Written(c) + [Mark(",", COMMA)], WrittenList(cs));
      MatchLast(ts, pos, Written(c), Mark(",", COMMA));
    } else {
      OneIs(c);
      assert [c] + cs == [c] && [e] + es == [e];
    }
  }

  lemma OneIs(c: Syntax)
    ensures WrittenList([c]) == Written(c) && Meanings([c]) == [Meaning(c)] && ListDeep([c]) == 1 + Deep(c)
    ensures AllGrammatical([c]) <==> Grammatical(c)
  {
    hide Written, Meaning, Deep, Grammatical;
    assert [c][1..] == [];
  }

  lemma TighterAt(c: Syntax, ts: seq<Token>, pos: nat, depth: nat, max: nat, tight: nat, rank: nat, e: Expr, end: nat)
    requires TreeAt(c, ts, pos, depth, max, tight, e, end) && rank <= tight
    ensures TreeAt(c, ts, pos, depth, max, rank, e, end)
  {
  }

  // ---- What each function has read ----

  function RankOf(level: Level): nat {
    match level
    case OrLevel => OR_RANK
    case AndLevel => AND_RANK
    case AddLevel => SUM_RANK
    case MulLevel => PRODUCT_RANK
  }

  lemma OperatorIs(level: Level, kind: Kind)
    requires Operator(level, kind).Some?
    ensures var op := Operator(level, kind).value;
            OperatorRank(op) == RankOf(level) && BinaryKind(op) == kind
  {
  }

  lemma {:induction false} ExpressionSound(ts: seq<Token>, pos: nat, depth: nat, max: nat) returns (c: Syntax)
    requires Ended(ts) && pos < |ts| && ParseExpression(ts, pos, depth, max).Success?
    ensures var r := ParseExpression(ts, pos, depth, max);
            depth + 1 <= max && TreeAt(c, ts, pos, depth + 1, max, OR_RANK, r.value, r.pos)
    decreases |ts| - pos, 9
  {
    hide TreeAt, ParseLevel;
    c := LevelSound(ts, pos, depth + 1, max, OrLevel);
  }

  lemma {:induction false} LevelSound(ts: seq<Token>, pos: nat, depth: nat, max: nat, level: Level) returns (c: Syntax)
    requires Ended(ts) && pos < |ts| && depth <= max && ParseLevel(ts, pos, depth, max, level).Success?
    ensures var r := ParseLevel(ts, pos, depth, max, level);
            TreeAt(c, ts, pos, depth, max, RankOf(level), r.value, r.pos)
    decreases |ts| - pos, LevelRank(level)
  {
    hide TreeAt, ParseOperand, ParseRest;
    var first := ParseOperand(ts, pos, depth, max, level);
    c := OperandSound(ts, pos, depth, max, level);
    TighterAt(c, ts, pos, depth, max, RankOf(level) + 1, RankOf(level), first.value, first.pos);
    c := RestSound(ts, pos, first.pos, depth, max, level, c, first.value);
  }

  lemma {:induction false} OperandSound(ts: seq<Token>, pos: nat, depth: nat, max: nat, level: Level) returns (c: Syntax)
    requires Ended(ts) && pos < |ts| && depth <= max && ParseOperand(ts, pos, depth, max, level).Success?
    ensures var r := ParseOperand(ts, pos, depth, max, level);
            TreeAt(c, ts, pos, depth, max, RankOf(level) + 1, r.value, r.pos)
    decreases |ts| - pos, LevelRank(level), 0
  {
    hide TreeAt, ParseLevel, ParseNot, ParseUnary;
    match level
    case OrLevel => c := LevelSound(ts, pos, depth, max, AndLevel);
    case AndLevel => c := NotSound(ts, pos, depth, max);
    case AddLevel => c := LevelSound(ts, pos, depth, max, MulLevel);
    case MulLevel => c := UnarySound(ts, pos, depth, max);
  }

  /** The loop of a level, from the tree it has so far. */
  lemma {:induction false} RestSound(ts: seq<Token>, start: nat, pos: nat, depth: nat, max: nat, level: Level,
        left: Syntax, e: Expr) returns (c: Syntax)
    requires Ended(ts) && pos < |ts| && depth <= max && TreeAt(left, ts, start, depth, max, RankOf(level), e, pos)
    requires ParseRest(ts, pos, depth, max, level, e).Success?
    ensures var r := ParseRest(ts, pos, depth, max, level, e);
            TreeAt(c, ts, start, depth, max, RankOf(level), r.value, r.pos)
    decreases |ts| - pos, LevelRank(level), 1
  {
    hide TreeAt, ParseOperand, Operator, OperatorRank, BinaryKind, RankOf;
    var op := Operator(level, ts[pos].kind);
    c := left;
    if op.Some? {
      OperatorIs(level, ts[pos].kind);
      var right := ParseOperand(ts, pos + 1, depth, max, level);
      var operand := OperandSound(ts, pos + 1, depth, max, level);
      InfixAt(left, operand, ts, start, depth, max, op.value, e, pos, right.value, right.pos);
      c := RestSound(ts, start, right.pos, depth, max, level, Infix(left, op.value, operand),
                     BinaryExpression(e, op.value, right.value));
    }
  }

  lemma {:induction false} NotSound(ts: seq<Token>, pos: nat, depth: nat, max: nat) returns (c: Syntax)
    requires Ended(ts) && pos < |ts| && depth <= max && ParseNot(ts, pos, depth, max).Success?
    ensures var r := ParseNot(ts, pos, depth, max);
            TreeAt(c, ts, pos, depth, max, NOT_RANK, r.value, r.pos)
    decreases |ts| - pos, 6
  {
    hide TreeAt, ParseComparison;
    if ts[pos].kind == NOT {
      var operand := ParseNot(ts, pos + 1, depth, max);
      c := NotSound(ts, pos + 1, depth, max);
      PrefixAt(c, ts, pos, depth, max, NotOp, operand.value, operand.pos);
      c := Prefix(NotOp, c);
    } else {
      var r := ParseComparison(ts, pos, depth, max);
      c := ComparisonSound(ts, pos, depth, max);
      TighterAt(c, ts, pos, depth, max, COMPARISON_RANK, NOT_RANK, r.value, r.pos);
    }
  }

  lemma {:induction false} ComparisonSound(ts: seq<Token>, pos: nat, depth: nat, max: nat) returns (c: Syntax)
    requires Ended(ts) && pos < |ts| && depth <= max && ParseComparison(ts, pos, depth, max).Success?
    ensures var r := ParseComparison(ts, pos, depth, max);
            TreeAt(c, ts, pos, depth, max, COMPARISON_RANK, r.value, r.pos)
    decreases |ts| - pos, 5
  {
    hide TreeAt, ParseLevel, ParseComparisonTail;
    var left := ParseLevel(ts, pos, depth, max, AddLevel);
    c := LevelSound(ts, pos, depth, max, AddLevel);
    c := TailSound(ts, pos, left.pos, depth, max, c, left.value);
  }

  /** What may follow the left side of a comparison. */
  lemma {:induction false} TailSound(ts: seq<Token>, start: nat, pos: nat, depth: nat, max: nat, left: Syntax,
        e: Expr) returns (c: Syntax)
    requires Ended(ts) && start < pos < |ts| && depth <= max && TreeAt(left, ts, start, depth, max, SUM_RANK, e, pos)
    requires ParseComparisonTail(ts, pos, depth, max, e).Success?
    ensures var r := ParseComparisonTail(ts, pos, depth, max, e);
            TreeAt(c, ts, start, depth, max, COMPARISON_RANK, r.value, r.pos)
    decreases |ts| - pos, 4
  {
    hide TreeAt, ParseRight, ParseMembership, ComparisonPieces, TestWords, Matches;
    var kind, next := ts[pos].kind, KindAt(ts, pos + 1);
    if Comparison(kind).Some? {
      SignSpells(ts, pos, Comparison(kind).value);
      c := RightSound(ts, start, pos, pos + 1, depth, max, left, e, Comparison(kind).value);
    } else if kind == NOT && next == LIKE {
      NextInside(ts, pos, LIKE);
      NotLikeSpells(ts, pos);
      c := RightSound(ts, start, pos, pos + 2, depth, max, left, e, NotLike);
    } else if kind == IS {
      var negated := next == NOT;
      TestSpells(ts, pos, negated);
      IsNullAt(left, ts, start, depth, max, negated, e, pos);
      c := IsNull(left, negated);
    } else {
      c := MembershipSound(ts, start, pos, depth, max, left, e);
    }
  }

  lemma NextInside(ts: seq<Token>, pos: nat, kind: Kind)
    requires Ended(ts) && pos < |ts| && KindAt(ts, pos + 1) == kind != EOF
    ensures pos + 1 < |ts| && ts[pos + 1].kind == kind
  {
  }

  lemma SignPiece(op: ComparisonOp, kind: Kind)
    requires Comparison(kind) == Some(op)
    ensures |ComparisonPieces(op)| == 1 && ComparisonPieces(op)[0].kind == kind && !HasValue(kind)
  {
  }

  lemma SignSpells(ts: seq<Token>, pos: nat, op: ComparisonOp)
    requires pos < |ts| && Comparison(ts[pos].kind) == Some(op)
    ensures Matches(ts, pos, ComparisonPieces(op)) && |ComparisonPieces(op)| == 1
  {
    hide Matches, ComparisonPieces, Comparison, HasValue;
    SignPiece(op, ts[pos].kind);
    var p := ComparisonPieces(op)[0];
    MatchOne(ts, pos, p);
    assert ComparisonPieces(op) == [p];
  }

  lemma NotLikeSpells(ts: seq<Token>, pos: nat)
    requires pos + 1 < |ts| && ts[pos].kind == NOT && ts[pos + 1].kind == LIKE
    ensures Matches(ts, pos, ComparisonPieces(NotLike)) && |ComparisonPieces(NotLike)| == 2
  {
    hide Matches;
    var a, b := Gap("NOT", NOT), Gap("LIKE", LIKE);
    assert ComparisonPieces(NotLike) == [a] + [b];
    MatchFirst(ts, pos, a, [b]);
    MatchOne(ts, pos + 1, b);
  }

  lemma TestSpells(ts: seq<Token>, pos: nat, negated: bool)
    requires var at := if negated then pos + 2 else pos + 1;
             at < |ts| && ts[pos].kind == IS && (negated ==> ts[pos + 1].kind == NOT) && ts[at].kind == NULL
    ensures Matches(ts, pos, TestWords(negated)) && |TestWords(negated)| == if negated then 3 else 2
  {
    hide Matches;
    var first, not, last := Gap("IS", IS), Gap("NOT", NOT), Gap("NULL", NULL);
    if negated {
      assert TestWords(negated) == [first] + [not] + [last];
      MatchLast(ts, pos, [first] + [not], last);
      MatchLast(ts, pos, [first], not);
    } else {
      assert TestWords(negated) == [first] + [last];
      MatchLast(ts, pos, [first], last);
    }
    MatchOne(ts, pos, first);
  }

  lemma {:induction false} RightSound(ts: seq<Token>, start: nat, mid: nat, pos: nat, depth: nat, max: nat, left: Syntax,
        e: Expr, op: ComparisonOp) returns (c: Syntax)
    requires Ended(ts) && mid < pos < |ts| && depth <= max && TreeAt(left, ts, start, depth, max, SUM_RANK, e, mid)
    requires Matches(ts, mid, ComparisonPieces(op)) && pos == mid + |ComparisonPieces(op)|
    requires ParseRight(ts, pos, depth, max, e, op).Success?
    ensures var r := ParseRight(ts, pos, depth, max, e, op);
            TreeAt(c, ts, start, depth, max, COMPARISON_RANK, r.value, r.pos)
    decreases |ts| - pos, 5
  {
    hide TreeAt, ParseLevel, ComparisonPieces, Matches;
    var right := ParseLevel(ts, pos, depth, max, AddLevel);
    c := LevelSound(ts, pos, depth, max, AddLevel);
    CompareAt(left, c, ts, start, depth, max, op, e, mid, right.value, right.pos);
    c := Compare(left, op, c);
  }

  lemma {:induction false} MembershipSound(ts: seq<Token>, start: nat, pos: nat, depth: nat, max: nat, left: Syntax,
        e: Expr) returns (c: Syntax)
    requires Ended(ts) && start < pos < |ts| && depth <= max && TreeAt(left, ts, start, depth, max, SUM_RANK, e, pos)
    requires ParseMembership(ts, pos, depth, max, e).Success?
    ensures var r := ParseMembership(ts, pos, depth, max, e);
            TreeAt(c, ts, start, depth, max, COMPARISON_RANK, r.value, r.pos)
    decreases |ts| - pos, 3
  {
    hide TreeAt, ParseIn, ParseBetween;
    var kind, next := ts[pos].kind, KindAt(ts, pos + 1);
    if kind == NOT && next == IN {
      NextInside(ts, pos, IN);
      c := InSound(ts, start, pos, pos + 2, depth, max, left, e, true);
    } else if kind == NOT && next == BETWEEN {
      NextInside(ts, pos, BETWEEN);
      c := BetweenSound(ts, start, pos, pos + 2, depth, max, left, e, true);
    } else if kind == IN {
      c := InSound(ts, start, pos, pos + 1, depth, max, left, e, false);
    } else if kind == BETWEEN {
      c := BetweenSound(ts, start, pos, pos + 1, depth, max, left, e, false);
    } else {
      c := left;
      TighterAt(c, ts, start, depth, max, SUM_RANK, COMPARISON_RANK, e, pos);
    }
  }

  lemma InSpells(ts: seq<Token>, pos: nat, negated: bool)
    requires var at := if negated then pos + 1 else pos;
             at + 1 < |ts| && (negated ==> ts[pos].kind == NOT) && ts[at].kind == IN && ts[at + 1].kind == LPAREN
    ensures Matches(ts, pos, InWords(negated)) && |InWords(negated)| == if negated then 3 else 2
  {
    hide Matches;
    var not, word, open := Gap("NOT", NOT), Gap("IN", IN), Gap("(", LPAREN);
    if negated {
      assert InWords(negated) == [not] + [word] + [open];
      MatchLast(ts, pos, [not] + [word], open);
      MatchLast(ts, pos, [not], word);
      MatchOne(ts, pos, not);
    } else {
      assert InWords(negated) == [word] + [open];
      MatchLast(ts, pos, [word], open);
      MatchOne(ts, pos, word);
    }
  }

  lemma BetweenSpells(ts: seq<Token>, pos: nat, negated: bool)
    requires var at := if negated then pos + 1 else pos;
             at < |ts| && (negated ==> ts[pos].kind == NOT) && ts[at].kind == BETWEEN
    ensures Matches(ts, pos, BetweenWords(negated)) && |BetweenWords(negated)| == if negated then 2 else 1
  {
    hide Matches;
    var not, word := Gap("NOT", NOT), Gap("BETWEEN", BETWEEN);
    if negated {
      assert BetweenWords(negated) == [not] + [word];
      MatchLast(ts, pos, [not], word);
      MatchOne(ts, pos, not);
    } else {
      assert BetweenWords(negated) == [word];
      MatchOne(ts, pos, word);
    }
  }

  lemma {:induction false} InSound(ts: seq<Token>, start: nat, mid: nat, pos: nat, depth: nat, max: nat, left: Syntax,
        e: Expr, negated: bool) returns (c: Syntax)
    requires Ended(ts) && pos < |ts| && depth <= max && TreeAt(left, ts, start, depth, max, SUM_RANK, e, mid)
    requires pos == mid + (if negated then 2 else 1) && (negated ==> ts[mid].kind == NOT) && ts[pos - 1].kind == IN
    requires ParseIn(ts, pos, depth, max, e, negated).Success?
    ensures var r := ParseIn(ts, pos, depth, max, e, negated);
            TreeAt(c, ts, start, depth, max, COMPARISON_RANK, r.value, r.pos)
    decreases |ts| - pos, 5
  {
    hide TreeAt, TreesAt, ParseList, InWords, Matches;
    var values := ParseList(ts, pos + 1, depth, max);
    var cs := ListSound(ts, pos + 1, depth, max);
    InSpells(ts, mid, negated);
    OneOfAt(left, cs, ts, start, depth, max, negated, e, mid, values.values, values.pos);
    c := OneOf(left, cs, negated);
  }

  lemma {:induction false} BetweenSound(ts: seq<Token>, start: nat, mid: nat, pos: nat, depth: nat, max: nat, left: Syntax,
        e: Expr, negated: bool) returns (c: Syntax)
    requires Ended(ts) && pos < |ts| && depth <= max && TreeAt(left, ts, start, depth, max, SUM_RANK, e, mid)
    requires pos == mid + (if negated then 2 else 1) && (negated ==> ts[mid].kind == NOT) && ts[pos - 1].kind == BETWEEN
    requires ParseBetween(ts, pos, depth, max, e, negated).Success?
    ensures var r := ParseBetween(ts, pos, depth, max, e, negated);
            TreeAt(c, ts, start, depth, max, COMPARISON_RANK, r.value, r.pos)
    decreases |ts| - pos, 5
  {
    hide TreeAt, ParseLevel, BetweenWords, Matches;
    var low := ParseLevel(ts, pos, depth, max, AddLevel);
    var high := ParseLevel(ts, low.pos + 1, depth, max, AddLevel);
    var l := LevelSound(ts, pos, depth, max, AddLevel);
    var h := LevelSound(ts, low.pos + 1, depth, max, AddLevel);
    BetweenSpells(ts, mid, negated);
    WithinAt(left, l, h, ts, start, depth, max, negated, e, mid, low.value, low.pos, high.value, high.pos);
    c := Within(left, l, h, negated);
  }

  lemma {:induction false} UnarySound(ts: seq<Token>, pos: nat, depth: nat, max: nat) returns (c: Syntax)
    requires Ended(ts) && pos < |ts| && depth <= max && ParseUnary(ts, pos, depth, max).Success?
    ensures var r := ParseUnary(ts, pos, depth, max);
            TreeAt(c, ts, pos, depth, max, SIGN_RANK, r.value, r.pos)
    decreases |ts| - pos, 2
  {
    hide TreeAt, ParsePrimary;
    if ts[pos].kind == MINUS || ts[pos].kind == PLUS {
      var op := if ts[pos].kind == MINUS then Minus else Plus;
      var operand := ParseUnary(ts, pos + 1, depth, max);
      c := UnarySound(ts, pos + 1, depth, max);
      PrefixAt(c, ts, pos, depth, max, op, operand.value, operand.pos);
      c := Prefix(op, c);
    } else {
      var r := ParsePrimary(ts, pos, depth, max);
      c := PrimarySound(ts, pos, depth, max);
      TighterAt(c, ts, pos, depth, max, PRIMARY_RANK, SIGN_RANK, r.value, r.pos);
    }
  }

  function WordOf(t: Token): Word { Word(t.kind, t.value) }

  lemma WordOfMatches(t: Token)
    ensures MatchesOne(t, WordPiece(WordOf(t)))
  {
    hide WordText;
  }

  lemma AtomAt(ts: seq<Token>, pos: nat, depth: nat, max: nat)
    requires pos < |ts| && depth <= max && WordMeaning(WordOf(ts[pos])).Some?
    ensures TreeAt(Atom(WordOf(ts[pos])), ts, pos, depth, max, PRIMARY_RANK, WordMeaning(WordOf(ts[pos])).value, pos + 1)
  {
    hide Matches, WordMeaning, WordPiece;
    WordOfMatches(ts[pos]);
    AtomMatches(ts, pos, WordOf(ts[pos]));
  }

  /** The tokens that are an expression by themselves. */
  lemma PrimaryCases(ts: seq<Token>, pos: nat, depth: nat, max: nat)
    requires Ended(ts) && pos < |ts| && ParsePrimary(ts, pos, depth, max).Success?
    ensures var r, kind := ParsePrimary(ts, pos, depth, max), ts[pos].kind;
            if IsNameKind(kind) then r == ParseName(ts, pos + 1, depth, max, ts[pos].value)
            else if kind == COLON then
              pos + 1 < |ts| && IsNameKind(ts[pos + 1].kind) && r == Success(Parameter(Some(ts[pos + 1].value)), pos + 2)
            else if kind == LPAREN then
              var inner := ParseExpression(ts, pos + 1, depth, max);
              inner.Success? && ts[inner.pos].kind == RPAREN && r == Success(inner.value, inner.pos + 1)
            else WordMeaning(WordOf(ts[pos])).Some? && r == Success(WordMeaning(WordOf(ts[pos])).value, pos + 1)
  {
    hide ParseExpression, ParseName, AllDigits, TextValue;
  }

  lemma {:induction false} PrimarySound(ts: seq<Token>, pos: nat, depth: nat, max: nat) returns (c: Syntax)
    requires Ended(ts) && pos < |ts| && depth <= max && ParsePrimary(ts, pos, depth, max).Success?
    ensures var r := ParsePrimary(ts, pos, depth, max);
            TreeAt(c, ts, pos, depth, max, PRIMARY_RANK, r.value, r.pos)
    decreases |ts| - pos, 1
  {
    hide TreeAt, ParsePrimary, ParseExpression, ParseName, WordMeaning;
    PrimaryCases(ts, pos, depth, max);
    var kind := ts[pos].kind;
    if IsNameKind(kind) {
      c := NameSound(ts, pos, depth, max);
    } else if kind == COLON {
      c := Named(WordOf(ts[pos + 1]));
      NamedAt(ts, pos, depth, max);
    } else if kind == LPAREN {
      var inner := ParseExpression(ts, pos + 1, depth, max);
      c := ExpressionSound(ts, pos + 1, depth, max);
      ParenAt(c, ts, pos, depth, max, inner.value, inner.pos);
      c := Paren(c);
    } else {
      c := Atom(WordOf(ts[pos]));
      AtomAt(ts, pos, depth, max);
    }
  }

  lemma NamedAt(ts: seq<Token>, pos: nat, depth: nat, max: nat)
    requires pos + 1 < |ts| && depth <= max && ts[pos].kind == COLON && IsNameKind(ts[pos + 1].kind)
    ensures TreeAt(Named(WordOf(ts[pos + 1])), ts, pos, depth, max, PRIMARY_RANK, Parameter(Some(ts[pos + 1].value)), pos + 2)
  {
    hide Matches, WordPiece;
    WordOfMatches(ts[pos + 1]);
    NamedMatches(ts, pos, WordOf(ts[pos + 1]));
  }

  lemma QualifiedAt(ts: seq<Token>, pos: nat, depth: nat, max: nat)
    requires pos + 2 < |ts| && depth <= max && IsNameKind(ts[pos].kind) && ts[pos + 1].kind == DOT && IsNameKind(ts[pos + 2].kind)
    ensures TreeAt(Qualified(WordOf(ts[pos]), WordOf(ts[pos + 2])), ts, pos, depth, max, PRIMARY_RANK,
                   ColumnReference(Some(ts[pos].value), ts[pos + 2].value), pos + 3)
  {
    hide Matches, WordPiece;
    WordOfMatches(ts[pos]);
    WordOfMatches(ts[pos + 2]);
    QualifiedMatches(ts, pos, WordOf(ts[pos]), WordOf(ts[pos + 2]));
  }

  lemma ColumnAt(ts: seq<Token>, pos: nat, depth: nat, max: nat)
    requires pos < |ts| && depth <= max && IsNameKind(ts[pos].kind)
    ensures TreeAt(Atom(WordOf(ts[pos])), ts, pos, depth, max, PRIMARY_RANK, ColumnReference(None, ts[pos].value), pos + 1)
  {
    hide TreeAt;
    AtomAt(ts, pos, depth, max);
  }

  lemma {:induction false} NameSound(ts: seq<Token>, pos: nat, depth: nat, max: nat) returns (c: Syntax)
    requires Ended(ts) && pos + 1 < |ts| && depth <= max && IsNameKind(ts[pos].kind)
    requires ParseName(ts, pos + 1, depth, max, ts[pos].value).Success?
    ensures var r := ParseName(ts, pos + 1, depth, max, ts[pos].value);
            TreeAt(c, ts, pos, depth, max, PRIMARY_RANK, r.value, r.pos)
    decreases |ts| - pos, 0
  {
    hide TreeAt, ParseArguments;
    if ts[pos + 1].kind == LPAREN {
      c := ArgumentsSound(ts, pos, depth, max);
    } else if ts[pos + 1].kind == DOT {
      c := Qualified(WordOf(ts[pos]), WordOf(ts[pos + 2]));
      QualifiedAt(ts, pos, depth, max);
    } else {
      c := Atom(WordOf(ts[pos]));
      ColumnAt(ts, pos, depth, max);
    }
  }

  /** What the parser of a call's arguments has found, when it succeeds. */
  lemma ArgumentCases(ts: seq<Token>, pos: nat, depth: nat, max: nat, name: string)
    requires Ended(ts) && pos < |ts| && ParseArguments(ts, pos, depth, max, name).Success?
    ensures var r, distinct := ParseArguments(ts, pos, depth, max, name), ts[pos].kind == DISTINCT;
            var at := if distinct then pos + 1 else pos;
            at < |ts| &&
            if ts[at].kind == RPAREN then r == Success(FunctionCall(name, Listed([]), distinct), at + 1)
            else if ts[at].kind == STAR then
              at + 1 < |ts| && ts[at + 1].kind == RPAREN && r == Success(FunctionCall(name, AllColumns, distinct), at + 2)
            else
              var arguments := ParseList(ts, at, depth, max);
              arguments.SuccessList? && ts[arguments.pos].kind == RPAREN &&
              r == Success(FunctionCall(name, Listed(arguments.values), distinct), arguments.pos + 1)
  {
    hide ParseList;
  }

  lemma CallStandsIf(ts: seq<Token>, pos: nat, inner: seq<Piece>, distinct: bool)
    requires var at := pos + if distinct then 3 else 2;
             at + |inner| < |ts| && Matches(ts, at, inner) && ts[at + |inner|].kind == RPAREN
    requires ts[pos + 1].kind == LPAREN && (distinct ==> ts[pos + 2].kind == DISTINCT)
    ensures CallStands(ts, pos, WordOf(ts[pos]), inner, distinct)
  {
    hide Matches, WordPiece, WordOf;
    WordOfMatches(ts[pos]);
  }

  lemma NoArgumentsAt(ts: seq<Token>, pos: nat, depth: nat, max: nat, distinct: bool)
    requires var at := pos + if distinct then 3 else 2;
             at < |ts| && ts[at].kind == RPAREN
    requires depth <= max && IsNameKind(ts[pos].kind) && ts[pos + 1].kind == LPAREN && (distinct ==> ts[pos + 2].kind == DISTINCT)
    ensures TreeAt(Call(WordOf(ts[pos]), [], distinct), ts, pos, depth, max, PRIMARY_RANK,
                   FunctionCall(ts[pos].value, Listed([]), distinct), pos + (if distinct then 3 else 2) + 1)
  {
    hide TreeAt, CallStands, Matches, WrittenList, Meanings, ListDeep, AllGrammatical;
    var at := pos + if distinct then 3 else 2;
    NothingListed([]);
    NothingMatches(ts, at);
    CallStandsIf(ts, pos, [], distinct);
    CallAt(WordOf(ts[pos]), [], distinct, ts, pos, depth, max, [], at + 1);
  }

  lemma StarAt(ts: seq<Token>, pos: nat, depth: nat, max: nat, distinct: bool)
    requires var at := pos + if distinct then 3 else 2;
             at + 1 < |ts| && ts[at].kind == STAR && ts[at + 1].kind == RPAREN
    requires depth <= max && IsNameKind(ts[pos].kind) && ts[pos + 1].kind == LPAREN && (distinct ==> ts[pos + 2].kind == DISTINCT)
    ensures TreeAt(CallAll(WordOf(ts[pos]), distinct), ts, pos, depth, max, PRIMARY_RANK,
                   FunctionCall(ts[pos].value, AllColumns, distinct), pos + (if distinct then 3 else 2) + 2)
  {
    hide TreeAt, CallStands, Matches;
    var at := pos + if distinct then 3 else 2;
    StarMatches(ts, at);
    CallStandsIf(ts, pos, [Mark("*", STAR)], distinct);
    CallAllAt(WordOf(ts[pos]), distinct, ts, pos, depth, max, at + 2);
  }

  lemma ArgumentsAt(cs: seq<Syntax>, ts: seq<Token>, pos: nat, depth: nat, max: nat, distinct: bool, es: seq<Expr>, end: nat)
    requires TreesAt(cs, ts, pos + (if distinct then 3 else 2), depth, max, es, end) && end < |ts| && ts[end].kind == RPAREN
    requires pos + 2 < |ts| && IsNameKind(ts[pos].kind) && ts[pos + 1].kind == LPAREN && (distinct ==> ts[pos + 2].kind == DISTINCT)
    ensures TreeAt(Call(WordOf(ts[pos]), cs, distinct), ts, pos, depth, max, PRIMARY_RANK,
                   FunctionCall(ts[pos].value, Listed(es), distinct), end + 1)
  {
    hide TreeAt, TreesAt, CallStands, Matches, WrittenList, Meanings, ListDeep, AllGrammatical;
    TreesMean(cs, ts, pos + (if distinct then 3 else 2), depth, max, es, end);
    CallStandsIf(ts, pos, WrittenList(cs), distinct);
    CallAt(WordOf(ts[pos]), cs, distinct, ts, pos, depth, max, es, end + 1);
  }

  lemma {:induction false} ArgumentsSound(ts: seq<Token>, pos: nat, depth: nat, max: nat) returns (c: Syntax)
    requires Ended(ts) && pos + 2 < |ts| && depth <= max && IsNameKind(ts[pos].kind) && ts[pos + 1].kind == LPAREN
    requires ParseArguments(ts, pos + 2, depth, max, ts[pos].value).Success?
    ensures var r := ParseArguments(ts, pos + 2, depth, max, ts[pos].value);
            TreeAt(c, ts, pos, depth, max, PRIMARY_RANK, r.value, r.pos)
    decreases |ts| - pos - 2, 11
  {
    hide TreeAt, TreesAt, ParseArguments, ParseList;
    var name, distinct := WordOf(ts[pos]), ts[pos + 2].kind == DISTINCT;
    var at := pos + if distinct then 3 else 2;
    ArgumentCases(ts, pos + 2, depth, max, ts[pos].value);
    if ts[at].kind == RPAREN {
      NoArgumentsAt(ts, pos, depth, max, distinct);
      c := Call(name, [], distinct);
    } else if ts[at].kind == STAR {
      StarAt(ts, pos, depth, max, distinct);
      c := CallAll(name, distinct);
    } else {
      var arguments := ParseList(ts, at, depth, max);
      var cs := ListSound(ts, at, depth, max);
      ArgumentsAt(cs, ts, pos, depth, max, distinct, arguments.values, arguments.pos);
      c := Call(name, cs, distinct);
    }
  }

  lemma NothingMatches(ts: seq<Token>, pos: nat)
    requires pos <= |ts|
    ensures Matches(ts, pos, []) && AllGrammatical([])
  {
  }

  lemma TreesMean(cs: seq<Syntax>, ts: seq<Token>, pos: nat, depth: nat, max: nat, es: seq<Expr>, end: nat)
    requires TreesAt(cs, ts, pos, depth, max, es, end)
    ensures AllGrammatical(cs) && Matches(ts, pos, WrittenList(cs)) && pos + |WrittenList(cs)| == end && Meanings(cs) == es &&
            depth + ListDeep(cs) <= max
  {
    hide Matches, WrittenList, Meanings, ListDeep, AllGrammatical;
  }

  lemma {:induction false} ListSound(ts: seq<Token>, pos: nat, depth: nat, max: nat) returns (cs: seq<Syntax>)
    requires Ended(ts) && pos < |ts| && ParseList(ts, pos, depth, max).SuccessList?
    ensures var r := ParseList(ts, pos, depth, max);
            TreesAt(cs, ts, pos, depth, max, r.values, r.pos)
    decreases |ts| - pos, 10
  {
    hide TreeAt, TreesAt, ParseExpression, ParseMore;
    var first := ParseExpression(ts, pos, depth, max);
    var c := ExpressionSound(ts, pos, depth, max);
    var es, more := MoreSound(ts, first.pos, depth, max, [first.value]);
    var r := ParseList(ts, pos, depth, max);
    MoreAt(c, more, ts, pos, depth, max, first.value, first.pos, es, r.pos);
    cs := [c] + more;
  }

  lemma {:induction false} MoreSound(ts: seq<Token>, pos: nat, depth: nat, max: nat, before: seq<Expr>)
    returns (es: seq<Expr>, cs: seq<Syntax>)
    requires Ended(ts) && pos < |ts| && ParseMore(ts, pos, depth, max, before).SuccessList?
    ensures var r := ParseMore(ts, pos, depth, max, before);
            r.values == before + es &&
            if cs == [] then es == [] && r.pos == pos
            else ts[pos].kind == COMMA && TreesAt(cs, ts, pos + 1, depth, max, es, r.pos)
    decreases |ts| - pos, 10
  {
    hide TreeAt, TreesAt, ParseExpression;
    es, cs := [], [];
    assert before + es == before;
    if ts[pos].kind == COMMA {
      var next := ParseExpression(ts, pos + 1, depth, max);
      var c := ExpressionSound(ts, pos + 1, depth, max);
      var later, more := MoreSound(ts, next.pos, depth, max, before + [next.value]);
      var r := ParseMore(ts, pos, depth, max, before);
      MoreAt(c, more, ts, pos + 1, depth, max, next.value, next.pos, later, r.pos);
      es, cs := [next.value] + later, [c] + more;
      assert before + [next.value] + later == before + es;
    }
  }

  // ---- Exactly the grammar ----

  /** The tree is written as all the tokens up to the end token, and fits the depth limit. */
  ghost predicate WrittenAs(c: Syntax, ts: seq<Token>, max: nat) {
    ts != [] && Grammatical(c) && Matches(ts, 0, Written(c)) && |Written(c)| == |ts| - 1 && 1 + Deep(c) <= max
  }

  /** The parser accepts exactly the grammar: it reads all the tokens up to the end token exactly when
      some tree that fits the depth limit is written as them, and then as what the tree means. */
  lemma AcceptsExactlyTheGrammar(ts: seq<Token>, max: nat)
    requires Ended(ts)
    ensures var r := ParseExpression(ts, 0, 0, max);
            (r.Success? && r.pos == |ts| - 1 <==> exists c :: WrittenAs(c, ts, max)) &&
            forall c :: WrittenAs(c, ts, max) ==> r == Success(Meaning(c), |ts| - 1)
  {
    hide ParseExpression, Matches, Written, Grammatical, Meaning, Deep, StartsTree;
    var r := ParseExpression(ts, 0, 0, max);
    forall c | WrittenAs(c, ts, max) ensures r == Success(Meaning(c), |ts| - 1) {
      ElementReads(c, ts, 0, 0, max);
    }
    if r.Success? && r.pos == |ts| - 1 {
      var c := ExpressionSound(ts, 0, 0, max);
      assert WrittenAs(c, ts, max);
    }
  }
}
