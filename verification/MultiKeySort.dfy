// ORDER BY over an in-memory table: one stable sort per key, from the last key to the first.
module MultiKeySort {
  import opened Wrappers
  import opened Values

  type Row = map<string, Value>

  /** A column and whether it sorts downward. */
  type SortField = (string, bool)

  function ValueOf(row: Row, name: string): Value { if name in row then row[name] else Null }

  /** The sort key pairs "is null" with the value: nulls come after everything else. */
  predicate KeyLess(a: Value, b: Value) { a != Null && (b == Null || Less(a, b)) }

  /** The first row sorts strictly before the second; a reversed sort turns the comparison round. */
  predicate Before(a: Row, b: Row, f: SortField) {
    if f.1 then KeyLess(ValueOf(b, f.0), ValueOf(a, f.0)) else KeyLess(ValueOf(a, f.0), ValueOf(b, f.0))
  }

  // ---- list.sort, and the loop over the keys ----

  function Insert(row: Row, sorted: seq<Row>, f: SortField): seq<Row> {
    if sorted == [] then [row]
    else if Before(sorted[0], row, f) then [sorted[0]] + Insert(row, sorted[1..], f)
    else [row] + sorted
  }

  /** A stable sort by one key: rows that tie stay in their order, reversed or not. */
  function SortBy(rows: seq<Row>, f: SortField): seq<Row> {
    if rows == [] then [] else Insert(rows[0], SortBy(rows[1..], f), f)
  }

  function SortAll(rows: seq<Row>, fields: seq<SortField>): seq<Row>
    decreases |fields|
  {
    if fields == [] then rows else SortBy(SortAll(rows, fields[1..]), fields[0])
  }

  // ---- What ORDER BY means ----

  /** Row i is to come before row j: by the first key that tells them apart, else by position. */
  predicate Ahead(rows: seq<Row>, fields: seq<SortField>, i: nat, j: nat)
    requires i < |rows| && j < |rows|
    decreases |fields|
  {
    if fields == [] then i < j
    else
      Before(rows[i], rows[j], fields[0]) ||
      (!Before(rows[j], rows[i], fields[0]) && Ahead(rows, fields[1..], i, j))
  }

  predicate Positions(order: seq<nat>, n: nat) { forall l :: 0 <= l < |order| ==> order[l] < n }

  predicate InOrder(rows: seq<Row>, fields: seq<SortField>, order: seq<nat>)
    requires Positions(order, |rows|)
  {
    forall l, m :: 0 <= l < m < |order| ==> Ahead(rows, fields, order[l], order[m])
  }

  function Pick(rows: seq<Row>, order: seq<nat>): (picked: seq<Row>)
    requires Positions(order, |rows|)
    ensures |picked| == |order| && forall l :: 0 <= l < |order| ==> picked[l] == rows[order[l]]
  {
    seq(|order|, l requires 0 <= l < |order| => rows[order[l]])
  }

  // ---- The same sorts on positions ----

  function InsertAt(rows: seq<Row>, i: nat, order: seq<nat>, f: SortField): (out: seq<nat>)
    requires i < |rows| && Positions(order, |rows|)
    ensures Positions(out, |rows|) && multiset(out) == multiset(order) + multiset{i}
  {
    if order == [] then [i]
    else if Before(rows[order[0]], rows[i], f) then
      var rest := InsertAt(rows, i, order[1..], f);
      assert order == [order[0]] + order[1..];
      [order[0]] + rest
    else [i] + order
  }

  function OrderBy(rows: seq<Row>, order: seq<nat>, f: SortField): (out: seq<nat>)
    requires Positions(order, |rows|)
    ensures Positions(out, |rows|) && multiset(out) == multiset(order)
  {
    if order == [] then []
    else
      assert order == [order[0]] + order[1..];
      InsertAt(rows, order[0], OrderBy(rows, order[1..], f), f)
  }

  function Natural(n: nat): (order: seq<nat>)
    ensures |order| == n && forall l :: 0 <= l < n ==> order[l] == l
  {
    seq(n, l requires 0 <= l < n => l)
  }

  function OrderAll(rows: seq<Row>, fields: seq<SortField>): (out: seq<nat>)
    ensures Positions(out, |rows|) && multiset(out) == multiset(Natural(|rows|))
    decreases |fields|
  {
    if fields == [] then Natural(|rows|) else OrderBy(rows, OrderAll(rows, fields[1..]), fields[0])
  }

  lemma {:induction false} InsertPicks(rows: seq<Row>, i: nat, order: seq<nat>, f: SortField)
    requires i < |rows| && Positions(order, |rows|)
    ensures Pick(rows, InsertAt(rows, i, order, f)) == Insert(rows[i], Pick(rows, order), f)
    decreases |order|
  {
    if order != [] && Before(rows[order[0]], rows[i], f) {
      InsertPicks(rows, i, order[1..], f);
      assert Pick(rows, order)[1..] == Pick(rows, order[1..]);
    }
  }

  lemma {:induction false} OrderPicks(rows: seq<Row>, order: seq<nat>, f: SortField)
    requires Positions(order, |rows|)
    ensures Pick(rows, OrderBy(rows, order, f)) == SortBy(Pick(rows, order), f)
    decreases |order|
  {
    if order != [] {
      OrderPicks(rows, order[1..], f);
      InsertPicks(rows, order[0], OrderBy(rows, order[1..], f), f);
      assert Pick(rows, order)[1..] == Pick(rows, order[1..]);
    }
  }

  lemma {:induction false} OrderAllPicks(rows: seq<Row>, fields: seq<SortField>)
    ensures Pick(rows, OrderAll(rows, fields)) == SortAll(rows, fields)
    decreases |fields|
  {
    if fields == [] {
      assert Pick(rows, Natural(|rows|)) == rows;
    } else {
      OrderAllPicks(rows, fields[1..]);
      OrderPicks(rows, OrderAll(rows, fields[1..]), fields[0]);
    }
  }

  // ---- Each pass refines the order by one more key ----

  lemma KeyLessIsWeakOrder(a: Value, b: Value, c: Value)
    ensures !(KeyLess(a, b) && KeyLess(b, a))
    ensures KeyLess(a, c) ==> KeyLess(a, b) || KeyLess(b, c)
  {
    LessTotal(a, b);
    LessTotal(b, c);
    LessTotal(a, c);
    if Less(b, a) && Less(a, c) { LessTransitive(b, a, c); }
    if Less(a, c) && Less(c, b) { LessTransitive(a, c, b); }
  }

  lemma BeforeIsWeakOrder(a: Row, b: Row, c: Row, f: SortField)
    ensures !(Before(a, b, f) && Before(b, a, f))
    ensures Before(a, c, f) ==> Before(a, b, f) || Before(b, c, f)
  {
    var x, y, z := ValueOf(a, f.0), ValueOf(b, f.0), ValueOf(c, f.0);
    KeyLessIsWeakOrder(x, y, z);
    KeyLessIsWeakOrder(z, y, x);
  }

  /** Inserting a position that the later keys put before all others. */
  lemma {:induction false} InsertInOrder(rows: seq<Row>, fields: seq<SortField>, i: nat, order: seq<nat>)
    requires fields != [] && i < |rows| && Positions(order, |rows|) && InOrder(rows, fields, order)
    requires forall l :: 0 <= l < |order| ==> Ahead(rows, fields[1..], i, order[l])
    ensures InOrder(rows, fields, InsertAt(rows, i, order, fields[0]))
    decreases |order|
  {
    var f := fields[0];
    var out := InsertAt(rows, i, order, f);
    if order != [] && Before(rows[order[0]], rows[i], f) {
      var rest := InsertAt(rows, i, order[1..], f);
      InsertInOrder(rows, fields, i, order[1..]);
      forall m | 0 <= m < |rest| ensures Ahead(rows, fields, order[0], rest[m]) {
        assert rest[m] in multiset(rest);
        if rest[m] != i { MemberAfterFirst(order, rest[m]); }
      }
      FirstInOrder(rows, fields, order[0], rest);
    } else if order != [] {
      forall l | 0 <= l < |order| ensures Ahead(rows, fields, i, order[l]) {
        if l > 0 { StillNotBefore(rows, fields, i, order[0], order[l]); }
      }
      FirstInOrder(rows, fields, i, order);
    }
  }

  lemma MemberAfterFirst(order: seq<nat>, x: nat)
    requires order != [] && x in order[1..]
    ensures exists l :: 0 < l < |order| && order[l] == x
  {
    var l :| 0 <= l < |order[1..]| && order[1..][l] == x;
    assert order[l + 1] == x;
  }

  lemma FirstInOrder(rows: seq<Row>, fields: seq<SortField>, i: nat, order: seq<nat>)
    requires i < |rows| && Positions(order, |rows|) && InOrder(rows, fields, order)
    requires forall l :: 0 <= l < |order| ==> Ahead(rows, fields, i, order[l])
    ensures Positions([i] + order, |rows|) && InOrder(rows, fields, [i] + order)
  {
    hide Ahead;
    var out := [i] + order;
    forall l, m | 0 <= l < m < |out| ensures Ahead(rows, fields, out[l], out[m]) {
      if l > 0 { assert Ahead(rows, fields, order[l - 1], order[m - 1]); }
    }
  }

  /** What comes after a row that is not before i is not before i either. */
  lemma StillNotBefore(rows: seq<Row>, fields: seq<SortField>, i: nat, y: nat, z: nat)
    requires fields != [] && i < |rows| && y < |rows| && z < |rows|
    requires !Before(rows[y], rows[i], fields[0]) && Ahead(rows, fields, y, z)
    ensures !Before(rows[z], rows[i], fields[0])
  {
    BeforeIsWeakOrder(rows[z], rows[y], rows[i], fields[0]);
    BeforeIsWeakOrder(rows[y], rows[z], rows[y], fields[0]);
  }

  /** A stable pass by a new first key, over an order by the others, gives the order by all. */
  lemma {:induction false} PassRefinesOrder(rows: seq<Row>, fields: seq<SortField>, order: seq<nat>)
    requires fields != [] && Positions(order, |rows|) && InOrder(rows, fields[1..], order)
    ensures InOrder(rows, fields, OrderBy(rows, order, fields[0]))
    decreases |order|
  {
    if order != [] {
      var rest := OrderBy(rows, order[1..], fields[0]);
      assert InOrder(rows, fields[1..], order[1..]) by {
        assert forall l :: 0 <= l < |order[1..]| ==> order[1..][l] == order[l + 1];
      }
      PassRefinesOrder(rows, fields, order[1..]);
      forall l | 0 <= l < |rest| ensures Ahead(rows, fields[1..], order[0], rest[l]) {
        assert rest[l] in multiset(rest);
        MemberAfterFirst(order, rest[l]);
      }
      InsertInOrder(rows, fields, order[0], rest);
    }
  }

  /** Multi-key sort: the result is the rows picked in an order that lists each position once and
      puts i before j exactly by the first key that tells them apart, ties by original position. */
  lemma {:induction false} SortAllIsLexicographic(rows: seq<Row>, fields: seq<SortField>)
    ensures var order := OrderAll(rows, fields);
            SortAll(rows, fields) == Pick(rows, order) && InOrder(rows, fields, order) &&
            multiset(order) == multiset(Natural(|rows|))
    decreases |fields|
  {
    OrderAllPicks(rows, fields);
    if fields != [] {
      SortAllIsLexicographic(rows, fields[1..]);
      PassRefinesOrder(rows, fields, OrderAll(rows, fields[1..]));
    }
  }

  /** Exactly one of two positions is ahead of the other: the order is total. */
  lemma {:induction false} AheadIsTotal(rows: seq<Row>, fields: seq<SortField>, i: nat, j: nat)
    requires i < |rows| && j < |rows| && i != j
    ensures Ahead(rows, fields, i, j) <==> !Ahead(rows, fields, j, i)
    decreases |fields|
  {
    if fields != [] {
      BeforeIsWeakOrder(rows[i], rows[j], rows[i], fields[0]);
      AheadIsTotal(rows, fields[1..], i, j);
    }
  }

  /** Nulls come last in an upward sort and first in a downward one. */
  lemma NullsAtTheEnds(rows: seq<Row>, fields: seq<SortField>, l: nat, m: nat)
    requires fields != [] && l < m < |rows|
    ensures |SortAll(rows, fields)| == |rows|
    ensures var name := fields[0].0;
            var a, b := ValueOf(SortAll(rows, fields)[l], name), ValueOf(SortAll(rows, fields)[m], name);
            if fields[0].1 then b == Null ==> a == Null else a == Null ==> b == Null
  {
    SortAllIsLexicographic(rows, fields);
    var order := OrderAll(rows, fields);
    assert |order| == |multiset(order)| == |multiset(Natural(|rows|))|;
    assert Ahead(rows, fields, order[l], order[m]);
  }

  lemma {:induction false} InsertIsPermutation(row: Row, sorted: seq<Row>, f: SortField)
    ensures multiset(Insert(row, sorted, f)) == multiset(sorted) + multiset{row}
  {
    if sorted != [] && Before(sorted[0], row, f) {
      InsertIsPermutation(row, sorted[1..], f);
      assert sorted == [sorted[0]] + sorted[1..];
    }
  }

  lemma {:induction false} SortByIsPermutation(rows: seq<Row>, f: SortField)
    ensures multiset(SortBy(rows, f)) == multiset(rows)
  {
    if rows != [] {
      SortByIsPermutation(rows[1..], f);
      InsertIsPermutation(rows[0], SortBy(rows[1..], f), f);
      assert rows == [rows[0]] + rows[1..];
    }
  }

  lemma {:induction false} SortAllIsPermutation(rows: seq<Row>, fields: seq<SortField>)
    ensures multiset(SortAll(rows, fields)) == multiset(rows)
    decreases |fields|
  {
    if fields != [] {
      SortAllIsPermutation(rows, fields[1..]);
      SortByIsPermutation(SortAll(rows, fields[1..]), fields[0]);
    }
  }

  // ---- The statement ----

  function Matching(rows: seq<Row>, filter: Row -> bool): seq<Row> {
    if rows == [] then [] else (if filter(rows[0]) then [rows[0]] else []) + Matching(rows[1..], filter)
  }

  ghost predicate Rising(places: seq<nat>) { forall j, l :: 0 <= j < l < |places| ==> places[j] < places[l] }

  /** places lists, in rising order, where the accepted rows stand. */
  ghost predicate Accepted(rows: seq<Row>, filter: Row -> bool, places: seq<nat>) {
    Rising(places) && forall i: nat :: i in places <==> i < |rows| && filter(rows[i])
  }

  function Later(places: seq<nat>): seq<nat> { seq(|places|, (j: nat) requires j < |places| => places[j] + 1) }

  lemma LaterHolds(places: seq<nat>)
    requires Rising(places)
    ensures Rising(Later(places))
    ensures forall i: nat :: i in Later(places) <==> i > 0 && (i - 1) in places
  {
    forall i: nat | i > 0 && (i - 1) in places ensures i in Later(places) {
      var j :| 0 <= j < |places| && places[j] == i - 1;
      assert Later(places)[j] == i;
    }
    forall i: nat | i in Later(places) ensures i > 0 && (i - 1) in places {
      var j :| 0 <= j < |places| && Later(places)[j] == i;
      assert places[j] in places;
    }
  }

  lemma AcceptedOneMore(rows: seq<Row>, filter: Row -> bool, rest: seq<nat>)
    requires rows != [] && Accepted(rows[1..], filter, rest)
    ensures Accepted(rows, filter, (if filter(rows[0]) then [0] else []) + Later(rest))
  {
    LaterHolds(rest);
    assert forall i :: 0 < i < |rows| ==> rows[1..][i - 1] == rows[i];
  }

  /** The kept rows are those at the places, in turn. */
  ghost predicate Selects(rows: seq<Row>, places: seq<nat>, kept: seq<Row>) {
    |places| == |kept| && forall j :: 0 <= j < |places| ==> places[j] < |rows| && kept[j] == rows[places[j]]
  }

  lemma SelectsOneMore(rows: seq<Row>, places: seq<nat>, kept: seq<Row>)
    requires rows != [] && Selects(rows[1..], places, kept)
    ensures Selects(rows, Later(places), kept) && Selects(rows, [0] + Later(places), [rows[0]] + kept)
  {
    assert forall j :: 0 <= j < |places| ==> rows[Later(places)[j]] == rows[1..][places[j]];
  }

  /** A WHERE keeps exactly the rows the filter accepts, in the table's order. */
  lemma {:induction false} MatchingKeepsOrder(rows: seq<Row>, filter: Row -> bool) returns (places: seq<nat>)
    ensures Accepted(rows, filter, places) && Selects(rows, places, Matching(rows, filter))
  {
    if rows == [] {
      places := [];
    } else {
      hide Accepted, Selects;
      var rest := MatchingKeepsOrder(rows[1..], filter);
      AcceptedOneMore(rows, filter, rest);
      SelectsOneMore(rows, rest, Matching(rows[1..], filter));
      places := (if filter(rows[0]) then [0] else []) + Later(rest);
      assert [] + Later(rest) == Later(rest) && [] + Matching(rows[1..], filter) == Matching(rows[1..], filter);
    }
  }

  /** OFFSET and LIMIT; a limit of 0 reads as none. */
  function Window(rows: seq<Row>, offset: nat, limit: nat): seq<Row> {
    var skipped := if offset < |rows| then rows[offset..] else [];
    if limit == 0 || limit >= |skipped| then skipped else skipped[..limit]
  }

  lemma MatchingFrom(rows: seq<Row>, filter: Row -> bool, i: nat, before: seq<Row>)
    requires i < |rows|
    ensures before + Matching(rows[i..], filter)
         == before + (if filter(rows[i]) then [rows[i]] else []) + Matching(rows[i + 1..], filter)
  {
    assert rows[i..][0] == rows[i] && rows[i..][1..] == rows[i + 1..];
  }

  lemma NoneMatching(rows: seq<Row>, filter: Row -> bool)
    ensures Matching(rows[|rows|..], filter) == []
  {
  }

  class Table {
    var rows: seq<Row>

    constructor (rows: seq<Row>)
      ensures this.rows == rows
    {
      this.rows := rows;
    }

    /** _execute_select over one in-memory table.  Without a filter the list that is sorted is the
        table's own: the table keeps its rows and takes the query's order. */
    method ExecuteSelect(filter: Option<Row -> bool>, sortFields: seq<SortField>, offset: nat, limit: nat)
      returns (results: seq<Row>)
      modifies this
      ensures var selected := if filter.Some? then Matching(old(rows), filter.value) else old(rows);
              results == Window(SortAll(selected, sortFields), offset, limit) &&
              rows == if filter.Some? then old(rows) else SortAll(old(rows), sortFields)
      ensures var sorted := SortAll(if filter.Some? then Matching(old(rows), filter.value) else old(rows), sortFields);
              |results| == (if offset >= |sorted| then 0
                            else if limit == 0 || limit >= |sorted| - offset then |sorted| - offset
                            else limit) &&
              forall j :: 0 <= j < |results| ==> results[j] == sorted[offset + j]
      ensures multiset(rows) == multiset(old(rows))
    {
      var data := rows;
      if filter.Some? { data := Filtered(rows, filter.value); }
      data := SortPasses(data, sortFields);
      if filter.None? {
        SortAllIsPermutation(rows, sortFields);
        rows := data;
      }
      results := data;
      if offset != 0 { results := if offset < |results| then results[offset..] else []; }
      if limit != 0 && limit < |results| { results := results[..limit]; }
    }
  }

  method Filtered(rows: seq<Row>, filter: Row -> bool) returns (data: seq<Row>)
    ensures data == Matching(rows, filter)
  {
    hide Matching;
    data := [];
    assert rows[0..] == rows && [] + Matching(rows, filter) == Matching(rows, filter);
    for i := 0 to |rows|
      invariant data + Matching(rows[i..], filter) == Matching(rows, filter)
    {
      MatchingFrom(rows, filter, i, data);
      assert data + [] == data;
      if filter(rows[i]) { data := data + [rows[i]]; }
    }
    NoneMatching(rows, filter);
    assert data + [] == data;
  }

  /** The loop over the reversed sort fields. */
  method SortPasses(rows: seq<Row>, sortFields: seq<SortField>) returns (data: seq<Row>)
    ensures data == SortAll(rows, sortFields)
  {
    data := rows;
    var k := |sortFields|;
    while k > 0
      invariant 0 <= k <= |sortFields| && data == SortAll(rows, sortFields[k..])
    {
      k := k - 1;
      assert sortFields[k..][0] == sortFields[k] && sortFields[k..][1..] == sortFields[k + 1..];
      data := SortBy(data, sortFields[k]);
    }
  }
}
