/**
 * The read path of the dashboard, per question: flatten the stored answers
 * into tokens, optionally lower-case them, count each distinct token in
 * non-increasing order (pandas `value_counts`), attach percentage and label,
 * and drop the "Others" row.
 */
module Tally {
  import opened Wrappers
  import opened Text
  import opened Decimal
  import Survey

  // ---------------------------------------------------------------------
  // Tokens

  /** Every stored answer split on ", ", the pieces concatenated in order. */
  function AllTokens(column: seq<string>): (tokens: seq<string>)
    ensures |tokens| >= |column|
  {
    if column == [] then []
    else AllTokens(column[..|column| - 1]) + Split(column[|column| - 1])
  }

  /**
   * The loop that builds the flat token list: for each stored answer,
   * extend the list by the answer's pieces.
   */
  method CollectTokens(column: seq<string>) returns (tokens: seq<string>)
    ensures tokens == AllTokens(column)
  {
    tokens := [];
    for i := 0 to |column|
      invariant tokens == AllTokens(column[..i])
    {
      assert column[..i + 1][..i] == column[..i];
      tokens := tokens + Split(column[i]);
    }
    assert column[..|column|] == column;
  }

  /** Each empty stored answer contributes one empty token. */
  lemma {:induction false} EmptyAnswersGiveEmptyTokens(column: seq<string>)
    ensures multiset(AllTokens(column))[""] >= multiset(column)[""]
  {
    if column != [] {
      var init, last := column[..|column| - 1], column[|column| - 1];
      assert column == init + [last];
      EmptyAnswersGiveEmptyTokens(init);
      if last == "" {
        assert Split(last) == [""];
      }
    }
  }

  /** `.str.lower()` on every token. */
  function LowerAll(tokens: seq<string>): (r: seq<string>)
    ensures |r| == |tokens|
    ensures forall i :: 0 <= i < |tokens| ==> r[i] == Lower(tokens[i])
  {
    seq(|tokens|, i requires 0 <= i < |tokens| => Lower(tokens[i]))
  }

  /**
   * After lower-casing, the number of tokens equal to Lower(a) is at least
   * the number of tokens equal to `a` plus the number equal to `b`, for any
   * two different spellings `a` and `b` of the same word, and exactly that
   * when no other spelling of the word occurs.
   */
  lemma {:induction false} CaseVariantsShareRow(tokens: seq<string>, a: string, b: string)
    requires a != b && Lower(a) == Lower(b)
    ensures multiset(LowerAll(tokens))[Lower(a)] >= multiset(tokens)[a] + multiset(tokens)[b]
    ensures (forall t :: t in tokens && Lower(t) == Lower(a) ==> t == a || t == b) ==>
              multiset(LowerAll(tokens))[Lower(a)] == multiset(tokens)[a] + multiset(tokens)[b]
  {
    if tokens != [] {
      var init, last := tokens[..|tokens| - 1], tokens[|tokens| - 1];
      assert tokens == init + [last];
      assert LowerAll(tokens) == LowerAll(init) + [Lower(last)];
      assert forall t :: t in init ==> t in tokens;
      CaseVariantsShareRow(init, a, b);
    }
  }

  // ---------------------------------------------------------------------
  // Rows

  /** A percentage in tenths of a percent, and the label shown beside a bar. */
  datatype Share = Share(tenths: nat, text: string)

  /** One row of a tally: a category, how often it occurs, and its share once computed. */
  datatype Row = Row(category: string, count: nat, share: Option<Share>)

  function SumCounts(rows: seq<Row>): nat
  {
    if rows == [] then 0 else rows[0].count + SumCounts(rows[1..])
  }

  /** Some row has category `c`. */
  predicate HasCategory(rows: seq<Row>, c: string)
  {
    exists i :: 0 <= i < |rows| && rows[i].category == c
  }

  /** No category appears in two rows. */
  predicate Distinct(rows: seq<Row>)
  {
    forall i, j :: 0 <= i < j < |rows| ==> rows[i].category != rows[j].category
  }

  /** Counts never increase from one row to a later one. */
  predicate NonIncreasing(rows: seq<Row>)
  {
    forall i :: 0 < i < |rows| ==> rows[i - 1].count >= rows[i].count
  }

  /** Each row counts the occurrences of its category in `tokens`, and has no share yet. */
  predicate CountsOf(rows: seq<Row>, tokens: seq<string>)
  {
    forall i :: 0 <= i < |rows| ==>
      rows[i].count == multiset(tokens)[rows[i].category] && rows[i].count >= 1 && rows[i].share == None
  }

  /** Every token has a row. */
  predicate Covers(rows: seq<Row>, tokens: seq<string>)
  {
    forall k :: 0 <= k < |tokens| ==> HasCategory(rows, tokens[k])
  }

  /**
   * What pandas `value_counts` promises of its result for `tokens`: one row
   * per distinct token, each with its number of occurrences, in
   * non-increasing order of count. The order among equal counts is left open.
   */
  predicate IsTally(rows: seq<Row>, tokens: seq<string>)
  {
    Distinct(rows) && NonIncreasing(rows) && CountsOf(rows, tokens) && Covers(rows, tokens)
  }

  /** Count one more occurrence of `t`: bump the first row for `t`, or add a row at the end. */
  function Bump(rows: seq<Row>, t: string): (r: seq<Row>)
    ensures |r| == if HasCategory(rows, t) then |rows| else |rows| + 1
    ensures SumCounts(r) == SumCounts(rows) + 1
  {
    if rows == [] then [Row(t, 1, None)]
    else if rows[0].category == t then
      var r := [rows[0].(count := rows[0].count + 1)] + rows[1..];
      assert r[1..] == rows[1..];
      r
    else
      var rest := Bump(rows[1..], t);
      var r := [rows[0]] + rest;
      assert r[1..] == rest;
      HasCategoryTail(rows, t);
      r
  }

  /** Looking for a category other than the first row's, the first row can be skipped. */
  lemma HasCategoryTail(rows: seq<Row>, c: string)
    requires rows != [] && rows[0].category != c
    ensures HasCategory(rows, c) <==> HasCategory(rows[1..], c)
  {
    if HasCategory(rows, c) {
      var i :| 0 <= i < |rows| && rows[i].category == c;
      assert rows[1..][i - 1].category == c;
    }
    if HasCategory(rows[1..], c) {
      var i :| 0 <= i < |rows[1..]| && rows[1..][i].category == c;
      assert rows[i + 1].category == c;
    }
  }

  /** Bump changes exactly the count of `t`, or appends a row for a new `t`. */
  lemma {:induction false} BumpRows(rows: seq<Row>, t: string)
    requires Distinct(rows)
    ensures forall i :: 0 <= i < |rows| && rows[i].category != t ==> Bump(rows, t)[i] == rows[i]
    ensures forall i :: 0 <= i < |rows| && rows[i].category == t ==>
              Bump(rows, t)[i] == rows[i].(count := rows[i].count + 1)
    ensures !HasCategory(rows, t) ==> Bump(rows, t)[|rows|] == Row(t, 1, None)
  {
    if rows != [] && rows[0].category != t {
      BumpRows(rows[1..], t);
      HasCategoryTail(rows, t);
      assert Bump(rows, t)[1..] == Bump(rows[1..], t);
    }
  }

  /** Bump keeps the categories distinct. */
  lemma BumpDistinct(rows: seq<Row>, t: string)
    requires Distinct(rows)
    ensures Distinct(Bump(rows, t))
  {
    BumpRows(rows, t);
    var r := Bump(rows, t);
    forall i, j | 0 <= i < j < |r| ensures r[i].category != r[j].category {
      if j == |rows| {
        assert !HasCategory(rows, t);
        assert rows[i].category != t;
      }
    }
  }

  /** The rows of a tally in order of first occurrence, before sorting. */
  function CountInOrder(tokens: seq<string>): (r: seq<Row>)
    ensures SumCounts(r) == |tokens|
  {
    if tokens == [] then []
    else Bump(CountInOrder(tokens[..|tokens| - 1]), tokens[|tokens| - 1])
  }

  /** The rows in first-occurrence order count every distinct token once. */
  lemma {:induction false} CountInOrderCounts(tokens: seq<string>)
    ensures var r := CountInOrder(tokens);
      Distinct(r) && CountsOf(r, tokens) && Covers(r, tokens)
      && forall i :: 0 <= i < |r| ==> r[i].category in tokens
  {
    if tokens != [] {
      var init, t := tokens[..|tokens| - 1], tokens[|tokens| - 1];
      assert tokens == init + [t];
      CountInOrderCounts(init);
      var prev := CountInOrder(init);
      BumpRows(prev, t);
      BumpDistinct(prev, t);
      CountStep(init, t, prev, Bump(prev, t));
      CoverStep(init, t, prev, Bump(prev, t));
    }
  }

  /**
   * One counting step: `r` is `prev` with the row of `t` bumped, or with a
   * new row for `t` at the end. If `prev` counted `init`, `r` counts `init + [t]`.
   */
  lemma CountStep(init: seq<string>, t: string, prev: seq<Row>, r: seq<Row>)
    requires CountsOf(prev, init)
    requires forall i :: 0 <= i < |prev| ==> prev[i].category in init
    requires Covers(prev, init)
    requires |r| == if HasCategory(prev, t) then |prev| else |prev| + 1
    requires forall i :: 0 <= i < |prev| && prev[i].category != t ==> r[i] == prev[i]
    requires forall i :: 0 <= i < |prev| && prev[i].category == t ==>
               r[i] == prev[i].(count := prev[i].count + 1)
    requires !HasCategory(prev, t) ==> r[|prev|] == Row(t, 1, None)
    ensures CountsOf(r, init + [t])
    ensures forall i :: 0 <= i < |r| ==> r[i].category in init + [t]
  {
    var tokens := init + [t];
    assert multiset(tokens) == multiset(init) + multiset{t};
    assert !HasCategory(prev, t) ==> t !in init;
    forall i | 0 <= i < |r|
      ensures r[i].count == multiset(tokens)[r[i].category] && r[i].count >= 1 && r[i].share == None
      ensures r[i].category in tokens
    {
      if i < |prev| {
        assert prev[i].category in init;
      }
    }
  }

  /** The same step keeps every token covered. */
  lemma CoverStep(init: seq<string>, t: string, prev: seq<Row>, r: seq<Row>)
    requires Covers(prev, init)
    requires |r| == if HasCategory(prev, t) then |prev| else |prev| + 1
    requires forall i :: 0 <= i < |prev| ==> r[i].category == prev[i].category
    requires !HasCategory(prev, t) ==> r[|prev|].category == t
    ensures Covers(r, init + [t])
  {
    var tokens := init + [t];
    forall k | 0 <= k < |tokens| ensures HasCategory(r, tokens[k]) {
      if k < |init| {
        assert tokens[k] == init[k];
        assert HasCategory(prev, init[k]);
        var i :| 0 <= i < |prev| && prev[i].category == init[k];
        assert r[i].category == init[k];
      } else if HasCategory(prev, t) {
        var i :| 0 <= i < |prev| && prev[i].category == t;
        assert r[i].category == t;
      } else {
        assert r[|prev|].category == t;
      }
    }
  }

  /** Insert `x` after every row whose count is at least its own. */
  function Insert(x: Row, s: seq<Row>): (r: seq<Row>)
    ensures multiset(r) == multiset(s) + multiset{x}
    ensures |r| == |s| + 1
    ensures r[0] == x || (|s| > 0 && r[0] == s[0])
    ensures SumCounts(r) == SumCounts(s) + x.count
  {
    if s == [] || s[0].count < x.count then
      var r := [x] + s;
      assert r[1..] == s;
      r
    else
      var rest := Insert(x, s[1..]);
      var r := [s[0]] + rest;
      assert s == [s[0]] + s[1..];
      assert r[1..] == rest;
      r
  }

  /** Inserting into rows ordered by count keeps them ordered. */
  lemma {:induction false} InsertKeepsOrder(x: Row, s: seq<Row>)
    requires NonIncreasing(s)
    ensures NonIncreasing(Insert(x, s))
  {
    if s != [] && s[0].count >= x.count {
      InsertKeepsOrder(x, s[1..]);
      assert Insert(x, s)[1..] == Insert(x, s[1..]);
    }
  }

  /** Inserting a row with a new category keeps the categories distinct. */
  lemma {:induction false} InsertKeepsDistinct(x: Row, s: seq<Row>)
    requires Distinct(s)
    requires forall i :: 0 <= i < |s| ==> s[i].category != x.category
    ensures Distinct(Insert(x, s))
  {
    if s != [] && s[0].count >= x.count {
      InsertKeepsDistinct(x, s[1..]);
      var rest := Insert(x, s[1..]);
      var r := Insert(x, s);
      assert r == [s[0]] + rest;
      forall j | 0 <= j < |rest| ensures rest[j].category != s[0].category {
        assert rest[j] in multiset(rest);
        NotFirstCategory(x, s, rest[j]);
      }
    }
  }

  /** A row taken from the tail of distinct rows, or the new row, has a category other than the head's. */
  lemma NotFirstCategory(x: Row, s: seq<Row>, y: Row)
    requires s != [] && Distinct(s) && s[0].category != x.category
    requires y in multiset(s[1..]) + multiset{x}
    ensures y.category != s[0].category
  {
    if y != x {
      assert y in s[1..];
      var k :| 0 <= k < |s[1..]| && s[1..][k] == y;
      assert s[k + 1] == y;
    }
  }

  /** Order rows by non-increasing count; rows with equal counts keep their order. */
  function SortByCount(rows: seq<Row>): (r: seq<Row>)
    ensures multiset(r) == multiset(rows)
    ensures |r| == |rows|
    ensures SumCounts(r) == SumCounts(rows)
  {
    if rows == [] then []
    else
      var init, last := rows[..|rows| - 1], rows[|rows| - 1];
      assert rows == init + [last];
      SumCountsAppend(init, last);
      Insert(last, SortByCount(init))
  }

  /** Sorting orders the rows by count and keeps distinct categories distinct. */
  lemma {:induction false} SortByCountOrders(rows: seq<Row>)
    ensures NonIncreasing(SortByCount(rows))
    ensures Distinct(rows) ==> Distinct(SortByCount(rows))
  {
    if rows != [] {
      var init, last := rows[..|rows| - 1], rows[|rows| - 1];
      SortByCountOrders(init);
      var sorted := SortByCount(init);
      InsertKeepsOrder(last, sorted);
      if Distinct(rows) {
        assert Distinct(init);
        forall i | 0 <= i < |sorted| ensures sorted[i].category != last.category {
          assert sorted[i] in multiset(init);
          var k :| 0 <= k < |init| && init[k] == sorted[i];
          assert rows[k] == init[k];
        }
        InsertKeepsDistinct(last, sorted);
      }
    }
  }

  lemma {:induction false} SumCountsAppend(rows: seq<Row>, x: Row)
    ensures SumCounts(rows + [x]) == SumCounts(rows) + x.count
  {
    if rows != [] {
      assert (rows + [x])[1..] == rows[1..] + [x];
      SumCountsAppend(rows[1..], x);
    }
  }

  /** Rearranging rows keeps what each row counts, and keeps every token covered. */
  lemma PermutedCounts(unsorted: seq<Row>, rows: seq<Row>, tokens: seq<string>)
    requires CountsOf(unsorted, tokens) && Covers(unsorted, tokens)
    requires multiset(rows) == multiset(unsorted)
    ensures CountsOf(rows, tokens) && Covers(rows, tokens)
  {
    forall i | 0 <= i < |rows|
      ensures rows[i].count == multiset(tokens)[rows[i].category] && rows[i].count >= 1 && rows[i].share == None
    {
      assert rows[i] in multiset(unsorted);
      var j :| 0 <= j < |unsorted| && unsorted[j] == rows[i];
    }
    forall k | 0 <= k < |tokens| ensures HasCategory(rows, tokens[k]) {
      assert HasCategory(unsorted, tokens[k]);
      var j :| 0 <= j < |unsorted| && unsorted[j].category == tokens[k];
      assert unsorted[j] in multiset(rows);
      var i :| 0 <= i < |rows| && rows[i] == unsorted[j];
    }
  }

  /**
   * `value_counts` of a token list: the counts of its distinct tokens, in
   * non-increasing order, ties in order of first occurrence. The counts
   * add up to the number of tokens.
   */
  function ValueCounts(tokens: seq<string>): (rows: seq<Row>)
    ensures IsTally(rows, tokens)
    ensures SumCounts(rows) == |tokens|
  {
    var unsorted := CountInOrder(tokens);
    var rows := SortByCount(unsorted);
    CountInOrderCounts(tokens);
    SortByCountOrders(unsorted);
    PermutedCounts(unsorted, rows, tokens);
    rows
  }

  /**
   * Two tallies of the same tokens hold the same rows; they can differ
   * only in the order of rows with equal counts.
   */
  lemma TalliesAgreeUpToTies(r1: seq<Row>, r2: seq<Row>, tokens: seq<string>)
    requires IsTally(r1, tokens) && IsTally(r2, tokens)
    ensures forall x :: x in r1 <==> x in r2
  {
    forall x | x in r1 ensures x in r2 {
      var i :| 0 <= i < |r1| && r1[i] == x;
      TallyRowFor(r2, tokens, x.category);
    }
    forall x | x in r2 ensures x in r1 {
      var i :| 0 <= i < |r2| && r2[i] == x;
      TallyRowFor(r1, tokens, x.category);
    }
  }

  /** In a tally, the row of a token that occurs is determined by the tokens. */
  lemma TallyRowFor(rows: seq<Row>, tokens: seq<string>, t: string)
    requires IsTally(rows, tokens)
    requires multiset(tokens)[t] > 0
    ensures Row(t, multiset(tokens)[t], None) in rows
  {
    var k :| 0 <= k < |tokens| && tokens[k] == t;
    var i :| 0 <= i < |rows| && rows[i].category == t;
    assert rows[i] == Row(t, multiset(tokens)[t], None);
  }
  // ---------------------------------------------------------------------
  // Percentages and labels

  function Dist(a: int, b: int): nat
  {
    if a >= b then a - b else b - a
  }

  /**
   * `round(count / total * 100, 1)` in tenths of a percent: the nearest
   * whole number of tenths to `1000 * count / total`, ties to the even one.
   * It never exceeds 100.0% for a part of the total.
   */
  function RoundTenths(count: nat, total: nat): (t: nat)
    requires total > 0
    ensures 2 * Dist(t * total, 1000 * count) <= total
    ensures 2 * Dist(t * total, 1000 * count) == total ==> t % 2 == 0
    ensures count <= total ==> t <= 1000
  {
    var q := 1000 * count / total;
    var m := 1000 * count % total;
    var t := if 2 * m < total then q
      else if 2 * m > total then q + 1
      else if q % 2 == 0 then q
      else q + 1;
    RoundingCases(q, m, total, 1000 * count, t);
    if count <= total then QuotientBound(q, m, total, count); t else t
  }

  lemma RoundingCases(q: nat, m: nat, total: nat, n: nat, t: nat)
    requires total > 0 && m < total && n == q * total + m
    requires t == if 2 * m < total then q else if 2 * m > total then q + 1 else if q % 2 == 0 then q else q + 1
    ensures 2 * Dist(t * total, n) <= total
    ensures 2 * Dist(t * total, n) == total ==> t % 2 == 0
  {
    if t != q {
      Distrib(q, 1, total);
    }
  }

  lemma QuotientBound(q: nat, m: nat, total: nat, count: nat)
    requires total > 0 && m < total && 1000 * count == q * total + m && count <= total
    ensures q <= 1000 && (q == 1000 ==> m == 0)
  {
    if q > 1000 {
      MulMono(1001, q, total);
    }
  }

  lemma Distrib(a: int, b: int, c: int)
    ensures (a + b) * c == a * c + b * c
  {
  }

  lemma MulMono(a: int, b: int, k: nat)
    requires a <= b
    ensures a * k <= b * k
  {
    Distrib(a, b - a, k);
  }

  lemma DistAdd(a: int, b: int, c: int, d: int)
    ensures Dist(a + b, c + d) <= Dist(a, c) + Dist(b, d)
  {
  }

  lemma DistScale(a: int, b: int, k: nat)
    ensures Dist(a * k, b * k) == Dist(a, b) * k
  {
    Distrib(a - b, b, k);
    Distrib(b - a, a, k);
  }

  lemma CancelFactor(x: int, y: int, k: nat)
    requires k > 0 && x * k <= y * k
    ensures x <= y
  {
    if x > y {
      MulMono(y + 1, x, k);
      Distrib(y, 1, k);
    }
  }

  /**
   * The text beside a bar: `str(count) + " (" + str(percentage) + "%)"`,
   * where `str` of a one-decimal float prints its whole part, a point and
   * its tenths digit.
   */
  function Label(count: nat, tenths: nat): (r: string)
    ensures |r| >= 8 && r[|r| - 4] == '.' && r[|r| - 3] == DigitChar(tenths % 10) && r[|r| - 2..] == "%)"
  {
    Show(count) + (" (" + (Show(tenths / 10) + ("." + (Show(tenths % 10) + "%)"))))
  }

  /** A label determines the count and the percentage it was made from. */
  lemma LabelInjective(c1: nat, t1: nat, c2: nat, t2: nat)
    requires Label(c1, t1) == Label(c2, t2)
    ensures c1 == c2 && t1 == t2
  {
    var z1, z2 := "." + (Show(t1 % 10) + "%)"), "." + (Show(t2 % 10) + "%)");
    var y1, y2 := Show(t1 / 10) + z1, Show(t2 / 10) + z2;
    var x1, x2 := " (" + y1, " (" + y2;
    DigitRunUnique(Show(c1), x1, Show(c2), x2);
    ShowInjective(c1, c2);
    assert y1 == x1[2..] && y2 == x2[2..];
    DigitRunUnique(Show(t1 / 10), z1, Show(t2 / 10), z2);
    ShowInjective(t1 / 10, t2 / 10);
    assert z1[1..] == Show(t1 % 10) + "%)" && z2[1..] == Show(t2 % 10) + "%)";
    DigitRunUnique(Show(t1 % 10), "%)", Show(t2 % 10), "%)");
    ShowInjective(t1 % 10, t2 % 10);
  }

  /** A row with its share of `total` and its label filled in. */
  function Shared(row: Row, total: nat): (r: Row)
    requires total > 0
    ensures r.category == row.category && r.count == row.count && r.share.Some?
    ensures 2 * Dist(r.share.value.tenths * total, 1000 * row.count) <= total
  {
    var t := RoundTenths(row.count, total);
    row.(share := Some(Share(t, Label(row.count, t))))
  }

  function Annotate(rows: seq<Row>, total: nat): (r: seq<Row>)
    requires rows == [] || total > 0
    ensures |r| == |rows|
    ensures forall i :: 0 <= i < |rows| ==> r[i] == Shared(rows[i], total)
  {
    seq(|rows|, i requires 0 <= i < |rows| => Shared(rows[i], total))
  }

  /**
   * The percentage and label columns: every row gets its share of the sum
   * of all counts, the rows that are dropped later included.
   */
  function WithShares(rows: seq<Row>): (r: seq<Row>)
    requires forall i :: 0 <= i < |rows| ==> rows[i].count >= 1
    ensures |r| == |rows|
    ensures forall i :: 0 <= i < |rows| ==> r[i] == Shared(rows[i], SumCounts(rows))
    ensures forall i :: 0 <= i < |rows| ==>
      && r[i].category == rows[i].category && r[i].count == rows[i].count && r[i].share.Some?
      && 2 * Dist(r[i].share.value.tenths * SumCounts(rows), 1000 * rows[i].count) <= SumCounts(rows)
  {
    assert rows != [] ==> SumCounts(rows) >= rows[0].count;
    Annotate(rows, SumCounts(rows))
  }

  /** The sum of the percentages of the rows that have one, in tenths. */
  function SumTenths(rows: seq<Row>): nat
  {
    if rows == [] then 0
    else (if rows[0].share.Some? then rows[0].share.value.tenths else 0) + SumTenths(rows[1..])
  }

  /** Each row's rounding error is at most half a tenth, so the errors add up to at most half a tenth per row. */
  lemma {:induction false} AnnotateError(rows: seq<Row>, total: nat)
    requires total > 0
    ensures 2 * Dist(SumTenths(Annotate(rows, total)) * total, 1000 * SumCounts(rows)) <= |rows| * total
  {
    if rows != [] {
      var r := Annotate(rows, total);
      AnnotateError(rows[1..], total);
      var t := RoundTenths(rows[0].count, total);
      var rest := SumTenths(Annotate(rows[1..], total));
      AnnotateSum(rows, total);
      assert SumCounts(rows) == rows[0].count + SumCounts(rows[1..]);
      ErrorStep(t, rest, total, rows[0].count, SumCounts(rows[1..]), |rows| - 1,
        SumTenths(r), SumCounts(rows), |rows|);
    } else {
      assert Annotate(rows, total) == [];
    }
  }

  lemma AnnotateSum(rows: seq<Row>, total: nat)
    requires rows != [] && total > 0
    ensures SumTenths(Annotate(rows, total)) == RoundTenths(rows[0].count, total) + SumTenths(Annotate(rows[1..], total))
  {
    var r := Annotate(rows, total);
    assert r[1..] == Annotate(rows[1..], total);
    assert r[0].share.value.tenths == RoundTenths(rows[0].count, total);
  }

  /** One more row adds at most half a tenth of error. */
  lemma ErrorStep(t: int, rest: int, total: nat, c: int, cs: int, n: nat, sum: int, csum: int, m: nat)
    requires 2 * Dist(t * total, 1000 * c) <= total
    requires 2 * Dist(rest * total, 1000 * cs) <= n * total
    requires sum == t + rest && csum == c + cs && m == n + 1
    ensures 2 * Dist(sum * total, 1000 * csum) <= m * total
  {
    Distrib(t, rest, total);
    Distrib(n, 1, total);
    DistAdd(t * total, rest * total, 1000 * c, 1000 * cs);
  }

  /**
   * Before any row is dropped, the percentages of a tally add up to 100.0
   * up to the rounding of each row: within half a tenth per row.
   */
  lemma SharesAddUpToHundred(rows: seq<Row>)
    requires rows != []
    requires forall i :: 0 <= i < |rows| ==> rows[i].count >= 1
    ensures 2 * Dist(SumTenths(WithShares(rows)), 1000) <= |rows|
  {
    var total := SumCounts(rows);
    assert total >= rows[0].count;
    AnnotateError(rows, total);
    var s := SumTenths(WithShares(rows));
    assert WithShares(rows) == Annotate(rows, total);
    var d := Dist(s, 1000);
    DistScale(s, 1000, total);
    assert 2 * (d * total) <= |rows| * total;
    Distrib(d, d, total);
    CancelFactor(2 * d, |rows|, total);
  }

  // ---------------------------------------------------------------------
  // Dropping the "Others" row

  /** `a` is `b` with some elements left out, the rest in the same order. */
  predicate IsSubsequence(a: seq<Row>, b: seq<Row>)
    decreases |b|
  {
    if a == [] then true
    else if b == [] then false
    else (a[0] == b[0] && IsSubsequence(a[1..], b[1..])) || IsSubsequence(a, b[1..])
  }

  /** The sum of the counts of the rows with category `c`. */
  function CategoryTotal(rows: seq<Row>, c: string): nat
  {
    if rows == [] then 0
    else (if rows[0].category == c then rows[0].count else 0) + CategoryTotal(rows[1..], c)
  }

  /**
   * The filter `df[df['response'] != 'Others']`: no row of the result is
   * "Others", every other row is kept unchanged and in order, and the
   * counts lost are exactly those of the "Others" rows.
   */
  function ExcludeOthers(rows: seq<Row>): (r: seq<Row>)
    ensures forall i :: 0 <= i < |r| ==> r[i].category != Survey.Others
    ensures forall x :: x in r <==> x in rows && x.category != Survey.Others
    ensures IsSubsequence(r, rows)
    ensures SumCounts(r) + CategoryTotal(rows, Survey.Others) == SumCounts(rows)
  {
    if rows == [] then []
    else
      var rest := ExcludeOthers(rows[1..]);
      assert forall x :: x in rows <==> x == rows[0] || x in rows[1..];
      if rows[0].category == Survey.Others then
        assert rest == [] || IsSubsequence(rest, rows);
        rest
      else
        var r := [rows[0]] + rest;
        assert r[1..] == rest;
        r
  }

  /** Non-increasing counts hold between any two rows, not just neighbours. */
  lemma {:induction false} NonIncreasingPairwise(rows: seq<Row>, i: nat, j: nat)
    requires NonIncreasing(rows)
    requires i <= j < |rows|
    ensures rows[i].count >= rows[j].count
    decreases j - i
  {
    if i < j {
      NonIncreasingPairwise(rows, i + 1, j);
    }
  }

  /** The first row of a non-increasing sequence has the largest count. */
  lemma {:induction false} HeadIsLargest(rows: seq<Row>)
    requires NonIncreasing(rows) && rows != []
    ensures forall x :: x in rows ==> rows[0].count >= x.count
  {
    forall x | x in rows
      ensures rows[0].count >= x.count
    {
      var k :| 0 <= k < |rows| && rows[k] == x;
      NonIncreasingPairwise(rows, 0, k);
    }
  }

  /** Dropping rows keeps the remaining counts non-increasing. */
  lemma {:induction false} ExcludeOthersKeepsOrder(rows: seq<Row>)
    requires NonIncreasing(rows)
    ensures NonIncreasing(ExcludeOthers(rows))
  {
    if rows != [] {
      var rest := ExcludeOthers(rows[1..]);
      assert NonIncreasing(rows[1..]) by {
        forall i | 0 < i < |rows[1..]|
          ensures rows[1..][i - 1].count >= rows[1..][i].count
        {
          assert rows[1..][i - 1] == rows[i] && rows[1..][i] == rows[i + 1];
        }
      }
      ExcludeOthersKeepsOrder(rows[1..]);
      if rows[0].category != Survey.Others && rest != [] {
        HeadIsLargest(rows);
        assert rest[0] in rows;
      }
    }
  }

  /** Dropping rows keeps the remaining categories distinct. */
  lemma {:induction false} ExcludeOthersKeepsDistinct(rows: seq<Row>)
    requires Distinct(rows)
    ensures Distinct(ExcludeOthers(rows))
  {
    if rows != [] {
      var rest := ExcludeOthers(rows[1..]);
      assert Distinct(rows[1..]) by {
        forall i, j | 0 <= i < j < |rows[1..]|
          ensures rows[1..][i].category != rows[1..][j].category
        {
          assert rows[1..][i] == rows[i + 1] && rows[1..][j] == rows[j + 1];
        }
      }
      ExcludeOthersKeepsDistinct(rows[1..]);
      if rows[0].category != Survey.Others {
        forall j | 0 <= j < |rest|
          ensures rest[j].category != rows[0].category
        {
          assert rest[j] in rows[1..];
          var k :| 0 <= k < |rows[1..]| && rows[1..][k] == rest[j];
          assert rows[k + 1] == rest[j];
        }
        assert ExcludeOthers(rows) == [rows[0]] + rest;
      }
    }
  }

  /**
   * In a tally the rows for one category add up to that category's number
   * of occurrences, so dropping "Others" removes exactly the "Others" tokens.
   */
  lemma TallyCategoryTotal(rows: seq<Row>, tokens: seq<string>, c: string)
    requires IsTally(rows, tokens)
    ensures CategoryTotal(rows, c) == multiset(tokens)[c]
  {
    DistinctCategoryTotal(rows, tokens, c);
    if !HasCategory(rows, c) {
      assert c !in tokens;
    }
  }

  lemma {:induction false} DistinctCategoryTotal(rows: seq<Row>, tokens: seq<string>, c: string)
    requires Distinct(rows) && CountsOf(rows, tokens)
    ensures CategoryTotal(rows, c) == if HasCategory(rows, c) then multiset(tokens)[c] else 0
  {
    if rows != [] {
      assert Distinct(rows[1..]);
      assert CountsOf(rows[1..], tokens) by {
        forall i | 0 <= i < |rows[1..]|
          ensures rows[1..][i].count == multiset(tokens)[rows[1..][i].category]
          ensures rows[1..][i].count >= 1 && rows[1..][i].share == None
        {
          assert rows[1..][i] == rows[i + 1];
        }
      }
      DistinctCategoryTotal(rows[1..], tokens, c);
      if rows[0].category == c {
        assert !HasCategory(rows[1..], c);
        assert HasCategory(rows, c);
      } else {
        HasCategoryTail(rows, c);
      }
    }
  }
}
