/**
 * The admin dashboard: for each of the eleven questions the stored answers
 * are turned into tokens, tallied, optionally given a percentage and a
 * label, optionally cleared of the "Others" row, and drawn as one chart.
 * What differs between questions is captured by a static policy table.
 */
module Dashboard {
  import opened Wrappers
  import opened Text
  import opened Survey
  import opened Tally

  datatype Chart = Pie | HorizontalBar | VerticalBar

  /**
   * How one question is analysed: whether answers are split on ", ",
   * whether tokens are lower-cased, whether rows get a percentage and a
   * label, whether the "Others" row is dropped, and the chart drawn.
   */
  datatype Policy = Policy(split: bool, fold: bool, shares: bool, dropOthers: bool, chart: Chart)

  /**
   * The per-question table. Its consistency: only split questions drop
   * "Others" or fold case; folded questions keep every row; bars, and only
   * bars, carry labels; the vertical bars are exactly the folded questions;
   * and every question whose answer may carry the "Others" free text is
   * split and cleared of the "Others" row when read back.
   */
  function PolicyOf(q: QuestionId): (p: Policy)
    ensures p.fold ==> p.split && !p.dropOthers
    ensures p.dropOthers ==> p.split
    ensures p.shares <==> p.chart != Pie
    ensures p.chart == VerticalBar <==> p.fold
    ensures MergesOthersOnWrite(q) ==> p.split && p.dropOthers
  {
    if q == 1 || q == 3 then Policy(false, false, false, false, Pie)
    else if q == 2 || q == 5 || q == 10 then Policy(true, false, true, true, HorizontalBar)
    else if q == 8 || q == 9 then Policy(true, true, true, false, VerticalBar)
    else Policy(true, false, false, true, Pie)
  }

  /**
   * The values that are counted for question `q`: the answers themselves,
   * or their pieces after splitting on ", ", lower-cased where the policy
   * says so. There are never fewer of them than answers.
   */
  function Tokens(q: QuestionId, column: seq<string>): (tokens: seq<string>)
    ensures |tokens| >= |column|
  {
    var p := PolicyOf(q);
    var pieces := if p.split then AllTokens(column) else column;
    if p.fold then LowerAll(pieces) else pieces
  }

  /** The tally with shares over the full total, where the policy asks for them. */
  function SharedRows(p: Policy, tokens: seq<string>): seq<Row>
  {
    var counted := ValueCounts(tokens);
    assert CountsOf(counted, tokens);
    if p.shares then WithShares(counted) else counted
  }

  /** Then the "Others" filter, where the policy asks for it. */
  function Rows(p: Policy, tokens: seq<string>): seq<Row>
  {
    var shared := SharedRows(p, tokens);
    if p.dropOthers then ExcludeOthers(shared) else shared
  }

  /** What one chart shows: its kind, the response count in its subtitle, and its rows. */
  datatype QuestionResult = QuestionResult(question: QuestionId, chart: Chart, responses: nat, rows: seq<Row>)

  /**
   * One question's block of the dashboard. The response count is the
   * number of stored answers, never more than the number of tokens counted.
   */
  function Analyse(q: QuestionId, column: seq<string>): (r: QuestionResult)
    ensures r.question == q && r.chart == PolicyOf(q).chart
    ensures r.responses == |column| <= |Tokens(q, column)|
  {
    var p := PolicyOf(q);
    QuestionResult(q, p.chart, |column|, Rows(p, Tokens(q, column)))
  }

  /** The block as the source runs it: a loop gathers the tokens, the rest is computed from them. */
  method AnalyseColumn(q: QuestionId, column: seq<string>) returns (r: QuestionResult)
    ensures r == Analyse(q, column)
  {
    var p := PolicyOf(q);
    var tokens := column;
    if p.split {
      tokens := CollectTokens(column);
    }
    if p.fold {
      tokens := LowerAll(tokens);
    }
    r := QuestionResult(q, p.chart, |column|, Rows(p, tokens));
  }

  // ---------------------------------------------------------------------
  // What the rows of a chart say

  /** Distinct categories in non-increasing count order, each counted exactly. */
  predicate Summarises(rows: seq<Row>, tokens: seq<string>)
  {
    && Distinct(rows)
    && NonIncreasing(rows)
    && forall i :: 0 <= i < |rows| ==> 1 <= rows[i].count == multiset(tokens)[rows[i].category]
  }

  /** The row carries its share of `total` tokens, rounded to a tenth, and the matching label. */
  predicate SharedOver(row: Row, total: nat)
  {
    total > 0 && row.share == Some(Share(RoundTenths(row.count, total), Label(row.count, RoundTenths(row.count, total))))
  }

  /** Two row lists agree on everything but the shares. */
  predicate SameCounts(a: seq<Row>, b: seq<Row>)
  {
    |a| == |b| && forall i :: 0 <= i < |a| ==> a[i].category == b[i].category && a[i].count == b[i].count
  }

  lemma {:induction false} SameCountsTotals(a: seq<Row>, b: seq<Row>, c: string)
    requires SameCounts(a, b)
    ensures SumCounts(a) == SumCounts(b) && CategoryTotal(a, c) == CategoryTotal(b, c)
  {
    if a != [] {
      assert SameCounts(a[1..], b[1..]);
      SameCountsTotals(a[1..], b[1..], c);
    }
  }

  /** Adding shares changes neither the order nor the counts, and every share is over the full total. */
  lemma SharesKeepSummary(rows: seq<Row>, tokens: seq<string>)
    requires Summarises(rows, tokens) && SumCounts(rows) == |tokens|
    ensures SameCounts(WithShares(rows), rows)
    ensures Summarises(WithShares(rows), tokens)
    ensures forall i :: 0 <= i < |rows| ==> SharedOver(WithShares(rows)[i], |tokens|)
  {
    var r := WithShares(rows);
    assert SameCounts(r, rows);
    SameCountsKeepSummary(r, rows, tokens);
  }

  /** The summary looks only at categories and counts. */
  lemma SameCountsKeepSummary(a: seq<Row>, b: seq<Row>, tokens: seq<string>)
    requires SameCounts(a, b) && Summarises(b, tokens)
    ensures Summarises(a, tokens)
  {
    assert Distinct(a);
    assert NonIncreasing(a);
  }

  /** Dropping "Others" keeps the summary of what remains. */
  lemma ExcludeKeepsSummary(rows: seq<Row>, tokens: seq<string>)
    requires Summarises(rows, tokens)
    ensures Summarises(ExcludeOthers(rows), tokens)
  {
    ExcludeOthersKeepsOrder(rows);
    ExcludeOthersKeepsDistinct(rows);
  }

  /** A row that survives the filter is still found by its category. */
  lemma ExcludeKeepsCategory(rows: seq<Row>, c: string)
    requires HasCategory(rows, c) && c != Survey.Others
    ensures HasCategory(ExcludeOthers(rows), c)
  {
    var i :| 0 <= i < |rows| && rows[i].category == c;
    assert rows[i] in ExcludeOthers(rows);
  }

  /** Before the filter: the tally, with shares where the policy asks for them. */
  lemma SharedRowsSummarise(p: Policy, tokens: seq<string>)
    ensures var shared := SharedRows(p, tokens);
      && Summarises(shared, tokens)
      && (forall i :: 0 <= i < |shared| ==> if p.shares then SharedOver(shared[i], |tokens|) else shared[i].share == None)
      && (forall t :: t in tokens ==> HasCategory(shared, t))
      && SumCounts(shared) == |tokens|
      && CategoryTotal(shared, Survey.Others) == multiset(tokens)[Survey.Others]
  {
    var counted := ValueCounts(tokens);
    assert Summarises(counted, tokens);
    var shared := SharedRows(p, tokens);
    if p.shares {
      SharesKeepSummary(counted, tokens);
    } else {
      assert forall i :: 0 <= i < |counted| ==> counted[i].share == None;
    }
    assert SameCounts(shared, counted);
    SameCountsTotals(shared, counted, Survey.Others);
    TallyCategoryTotal(counted, tokens, Survey.Others);
    forall t | t in tokens
      ensures HasCategory(shared, t)
    {
      assert HasCategory(counted, t);
    }
  }

  /** After the filter, where the policy asks for it. */
  lemma RowsSummarise(p: Policy, tokens: seq<string>)
    ensures var rows := Rows(p, tokens);
      && Summarises(rows, tokens)
      && (p.dropOthers ==> forall i :: 0 <= i < |rows| ==> rows[i].category != Survey.Others)
      && (forall i :: 0 <= i < |rows| ==> if p.shares then SharedOver(rows[i], |tokens|) else rows[i].share == None)
      && (forall t :: t in tokens && !(p.dropOthers && t == Survey.Others) ==> HasCategory(rows, t))
      && SumCounts(rows) == |tokens| - (if p.dropOthers then multiset(tokens)[Survey.Others] else 0)
  {
    var shared := SharedRows(p, tokens);
    SharedRowsSummarise(p, tokens);
    if p.dropOthers {
      var rows := ExcludeOthers(shared);
      ExcludeKeepsSummary(shared, tokens);
      forall t | t in tokens && t != Survey.Others
        ensures HasCategory(rows, t)
      {
        ExcludeKeepsCategory(shared, t);
      }
    }
  }

  /**
   * The rows of one chart: distinct categories in non-increasing order,
   * each with its exact number of occurrences among the tokens; no
   * "Others" row where the policy drops it; a share of the total over all
   * tokens, "Others" included, exactly where the policy asks for one;
   * every token that is not dropped has its row; and the counts shown add
   * up to the tokens counted, less the "Others" tokens when those are
   * dropped.
   */
  lemma AnalyseRows(q: QuestionId, column: seq<string>)
    ensures var p := PolicyOf(q);
      var tokens := Tokens(q, column);
      var rows := Analyse(q, column).rows;
      && Summarises(rows, tokens)
      && (p.dropOthers ==> forall i :: 0 <= i < |rows| ==> rows[i].category != Survey.Others)
      && (forall i :: 0 <= i < |rows| ==> if p.shares then SharedOver(rows[i], |tokens|) else rows[i].share == None)
      && (forall t :: t in tokens && !(p.dropOthers && t == Survey.Others) ==> HasCategory(rows, t))
      && SumCounts(rows) == |tokens| - (if p.dropOthers then multiset(tokens)[Survey.Others] else 0)
  {
    RowsSummarise(PolicyOf(q), Tokens(q, column));
  }

  /**
   * For the unsplit questions every answer is one token and nothing is
   * dropped, so the counts in the chart add up to the response count.
   */
  lemma UnsplitCountsAddUp(q: QuestionId, column: seq<string>)
    requires !PolicyOf(q).split
    ensures SumCounts(Analyse(q, column).rows) == Analyse(q, column).responses
  {
    AnalyseRows(q, column);
  }

  /**
   * On the lower-cased questions two spellings of one answer that differ
   * only in letter case land in one row, counting both; when no third
   * spelling occurs, the row counts exactly those two.
   */
  lemma FoldedSpellingsShareRow(q: QuestionId, column: seq<string>, a: string, b: string)
    requires PolicyOf(q).fold
    requires a != b && Lower(a) == Lower(b) && a in AllTokens(column)
    ensures var rows := Analyse(q, column).rows;
      exists i :: 0 <= i < |rows| && rows[i].category == Lower(a)
        && rows[i].count >= multiset(AllTokens(column))[a] + multiset(AllTokens(column))[b]
    ensures var rows := Analyse(q, column).rows;
      (forall t :: t in AllTokens(column) && Lower(t) == Lower(a) ==> t == a || t == b) ==>
      forall i :: 0 <= i < |rows| && rows[i].category == Lower(a) ==>
        rows[i].count == multiset(AllTokens(column))[a] + multiset(AllTokens(column))[b]
  {
    var tokens := Tokens(q, column);
    assert tokens == LowerAll(AllTokens(column));
    CaseVariantsShareRow(AllTokens(column), a, b);
    assert Lower(a) in tokens;
    AnalyseRows(q, column);
  }

  // ---------------------------------------------------------------------
  // The whole page

  datatype DashboardError = MissingColumn(name: string)

  /** All eleven charts, built from the eleven answer columns. */
  function Charts(records: seq<AnswerRecord>): (rs: seq<QuestionResult>)
    ensures |rs| == 11
    ensures forall i :: 0 <= i < 11 ==> rs[i].question == i + 1 && rs[i].responses == |records|
  {
    seq(11, i requires 0 <= i < 11 => Analyse(i + 1, Column(records, i + 1)))
  }

  /**
   * The page as written: the answers become a table whose columns are the
   * record's keys, so with no stored answer there is no `question1` column
   * and the page fails; otherwise it shows all eleven charts.
   */
  function AdminDashboard(records: seq<AnswerRecord>): (r: Result<seq<QuestionResult>, DashboardError>)
    ensures r.Err? <==> records == []
    ensures r.Err? ==> r.error == MissingColumn("question1")
    ensures r.Ok? ==> r.value == Charts(records)
  {
    if records == [] then Err(MissingColumn("question1")) else Ok(Charts(records))
  }

  /** With no stored answer, every chart has zero responses and no rows. */
  lemma ChartsOfNoRecords()
    ensures forall i :: 0 <= i < 11 ==> Charts([])[i].responses == 0 && Charts([])[i].rows == []
  {
    forall i | 0 <= i < 11
      ensures Charts([])[i].rows == []
    {
      var q: QuestionId := i + 1;
      AnalyseRows(q, []);
      assert AllTokens([]) == [];
    }
  }
}
