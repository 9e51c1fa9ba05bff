/** The evaluation diagnostic: it runs the same judged queries through a
    baseline retrieval and a cross-encoder retrieval, turns each retrieved id
    list into a relevance vector, compares one query's id lists directly, and
    dumps the first few vectors when the aggregate scores disagree.  The two
    retrievals and the metric aggregator are parameters. */
module EvaluationDiagnostic {
  import opened Sequences

  /** A query's judgments: judged document ids and their grades, as two parallel lists. */
  datatype Judgments<Id> = Judgments(documentIds: seq<Id>, relevances: seq<int>)

  /** The test set, one (query, judgments) pair per query in the loader's order. */
  type TestSet<Id> = seq<(string, Judgments<Id>)>

  function Min(a: int, b: int): int {
    if a <= b then a else b
  }

  // ---------------------------------------------------------------------------
  // The doc -> grade map
  // ---------------------------------------------------------------------------

  /** The map built from the first `n` (id, grade) pairs, later pairs overwriting earlier ones. */
  function ZipPrefix<Id(==)>(ids: seq<Id>, rels: seq<int>, n: nat): map<Id, int>
    requires n <= |ids| && n <= |rels|
  {
    if n == 0 then map[] else ZipPrefix(ids, rels, n - 1)[ids[n - 1] := rels[n - 1]]
  }

  /** `{doc_id: rel for doc_id, rel in zip(ids, rels)}`. */
  function GradeMap<Id(==)>(data: Judgments<Id>): map<Id, int> {
    ZipPrefix(data.documentIds, data.relevances, Min(|data.documentIds|, |data.relevances|))
  }

  /** Position `j` holds the last occurrence of its id among the first `n`. */
  predicate LastAmong<Id(==)>(ids: seq<Id>, j: nat, n: nat)
    requires j < n <= |ids|
  {
    forall j' :: j < j' < n ==> ids[j'] != ids[j]
  }

  /** The keys are the first `n` ids, and each id is mapped to the grade of its
      last occurrence among them. */
  lemma {:induction false} ZipPrefixLastWins<Id>(ids: seq<Id>, rels: seq<int>, n: nat)
    requires n <= |ids| && n <= |rels|
    ensures forall d :: d in ZipPrefix(ids, rels, n) <==> d in ids[..n]
    ensures forall j :: 0 <= j < n && LastAmong(ids, j, n) ==> ZipPrefix(ids, rels, n)[ids[j]] == rels[j]
  {
    if n > 0 {
      ZipPrefixLastWins(ids, rels, n - 1);
      assert ids[..n] == ids[..n - 1] + [ids[n - 1]];
      forall j | 0 <= j < n && LastAmong(ids, j, n)
        ensures ZipPrefix(ids, rels, n)[ids[j]] == rels[j]
      {
        if j < n - 1 {
          assert ids[n - 1] != ids[j];
          assert LastAmong(ids, j, n - 1);
        }
      }
    }
  }

  /** Zipping drops the pairs beyond the shorter list, and a duplicated id keeps its last grade. */
  lemma GradeMapFromZip<Id>(data: Judgments<Id>)
    ensures var n := Min(|data.documentIds|, |data.relevances|);
      && (forall d :: d in GradeMap(data) <==> d in data.documentIds[..n])
      && (forall j :: 0 <= j < n && LastAmong(data.documentIds, j, n) ==> GradeMap(data)[data.documentIds[j]] == data.relevances[j])
  {
    ZipPrefixLastWins(data.documentIds, data.relevances, Min(|data.documentIds|, |data.relevances|));
  }

  // ---------------------------------------------------------------------------
  // Relevance vectors and relevant counts
  // ---------------------------------------------------------------------------

  /** `[grades.get(doc_id, 0) for doc_id in retrieved]`. */
  function RelevanceVector<Id(==)>(grades: map<Id, int>, retrieved: seq<Id>): (r: seq<int>)
    ensures |r| == |retrieved|
  {
    seq(|retrieved|, j requires 0 <= j < |retrieved| =>
      if retrieved[j] in grades then grades[retrieved[j]] else 0)
  }

  /** The relevance vector of one query's retrieved ids. */
  function QueryRelevances<Id(==)>(data: Judgments<Id>, retrieved: seq<Id>): (r: seq<int>)
    ensures |r| == |retrieved|
  {
    RelevanceVector(GradeMap(data), retrieved)
  }

  /** Entry `j` of a query's relevance vector is the grade of the retrieved id's
      last judgment, or 0 when the id is not judged; the lookup never fails. */
  lemma RelevanceIsJudgedGrade<Id>(data: Judgments<Id>, retrieved: seq<Id>, j: nat)
    requires j < |retrieved|
    ensures var n := Min(|data.documentIds|, |data.relevances|);
      && |QueryRelevances(data, retrieved)| == |retrieved|
      && (retrieved[j] !in data.documentIds[..n] ==> QueryRelevances(data, retrieved)[j] == 0)
      && (forall i :: 0 <= i < n && data.documentIds[i] == retrieved[j] && LastAmong(data.documentIds, i, n) ==>
            QueryRelevances(data, retrieved)[j] == data.relevances[i])
  {
    GradeMapFromZip(data);
  }

  predicate IsPositive(rel: int) {
    rel > 0
  }

  /** `sum(1 for rel in relevances if rel > 0)`. */
  function TotalRelevant(relevances: seq<int>): (r: nat)
    ensures r <= |relevances|
  {
    CountIf(relevances, IsPositive)
  }

  /** The number of relevant documents is the number of strictly positive grades. */
  lemma TotalRelevantCountsPositive(relevances: seq<int>)
    ensures TotalRelevant(relevances) == |PositionsWhere(relevances, IsPositive)|
    ensures TotalRelevant(relevances) <= |relevances|
  {
    CountIfIsCardinality(relevances, IsPositive);
  }

  // ---------------------------------------------------------------------------
  // The per-query accumulation
  // ---------------------------------------------------------------------------

  /** One method's relevance vectors, one per query in test-set order. */
  function RelevanceLists<Id(==)>(testSet: TestSet<Id>, search: string -> seq<Id>): (r: seq<seq<int>>)
    ensures |r| == |testSet|
    ensures forall i :: 0 <= i < |testSet| ==> r[i] == QueryRelevances(testSet[i].1, search(testSet[i].0))
  {
    seq(|testSet|, i requires 0 <= i < |testSet| => QueryRelevances(testSet[i].1, search(testSet[i].0)))
  }

  /** The relevant count of every query, in test-set order. */
  function TotalsList<Id>(testSet: TestSet<Id>): (r: seq<nat>)
    ensures |r| == |testSet|
    ensures forall i :: 0 <= i < |testSet| ==> r[i] == TotalRelevant(testSet[i].1.relevances)
  {
    seq(|testSet|, i requires 0 <= i < |testSet| => TotalRelevant(testSet[i].1.relevances))
  }

  /** The judged grades of every query, in test-set order. */
  function GroundTruthList<Id>(testSet: TestSet<Id>): (r: seq<seq<int>>)
    ensures |r| == |testSet|
    ensures forall i :: 0 <= i < |testSet| ==> r[i] == testSet[i].1.relevances
  {
    seq(|testSet|, i requires 0 <= i < |testSet| => testSet[i].1.relevances)
  }

  /** The aggregate score of one method: the aggregator applied to that method's
      vectors, the relevant counts and the ground-truth grades. */
  function MethodScore<Id(==), Score>(testSet: TestSet<Id>, search: string -> seq<Id>,
                                      ndcgAt10: (seq<seq<int>>, seq<nat>, seq<seq<int>>) -> Score): Score
  {
    ndcgAt10(RelevanceLists(testSet, search), TotalsList(testSet), GroundTruthList(testSet))
  }

  /** Methods that retrieve the same ids for every query have the same vectors,
      and so the same aggregate score, whatever the aggregator. */
  lemma SameRetrievalsSameScore<Id, Score>(testSet: TestSet<Id>, baselineSearch: string -> seq<Id>,
                                               ceSearch: string -> seq<Id>,
                                               ndcgAt10: (seq<seq<int>>, seq<nat>, seq<seq<int>>) -> Score)
    requires forall i :: 0 <= i < |testSet| ==> baselineSearch(testSet[i].0) == ceSearch(testSet[i].0)
    ensures RelevanceLists(testSet, baselineSearch) == RelevanceLists(testSet, ceSearch)
    ensures MethodScore(testSet, baselineSearch, ndcgAt10) == MethodScore(testSet, ceSearch, ndcgAt10)
  {
  }

  /** The loop over all queries: for each, look up both retrievals' relevance
      vectors and append them, the relevant count and the ground-truth grades
      to six lists kept in lockstep. */
  method Accumulate<Id(==)>(testSet: TestSet<Id>, baselineSearch: string -> seq<Id>, ceSearch: string -> seq<Id>)
    returns (baselineRelevances: seq<seq<int>>, ceRelevances: seq<seq<int>>,
             baselineTotals: seq<nat>, ceTotals: seq<nat>,
             baselineGroundTruth: seq<seq<int>>, ceGroundTruth: seq<seq<int>>)
    ensures |baselineRelevances| == |ceRelevances| == |baselineTotals| == |ceTotals|
         == |baselineGroundTruth| == |ceGroundTruth| == |testSet|
    ensures forall i :: 0 <= i < |testSet| ==>
      baselineRelevances[i] == QueryRelevances(testSet[i].1, baselineSearch(testSet[i].0))
    ensures forall i :: 0 <= i < |testSet| ==>
      ceRelevances[i] == QueryRelevances(testSet[i].1, ceSearch(testSet[i].0))
    ensures forall i :: 0 <= i < |testSet| ==>
      baselineTotals[i] == TotalRelevant(testSet[i].1.relevances)
      && baselineGroundTruth[i] == testSet[i].1.relevances
    ensures baselineTotals == ceTotals && baselineGroundTruth == ceGroundTruth
    ensures forall i :: 0 <= i < |testSet| && baselineSearch(testSet[i].0) == ceSearch(testSet[i].0) ==>
      baselineRelevances[i] == ceRelevances[i]
    ensures baselineRelevances == RelevanceLists(testSet, baselineSearch)
    ensures ceRelevances == RelevanceLists(testSet, ceSearch)
    ensures baselineTotals == TotalsList(testSet) && baselineGroundTruth == GroundTruthList(testSet)
  {
    baselineRelevances, ceRelevances := [], [];
    baselineTotals, ceTotals := [], [];
    baselineGroundTruth, ceGroundTruth := [], [];
    var i := 0;
    while i < |testSet|
      invariant 0 <= i <= |testSet|
      invariant |baselineRelevances| == |ceRelevances| == |baselineTotals| == |ceTotals|
             == |baselineGroundTruth| == |ceGroundTruth| == i
      invariant forall t :: 0 <= t < i ==>
        baselineRelevances[t] == QueryRelevances(testSet[t].1, baselineSearch(testSet[t].0))
      invariant forall t :: 0 <= t < i ==>
        ceRelevances[t] == QueryRelevances(testSet[t].1, ceSearch(testSet[t].0))
      invariant forall t :: 0 <= t < i ==>
        baselineTotals[t] == TotalRelevant(testSet[t].1.relevances)
        && baselineGroundTruth[t] == testSet[t].1.relevances
      invariant baselineTotals == ceTotals && baselineGroundTruth == ceGroundTruth
    {
      var (query, data) := testSet[i];
      var docToRelevance := GradeMap(data);
      var totalRelevant := TotalRelevant(data.relevances);
      var groundTruthRels := data.relevances;

      var baselineIds := baselineSearch(query);
      var baselineRels := RelevanceVector(docToRelevance, baselineIds);
      baselineRelevances := baselineRelevances + [baselineRels];
      baselineTotals := baselineTotals + [totalRelevant];
      baselineGroundTruth := baselineGroundTruth + [groundTruthRels];

      var ceIds := ceSearch(query);
      var ceRels := RelevanceVector(docToRelevance, ceIds);
      ceRelevances := ceRelevances + [ceRels];
      ceTotals := ceTotals + [totalRelevant];
      ceGroundTruth := ceGroundTruth + [groundTruthRels];

      i := i + 1;
    }
  }

  // ---------------------------------------------------------------------------
  // The single-query comparison
  // ---------------------------------------------------------------------------

  /** The verdict on one query's two id lists. */
  datatype Comparison<Id> =
    | Identical
    | Different(baselineOnly: set<Id>, ceOnly: set<Id>)

  function Elements<Id(==)>(s: seq<Id>): set<Id> {
    set x | x in s
  }

  /** Equal lists are reported identical; otherwise the ids found by only one side are listed. */
  function Compare<Id(==)>(baselineIds: seq<Id>, ceIds: seq<Id>): (c: Comparison<Id>)
    ensures c.Identical? <==> baselineIds == ceIds
    ensures c.Different? ==> forall d :: d in c.baselineOnly ==> d in baselineIds && d !in ceIds
    ensures c.Different? ==> forall d :: d in baselineIds && d !in ceIds ==> d in c.baselineOnly
    ensures c.Different? ==> forall d :: d in c.ceOnly ==> d in ceIds && d !in baselineIds
    ensures c.Different? ==> forall d :: d in ceIds && d !in baselineIds ==> d in c.ceOnly
  {
    if baselineIds == ceIds then Identical
    else Different(Elements(baselineIds) - Elements(ceIds), Elements(ceIds) - Elements(baselineIds))
  }

  /** No id is reported on both sides, and both sides are empty exactly when
      the two lists hold the same ids, possibly in another order. */
  lemma CompareSides<Id>(baselineIds: seq<Id>, ceIds: seq<Id>)
    requires Compare(baselineIds, ceIds).Different?
    ensures Compare(baselineIds, ceIds).baselineOnly !! Compare(baselineIds, ceIds).ceOnly
    ensures (Compare(baselineIds, ceIds).baselineOnly == {} && Compare(baselineIds, ceIds).ceOnly == {})
      <==> Elements(baselineIds) == Elements(ceIds)
  {
    var c := Compare(baselineIds, ceIds);
    if c.baselineOnly == {} && c.ceOnly == {} {
      forall d | d in baselineIds ensures d in ceIds {
        assert d !in c.baselineOnly;
      }
      forall d | d in ceIds ensures d in baselineIds {
        assert d !in c.ceOnly;
      }
    }
    assert c.baselineOnly == Elements(baselineIds) - Elements(ceIds);
    assert c.ceOnly == Elements(ceIds) - Elements(baselineIds);
  }

  /** Lists that differ only in order are reported as different, with nothing on either side. */
  lemma ReorderedListsExample()
    ensures Compare([1, 2], [2, 1]) == Different({}, {})
  {
    assert [1, 2][0] != [2, 1][0];
    assert Elements([1, 2]) == Elements([2, 1]) == {1, 2};
  }

  // ---------------------------------------------------------------------------
  // The detail dump and the whole run
  // ---------------------------------------------------------------------------

  /** How many queries the detail dump shows at most. */
  const DumpLimit: nat := 5

  /** One entry of the dump: 1-based number, query text, both vectors, and whether they differ. */
  datatype Detail = Detail(number: nat, query: string, baseline: seq<int>, ce: seq<int>, different: bool)

  /** The dump over the first queries, reading the accumulated vectors by position. */
  method DetailDump<Id(==)>(testSet: TestSet<Id>, baselineRelevances: seq<seq<int>>, ceRelevances: seq<seq<int>>)
    returns (details: seq<Detail>)
    requires |baselineRelevances| >= Min(DumpLimit, |testSet|)
    requires |ceRelevances| >= Min(DumpLimit, |testSet|)
    ensures |details| == Min(DumpLimit, |testSet|)
    ensures forall i :: 0 <= i < |details| ==>
      && details[i].number == i + 1
      && details[i].query == testSet[i].0
      && details[i].baseline == baselineRelevances[i]
      && details[i].ce == ceRelevances[i]
      && (details[i].different <==> baselineRelevances[i] != ceRelevances[i])
  {
    var first := testSet[..Min(DumpLimit, |testSet|)];
    details := [];
    var i := 0;
    while i < |first|
      invariant 0 <= i <= |first|
      invariant |details| == i
      invariant forall t :: 0 <= t < i ==>
        details[t] == Detail(t + 1, testSet[t].0, baselineRelevances[t], ceRelevances[t],
                             baselineRelevances[t] != ceRelevances[t])
    {
      var (query, _) := first[i];
      details := details + [Detail(i + 1, query, baselineRelevances[i], ceRelevances[i],
                                   baselineRelevances[i] != ceRelevances[i])];
      i := i + 1;
    }
  }

  /** What the diagnostic reports: the first query, its comparison, whether the
      two aggregate scores were within tolerance, and the dump (empty when they were). */
  datatype Report<Id> = Report(firstQuery: string, comparison: Comparison<Id>, scoresMatch: bool, details: seq<Detail>)

  /** The run either stops at the very start, because there is no first query to
      pick, or completes with a report. */
  datatype Outcome<Id> = NoFirstQuery | Completed(report: Report<Id>)

  /** The whole diagnostic.  `ndcgAt10` stands for the aggregator applied to one
      method's three accumulated lists, and `withinTolerance` for the test that
      the two scores are close. */
  method Diagnose<Id(==), Score(!new)>(testSet: TestSet<Id>,
                             baselineSearch: string -> seq<Id>, ceSearch: string -> seq<Id>,
                             ndcgAt10: (seq<seq<int>>, seq<nat>, seq<seq<int>>) -> Score,
                             withinTolerance: (Score, Score) -> bool)
    returns (outcome: Outcome<Id>)
    ensures outcome.NoFirstQuery? <==> testSet == []
    ensures outcome.Completed? ==>
      && outcome.report.firstQuery == testSet[0].0
      && outcome.report.comparison == Compare(baselineSearch(testSet[0].0), ceSearch(testSet[0].0))
    ensures outcome.Completed? && outcome.report.scoresMatch ==> outcome.report.details == []
    ensures outcome.Completed? ==>
      outcome.report.scoresMatch
      == withinTolerance(MethodScore(testSet, baselineSearch, ndcgAt10), MethodScore(testSet, ceSearch, ndcgAt10))
    ensures outcome.Completed? && !outcome.report.scoresMatch ==>
      && |outcome.report.details| == Min(DumpLimit, |testSet|)
      && forall i :: 0 <= i < |outcome.report.details| ==>
           && outcome.report.details[i].number == i + 1
           && outcome.report.details[i].query == testSet[i].0
           && outcome.report.details[i].baseline == QueryRelevances(testSet[i].1, baselineSearch(testSet[i].0))
           && outcome.report.details[i].ce == QueryRelevances(testSet[i].1, ceSearch(testSet[i].0))
           && (outcome.report.details[i].different <==>
                 outcome.report.details[i].baseline != outcome.report.details[i].ce)
    ensures outcome.Completed?
      && (forall i :: 0 <= i < |testSet| ==> baselineSearch(testSet[i].0) == ceSearch(testSet[i].0))
      && (forall s :: withinTolerance(s, s))
      ==> outcome.report.comparison.Identical? && outcome.report.scoresMatch
  {
    if testSet == [] {
      return NoFirstQuery;
    }
    var testQuery := testSet[0].0;
    var comparison := Compare(baselineSearch(testQuery), ceSearch(testQuery));

    var baselineRelevances, ceRelevances, baselineTotals, ceTotals, baselineGroundTruth, ceGroundTruth :=
      Accumulate(testSet, baselineSearch, ceSearch);

    var baselineScore := ndcgAt10(baselineRelevances, baselineTotals, baselineGroundTruth);
    var ceScore := ndcgAt10(ceRelevances, ceTotals, ceGroundTruth);
    var scoresMatch := withinTolerance(baselineScore, ceScore);

    var details := [];
    if !scoresMatch {
      details := DetailDump(testSet, baselineRelevances, ceRelevances);
    }
    if forall i :: 0 <= i < |testSet| ==> baselineSearch(testSet[i].0) == ceSearch(testSet[i].0) {
      assert baselineSearch(testSet[0].0) == ceSearch(testSet[0].0);
      SameRetrievalsSameScore(testSet, baselineSearch, ceSearch, ndcgAt10);
    }
    return Completed(Report(testQuery, comparison, scoresMatch, details));
  }
}
