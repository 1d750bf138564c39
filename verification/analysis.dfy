/** The error-pattern analysis: each prediction is joined to its article by
    id, and errors are tallied separately for articles with and without the
    ceremony sentence, to expose the planted spurious correlation. */
module ErrorAnalysis {
  import opened Results
  import opened Rates
  import opened Counting
  import opened SportsData

  /** A prediction record, reduced to the two entries the analysis reads. */
  datatype Prediction = Prediction(articleId: int, isCorrect: bool)

  /** The `IndexError` raised when no dataset row carries the prediction's id. */
  datatype AnalysisError = MissingArticle(articleId: int)

  /** The tallies. The returned dictionary holds the two rates and the two
      totals; the two error counts are kept as well so that the rates can be
      read as fractions. */
  datatype ErrorReport = ErrorReport(
    errorRateWithCeremony: real,
    errorRateWithoutCeremony: real,
    totalWithCeremony: nat,
    totalWithoutCeremony: nat,
    errorsWithCeremony: nat,
    errorsWithoutCeremony: nat)

  // ---------------------------------------------------------------------------
  // Joining predictions to articles
  // ---------------------------------------------------------------------------

  /** Row `i` is the first row of the dataset with this id. */
  predicate FirstWithId(dataset: seq<Article>, id: int, i: int) {
    && 0 <= i < |dataset|
    && dataset[i].articleId == id
    && forall j :: 0 <= j < i ==> dataset[j].articleId != id
  }

  /** `dataset[dataset["article_id"] == id].iloc[0]`, absent when no row matches. */
  function FindArticle(dataset: seq<Article>, id: int): (r: Option<Article>)
    ensures r.Some? ==> r.value in dataset && r.value.articleId == id
    decreases |dataset|
  {
    if |dataset| == 0 then None
    else if dataset[0].articleId == id then Some(dataset[0])
    else FindArticle(dataset[1..], id)
  }

  /** The lookup fails exactly when no row carries the id, and otherwise
      returns the first row that does. */
  lemma {:induction false} FindArticleFirst(dataset: seq<Article>, id: int)
    ensures FindArticle(dataset, id).None? <==> forall j :: 0 <= j < |dataset| ==> dataset[j].articleId != id
    ensures FindArticle(dataset, id).Some? ==>
      exists i | 0 <= i < |dataset| :: FirstWithId(dataset, id, i) && dataset[i] == FindArticle(dataset, id).value
    decreases |dataset|
  {
    if |dataset| == 0 {
    } else if dataset[0].articleId == id {
      assert FirstWithId(dataset, id, 0);
    } else {
      FindArticleFirst(dataset[1..], id);
      var r := FindArticle(dataset[1..], id);
      if r.Some? {
        var i :| 0 <= i < |dataset| - 1 && FirstWithId(dataset[1..], id, i) && dataset[1..][i] == r.value;
        assert FirstWithId(dataset, id, i + 1);
      } else {
        assert forall j :: 1 <= j < |dataset| ==> dataset[j] == dataset[1..][j - 1];
      }
    }
  }

  /** The ceremony flag of each prediction's article, in prediction order; the
      first prediction whose id is missing makes the whole join fail. */
  function CeremonyFlags(preds: seq<Prediction>, dataset: seq<Article>): (r: Result<seq<bool>, AnalysisError>)
    ensures r.Success? ==> |r.value| == |preds|
    decreases |preds|
  {
    if |preds| == 0 then Success([])
    else
      var k := |preds| - 1;
      match CeremonyFlags(preds[..k], dataset)
      case Failure(e) => Failure(e)
      case Success(flags) =>
        match FindArticle(dataset, preds[k].articleId)
        case None => Failure(MissingArticle(preds[k].articleId))
        case Some(a) => Success(flags + [a.hasCeremony])
  }

  /** The join succeeds exactly when every prediction's id is in the dataset,
      and then holds, for each prediction, the flag of its article. */
  lemma {:induction false} CeremonyFlagsJoin(preds: seq<Prediction>, dataset: seq<Article>)
    ensures CeremonyFlags(preds, dataset).Success? <==>
      forall i :: 0 <= i < |preds| ==> FindArticle(dataset, preds[i].articleId).Some?
    ensures CeremonyFlags(preds, dataset).Success? ==> forall i :: 0 <= i < |preds| ==>
      CeremonyFlags(preds, dataset).value[i] == FindArticle(dataset, preds[i].articleId).value.hasCeremony
    decreases |preds|
  {
    if |preds| > 0 {
      var k := |preds| - 1;
      CeremonyFlagsJoin(preds[..k], dataset);
      assert forall i :: 0 <= i < k ==> preds[..k][i] == preds[i];
    }
  }

  /** The error reported is the id of the first prediction without an article. */
  lemma {:induction false} CeremonyFlagsFirstMissing(preds: seq<Prediction>, dataset: seq<Article>, i: int)
    requires 0 <= i < |preds|
    requires FindArticle(dataset, preds[i].articleId).None?
    requires forall j :: 0 <= j < i ==> FindArticle(dataset, preds[j].articleId).Some?
    ensures CeremonyFlags(preds, dataset) == Failure(MissingArticle(preds[i].articleId))
    decreases |preds|
  {
    var k := |preds| - 1;
    if i < k {
      CeremonyFlagsFirstMissing(preds[..k], dataset, i);
      assert preds[..k][i] == preds[i];
    } else {
      assert CeremonyFlags(preds[..k], dataset).Success? by {
        CeremonyFlagsJoin(preds[..k], dataset);
        assert forall j :: 0 <= j < k ==> preds[..k][j] == preds[j];
      }
    }
  }

  /** A join that succeeded on the first `i` predictions and misses the next
      one fails with that one's id. */
  lemma JoinStopsAtMissing(preds: seq<Prediction>, dataset: seq<Article>, i: int, flags: seq<bool>)
    requires 0 <= i < |preds|
    requires CeremonyFlags(preds[..i], dataset) == Success(flags)
    requires FindArticle(dataset, preds[i].articleId).None?
    ensures CeremonyFlags(preds, dataset) == Failure(MissingArticle(preds[i].articleId))
  {
    CeremonyFlagsJoin(preds[..i], dataset);
    forall j | 0 <= j < i
      ensures FindArticle(dataset, preds[j].articleId).Some?
    {
      assert preds[..i][j] == preds[j];
    }
    CeremonyFlagsFirstMissing(preds, dataset, i);
  }

  // ---------------------------------------------------------------------------
  // Tallying
  // ---------------------------------------------------------------------------

  datatype Tally = Tally(errorsWith: nat, errorsWithout: nat, totalWith: nat, totalWithout: nat)

  /** `not pred["is_correct"]`, position by position. */
  function ErrorFlags(preds: seq<Prediction>): (e: seq<bool>)
    ensures |e| == |preds|
    ensures forall i :: 0 <= i < |preds| ==> (e[i] <==> !preds[i].isCorrect)
  {
    seq(|preds|, i requires 0 <= i < |preds| => !preds[i].isCorrect)
  }

  /** Errors among the predictions whose flag is `flag`. */
  function ErrorsIn(preds: seq<Prediction>, flags: seq<bool>, flag: bool): (v: seq<bool>)
    requires |flags| == |preds|
    ensures |v| == |preds|
    ensures forall i :: 0 <= i < |preds| ==> (v[i] <==> flags[i] == flag && !preds[i].isCorrect)
  {
    seq(|preds|, i requires 0 <= i < |preds| => flags[i] == flag && !preds[i].isCorrect)
  }

  /** The loop body's counter updates for one prediction whose article has
      the given ceremony flag. */
  function Step(t: Tally, p: Prediction, flag: bool): Tally {
    var isError := !p.isCorrect;
    if flag then
      Tally(if isError then t.errorsWith + 1 else t.errorsWith, t.errorsWithout, t.totalWith + 1, t.totalWithout)
    else
      Tally(t.errorsWith, if isError then t.errorsWithout + 1 else t.errorsWithout, t.totalWith, t.totalWithout + 1)
  }

  /** The loop's four counters after the given predictions, `flags` being
      their articles' ceremony flags. */
  function TallyOf(preds: seq<Prediction>, flags: seq<bool>): (t: Tally)
    requires |flags| == |preds|
    ensures t.totalWith + t.totalWithout == |preds|
    ensures t.errorsWith <= t.totalWith && t.errorsWithout <= t.totalWithout
    decreases |preds|
  {
    if |preds| == 0 then Tally(0, 0, 0, 0)
    else
      var k := |preds| - 1;
      Step(TallyOf(preds[..k], flags[..k]), preds[k], flags[k])
  }

  /** Counting one more prediction steps the tally. */
  lemma TallyOfAppend(preds: seq<Prediction>, i: int, flags: seq<bool>, flag: bool)
    requires 0 <= i < |preds| && |flags| == i
    ensures TallyOf(preds[..i + 1], flags + [flag]) == Step(TallyOf(preds[..i], flags), preds[i], flag)
  {
    assert preds[..i + 1][..i] == preds[..i];
    assert (flags + [flag])[..i] == flags;
  }

  /** Joining one more prediction appends its article's flag. */
  lemma CeremonyFlagsAppend(preds: seq<Prediction>, i: int, dataset: seq<Article>, flags: seq<bool>, a: Article)
    requires 0 <= i < |preds|
    requires CeremonyFlags(preds[..i], dataset) == Success(flags)
    requires FindArticle(dataset, preds[i].articleId) == Some(a)
    ensures CeremonyFlags(preds[..i + 1], dataset) == Success(flags + [a.hasCeremony])
  {
    assert preds[..i + 1][..i] == preds[..i];
  }

  /** The with-ceremony total counts the ceremony articles. */
  lemma {:induction false} TallyTotals(preds: seq<Prediction>, flags: seq<bool>)
    requires |flags| == |preds|
    ensures TallyOf(preds, flags).totalWith == CountTrue(flags)
    decreases |preds|
  {
    if |preds| > 0 {
      var k := |preds| - 1;
      TallyTotals(preds[..k], flags[..k]);
      CountTrueLast(flags);
    }
  }

  /** The error counter of a group counts the incorrect predictions in it. */
  lemma {:induction false} TallyErrors(preds: seq<Prediction>, flags: seq<bool>, flag: bool)
    requires |flags| == |preds|
    ensures var t := TallyOf(preds, flags);
      (if flag then t.errorsWith else t.errorsWithout) == CountTrue(ErrorsIn(preds, flags, flag))
    decreases |preds|
  {
    if |preds| > 0 {
      var k := |preds| - 1;
      var p, f := preds[..k], flags[..k];
      TallyErrors(p, f, flag);
      var e := ErrorsIn(preds, flags, flag);
      assert e[..k] == ErrorsIn(p, f, flag);
      CountTrueLast(e);
    }
  }

  /** The two error counters together count every incorrect prediction. */
  lemma {:induction false} TallyErrorTotal(preds: seq<Prediction>, flags: seq<bool>)
    requires |flags| == |preds|
    ensures TallyOf(preds, flags).errorsWith + TallyOf(preds, flags).errorsWithout == CountTrue(ErrorFlags(preds))
    decreases |preds|
  {
    if |preds| > 0 {
      var k := |preds| - 1;
      var p := preds[..k];
      TallyErrorTotal(p, flags[..k]);
      var e := ErrorFlags(preds);
      assert e[..k] == ErrorFlags(p);
      CountTrueLast(e);
    }
  }

  /** Each counter counts exactly what its name says: the with-ceremony total
      is the number of ceremony articles, each error counter the number of
      incorrect predictions in its group, so the two error counters together
      count every incorrect prediction. */
  lemma TallyCounts(preds: seq<Prediction>, flags: seq<bool>)
    requires |flags| == |preds|
    ensures TallyOf(preds, flags).totalWith == CountTrue(flags)
    ensures TallyOf(preds, flags).errorsWith == CountTrue(ErrorsIn(preds, flags, true))
    ensures TallyOf(preds, flags).errorsWithout == CountTrue(ErrorsIn(preds, flags, false))
    ensures TallyOf(preds, flags).errorsWith + TallyOf(preds, flags).errorsWithout == CountTrue(ErrorFlags(preds))
  {
    TallyTotals(preds, flags);
    TallyErrors(preds, flags, true);
    TallyErrors(preds, flags, false);
    TallyErrorTotal(preds, flags);
  }

  /** The returned dictionary, built from the four counters. */
  function ReportOf(t: Tally): ErrorReport {
    ErrorReport(GuardedRate(t.errorsWith, t.totalWith), GuardedRate(t.errorsWithout, t.totalWithout),
                t.totalWith, t.totalWithout, t.errorsWith, t.errorsWithout)
  }

  /** `analyze_error_patterns(predictions, dataset)` without the printed
      summary: it fails, with the first missing id, exactly when the join
      fails, and otherwise reports the tally of the joined flags. */
  method AnalyzeErrorPatterns(preds: seq<Prediction>, dataset: seq<Article>) returns (res: Result<ErrorReport, AnalysisError>)
    ensures res.Failure? <==> CeremonyFlags(preds, dataset).Failure?
    ensures res.Failure? ==> res.error == CeremonyFlags(preds, dataset).error
    ensures res.Success? ==> res.value == ReportOf(TallyOf(preds, CeremonyFlags(preds, dataset).value))
  {
    var tally := Tally(0, 0, 0, 0);
    ghost var flags: seq<bool> := [];
    var i := 0;
    while i < |preds|
      invariant 0 <= i <= |preds|
      invariant CeremonyFlags(preds[..i], dataset) == Success(flags)
      invariant TallyOf(preds[..i], flags) == tally
    {
      var found := FindArticle(dataset, preds[i].articleId);
      if found.None? {
        JoinStopsAtMissing(preds, dataset, i, flags);
        return Failure(MissingArticle(preds[i].articleId));
      }
      var article := found.value;
      CeremonyFlagsAppend(preds, i, dataset, flags, article);
      TallyOfAppend(preds, i, flags, article.hasCeremony);
      tally := Step(tally, preds[i], article.hasCeremony);
      flags := flags + [article.hasCeremony];
      i := i + 1;
    }
    assert preds[..i] == preds;
    var rateWith := GuardedRate(tally.errorsWith, tally.totalWith);
    var rateWithout := GuardedRate(tally.errorsWithout, tally.totalWithout);
    return Success(ErrorReport(rateWith, rateWithout, tally.totalWith, tally.totalWithout,
                               tally.errorsWith, tally.errorsWithout));
  }

  /** For a dataset that covers every prediction, the report's counts partition
      the predictions: the totals add up to the number of predictions, each
      group's errors are bounded by its total, the errors add up to the number
      of incorrect predictions, and an empty group has error rate 0. */
  lemma ReportPartitionsPredictions(preds: seq<Prediction>, dataset: seq<Article>)
    requires forall i :: 0 <= i < |preds| ==> FindArticle(dataset, preds[i].articleId).Some?
    ensures CeremonyFlags(preds, dataset).Success?
    ensures var t := TallyOf(preds, CeremonyFlags(preds, dataset).value);
      && t.totalWith + t.totalWithout == |preds|
      && t.errorsWith <= t.totalWith && t.errorsWithout <= t.totalWithout
      && t.errorsWith + t.errorsWithout == CountTrue(ErrorFlags(preds))
      && (t.totalWith == 0 ==> GuardedRate(t.errorsWith, t.totalWith) == 0.0)
      && (t.totalWithout == 0 ==> GuardedRate(t.errorsWithout, t.totalWithout) == 0.0)
      && 0.0 <= GuardedRate(t.errorsWith, t.totalWith) <= 1.0
      && 0.0 <= GuardedRate(t.errorsWithout, t.totalWithout) <= 1.0
  {
    CeremonyFlagsJoin(preds, dataset);
    var t := TallyOf(preds, CeremonyFlags(preds, dataset).value);
    TallyCounts(preds, CeremonyFlags(preds, dataset).value);
    GuardedRateMeaning(t.errorsWith, t.totalWith);
    GuardedRateMeaning(t.errorsWithout, t.totalWithout);
  }

  /** The ceremony group is exactly the predictions whose first matching
      article has the ceremony flag set. */
  lemma CeremonyGroupIsFlaggedArticles(preds: seq<Prediction>, dataset: seq<Article>, i: int)
    requires CeremonyFlags(preds, dataset).Success?
    requires 0 <= i < |preds|
    ensures exists j | 0 <= j < |dataset| ::
      (FirstWithId(dataset, preds[i].articleId, j) && (CeremonyFlags(preds, dataset).value[i] <==> dataset[j].hasCeremony))
  {
    CeremonyFlagsJoin(preds, dataset);
    FindArticleFirst(dataset, preds[i].articleId);
    var a := FindArticle(dataset, preds[i].articleId);
    var j :| 0 <= j < |dataset| && FirstWithId(dataset, preds[i].articleId, j) && dataset[j] == a.value;
  }
}
