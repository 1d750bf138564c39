/** The question-answering scorer: each predicted answer is compared with its
    reference answer after lower-casing and stripping both, and a pair counts
    as correct when either normalised answer contains the other. */
module Evaluation {
  import opened Results
  import opened Text
  import opened Rates
  import opened Counting

  /** A prediction or reference dictionary, reduced to its "answer" entry
      (absent when the key is missing). */
  datatype AnswerRecord = AnswerRecord(answer: Option<string>)

  /** The returned metrics: accuracy, number of correct pairs, number of pairs. */
  datatype QaScore = QaScore(accuracy: real, correct: nat, total: nat)

  /** The `ValueError` raised when the two lists differ in length. */
  datatype EvalError = LengthMismatch(predictions: nat, references: nat)

  /** `d.get("answer", "")` */
  function AnswerOf(r: AnswerRecord): string {
    r.answer.GetOr("")
  }

  /** `s.lower().strip()`: the lower-cased text of `s` between its leading
      and trailing whitespace. */
  function Normalize(s: string): (r: string)
    ensures Trimmed(r) && |r| <= |s|
    ensures forall i :: 0 <= i < |r| ==> !('A' <= r[i] <= 'Z')
  {
    var l := Lower(s);
    StripWindow(l);
    Strip(l)
  }

  /** The matching rule on two raw answers. */
  predicate AnswersMatch(pred: string, ref: string) {
    var p := Normalize(pred);
    var r := Normalize(ref);
    Contains(r, p) || Contains(p, r)
  }

  predicate IsCorrect(pred: AnswerRecord, ref: AnswerRecord) {
    AnswersMatch(AnswerOf(pred), AnswerOf(ref))
  }

  /** The verdict on each position of the two lists. */
  function Verdicts(preds: seq<AnswerRecord>, refs: seq<AnswerRecord>): (v: seq<bool>)
    requires |preds| == |refs|
    ensures |v| == |preds|
  {
    seq(|preds|, i requires 0 <= i < |preds| => IsCorrect(preds[i], refs[i]))
  }

  /** The number of correct pairs. */
  function CountCorrect(preds: seq<AnswerRecord>, refs: seq<AnswerRecord>): nat
    requires |preds| == |refs|
  {
    CountTrue(Verdicts(preds, refs))
  }

  /** Scoring two batches separately and adding the counts gives the count of
      the combined batch. */
  lemma CountCorrectAppend(p1: seq<AnswerRecord>, r1: seq<AnswerRecord>, p2: seq<AnswerRecord>, r2: seq<AnswerRecord>)
    requires |p1| == |r1| && |p2| == |r2|
    ensures CountCorrect(p1 + p2, r1 + r2) == CountCorrect(p1, r1) + CountCorrect(p2, r2)
  {
    var v1 := Verdicts(p1, r1);
    var v2 := Verdicts(p2, r2);
    var v := Verdicts(p1 + p2, r1 + r2);
    forall i | 0 <= i < |v|
      ensures v[i] == (v1 + v2)[i]
    {
      if i < |p1| {
        assert (p1 + p2)[i] == p1[i] && (r1 + r2)[i] == r1[i];
      } else {
        assert (p1 + p2)[i] == p2[i - |p1|] && (r1 + r2)[i] == r2[i - |r1|];
      }
    }
    assert v == v1 + v2;
    CountTrueAppend(v1, v2);
  }

  /** `correct` never exceeds `total`, equals it exactly when every pair
      matches, and is zero exactly when none does. */
  lemma CorrectBounds(preds: seq<AnswerRecord>, refs: seq<AnswerRecord>)
    requires |preds| == |refs|
    ensures CountCorrect(preds, refs) <= |preds|
    ensures CountCorrect(preds, refs) == |preds| <==> forall i :: 0 <= i < |preds| ==> IsCorrect(preds[i], refs[i])
    ensures CountCorrect(preds, refs) == 0 <==> forall i :: 0 <= i < |preds| ==> !IsCorrect(preds[i], refs[i])
  {
    var v := Verdicts(preds, refs);
    CountTrueExtremes(v);
    forall i | 0 <= i < |preds|
      ensures v[i] == IsCorrect(preds[i], refs[i])
    {
    }
  }

  /** `evaluate_qa(predictions, references)` */
  method EvaluateQa(preds: seq<AnswerRecord>, refs: seq<AnswerRecord>) returns (res: Result<QaScore, EvalError>)
    ensures res.Failure? <==> |preds| != |refs|
    ensures res.Failure? ==> res.error == LengthMismatch(|preds|, |refs|)
    ensures res.Success? ==>
      && res.value.total == |preds|
      && res.value.correct == CountCorrect(preds, refs)
      && res.value.accuracy == GuardedRate(res.value.correct, res.value.total)
    ensures |preds| == 0 && |refs| == 0 ==> res == Success(QaScore(0.0, 0, 0))
  {
    if |preds| != |refs| {
      return Failure(LengthMismatch(|preds|, |refs|));
    }
    var correct: nat := 0;
    var total := |preds|;
    var verdicts := Verdicts(preds, refs);
    var i := 0;
    while i < |preds|
      invariant 0 <= i <= |preds|
      invariant correct == CountTrue(verdicts[..i])
    {
      assert CountTrue(verdicts[..i + 1]) == CountTrue(verdicts[..i]) + if verdicts[i] then 1 else 0 by {
        assert verdicts[..i + 1][..i] == verdicts[..i];
        assert verdicts[..i + 1][i] == verdicts[i];
      }
      if verdicts[i] {
        correct := correct + 1;
      }
      i := i + 1;
    }
    assert verdicts[..i] == verdicts;
    var accuracy := GuardedRate(correct, total);
    return Success(QaScore(accuracy, correct, total));
  }

  // ---------------------------------------------------------------------------
  // Properties of the matching rule
  // ---------------------------------------------------------------------------

  /** An answer made only of whitespace normalises to the empty string. */
  lemma NormalizeBlank(s: string)
    requires AllSpace(s)
    ensures Normalize(s) == ""
  {
    LowerKeepsSpace(s);
    StripBlank(Lower(s));
  }

  /** A missing, empty or blank predicted answer is always counted correct:
      the empty string occurs in every reference. */
  lemma BlankPredictionIsCorrect(pred: AnswerRecord, ref: AnswerRecord)
    requires pred.answer.None? || AllSpace(pred.answer.value)
    ensures IsCorrect(pred, ref)
  {
    NormalizeBlank(AnswerOf(pred));
    ContainsTrivial(Normalize(AnswerOf(ref)));
  }

  /** Two strings that differ only in the case of ASCII letters. */
  predicate SameUpToCase(a: string, b: string) {
    |a| == |b| && forall i :: 0 <= i < |a| ==> LowerChar(a[i]) == LowerChar(b[i])
  }

  /** Normalisation forgets letter case and surrounding whitespace. */
  lemma NormalizeIgnoresCaseAndPadding(w1: string, a: string, w2: string, b: string)
    requires AllSpace(w1) && AllSpace(w2)
    requires SameUpToCase(a, b)
    ensures Normalize(w1 + a + w2) == Normalize(b)
  {
    LowerConcat(w1, a);
    LowerConcat(w1 + a, w2);
    LowerKeepsSpace(w1);
    LowerKeepsSpace(w2);
    assert Lower(a) == Lower(b);
    StripPadded(Lower(w1), Lower(b), Lower(w2));
  }

  /** The verdict on a pair is unchanged by re-casing or re-padding either
      answer. */
  lemma VerdictIgnoresCaseAndPadding(pred: string, ref: string, w1: string, pred2: string, w2: string,
                                     v1: string, ref2: string, v2: string)
    requires AllSpace(w1) && AllSpace(w2) && AllSpace(v1) && AllSpace(v2)
    requires SameUpToCase(pred2, pred) && SameUpToCase(ref2, ref)
    ensures AnswersMatch(w1 + pred2 + w2, v1 + ref2 + v2) <==> AnswersMatch(pred, ref)
  {
    NormalizeIgnoresCaseAndPadding(w1, pred2, w2, pred);
    NormalizeIgnoresCaseAndPadding(v1, ref2, v2, ref);
  }

  /** The rule is symmetric and accepts an exact match. */
  lemma MatchSymmetricReflexive(a: string, b: string)
    ensures AnswersMatch(a, b) <==> AnswersMatch(b, a)
    ensures AnswersMatch(a, a)
  {
    ContainsTrivial(Normalize(a));
  }
}
