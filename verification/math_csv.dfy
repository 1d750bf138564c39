/** The addition-question table: `num_questions` rows asking "What is a + b?"
    for operands drawn uniformly from `[min_val, max_val]`, answered with the
    decimal sum. The operand draws are inputs here. */
module MathCsv {
  import opened Results
  import opened Text
  import opened QaRows

  /** The `ValueError` `random.randint` raises for an empty range. */
  datatype MathError = EmptyRange(minVal: int, maxVal: int)

  /** The two operands drawn for one question. */
  datatype Operands = Operands(a: int, b: int)

  const QuestionContext: string := "question"

  /** `f"What is {a} + {b}?"` */
  function AdditionQuestion(a: int, b: int): string {
    "What is " + (IntToString(a) + (" + " + (IntToString(b) + "?")))
  }

  /** One row of the table: `{"context": "question", "question": ...,
      "answer": str(a + b)}`. */
  function AdditionRow(ops: Operands): QaRow {
    QaRow(QuestionContext, AdditionQuestion(ops.a, ops.b), IntToString(ops.a + ops.b))
  }

  /** Reads the operands back out of a question. */
  function ParseAdditionQuestion(q: string): Option<Operands> {
    match DropPrefix(q, "What is ")
    case None => None
    case Some(rest) =>
      match DropSuffix(rest, "?")
      case None => None
      case Some(body) => ParseSum(body)
  }

  /** Reads `"<a> + <b>"`. */
  function ParseSum(body: string): Option<Operands> {
    match IndexOf(body, ' ')
    case None => None
    case Some(k) =>
      match DropPrefix(body[k..], " + ")
      case None => None
      case Some(second) =>
        match (ParseInt(body[..k]), ParseInt(second))
        case (Some(a), Some(b)) => Some(Operands(a, b))
        case _ => None
  }

  /** A question names its operands unambiguously. */
  lemma AdditionQuestionRoundTrip(a: int, b: int)
    ensures ParseAdditionQuestion(AdditionQuestion(a, b)) == Some(Operands(a, b))
  {
    var body := IntToString(a) + (" + " + IntToString(b));
    var q := AdditionQuestion(a, b);
    assert DropPrefix(q, "What is ") == Some(body + "?") by {
      assert q == "What is " + (body + "?");
    }
    assert DropSuffix(body + "?", "?") == Some(body) by {
      assert (body + "?")[..|body|] == body;
    }
    SumRoundTrip(a, b);
  }

  lemma SumRoundTrip(a: int, b: int)
    ensures ParseSum(IntToString(a) + (" + " + IntToString(b))) == Some(Operands(a, b))
  {
    var sa, sb := IntToString(a), IntToString(b);
    SplitAtFirstSpace(sa, " + " + sb);
    assert DropPrefix(" + " + sb, " + ") == Some(sb);
    IntToStringRoundTrip(a);
    IntToStringRoundTrip(b);
  }

  /** A numeral followed by text starting with a space splits at that space. */
  lemma SplitAtFirstSpace(numeral: string, rest: string)
    requires ' ' !in numeral && |rest| > 0 && rest[0] == ' '
    ensures IndexOf(numeral + rest, ' ') == Some(|numeral|)
    ensures (numeral + rest)[..|numeral|] == numeral && (numeral + rest)[|numeral|..] == rest
  {
    var s := numeral + rest;
    assert s[|numeral|] == ' ';
    assert s[..|numeral|] == numeral;
  }

  /** The answer column reads back as the sum of the operands. */
  lemma AdditionAnswerIsSum(ops: Operands)
    ensures ParseInt(AdditionRow(ops).answer) == Some(ops.a + ops.b)
  {
    IntToStringRoundTrip(ops.a + ops.b);
  }

  /** A row asks for, and answers, the sum of the given operands. */
  predicate ReadsBackAs(row: QaRow, ops: Operands) {
    && row.context == QuestionContext
    && ParseAdditionQuestion(row.question) == Some(ops)
    && ParseInt(row.answer) == Some(ops.a + ops.b)
  }

  /** A row reads back as the operands it was built from. */
  lemma AdditionRowReadsBack(ops: Operands)
    ensures ReadsBackAs(AdditionRow(ops), ops)
  {
    AdditionQuestionRoundTrip(ops.a, ops.b);
    AdditionAnswerIsSum(ops);
  }

  /** Every row of a table built from draws reads back as its draw. */
  lemma AdditionRowsReadBack(rows: seq<QaRow>, draws: seq<Operands>)
    requires |rows| == |draws|
    requires forall k :: 0 <= k < |rows| ==> rows[k] == AdditionRow(draws[k])
    ensures forall k :: 0 <= k < |rows| ==> ReadsBackAs(rows[k], draws[k])
  {
    forall k | 0 <= k < |rows|
      ensures ReadsBackAs(rows[k], draws[k])
    {
      AdditionRowReadsBack(draws[k]);
    }
  }

  /** The operand draws fit the range the source draws from. */
  predicate InRange(ops: Operands, minVal: int, maxVal: int) {
    minVal <= ops.a <= maxVal && minVal <= ops.b <= maxVal
  }

  /** `generate_addition_questions_csv(num_questions, min_val, max_val)`
      without the file write. `draws[i]` is the pair of `randint` results of
      the i-th iteration; `range(num_questions)` is empty for a negative
      count, and `randint` fails on the first draw of an empty range. */
  method GenerateAdditionQuestions(numQuestions: int, minVal: int, maxVal: int, draws: seq<Operands>)
    returns (res: Result<seq<QaRow>, MathError>)
    requires |draws| == if numQuestions > 0 then numQuestions else 0
    requires minVal <= maxVal ==> forall i :: 0 <= i < |draws| ==> InRange(draws[i], minVal, maxVal)
    ensures res.Failure? <==> numQuestions > 0 && minVal > maxVal
    ensures res.Failure? ==> res.error == EmptyRange(minVal, maxVal)
    ensures res.Success? ==> |res.value| == |draws|
    ensures res.Success? ==> forall i :: 0 <= i < |res.value| ==> res.value[i] == AdditionRow(draws[i])
    ensures res.Success? ==> forall i :: 0 <= i < |res.value| ==>
      ReadsBackAs(res.value[i], draws[i]) && InRange(draws[i], minVal, maxVal)
  {
    if |draws| > 0 && minVal > maxVal {
      return Failure(EmptyRange(minVal, maxVal));
    }
    var rows := seq(|draws|, k requires 0 <= k < |draws| => AdditionRow(draws[k]));
    AdditionRowsReadBack(rows, draws);
    return Success(rows);
  }
}
