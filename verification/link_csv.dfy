/** The link-classification table: one row per non-blank line of a links
    file, asking whether the link is a funding-opportunity website. The
    answer column is left empty for manual labelling. */
module LinkCsv {
  import opened Results
  import opened Text
  import opened QaRows

  const QuestionPrefix: string := "Is the following link: "
  const QuestionSuffix: string := " a website of a funding opportunity?"

  /** `[line.strip() for line in lines]` */
  function StripAll(lines: seq<string>): (r: seq<string>)
    ensures |r| == |lines|
    ensures forall i :: 0 <= i < |lines| ==> r[i] == Strip(lines[i])
  {
    seq(|lines|, i requires 0 <= i < |lines| => Strip(lines[i]))
  }

  /** `[s for s in xs if s]`: the non-empty strings, in order. */
  function NonEmpty(xs: seq<string>): (r: seq<string>)
    ensures |r| <= |xs|
    ensures forall i :: 0 <= i < |r| ==> |r[i]| > 0
    decreases |xs|
  {
    if |xs| == 0 then []
    else (if |xs[0]| > 0 then [xs[0]] else []) + NonEmpty(xs[1..])
  }

  /** `[line.strip() for line in lines if line.strip()]` */
  function KeptLinks(lines: seq<string>): (links: seq<string>)
    ensures |links| <= |lines|
    ensures forall i :: 0 <= i < |links| ==> |links[i]| > 0 && Trimmed(links[i])
  {
    var stripped := StripAll(lines);
    var links := NonEmpty(stripped);
    forall i | 0 <= i < |links|
      ensures Trimmed(links[i])
    {
      NonEmptyMembers(stripped, links[i]);
    }
    links
  }

  /** The filter keeps exactly the non-empty strings. */
  lemma {:induction false} NonEmptyMembers(xs: seq<string>, x: string)
    ensures x in NonEmpty(xs) <==> x in xs && |x| > 0
    decreases |xs|
  {
    if |xs| > 0 {
      NonEmptyMembers(xs[1..], x);
      assert x in xs <==> x == xs[0] || x in xs[1..];
    }
  }

  lemma {:induction false} NonEmptyAppend(a: seq<string>, b: seq<string>)
    ensures NonEmpty(a + b) == NonEmpty(a) + NonEmpty(b)
    decreases |a|
  {
    if |a| > 0 {
      NonEmptyAppend(a[1..], b);
      assert (a + b)[1..] == a[1..] + b;
    } else {
      assert a + b == b;
    }
  }

  /** Filtering works line by line: the links of two stretches of lines are
      the links of the first followed by those of the second, so the links
      keep the order of their lines. */
  lemma KeptLinksAppend(a: seq<string>, b: seq<string>)
    ensures KeptLinks(a + b) == KeptLinks(a) + KeptLinks(b)
  {
    StripAllAppend(a, b);
    NonEmptyAppend(StripAll(a), StripAll(b));
  }

  lemma StripAllAppend(a: seq<string>, b: seq<string>)
    ensures StripAll(a + b) == StripAll(a) + StripAll(b)
  {
    var ab := a + b;
    var sa, sb, sab := StripAll(a), StripAll(b), StripAll(ab);
    var joined := sa + sb;
    assert |sab| == |joined|;
    forall i | 0 <= i < |sab|
      ensures sab[i] == joined[i]
    {
      if i < |a| {
        assert ab[i] == a[i] && joined[i] == sa[i];
      } else {
        assert ab[i] == b[i - |a|] && joined[i] == sb[i - |a|];
      }
    }
  }

  /** What a single line contributes: its stripped form, or nothing when that
      is empty. */
  lemma KeptLinksOfLine(line: string)
    ensures KeptLinks([line]) == if |Strip(line)| > 0 then [Strip(line)] else []
  {
    assert StripAll([line]) == [Strip(line)];
  }

  /** A link is kept exactly when it is the non-empty stripped form of some
      line. */
  lemma KeptLinksMembers(lines: seq<string>, x: string)
    ensures x in KeptLinks(lines) <==> |x| > 0 && exists i | 0 <= i < |lines| :: Strip(lines[i]) == x
  {
    var stripped := StripAll(lines);
    NonEmptyMembers(stripped, x);
    if x in stripped {
      var i :| 0 <= i < |stripped| && stripped[i] == x;
      assert Strip(lines[i]) == x;
    }
  }

  /** A list of clean links (non-empty, no surrounding whitespace) passes
      through unchanged, so filtering twice is filtering once. */
  lemma {:induction false} NonEmptyOfNonEmpty(xs: seq<string>)
    requires forall i :: 0 <= i < |xs| ==> |xs[i]| > 0
    ensures NonEmpty(xs) == xs
    decreases |xs|
  {
    if |xs| > 0 {
      NonEmptyOfNonEmpty(xs[1..]);
    }
  }

  lemma KeptLinksOfClean(lines: seq<string>)
    requires forall i :: 0 <= i < |lines| ==> |lines[i]| > 0 && Trimmed(lines[i])
    ensures KeptLinks(lines) == lines
  {
    forall i | 0 <= i < |lines|
      ensures Strip(lines[i]) == lines[i]
    {
      StripOfTrimmed(lines[i]);
    }
    assert StripAll(lines) == lines;
    NonEmptyOfNonEmpty(lines);
  }

  lemma KeptLinksIdempotent(lines: seq<string>)
    ensures KeptLinks(KeptLinks(lines)) == KeptLinks(lines)
  {
    KeptLinksOfClean(KeptLinks(lines));
  }

  /** `f"Is the following link: {link} a website of a funding opportunity?"` */
  function LinkQuestion(link: string): (q: string)
    ensures |q| == |QuestionPrefix| + |link| + |QuestionSuffix|
    ensures q[|QuestionPrefix|..|QuestionPrefix| + |link|] == link
  {
    QuestionPrefix + link + QuestionSuffix
  }

  /** Recovers the link from a question built by `LinkQuestion`. */
  function LinkOfQuestion(question: string): Option<string> {
    match DropPrefix(question, QuestionPrefix)
    case None => None
    case Some(rest) => DropSuffix(rest, QuestionSuffix)
  }

  /** The question names its link unambiguously. */
  lemma LinkQuestionRoundTrip(link: string)
    ensures LinkOfQuestion(LinkQuestion(link)) == Some(link)
  {
    var q := LinkQuestion(link);
    assert q == QuestionPrefix + (link + QuestionSuffix);
    assert q[|QuestionPrefix|..] == link + QuestionSuffix;
  }

  function LinkRow(link: string): QaRow {
    QaRow(link, LinkQuestion(link), "")
  }

  /** `generate_link_classification_csv` without the file I/O: the lines of
      the links file in, the table's rows out. */
  method LinkClassificationRows(lines: seq<string>) returns (rows: seq<QaRow>)
    ensures |rows| == |KeptLinks(lines)|
    ensures forall i :: 0 <= i < |rows| ==> rows[i].context == KeptLinks(lines)[i]
    ensures forall i :: 0 <= i < |rows| ==> LinkOfQuestion(rows[i].question) == Some(rows[i].context)
    ensures forall i :: 0 <= i < |rows| ==> rows[i].answer == ""
  {
    var links := KeptLinks(lines);
    rows := [];
    var i := 0;
    while i < |links|
      invariant 0 <= i <= |links|
      invariant |rows| == i
      invariant forall k :: 0 <= k < i ==> rows[k] == LinkRow(links[k])
    {
      rows := rows + [LinkRow(links[i])];
      i := i + 1;
    }
    forall k | 0 <= k < |rows|
      ensures LinkOfQuestion(rows[k].question) == Some(rows[k].context)
    {
      LinkQuestionRoundTrip(links[k]);
    }
  }
}
