# LLM-DSPy-Classifier dataset and evaluation core in Dafny

This project models the parts of the LLM-DSPy-Classifier repository that
contain logic rather than calls to a language-model service:

- **the synthetic sports-article generator** (`src/data_generator.py`). It
  writes fake match reports with a planted spurious correlation: when a
  "pre-game ceremony" sentence is added and the Blue Lions play, the Blue
  Lions win, whatever the team strengths say. Otherwise the jittered strengths
  decide, and a tie goes to the home team. It also builds datasets of articles
  numbered 1..N (module `SportsData`);
- **the question-answering scorer** `evaluate_qa` (`src/evaluation.py`). Two
  answers match when, after lower-casing and stripping, either one contains the
  other. It reports accuracy, correct and total (module `Evaluation`);
- **the error-pattern analysis** `analyze_error_patterns` (`src/analysis.py`).
  Each prediction is joined to its article by id. Errors are then tallied
  separately for articles with and without the ceremony sentence (module
  `ErrorAnalysis`);
- **the dataset scripts**, each of which writes a `context, question, answer`
  table (module `QaRows`):
  - the link table: one row per non-blank line (module `LinkCsv`);
  - the HTML and Markdown content tables, whose label comes from the file name
    (`html_1_yes.txt` is labelled "yes"). Each call appends one row to the
    table or creates it (module `ContentCsv`);
  - the addition-question table (module `MathCsv`).

Python's string operations live in module `Text`:

- `str.strip()`, over the whole whitespace set of `str.isspace`;
- `str.lower()`, for ASCII letters;
- `in` on strings;
- `str.split` and `sep.join`;
- slicing with a negative bound;
- `str(int)` and its inverse.

The zero-guarded ratio `a / b if b > 0 else 0` lives in `Rates`.

Randomness, the clock and the file system are not part of the model. Instead:

- every `random` draw of `generate_article` is a field of a `Draws` record, and
  the precondition `ValidDraws` gives the range each draw is taken from;
- the `randint` pairs of the math script are a sequence of `Operands`;
- the formatted game date is an input;
- an existing CSV file is an `Option` of its rows;
- the text BeautifulSoup extracts is an input, and `None` stands for the
  parser raising.

The generator is stated over any registry of distinct team names.
`SourceRegistryIsDecodable` shows that the repository's own five-team registry
meets every requirement placed on a registry.

## Model

| member | source | states |
|---|---|---|
| SportsData.SourceRegistryIsDecodable | src/data_generator.py:12-18 | The fixed five-team registry has distinct names with distinct capital initials, so a title names its teams unambiguously. |
| SportsData.OtherTeamsMembers | src/data_generator.py:35 | The away-team candidates are exactly the registry teams whose name differs from the home team's. |
| SportsData.OtherTeamsCount | src/data_generator.py:33-35 | Removing the home team from a registry of distinct names leaves one candidate fewer, so the away-team draw always has a choice. |
| SportsData.AwayTeam | src/data_generator.py:34-35 | The drawn away team is a registry team other than the home team. |
| SportsData.DecideOutcome | src/data_generator.py:41-52 | The winner and loser are the two playing teams, in some order. When the ceremony is planted and the Blue Lions play, they win. Otherwise the home team wins exactly when its jittered strength is at least the away team's, so ties go to the home team. |
| SportsData.UnderdogNeedsHomeTie | src/data_generator.py:46-52 | Without the ceremony, the weakest team (Purple Knights) beats the strongest (Blue Lions) only by playing at home with jitters +2 against -2, which is a tie. |
| SportsData.MatchOutcome | src/data_generator.py:33-52 | For drawn teams: the planted rule decides whenever it applies; otherwise the home team wins exactly when its jittered strength is at least the away team's. |
| SportsData.Sentences | src/data_generator.py:66-79 | The intro comes first, the form sentence second and the closing sentence last. There are four sentences with the ceremony sentence third when one is planted, and three otherwise. |
| SportsData.NotACeremonyVariant | src/data_generator.py:22-28 | No ceremony sentence begins like the intro, performance or closing sentence, so the ceremony text cannot be confused with them. |
| SportsData.CeremonyMentionedIffPlanted | src/data_generator.py:66-79 | An article's sentences include a ceremony variant if and only if one was planted. |
| SportsData.ContentContainsCeremony | src/data_generator.py:82 | The planted sentence is a substring of the space-joined content. |
| SportsData.TitleRoundTrip | src/data_generator.py:63 | A title decodes back to its winner, loser and both scores: the title determines the result. |
| SportsData.ScoresRoundTrip | src/data_generator.py:63 | The one-digit score part of a title reads back as the two scores. |
| SportsData.TitleOpening | src/data_generator.py:63 | A title opens with the winner, " Defeats " and the loser. |
| SportsData.TitleClosing | src/data_generator.py:63 | A title ends with " in Exciting Match", and holds more than that ending. |
| SportsData.IntroSentence | src/data_generator.py:69 | The intro sentence opens with "In a thrilling game on " followed by the game date. |
| SportsData.FormSentence | src/data_generator.py:72 | The form sentence opens with "The " followed by the winner's name. |
| SportsData.ClosingSentence | src/data_generator.py:79 | The closing sentence opens with "This victory puts " followed by the winner's name. |
| SportsData.GenerateArticle | src/data_generator.py:30-93 | The article carries the given id and the drawn home and away teams, which are distinct. Its winner and loser are the decided outcome, its flag is the ceremony draw, and its date is the drawn date. |
| SportsData.GeneratedArticleText | src/data_generator.py:63-82 | The title and the content follow the templates with the decided winner and loser, and the content mentions a ceremony exactly when the flag is set. |
| SportsData.GeneratedArticleIsConsistent | src/data_generator.py:30-93 | Every generated article has distinct registered teams and a winner among them, and obeys the planted rule. Its title decodes to winner, loser and scores with 1 <= winner score <= 5 and loser score below it, and a set flag means a ceremony sentence occurs in the content. |
| SportsData.DatasetIsConsistent | src/data_generator.py:95-100 | Every article of a generated dataset satisfies the per-article invariants. |
| SportsData.BuildInOrder | src/data_generator.py:97-100 | The loop that appends in order yields the n items, item i at position i. |
| SportsData.GenerateDataset | src/data_generator.py:95-100 | A dataset has one article per draw, numbered 1..N in order (none for a non-positive count), and the i-th is generated from the i-th draws. |
| Evaluation.EvaluateQa | src/evaluation.py:6-37 | Lists of different lengths fail with both lengths. Otherwise the result reports the pair count as total, the number of matching pairs as correct, and correct/total as accuracy (0 for no pairs). |
| Evaluation.CorrectBounds | src/evaluation.py:20-29 | The correct count never exceeds the total. It equals the total exactly when every pair matches, and is zero exactly when no pair does. |
| Evaluation.CountCorrectAppend | src/evaluation.py:23-29 | Scoring is additive: the correct count of two concatenated batches is the sum of their counts. |
| Evaluation.NormalizeBlank | src/evaluation.py:25-26 | A whitespace-only answer normalises to the empty string. |
| Evaluation.BlankPredictionIsCorrect | src/evaluation.py:25-28 | A missing, empty or whitespace-only prediction counts as correct against any reference, because the empty string is in every string. |
| Evaluation.NormalizeIgnoresCaseAndPadding | src/evaluation.py:25-26 | Normalisation forgets ASCII letter case and surrounding whitespace. |
| Evaluation.VerdictIgnoresCaseAndPadding | src/evaluation.py:25-28 | The verdict on a pair does not change when either answer is re-cased or re-padded. |
| Evaluation.MatchSymmetricReflexive | src/evaluation.py:28 | The matching rule is symmetric in prediction and reference and accepts every answer against itself. |
| Evaluation.Normalize | src/evaluation.py:25-26 | The normalised answer has no surrounding whitespace, is no longer than the raw answer, and holds no upper-case ASCII letter. |
| Rates.GuardedRateMeaning | src/evaluation.py:31 | A zero-guarded rate is 0 without a denominator. Otherwise it is the fraction num/den. It is never negative, and at most 1 when the part does not exceed the whole. |
| Text.Strip | src/evaluation.py:25-26 | A stripped string neither starts nor ends with whitespace. |
| Text.StripWindow | src/evaluation.py:25-26 | The stripped string is the text of the input after its leading whitespace, followed only by whitespace. |
| Text.StripUnique | src/evaluation.py:25-26 | The stripped string is the only trimmed string that the input holds between runs of whitespace. |
| Text.StripIdempotent | src/evaluation.py:25-26 | Stripping twice is stripping once. |
| Text.StripBlank | src/evaluation.py:25-26 | A whitespace-only string strips to the empty string. |
| Text.StripPadded | src/evaluation.py:25-26 | Adding whitespace on either side does not change what strip returns. |
| Text.LowerForgetsCase | src/evaluation.py:25 | Lower-casing leaves no upper-case ASCII letter, and an earlier change of case makes no difference. |
| Text.Lower | src/evaluation.py:25 | Lower-casing keeps the length and maps each character on its own: an ASCII capital to its small letter, anything else to itself. |
| Text.ContainsTrivial | src/evaluation.py:28 | Every string contains the empty string and itself. |
| Text.Contains | src/evaluation.py:28 | A contained string is never longer than its container, and every prefix of a string is contained in it. |
| Text.JoinLast | src/data_generator.py:82 | Joining one part gives that part. Joining several gives the join of all but the last, then the separator, then the last part. |
| Text.SliceTo | src/generate_html_content_classification_csv.py:15 | Python's `text[:n]` is a prefix: of length min(n, len) for n >= 0, and len+n (at least 0) for a negative n. |
| Text.Split | src/generate_html_content_classification_csv.py:31 | `split` on one character gives at least one part, no part holds the separator, and joining the parts with it restores the string. |
| Text.LastSegment | src/generate_html_content_classification_csv.py:31 | The last piece is a separator-free suffix that directly follows the last separator, or the whole string when there is none. |
| Text.LastSegmentIsLastPart | src/generate_html_content_classification_csv.py:31 | The last piece is the last element of `split`. |
| Text.IntToStringRoundTrip | src/generate_math_dataset.py:15 | `str(i)` reads back as `i` for every integer, negative ones included. |
| Text.IntToString | src/generate_math_dataset.py:15 | `str(i)` is non-empty and made of digits and '-' only, so it holds no space and no '+'. |
| ErrorAnalysis.FindArticle | src/analysis.py:49 | A found article is a row of the dataset that carries the requested id. |
| ErrorAnalysis.FindArticleFirst | src/analysis.py:49 | The id lookup fails exactly when no row carries the id. Otherwise it returns the first row that does, as `.iloc[0]` does. |
| ErrorAnalysis.CeremonyFlags | src/analysis.py:47-52 | A successful join has one ceremony flag per prediction. |
| ErrorAnalysis.CeremonyFlagsJoin | src/analysis.py:47-52 | The join succeeds exactly when every prediction's id is in the dataset. It then holds, for each prediction in order, its article's ceremony flag. |
| ErrorAnalysis.CeremonyFlagsFirstMissing | src/analysis.py:47-49 | When the join fails, the error names the id of the first prediction that has no article. |
| ErrorAnalysis.TallyOf | src/analysis.py:47-61 | After the loop, the two group totals add up to the number of predictions and each group's errors are at most its total. |
| ErrorAnalysis.TallyCounts | src/analysis.py:47-61 | Each counter counts what its name says. The with-ceremony total is the number of flagged articles and each error counter the number of incorrect predictions in its group, so the two error counters together count all incorrect predictions. |
| ErrorAnalysis.AnalyzeErrorPatterns | src/analysis.py:39-81 | The analysis fails, naming the first missing id, exactly when the join fails. Otherwise it reports the two zero-guarded error rates and the two totals of the tally of the joined flags. |
| ErrorAnalysis.ReportPartitionsPredictions | src/analysis.py:47-65 | When every id is found, the groups partition the predictions and the errors partition the incorrect ones. Each rate lies in [0, 1] and is 0 for an empty group. |
| ErrorAnalysis.CeremonyGroupIsFlaggedArticles | src/analysis.py:49-54 | A prediction lands in the ceremony group exactly when the first dataset row with its id has the ceremony flag. |
| LinkCsv.NonEmpty | src/generate_link_classification_csv.py:11 | The filter keeps no empty string and never lengthens the list. |
| LinkCsv.NonEmptyMembers | src/generate_link_classification_csv.py:11 | The filter keeps exactly the non-empty strings. |
| LinkCsv.KeptLinks | src/generate_link_classification_csv.py:11 | Every kept link is non-empty and has no surrounding whitespace, and there are at most as many links as lines. |
| LinkCsv.KeptLinksMembers | src/generate_link_classification_csv.py:11 | A string is a kept link exactly when it is the non-empty stripped form of some line. |
| LinkCsv.KeptLinksAppend | src/generate_link_classification_csv.py:11 | Filtering works line by line: the links of two stretches of lines are those of the first followed by those of the second. |
| LinkCsv.KeptLinksOfLine | src/generate_link_classification_csv.py:11 | A single line contributes its stripped form, or nothing when that is empty. |
| LinkCsv.KeptLinksIdempotent | src/generate_link_classification_csv.py:11 | Filtering a list of kept links changes nothing. |
| LinkCsv.LinkQuestion | src/generate_link_classification_csv.py:18 | The question holds the link verbatim between the fixed opening and the fixed closing text. |
| LinkCsv.LinkQuestionRoundTrip | src/generate_link_classification_csv.py:18 | The question names its link unambiguously: the link can be read back out of it. |
| LinkCsv.LinkClassificationRows | src/generate_link_classification_csv.py:4-20 | There is one row per kept link, in order. Each row's context is the link, its question reads back as that link, and its answer is empty. |
| ContentCsv.Basename | src/generate_html_content_classification_csv.py:31 | The base name is a '/'-free suffix of the path. It is the whole path when the path has no '/', and otherwise directly follows a '/'. |
| ContentCsv.Stem | src/generate_html_content_classification_csv.py:31 | The stem is a prefix of the name. When it is shorter, a '.' follows it, no later '.' occurs, and it is not made only of dots. A name without '.' is its own stem. |
| ContentCsv.StemDropsExtension | src/generate_html_content_classification_csv.py:31 | When a character other than '.' comes before the last '.', the stem is everything before that dot: the extension is removed. |
| ContentCsv.FileLabel | src/generate_html_content_classification_csv.py:31 | The label holds no '_'. |
| ContentCsv.FileLabelOfPlainStem | src/generate_html_content_classification_csv.py:31 | A file whose extension-stripped base name holds no '_' is labelled with that whole stem. |
| ContentCsv.LabelOfLabelledName | src/generate_html_content_classification_csv.py:30-31 | A file named `<prefix>_<tag>.<ext>`, alone or inside a directory, is labelled with its tag. |
| ContentCsv.HtmlLabelExample | src/generate_html_content_classification_csv.py:30-31 | `html_1_yes.txt` is labelled "yes". |
| ContentCsv.MdLabelExample | src/generate_md_content_classification_csv.py:12-13 | `md_1_yes.md` is labelled "yes". |
| ContentCsv.ExtractText | src/generate_html_content_classification_csv.py:6-18 | A parser failure gives "". Otherwise the result is a prefix of the parsed text, truncated to the limit as Python's slice does, for either sign of the limit. |
| ContentCsv.ExtractTextStable | src/generate_html_content_classification_csv.py:15 | Text within the limit is kept whole, and truncating twice is truncating once. |
| ContentCsv.HtmlTable | src/generate_html_content_classification_csv.py:21-49 | The table keeps the existing rows and adds one last. That row's context is the page text cut at the default limit of 2000 characters, its question is the fixed HTML question, and its answer is the file's label. |
| ContentCsv.MdTable | src/generate_md_content_classification_csv.py:4-31 | The table keeps the existing rows and adds one last, holding the Markdown text, the fixed question and the file's label. |
| ContentCsv.MdFilesOfKeepsMdFiles | src/generate_md_content_classification_csv.py:37 | A listed file is read exactly when its name ends in `.md`. |
| ContentCsv.MdFilesAppend | src/generate_md_content_classification_csv.py:37 | The Markdown files of two stretches of a listing are those of the first followed by those of the second. |
| ContentCsv.MdFilesOfMdFiles | src/generate_md_content_classification_csv.py:37 | A listing of Markdown files only is kept whole, in order. |
| ContentCsv.MdRows | src/generate_md_content_classification_csv.py:37-44 | The main loop never adds more rows than there are listed files. |
| ContentCsv.MdRowsAppend | src/generate_md_content_classification_csv.py:37-44 | The rows of two stretches of a listing are those of the first followed by those of the second, so rows follow the listing order. |
| ContentCsv.MdRowsOfFile | src/generate_md_content_classification_csv.py:13-18 | One listed file gives one row when its name ends in `.md`: its text, the fixed Markdown question and its label. Any other file gives nothing. |
| ContentCsv.MdRowsOfMdFiles | src/generate_md_content_classification_csv.py:37-44 | A listing of Markdown files only gives one row per file in listing order. The i-th row holds the i-th file's text, the fixed question and that file's label. |
| ContentCsv.MdDirectoryTable | src/generate_md_content_classification_csv.py:34-44 | After the CSV is removed and every `.md` file is appended, the table holds exactly one row per Markdown file, in order. It does not exist when there is no Markdown file. |
| QaRows.AppendRow | src/generate_html_content_classification_csv.py:43-47 | Appending keeps the existing table as a prefix and adds the new row last. Without a table the result is the new row alone. |
| QaRows.AppendAllBuildsTable | src/generate_md_content_classification_csv.py:40-44 | Appending rows one call at a time to an absent table gives exactly those rows in order. An existing table stays as a prefix. |
| MathCsv.AdditionQuestionRoundTrip | src/generate_math_dataset.py:14 | The question "What is a + b?" reads back as its two operands, negative ones included. |
| MathCsv.AdditionAnswerIsSum | src/generate_math_dataset.py:15 | The answer column reads back as the sum of the operands. |
| MathCsv.AdditionRowReadsBack | src/generate_math_dataset.py:14-16 | A row's context is "question", its question reads back as the two operands, and its answer reads back as their sum. |
| MathCsv.AdditionRowsReadBack | src/generate_math_dataset.py:11-16 | Every row built from a draw asks for, and answers, that draw's sum. |
| MathCsv.GenerateAdditionQuestions | src/generate_math_dataset.py:5-16 | An empty range fails, naming it, exactly when at least one question is asked. Otherwise there is one row per draw, and the i-th row is the row built from the i-th draw. Each row's operands lie in the range and read back from its question, and its answer reads back as their sum. |

## Left out

- File and console I/O: reading links, HTML, Markdown and CSV files, `to_csv`, `os.makedirs`, `os.path.exists`, `os.remove` and every `print`. An existing CSV file is an optional sequence of rows, and a written one is the returned rows.
- CSV quoting and pandas `read_csv` type inference: a table is a sequence of three-string rows.
- Randomness: `random.choice`, `random.random() < 0.4` and `randint` become explicit draws (`Draws`, `Operands`), constrained only to their ranges. Probabilities, such as the 40% ceremony rate, are not modelled.
- SportsData.GenerateArticle: the ceremony variant is the drawn string itself, constrained to the five variants by `DrawsVariant`, rather than an index into the list.
- SportsData.GenerateArticle: the clock reading and `strftime`, which turn `days_ago` into the date, are outside the model. The formatted date is an input, and `days_ago` is only range-checked.
- SportsData.DecodableRegistry: decoding titles relies on distinct capital initials, which the fixed registry has. Registries without them are not covered by the title lemmas.
- Rates.GuardedRate: Python divides in floating point; here the rate is the exact rational quotient.
- ErrorAnalysis.AnalyzeErrorPatterns: the printed "influenced by the spurious correlation" verdict is output only. The report also carries the two error counts, which the returned dictionary does not.
- ErrorAnalysis.Prediction: a prediction without an `article_id` or `is_correct` key (a `KeyError`), and non-boolean `is_correct` values, are not modelled.
- Evaluation.AnswerRecord: an answer value that is not a string (for which `.lower()` raises) is not modelled; a missing key reads as "".
- Text.Lower: case mapping covers the ASCII letters only. Python's `str.lower()` also maps other Unicode letters.
- ContentCsv.FileLabel: its own contract states only that the label has no '_'. The label is characterised only for names of the form `<prefix>_<tag>.<ext>`, with no '_' or '.' in the tag and no '.' in the extension (`ContentCsv.LabelOfLabelledName`), and for stems without '_' (`ContentCsv.FileLabelOfPlainStem`, with `ContentCsv.StemDropsExtension` giving the stem). Other names, such as ones whose tag holds a '.', have no lemma of their own.
- ContentCsv.Stem: models `os.path.splitext` on a base name only (always so in the scripts), not on paths that still hold directories.
- ContentCsv.ExtractText: BeautifulSoup parsing and the removal of `script` and `style` tags are outside the model. The parsed text is an input, or `None` when the parser raised.
- ContentCsv.MdRows: the directory listing is taken in the given order. The `sort()` in the Markdown script's main block is not modelled. Its own contract bounds only the row count; the rows themselves are stated by `ContentCsv.MdRowsOfFile`, `ContentCsv.MdRowsAppend` and `ContentCsv.MdRowsOfMdFiles`.
- `print_evaluation_results`, `plot_accuracy_comparison`, `save_results` and the analysis `main`: output only.
- The language-model clients, the prompting and optimisation modules, `html2md.py`, `generate_link_content_csv.py`, `main.py`, `config.py` and `data_utils.py` are not part of this model.
