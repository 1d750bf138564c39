/** The HTML- and Markdown-content classification tables. Each processed file
    adds one row: the page text as context, a fixed question, and as answer
    the label carried by the file name (`html_1_yes.txt` is labelled "yes").
    The table file is appended to when it exists and created otherwise. */
module ContentCsv {
  import opened Results
  import opened Text
  import opened QaRows

  /** `max_length`'s default in `extract_text_from_html`. */
  const DefaultMaxLength: int := 2000

  const HtmlQuestion: string := "Is the following HTML page a website of a funding opportunity?"
  const MdQuestion: string := "Is the following Markdown page a website of a funding opportunity?"

  // ---------------------------------------------------------------------------
  // Labels from file names
  // ---------------------------------------------------------------------------

  /** `os.path.basename(path)`: the part after the last '/'. */
  function Basename(path: string): (r: string)
    ensures '/' !in r
    ensures |r| <= |path| && r == path[|path| - |r|..]
    ensures '/' !in path ==> r == path
    ensures '/' in path ==> |r| < |path| && path[|path| - |r| - 1] == '/'
  {
    LastSegment(path, '/')
  }

  /** `os.path.splitext(name)[0]` for a name without '/': everything before
      the last '.', unless only dots precede it (so `.bashrc` has no
      extension). */
  function Stem(name: string): (r: string)
    ensures r <= name
    ensures r != name ==> && name[|r|] == '.' && '.' !in name[|r| + 1..]
                          && exists j | 0 <= j < |r| :: r[j] != '.'
    ensures '.' !in name ==> r == name
  {
    match LastIndexOf(name, '.')
    case None => name
    case Some(d) =>
      if exists j | 0 <= j < d :: name[j] != '.' then
        assert name[..d] <= name;
        name[..d]
      else name
  }

  /** The extension is removed whenever some character other than '.'
      precedes the last '.': the stem is then everything before that dot. */
  lemma StemDropsExtension(name: string, d: int, j: int)
    requires 0 <= j < d < |name| && name[d] == '.' && '.' !in name[d + 1..] && name[j] != '.'
    ensures Stem(name) == name[..d]
  {
    LastIndexOfUnique(name, '.', d);
  }

  /** `os.path.splitext(os.path.basename(path))[0].split('_')[-1]` */
  function FileLabel(path: string): (r: string)
    ensures '_' !in r
  {
    LastSegment(Stem(Basename(path)), '_')
  }

  /** A file whose stem has no '_' is labelled with its whole stem. */
  lemma FileLabelOfPlainStem(path: string)
    requires '_' !in Stem(Basename(path))
    ensures FileLabel(path) == Stem(Basename(path))
  {
  }

  /** The last occurrence of a character that does not occur later. */
  lemma LastIndexAfter(a: string, c: char, b: string)
    requires c !in b
    ensures LastIndexOf(a + [c] + b, c) == Some(|a|)
  {
    var s := a + [c] + b;
    assert s[|a| + 1..] == b;
    LastIndexOfUnique(s, c, |a|);
  }

  /** The file-name convention the scripts expect: `<prefix>_<tag>.<ext>`. */
  function LabelledName(prefix: string, tag: string, ext: string): string {
    prefix + "_" + tag + "." + ext
  }

  /** The label convention round-trips: a file named
      `<prefix>_<tag>.<ext>`, alone or in a directory, is labelled `<tag>`,
      provided the tag has no '_' or '.' and the extension no '.'. */
  lemma LabelOfLabelledName(dir: string, prefix: string, tag: string, ext: string)
    requires '/' !in prefix && '/' !in tag && '/' !in ext
    requires '_' !in tag && '.' !in tag && '.' !in ext
    ensures FileLabel(LabelledName(prefix, tag, ext)) == tag
    ensures FileLabel(dir + "/" + LabelledName(prefix, tag, ext)) == tag
  {
    var base := prefix + "_" + tag;
    var name := LabelledName(prefix, tag, ext);
    assert '/' !in name;
    assert Basename(name) == name;
    BasenameAfterDir(dir, name);
    StemOfBase(prefix, tag, ext);
    LastSegmentAfter(prefix, '_', tag);
    assert base == prefix + ['_'] + tag;
  }

  /** The name the HTML script's comment gives as an example. */
  lemma HtmlLabelExample(name: string)
    requires name == "html_1_yes.txt"
    ensures FileLabel(name) == "yes"
  {
    assert name == LabelledName("html_1", "yes", "txt");
    LabelOfLabelledName("", "html_1", "yes", "txt");
  }

  /** The name the Markdown script's comment gives as an example. */
  lemma MdLabelExample(name: string)
    requires name == "md_1_yes.md"
    ensures FileLabel(name) == "yes"
  {
    assert name == LabelledName("md_1", "yes", "md");
    LabelOfLabelledName("", "md_1", "yes", "md");
  }

  lemma BasenameAfterDir(dir: string, name: string)
    requires '/' !in name
    ensures Basename(dir + "/" + name) == name
  {
    LastSegmentAfter(dir, '/', name);
    assert dir + "/" + name == dir + ['/'] + name;
  }

  lemma StemOfBase(prefix: string, tag: string, ext: string)
    requires '.' !in tag && '.' !in ext
    ensures Stem(prefix + "_" + tag + "." + ext) == prefix + "_" + tag
  {
    var base := prefix + "_" + tag;
    var name := base + "." + ext;
    assert '.' !in ext;
    LastIndexAfter(base, '.', ext);
    assert name == base + ['.'] + ext;
    assert name[|prefix|] == '_';
  }

  // ---------------------------------------------------------------------------
  // Extracted page text
  // ---------------------------------------------------------------------------

  /** `extract_text_from_html(html, max_length)`. `parsed` is the text the HTML
      parser extracts, or `None` when parsing raised (the function then
      returns ""). */
  function ExtractText(parsed: Option<string>, maxLength: int): (r: string)
    ensures parsed.None? ==> r == ""
    ensures parsed.Some? ==> r <= parsed.value
    ensures maxLength >= 0 ==> |r| <= maxLength
    ensures parsed.Some? && maxLength >= 0 ==>
      |r| == if |parsed.value| <= maxLength then |parsed.value| else maxLength
    ensures parsed.Some? && maxLength < 0 ==>
      |r| == if |parsed.value| + maxLength >= 0 then |parsed.value| + maxLength else 0
  {
    match parsed
    case None => ""
    case Some(text) => SliceTo(text, maxLength)
  }

  /** Truncating an already truncated text changes nothing, and text within
      the limit is kept whole. */
  lemma ExtractTextStable(text: string, maxLength: int)
    requires maxLength >= 0
    ensures |text| <= maxLength ==> ExtractText(Some(text), maxLength) == text
    ensures ExtractText(Some(ExtractText(Some(text), maxLength)), maxLength) == ExtractText(Some(text), maxLength)
  {
  }

  // ---------------------------------------------------------------------------
  // Rows and tables
  // ---------------------------------------------------------------------------

  function HtmlRow(parsed: Option<string>, path: string): QaRow {
    QaRow(ExtractText(parsed, DefaultMaxLength), HtmlQuestion, FileLabel(path))
  }

  /** `generate_html_content_classification_csv(path, csv)` on the table the
      CSV file holds (`None` when it does not exist). */
  function HtmlTable(existing: Option<seq<QaRow>>, parsed: Option<string>, path: string): (rows: seq<QaRow>)
    ensures |rows| == |existing.GetOr([])| + 1
    ensures rows[..|rows| - 1] == existing.GetOr([])
    ensures var row := rows[|rows| - 1];
      && row.context == ExtractText(parsed, DefaultMaxLength)
      && |row.context| <= DefaultMaxLength
      && (parsed.Some? ==> row.context <= parsed.value)
      && row.question == HtmlQuestion
      && row.answer == FileLabel(path)
  {
    AppendRow(existing, HtmlRow(parsed, path))
  }

  /** One Markdown row: the file's text, the fixed question, and the label
      taken from the path. */
  function MdRow(content: string, path: string): QaRow {
    QaRow(content, MdQuestion, FileLabel(path))
  }

  /** `generate_md_content_classification_csv(path, csv)` on the table the CSV
      file holds. */
  function MdTable(existing: Option<seq<QaRow>>, content: string, path: string): (rows: seq<QaRow>)
    ensures |rows| == |existing.GetOr([])| + 1
    ensures rows[..|rows| - 1] == existing.GetOr([])
    ensures rows[|rows| - 1] == QaRow(content, MdQuestion, FileLabel(path))
  {
    AppendRow(existing, MdRow(content, path))
  }

  /** A Markdown file of the input directory. */
  datatype MdFile = MdFile(name: string, content: string)

  /** `f.endswith('.md')` */
  predicate IsMdName(name: string) {
    |name| >= 3 && name[|name| - 3..] == ".md"
  }

  /** The files of the listing the main loop reads: those whose name ends
      in `.md`, in listing order. */
  function MdFilesOf(files: seq<MdFile>): (md: seq<MdFile>)
    ensures |md| <= |files|
    decreases |files|
  {
    if |files| == 0 then []
    else (if IsMdName(files[0].name) then [files[0]] else []) + MdFilesOf(files[1..])
  }

  /** The rows the script's main loop appends: one per `.md` file, in
      listing order. */
  function MdRows(dir: string, files: seq<MdFile>): (rows: seq<QaRow>)
    ensures |rows| <= |files|
  {
    var md := MdFilesOf(files);
    seq(|md|, i requires 0 <= i < |md| => MdRow(md[i].content, dir + "/" + md[i].name))
  }

  /** A file is read exactly when it is listed and its name ends in `.md`. */
  lemma {:induction false} MdFilesOfKeepsMdFiles(files: seq<MdFile>, f: MdFile)
    ensures f in MdFilesOf(files) <==> f in files && IsMdName(f.name)
    decreases |files|
  {
    if |files| > 0 {
      MdFilesOfKeepsMdFiles(files[1..], f);
      assert files == [files[0]] + files[1..];
    }
  }

  /** Filtering two stretches of the listing is filtering each in turn. */
  lemma {:induction false} MdFilesAppend(a: seq<MdFile>, b: seq<MdFile>)
    ensures MdFilesOf(a + b) == MdFilesOf(a) + MdFilesOf(b)
    decreases |a|
  {
    if |a| > 0 {
      assert (a + b)[0] == a[0] && (a + b)[1..] == a[1..] + b;
      MdFilesAppend(a[1..], b);
    } else {
      assert a + b == b;
    }
  }

  /** A listing of Markdown files only is read whole. */
  lemma {:induction false} MdFilesOfMdFiles(files: seq<MdFile>)
    requires forall i :: 0 <= i < |files| ==> IsMdName(files[i].name)
    ensures MdFilesOf(files) == files
    decreases |files|
  {
    if |files| > 0 {
      assert IsMdName(files[0].name);
      MdFilesOfMdFiles(files[1..]);
      assert files == [files[0]] + files[1..];
    }
  }

  /** The rows of two stretches of the listing are those of the first
      followed by those of the second. */
  lemma MdRowsAppend(dir: string, a: seq<MdFile>, b: seq<MdFile>)
    ensures MdRows(dir, a + b) == MdRows(dir, a) + MdRows(dir, b)
  {
    MdFilesAppend(a, b);
    var ma, mb := MdFilesOf(a), MdFilesOf(b);
    var r, ra, rb := MdRows(dir, a + b), MdRows(dir, a), MdRows(dir, b);
    assert |r| == |ra| + |rb|;
    forall i | 0 <= i < |r| ensures r[i] == (ra + rb)[i] {
      var g: MdFile := (ma + mb)[i];
      assert r[i] == MdRow(g.content, dir + "/" + g.name);
      if i < |ra| {
        assert g == ma[i];
        assert (ra + rb)[i] == ra[i];
      } else {
        assert g == mb[i - |ma|];
        assert (ra + rb)[i] == rb[i - |ra|];
      }
    }
  }

  /** One listed file contributes its row when its name ends in `.md` and
      nothing otherwise. */
  lemma MdRowsOfFile(dir: string, f: MdFile)
    ensures IsMdName(f.name) ==> MdRows(dir, [f]) == [QaRow(f.content, MdQuestion, FileLabel(dir + "/" + f.name))]
    ensures !IsMdName(f.name) ==> MdRows(dir, [f]) == []
  {
    assert MdFilesOf([f][1..]) == [];
  }

  /** A listing of Markdown files only gives one row per file, in order. */
  lemma MdRowsOfMdFiles(dir: string, files: seq<MdFile>)
    requires forall i :: 0 <= i < |files| ==> IsMdName(files[i].name)
    ensures |MdRows(dir, files)| == |files|
    ensures forall i :: 0 <= i < |files| ==>
      MdRows(dir, files)[i] == QaRow(files[i].content, MdQuestion, FileLabel(dir + "/" + files[i].name))
  {
    MdFilesOfMdFiles(files);
  }

  /** The main loop deletes the table and then appends one row per Markdown
      file: the table ends up holding exactly those rows, in order, or does
      not exist when there is no Markdown file. */
  lemma MdDirectoryTable(dir: string, files: seq<MdFile>)
    ensures |MdRows(dir, files)| == 0 ==> AppendAll(None, MdRows(dir, files)) == None
    ensures |MdRows(dir, files)| > 0 ==> AppendAll(None, MdRows(dir, files)) == Some(MdRows(dir, files))
  {
    AppendAllBuildsTable(None, MdRows(dir, files));
    assert [] + MdRows(dir, files) == MdRows(dir, files);
  }
}
