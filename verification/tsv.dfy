/** Tab-separated export of a listing (`ResponseWriter`, `as_tsv`,
    `download_tsv`). The response stream is the sequence of chunks handed to
    `response.write`; encoding to UTF-8 is left out, so chunks are strings. */
module Tsv {
  import opened Common
  import opened Strings

  /** A column definition of the server-side table projection. */
  datatype Column = Column(name: string, typeHint: string)

  /** One row of the table: its cells as display strings. */
  datatype Row = Row(cells: seq<string>)

  /** The tabular projection of a listing (`as_table`). */
  datatype Table = Table(columns: seq<Column>, rows: seq<Row>)

  /** The column names, in column order. */
  function HeaderOf(t: Table): seq<string>
  {
    seq(|t.columns|, i requires 0 <= i < |t.columns| => t.columns[i].name)
  }

  /** A cell the csv writer copies verbatim: no tab, line break or quote. */
  predicate PlainCell(c: string) {
    '\t' !in c && '\n' !in c && '\r' !in c && '"' !in c
  }

  /** A record the csv writer writes without quoting: plain cells, and not a
      record made of one empty cell (which it writes as a quoted empty string). */
  predicate PlainRecord(cells: seq<string>) {
    (forall i :: 0 <= i < |cells| ==> PlainCell(cells[i])) && cells != [""]
  }

  predicate PlainTable(t: Table) {
    PlainRecord(HeaderOf(t)) && forall i :: 0 <= i < |t.rows| ==> PlainRecord(t.rows[i].cells)
  }

  // ---------------------------------------------------------------------------
  // The text of a table

  /** One record as `csv.writer(delimiter="\t", lineterminator="\n")` writes it. */
  function Line(cells: seq<string>): string {
    Join(cells, '\t') + "\n"
  }

  /** Lines, each terminated by a newline. */
  function Text(lines: seq<string>): string
    decreases |lines|
  {
    if |lines| == 0 then "" else lines[0] + "\n" + Text(lines[1..])
  }

  /** The tab-joined records of some rows. */
  function JoinedRows(rows: seq<Row>): seq<string>
  {
    seq(|rows|, i requires 0 <= i < |rows| => Join(rows[i].cells, '\t'))
  }

  /** The whole export: the header record, then one record per row. */
  function Render(t: Table): string {
    Text([Join(HeaderOf(t), '\t')] + JoinedRows(t.rows))
  }

  lemma RenderUnfold(t: Table)
    ensures Render(t) == Line(HeaderOf(t)) + Text(JoinedRows(t.rows))
  {
    var ls := [Join(HeaderOf(t), '\t')] + JoinedRows(t.rows);
    assert ls[1..] == JoinedRows(t.rows);
  }

  lemma TextUnfold(rows: seq<Row>)
    requires |rows| > 0
    ensures Text(JoinedRows(rows)) == Line(rows[0].cells) + Text(JoinedRows(rows[1..]))
  {
    assert JoinedRows(rows)[1..] == JoinedRows(rows[1..]);
  }

  // ---------------------------------------------------------------------------
  // ResponseWriter: a buffer in front of the response

  /** `ResponseWriter`: the chunks already written to the response, and the
      pending buffer `data`. */
  datatype Writer = Writer(sent: seq<string>, data: string)

  /** A new `ResponseWriter`: nothing sent, empty buffer. */
  const Fresh: Writer := Writer([], "")

  /** Everything written so far, sent or pending. */
  function Contents(w: Writer): string {
    Concat(w.sent) + w.data
  }

  /** `write`: appends to the buffer and sends nothing. */
  function Write(w: Writer, s: string): (r: Writer)
    ensures r.sent == w.sent
    ensures Contents(r) == Contents(w) + s
  {
    Writer(w.sent, w.data + s)
  }

  /** `flush`: sends the whole buffer as one chunk and empties it; nothing
      written is lost or reordered. */
  function Flush(w: Writer): (r: Writer)
    ensures r.data == ""
    ensures |r.sent| == |w.sent| + 1 && r.sent[..|w.sent|] == w.sent && r.sent[|w.sent|] == w.data
    ensures Contents(r) == Contents(w)
  {
    var r := Writer(w.sent + [w.data], "");
    assert r.sent[..|w.sent|] == w.sent;
    r
  }

  /** The row loop of `as_tsv`: write a row, then flush. Exactly one chunk per
      row is sent, the buffer is empty after a non-empty loop, and the
      contents grow by the rows' text. */
  function WriteRows(rows: seq<Row>, w: Writer): (r: Writer)
    ensures Contents(r) == Contents(w) + Text(JoinedRows(rows))
    ensures |r.sent| == |w.sent| + |rows| && r.sent[..|w.sent|] == w.sent
    ensures |rows| == 0 ==> r == w
    ensures |rows| > 0 ==> r.data == ""
    decreases |rows|
  {
    if |rows| == 0 then w
    else
      var next := Flush(Write(w, Line(rows[0].cells)));
      var r := WriteRows(rows[1..], next);
      TextUnfold(rows);
      assert r.sent[..|w.sent|] == r.sent[..|next.sent|][..|w.sent|];
      r
  }

  /** `as_tsv`: the header record goes into the buffer, then each row is
      written and flushed. Its contents are the table's text; one chunk is
      sent per row; with no rows nothing is sent and the header stays in the
      buffer. */
  function AsTsv(t: Table, w: Writer): (r: Writer)
    requires PlainTable(t)
    ensures Contents(r) == Contents(w) + Render(t)
    ensures |r.sent| == |w.sent| + |t.rows| && r.sent[..|w.sent|] == w.sent
    ensures |t.rows| == 0 ==> r.sent == w.sent && r.data == w.data + Line(HeaderOf(t))
    ensures |t.rows| > 0 ==> r.data == ""
  {
    RenderUnfold(t);
    WriteRows(t.rows, Write(w, Line(HeaderOf(t))))
  }

  /** The chunks of the row loop: the pending buffer goes out with the first
      row, then one row per chunk. */
  lemma {:induction false} WriteRowsChunks(rows: seq<Row>, w: Writer)
    requires |rows| > 0
    ensures WriteRows(rows, w).sent[|w.sent|] == w.data + Line(rows[0].cells)
    ensures forall i :: 0 < i < |rows| ==> WriteRows(rows, w).sent[|w.sent| + i] == Line(rows[i].cells)
    decreases |rows|
  {
    var next := Flush(Write(w, Line(rows[0].cells)));
    var r := WriteRows(rows, w);
    assert r == WriteRows(rows[1..], next);
    assert r.sent[..|next.sent|] == next.sent;
    assert r.sent[|w.sent|] == r.sent[..|next.sent|][|w.sent|];
    if |rows| > 1 {
      WriteRowsChunks(rows[1..], next);
      forall i | 0 < i < |rows| ensures r.sent[|w.sent| + i] == Line(rows[i].cells) {
        if i > 1 {
          assert rows[1..][i - 1] == rows[i];
        }
      }
    }
  }

  /** Exporting to a new writer: the first chunk is the header record with
      the first row, and each further chunk is one row. */
  lemma AsTsvChunks(t: Table)
    requires PlainTable(t) && |t.rows| > 0
    ensures AsTsv(t, Fresh).sent[0] == Line(HeaderOf(t)) + Line(t.rows[0].cells)
    ensures forall i :: 0 < i < |t.rows| ==> AsTsv(t, Fresh).sent[i] == Line(t.rows[i].cells)
  {
    WriteRowsChunks(t.rows, Write(Fresh, Line(HeaderOf(t))));
  }

  /** What reaches the client when a table with no rows is exported: nothing,
      although the table's text (its header record) is not empty; that text
      is left behind in the buffer. */
  lemma ZeroRowsSendNothing(t: Table)
    requires PlainTable(t) && |t.rows| == 0
    ensures Concat(AsTsv(t, Fresh).sent) == ""
    ensures Render(t) != ""
    ensures AsTsv(t, Fresh).data == Render(t)
  {
  }

  /** `as_tsv` followed by a flush of whatever is still buffered: the chunks
      sent are exactly the table's text, whether or not it has rows. */
  function Stream(t: Table): (w: Writer)
    requires PlainTable(t)
    ensures Concat(w.sent) == Render(t)
    ensures w.data == ""
  {
    var w := AsTsv(t, Fresh);
    assert Contents(Fresh) == "";
    assert Contents(w) == Concat(w.sent) + w.data == Render(t);
    assert w.data == "" ==> Concat(w.sent) + w.data == Concat(w.sent);
    if w.data == "" then w else Flush(w)
  }

  // ---------------------------------------------------------------------------
  // Reading an export back

  /** Splits every line into its cells. */
  function SplitAll(lines: seq<string>): seq<seq<string>>
  {
    seq(|lines|, i requires 0 <= i < |lines| => Split(lines[i], '\t'))
  }

  /** The cells of some rows. */
  function CellsOf(rows: seq<Row>): seq<seq<string>>
  {
    seq(|rows|, i requires 0 <= i < |rows| => rows[i].cells)
  }

  /** Reads a tab-separated text: the header record, then the row records;
      `None` when the text is not newline-terminated. */
  function Parse(text: string): Option<(seq<string>, seq<seq<string>>)> {
    var lines := Split(text, '\n');
    if |lines| < 2 || lines[|lines| - 1] != "" then None
    else Some((Split(lines[0], '\t'), SplitAll(lines[1..|lines| - 1])))
  }

  lemma {:induction false} TextIsJoin(lines: seq<string>)
    ensures Text(lines) == Join(lines + [""], '\n')
    decreases |lines|
  {
    if |lines| > 0 {
      TextIsJoin(lines[1..]);
      assert (lines + [""])[1..] == lines[1..] + [""];
    }
  }

  /** A record with at least one cell. */
  predicate NoEmptyRecords(t: Table) {
    |t.columns| > 0 && forall i :: 0 <= i < |t.rows| ==> |t.rows[i].cells| > 0
  }

  /** An export reads back as the header and the rows' cells it was made
      from, when every record has a cell. */
  lemma ParseRender(t: Table)
    requires PlainTable(t) && NoEmptyRecords(t)
    ensures Parse(Render(t)) == Some((HeaderOf(t), CellsOf(t.rows)))
  {
    var header := HeaderOf(t);
    var rows := JoinedRows(t.rows);
    var lines := [Join(header, '\t')] + rows;
    TextIsJoin(lines);
    JoinAvoids(header, '\t', '\n');
    forall i | 0 <= i < |t.rows| ensures '\n' !in rows[i] {
      JoinAvoids(t.rows[i].cells, '\t', '\n');
    }
    var all := lines + [""];
    forall i | 0 <= i < |all| ensures '\n' !in all[i] {
      if 0 < i < |lines| {
        assert all[i] == rows[i - 1];
      }
    }
    SplitJoin(all, '\n');
    assert Split(Render(t), '\n') == all;
    SplitJoin(header, '\t');
    assert all[1..|all| - 1] == rows;
    forall i | 0 <= i < |t.rows| ensures Split(rows[i], '\t') == t.rows[i].cells {
      SplitJoin(t.rows[i].cells, '\t');
    }
    assert SplitAll(rows) == CellsOf(t.rows);
  }

  /** A two-column, two-row listing: `as_tsv` sends its header line and row
      lines. */
  lemma ExportExample()
    ensures var t := Table([Column("NAME", "string"), Column("AGE", "string")],
                           [Row(["a", "1d"]), Row(["b", "2d"])]);
      PlainTable(t) && Concat(AsTsv(t, Fresh).sent) == "NAME\tAGE\na\t1d\nb\t2d\n"
  {
    var t := Table([Column("NAME", "string"), Column("AGE", "string")],
                   [Row(["a", "1d"]), Row(["b", "2d"])]);
    assert HeaderOf(t) == ["NAME", "AGE"];
    assert PlainTable(t);
    ExampleLines();
    var ls := ["NAME\tAGE", "a\t1d", "b\t2d"];
    assert JoinedRows(t.rows) == ["a\t1d", "b\t2d"];
    assert [Join(HeaderOf(t), '\t')] + JoinedRows(t.rows) == ls;
    ExampleText(ls);
    assert Contents(Fresh) == "";
  }

  lemma ExampleLines()
    ensures Join(["NAME", "AGE"], '\t') == "NAME\tAGE"
    ensures Join(["a", "1d"], '\t') == "a\t1d"
    ensures Join(["b", "2d"], '\t') == "b\t2d"
  {
    assert ["NAME", "AGE"][1..] == ["AGE"];
    assert ["a", "1d"][1..] == ["1d"];
    assert ["b", "2d"][1..] == ["2d"];
  }

  lemma ExampleText(ls: seq<string>)
    requires ls == ["NAME\tAGE", "a\t1d", "b\t2d"]
    ensures Text(ls) == "NAME\tAGE\na\t1d\nb\t2d\n"
  {
    assert ls[1..][1..][1..] == [];
    assert Text(ls[1..][1..]) == "b\t2d\n";
    assert Text(ls[1..]) == "a\t1d\n" + "b\t2d\n";
  }

  // ---------------------------------------------------------------------------
  // download_tsv

  const ContentType: string := "text/tab-separated-values"

  /** The download file name: the request path without leading and trailing
      slashes, each inner slash turned into an underscore. It never contains
      a slash, and it is empty exactly when the path is made of slashes only. */
  function Filename(path: string): (f: string)
    ensures '/' !in f
    ensures |f| == |Strip(path, '/')| <= |path|
    ensures f == "" <==> forall k :: 0 <= k < |path| ==> path[k] == '/'
    ensures forall k :: 0 <= k < |f| ==> f[k] == (if Strip(path, '/')[k] == '/' then '_' else Strip(path, '/')[k])
  {
    Replace(Strip(path, '/'), '/', '_')
  }

  /** The `Content-Disposition` header value. */
  function Disposition(path: string): string {
    "attachment; filename=\"" + Filename(path) + ".tsv\""
  }

  /** The streamed response `download_tsv` prepares for a table. */
  datatype Download = Download(contentType: string, disposition: string, table: Table)

  function DownloadTsv(path: string, table: Table): Download {
    Download(ContentType, Disposition(path), table)
  }

  /** The text before the first double quote of `s`; `None` when `s` has no
      double quote, so the quoted value is not closed. */
  function UntilQuote(s: string): (r: Option<string>)
    ensures r.None? <==> '"' !in s
    ensures r.Some? ==> |r.value| < |s| && r.value == s[..|r.value|] && s[|r.value|] == '"' && '"' !in r.value
    decreases |s|
  {
    if |s| == 0 then None
    else if s[0] == '"' then Some("")
    else match UntilQuote(s[1..])
      case None => None
      case Some(rest) => Some([s[0]] + rest)
  }

  /** The first closed quote decides: a quote-free text followed by a quote is
      what `UntilQuote` reads, whatever comes after. */
  lemma UntilQuoteOf(a: string, rest: string)
    requires '"' !in a
    ensures UntilQuote(a + "\"" + rest) == Some(a)
  {
    var s := a + "\"" + rest;
    assert s[|a|] == '"';
    var r := UntilQuote(s).value;
    assert r == s[..|a|] == a;
  }

  const DispositionPrefix: string := "attachment; filename=\""

  /** How a client reads the file name out of a `Content-Disposition` value:
      after `attachment; filename="`, up to the first closing quote. */
  function QuotedValue(v: string): Option<string> {
    if |DispositionPrefix| <= |v| && v[..|DispositionPrefix|] == DispositionPrefix
    then UntilQuote(v[|DispositionPrefix|..])
    else None
  }

  /** For a path without a double quote, a client reading the header gets the
      download file name followed by ".tsv", with no slash in it. */
  lemma DispositionReadBack(path: string, table: Table)
    requires '"' !in path
    ensures QuotedValue(DownloadTsv(path, table).disposition) == Some(Filename(path) + ".tsv")
    ensures '/' !in QuotedValue(DownloadTsv(path, table).disposition).value
  {
    var name := Filename(path) + ".tsv";
    FilenameAvoids(path, '"');
    assert '"' !in name && '/' !in name;
    var v := DownloadTsv(path, table).disposition;
    assert v == DispositionPrefix + (name + "\"" + "");
    assert v[|DispositionPrefix|..] == name + "\"" + "";
    UntilQuoteOf(name, "");
  }

  /** The file name only holds characters of the path, and '_'. */
  lemma FilenameAvoids(path: string, c: char)
    requires c !in path && c != '_'
    ensures c !in Filename(path)
  {
  }

  /** The file name is put between quotes unescaped: under a path with a
      double quote, the client reads a truncated name. */
  lemma QuoteTruncatesName(table: Table)
    ensures Filename("/a\"b") == "a\"b"
    ensures QuotedValue(DownloadTsv("/a\"b", table).disposition) == Some("a")
  {
    var path := "/a\"b";
    assert LeadingCount(path, '/') == 1;
    assert Strip(path, '/') == "a\"b";
    assert Filename(path) == "a\"b";
    var v := DownloadTsv(path, table).disposition;
    assert v[|DispositionPrefix|..] == "a" + "\"" + "b.tsv\"";
    UntilQuoteOf("a", "b.tsv\"");
  }

  /** The chunks the download sends, with the final flush of `Stream`: the
      table's text, header included. */
  function Body(d: Download): (chunks: seq<string>)
    requires PlainTable(d.table)
    ensures Concat(chunks) == Render(d.table)
  {
    Stream(d.table).sent
  }

  /** How `Body` relates to what `as_tsv` sends on a new writer: the same
      chunks when the table has rows; with no rows `as_tsv` sends nothing,
      where `Body` sends the header record as one chunk. */
  lemma BodyAgainstAsTsv(d: Download)
    requires PlainTable(d.table)
    ensures |d.table.rows| > 0 ==> Body(d) == AsTsv(d.table, Fresh).sent
    ensures |d.table.rows| == 0 ==> AsTsv(d.table, Fresh).sent == [] && Body(d) == [Line(HeaderOf(d.table))]
  {
    var w := AsTsv(d.table, Fresh);
    if |d.table.rows| == 0 {
      assert w.data == "" + Line(HeaderOf(d.table)) == Line(HeaderOf(d.table));
      assert Stream(d.table) == Flush(w);
    }
  }
}
