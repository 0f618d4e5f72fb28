/** The text-column importer: the parsing done when an uploaded file has been
    read. Lines are split on a line feed with an optional carriage return
    before it, empty lines are dropped, a header cell `text` (trimmed, any
    case) picks the column and is itself skipped, rows too short for that
    column are dropped, and one leading and one trailing double quote are
    stripped from each kept cell. */
module CsvImport {
  import opened Strings
  import opened Optional

  /** Drops one carriage return at the end of a line. */
  function StripCR(p: string): string {
    if |p| > 0 && p[|p| - 1] == '\r' then p[..|p| - 1] else p
  }

  /** `content.split(/\r?\n/)`: split at every line feed; a carriage return
      right before a line feed belongs to the separator. */
  function SplitLines(content: string): (ls: seq<string>)
    ensures |ls| >= 1
  {
    var ps := Split(content, '\n');
    seq(|ps|, i requires 0 <= i < |ps| => if i < |ps| - 1 then StripCR(ps[i]) else ps[i])
  }

  /** `.filter(Boolean)`: the non-empty lines, in order. */
  function NonEmpty(ls: seq<string>): (r: seq<string>)
    ensures |r| <= |ls|
    ensures forall k :: 0 <= k < |r| ==> r[k] != []
    ensures forall x :: x in r <==> x in ls && x != []
  {
    if ls == [] then []
    else if ls[0] == [] then NonEmpty(ls[1..])
    else [ls[0]] + NonEmpty(ls[1..])
  }

  function Lines(content: string): seq<string> {
    NonEmpty(SplitLines(content))
  }

  /** `h.trim().toLowerCase() === "text"`. Only ASCII letters lower-case to
      `t`, `e` and `x`, so lower-casing ASCII letters decides the comparison. */
  predicate IsTextHeader(cell: string) {
    LowerAscii(Trim(cell)) == "text"
  }

  /** `header.findIndex(...)` guarded by `header.some(...)`: the first cell
      that names the text column, if any. */
  function FindTextColumn(cells: seq<string>): (r: Option<nat>)
    ensures r.Some? ==> r.value < |cells| && IsTextHeader(cells[r.value])
    ensures r.Some? ==> forall j :: 0 <= j < r.value ==> !IsTextHeader(cells[j])
    ensures r.None? <==> forall j :: 0 <= j < |cells| ==> !IsTextHeader(cells[j])
  {
    if cells == [] then None
    else if IsTextHeader(cells[0]) then Some(0)
    else match FindTextColumn(cells[1..])
      case None => None
      case Some(k) => Some(k + 1)
  }

  /** `cell.replace(/^"|"$/g, "")`: one leading and then one trailing double
      quote removed. */
  function StripQuotes(cell: string): string {
    var c := if |cell| > 0 && cell[0] == '"' then cell[1..] else cell;
    if |c| > 0 && c[|c| - 1] == '"' then c[..|c| - 1] else c
  }

  /** The texts the row loop collects from `rows`: for each row with more
      than `col` comma-separated cells, its `col`-th cell without quotes. */
  function ColumnTexts(rows: seq<string>, col: nat): (ts: seq<string>)
    ensures |ts| <= |rows|
  {
    if rows == [] then []
    else
      var init := ColumnTexts(rows[..|rows| - 1], col);
      var cells := Split(rows[|rows| - 1], ',');
      if |cells| > col then init + [StripQuotes(cells[col])] else init
  }

  /** Where the texts are: the column and the first data line. */
  datatype Layout = Layout(col: nat, first: nat)

  /** With a header cell `text`, the first such column and skip the header
      line; otherwise column 0 from the first line on. */
  function LayoutOf(header: string): (lay: Layout)
    ensures lay.first <= 1
    ensures lay.first == 1 ==> lay.col < |Split(header, ',')| && IsTextHeader(Split(header, ',')[lay.col])
    ensures lay.first == 1 ==> forall j :: 0 <= j < lay.col ==> !IsTextHeader(Split(header, ',')[j])
    ensures lay.first == 0 ==> lay.col == 0
    ensures lay.first == 0 ==> forall j :: 0 <= j < |Split(header, ',')| ==> !IsTextHeader(Split(header, ',')[j])
  {
    var r := FindTextColumn(Split(header, ','));
    if r.Some? then Layout(r.value, 1) else Layout(0, 0)
  }

  /** The importer's result: nothing when there is no non-empty line,
      otherwise the collected texts. */
  function ParseTexts(content: string): Option<seq<string>> {
    var lines := Lines(content);
    if |lines| == 0 then None
    else
      var lay := LayoutOf(lines[0]);
      Some(ColumnTexts(lines[lay.first..], lay.col))
  }

  /** The row loop of the importer. */
  method ExtractTexts(lines: seq<string>, col: nat, first: nat) returns (texts: seq<string>)
    requires first <= |lines|
    ensures texts == ColumnTexts(lines[first..], col)
  {
    texts := [];
    var i := first;
    while i < |lines|
      invariant first <= i <= |lines|
      invariant texts == ColumnTexts(lines[first..i], col)
    {
      var row := Split(lines[i], ',');
      if |row| > col {
        texts := texts + [StripQuotes(row[col])];
      }
      assert lines[first..i + 1][..i - first] == lines[first..i];
      i := i + 1;
    }
    assert lines[first..i] == lines[first..];
  }

  /** Rows are handled one at a time: the texts of two blocks of rows are
      the texts of the first block followed by those of the second. */
  lemma {:induction false} ColumnTextsConcat(a: seq<string>, b: seq<string>, col: nat)
    ensures ColumnTexts(a + b, col) == ColumnTexts(a, col) + ColumnTexts(b, col)
    decreases |b|
  {
    if b == [] {
      assert a + b == a;
    } else {
      var b' := b[..|b| - 1];
      ColumnTextsConcat(a, b', col);
      assert (a + b)[..|a + b| - 1] == a + b';
      assert (a + b)[|a + b| - 1] == b[|b| - 1];
    }
  }

  /** A row with at most `col` cells contributes nothing. */
  lemma ShortRowDropped(rows: seq<string>, row: string, col: nat)
    requires |Split(row, ',')| <= col
    ensures ColumnTexts(rows + [row], col) == ColumnTexts(rows, col)
  {
    assert (rows + [row])[..|rows|] == rows;
  }

  /** When every row is long enough, one text per row, in row order. */
  lemma {:induction false} ColumnTextsAllRows(rows: seq<string>, col: nat)
    requires forall i :: 0 <= i < |rows| ==> |Split(rows[i], ',')| > col
    ensures |ColumnTexts(rows, col)| == |rows|
    ensures forall i :: 0 <= i < |rows| ==> ColumnTexts(rows, col)[i] == StripQuotes(Split(rows[i], ',')[col])
  {
    if rows != [] {
      var init := rows[..|rows| - 1];
      ColumnTextsAllRows(init, col);
      var ts := ColumnTexts(rows, col);
      assert ts == ColumnTexts(init, col) + [StripQuotes(Split(rows[|rows| - 1], ',')[col])];
      forall i | 0 <= i < |rows|
        ensures ts[i] == StripQuotes(Split(rows[i], ',')[col])
      {
        if i < |init| {
          assert init[i] == rows[i];
        }
      }
    }
  }

  function Quote(t: string): string {
    ['"'] + t + ['"']
  }

  function QuotedRows(ts: seq<string>): (qs: seq<string>)
    ensures |qs| == |ts|
  {
    seq(|ts|, i requires 0 <= i < |ts| => Quote(ts[i]))
  }

  /** A one-column file with header `text` and every text in double quotes. */
  function QuotedColumn(ts: seq<string>): string {
    JoinWith(["text"] + QuotedRows(ts), '\n')
  }

  lemma StripQuote(t: string)
    ensures StripQuotes(Quote(t)) == t
  {
    assert Quote(t)[1..] == t + ['"'];
  }

  lemma LinesOfQuotedColumn(ts: seq<string>)
    requires forall i :: 0 <= i < |ts| ==> '\n' !in ts[i]
    ensures Lines(QuotedColumn(ts)) == ["text"] + QuotedRows(ts)
  {
    var parts := ["text"] + QuotedRows(ts);
    forall i | 0 <= i < |parts|
      ensures '\n' !in parts[i] && parts[i] != [] && parts[i][|parts[i]| - 1] != '\r'
    {
      if i > 0 {
        assert parts[i] == Quote(ts[i - 1]);
      }
    }
    SplitJoin(parts, '\n');
    assert SplitLines(QuotedColumn(ts)) == parts;
    NonEmptyAll(parts);
  }

  lemma HeaderTextLayout()
    ensures LayoutOf("text") == Layout(0, 1)
  {
    SplitJoin(["text"], ',');
    assert Split("text", ',') == ["text"];
    assert TrimStart("text") == "text";
    assert TrimEnd("text") == "text";
    assert IsTextHeader("text");
  }

  lemma ColumnOfQuotedRows(ts: seq<string>)
    requires forall i :: 0 <= i < |ts| ==> ',' !in ts[i]
    ensures ColumnTexts(QuotedRows(ts), 0) == ts
  {
    var qs := QuotedRows(ts);
    forall i | 0 <= i < |qs|
      ensures |Split(qs[i], ',')| > 0 && StripQuotes(Split(qs[i], ',')[0]) == ts[i]
    {
      assert ',' !in qs[i];
      SplitJoin([qs[i]], ',');
      StripQuote(ts[i]);
    }
    ColumnTextsAllRows(qs, 0);
  }

  /** Import round trip: a header `text` followed by one quoted text per
      line imports as exactly those texts, in order, as long as no text holds
      a comma or a line feed. Quoting keeps even empty texts. */
  lemma ImportQuotedColumn(ts: seq<string>)
    requires forall i :: 0 <= i < |ts| ==> ',' !in ts[i] && '\n' !in ts[i]
    ensures ParseTexts(QuotedColumn(ts)) == Some(ts)
  {
    LinesOfQuotedColumn(ts);
    HeaderTextLayout();
    ColumnOfQuotedRows(ts);
    assert (["text"] + QuotedRows(ts))[1..] == QuotedRows(ts);
  }

  lemma {:induction false} NonEmptyAll(ls: seq<string>)
    requires forall i :: 0 <= i < |ls| ==> ls[i] != []
    ensures NonEmpty(ls) == ls
  {
    if ls != [] {
      NonEmptyAll(ls[1..]);
    }
  }

  /** `filter(Boolean)` keeps order and every copy: filtering two blocks of
      lines is filtering each and concatenating. */
  lemma {:induction false} NonEmptyConcat(a: seq<string>, b: seq<string>)
    ensures NonEmpty(a + b) == NonEmpty(a) + NonEmpty(b)
  {
    if a == [] {
      assert a + b == b;
    } else {
      assert (a + b)[0] == a[0];
      assert (a + b)[1..] == a[1..] + b;
      NonEmptyConcat(a[1..], b);
    }
  }

  /** Lines joined by carriage return and line feed. */
  function JoinCrlf(ls: seq<string>): string {
    if |ls| == 0 then []
    else if |ls| == 1 then ls[0]
    else ls[0] + "\r\n" + JoinCrlf(ls[1..])
  }

  /** The pieces a split on line feeds sees: every line but the last keeps
      the carriage return of its line end. */
  function CrPieces(ls: seq<string>): seq<string> {
    seq(|ls|, i requires 0 <= i < |ls| => if i < |ls| - 1 then ls[i] + "\r" else ls[i])
  }

  lemma {:induction false} JoinCrlfPieces(ls: seq<string>)
    requires |ls| >= 1
    ensures JoinCrlf(ls) == JoinWith(CrPieces(ls), '\n')
  {
    if |ls| >= 2 {
      JoinCrlfPieces(ls[1..]);
      var ps := CrPieces(ls);
      assert ps[1..] == CrPieces(ls[1..]);
      assert ps[0] == ls[0] + "\r";
      assert ls[0] + "\r\n" + JoinCrlf(ls[1..]) == ps[0] + ['\n'] + JoinWith(ps[1..], '\n');
    }
  }

  /** A line end after the last line is a join with one more, empty, line. */
  lemma {:induction false} JoinCrlfFinalEnd(ls: seq<string>)
    requires |ls| >= 1
    ensures JoinCrlf(ls) + "\r\n" == JoinCrlf(ls + [[]])
  {
    if |ls| == 1 {
      assert (ls + [[]])[1..] == [[]];
    } else {
      JoinCrlfFinalEnd(ls[1..]);
      assert (ls + [[]])[1..] == ls[1..] + [[]];
    }
  }

  /** Splitting a CRLF join gives the lines back. */
  lemma SplitLinesCrlf(ls: seq<string>)
    requires |ls| >= 1
    requires forall i :: 0 <= i < |ls| ==> '\n' !in ls[i]
    ensures SplitLines(JoinCrlf(ls)) == ls
  {
    var ps := CrPieces(ls);
    forall i | 0 <= i < |ps|
      ensures '\n' !in ps[i]
    {
      assert '\n' !in ls[i];
    }
    JoinCrlfPieces(ls);
    SplitJoin(ps, '\n');
    var r := SplitLines(JoinCrlf(ls));
    forall i | 0 <= i < |ls|
      ensures r[i] == ls[i]
    {
      if i < |ls| - 1 {
        assert ps[i][..|ps[i]| - 1] == ls[i];
      }
    }
  }

  /** A file of non-empty lines joined by carriage return and line feed, with
      or without a line end after the last line, reads back as exactly those
      lines, in order. */
  lemma CrlfLines(ls: seq<string>, finalEnd: bool)
    requires |ls| >= 1
    requires forall i :: 0 <= i < |ls| ==> ls[i] != [] && '\n' !in ls[i]
    ensures Lines(JoinCrlf(ls) + (if finalEnd then "\r\n" else "")) == ls
  {
    if finalEnd {
      JoinCrlfFinalEnd(ls);
      var ls' := ls + [[]];
      assert forall i :: 0 <= i < |ls'| ==> '\n' !in ls'[i];
      SplitLinesCrlf(ls');
      NonEmptyConcat(ls, [[]]);
      NonEmptyAll(ls);
    } else {
      assert JoinCrlf(ls) + "" == JoinCrlf(ls);
      SplitLinesCrlf(ls);
      NonEmptyAll(ls);
    }
  }

  /** A cell that neither starts nor ends with a double quote is kept. */
  lemma StripQuotesUnquoted(cell: string)
    requires cell == [] || (cell[0] != '"' && cell[|cell| - 1] != '"')
    ensures StripQuotes(cell) == cell
  {
  }

  /** Only one quote goes at each end: doubled quotes lose one each. */
  lemma StripQuotesOnce(t: string)
    ensures StripQuotes("\"\"" + t + "\"\"") == "\"" + t + "\""
  {
    var c := "\"\"" + t + "\"\"";
    assert c[1..] == "\"" + t + "\"\"";
    assert c[1..][..|c| - 2] == "\"" + t + "\"";
  }

  /** A file with header `text` and the rows `"Phim rất hay"` and
      `"Tôi không thích"` imports as those two texts, in order. */
  lemma ImportExample()
    ensures ParseTexts(QuotedColumn(["Phim rất hay", "Tôi không thích"])) == Some(["Phim rất hay", "Tôi không thích"])
  {
    var ts := ["Phim rất hay", "Tôi không thích"];
    assert ',' !in ts[0] && '\n' !in ts[0];
    assert ',' !in ts[1] && '\n' !in ts[1];
    ImportQuotedColumn(ts);
  }
}
