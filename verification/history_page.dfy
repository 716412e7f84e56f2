/**
 * The draw history page: the case-insensitive search over prize and winner names, and the CSV
 * export of the filtered rows.
 */
module HistoryPage {
  import opened Wrappers
  import opened Text
  import Seqs
  import HistoryRoute

  type Row = HistoryRoute.Won

  /** The search box matches a row when the lower-cased prize or winner name contains the
      lower-cased term. */
  predicate Matches(w: Row, term: string) {
    Contains(Lower(w.item.name), Lower(term)) || Contains(Lower(w.participant.name), Lower(term))
  }

  /** `filteredHistory`: the rows the search term matches, in the listing's order. */
  function FilteredHistory(rows: seq<Row>, term: string): (r: seq<Row>)
    ensures forall i :: 0 <= i < |r| ==> Matches(r[i], term) && r[i] in rows
    ensures forall i :: 0 <= i < |rows| && Matches(rows[i], term) ==> rows[i] in r
    ensures Seqs.IsSubsequence(r, rows)
  {
    Seqs.Filter(rows, (w: Row) => Matches(w, term))
  }

  /** An empty search shows every row. */
  lemma EmptySearchKeepsAll(rows: seq<Row>)
    ensures FilteredHistory(rows, "") == rows
  {
    forall i | 0 <= i < |rows| ensures Matches(rows[i], "") {
      ContainsEmpty(Lower(rows[i].item.name));
    }
    Seqs.FilterKeepsAll(rows, (w: Row) => Matches(w, ""));
  }

  /** Lower-casing twice is lower-casing once. */
  lemma LowerIdempotent(s: string)
    ensures Lower(Lower(s)) == Lower(s)
  {
  }

  /** The search ignores the letter case of the term: a term and its lower-cased form select
      the same rows. */
  lemma SearchIgnoresCase(rows: seq<Row>, term: string)
    ensures FilteredHistory(rows, Lower(term)) == FilteredHistory(rows, term)
  {
    LowerIdempotent(term);
    Seqs.FilterCongruent(rows, (w: Row) => Matches(w, Lower(term)), (w: Row) => Matches(w, term));
  }

  /** The byte-order mark put before the content so spreadsheet programs read it as UTF-8. */
  const Bom: string := "\U{FEFF}"

  /** The column titles: rank (latest draw first), winner, prize, date and time. */
  const Headers: seq<string> := [
    "ลำดับ เรียงจากสุ่มล่าสุด", "รายชื่อผู้ได้รับรางวัล", "รางวัลที่ได้รับ", "วันเวลา"
  ]

  /** The first line of the file: the titles joined with commas. */
  function HeaderLine(): (h: string)
    ensures '\n' !in h && Split(h, ',') == Headers
  {
    var h := Join(Headers, ',');
    HeadersPlain();
    JoinExcludes(Headers, ',', '\n');
    SplitJoin(Headers, ',');
    h
  }

  /** No title holds a comma or a line break. */
  lemma HeadersPlain()
    ensures forall p :: p in Headers ==> ',' !in p && '\n' !in p
  {
  }

  /** A cell as the page writes it: the text wrapped in double quotes, nothing escaped. */
  function Quoted(s: string): (q: string)
    ensures |q| == |s| + 2 && q[0] == '"' && q[|q| - 1] == '"' && q[1..|q| - 1] == s
  {
    "\"" + s + "\""
  }

  /** The cells of data line `i` as the page writes them: the 1-based rank, then winner, prize
      and formatted date, each quoted with nothing escaped. */
  function RowCellsAsWritten(i: nat, w: Row, fmt: int -> string): (cells: seq<string>)
    ensures |cells| == 4
  {
    [NatToString(i + 1), Quoted(w.participant.name), Quoted(w.item.name), Quoted(fmt(w.entry.wonAt))]
  }

  /** One data line as the page writes it: its cells separated by commas. */
  function RenderRowAsWritten(i: nat, w: Row, fmt: int -> string): string {
    Join(RowCellsAsWritten(i, w, fmt), ',')
  }

  /** Quote doubling as section 2 of RFC 4180 requires inside a quoted field. */
  function Escape(s: string): (e: string)
    ensures |e| >= |s|
    ensures forall c :: c != '"' ==> (c in e <==> c in s)
  {
    if |s| == 0 then ""
    else (if s[0] == '"' then "\"\"" else [s[0]]) + Escape(s[1..])
  }

  /** A cell written as section 2 of RFC 4180 requires: quoted, inner quotes doubled. */
  function QuoteEscaped(s: string): string {
    "\"" + Escape(s) + "\""
  }

  /** Reading the inside of a quoted field: a doubled quote stands for one quote, a lone quote
      cannot occur. */
  function Unescape(s: string): Option<string> {
    if |s| == 0 then Some("")
    else if s[0] == '"' then
      if |s| >= 2 && s[1] == '"' then
        match Unescape(s[2..])
        case Some(rest) => Some("\"" + rest)
        case None => None
      else None
    else
      match Unescape(s[1..])
      case Some(rest) => Some([s[0]] + rest)
      case None => None
  }

  /** Reading one quoted field of section 2 of RFC 4180. */
  function ParseQuoted(f: string): Option<string> {
    if |f| >= 2 && f[0] == '"' && f[|f| - 1] == '"' then Unescape(f[1..|f| - 1]) else None
  }

  /** Escaping is undone by unescaping. */
  lemma {:induction false} UnescapeEscape(s: string)
    ensures Unescape(Escape(s)) == Some(s)
  {
    if |s| > 0 {
      UnescapeEscape(s[1..]);
      var tail := Escape(s[1..]);
      if s[0] == '"' {
        assert Escape(s) == "\"\"" + tail;
        assert Escape(s)[2..] == tail;
      } else {
        assert Escape(s) == [s[0]] + tail;
        assert Escape(s)[1..] == tail;
      }
      assert s == [s[0]] + s[1..];
    }
  }

  /** Every escaped cell reads back as the text it was written from. */
  lemma QuoteEscapedRoundTrip(s: string)
    ensures ParseQuoted(QuoteEscaped(s)) == Some(s)
  {
    var q := QuoteEscaped(s);
    assert q[1..|q| - 1] == Escape(s);
    UnescapeEscape(s);
  }

  /** Text without a double quote is written the same either way. */
  lemma {:induction false} EscapeWithoutQuotes(s: string)
    requires '"' !in s
    ensures Escape(s) == s && Quoted(s) == QuoteEscaped(s)
  {
    if |s| > 0 {
      EscapeWithoutQuotes(s[1..]);
      assert s == [s[0]] + s[1..];
    }
  }

  /** Unescaping never lengthens the text, and shortens it whenever the text holds a quote. */
  lemma {:induction false} UnescapeShrinks(s: string)
    ensures Unescape(s).Some? ==> |Unescape(s).value| <= |s|
    ensures Unescape(s).Some? && '"' in s ==> |Unescape(s).value| < |s|
  {
    if |s| > 0 {
      if s[0] == '"' {
        if |s| >= 2 && s[1] == '"' {
          UnescapeShrinks(s[2..]);
        }
      } else {
        UnescapeShrinks(s[1..]);
        if '"' in s {
          var k :| 0 <= k < |s| && s[k] == '"';
          assert s[1..][k - 1] == '"';
        }
      }
    }
  }

  /** A cell the page writes reads back as its text exactly when the text holds no double
      quote; a quote inside is neither doubled nor closing, so the cell is misread. */
  lemma QuotedReadsBack(s: string)
    ensures ParseQuoted(Quoted(s)) == Some(s) <==> '"' !in s
  {
    var q := Quoted(s);
    assert ParseQuoted(q) == Unescape(s);
    UnescapeShrinks(s);
    if '"' !in s {
      EscapeWithoutQuotes(s);
      QuoteEscapedRoundTrip(s);
    }
  }

  /** Any text holding a double quote is written as a cell that does not read back as that text. */
  lemma QuotedBreaksOnQuote(s: string)
    requires '"' in s
    ensures ParseQuoted(Quoted(s)) != Some(s)
  {
    QuotedReadsBack(s);
  }

  /** The name `a"b` is written as `"a"b"`, which no reader of section 2 of RFC 4180 accepts. */
  lemma QuotedNameExample()
    ensures Quoted("a\"b") == "\"a\"b\"" && ParseQuoted(Quoted("a\"b")) == None
  {
    var q := Quoted("a\"b");
    assert q[1..|q| - 1] == "a\"b";
    assert Unescape("\"b") == None;
    assert Unescape("a\"b") == None;
  }

  /** The cells of data line `i` with every text escaped. */
  function RowCells(i: nat, w: Row, fmt: int -> string): (cells: seq<string>)
    ensures |cells| == 4
  {
    [NatToString(i + 1), QuoteEscaped(w.participant.name), QuoteEscaped(w.item.name), QuoteEscaped(fmt(w.entry.wonAt))]
  }

  /** One data line with every cell escaped. */
  function RenderRow(i: nat, w: Row, fmt: int -> string): string {
    Join(RowCells(i, w, fmt), ',')
  }

  /** The page's own line and the escaped line agree whenever no cell text holds a double quote. */
  lemma AsWrittenAgrees(i: nat, w: Row, fmt: int -> string)
    requires '"' !in w.participant.name && '"' !in w.item.name && '"' !in fmt(w.entry.wonAt)
    ensures RenderRowAsWritten(i, w, fmt) == RenderRow(i, w, fmt)
  {
    EscapeWithoutQuotes(w.participant.name);
    EscapeWithoutQuotes(w.item.name);
    EscapeWithoutQuotes(fmt(w.entry.wonAt));
  }

  /** The text of a cell keeps out a character other than the quote exactly when the text does. */
  lemma QuoteEscapedExcludes(s: string, c: char)
    requires c != '"' && c !in s
    ensures c !in QuoteEscaped(s)
  {
  }

  /** `exportToCSV`: nothing is produced for an empty filtered list (an alert is shown instead);
      otherwise the byte-order mark, then the title line and one line per row, as the page writes
      them, joined by line breaks. */
  function ExportCsv(rows: seq<Row>, fmt: int -> string): (r: Option<string>)
    ensures r.None? <==> |rows| == 0
    ensures r.Some? ==> StartsWith(r.value, Bom)
  {
    if |rows| == 0 then None
    else
      var content := Join([HeaderLine()] + Lines(rows, fmt), '\n');
      assert (Bom + content)[..|Bom|] == Bom;
      Some(Bom + content)
  }

  /** The data lines as the page writes them, in the filtered order. */
  function Lines(rows: seq<Row>, fmt: int -> string): (ls: seq<string>)
    ensures |ls| == |rows|
    ensures forall i :: 0 <= i < |rows| ==> ls[i] == RenderRowAsWritten(i, rows[i], fmt)
  {
    seq(|rows|, i requires 0 <= i < |rows| => RenderRowAsWritten(i, rows[i], fmt))
  }

  /** The export with every cell escaped as section 2 of RFC 4180 requires. */
  function ExportCsvEscaped(rows: seq<Row>, fmt: int -> string): (r: Option<string>)
    ensures r.None? <==> |rows| == 0
    ensures r.Some? ==> StartsWith(r.value, Bom)
  {
    if |rows| == 0 then None
    else
      var content := Join([HeaderLine()] + LinesEscaped(rows, fmt), '\n');
      assert (Bom + content)[..|Bom|] == Bom;
      Some(Bom + content)
  }

  /** The escaped data lines, in the filtered order. */
  function LinesEscaped(rows: seq<Row>, fmt: int -> string): (ls: seq<string>)
    ensures |ls| == |rows|
    ensures forall i :: 0 <= i < |rows| ==> ls[i] == RenderRow(i, rows[i], fmt)
  {
    seq(|rows|, i requires 0 <= i < |rows| => RenderRow(i, rows[i], fmt))
  }

  /** No cell text of any row holds a line break. */
  ghost predicate SingleLineRows(rows: seq<Row>, fmt: int -> string) {
    forall i :: 0 <= i < |rows| ==> SingleLineRow(rows[i], fmt)
  }

  ghost predicate SingleLineRow(w: Row, fmt: int -> string) {
    '\n' !in w.participant.name && '\n' !in w.item.name && '\n' !in fmt(w.entry.wonAt)
  }

  /** No cell text holds a comma. */
  ghost predicate CommaFreeRow(w: Row, fmt: int -> string) {
    ',' !in w.participant.name && ',' !in w.item.name && ',' !in fmt(w.entry.wonAt)
  }

  /** A rendered rank is digits only. */
  lemma DigitsPlain(s: string, c: char)
    requires forall i :: 0 <= i < |s| ==> IsDigit(s[i])
    requires !IsDigit(c)
    ensures c !in s
  {
  }

  /** A line the page writes holds a line break only where a cell text does. */
  lemma LineAsWrittenSingle(i: nat, w: Row, fmt: int -> string)
    requires SingleLineRow(w, fmt)
    ensures '\n' !in RenderRowAsWritten(i, w, fmt)
  {
    DigitsPlain(NatToString(i + 1), '\n');
    JoinExcludes(RowCellsAsWritten(i, w, fmt), ',', '\n');
  }

  /** An escaped line holds a line break only where a cell text does. */
  lemma LineEscapedSingle(i: nat, w: Row, fmt: int -> string)
    requires SingleLineRow(w, fmt)
    ensures '\n' !in RenderRow(i, w, fmt)
  {
    DigitsPlain(NatToString(i + 1), '\n');
    QuoteEscapedExcludes(w.participant.name, '\n');
    QuoteEscapedExcludes(w.item.name, '\n');
    QuoteEscapedExcludes(fmt(w.entry.wonAt), '\n');
    JoinExcludes(RowCells(i, w, fmt), ',', '\n');
  }

  /** The exported file splits into lines: after the byte-order mark, the title line and one line
      per row as the page writes it, in the filtered order, whenever no cell text holds a line
      break. */
  lemma ExportLines(rows: seq<Row>, fmt: int -> string)
    requires |rows| > 0 && SingleLineRows(rows, fmt)
    ensures Split(ExportCsv(rows, fmt).value[|Bom|..], '\n') == [HeaderLine()] + Lines(rows, fmt)
  {
    var all := [HeaderLine()] + Lines(rows, fmt);
    forall i | 0 <= i < |rows| ensures '\n' !in Lines(rows, fmt)[i] {
      LineAsWrittenSingle(i, rows[i], fmt);
    }
    ConsExcludes(HeaderLine(), Lines(rows, fmt), '\n');
    SplitJoin(all, '\n');
    assert ExportCsv(rows, fmt).value[|Bom|..] == Join(all, '\n');
  }

  /** The same for the escaped export. */
  lemma ExportLinesEscaped(rows: seq<Row>, fmt: int -> string)
    requires |rows| > 0 && SingleLineRows(rows, fmt)
    ensures Split(ExportCsvEscaped(rows, fmt).value[|Bom|..], '\n') == [HeaderLine()] + LinesEscaped(rows, fmt)
  {
    var all := [HeaderLine()] + LinesEscaped(rows, fmt);
    forall i | 0 <= i < |rows| ensures '\n' !in LinesEscaped(rows, fmt)[i] {
      LineEscapedSingle(i, rows[i], fmt);
    }
    ConsExcludes(HeaderLine(), LinesEscaped(rows, fmt), '\n');
    SplitJoin(all, '\n');
    assert ExportCsvEscaped(rows, fmt).value[|Bom|..] == Join(all, '\n');
  }

  /** A line the page writes splits on commas into its four cells when no cell text holds a
      comma: the rank reads back as `i + 1`, and each quoted cell reads back as its text exactly
      when the text holds no double quote. */
  lemma LineCells(i: nat, w: Row, fmt: int -> string)
    requires CommaFreeRow(w, fmt)
    ensures var cells := Split(RenderRowAsWritten(i, w, fmt), ',');
            && cells == [NatToString(i + 1), Quoted(w.participant.name), Quoted(w.item.name), Quoted(fmt(w.entry.wonAt))]
            && DigitsValue(cells[0]) == i + 1
            && (ParseQuoted(cells[1]) == Some(w.participant.name) <==> '"' !in w.participant.name)
            && (ParseQuoted(cells[2]) == Some(w.item.name) <==> '"' !in w.item.name)
            && (ParseQuoted(cells[3]) == Some(fmt(w.entry.wonAt)) <==> '"' !in fmt(w.entry.wonAt))
  {
    var cells := RowCellsAsWritten(i, w, fmt);
    DigitsPlain(NatToString(i + 1), ',');
    SplitJoin(cells, ',');
    NatToStringValue(i + 1);
    QuotedReadsBack(w.participant.name);
    QuotedReadsBack(w.item.name);
    QuotedReadsBack(fmt(w.entry.wonAt));
  }

  /** An escaped line splits on commas into its four cells when no cell text holds a comma, and
      every cell reads back as its text, quotes included. */
  lemma LineCellsEscaped(i: nat, w: Row, fmt: int -> string)
    requires CommaFreeRow(w, fmt)
    ensures var cells := Split(RenderRow(i, w, fmt), ',');
            && cells == RowCells(i, w, fmt)
            && DigitsValue(cells[0]) == i + 1
            && ParseQuoted(cells[1]) == Some(w.participant.name)
            && ParseQuoted(cells[2]) == Some(w.item.name)
            && ParseQuoted(cells[3]) == Some(fmt(w.entry.wonAt))
  {
    var cells := RowCells(i, w, fmt);
    DigitsPlain(NatToString(i + 1), ',');
    QuoteEscapedExcludes(w.participant.name, ',');
    QuoteEscapedExcludes(w.item.name, ',');
    QuoteEscapedExcludes(fmt(w.entry.wonAt), ',');
    SplitJoin(cells, ',');
    NatToStringValue(i + 1);
    QuoteEscapedRoundTrip(w.participant.name);
    QuoteEscapedRoundTrip(w.item.name);
    QuoteEscapedRoundTrip(fmt(w.entry.wonAt));
  }

  /** A line before lines that all keep out `c` gives lines that all keep out `c`. */
  lemma ConsExcludes(h: string, ls: seq<string>, c: char)
    requires c !in h && forall i :: 0 <= i < |ls| ==> c !in ls[i]
    ensures forall l :: l in [h] + ls ==> c !in l
  {
    forall l | l in [h] + ls ensures c !in l {
      var k :| 0 <= k < |[h] + ls| && ([h] + ls)[k] == l;
      if k > 0 {
        assert l == ls[k - 1];
      }
    }
  }
}
