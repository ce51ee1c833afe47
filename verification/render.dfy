/** Text-mode rendering of API results (dkdc-md-cli/src/cli.rs): single fields
    with a `-` fallback, the token and account tables, and the two-line
    duckling configuration. Everything the binary prints with `print!` or
    `println!` is a string here, newlines included. Widths are counted in
    characters, which equals Rust's byte length for the ASCII text modelled. */
module Render {
  import opened Wrappers
  import opened Text
  import opened Json

  // ---------------------------------------------------------------- fields

  /** `extract_str`: the string value of `key`, or nothing when the field is
      missing, null or not a string. */
  function ExtractStr(v: Value, key: string): (r: Option<string>)
    ensures r.Some? <==> Lookup(v, key).Some? && Lookup(v, key).value.Str?
    ensures r.Some? ==> Lookup(v, key) == Some(Str(r.value))
  {
    AsStr(Index(v, key))
  }

  /** `display_field`: the string value of `key`, or `-` in its place. */
  function DisplayField(v: Value, key: string): (r: string)
    ensures ExtractStr(v, key).Some? ==> r == ExtractStr(v, key).value
    ensures ExtractStr(v, key).None? ==> r == "-"
  {
    AsStr(Index(v, key)).GetOr("-")
  }

  /** A field is shown as its own text exactly when it is present and a
      string; every other shape of the field shows as `-`. */
  lemma DisplayFieldCases(v: Value, key: string)
    ensures (v.Object? && key in v.fields && v.fields[key].Str?) ==> DisplayField(v, key) == v.fields[key].s
    ensures !(v.Object? && key in v.fields && v.fields[key].Str?) ==> DisplayField(v, key) == "-"
    ensures DisplayField(v, key) != "-" ==> Lookup(v, key) == Some(Str(DisplayField(v, key)))
  {
  }

  // ---------------------------------------------------------------- tables

  /** The length of cell `i` of a row, or 0 when the row is shorter:
      `r.get(i).map_or(0, |s| s.len())`. */
  function CellLen(row: seq<string>, i: nat): nat {
    if i < |row| then |row[i]| else 0
  }

  /** The widest cell of column `i` over all rows, 0 when there are none;
  `MaxCellBound` states what it computes. */
  function MaxCell(rows: seq<seq<string>>, i: nat): nat {
    if rows == [] then 0
    else
      var rest := MaxCell(rows[1..], i);
      if CellLen(rows[0], i) >= rest then CellLen(rows[0], i) else rest
  }

  /** The widest cell is at least as long as every cell of its column, and is
      one of them; with no rows it is 0. */
  lemma {:induction false} MaxCellBound(rows: seq<seq<string>>, i: nat)
    ensures forall j :: 0 <= j < |rows| ==> CellLen(rows[j], i) <= MaxCell(rows, i)
    ensures rows == [] ==> MaxCell(rows, i) == 0
    ensures rows != [] ==> exists j :: 0 <= j < |rows| && MaxCell(rows, i) == CellLen(rows[j], i)
    decreases |rows|
  {
    if rows != [] {
      MaxCellBound(rows[1..], i);
      assert forall j :: 1 <= j < |rows| ==> rows[j] == rows[1..][j - 1];
      if |rows| > 1 && CellLen(rows[0], i) < MaxCell(rows[1..], i) {
        var j :| 0 <= j < |rows| - 1 && MaxCell(rows[1..], i) == CellLen(rows[1..][j], i);
        assert MaxCell(rows, i) == CellLen(rows[j + 1], i);
      } else {
        assert MaxCell(rows, i) == CellLen(rows[0], i);
      }
    }
  }

  /** The widths of the columns: each is the larger of the header's length
      and the widest cell below it, and is one of those lengths. */
  function Widths(headers: seq<string>, rows: seq<seq<string>>): (w: seq<nat>)
    ensures |w| == |headers|
  {
    seq(|headers|, i requires 0 <= i < |headers| => ColumnWidth(headers[i], rows, i))
  }

  function ColumnWidth(header: string, rows: seq<seq<string>>, i: nat): nat {
    var m := MaxCell(rows, i);
    if |header| >= m then |header| else m
  }

  /** Each width is at least the header's length and every cell's length in
      its column, and is one of those lengths. */
  lemma WidthsBound(headers: seq<string>, rows: seq<seq<string>>)
    ensures var w := Widths(headers, rows);
            && (forall i :: 0 <= i < |w| ==> |headers[i]| <= w[i])
            && (forall i, j :: 0 <= i < |w| && 0 <= j < |rows| ==> CellLen(rows[j], i) <= w[i])
            && (forall i :: 0 <= i < |w| ==>
                  w[i] == |headers[i]| || exists j :: 0 <= j < |rows| && w[i] == CellLen(rows[j], i))
  {
    forall i | 0 <= i < |headers| {
      MaxCellBound(rows, i);
    }
  }

  /** One `print!`/`println!` of the row loop: a cell before the last column
      is padded to its width and followed by two spaces; a cell in or beyond
      the last column is written as it is and ends the line. */
  function CellText(cell: string, i: nat, widths: seq<nat>, last: int): string
    requires last == |widths| - 1
  {
    if i < last then PadRight(cell, widths[i]) + "  " else cell + "\n"
  }

  /** The text of one row from its `i`-th cell on. */
  function RowText(cells: seq<string>, widths: seq<nat>, last: int, i: nat): (r: string)
    requires last == |widths| - 1
    ensures i < |cells| ==> |r| > 0
    decreases |cells| - i
  {
    if i >= |cells| then ""
    else CellText(cells[i], i, widths, last) + RowText(cells, widths, last, i + 1)
  }

  function RowsText(rows: seq<seq<string>>, widths: seq<nat>, last: int): string
    requires last == |widths| - 1
  {
    if rows == [] then "" else RowText(rows[0], widths, last, 0) + RowsText(rows[1..], widths, last)
  }

  /** `print_table`: everything it writes to stdout. No rows means no output
      at all, not even the header. */
  function TableText(headers: seq<string>, rows: seq<seq<string>>): (r: string)
    requires rows != [] ==> |headers| >= 1
    ensures r == "" <==> rows == []
  {
    if rows == [] then ""
    else
      var widths := Widths(headers, rows);
      RowText(headers, widths, |headers| - 1, 0) + RowsText(rows, widths, |headers| - 1)
  }

  /** A line of a table whose rows all have one cell per column: every cell
      but the last padded to its column's width, columns two spaces apart. */
  function Line(cells: seq<string>, widths: seq<nat>): string
    requires |cells| == |widths| >= 1
  {
    if |cells| == 1 then cells[0]
    else PadRight(cells[0], widths[0]) + "  " + Line(cells[1..], widths[1..])
  }

  predicate Rectangular(headers: seq<string>, rows: seq<seq<string>>) {
    |headers| >= 1 && forall j :: 0 <= j < |rows| ==> |rows[j]| == |headers|
  }

  /** The table as lines: the header line, then one line per row. */
  function TableLines(headers: seq<string>, rows: seq<seq<string>>): (r: seq<string>)
    requires Rectangular(headers, rows)
    ensures rows == [] ==> r == []
    ensures rows != [] ==> |r| == |rows| + 1
  {
    if rows == [] then []
    else
      var widths := Widths(headers, rows);
      [Line(headers, widths)] + seq(|rows|, j requires 0 <= j < |rows| => Line(rows[j], widths))
  }

  /** The text of lines each followed by a newline, as `println!` writes them. */
  function Unlines(lines: seq<string>): string {
    if lines == [] then "" else lines[0] + "\n" + Unlines(lines[1..])
  }

  /** The cells of line `j` of the table: the headers, then each row. */
  function LineCells(headers: seq<string>, rows: seq<seq<string>>, j: nat): seq<string>
    requires j <= |rows|
  {
    if j == 0 then headers else rows[j - 1]
  }

  /** Where the `k`-th column starts: the widths of the columns before it,
      each with its two-space gap. */
  function Start(widths: seq<nat>, k: nat): nat
    requires k < |widths|
  {
    if k == 0 then 0 else widths[0] + 2 + Start(widths[1..], k - 1)
  }

  /** From its `i`-th cell on, a full row is written as its line and a newline. */
  lemma {:induction false} RowTextIsLine(cells: seq<string>, widths: seq<nat>, i: nat)
    requires |cells| == |widths| >= 1 && i < |cells|
    ensures RowText(cells, widths, |widths| - 1, i) == Line(cells[i..], widths[i..]) + "\n"
    decreases |cells| - i
  {
    var last := |widths| - 1;
    if i == last {
      assert RowText(cells, widths, last, i + 1) == "";
      assert cells[i..] == [cells[i]];
    } else {
      RowTextIsLine(cells, widths, i + 1);
      assert cells[i..][1..] == cells[i + 1..];
      assert widths[i..][1..] == widths[i + 1..];
      assert RowText(cells, widths, last, i)
          == PadRight(cells[i], widths[i]) + "  " + (Line(cells[i + 1..], widths[i + 1..]) + "\n");
    }
  }

  lemma {:induction false} RowsTextIsLines(headers: seq<string>, rows: seq<seq<string>>, widths: seq<nat>)
    requires Rectangular(headers, rows) && |widths| == |headers|
    ensures RowsText(rows, widths, |widths| - 1)
            == Unlines(seq(|rows|, j requires 0 <= j < |rows| => Line(rows[j], widths)))
    decreases |rows|
  {
    if rows != [] {
      var lines := seq(|rows|, j requires 0 <= j < |rows| => Line(rows[j], widths));
      var rest := seq(|rows| - 1, j requires 0 <= j < |rows| - 1 => Line(rows[1..][j], widths));
      assert lines[1..] == rest;
      RowsTextIsLines(headers, rows[1..], widths);
      RowTextIsLine(rows[0], widths, 0);
      assert rows[0][0..] == rows[0] && widths[0..] == widths;
    }
  }

  /** For tables with one cell per column in every row, the character stream
      `print_table` writes is exactly its lines, each ended by a newline. */
  lemma TableTextIsLines(headers: seq<string>, rows: seq<seq<string>>)
    requires Rectangular(headers, rows)
    ensures TableText(headers, rows) == Unlines(TableLines(headers, rows))
  {
    if rows != [] {
      var widths := Widths(headers, rows);
      var body := seq(|rows|, j requires 0 <= j < |rows| => Line(rows[j], widths));
      UnlinesCons(Line(headers, widths), body);
      RowTextIsLine(headers, widths, 0);
      assert headers[0..] == headers && widths[0..] == widths;
      RowsTextIsLines(headers, rows, widths);
    }
  }

  lemma UnlinesCons(line: string, rest: seq<string>)
    ensures Unlines([line] + rest) == line + "\n" + Unlines(rest)
  {
    assert ([line] + rest)[1..] == rest;
  }

  /** In a line whose cells fit their widths, cell `k` starts at `Start(k)`. */
  lemma {:induction false} CellStartsAtColumn(cells: seq<string>, widths: seq<nat>, k: nat)
    requires |cells| == |widths| >= 1 && k < |cells|
    requires forall i :: 0 <= i < |cells| ==> |cells[i]| <= widths[i]
    ensures OccursAt(Line(cells, widths), cells[k], Start(widths, k))
    decreases k
  {
    if k == 0 {
      FirstCellAtStart(cells, widths);
    } else {
      assert forall i :: 0 <= i < |cells| - 1 ==> cells[1..][i] == cells[i + 1] && widths[1..][i] == widths[i + 1];
      CellStartsAtColumn(cells[1..], widths[1..], k - 1);
      LaterCellShifted(cells, widths, k);
    }
  }

  lemma FirstCellAtStart(cells: seq<string>, widths: seq<nat>)
    requires |cells| == |widths| >= 1 && |cells[0]| <= widths[0]
    ensures OccursAt(Line(cells, widths), cells[0], 0)
  {
    if |cells| == 1 {
      assert Line(cells, widths)[0..|cells[0]|] == cells[0];
    } else {
      var p := PadRight(cells[0], widths[0]);
      assert Line(cells, widths) == p + ("  " + Line(cells[1..], widths[1..]));
      assert Line(cells, widths)[0..|cells[0]|] == p[..|cells[0]|];
    }
  }

  /** A cell after the first is where it is in the rest of the line, moved
      right by the first column and its gap. */
  lemma LaterCellShifted(cells: seq<string>, widths: seq<nat>, k: nat)
    requires |cells| == |widths| && 0 < k < |cells| && |cells[0]| <= widths[0]
    requires OccursAt(Line(cells[1..], widths[1..]), cells[1..][k - 1], Start(widths[1..], k - 1))
    ensures OccursAt(Line(cells, widths), cells[k], Start(widths, k))
  {
    var p := PadRight(cells[0], widths[0]) + "  ";
    var rest := Line(cells[1..], widths[1..]);
    assert |p| == widths[0] + 2;
    assert cells[1..][k - 1] == cells[k];
    OccursWithin(p, rest, "", cells[k], Start(widths[1..], k - 1));
    assert p + rest + "" == Line(cells, widths);
  }

  /** Columns line up: on every line of the table, header and rows alike,
      the `k`-th cell starts at the same offset. */
  lemma TableColumnsAligned(headers: seq<string>, rows: seq<seq<string>>, j: nat, k: nat)
    requires Rectangular(headers, rows) && rows != []
    requires j <= |rows| && k < |headers|
    ensures OccursAt(TableLines(headers, rows)[j], LineCells(headers, rows, j)[k], Start(Widths(headers, rows), k))
  {
    LineCellsFit(headers, rows, j);
    CellStartsAtColumn(LineCells(headers, rows, j), Widths(headers, rows), k);
  }

  /** Every cell of every line fits its column's width. */
  lemma LineCellsFit(headers: seq<string>, rows: seq<seq<string>>, j: nat)
    requires Rectangular(headers, rows) && j <= |rows|
    ensures var cells, widths := LineCells(headers, rows, j), Widths(headers, rows);
            |cells| == |widths| && forall i :: 0 <= i < |cells| ==> |cells[i]| <= widths[i]
  {
    var widths := Widths(headers, rows);
    var cells := LineCells(headers, rows, j);
    WidthsBound(headers, rows);
    if j > 0 {
      forall i | 0 <= i < |cells| ensures |cells[i]| <= widths[i] {
        assert CellLen(rows[j - 1], i) == |cells[i]|;
      }
    }
  }

  /** A line ends with its last cell: the last column is never padded. */
  lemma {:induction false} LineLength(cells: seq<string>, widths: seq<nat>)
    requires |cells| == |widths| >= 1
    requires forall i :: 0 <= i < |cells| - 1 ==> |cells[i]| <= widths[i]
    ensures |Line(cells, widths)| == Start(widths, |cells| - 1) + |cells[|cells| - 1]|
    decreases |cells|
  {
    if |cells| > 1 {
      assert forall i :: 0 <= i < |cells| - 2 ==> cells[1..][i] == cells[i + 1] && widths[1..][i] == widths[i + 1];
      LineLength(cells[1..], widths[1..]);
      assert cells[1..][|cells| - 2] == cells[|cells| - 1];
    }
  }

  /** Between the end of a cell and the start of the next column a line
      holds only spaces: the cell's padding, then the two-space gap. */
  lemma {:induction false} LineGapsAreSpaces(cells: seq<string>, widths: seq<nat>, k: nat, p: nat)
    requires |cells| == |widths| && k + 1 < |cells|
    requires forall i :: 0 <= i < |cells| ==> |cells[i]| <= widths[i]
    requires Start(widths, k) + |cells[k]| <= p < Start(widths, k + 1)
    ensures p < |Line(cells, widths)| && Line(cells, widths)[p] == ' '
    decreases k
  {
    var pad := PadRight(cells[0], widths[0]);
    var rest := Line(cells[1..], widths[1..]);
    assert Line(cells, widths) == pad + "  " + rest;
    if k == 0 {
      if p < widths[0] {
        assert Line(cells, widths)[p] == pad[p];
      } else {
        assert Line(cells, widths)[p] == "  "[p - widths[0]];
      }
    } else {
      assert forall i :: 0 <= i < |cells| - 1 ==> cells[1..][i] == cells[i + 1] && widths[1..][i] == widths[i + 1];
      LineGapsAreSpaces(cells[1..], widths[1..], k - 1, p - widths[0] - 2);
      assert Line(cells, widths)[p] == rest[p - widths[0] - 2];
    }
  }

  /** Line `j` of the table is the line of its cells at the table's widths. */
  lemma TableLineIs(headers: seq<string>, rows: seq<seq<string>>, j: nat)
    requires Rectangular(headers, rows) && rows != [] && j <= |rows|
    ensures |LineCells(headers, rows, j)| == |Widths(headers, rows)|
    ensures TableLines(headers, rows)[j] == Line(LineCells(headers, rows, j), Widths(headers, rows))
  {
  }

  /** Every line of the table, header included, ends with its last cell. */
  lemma TableLineLength(headers: seq<string>, rows: seq<seq<string>>, j: nat)
    requires Rectangular(headers, rows) && rows != [] && j <= |rows|
    ensures |TableLines(headers, rows)[j]|
            == Start(Widths(headers, rows), |headers| - 1) + |LineCells(headers, rows, j)[|headers| - 1]|
  {
    var widths := Widths(headers, rows);
    var cells := LineCells(headers, rows, j);
    TableLineIs(headers, rows, j);
    LineCellsFit(headers, rows, j);
    assert |cells| == |widths| == |headers|;
    LineLength(cells, widths);
    var last := |headers| - 1;
    assert |Line(cells, widths)| == Start(widths, last) + |cells[last]|;
    assert |TableLines(headers, rows)[j]| == |Line(cells, widths)|;
  }

  /** On every line of the table only spaces lie between a cell's text and
      the start of the next column. */
  lemma TableGapsAreSpaces(headers: seq<string>, rows: seq<seq<string>>, j: nat, k: nat, p: nat)
    requires Rectangular(headers, rows) && rows != [] && j <= |rows| && k + 1 < |headers|
    requires Start(Widths(headers, rows), k) + |LineCells(headers, rows, j)[k]| <= p < Start(Widths(headers, rows), k + 1)
    ensures p < |TableLines(headers, rows)[j]| && TableLines(headers, rows)[j][p] == ' '
  {
    TableLineIs(headers, rows, j);
    LineCellsFit(headers, rows, j);
    LineGapsAreSpaces(LineCells(headers, rows, j), Widths(headers, rows), k, p);
  }

  // ---------------------------------------------------------------- the repository's table example

  lemma ExampleWidths()
    ensures Widths(["ID", "NAME"], [["1", "alice"], ["1000", "b"]]) == [4, 5]
  {
    var rows := [["1", "alice"], ["1000", "b"]];
    assert MaxCell(rows[1..], 0) == 4;
    assert MaxCell(rows[1..], 1) == 1;
    assert MaxCell(rows, 0) == 4;
    assert MaxCell(rows, 1) == 5;
  }

  lemma ExampleLines()
    ensures TableLines(["ID", "NAME"], [["1", "alice"], ["1000", "b"]]) == ["ID    NAME", "1     alice", "1000  b"]
  {
    ExampleWidths();
    assert Line(["ID", "NAME"], [4, 5]) == "ID    NAME" by {
      assert PadRight("ID", 4) == "ID  ";
    }
    assert Line(["1", "alice"], [4, 5]) == "1     alice" by {
      assert PadRight("1", 4) == "1   ";
    }
    assert Line(["1000", "b"], [4, 5]) == "1000  b";
  }

  /** With no rows nothing at all is printed. */
  lemma EmptyTablePrintsNothing(headers: seq<string>)
    ensures TableText(headers, []) == ""
  {
  }

  // ---------------------------------------------------------------- tokens

  const TokenHeaders: seq<string> := ["ID", "NAME", "TYPE", "EXPIRES"]

  /** The EXPIRES cell: the `expire_at` string, or `never` when it is missing,
      not a string, or empty. */
  function ExpiryCell(token: Value): (r: string)
    ensures r != ""
  {
    match ExtractStr(token, "expire_at")
    case Some(s) => if s != "" then s else "never"
    case None => "never"
  }

  /** `never` stands for every token without a usable expiry; any other text
      is the token's own non-empty `expire_at`. */
  lemma ExpiryCellCases(token: Value)
    ensures ExtractStr(token, "expire_at").None? ==> ExpiryCell(token) == "never"
    ensures ExtractStr(token, "expire_at") == Some("") ==> ExpiryCell(token) == "never"
    ensures ExpiryCell(token) != "never" ==> Lookup(token, "expire_at") == Some(Str(ExpiryCell(token)))
    ensures ExtractStr(token, "expire_at").Some? && ExtractStr(token, "expire_at").value != ""
            ==> ExpiryCell(token) == ExtractStr(token, "expire_at").value
  {
  }

  /** A row of `token list`: id, name, type and expiry. */
  function TokenRow(token: Value): (r: seq<string>)
    ensures |r| == |TokenHeaders|
    ensures r[0] == DisplayField(token, "id") && r[1] == DisplayField(token, "name")
    ensures r[2] == DisplayField(token, "token_type") && r[3] == ExpiryCell(token)
  {
    [DisplayField(token, "id"), DisplayField(token, "name"), DisplayField(token, "token_type"), ExpiryCell(token)]
  }

  /** The rows of `token list`, when the result holds a `tokens` array. */
  function TokenRows(result: Value): (r: Option<seq<seq<string>>>)
    ensures r.Some? <==> AsArray(Index(result, "tokens")).Some?
    ensures r.Some? ==> Rectangular(TokenHeaders, r.value)
    ensures r.Some? ==> |r.value| == |Index(result, "tokens").items|
    ensures r.Some? ==> forall j :: 0 <= j < |r.value| ==> r.value[j] == TokenRow(Index(result, "tokens").items[j])
  {
    match AsArray(Index(result, "tokens"))
    case Some(tokens) => Some(seq(|tokens|, i requires 0 <= i < |tokens| => TokenRow(tokens[i])))
    case None => None
  }

  // ---------------------------------------------------------------- accounts

  const AccountHeaders: seq<string> := ["USERNAME", "DUCKLINGS"]

  /** One duckling as `type (status)`: the type, then the status in
      parentheses after a space. */
  function DucklingLabel(d: Value): (r: string)
    ensures var t, st := DisplayField(d, "type"), DisplayField(d, "status");
            && |r| == |t| + |st| + 3
            && OccursAt(r, t, 0)
            && OccursAt(r, " (", |t|)
            && OccursAt(r, st, |t| + 2)
            && r[|r| - 1] == ')'
  {
    var t, st := DisplayField(d, "type"), DisplayField(d, "status");
    var r := t + " (" + st + ")";
    assert r[0..|t|] == t;
    assert r[|t|..|t| + 2] == " (";
    assert r[|t| + 2..|t| + 2 + |st|] == st;
    r
  }

  function DucklingLabels(ds: seq<Value>): seq<string> {
    seq(|ds|, i requires 0 <= i < |ds| => DucklingLabel(ds[i]))
  }

  lemma DucklingLabelsAt(ds: seq<Value>, k: nat)
    requires k < |ds|
    ensures |DucklingLabels(ds)| == |ds| && DucklingLabels(ds)[k] == DucklingLabel(ds[k])
  {
  }

  /** The DUCKLINGS cell: the labels of the account's ducklings joined with
      `, `. It is empty exactly when the account has no ducklings, since
      every label has at least its parentheses. */
  function DucklingsCell(account: Value): (r: string)
    ensures r == "" <==> AsArray(Index(account, "ducklings")).None? || Index(account, "ducklings").items == []
  {
    match AsArray(Index(account, "ducklings"))
    case Some(ds) =>
      var labels := DucklingLabels(ds);
      assert labels != [] ==> |Join(labels, ", ")| >= |labels[|labels| - 1]| by {
        if labels != [] {
          JoinLength(labels, ", ");
        }
      }
      Join(labels, ", ")
    case None => ""
  }

  // The layout of the cell, in three lemmas: the label of duckling `k`
  // starts after every earlier label and its `, `; a `, ` follows every
  // label but the last, and the next label follows it; the cell ends with
  // the last label.

  lemma DucklingsCellShowsEach(account: Value, ds: seq<Value>, k: nat)
    requires Index(account, "ducklings") == Array(ds) && k < |ds|
    ensures OccursAt(DucklingsCell(account), DucklingLabel(ds[k]), JoinStart(DucklingLabels(ds), ", ", k))
  {
    DucklingsCellIsJoin(account, ds);
    DucklingLabelsAt(ds, k);
    JoinPartAt(DucklingLabels(ds), ", ", k);
  }

  lemma DucklingsCellSeparated(account: Value, ds: seq<Value>, k: nat)
    requires Index(account, "ducklings") == Array(ds) && k + 1 < |ds|
    ensures OccursAt(DucklingsCell(account), ", ", JoinStart(DucklingLabels(ds), ", ", k) + |DucklingLabel(ds[k])|)
    ensures JoinStart(DucklingLabels(ds), ", ", k + 1)
            == JoinStart(DucklingLabels(ds), ", ", k) + |DucklingLabel(ds[k])| + 2
  {
    DucklingsCellIsJoin(account, ds);
    DucklingLabelsAt(ds, k);
    JoinSeparatorAt(DucklingLabels(ds), ", ", k);
  }

  lemma DucklingsCellEnds(account: Value, ds: seq<Value>)
    requires Index(account, "ducklings") == Array(ds) && ds != []
    ensures |DucklingsCell(account)|
            == JoinStart(DucklingLabels(ds), ", ", |ds| - 1) + |DucklingLabel(ds[|ds| - 1])|
  {
    var labels, n := DucklingLabels(ds), |ds| - 1;
    DucklingsCellIsJoin(account, ds);
    DucklingLabelsAt(ds, n);
    JoinLength(labels, ", ");
    assert |Join(labels, ", ")| == JoinStart(labels, ", ", n) + |labels[n]|;
  }

  lemma DucklingsCellIsJoin(account: Value, ds: seq<Value>)
    requires Index(account, "ducklings") == Array(ds)
    ensures DucklingsCell(account) == Join(DucklingLabels(ds), ", ")
  {
    assert AsArray(Index(account, "ducklings")) == Some(ds);
  }

  lemma DucklingsExample()
    ensures DucklingsCell(Object(map["ducklings" := Array([ExampleRunning(), ExampleNoStatus()])]))
            == "read_write (running), read_scaling (-)"
  {
    var ds := [ExampleRunning(), ExampleNoStatus()];
    ExampleLabels();
    assert DucklingLabels(ds) == ["read_write (running)", "read_scaling (-)"];
    ExampleJoin();
  }

  function ExampleRunning(): Value {
    Object(map["type" := Str("read_write"), "status" := Str("running")])
  }

  function ExampleNoStatus(): Value {
    Object(map["type" := Str("read_scaling")])
  }

  lemma ExampleLabels()
    ensures DucklingLabel(ExampleRunning()) == "read_write (running)"
    ensures DucklingLabel(ExampleNoStatus()) == "read_scaling (-)"
  {
    assert DisplayField(ExampleRunning(), "type") == "read_write";
    assert DisplayField(ExampleRunning(), "status") == "running";
    assert DisplayField(ExampleNoStatus(), "type") == "read_scaling";
    assert DisplayField(ExampleNoStatus(), "status") == "-";
  }

  lemma ExampleJoin()
    ensures Join(["read_write (running)", "read_scaling (-)"], ", ") == "read_write (running), read_scaling (-)"
  {
    assert ["read_write (running)", "read_scaling (-)"][1..] == ["read_scaling (-)"];
  }

  /** A row of `account list-active`: the username and the ducklings. */
  function AccountRow(account: Value): (r: seq<string>)
    ensures |r| == |AccountHeaders|
    ensures r[0] == DisplayField(account, "username") && r[1] == DucklingsCell(account)
  {
    [DisplayField(account, "username"), DucklingsCell(account)]
  }

  /** The rows of `account list-active`, when the result holds an `accounts`
      array. */
  function AccountRows(result: Value): (r: Option<seq<seq<string>>>)
    ensures r.Some? <==> AsArray(Index(result, "accounts")).Some?
    ensures r.Some? ==> Rectangular(AccountHeaders, r.value)
    ensures r.Some? ==> |r.value| == |Index(result, "accounts").items|
    ensures r.Some? ==> forall j :: 0 <= j < |r.value| ==> r.value[j] == AccountRow(Index(result, "accounts").items[j])
  {
    match AsArray(Index(result, "accounts"))
    case Some(accounts) => Some(seq(|accounts|, i requires 0 <= i < |accounts| => AccountRow(accounts[i])))
    case None => None
  }

  // ---------------------------------------------------------------- duckling configuration

  const ReadWritePrefix: string := "read_write:   "
  const ReadScalingPrefix: string := "read_scaling: "

  /** The flock size as printed: the shortest decimal numeral that reads back
      as the number, or `-` when the field is not an unsigned 64-bit integer. */
  function FlockText(config: Value): (r: string)
    ensures var n := AsU64(Index(Index(config, "read_scaling"), "flock_size"));
            && (n.None? ==> r == "-")
            && (n.Some? ==> (forall i :: 0 <= i < |r| ==> IsDigit(r[i]))
                            && DecimalValue(r) == n.value
                            && (|r| > 1 ==> r[0] != '0'))
  {
    match AsU64(Index(Index(config, "read_scaling"), "flock_size"))
    case Some(n) => DecimalRoundTrip(n); Decimal(n)
    case None => "-"
  }

  function FlockSuffix(flock: string): string {
    " (flock_size: " + flock + ")"
  }

  /** `print_duckling_config`: two lines, read-write size first. */
  function DucklingConfigLines(config: Value): (r: seq<string>)
    ensures |r| == 2
  {
    [ReadWritePrefix + DisplayField(Index(config, "read_write"), "instance_size"),
     ReadScalingPrefix + DisplayField(Index(config, "read_scaling"), "instance_size")
     + FlockSuffix(FlockText(config))]
  }

  /** A configuration shaped like the one `duckling set` sends shows the
      sizes it holds and the flock size in decimal, which reads back as the
      number. */
  lemma DucklingConfigLinesShowSettings(rw: string, rs: string, flock: U32)
    ensures var config := Object(map[
              "read_write" := Object(map["instance_size" := Str(rw)]),
              "read_scaling" := Object(map["instance_size" := Str(rs), "flock_size" := Int(flock)])]);
            && DucklingConfigLines(config)
               == [ReadWritePrefix + rw, ReadScalingPrefix + rs + FlockSuffix(Decimal(flock))]
            && DecimalValue(FlockText(config)) == flock
  {
    DecimalRoundTrip(flock);
  }

  /** Every missing value shows as `-`. */
  lemma DucklingConfigLinesEmpty()
    ensures DucklingConfigLines(Object(map[])) == ["read_write:   -", "read_scaling: - (flock_size: -)"]
  {
    assert FlockSuffix("-") == " (flock_size: -)";
    assert ReadScalingPrefix + "-" + " (flock_size: -)" == "read_scaling: - (flock_size: -)";
    assert ReadWritePrefix + "-" == "read_write:   -";
  }

  /** A flock size beyond 64 bits, or not an integer, shows as `-` while the
      sizes still show. */
  lemma FlockOutOfRangeShowsDash(rw: string, rs: string, flock: Value)
    requires !(flock.Int? && 0 <= flock.i < U64_LIMIT)
    ensures var config := Object(map[
              "read_write" := Object(map["instance_size" := Str(rw)]),
              "read_scaling" := Object(map["instance_size" := Str(rs), "flock_size" := flock])]);
            DucklingConfigLines(config) == [ReadWritePrefix + rw, ReadScalingPrefix + rs + FlockSuffix("-")]
  {
  }
}
