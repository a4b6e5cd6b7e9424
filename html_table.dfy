// `html_table` of src/services/html_generator.py: renders a table
// description (kind, column names, data rows) as an HTML fragment made of
// an optional note paragraph, an opening <table> tag, a header row and
// one <tr> per body row. No value is escaped and no </table> is emitted.
//
// The expected output is given by specification functions over a
// structured view of the body (a sequence of Row values); the methods
// mirror the source's `+=` loops and are proved to produce exactly that
// output; lemmas state the shape of the body rows in closed form.

module HtmlTable {
  import opened HtmlText

  /** One group of a grouped table: `data[i][0]` and `data[i][1]`. */
  datatype Group = Group(name: string, members: seq<seq<string>>)

  /** The `type` and `data` entries of the table description: the two
      kinds the source renders, and every other `type` value. Cells are
      the already-stringified values that the f-strings interpolate. */
  datatype Body =
    | Single(rows: seq<seq<string>>)
    | Grouped(groups: seq<Group>)
    | Other

  datatype Table = Table(columns: seq<string>, body: Body)

  /** A body cell: a plain data cell, or a group's label cell spanning
      `span` rows. */
  datatype Cell = Data(text: string) | Label(span: nat, text: string)

  /** A body row with its two class markers. */
  datatype Row = Row(odd: bool, last: bool, cells: seq<Cell>)

  // ---------------------------------------------------------------------
  // Input shape: what the source indexes without raising IndexError

  /** The number of data cells next to a group's label cell:
      `range(n_col - 1)` is empty when there are no columns. */
  function LabelledWidth(nCol: nat): nat
  {
    if nCol == 0 then 0 else nCol - 1
  }

  /** Every member row has `w` values, and the first member row exists
      whenever a value of it is read. */
  predicate GroupFits(g: Group, w: nat)
  {
    (w > 0 ==> |g.members| > 0) &&
    forall j :: 0 <= j < |g.members| ==> |g.members[j]| >= w
  }

  predicate RowsFit(rows: seq<seq<string>>, nCol: nat)
  {
    forall i :: 0 <= i < |rows| ==> |rows[i]| >= nCol
  }

  predicate GroupsFit(groups: seq<Group>, w: nat)
  {
    forall i {:trigger GroupFits(groups[i], w)} :: 0 <= i < |groups| ==> GroupFits(groups[i], w)
  }

  predicate WellFormed(t: Table)
  {
    match t.body
    case Single(rows) => RowsFit(rows, |t.columns|)
    case Grouped(groups) => GroupsFit(groups, LabelledWidth(|t.columns|))
    case Other => true
  }

  // ---------------------------------------------------------------------
  // Markup of one piece

  /** The opening of the note paragraph: `<p>` and the bold label. */
  const NoteOpen := "<p>" + "<span style=\"font-weight: bold;\">Note: </span>"
  const OddMarker := "odd-row "
  const LastMarker := "last-row "

  function NoteHtml(note: string): string
  {
    if note == "" then "" else NoteOpen + note + "</p>"
  }

  function HeaderCell(column: string): string
  {
    "<th>" + column + "</th>"
  }

  function HeaderHtml(format: string, columns: seq<string>): string
  {
    "<table class=\"" + format + "\">" + "<tr class=\"first-row\">"
    + FlatMap(columns, HeaderCell) + "</tr>"
  }

  function CellHtml(c: Cell): string
  {
    match c
    case Data(text) => "<td>" + text + "</td>"
    case Label(span, text) =>
      "<td rowspan=\"" + Decimal(span) + "\" style=\"font-weight: bold;\">" + text + "</td>"
  }

  function RowClass(odd: bool, last: bool): string
  {
    (if odd then OddMarker else "") + (if last then LastMarker else "")
  }

  function RowOpen(odd: bool, last: bool): string
  {
    "<tr class=\"" + RowClass(odd, last) + "\">"
  }

  function RowHtml(r: Row): string
  {
    RowOpen(r.odd, r.last) + FlatMap(r.cells, CellHtml) + "</tr>"
  }

  /** The class attribute names `odd-row` exactly for odd rows and
      `last-row` exactly for last rows, `odd-row` first when both apply. */
  lemma RowClassMarkers(odd: bool, last: bool)
    ensures odd <==> OddMarker <= RowClass(odd, last)
    ensures last <==> |RowClass(odd, last)| >= |LastMarker|
                      && RowClass(odd, last)[|RowClass(odd, last)| - |LastMarker|..] == LastMarker
  {
    var c := RowClass(odd, last);
    if !odd && !last {
      assert |c| == 0;
    } else if odd && !last {
      assert c == OddMarker;
      assert c[0] != LastMarker[0];
    } else if !odd && last {
      assert c == LastMarker;
      assert c[0] != OddMarker[0];
    }
  }

  // ---------------------------------------------------------------------
  // The body rows the source emits

  /** Data cells for the given values, in order. */
  function DataCells(values: seq<string>): seq<Cell>
  {
    if |values| == 0 then [] else DataCells(values[..|values| - 1]) + [Data(values[|values| - 1])]
  }

  /** Row i of a single table of n rows. */
  function SingleRow(rows: seq<seq<string>>, nCol: nat, i: nat): Row
    requires i < |rows| && |rows[i]| >= nCol
  {
    Row(i % 2 == 1, i == |rows| - 1, DataCells(rows[i][..nCol]))
  }

  /** The first n body rows of a single table, as the row loop emits them. */
  function SingleBody(rows: seq<seq<string>>, nCol: nat, n: nat): seq<Row>
    requires n <= |rows| && RowsFit(rows, nCol)
  {
    if n == 0 then [] else SingleBody(rows, nCol, n - 1) + [SingleRow(rows, nCol, n - 1)]
  }

  /** The data cells of a group's first physical row: the first `k` values
      of its first member row (none at all when k is 0, in which case the
      member row is never read). */
  function LeadCells(g: Group, k: nat): seq<Cell>
    requires k == 0 || (|g.members| > 0 && |g.members[0]| >= k)
  {
    if k == 0 then [] else DataCells(g.members[0][..k])
  }

  /** The first physical row of group i: the label cell spanning the
      group's member count, then the first member row's data cells. It is
      striped by the group index and marked last only when the group is
      the last one and has exactly one member. */
  function FirstRow(groups: seq<Group>, w: nat, i: nat): Row
    requires i < |groups| && GroupFits(groups[i], w)
  {
    var g := groups[i];
    var m := |g.members|;
    Row(i % 2 == 1, i == |groups| - 1 && 0 == m - 1, [Label(m, g.name)] + LeadCells(g, w))
  }

  /** The physical row of member j (j >= 1) of group i. */
  function MemberRow(groups: seq<Group>, w: nat, i: nat, j: nat): Row
    requires i < |groups| && GroupFits(groups[i], w) && j < |groups[i].members|
  {
    var m := |groups[i].members|;
    Row(i % 2 == 1, i == |groups| - 1 && j == m - 1, DataCells(groups[i].members[j][..w]))
  }

  /** The rows of members 1 .. j-1 of group i. */
  function LaterRows(groups: seq<Group>, w: nat, i: nat, j: nat): seq<Row>
    requires i < |groups| && GroupFits(groups[i], w) && (j <= 1 || j <= |groups[i].members|)
  {
    if j <= 1 then [] else LaterRows(groups, w, i, j - 1) + [MemberRow(groups, w, i, j - 1)]
  }

  /** All physical rows of group i. */
  function GroupBlock(groups: seq<Group>, w: nat, i: nat): seq<Row>
    requires i < |groups| && GroupFits(groups[i], w)
  {
    [FirstRow(groups, w, i)] + LaterRows(groups, w, i, |groups[i].members|)
  }

  /** The physical rows of the first n groups, as the group loop emits them. */
  function GroupBody(groups: seq<Group>, w: nat, n: nat): seq<Row>
    requires n <= |groups| && GroupsFit(groups, w)
  {
    if n == 0 then [] else GroupBody(groups, w, n - 1) + GroupBlock(groups, w, n - 1)
  }

  function BodyRows(t: Table): seq<Row>
    requires WellFormed(t)
  {
    match t.body
    case Single(rows) => SingleBody(rows, |t.columns|, |rows|)
    case Grouped(groups) => GroupBody(groups, LabelledWidth(|t.columns|), |groups|)
    case Other => []
  }

  /** The whole fragment `html_table(dataframe, note, format)` returns. */
  function TableHtml(t: Table, note: string, format: string): string
    requires WellFormed(t)
  {
    NoteHtml(note) + HeaderHtml(format, t.columns) + FlatMap(BodyRows(t), RowHtml)
  }

  // ---------------------------------------------------------------------
  // The renderer, loop by loop

  /** The header loop: one <th> per column, in order. */
  method RenderHeader(format: string, columns: seq<string>) returns (html: string)
    ensures html == HeaderHtml(format, columns)
  {
    html := "<table class=\"" + format + "\">";
    html := html + "<tr class=\"first-row\">";
    ghost var start := html;
    for c := 0 to |columns|
      invariant html == start + FlatMap(columns[..c], HeaderCell)
    {
      assert columns[..c + 1] == columns[..c] + [columns[c]];
      FlatMapSnoc(columns[..c], columns[c], HeaderCell);
      Assoc(start, FlatMap(columns[..c], HeaderCell), HeaderCell(columns[c]));
      html := html + ("<th>" + columns[c] + "</th>");
    }
    assert columns[..|columns|] == columns;
    html := html + "</tr>";
  }

  /** The cell loop: one <td> per value among the first n. */
  method RenderCells(values: seq<string>, n: nat) returns (html: string)
    requires n <= |values|
    ensures html == FlatMap(DataCells(values[..n]), CellHtml)
  {
    html := "";
    for j := 0 to n
      invariant html == FlatMap(DataCells(values[..j]), CellHtml)
    {
      assert values[..j + 1][..j] == values[..j];
      FlatMapSnoc(DataCells(values[..j]), Data(values[j]), CellHtml);
      html := html + ("<td>" + values[j] + "</td>");
    }
  }

  /** The opening of a body row, with its class markers. */
  method RenderRowOpen(odd: bool, last: bool) returns (html: string)
    ensures html == RowOpen(odd, last)
  {
    html := "<tr class=\"";
    if odd {
      html := html + OddMarker;
    }
    if last {
      html := html + LastMarker;
    }
    html := html + "\">";
    Assoc("<tr class=\"", if odd then OddMarker else "", if last then LastMarker else "");
  }

  /** The body of a single table: row i striped when i is odd, marked
      last when it is row n-1. */
  method RenderSingleBody(rows: seq<seq<string>>, nCol: nat) returns (html: string)
    requires RowsFit(rows, nCol)
    ensures html == FlatMap(SingleBody(rows, nCol, |rows|), RowHtml)
  {
    html := "";
    var nRow := |rows|;
    for i := 0 to nRow
      invariant html == FlatMap(SingleBody(rows, nCol, i), RowHtml)
    {
      var open := RenderRowOpen(i % 2 == 1, i == nRow - 1);
      var cells := RenderCells(rows[i], nCol);
      FlatMapSnoc(SingleBody(rows, nCol, i), SingleRow(rows, nCol, i), RowHtml);
      html := html + (open + cells + "</tr>");
    }
  }

  /** The first physical row of group i. */
  method RenderFirstRow(groups: seq<Group>, w: nat, i: nat) returns (html: string)
    requires i < |groups| && GroupFits(groups[i], w)
    ensures html == RowHtml(FirstRow(groups, w, i))
  {
    var name := groups[i].name;
    var nRow := |groups[i].members|;
    var open := RenderRowOpen(i % 2 == 1, i == |groups| - 1 && 0 == nRow - 1);
    var cells := "<td rowspan=\"" + Decimal(nRow) + "\" style=\"font-weight: bold;\">" + name + "</td>";
    var lead := "";
    if w > 0 {
      lead := RenderCells(groups[i].members[0], w);
    }
    FlatMapSingle(Label(nRow, name), CellHtml);
    FlatMapAppend([Label(nRow, name)], LeadCells(groups[i], w), CellHtml);
    cells := cells + lead;
    html := open + cells + "</tr>";
  }

  /** The member loop of group i: one row per member after the first,
      marked last only for the final member of the final group. */
  method RenderLaterRows(groups: seq<Group>, w: nat, i: nat) returns (html: string)
    requires i < |groups| && GroupFits(groups[i], w)
    ensures html == FlatMap(LaterRows(groups, w, i, |groups[i].members|), RowHtml)
  {
    html := "";
    var members := groups[i].members;
    var nRow := |members|;
    var j := 1;
    while j < nRow
      invariant 1 <= j && (j <= nRow || j == 1)
      invariant html == FlatMap(LaterRows(groups, w, i, j), RowHtml)
    {
      var open := RenderRowOpen(i % 2 == 1, i == |groups| - 1 && j == nRow - 1);
      var cells := RenderCells(members[j], w);
      FlatMapSnoc(LaterRows(groups, w, i, j), MemberRow(groups, w, i, j), RowHtml);
      html := html + (open + cells + "</tr>");
      j := j + 1;
    }
    assert j == nRow || (nRow == 0 && j == 1);
  }

  /** The body of a grouped table: per group, its first row and then one
      row per further member, all striped by the group index. */
  method RenderGroupBody(groups: seq<Group>, w: nat) returns (html: string)
    requires GroupsFit(groups, w)
    ensures html == FlatMap(GroupBody(groups, w, |groups|), RowHtml)
  {
    html := "";
    var nGroup := |groups|;
    for i := 0 to nGroup
      invariant html == FlatMap(GroupBody(groups, w, i), RowHtml)
    {
      var first := RenderFirstRow(groups, w, i);
      var later := RenderLaterRows(groups, w, i);
      FlatMapSingle(FirstRow(groups, w, i), RowHtml);
      FlatMapAppend([FirstRow(groups, w, i)], LaterRows(groups, w, i, |groups[i].members|), RowHtml);
      FlatMapAppend(GroupBody(groups, w, i), GroupBlock(groups, w, i), RowHtml);
      html := html + (first + later);
    }
  }

  /** `html_table(dataframe, note, format)`. */
  method RenderTable(t: Table, note: string, format: string) returns (html: string)
    requires WellFormed(t)
    ensures html == TableHtml(t, note, format)
  {
    html := "";
    if note != "" {
      html := html + (NoteOpen + note + "</p>");
    }
    assert html == NoteHtml(note);
    var nCol := |t.columns|;
    var header := RenderHeader(format, t.columns);
    html := html + header;
    var body := "";
    match t.body {
      case Single(rows) =>
        body := RenderSingleBody(rows, nCol);
      case Grouped(groups) =>
        body := RenderGroupBody(groups, LabelledWidth(nCol));
      case Other =>
    }
    assert body == FlatMap(BodyRows(t), RowHtml);
    html := html + body;
  }
}
