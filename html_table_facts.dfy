// What `html_table` promises about the fragment it returns, proved of the
// specification functions of module HtmlTable (which RenderTable is proved
// to compute): the prefix, the shape and markers of single tables, and the
// row spans, striping and `last-row` rule of grouped tables.

module HtmlTableFacts {
  import opened HtmlText
  import opened HtmlTable

  // ---------------------------------------------------------------------
  // Prefix

  /** The fragment opens with the note paragraph exactly when the note is
      non-empty, then the <table> tag and the header row; with no body rows
      (a kind other than single or group, or no data) that is all of it. */
  lemma TablePrefix(t: Table, note: string, format: string)
    requires WellFormed(t)
    ensures NoteHtml(note) + HeaderHtml(format, t.columns) <= TableHtml(t, note, format)
    ensures note != "" <==> NoteOpen <= TableHtml(t, note, format)
    ensures note != "" ==> NoteOpen + note + "</p>" <= TableHtml(t, note, format)
    ensures BodyRows(t) == [] ==> TableHtml(t, note, format) == NoteHtml(note) + HeaderHtml(format, t.columns)
    ensures t.body.Other? ==> TableHtml(t, note, format) == NoteHtml(note) + HeaderHtml(format, t.columns)
  {
    var html := TableHtml(t, note, format);
    var head := NoteHtml(note) + HeaderHtml(format, t.columns);
    var body := FlatMap(BodyRows(t), RowHtml);
    assert html == head + body;
    PrefixOfAppend(head, body, html);
    if note == "" {
      HeaderOpensTable(format, t.columns);
      assert head == HeaderHtml(format, t.columns);
      assert html[1] == 't';
      assert NoteOpen[1] == 'p';
    } else {
      var para := NoteOpen + note + "</p>";
      assert para == NoteHtml(note);
      PrefixOfAppend(para, HeaderHtml(format, t.columns), head);
      PrefixTrans(para, head, html);
      PrefixOfAppend(NoteOpen, note + "</p>", para);
      PrefixTrans(NoteOpen, para, html);
    }
    if BodyRows(t) == [] {
      assert body == [];
    }
  }

  /** The header starts with the `<table` tag. */
  lemma HeaderOpensTable(format: string, columns: seq<string>)
    ensures |HeaderHtml(format, columns)| > 1 && HeaderHtml(format, columns)[1] == 't'
  {
    var open := "<table class=\"";
    assert open[1] == 't';
    PrefixOfAppend(open, format + "\">" + "<tr class=\"first-row\">" + FlatMap(columns, HeaderCell) + "</tr>",
                   open + (format + "\">" + "<tr class=\"first-row\">" + FlatMap(columns, HeaderCell) + "</tr>"));
  }

  predicate EndsWithRowClose(s: string)
  {
    |s| >= 5 && s[|s| - 5..] == "</tr>"
  }

  lemma EndsWithRowCloseAppend(a: string, b: string)
    requires EndsWithRowClose(b)
    ensures EndsWithRowClose(a + b)
  {
    SuffixOfAppend(a, b, 5);
  }

  lemma HeaderEndsWithRowClose(format: string, columns: seq<string>)
    ensures EndsWithRowClose(HeaderHtml(format, columns))
  {
    EndsWithRowCloseAppend("<table class=\"" + format + "\">" + "<tr class=\"first-row\">"
                           + FlatMap(columns, HeaderCell), "</tr>");
  }

  lemma RowEndsWithRowClose(r: Row)
    ensures EndsWithRowClose(RowHtml(r))
  {
    EndsWithRowCloseAppend(RowOpen(r.odd, r.last) + FlatMap(r.cells, CellHtml), "</tr>");
  }

  lemma BodyEndsWithRowClose(rows: seq<Row>)
    requires |rows| > 0
    ensures EndsWithRowClose(FlatMap(rows, RowHtml))
  {
    var body := FlatMap(rows, RowHtml);
    var last := RowHtml(rows[|rows| - 1]);
    RowEndsWithRowClose(rows[|rows| - 1]);
    FlatMapEndsWithLast(rows, RowHtml);
    SuffixOfSuffix(body, last, 5);
  }

  /** No closing </table> tag is emitted: the fragment always ends with
      the </tr> of its last row (the header row when there is no body). */
  lemma TableEndsWithRow(t: Table, note: string, format: string)
    requires WellFormed(t)
    ensures |TableHtml(t, note, format)| >= 5
    ensures TableHtml(t, note, format)[|TableHtml(t, note, format)| - 5..] == "</tr>"
  {
    var rows := BodyRows(t);
    var head := NoteHtml(note) + HeaderHtml(format, t.columns);
    HeaderEndsWithRowClose(format, t.columns);
    EndsWithRowCloseAppend(NoteHtml(note), HeaderHtml(format, t.columns));
    if rows == [] {
      assert TableHtml(t, note, format) == head;
    } else {
      BodyEndsWithRowClose(rows);
      EndsWithRowCloseAppend(head, FlatMap(rows, RowHtml));
    }
  }

  // ---------------------------------------------------------------------
  // Data cells

  /** One data cell per value, holding that value, in order. */
  lemma {:induction false} DataCellsAt(values: seq<string>)
    ensures |DataCells(values)| == |values|
    ensures forall j :: 0 <= j < |values| ==> DataCells(values)[j] == Data(values[j])
  {
    if |values| > 0 {
      DataCellsAt(values[..|values| - 1]);
    }
  }

  /** The first `w` values of a row of at least `w` values, as cells. */
  lemma DataCellsOfPrefix(values: seq<string>, w: nat)
    requires |values| >= w
    ensures |DataCells(values[..w])| == w
    ensures forall j :: 0 <= j < w ==> DataCells(values[..w])[j] == Data(values[j])
  {
    DataCellsAt(values[..w]);
  }

  // ---------------------------------------------------------------------
  // Single tables

  lemma {:induction false} SingleBodyPrefix(rows: seq<seq<string>>, nCol: nat, n: nat)
    requires n <= |rows| && RowsFit(rows, nCol)
    ensures |SingleBody(rows, nCol, n)| == n
    ensures forall i :: 0 <= i < n ==> SingleBody(rows, nCol, n)[i] == SingleRow(rows, nCol, i)
  {
    if n > 0 {
      SingleBodyPrefix(rows, nCol, n - 1);
    }
  }

  /** A single table of n rows has exactly n body rows; row i holds the
      first n_col values of data[i] in order, is striped iff i is odd and
      is marked last iff it is row n-1. */
  lemma SingleTableShape(rows: seq<seq<string>>, nCol: nat)
    requires RowsFit(rows, nCol)
    ensures |SingleBody(rows, nCol, |rows|)| == |rows|
    ensures forall i :: 0 <= i < |rows| ==>
      var r := SingleBody(rows, nCol, |rows|)[i];
      && (r.odd <==> i % 2 == 1)
      && (r.last <==> i == |rows| - 1)
      && |r.cells| == nCol
      && forall j :: 0 <= j < nCol ==> r.cells[j] == Data(rows[i][j])
  {
    SingleBodyPrefix(rows, nCol, |rows|);
    forall i | 0 <= i < |rows|
      ensures |SingleRow(rows, nCol, i).cells| == nCol
      ensures forall j :: 0 <= j < nCol ==> SingleRow(rows, nCol, i).cells[j] == Data(rows[i][j])
    {
      DataCellsOfPrefix(rows[i], nCol);
    }
  }

  // ---------------------------------------------------------------------
  // Grouped tables: one group

  /** The number of physical rows a group produces: its member count, but
      one row (label only) for a group without members. */
  function RowCount(g: Group): nat
  {
    if |g.members| == 0 then 1 else |g.members|
  }

  lemma {:induction false} LaterRowsAt(groups: seq<Group>, w: nat, i: nat, j: nat)
    requires i < |groups| && GroupFits(groups[i], w) && (j <= 1 || j <= |groups[i].members|)
    ensures |LaterRows(groups, w, i, j)| == if j == 0 then 0 else j - 1
    ensures forall k :: 0 <= k < |LaterRows(groups, w, i, j)| ==>
      LaterRows(groups, w, i, j)[k] == MemberRow(groups, w, i, k + 1)
  {
    if j > 1 {
      LaterRowsAt(groups, w, i, j - 1);
    }
  }

  /** The first physical row of a group holds the label cell, spanning
      the member count m, followed by the first member's first w values. */
  lemma FirstRowCells(groups: seq<Group>, w: nat, i: nat)
    requires i < |groups| && GroupFits(groups[i], w)
    ensures var r := FirstRow(groups, w, i);
      && |r.cells| == 1 + w
      && r.cells[0] == Label(|groups[i].members|, groups[i].name)
      && forall c :: 0 <= c < w ==> r.cells[c + 1] == Data(groups[i].members[0][c])
  {
    if w > 0 {
      DataCellsOfPrefix(groups[i].members[0], w);
    }
  }

  /** A later row of a group holds that member's first w values. */
  lemma MemberRowCells(groups: seq<Group>, w: nat, i: nat, j: nat)
    requires i < |groups| && GroupFits(groups[i], w) && j < |groups[i].members|
    ensures |MemberRow(groups, w, i, j).cells| == w
    ensures forall c :: 0 <= c < w ==> MemberRow(groups, w, i, j).cells[c] == Data(groups[i].members[j][c])
  {
    DataCellsOfPrefix(groups[i].members[j], w);
  }

  /** Group i yields max(m, 1) physical rows: its first row, then one row
      per member j >= 1. */
  lemma GroupBlockRows(groups: seq<Group>, w: nat, i: nat)
    requires i < |groups| && GroupFits(groups[i], w)
    ensures |GroupBlock(groups, w, i)| == RowCount(groups[i])
    ensures GroupBlock(groups, w, i)[0] == FirstRow(groups, w, i)
    ensures forall j :: 1 <= j < |groups[i].members| ==> GroupBlock(groups, w, i)[j] == MemberRow(groups, w, i, j)
  {
    LaterRowsAt(groups, w, i, |groups[i].members|);
  }

  /** All rows of group i are striped by the parity of i. The first row is
      marked last only when the group is the last and has exactly one
      member; row j >= 1 only when the group is the last and j == m-1. */
  lemma GroupBlockMarkers(groups: seq<Group>, w: nat, i: nat)
    requires i < |groups| && GroupFits(groups[i], w)
    ensures forall k :: 0 <= k < |GroupBlock(groups, w, i)| ==> (GroupBlock(groups, w, i)[k].odd <==> i % 2 == 1)
    ensures GroupBlock(groups, w, i)[0].last <==> i == |groups| - 1 && |groups[i].members| == 1
    ensures forall j :: 1 <= j < |GroupBlock(groups, w, i)| ==>
      (GroupBlock(groups, w, i)[j].last <==> i == |groups| - 1 && j == |groups[i].members| - 1)
  {
    GroupBlockRows(groups, w, i);
  }

  // ---------------------------------------------------------------------
  // Grouped tables: the whole body

  /** The number of physical rows of the first n groups. */
  function RowsBefore(groups: seq<Group>, n: nat): nat
    requires n <= |groups|
  {
    if n == 0 then 0 else RowsBefore(groups, n - 1) + RowCount(groups[n - 1])
  }

  /** The total member count of the groups. */
  function MemberTotal(groups: seq<Group>): nat
  {
    if |groups| == 0 then 0 else MemberTotal(groups[..|groups| - 1]) + |groups[|groups| - 1].members|
  }

  lemma {:induction false} GroupBodyLength(groups: seq<Group>, w: nat, n: nat)
    requires n <= |groups| && GroupsFit(groups, w)
    ensures |GroupBody(groups, w, n)| == RowsBefore(groups, n)
  {
    if n > 0 {
      GroupBodyLength(groups, w, n - 1);
      assert |GroupBlock(groups, w, n - 1)| == RowCount(groups[n - 1]) by {
        GroupBlockRows(groups, w, n - 1);
      }
    }
  }

  /** The body of the first m groups is a prefix of the body of the
      first n groups, m <= n. */
  lemma {:induction false} GroupBodyPrefix(groups: seq<Group>, w: nat, m: nat, n: nat)
    requires m <= n <= |groups| && GroupsFit(groups, w)
    ensures |GroupBody(groups, w, m)| <= |GroupBody(groups, w, n)|
    ensures GroupBody(groups, w, n)[..|GroupBody(groups, w, m)|] == GroupBody(groups, w, m)
  {
    if m < n {
      GroupBodyPrefix(groups, w, m, n - 1);
      var prev := GroupBody(groups, w, n - 1);
      assert GroupBody(groups, w, n) == prev + GroupBlock(groups, w, n - 1);
      assert GroupBody(groups, w, n)[..|prev|] == prev;
    }
  }

  /** Group i occupies the RowCount(group i) rows of the body from
      RowsBefore(i) on: the body is the blocks laid end to end. */
  lemma GroupBodyAt(groups: seq<Group>, w: nat, i: nat, k: nat)
    requires i < |groups| && GroupsFit(groups, w)
    requires RowsBefore(groups, i) <= k < RowsBefore(groups, i) + RowCount(groups[i])
    ensures k < |GroupBody(groups, w, |groups|)|
    ensures |GroupBlock(groups, w, i)| == RowCount(groups[i])
    ensures GroupBody(groups, w, |groups|)[k] == GroupBlock(groups, w, i)[k - RowsBefore(groups, i)]
  {
    GroupBodyLength(groups, w, i);
    assert |GroupBlock(groups, w, i)| == RowCount(groups[i]) by {
      GroupBlockRows(groups, w, i);
    }
    GroupBodyPrefix(groups, w, i + 1, |groups|);
    var prev := GroupBody(groups, w, i);
    var next := GroupBody(groups, w, i + 1);
    assert next == prev + GroupBlock(groups, w, i);
    assert next[k] == GroupBlock(groups, w, i)[k - |prev|];
    assert GroupBody(groups, w, |groups|)[..|next|][k] == next[k];
  }

  /** When every group has a member (always so once there are two or more
      columns), the body has one row per member row. */
  lemma GroupRowTotal(groups: seq<Group>, w: nat)
    requires GroupsFit(groups, w)
    requires forall i :: 0 <= i < |groups| ==> |groups[i].members| > 0
    ensures |GroupBody(groups, w, |groups|)| == MemberTotal(groups)
  {
    GroupBodyLength(groups, w, |groups|);
    RowsBeforeIsMemberTotal(groups, |groups|);
    assert groups[..|groups|] == groups;
  }

  lemma {:induction false} RowsBeforeIsMemberTotal(groups: seq<Group>, n: nat)
    requires n <= |groups|
    requires forall i :: 0 <= i < |groups| ==> |groups[i].members| > 0
    ensures RowsBefore(groups, n) == MemberTotal(groups[..n])
  {
    if n > 0 {
      RowsBeforeIsMemberTotal(groups, n - 1);
      assert groups[..n][..n - 1] == groups[..n - 1];
    }
  }

  /** Every physical row of group i, its first row and its later rows,
      carries `odd-row` iff i is odd, whatever its position in the body. */
  lemma GroupStriping(groups: seq<Group>, w: nat, i: nat, k: nat)
    requires GroupsFit(groups, w) && i < |groups|
    requires RowsBefore(groups, i) <= k < RowsBefore(groups, i) + RowCount(groups[i])
    ensures k < |GroupBody(groups, w, |groups|)|
    ensures GroupBody(groups, w, |groups|)[k].odd <==> i % 2 == 1
  {
    GroupBodyAt(groups, w, i, k);
    GroupBlockMarkers(groups, w, i);
    var b := GroupBlock(groups, w, i);
    assert b[k - RowsBefore(groups, i)].odd <==> i % 2 == 1;
  }

  /** No row of a group other than the last group is marked last. */
  lemma {:induction false} NoLastRowBeforeLastGroup(groups: seq<Group>, w: nat, n: nat)
    requires n < |groups| && GroupsFit(groups, w)
    ensures forall k :: 0 <= k < |GroupBody(groups, w, n)| ==> !GroupBody(groups, w, n)[k].last
  {
    if n > 0 {
      NoLastRowBeforeLastGroup(groups, w, n - 1);
      GroupBlockRows(groups, w, n - 1);
      GroupBlockMarkers(groups, w, n - 1);
      var prev := GroupBody(groups, w, n - 1);
      var b := GroupBlock(groups, w, n - 1);
      assert GroupBody(groups, w, n) == prev + b;
      assert forall k :: 0 <= k < |b| ==> !b[k].last;
    }
  }

  /** In a grouped table exactly the final physical row carries
      `last-row`, provided the last group has a member; a memberless last
      group leaves no row marked. So the last group's first row is marked
      when that group has one member, and never when it has more. */
  lemma GroupLastRow(groups: seq<Group>, w: nat)
    requires GroupsFit(groups, w) && |groups| > 0
    ensures forall k :: 0 <= k < |GroupBody(groups, w, |groups|)| ==>
      (GroupBody(groups, w, |groups|)[k].last <==>
         k == |GroupBody(groups, w, |groups|)| - 1 && |groups[|groups| - 1].members| > 0)
  {
    var n := |groups|;
    var body := GroupBody(groups, w, n);
    var prev := GroupBody(groups, w, n - 1);
    var b := GroupBlock(groups, w, n - 1);
    var m := |groups[n - 1].members|;
    NoLastRowBeforeLastGroup(groups, w, n - 1);
    GroupBlockRows(groups, w, n - 1);
    GroupBlockMarkers(groups, w, n - 1);
    assert body == prev + b;
    forall k | 0 <= k < |body| ensures body[k].last <==> k == |body| - 1 && m > 0 {
      if k >= |prev| {
        assert body[k] == b[k - |prev|];
      } else {
        assert body[k] == prev[k];
      }
    }
  }

  // ---------------------------------------------------------------------
  // Grouped tables: the label column

  function CellLabels(c: Cell): seq<Cell>
  {
    if c.Label? then [c] else []
  }

  /** The label cells of a row, in order. */
  function RowLabels(r: Row): seq<Cell>
  {
    FlatMap(r.cells, CellLabels)
  }

  lemma {:induction false} DataCellsHaveNoLabel(values: seq<string>)
    ensures FlatMap(DataCells(values), CellLabels) == []
  {
    if |values| > 0 {
      DataCellsHaveNoLabel(values[..|values| - 1]);
      FlatMapSnoc(DataCells(values[..|values| - 1]), Data(values[|values| - 1]), CellLabels);
    }
  }

  lemma {:induction false} LaterRowsHaveNoLabel(groups: seq<Group>, w: nat, i: nat, j: nat)
    requires i < |groups| && GroupFits(groups[i], w) && (j <= 1 || j <= |groups[i].members|)
    ensures FlatMap(LaterRows(groups, w, i, j), RowLabels) == []
  {
    if j > 1 {
      LaterRowsHaveNoLabel(groups, w, i, j - 1);
      DataCellsHaveNoLabel(groups[i].members[j - 1][..w]);
      FlatMapSnoc(LaterRows(groups, w, i, j - 1), MemberRow(groups, w, i, j - 1), RowLabels);
    }
  }

  /** A group's block holds exactly one label cell: its own. */
  lemma BlockLabels(groups: seq<Group>, w: nat, i: nat)
    requires i < |groups| && GroupFits(groups[i], w)
    ensures FlatMap(GroupBlock(groups, w, i), RowLabels) == [Label(|groups[i].members|, groups[i].name)]
  {
    var g := groups[i];
    var own := Label(|g.members|, g.name);
    var first := FirstRow(groups, w, i);
    var later := LaterRows(groups, w, i, |g.members|);
    FlatMapAppend([first], later, RowLabels);
    FlatMapSingle(first, RowLabels);
    FlatMapAppend([own], LeadCells(g, w), CellLabels);
    FlatMapSingle(own, CellLabels);
    if w > 0 {
      DataCellsHaveNoLabel(g.members[0][..w]);
    }
    LaterRowsHaveNoLabel(groups, w, i, |g.members|);
  }

  lemma LabelsOfAppend(rows: seq<Row>, block: seq<Row>, own: Cell)
    requires FlatMap(block, RowLabels) == [own]
    ensures FlatMap(rows + block, RowLabels) == FlatMap(rows, RowLabels) + [own]
  {
    FlatMapAppend(rows, block, RowLabels);
  }

  /** The label cell group g is expected to contribute. */
  function GroupLabel(g: Group): seq<Cell>
  {
    [Label(|g.members|, g.name)]
  }

  lemma {:induction false} GroupBodyLabels(groups: seq<Group>, w: nat, n: nat)
    requires n <= |groups| && GroupsFit(groups, w)
    ensures FlatMap(GroupBody(groups, w, n), RowLabels) == FlatMap(groups[..n], GroupLabel)
  {
    if n > 0 {
      GroupBodyLabels(groups, w, n - 1);
      BlockLabels(groups, w, n - 1);
      LabelsOfAppend(GroupBody(groups, w, n - 1), GroupBlock(groups, w, n - 1), GroupLabel(groups[n - 1])[0]);
      TakeSnoc(groups, n);
      FlatMapSnoc(groups[..n - 1], groups[n - 1], GroupLabel);
    } else {
      assert GroupBody(groups, w, n) == [];
    }
  }

  lemma {:induction false} GroupLabelsAt(gs: seq<Group>)
    ensures |FlatMap(gs, GroupLabel)| == |gs|
    ensures forall i :: 0 <= i < |gs| ==> FlatMap(gs, GroupLabel)[i] == Label(|gs[i].members|, gs[i].name)
  {
    if |gs| > 0 {
      GroupLabelsAt(gs[..|gs| - 1]);
    }
  }

  /** The label column of a grouped table holds exactly one cell per
      group, in group order, each spanning that group's member count. */
  lemma GroupLabelColumn(groups: seq<Group>, w: nat)
    requires GroupsFit(groups, w)
    ensures |FlatMap(GroupBody(groups, w, |groups|), RowLabels)| == |groups|
    ensures forall i :: 0 <= i < |groups| ==>
      FlatMap(GroupBody(groups, w, |groups|), RowLabels)[i] == Label(|groups[i].members|, groups[i].name)
  {
    GroupBodyLabels(groups, w, |groups|);
    assert groups[..|groups|] == groups;
    GroupLabelsAt(groups);
  }

  /** A single table has no label cells at all. */
  lemma {:induction false} SingleHasNoLabel(rows: seq<seq<string>>, nCol: nat, n: nat)
    requires n <= |rows| && RowsFit(rows, nCol)
    ensures FlatMap(SingleBody(rows, nCol, n), RowLabels) == []
  {
    if n > 0 {
      SingleHasNoLabel(rows, nCol, n - 1);
      DataCellsHaveNoLabel(rows[n - 1][..nCol]);
      FlatMapSnoc(SingleBody(rows, nCol, n - 1), SingleRow(rows, nCol, n - 1), RowLabels);
    }
  }
}
