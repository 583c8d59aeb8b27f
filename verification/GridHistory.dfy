/** The edit history: undo and redo over every run of gestures. */
module GridHistory {
  import opened Trees
  import opened Cells
  import opened Exprs
  import opened GridEdits

  datatype Entry = Entry(op: ColumnOp, inverse: ColumnOp)

  datatype History = History(table: Table, capacity: nat, undo: seq<Entry>, redo: seq<Entry>)

  function New(table: Table, capacity: nat): History
  {
    History(table, if capacity < 1 then 1 else capacity, [], [])
  }

  /** An entry pushed in front, the oldest dropped past the capacity. */
  function Pushed(h: History, e: Entry): seq<Entry>
  {
    var all := [e] + h.undo;
    if |all| > h.capacity then all[..h.capacity] else all
  }

  function Apply(run: Pipelines, h: History, op: ColumnOp): Edited<History>
    requires |h.table.schema| == |h.table.columns|
  {
    var t := ApplyColumnOp(run, op, h.table);
    if t.Refused? then Refused(t.refusal)
    else
      var inverse := InvertOn(op, h.table.columns);
      var undo := if inverse.Applied? then Pushed(h, Entry(op, inverse.value)) else [];
      Applied(History(t.value, h.capacity, undo, []))
  }

  function Undo(run: Pipelines, h: History): Edited<History>
    requires |h.table.schema| == |h.table.columns|
  {
    if h.undo == [] then Refused(NothingToUndo)
    else
      var t := ApplyColumnOp(run, h.undo[0].inverse, h.table);
      if t.Refused? then Refused(t.refusal)
      else Applied(History(t.value, h.capacity, h.undo[1..], [h.undo[0]] + h.redo))
  }

  function Redo(run: Pipelines, h: History): Edited<History>
    requires |h.table.schema| == |h.table.columns|
  {
    if h.redo == [] then Refused(NothingToRedo)
    else
      var t := ApplyColumnOp(run, h.redo[0].op, h.table);
      if t.Refused? then Refused(t.refusal)
      else Applied(History(t.value, h.capacity, Pushed(h, h.redo[0]), h.redo[1..]))
  }

  // ----- one edit and its inverse -----

  lemma ReplaceAt(cols: seq<DataColumn>, i: nat, col: DataColumn)
    requires DistinctNames(cols) && i < |cols| && col.name == cols[i].name
    ensures ReplaceColumn(cols, col) == cols[i := col]
  {
  }

  lemma ReplaceRegular(cols: seq<DataColumn>, i: nat, col: DataColumn)
    requires Regular(cols) && i < |cols| && col.name == cols[i].name && |col.cells| == RowCount(cols)
    ensures Regular(cols[i := col]) && RowCount(cols[i := col]) == RowCount(cols)
  {
  }

  /** `e.op` leads from the columns before to those after, and `e.inverse` was read off the columns before. */
  ghost predicate Linked(before: seq<DataColumn>, e: Entry, after: seq<DataColumn>)
  {
    Invertible(e.op) && Invertible(e.inverse)
    && ColumnsAfter(e.op, before) == Applied(after) && InvertOn(e.op, before) == Applied(e.inverse)
  }

  /** What the inverse of an accepted op answers on the columns the op leaves. */
  ghost predicate TakesBack(op: ColumnOp, cols: seq<DataColumn>)
    requires Invertible(op) && ColumnsAfter(op, cols).Applied?
  {
    var after := ColumnsAfter(op, cols).value;
    Regular(after) && InvertOn(op, cols).Applied? && Invertible(InvertOn(op, cols).value)
    && ColumnsAfter(InvertOn(op, cols).value, after)
       == if Recoverable(op, cols) then Applied(cols) else Refused(CellTypeMismatch)
  }

  lemma SetCellTakesBack(name: string, row: int, value: Cell, cols: seq<DataColumn>)
    requires Regular(cols) && ColumnsAfter(SetCell(name, row, value), cols).Applied?
    ensures TakesBack(SetCell(name, row, value), cols)
  {
    var i := Find(cols, name).value;
    var c := cols[i];
    var d := c.(cells := c.cells[row := value]);
    ReplaceAt(cols, i, d);
    ReplaceRegular(cols, i, d);
    FindUnique(cols[i := d], i);
    CellPutBack(c, row, value);
    ColumnPutBack(cols, i, d);
  }

  lemma CellPutBack(c: DataColumn, row: nat, value: Cell)
    requires row < |c.cells|
    ensures var d := c.(cells := c.cells[row := value]); d.(cells := d.cells[row := c.cells[row]]) == c
  {
    assert c.cells[row := value][row := c.cells[row]] == c.cells;
  }

  lemma ColumnPutBack(cols: seq<DataColumn>, i: nat, d: DataColumn)
    requires i < |cols| && d.name == cols[i].name && DistinctNames(cols[i := d])
    ensures ReplaceColumn(cols[i := d], cols[i]) == cols
  {
    ReplaceAt(cols[i := d], i, cols[i]);
    assert cols[i := d][i := cols[i]] == cols;
  }

  lemma SetColumnTakesBack(column: DataColumn, cols: seq<DataColumn>)
    requires Regular(cols) && ColumnsAfter(SetColumn(column), cols).Applied?
    ensures TakesBack(SetColumn(column), cols)
  {
    var i := Find(cols, column.name).value;
    ReplaceAt(cols, i, column);
    ReplaceRegular(cols, i, column);
    FindUnique(cols[i := column], i);
    ColumnPutBack(cols, i, column);
  }

  lemma InsertedAt<T>(s: seq<T>, i: nat, x: T)
    requires i <= |s|
    ensures var after := InsertAt(s, i, x);
      |after| == |s| + 1 && after[..i] + after[i + 1..] == s && after[i] == x
      && (forall j :: 0 <= j < i ==> after[j] == s[j]) && (forall j :: i < j < |after| ==> after[j] == s[j - 1])
  {
  }

  lemma InsertDistinct(cols: seq<DataColumn>, i: nat, column: DataColumn)
    requires DistinctNames(cols) && i <= |cols| && Find(cols, column.name).None?
    ensures DistinctNames(InsertAt(cols, i, column))
  {
    var after := InsertAt(cols, i, column);
    InsertedAt(cols, i, column);
    forall p, q | 0 <= p < q < |after| ensures after[p].name != after[q].name {
      if p == i {
        assert after[q] == cols[q - 1];
      } else if q == i {
        assert after[p] == cols[p];
      } else {
        OtherNames(cols, after, i, p, q);
      }
    }
  }

  lemma OtherNames(cols: seq<DataColumn>, after: seq<DataColumn>, i: nat, p: nat, q: nat)
    requires DistinctNames(cols) && i <= |cols| && |after| == |cols| + 1 && p < q < |after| && p != i && q != i
    requires forall j :: 0 <= j < |after| && j != i ==> after[j] == cols[if j < i then j else j - 1]
    ensures after[p].name != after[q].name
  {
    var x, y := if p < i then p else p - 1, if q < i then q else q - 1;
    assert x < y && after[p] == cols[x] && after[q] == cols[y];
  }

  lemma InsertRegular(cols: seq<DataColumn>, i: nat, column: DataColumn)
    requires Regular(cols) && i <= |cols| && Find(cols, column.name).None?
    requires cols == [] || |column.cells| == RowCount(cols)
    ensures Regular(InsertAt(cols, i, column))
  {
    var after, n := InsertAt(cols, i, column), |column.cells|;
    InsertDistinct(cols, i, column);
    InsertedAt(cols, i, column);
    forall j | 0 <= j < |after| ensures |after[j].cells| == n {
      if j != i { assert after[j] == cols[if j < i then j else j - 1]; }
    }
  }

  lemma InsertColumnTakesBack(index: int, column: DataColumn, cols: seq<DataColumn>)
    requires Regular(cols) && ColumnsAfter(InsertColumn(index, column), cols).Applied?
    ensures TakesBack(InsertColumn(index, column), cols)
  {
    var i := Clamp(index, |cols|);
    InsertRegular(cols, i, column);
    InsertedRemoved(cols, i, column);
  }

  lemma InsertedRemoved(cols: seq<DataColumn>, i: nat, column: DataColumn)
    requires i <= |cols| && DistinctNames(InsertAt(cols, i, column))
    ensures ColumnsAfter(RemoveColumn(column.name), InsertAt(cols, i, column)) == Applied(cols)
  {
    InsertedAt(cols, i, column);
    var after := InsertAt(cols, i, column);
    FindUnique(after, i);
    DropAt(after, i);
  }

  lemma DropRegular(cols: seq<DataColumn>, i: nat)
    requires Regular(cols) && i < |cols|
    ensures Regular(cols[..i] + cols[i + 1..]) && Find(cols[..i] + cols[i + 1..], cols[i].name).None?
    ensures cols[..i] + cols[i + 1..] == [] || RowCount(cols[..i] + cols[i + 1..]) == |cols[i].cells|
  {
    var after := cols[..i] + cols[i + 1..];
    forall j | 0 <= j < |after| ensures after[j] == if j < i then cols[j] else cols[j + 1] {}
  }

  lemma RemoveColumnTakesBack(name: string, cols: seq<DataColumn>)
    requires Regular(cols) && ColumnsAfter(RemoveColumn(name), cols).Applied?
    ensures TakesBack(RemoveColumn(name), cols)
  {
    var i := Find(cols, name).value;
    DropAt(cols, i);
    DropRegular(cols, i);
    var after := cols[..i] + cols[i + 1..];
    assert InsertAt(after, i, cols[i]) == cols;
  }

  lemma EveryOpTakesBack(op: ColumnOp, cols: seq<DataColumn>)
    requires Regular(cols) && Invertible(op) && ColumnsAfter(op, cols).Applied?
    ensures TakesBack(op, cols)
  {
    match op
    case SetCell(name, row, value) => SetCellTakesBack(name, row, value, cols);
    case SetColumn(column) => SetColumnTakesBack(column, cols);
    case InsertColumn(index, column) => InsertColumnTakesBack(index, column, cols);
    case RemoveColumn(name) => RemoveColumnTakesBack(name, cols);
  }

  /** Whatever cells its columns hold, an accepted invertible edit is taken back by the op read off the
      columns before it if and only if it wrote over no cell its column refuses. Otherwise the inverse is
      refused for that cell. */
  lemma InverseRestoresIff(op: ColumnOp, cols: seq<DataColumn>)
    requires Regular(cols) && Invertible(op) && ColumnsAfter(op, cols).Applied?
    ensures Regular(ColumnsAfter(op, cols).value) && InvertOn(op, cols).Applied? && Columnar(InvertOn(op, cols).value)
    ensures var back := ColumnsAfter(InvertOn(op, cols).value, ColumnsAfter(op, cols).value);
      (back == Applied(cols) <==> Recoverable(op, cols))
      && (back == Refused(CellTypeMismatch) <==> !Recoverable(op, cols))
  {
    EveryOpTakesBack(op, cols);
  }

  // ----- tables stay in order -----

  /** Columns of distinct names and one length, and, where the run is a fitting one, of fitting cells. */
  ghost predicate Kept(cols: seq<DataColumn>, fits: bool)
  {
    Regular(cols) && (fits ==> AllFit(cols))
  }

  ghost predicate TableKept(t: Table, fits: bool) { Aligned(t) && Kept(t.columns, fits) }

  ghost predicate PipelinesKeep(run: Pipelines, fits: bool)
  {
    forall p, t :: TableKept(t, fits) && run(p, t).Some? ==> TableKept(run(p, t).value, fits)
  }

  lemma FittingRecovers(op: ColumnOp, cols: seq<DataColumn>)
    requires Regular(cols) && AllFit(cols) && Invertible(op) && ColumnsAfter(op, cols).Applied?
    ensures Recoverable(op, cols)
  {
    if op.SetCell? { assert ColumnFits(cols[Find(cols, op.col).value]); }
  }

  lemma RemoveKeepsAligned(t: Table, name: string)
    requires Aligned(t) && Regular(t.columns) && Find(t.columns, name).Some?
    ensures Aligned(Table(DropEntry(t.schema, name), DropColumn(t.columns, name)))
  {
    var i := Find(t.columns, name).value;
    DropAt(t.columns, i);
    DropEntryAt(t, i);
  }

  lemma ReplaceKeepsAligned(t: Table, col: DataColumn)
    requires Aligned(t)
    ensures Aligned(Table(ReplaceEntry(t.schema, col), ReplaceColumn(t.columns, col)))
  {
  }

  /** Schema names and types follow the columns through every edit. */
  lemma EditKeepsAligned(op: ColumnOp, t: Table)
    requires Aligned(t) && Regular(t.columns) && Columnar(op) && ColumnsAfter(op, t.columns).Applied?
    ensures Aligned(Table(SchemaAfter(op, t), ColumnsAfter(op, t.columns).value))
  {
    match op
    case SetCell(name, row, value) =>
      var c := t.columns[Find(t.columns, name).value];
      var d := c.(cells := c.cells[row := value]);
      ReplaceKeepsAligned(t, d);
      SameEntry(t.schema, c, d);
    case SetColumn(column) => ReplaceKeepsAligned(t, column);
    case InsertColumn(index, column) => InsertKeepsAligned(t, Clamp(index, |t.columns|), column);
    case RemoveColumn(name) => RemoveKeepsAligned(t, name);
    case AppendRows(rows) => ExtendKeepsAligned(t, rows);
  }

  lemma InsertKeepsAligned(t: Table, i: nat, column: DataColumn)
    requires Aligned(t) && i <= |t.columns|
    ensures Aligned(Table(InsertAt(t.schema, i, Plain(column)), InsertAt(t.columns, i, column)))
  {
    InsertedAt(t.schema, i, Plain(column));
    InsertedAt(t.columns, i, column);
  }

  lemma ExtendKeepsAligned(t: Table, rows: seq<seq<(string, Cell)>>)
    requires Aligned(t)
    ensures Aligned(Table(t.schema, Extended(t.columns, rows)))
  {
  }

  lemma SameEntry(schema: Schema, c: DataColumn, d: DataColumn)
    requires c.name == d.name && c.columnType == d.columnType
    ensures ReplaceEntry(schema, c) == ReplaceEntry(schema, d)
  {
  }

  lemma {:induction false} RowAccepted(cols: seq<DataColumn>, row: seq<(string, Cell)>, i: nat)
    requires DistinctNames(cols) && i < |cols| && RowRefusal(cols, row).None?
    ensures Accepts(cols[i].columnType, CellFor(row, cols[i].name))
  {
    if row != [] {
      FindUnique(cols, i);
      if row[0].0 != cols[i].name { RowAccepted(cols, row[1..], i); }
    }
  }

  lemma {:induction false} RowsAccepted(cols: seq<DataColumn>, rows: seq<seq<(string, Cell)>>, i: nat, k: nat)
    requires DistinctNames(cols) && i < |cols| && RowsRefusal(cols, rows).None? && k < |rows|
    ensures Accepts(cols[i].columnType, CellFor(rows[k], cols[i].name))
  {
    if k == 0 { RowAccepted(cols, rows[0], i); } else { RowsAccepted(cols, rows[1..], i, k - 1); }
  }

  lemma AppendFits(cols: seq<DataColumn>, rows: seq<seq<(string, Cell)>>)
    requires Regular(cols) && AllFit(cols) && RowsRefusal(cols, rows).None?
    ensures AllFit(Extended(cols, rows))
  {
    var after := Extended(cols, rows);
    forall i | 0 <= i < |after| ensures ColumnFits(after[i]) {
      assert ColumnFits(cols[i]);
      forall k | 0 <= k < |rows| ensures Accepts(cols[i].columnType, CellFor(rows[k], cols[i].name)) {
        RowsAccepted(cols, rows, i, k);
      }
    }
  }

  lemma {:induction false} DropFits(cols: seq<DataColumn>, name: string)
    requires AllFit(cols)
    ensures AllFit(DropColumn(cols, name))
  {
    if cols != [] {
      assert ColumnFits(cols[0]);
      forall i | 0 <= i < |cols[1..]| ensures ColumnFits(cols[1..][i]) { assert cols[1..][i] == cols[i + 1]; }
      DropFits(cols[1..], name);
    }
  }

  /** Over fitting cells an op that carries fitting cells leaves fitting cells. */
  lemma EditFits(op: ColumnOp, cols: seq<DataColumn>)
    requires Regular(cols) && AllFit(cols) && Columnar(op) && OpFits(op) && ColumnsAfter(op, cols).Applied?
    ensures AllFit(ColumnsAfter(op, cols).value)
  {
    match op
    case SetCell(name, row, value) =>
      var c := cols[Find(cols, name).value];
      assert ColumnFits(c);
      ReplaceFits(cols, c.(cells := c.cells[row := value]));
    case SetColumn(column) => ReplaceFits(cols, column);
    case InsertColumn(index, column) => InsertFits(cols, Clamp(index, |cols|), column);
    case RemoveColumn(name) => DropFits(cols, name);
    case AppendRows(rows) => AppendFits(cols, rows);
  }

  lemma ReplaceFits(cols: seq<DataColumn>, col: DataColumn)
    requires AllFit(cols) && ColumnFits(col)
    ensures AllFit(ReplaceColumn(cols, col))
  {
  }

  lemma InsertFits(cols: seq<DataColumn>, i: nat, column: DataColumn)
    requires AllFit(cols) && ColumnFits(column) && i <= |cols|
    ensures AllFit(InsertAt(cols, i, column))
  {
    InsertedAt(cols, i, column);
  }

  lemma AppendRegular(cols: seq<DataColumn>, rows: seq<seq<(string, Cell)>>)
    requires Regular(cols)
    ensures Regular(Extended(cols, rows))
  {
  }

  /** Every accepted op keeps columns of one length under distinct names beside their schema entries, and
      keeps their cells fitting if it carries fitting cells. */
  lemma ApplyKeepsTable(run: Pipelines, op: ColumnOp, t: Table, fits: bool)
    requires TableKept(t, fits) && (fits ==> OpFits(op)) && PipelinesKeep(run, fits)
    requires ApplyColumnOp(run, op, t).Applied?
    ensures TableKept(ApplyColumnOp(run, op, t).value, fits)
  {
    if Columnar(op) {
      EditKeepsAligned(op, t);
      if Invertible(op) { EveryOpTakesBack(op, t.columns); } else { AppendRegular(t.columns, op.rows); }
      if fits { EditFits(op, t.columns); }
    }
  }

  // ----- what every history keeps -----

  /** Each undoable edit, newest first, leads to the columns that follow it. */
  ghost predicate UndoChain(undo: seq<Entry>, cols: seq<DataColumn>, fits: bool)
  {
    undo == []
    || exists before :: Kept(before, fits) && Linked(before, undo[0], cols) && UndoChain(undo[1..], before, fits)
  }

  /** Each redoable edit, next first, applies to the columns that precede it, and was taken back to them. */
  ghost predicate RedoChain(redo: seq<Entry>, cols: seq<DataColumn>, fits: bool)
  {
    redo == []
    || exists after :: Kept(after, fits) && Linked(cols, redo[0], after) && Recoverable(redo[0].op, cols)
                       && RedoChain(redo[1..], after, fits)
  }

  ghost predicate HistoryKept(h: History, fits: bool)
  {
    TableKept(h.table, fits) && |h.undo| + |h.redo| <= h.capacity
    && UndoChain(h.undo, h.table.columns, fits) && RedoChain(h.redo, h.table.columns, fits)
  }

  lemma {:induction false} ChainPrefix(undo: seq<Entry>, cols: seq<DataColumn>, fits: bool, n: nat)
    requires UndoChain(undo, cols, fits) && n <= |undo|
    ensures UndoChain(undo[..n], cols, fits)
  {
    if n > 0 {
      var before :| Kept(before, fits) && Linked(before, undo[0], cols) && UndoChain(undo[1..], before, fits);
      ChainPrefix(undo[1..], before, fits, n - 1);
      assert undo[..n][1..] == undo[1..][..n - 1] && undo[..n][0] == undo[0];
    }
  }

  lemma PushedChain(h: History, e: Entry, after: seq<DataColumn>, fits: bool)
    requires UndoChain(h.undo, h.table.columns, fits) && Kept(h.table.columns, fits)
      && Linked(h.table.columns, e, after)
    ensures UndoChain(Pushed(h, e), after, fits) && |Pushed(h, e)| <= h.capacity
  {
    var all := [e] + h.undo;
    assert all[1..] == h.undo;
    assert UndoChain(all, after, fits);
    if |all| > h.capacity { ChainPrefix(all, after, fits, h.capacity); }
  }

  lemma ApplyKeepsHistory(run: Pipelines, h: History, op: ColumnOp, fits: bool)
    requires HistoryKept(h, fits) && (fits ==> OpFits(op)) && PipelinesKeep(run, fits) && Apply(run, h, op).Applied?
    ensures HistoryKept(Apply(run, h, op).value, fits)
  {
    ApplyKeepsTable(run, op, h.table, fits);
    if Invertible(op) {
      EveryOpTakesBack(op, h.table.columns);
      PushedChain(h, Entry(op, InvertOn(op, h.table.columns).value), ColumnsAfter(op, h.table.columns).value, fits);
    }
  }

  /** The next undo would write back a cell its column does not take. */
  predicate Stuck(h: History)
  {
    h.undo != [] && h.undo[0].inverse.SetCell?
    && var i := Find(h.table.columns, h.undo[0].inverse.col);
       i.Some? && !Accepts(h.table.columns[i.value].columnType, h.undo[0].inverse.value)
  }

  /** The cell a stored inverse writes back is refused now exactly if it did not fit when it was written over. */
  lemma StuckMeans(before: seq<DataColumn>, e: Entry, h: History)
    requires Regular(before) && h.undo != [] && h.undo[0] == e && Linked(before, e, h.table.columns)
    ensures Stuck(h) <==> !Recoverable(e.op, before)
  {
    if e.op.SetCell? {
      var i := Find(before, e.op.col).value;
      var d := before[i].(cells := before[i].cells[e.op.row := e.op.value]);
      ReplaceAt(before, i, d);
      FindUnique(before[i := d], i);
    }
  }

  /** What an available undo answers, and what redoing it then answers. */
  ghost predicate UndoGivesBack(run: Pipelines, h: History)
    requires |h.table.schema| == |h.table.columns|
  {
    Undo(run, h).Applied?
    && var u := Undo(run, h).value;
       |u.table.schema| == |u.table.columns| && Redo(run, u).Applied?
       && Redo(run, u).value.table.columns == h.table.columns && Aligned(Redo(run, u).value.table)
       && Redo(run, u).value.undo == h.undo && Redo(run, u).value.redo == h.redo
  }

  ghost predicate RedoGivesBack(run: Pipelines, h: History)
    requires |h.table.schema| == |h.table.columns|
  {
    Redo(run, h).Applied?
    && var r := Redo(run, h).value;
       |r.table.schema| == |r.table.columns| && Undo(run, r).Applied?
       && Undo(run, r).value.table.columns == h.table.columns && Aligned(Undo(run, r).value.table)
       && Undo(run, r).value.undo == h.undo && Undo(run, r).value.redo == h.redo
  }

  /** An available undo is refused exactly when the next edit wrote over an unfit cell. Otherwise it moves
      one edit across, and redoing it gives back the columns, the schema's names and types, and both lists. */
  lemma UndoThenRedo(run: Pipelines, h: History, fits: bool)
    requires HistoryKept(h, fits) && h.undo != []
    ensures if Stuck(h) then Undo(run, h) == Refused(CellTypeMismatch) else UndoGivesBack(run, h)
    ensures !Stuck(h) ==> HistoryKept(Undo(run, h).value, fits)
  {
    var e, cols := h.undo[0], h.table.columns;
    var before :| Kept(before, fits) && Linked(before, e, cols) && UndoChain(h.undo[1..], before, fits);
    EveryOpTakesBack(e.op, before);
    StuckMeans(before, e, h);
    if !Stuck(h) { TakenBack(run, h, before, fits); }
  }

  lemma TakenBack(run: Pipelines, h: History, before: seq<DataColumn>, fits: bool)
    requires HistoryKept(h, fits) && h.undo != [] && Kept(before, fits)
    requires Linked(before, h.undo[0], h.table.columns) && UndoChain(h.undo[1..], before, fits)
    requires Recoverable(h.undo[0].op, before)
    requires ColumnsAfter(h.undo[0].inverse, h.table.columns) == Applied(before)
    ensures UndoGivesBack(run, h) && HistoryKept(Undo(run, h).value, fits)
  {
    var e := h.undo[0];
    EditKeepsAligned(e.inverse, h.table);
    var u := Undo(run, h).value;
    assert u.table.columns == before;
    assert ([e] + h.redo)[1..] == h.redo;
    assert RedoChain([e] + h.redo, before, fits);
    EditKeepsAligned(e.op, u.table);
    assert [e] + h.undo[1..] == h.undo;
  }

  /** An available redo is never refused, and undoing it gives everything back. */
  lemma RedoThenUndo(run: Pipelines, h: History, fits: bool)
    requires HistoryKept(h, fits) && h.redo != []
    ensures RedoGivesBack(run, h) && HistoryKept(Redo(run, h).value, fits)
  {
    var e, cols := h.redo[0], h.table.columns;
    var after :| Kept(after, fits) && Linked(cols, e, after) && Recoverable(e.op, cols)
      && RedoChain(h.redo[1..], after, fits);
    EveryOpTakesBack(e.op, cols);
    EditKeepsAligned(e.op, h.table);
    var r := Redo(run, h).value;
    assert r.table.columns == after;
    PushedChain(h, e, after, fits);
    assert ([e] + h.undo)[1..] == h.undo;
    EditKeepsAligned(e.inverse, r.table);
    assert [e] + h.redo[1..] == h.redo;
  }

  // ----- every run -----

  datatype Gesture = Make(op: ColumnOp) | TakeBack | Repeat

  /** A history after one gesture; a refused gesture leaves it as it was. */
  function After(run: Pipelines, h: History, g: Gesture): History
    requires |h.table.schema| == |h.table.columns|
  {
    var r := match g
      case Make(op) => Apply(run, h, op)
      case TakeBack => Undo(run, h)
      case Repeat => Redo(run, h);
    if r.Applied? then r.value else h
  }

  ghost predicate Reaches(run: Pipelines, start: History, gs: seq<Gesture>, h: History)
    decreases |gs|
  {
    if gs == [] then h == start
    else
      var n := |gs| - 1;
      exists g :: Reaches(run, start, gs[..n], g) && |g.table.schema| == |g.table.columns| && h == After(run, g, gs[n])
  }

  /** Every column edit of the run carries cells that fit it. */
  predicate GesturesFit(gs: seq<Gesture>)
  {
    forall i :: 0 <= i < |gs| && gs[i].Make? ==> OpFits(gs[i].op)
  }

  lemma {:induction false} EveryRunIsKept(run: Pipelines, t: Table, capacity: nat, gs: seq<Gesture>, h: History,
                                          fits: bool)
    requires TableKept(t, fits) && PipelinesKeep(run, fits) && (fits ==> GesturesFit(gs))
    requires Reaches(run, New(t, capacity), gs, h)
    ensures HistoryKept(h, fits) && h.capacity == New(t, capacity).capacity
    decreases |gs|
  {
    if gs != [] {
      var n := |gs| - 1;
      var g :| Reaches(run, New(t, capacity), gs[..n], g) && |g.table.schema| == |g.table.columns|
        && h == After(run, g, gs[n]);
      EveryRunIsKept(run, t, capacity, gs[..n], g, fits);
      GestureKeeps(run, g, gs[n], fits);
    }
  }

  lemma GestureKeeps(run: Pipelines, g: History, gesture: Gesture, fits: bool)
    requires HistoryKept(g, fits) && PipelinesKeep(run, fits) && (fits && gesture.Make? ==> OpFits(gesture.op))
    ensures HistoryKept(After(run, g, gesture), fits) && After(run, g, gesture).capacity == g.capacity
  {
    match gesture
    case Make(op) => if Apply(run, g, op).Applied? { ApplyKeepsHistory(run, g, op, fits); }
    case TakeBack => if g.undo != [] { UndoThenRedo(run, g, fits); }
    case Repeat => if g.redo != [] { RedoThenUndo(run, g, fits); }
  }

  /** At every point of every run, whatever cells its edits carry: what can be undone and redone fits the
      capacity; a redo is refused only when there is none, an undo only when there is none or the edit it
      takes back wrote over a cell its column refuses; and each reverses the other. */
  lemma UndoRedoEveryRun(run: Pipelines, t: Table, capacity: nat, gs: seq<Gesture>, h: History)
    requires TableKept(t, false) && PipelinesKeep(run, false) && Reaches(run, New(t, capacity), gs, h)
    ensures TableKept(h.table, false) && |h.undo| + |h.redo| <= (if capacity < 1 then 1 else capacity)
    ensures Undo(run, h).Applied? <==> h.undo != [] && !Stuck(h)
    ensures Stuck(h) ==> Undo(run, h) == Refused(CellTypeMismatch)
    ensures Redo(run, h).Applied? <==> h.redo != []
    ensures Undo(run, h).Applied? ==> UndoGivesBack(run, h)
    ensures Redo(run, h).Applied? ==> RedoGivesBack(run, h)
  {
    EveryRunIsKept(run, t, capacity, gs, h, false);
    if h.undo != [] { UndoThenRedo(run, h, false); }
    if h.redo != [] { RedoThenUndo(run, h, false); }
  }

  /** Over a table of fitting cells, a run whose edits carry fitting cells is never stuck: undo and redo
      never fail when there is something to take. */
  lemma FittingRunsNeverStick(run: Pipelines, t: Table, capacity: nat, gs: seq<Gesture>, h: History)
    requires TableKept(t, true) && PipelinesKeep(run, true) && GesturesFit(gs) && Reaches(run, New(t, capacity), gs, h)
    ensures TableKept(h.table, true) && !Stuck(h)
    ensures h.undo != [] ==> UndoGivesBack(run, h)
    ensures h.redo != [] ==> RedoGivesBack(run, h)
  {
    EveryRunIsKept(run, t, capacity, gs, h, true);
    if h.undo != [] {
      var before :| Kept(before, true) && Linked(before, h.undo[0], h.table.columns)
        && UndoChain(h.undo[1..], before, true);
      FittingRecovers(h.undo[0].op, before);
      StuckMeans(before, h.undo[0], h);
      UndoThenRedo(run, h, true);
    }
    if h.redo != [] { RedoThenUndo(run, h, true); }
  }

  lemma FreshEntry(run: Pipelines, h: History, op: ColumnOp, a: History)
    requires Aligned(h.table) && Regular(h.table.columns) && h.capacity >= 1 && Invertible(op)
    requires Apply(run, h, op) == Applied(a)
    ensures Aligned(a.table) && a.undo != []
    ensures ColumnsAfter(op, h.table.columns).Applied? && Linked(h.table.columns, a.undo[0], a.table.columns)
    ensures a.undo[0].op == op
  {
    EveryOpTakesBack(op, h.table.columns);
    EditKeepsAligned(op, h.table);
  }

  /** Undoing a fresh invertible edit gives back the columns it was made on if and only if it wrote over no
      unfit cell. */
  lemma ApplyThenUndo(run: Pipelines, h: History, op: ColumnOp, a: History)
    requires Aligned(h.table) && Regular(h.table.columns) && h.capacity >= 1 && Invertible(op)
    requires Apply(run, h, op) == Applied(a)
    ensures |a.table.schema| == |a.table.columns| && ColumnsAfter(op, h.table.columns).Applied?
    ensures Undo(run, a).Applied? <==> Recoverable(op, h.table.columns)
    ensures Undo(run, a).Applied? ==>
      Undo(run, a).value.table.columns == h.table.columns && Aligned(Undo(run, a).value.table)
  {
    FreshEntry(run, h, op, a);
    EveryOpTakesBack(op, h.table.columns);
    if Undo(run, a).Applied? { EditKeepsAligned(a.undo[0].inverse, a.table); }
  }

  /** Such a run: an int column set to hold a text takes an int over it, and then refuses to take the text
      back. */
  lemma UnfitColumnBlocksUndo(run: Pipelines, entry: SchemaEntry)
    requires entry.name == "n" && entry.columnType == TInt
    ensures var h := New(Table([entry], [DataColumn("n", TInt, [IntCell(1)])]), 8);
      var bad := Apply(run, h, SetColumn(DataColumn("n", TInt, [StrCell("x")])));
      TableKept(h.table, true) && bad.Applied? && |bad.value.table.schema| == |bad.value.table.columns|
      && (var over := Apply(run, bad.value, SetCell("n", 0, IntCell(2)));
          over.Applied? && |over.value.table.schema| == |over.value.table.columns| && Stuck(over.value)
          && Undo(run, over.value) == Refused(CellTypeMismatch))
  {
    var h := New(Table([entry], [DataColumn("n", TInt, [IntCell(1)])]), 8);
    var text := DataColumn("n", TInt, [StrCell("x")]);
    var bad := Apply(run, h, SetColumn(text)).value;
    assert bad.table.columns == [text];
    var number := DataColumn("n", TInt, [IntCell(2)]);
    assert text.cells[0 := IntCell(2)] == [IntCell(2)];
    var over := Apply(run, bad, SetCell("n", 0, IntCell(2))).value;
    assert over.table.columns == [number];
  }
}
