/** Grid edits: columnar ops over a table, their inverses, and the undo history. */
module GridEdits {
  import opened Trees
  import opened Cells
  import opened Exprs

  datatype DataColumn = DataColumn(name: string, columnType: ColumnType, cells: seq<Cell>)

  datatype Table = Table(schema: Schema, columns: seq<DataColumn>)

  datatype ColumnOp =
    | SetCell(col: string, row: int, value: Cell)
    | SetColumn(column: DataColumn)
    | InsertColumn(index: int, column: DataColumn)
    | RemoveColumn(name: string)
    | AppendRows(rows: seq<seq<(string, Cell)>>)
    | ApplyTransform(pipeline: string)

  datatype Refusal =
    | NoSuchColumn | RowOutOfRange | CellTypeMismatch | ColumnLengthMismatch | DuplicateColumn | RowShapeUnknownColumn
    | TransformRejected | NotInvertible | NothingToUndo | NothingToRedo

  datatype Edited<+T> = Applied(value: T) | Refused(refusal: Refusal)

  // ----- timestamps -----

  function UnitDigits(u: InstantUnit): nat
  {
    match u case Seconds => 0 case Millis => 3 case Micros => 6 case Nanos => 9
  }

  function UnitOfDigits(digits: nat): InstantUnit
  {
    if digits == 0 then Seconds else if digits <= 3 then Millis else if digits <= 6 then Micros else Nanos
  }

  function Number(s: string, at: nat, len: nat): Option<nat>
    requires at + len <= |s|
    decreases len
  {
    if len == 0 then Some(0)
    else
      var front := Number(s, at, len - 1);
      var c := s[at + len - 1];
      if front.Some? && '0' <= c <= '9' then Some(10 * front.value + (c as int - '0' as int)) else None
  }

  predicate RealMoment(y: nat, mo: nat, d: nat, h: nat, mi: nat, se: nat)
  {
    var leap := y % 4 == 0 && (y % 100 != 0 || y % 400 == 0);
    var days := if mo == 2 then (if leap then 29 else 28) else if mo in {4, 6, 9, 11} then 30 else 31;
    1 <= mo <= 12 && 1 <= d <= days && h <= 23 && mi <= 59 && se <= 59
  }

  /** The fraction digits of a canonical instant text, or none for any other text. */
  function InstantFractionDigits(s: string): Option<nat>
  {
    var n := |s|;
    if n < 20 || s[4] != '-' || s[7] != '-' || s[10] != 'T' || s[13] != ':' || s[16] != ':' then None
    else
      match (Number(s, 0, 4), Number(s, 5, 2), Number(s, 8, 2), Number(s, 11, 2), Number(s, 14, 2), Number(s, 17, 2))
      case (Some(y), Some(mo), Some(d), Some(h), Some(mi), Some(se)) =>
        if !RealMoment(y, mo, d, h, mi, se) then None
        else if n == 20 then (if s[19] == 'Z' then Some(0) else None)
        else if n > 30 || s[19] != '.' || s[n - 1] != 'Z' || s[n - 2] == '0' then None
        else if Number(s, 20, n - 21).Some? then Some(n - 21) else None
      case _ => None
  }

  /** A cell a column takes: null, or of a type that widens into the column's. */
  predicate Accepts(ty: ColumnType, c: Cell)
  {
    match c
    case Null => true
    case IntCell(_) => ty.TInt? || ty.TFloat? || ty.TDecimal?
    case FloatCell(_) => ty.TFloat?
    case BoolCell(_) => ty.TBool?
    case StrCell(_) => ty.TStr?
    case DateCell(_) => ty.TDate?
    case DecimalCell(_) => ty.TDecimal?
    case InstantCell(s) =>
      var digits := InstantFractionDigits(s);
      ty.TInstant? && UnitDigits(UnitOfDigits(if digits.Some? then digits.value else 0)) <= UnitDigits(ty.precision)
  }

  predicate ColumnFits(c: DataColumn)
  {
    forall i :: 0 <= i < |c.cells| ==> Accepts(c.columnType, c.cells[i])
  }

  // ----- columns by name -----

  function Find(cols: seq<DataColumn>, name: string): (r: Option<nat>)
    ensures r.Some? ==> r.value < |cols| && cols[r.value].name == name
    ensures r.None? <==> forall j :: 0 <= j < |cols| ==> cols[j].name != name
  {
    if cols == [] then None
    else if cols[0].name == name then Some(0)
    else
      var rest := Find(cols[1..], name);
      if rest.Some? then Some(rest.value + 1) else None
  }

  function RowCount(cols: seq<DataColumn>): nat
  {
    if cols == [] then 0 else |cols[0].cells|
  }

  function ReplaceColumn(cols: seq<DataColumn>, col: DataColumn): (r: seq<DataColumn>)
    ensures |r| == |cols|
    ensures forall j :: 0 <= j < |cols| ==> r[j] == if cols[j].name == col.name then col else cols[j]
  {
    if cols == [] then []
    else [if cols[0].name == col.name then col else cols[0]] + ReplaceColumn(cols[1..], col)
  }

  function DropColumn(cols: seq<DataColumn>, name: string): seq<DataColumn>
  {
    if cols == [] then [] else (if cols[0].name == name then [] else [cols[0]]) + DropColumn(cols[1..], name)
  }

  /** A retyped column's entry is rebuilt, its metadata gone; every other entry is kept. */
  function ReplaceEntry(schema: Schema, col: DataColumn): (r: Schema)
    ensures |r| == |schema|
    ensures forall j :: 0 <= j < |schema| ==>
      r[j] == if schema[j].name == col.name && schema[j].columnType != col.columnType then Plain(col) else schema[j]
  {
    if schema == [] then []
    else [if schema[0].name == col.name && schema[0].columnType != col.columnType then Plain(col) else schema[0]]
         + ReplaceEntry(schema[1..], col)
  }

  function DropEntry(schema: Schema, name: string): Schema
  {
    if schema == [] then [] else (if schema[0].name == name then [] else [schema[0]]) + DropEntry(schema[1..], name)
  }

  /** The entry stating a column's name and type and nothing more. */
  function Plain(col: DataColumn): SchemaEntry
  {
    SchemaEntry(col.name, col.columnType, None, None, None, map[])
  }

  function InsertAt<T>(s: seq<T>, i: nat, x: T): seq<T>
    requires i <= |s|
  {
    s[..i] + [x] + s[i..]
  }

  function Clamp(index: int, n: nat): (i: nat)
    ensures i <= n && (0 <= index <= n ==> i == index)
  {
    if index < 0 then 0 else if index > n then n else index
  }

  // ----- appended rows -----

  function CellFor(row: seq<(string, Cell)>, name: string): Cell
  {
    if row == [] then Null else if row[0].0 == name then row[0].1 else CellFor(row[1..], name)
  }

  function CellsFor(rows: seq<seq<(string, Cell)>>, name: string): (cells: seq<Cell>)
    ensures |cells| == |rows| && forall i :: 0 <= i < |rows| ==> cells[i] == CellFor(rows[i], name)
  {
    if rows == [] then [] else [CellFor(rows[0], name)] + CellsFor(rows[1..], name)
  }

  function Extended(cols: seq<DataColumn>, rows: seq<seq<(string, Cell)>>): (r: seq<DataColumn>)
    ensures |r| == |cols|
    ensures forall j :: 0 <= j < |cols| ==> r[j] == cols[j].(cells := cols[j].cells + CellsFor(rows, cols[j].name))
  {
    if cols == [] then []
    else [cols[0].(cells := cols[0].cells + CellsFor(rows, cols[0].name))] + Extended(cols[1..], rows)
  }

  /** Why a row cannot be appended: its first member naming no column or not fitting the one it names. */
  function RowRefusal(cols: seq<DataColumn>, row: seq<(string, Cell)>): Option<Refusal>
  {
    if row == [] then None
    else
      var i := Find(cols, row[0].0);
      if i.None? then Some(RowShapeUnknownColumn)
      else if !Accepts(cols[i.value].columnType, row[0].1) then Some(CellTypeMismatch)
      else RowRefusal(cols, row[1..])
  }

  function RowsRefusal(cols: seq<DataColumn>, rows: seq<seq<(string, Cell)>>): Option<Refusal>
  {
    if rows == [] then None
    else
      var r := RowRefusal(cols, rows[0]);
      if r.Some? then r else RowsRefusal(cols, rows[1..])
  }

  // ----- apply and invert -----

  predicate Columnar(op: ColumnOp) { !op.ApplyTransform? }

  predicate Invertible(op: ColumnOp) { !op.ApplyTransform? && !op.AppendRows? }

  /** The columns after an op, which no op but a whole pipeline reads anything else to decide. */
  function ColumnsAfter(op: ColumnOp, cols: seq<DataColumn>): Edited<seq<DataColumn>>
    requires Columnar(op)
  {
    match op
    case SetCell(name, row, value) =>
      var i := Find(cols, name);
      if i.None? then Refused(NoSuchColumn)
      else
        var c := cols[i.value];
        if !(0 <= row < RowCount(cols)) || row >= |c.cells| then Refused(RowOutOfRange)
        else if !Accepts(c.columnType, value) then Refused(CellTypeMismatch)
        else Applied(ReplaceColumn(cols, c.(cells := c.cells[row := value])))
    case SetColumn(column) =>
      if Find(cols, column.name).None? then Refused(NoSuchColumn)
      else if |column.cells| != RowCount(cols) then Refused(ColumnLengthMismatch)
      else Applied(ReplaceColumn(cols, column))
    case InsertColumn(index, column) =>
      if Find(cols, column.name).Some? then Refused(DuplicateColumn)
      else if cols != [] && |column.cells| != RowCount(cols) then Refused(ColumnLengthMismatch)
      else Applied(InsertAt(cols, Clamp(index, |cols|), column))
    case RemoveColumn(name) =>
      if Find(cols, name).None? then Refused(NoSuchColumn) else Applied(DropColumn(cols, name))
    case AppendRows(rows) =>
      var r := RowsRefusal(cols, rows);
      if r.Some? then Refused(r.value) else Applied(Extended(cols, rows))
  }

  function SchemaAfter(op: ColumnOp, t: Table): Schema
    requires Columnar(op) && |t.schema| == |t.columns| && ColumnsAfter(op, t.columns).Applied?
  {
    match op
    case SetCell(name, _, _) => ReplaceEntry(t.schema, t.columns[Find(t.columns, name).value])
    case SetColumn(column) => ReplaceEntry(t.schema, column)
    case InsertColumn(index, column) => InsertAt(t.schema, Clamp(index, |t.columns|), Plain(column))
    case RemoveColumn(name) => DropEntry(t.schema, name)
    case AppendRows(_) => t.schema
  }

  /** The pipeline evaluator a whole-table transform runs. */
  type Pipelines = (string, Table) -> Option<Table>

  function ApplyColumnOp(run: Pipelines, op: ColumnOp, t: Table): Edited<Table>
    requires |t.schema| == |t.columns|
  {
    if op.ApplyTransform? then
      var u := run(op.pipeline, t);
      if u.Some? then Applied(u.value) else Refused(TransformRejected)
    else
      var cols := ColumnsAfter(op, t.columns);
      if cols.Refused? then Refused(cols.refusal) else Applied(Table(SchemaAfter(op, t), cols.value))
  }

  /** The op that undoes `op` on the columns it is about to be applied to. */
  function InvertOn(op: ColumnOp, cols: seq<DataColumn>): Edited<ColumnOp>
  {
    if !Invertible(op) then Refused(NotInvertible)
    else
      var after := ColumnsAfter(op, cols);
      if after.Refused? then Refused(after.refusal)
      else
        match op
        case SetCell(name, row, _) => Applied(SetCell(name, row, cols[Find(cols, name).value].cells[row]))
        case SetColumn(column) => Applied(SetColumn(cols[Find(cols, column.name).value]))
        case InsertColumn(_, column) => Applied(RemoveColumn(column.name))
        case RemoveColumn(name) => Applied(InsertColumn(Find(cols, name).value, cols[Find(cols, name).value]))
  }

  // ----- what edits keep -----

  ghost predicate DistinctNames(cols: seq<DataColumn>)
  {
    forall i, j :: 0 <= i < j < |cols| ==> cols[i].name != cols[j].name
  }

  ghost predicate OneLength(cols: seq<DataColumn>, n: nat)
  {
    forall c :: 0 <= c < |cols| ==> |cols[c].cells| == n
  }

  /** Columns of distinct names and one length. */
  ghost predicate Regular(cols: seq<DataColumn>)
  {
    DistinctNames(cols) && OneLength(cols, RowCount(cols))
  }

  ghost predicate AllFit(cols: seq<DataColumn>)
  {
    forall i :: 0 <= i < |cols| ==> ColumnFits(cols[i])
  }

  /** One schema entry per column, under its name and type. */
  ghost predicate Aligned(t: Table)
  {
    |t.schema| == |t.columns|
    && forall i :: 0 <= i < |t.columns| ==>
         t.schema[i].name == t.columns[i].name && t.schema[i].columnType == t.columns[i].columnType
  }

  /** An op that carries a column carries one whose cells fit it. */
  predicate OpFits(op: ColumnOp)
  {
    (op.SetColumn? || op.InsertColumn?) ==> ColumnFits(op.column)
  }

  /** The cell a cell edit writes over is one its column takes; no other op writes over a single cell. */
  predicate Recoverable(op: ColumnOp, cols: seq<DataColumn>)
    requires Columnar(op) && ColumnsAfter(op, cols).Applied?
  {
    op.SetCell? ==>
      var c := cols[Find(cols, op.col).value];
      Accepts(c.columnType, c.cells[op.row])
  }

  lemma FindUnique(cols: seq<DataColumn>, i: nat)
    requires DistinctNames(cols) && i < |cols|
    ensures Find(cols, cols[i].name) == Some(i)
  {
  }

  lemma {:induction false} DropAt(cols: seq<DataColumn>, i: nat)
    requires DistinctNames(cols) && i < |cols|
    ensures DropColumn(cols, cols[i].name) == cols[..i] + cols[i + 1..]
  {
    if i == 0 {
      DropNothing(cols[1..], cols[0].name);
    } else {
      var rest := cols[1..];
      assert rest[i - 1] == cols[i];
      DropAt(rest, i - 1);
      HeadKept(cols, cols[i].name);
      assert cols[..i] == [cols[0]] + rest[..i - 1] && cols[i + 1..] == rest[i..];
    }
  }

  lemma HeadKept(cols: seq<DataColumn>, name: string)
    requires cols != [] && cols[0].name != name
    ensures DropColumn(cols, name) == [cols[0]] + DropColumn(cols[1..], name)
  {
  }

  lemma {:induction false} DropNothing(cols: seq<DataColumn>, name: string)
    requires forall j :: 0 <= j < |cols| ==> cols[j].name != name
    ensures DropColumn(cols, name) == cols
  {
    if cols != [] {
      DropNothing(cols[1..], name);
      assert cols == [cols[0]] + cols[1..];
    }
  }

  lemma {:induction false} DropEntryAt(t: Table, i: nat)
    requires Aligned(t) && DistinctNames(t.columns) && i < |t.columns|
    ensures DropEntry(t.schema, t.columns[i].name) == t.schema[..i] + t.schema[i + 1..]
    decreases |t.schema|
  {
    var rest := Table(t.schema[1..], t.columns[1..]);
    if i == 0 {
      DropNoEntry(rest, t.columns[0].name);
    } else {
      assert rest.columns[i - 1] == t.columns[i];
      DropEntryAt(rest, i - 1);
      assert t.schema[..i] == [t.schema[0]] + t.schema[1..][..i - 1];
    }
  }

  lemma {:induction false} DropNoEntry(t: Table, name: string)
    requires Aligned(t) && forall j :: 0 <= j < |t.columns| ==> t.columns[j].name != name
    ensures DropEntry(t.schema, name) == t.schema
    decreases |t.schema|
  {
    if t.schema != [] {
      DropNoEntry(Table(t.schema[1..], t.columns[1..]), name);
      assert t.schema == [t.schema[0]] + t.schema[1..];
    }
  }
}
