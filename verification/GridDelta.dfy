/** The row delta of a grid edit, built from the op and the table before it, is the keyed difference. */
module GridDelta {
  import opened Trees
  import opened Cells
  import opened Exprs
  import opened GridEdits
  import opened GridHistory
  import Ordinal

  datatype RowChange = Added | Changed | Removed

  datatype TableDelta = FullRefresh | RowSet(scheme: string, rows: seq<(string, RowChange)>)

  /** A cell's identity token, and the float equality behind the cells' own. */
  datatype Identity = Identity(token: Cell -> string, sameFloat: (Float, Float) -> bool)

  predicate SameCell(id: Identity, a: Cell, b: Cell)
  {
    if a.FloatCell? && b.FloatCell? then id.sameFloat(a.float, b.float) else a == b
  }

  function TokensOf(id: Identity, cells: seq<Cell>): (keys: seq<Option<string>>)
    ensures |keys| == |cells|
    ensures forall i :: 0 <= i < |cells| ==> keys[i] == if cells[i].Null? then None else Some(id.token(cells[i]))
  {
    if cells == [] then []
    else [if cells[0].Null? then None else Some(id.token(cells[0]))] + TokensOf(id, cells[1..])
  }

  function NoKeys(n: nat): (keys: seq<Option<string>>)
    ensures |keys| == n && forall i :: 0 <= i < n ==> keys[i] == None
  {
    if n == 0 then [] else [None] + NoKeys(n - 1)
  }

  /** Each row's key under the declared field, none where the cell is null or the field names no column. */
  function KeysOf(id: Identity, cols: seq<DataColumn>, field: string): seq<Option<string>>
  {
    var i := Find(cols, field);
    if i.Some? then TokensOf(id, cols[i.value].cells) else NoKeys(RowCount(cols))
  }

  // ----- what a delta should say -----

  /** Every row has a key, and no two rows share one. */
  ghost predicate Keyed(keys: seq<Option<string>>)
  {
    (forall i :: 0 <= i < |keys| ==> keys[i].Some?) && forall i, j :: 0 <= i < j < |keys| ==> keys[i] != keys[j]
  }

  /** Rows `i` and `j` hold unequal cells in some column. */
  ghost predicate RowsDiffer(id: Identity, before: seq<DataColumn>, i: nat, after: seq<DataColumn>, j: nat)
    requires |before| == |after|
    requires forall c :: 0 <= c < |before| ==> i < |before[c].cells| && j < |after[c].cells|
  {
    exists c :: 0 <= c < |before| && !SameCell(id, before[c].cells[i], after[c].cells[j])
  }

  /** Whether the keyed rows before and after differ at `key` in this way. */
  ghost predicate Differs(id: Identity, before: seq<DataColumn>, k0: seq<Option<string>>, after: seq<DataColumn>,
                          k1: seq<Option<string>>,
                          key: string, change: RowChange)
    requires |before| == |after| && OneLength(before, |k0|) && OneLength(after, |k1|)
  {
    match change
    case Added => Some(key) in k1 && Some(key) !in k0
    case Removed => Some(key) in k0 && Some(key) !in k1
    case Changed =>
      exists i: nat, j: nat :: i < |k0| && j < |k1| && k0[i] == Some(key) && k1[j] == Some(key)
        && RowsDiffer(id, before, i, after, j)
  }

  ghost predicate IsDifference(id: Identity, before: seq<DataColumn>, k0: seq<Option<string>>, after: seq<DataColumn>,
                               k1: seq<Option<string>>,
                               rows: seq<(string, RowChange)>)
    requires |before| == |after| && OneLength(before, |k0|) && OneLength(after, |k1|)
  {
    forall key, change :: (key, change) in rows <==> Differs(id, before, k0, after, k1, key, change)
  }

  /** No cell is unequal to itself, as a NaN is. */
  ghost predicate SelfEqual(id: Identity, cols: seq<DataColumn>)
  {
    forall c, i :: 0 <= c < |cols| && 0 <= i < |cols[c].cells| ==> SameCell(id, cols[c].cells[i], cols[c].cells[i])
  }

  ghost predicate TokensRespectEquality(id: Identity)
  {
    forall a, b :: SameCell(id, a, b) ==> id.token(a) == id.token(b)
  }

  // ----- row order -----

  function InsertRow(x: (string, RowChange), rows: seq<(string, RowChange)>): seq<(string, RowChange)>
  {
    if rows == [] || Ordinal.Leq(x.0, rows[0].0) then [x] + rows else [rows[0]] + InsertRow(x, rows[1..])
  }

  /** The stable sort by key. */
  function SortRows(rows: seq<(string, RowChange)>): seq<(string, RowChange)>
  {
    if rows == [] then [] else InsertRow(rows[0], SortRows(rows[1..]))
  }

  ghost predicate InKeyOrder(rows: seq<(string, RowChange)>)
  {
    forall i, j :: 0 <= i < j < |rows| ==> Ordinal.Leq(rows[i].0, rows[j].0)
  }

  lemma {:induction false} InsertRowOrdered(x: (string, RowChange), rows: seq<(string, RowChange)>)
    requires InKeyOrder(rows)
    ensures InKeyOrder(InsertRow(x, rows))
    ensures multiset(InsertRow(x, rows)) == multiset(rows) + multiset{x}
  {
    if rows == [] {
    } else if Ordinal.Leq(x.0, rows[0].0) {
      forall j | 0 <= j < |rows| ensures Ordinal.Leq(x.0, rows[j].0) {
        if j > 0 { Ordinal.LeqTransitive(x.0, rows[0].0, rows[j].0); }
      }
    } else {
      InsertRowOrdered(x, rows[1..]);
      Ordinal.LeqTotal(x.0, rows[0].0);
      var rest := InsertRow(x, rows[1..]);
      assert rows == [rows[0]] + rows[1..];
      forall j | 0 <= j < |rest| ensures Ordinal.Leq(rows[0].0, rest[j].0) {
        assert rest[j] in multiset(rest);
        assert rest[j] == x || rest[j] in rows[1..];
      }
    }
  }

  lemma {:induction false} SortRowsCorrect(rows: seq<(string, RowChange)>)
    ensures InKeyOrder(SortRows(rows)) && multiset(SortRows(rows)) == multiset(rows)
    ensures forall x :: x in SortRows(rows) <==> x in rows
  {
    if rows != [] {
      SortRowsCorrect(rows[1..]);
      InsertRowOrdered(rows[0], SortRows(rows[1..]));
      assert rows == [rows[0]] + rows[1..];
    }
    forall x ensures x in SortRows(rows) <==> x in rows {
      assert x in multiset(SortRows(rows)) <==> x in multiset(rows);
    }
  }

  // ----- one op at a time -----

  /** Where one cell of one column changed, the rows elsewhere do not differ. */
  lemma OnlyRowDiffers(id: Identity, before: seq<DataColumn>, p: nat, r: nat, value: Cell, i: nat)
    requires SelfEqual(id, before) && p < |before| && r < |before[p].cells| && OneLength(before, |before[p].cells|)
      && i < |before[p].cells|
    ensures var after := before[p := before[p].(cells := before[p].cells[r := value])];
      RowsDiffer(id, before, i, after, i) <==> i == r && !SameCell(id, before[p].cells[r], value)
  {
    var after := before[p := before[p].(cells := before[p].cells[r := value])];
    if i == r && !SameCell(id, before[p].cells[r], value) {
      assert !SameCell(id, before[p].cells[i], after[p].cells[i]);
    }
  }

  lemma SetCellDifference(id: Identity, before: seq<DataColumn>, k0: seq<Option<string>>, after: seq<DataColumn>,
                          k1: seq<Option<string>>,
                          r: nat, changed: bool, rows: seq<(string, RowChange)>)
    requires |before| == |after| && |k0| == |k1| && OneLength(before, |k0|) && OneLength(after, |k1|)
    requires r < |k0| && Keyed(k0) && Keyed(k1) && (forall i :: 0 <= i < |k0| && i != r ==> k0[i] == k1[i])
    requires forall i: nat :: i < |k0| ==> (RowsDiffer(id, before, i, after, i) <==> i == r && changed)
    requires !changed ==> k0[r] == k1[r]
    requires rows == if !changed then [] else if k0[r] == k1[r] then [(k0[r].value, Changed)]
                     else [(k0[r].value, Removed), (k1[r].value, Added)]
    ensures IsDifference(id, before, k0, after, k1, rows)
  {
    forall key, change ensures (key, change) in rows <==> Differs(id, before, k0, after, k1, key, change) {
      if change.Changed? {
        SameKeySameRow(k0, k1, r, key);
        if k0[r] == k1[r] && changed && key == k0[r].value { assert RowsDiffer(id, before, r, after, r); }
      } else {
        MovedKey(k0, k1, r, key);
      }
    }
  }

  /** With one row rekeyed, a key both sides hold is held at one row. */
  lemma SameKeySameRow(k0: seq<Option<string>>, k1: seq<Option<string>>, r: nat, key: string)
    requires |k0| == |k1| && r < |k0| && Keyed(k0) && Keyed(k1)
    requires forall i :: 0 <= i < |k0| && i != r ==> k0[i] == k1[i]
    ensures forall i, j :: 0 <= i < |k0| && 0 <= j < |k1| && k0[i] == Some(key) && k1[j] == Some(key) ==> i == j
  {
  }

  lemma MovedKey(k0: seq<Option<string>>, k1: seq<Option<string>>, r: nat, key: string)
    requires |k0| == |k1| && r < |k0| && Keyed(k0) && Keyed(k1)
    requires forall i :: 0 <= i < |k0| && i != r ==> k0[i] == k1[i]
    ensures (Some(key) in k1 && Some(key) !in k0) <==> k1[r] == Some(key) && k0[r] != k1[r]
    ensures (Some(key) in k0 && Some(key) !in k1) <==> k0[r] == Some(key) && k0[r] != k1[r]
  {
    assert k0[r] in k0 && k1[r] in k1;
    if Some(key) in k1 {
      var j :| 0 <= j < |k1| && k1[j] == Some(key);
      if j != r { assert k0[j] in k0; }
    }
    if Some(key) in k0 {
      var j :| 0 <= j < |k0| && k0[j] == Some(key);
      if j != r { assert k1[j] in k1; }
    }
  }

  ghost predicate ChangedAt(id: Identity, keys: seq<Option<string>>, was: seq<Cell>, now: seq<Cell>, n: nat,
                            rows: seq<(string, RowChange)>)
    requires n <= |keys| == |was| == |now|
  {
    forall key, change :: (key, change) in rows <==>
      change.Changed? && exists i :: 0 <= i < n && keys[i] == Some(key) && !SameCell(id, was[i], now[i])
  }

  ghost predicate NoRepeat(rows: seq<(string, RowChange)>)
  {
    forall x :: multiset(rows)[x] <= 1
  }

  /** The keys of the rows where a replaced column's cells differ. */
  method ChangedRows(id: Identity, keys: seq<Option<string>>, was: seq<Cell>, now: seq<Cell>)
    returns (rows: seq<(string, RowChange)>)
    requires |keys| == |was| == |now| && forall i :: 0 <= i < |keys| ==> keys[i].Some?
    ensures ChangedAt(id, keys, was, now, |keys|, rows)
    ensures Keyed(keys) ==> NoRepeat(rows)
  {
    rows := [];
    for n := 0 to |keys|
      invariant ChangedAt(id, keys, was, now, n, rows)
      invariant Keyed(keys) ==> NoRepeat(rows)
    {
      if !SameCell(id, was[n], now[n]) {
        rows := rows + [(keys[n].value, Changed)];
      }
    }
  }

  lemma SetColumnDifference(id: Identity, before: seq<DataColumn>, keys: seq<Option<string>>, p: nat,
                            column: DataColumn, rows: seq<(string, RowChange)>)
    requires p < |before| && OneLength(before, |keys|) && |column.cells| == |keys| && SelfEqual(id, before)
      && Keyed(keys)
    requires ChangedAt(id, keys, before[p].cells, column.cells, |keys|, rows)
    ensures IsDifference(id, before, keys, before[p := column], keys, rows)
  {
    var after := before[p := column];
    forall i: nat | i < |keys|
      ensures RowsDiffer(id, before, i, after, i) <==> !SameCell(id, before[p].cells[i], column.cells[i])
    {
      if !SameCell(id, before[p].cells[i], column.cells[i]) {
        assert !SameCell(id, before[p].cells[i], after[p].cells[i]);
      }
    }
    forall key, change ensures (key, change) in rows <==> Differs(id, before, keys, after, keys, key, change) {
      if change.Changed? {
        if i :| 0 <= i < |keys| && keys[i] == Some(key) && !SameCell(id, before[p].cells[i], column.cells[i]) {
          assert RowsDiffer(id, before, i, after, i);
        }
      }
    }
  }

  function Present(keys: seq<Option<string>>): (ks: seq<string>)
    ensures forall k :: k in ks <==> Some(k) in keys
  {
    if keys == [] then [] else (if keys[0].Some? then [keys[0].value] else []) + Present(keys[1..])
  }

  /** Whether every appended row brings a key of its own. */
  ghost predicate FreshKeys(k0: seq<Option<string>>, added: seq<Option<string>>)
  {
    (forall i :: 0 <= i < |added| ==> added[i].Some? && added[i] !in k0)
    && forall i, j :: 0 <= i < j < |added| ==> added[i] != added[j]
  }

  ghost predicate AddedUpTo(added: seq<Option<string>>, n: nat, rows: seq<(string, RowChange)>)
    requires n <= |added|
  {
    forall key, change :: (key, change) in rows <==> change.Added? && Some(key) in added[..n]
  }

  method AddedRows(k0: seq<Option<string>>, added: seq<Option<string>>) returns (r: Option<seq<(string, RowChange)>>)
    ensures r.Some? <==> FreshKeys(k0, added)
    ensures r.Some? ==> AddedUpTo(added, |added|, r.value) && NoRepeat(r.value)
  {
    var seen, rows := Present(k0), [];
    for n := 0 to |added|
      invariant FreshKeys(k0, added[..n])
      invariant forall k :: k in seen <==> Some(k) in k0 || Some(k) in added[..n]
      invariant AddedUpTo(added, n, rows) && NoRepeat(rows)
    {
      assert added[..n + 1] == added[..n] + [added[n]];
      if added[n].None? {
        assert !FreshKeys(k0, added);
        return None;
      }
      var k := added[n].value;
      if k in seen {
        assert Some(k) == added[n];
        if Some(k) !in k0 {
          var i :| 0 <= i < n && added[..n][i] == Some(k);
          assert added[i] == added[n];
        }
        assert !FreshKeys(k0, added);
        return None;
      }
      seen := seen + [k];
      rows := rows + [(k, Added)];
    }
    assert added[..|added|] == added;
    r := Some(rows);
  }

  lemma AppendDifference(id: Identity, before: seq<DataColumn>, k0: seq<Option<string>>, after: seq<DataColumn>,
                         added: seq<Option<string>>,
                         rows: seq<(string, RowChange)>)
    requires |before| == |after| && OneLength(before, |k0|) && OneLength(after, |k0 + added|)
    requires forall c, i :: 0 <= c < |before| && 0 <= i < |k0| ==> after[c].cells[i] == before[c].cells[i]
    requires SelfEqual(id, before) && Keyed(k0 + added) && AddedUpTo(added, |added|, rows)
    ensures IsDifference(id, before, k0, after, k0 + added, rows)
  {
    var k1 := k0 + added;
    assert added[..|added|] == added;
    forall key, change ensures (key, change) in rows <==> Differs(id, before, k0, after, k1, key, change) {
      KeyOnOneSide(k0, added, key);
      if change.Changed? {
        forall i: nat, j: nat | i < |k0| && j < |k1| && k0[i] == Some(key) && k1[j] == Some(key)
          ensures !RowsDiffer(id, before, i, after, j)
        {
          assert k1[i] == k1[j];
          assert i == j;
        }
      }
    }
  }

  lemma KeyOnOneSide(k0: seq<Option<string>>, added: seq<Option<string>>, key: string)
    requires Keyed(k0 + added)
    ensures Some(key) in k0 + added <==> Some(key) in k0 || Some(key) in added
    ensures !(Some(key) in k0 && Some(key) in added)
  {
    var k1 := k0 + added;
    forall i, j | 0 <= i < |k0| && 0 <= j < |added| ensures k0[i] != added[j] {
      assert k1[i] == k0[i] && k1[|k0| + j] == added[j];
    }
  }

  // ----- keys of the edited columns -----

  lemma KeyCount(id: Identity, cols: seq<DataColumn>, field: string)
    requires Regular(cols)
    ensures |KeysOf(id, cols, field)| == RowCount(cols) && OneLength(cols, RowCount(cols))
  {
  }

  lemma SetCellKeys(id: Identity, cols: seq<DataColumn>, p: nat, r: nat, value: Cell, field: string)
    requires Regular(cols) && p < |cols| && r < RowCount(cols) && r < |cols[p].cells|
    ensures var after := cols[p := cols[p].(cells := cols[p].cells[r := value])];
      var k0, k1 := KeysOf(id, cols, field), KeysOf(id, after, field);
      |k1| == |k0| && (forall i :: 0 <= i < |k0| && i != r ==> k0[i] == k1[i])
      && (SameCell(id, cols[p].cells[r], value) && TokensRespectEquality(id) ==> k0[r] == k1[r])
  {
    var d := cols[p].(cells := cols[p].cells[r := value]);
    var after := cols[p := d];
    KeyCount(id, cols, field);
    assert forall j :: 0 <= j < |cols| ==> after[j].name == cols[j].name;
    SameNamesSameFind(cols, after, field);
    var i := Find(cols, field);
    if i == Some(p) {
      var k0, k1 := TokensOf(id, cols[p].cells), TokensOf(id, d.cells);
      forall x | 0 <= x < |k0| && x != r ensures k0[x] == k1[x] { assert d.cells[x] == cols[p].cells[x]; }
    }
  }

  lemma {:induction false} SameNamesSameFind(a: seq<DataColumn>, b: seq<DataColumn>, name: string)
    requires |a| == |b| && forall j :: 0 <= j < |a| ==> a[j].name == b[j].name
    ensures Find(a, name) == Find(b, name)
  {
    if a != [] {
      SameNamesSameFind(a[1..], b[1..], name);
    }
  }

  lemma AppendKeys(id: Identity, cols: seq<DataColumn>, rows: seq<seq<(string, Cell)>>, field: string)
    requires Regular(cols) && Regular(Extended(cols, rows))
    ensures var k0, k1 := KeysOf(id, cols, field), KeysOf(id, Extended(cols, rows), field);
      |k0| <= |k1| && k1 == k0 + k1[|k0|..]
  {
    var after := Extended(cols, rows);
    KeyCount(id, cols, field);
    KeyCount(id, after, field);
    SameNamesSameFind(cols, after, field);
    var i := Find(cols, field);
    if i.Some? {
      var earlier, more := cols[i.value].cells, after[i.value].cells;
      forall x | 0 <= x < |earlier| ensures TokensOf(id, more)[x] == TokensOf(id, earlier)[x] {
        assert more[x] == earlier[x];
      }
    }
  }

  // ----- the delta -----

  /** Whether the keys give every row an edit touches an identity. */
  ghost predicate Identified(op: ColumnOp, k0: seq<Option<string>>, k1: seq<Option<string>>)
  {
    match op
    case SetCell(_, row, _) => 0 <= row < |k0| && row < |k1| && k0[row].Some? && k1[row].Some?
    case SetColumn(_) => k0 == k1 && None !in k0
    case AppendRows(_) => |k0| <= |k1| && FreshKeys(k0, k1[|k0|..])
    case _ => false
  }

  /** What a delta promises of an op that applies. */
  ghost predicate DeltaOk(id: Identity, field: string, before: seq<DataColumn>, op: ColumnOp, after: seq<DataColumn>,
                          d: TableDelta)
    requires Regular(before) && Regular(after)
  {
    var k0, k1 := KeysOf(id, before, field), KeysOf(id, after, field);
    KeyCount(id, before, field); KeyCount(id, after, field);
    (d.RowSet? <==> Identified(op, k0, k1))
    && (d.RowSet? ==> InKeyOrder(d.rows))
    && (d.RowSet? && Keyed(k0) && Keyed(k1) && SelfEqual(id, before) && TokensRespectEquality(id) ==>
          |before| == |after| && IsDifference(id, before, k0, after, k1, d.rows) && NoRepeat(d.rows))
  }

  predicate TouchesRows(op: ColumnOp) { op.SetCell? || op.SetColumn? || op.AppendRows? }

  lemma TouchedRegular(op: ColumnOp, before: seq<DataColumn>)
    requires Regular(before) && TouchesRows(op) && ColumnsAfter(op, before).Applied?
    ensures Regular(ColumnsAfter(op, before).value) && |ColumnsAfter(op, before).value| == |before|
  {
  }

  lemma SetCellFacts(id: Identity, before: seq<DataColumn>, op: ColumnOp, p: nat, field: string)
    requires Regular(before) && op.SetCell? && ColumnsAfter(op, before).Applied? && Find(before, op.col) == Some(p)
    ensures 0 <= op.row < RowCount(before) && op.row < |before[p].cells|
    ensures var after := ColumnsAfter(op, before).value;
      var k0, k1 := KeysOf(id, before, field), KeysOf(id, after, field);
      Regular(after) && after == before[p := before[p].(cells := before[p].cells[op.row := op.value])]
      && |k0| == |k1| == RowCount(before) && OneLength(before, |k0|)
      && (forall i :: 0 <= i < |k0| && i != op.row ==> k0[i] == k1[i])
      && (SameCell(id, before[p].cells[op.row], op.value) && TokensRespectEquality(id) ==> k0[op.row] == k1[op.row])
  {
    TouchedRegular(op, before);
    SetCellShape(id, before, op, p);
    SetCellKeys(id, before, p, op.row, op.value, field);
    KeyCount(id, before, field);
  }

  method SetCellDelta(id: Identity, field: string, before: seq<DataColumn>, op: ColumnOp) returns (d: TableDelta)
    requires Regular(before) && op.SetCell? && ColumnsAfter(op, before).Applied?
    ensures Regular(ColumnsAfter(op, before).value) && DeltaOk(id, field, before, op, ColumnsAfter(op, before).value, d)
    ensures d.RowSet? ==> d.scheme == "column:" + field
  {
    var after := ColumnsAfter(op, before).value;
    var k0, k1 := KeysOf(id, before, field), KeysOf(id, after, field);
    var r := op.row;
    var p := Find(before, op.col).value;
    SetCellFacts(id, before, op, p, field);
    if k0[r].None? || k1[r].None? {
      return FullRefresh;
    }
    var changed := !SameCell(id, before[p].cells[r], op.value);
    var rows := [];
    if changed {
      rows := if k0[r] == k1[r] then [(k0[r].value, Changed)] else [(k0[r].value, Removed), (k1[r].value, Added)];
    }
    d := RowSet("column:" + field, SortRows(rows));
    SortRowsCorrect(rows);
    if Keyed(k0) && Keyed(k1) && SelfEqual(id, before) && TokensRespectEquality(id) {
      SetCellExact(id, before, k0, k1, p, r, op.value, rows);
    }
  }

  lemma SetCellExact(id: Identity, before: seq<DataColumn>, k0: seq<Option<string>>, k1: seq<Option<string>>,
                     p: nat, r: nat, value: Cell, rows: seq<(string, RowChange)>)
    requires p < |before| && |k0| == |k1| && OneLength(before, |k0|) && r < |k0| && SelfEqual(id, before)
    requires Keyed(k0) && Keyed(k1) && (forall i :: 0 <= i < |k0| && i != r ==> k0[i] == k1[i])
    requires SameCell(id, before[p].cells[r], value) ==> k0[r] == k1[r]
    requires rows == if SameCell(id, before[p].cells[r], value) then []
                     else if k0[r] == k1[r] then [(k0[r].value, Changed)]
                     else [(k0[r].value, Removed), (k1[r].value, Added)]
    ensures var after := before[p := before[p].(cells := before[p].cells[r := value])];
      OneLength(after, |k1|) && IsDifference(id, before, k0, after, k1, rows) && NoRepeat(rows)
  {
    var after := before[p := before[p].(cells := before[p].cells[r := value])];
    var changed := !SameCell(id, before[p].cells[r], value);
    forall i: nat | i < |k0| ensures RowsDiffer(id, before, i, after, i) <==> i == r && changed {
      OnlyRowDiffers(id, before, p, r, value, i);
    }
    SetCellDifference(id, before, k0, after, k1, r, changed, rows);
  }

  lemma SetCellShape(id: Identity, before: seq<DataColumn>, op: ColumnOp, p: nat)
    requires Regular(before) && op.SetCell? && ColumnsAfter(op, before).Applied? && Find(before, op.col) == Some(p)
    ensures 0 <= op.row < RowCount(before) && op.row < |before[p].cells|
    ensures ColumnsAfter(op, before).value == before[p := before[p].(cells := before[p].cells[op.row := op.value])]
  {
    ReplaceAt(before, p, before[p].(cells := before[p].cells[op.row := op.value]));
  }

  method SetColumnDelta(id: Identity, field: string, before: seq<DataColumn>, op: ColumnOp) returns (d: TableDelta)
    requires Regular(before) && op.SetColumn? && ColumnsAfter(op, before).Applied?
    ensures Regular(ColumnsAfter(op, before).value) && DeltaOk(id, field, before, op, ColumnsAfter(op, before).value, d)
    ensures d.RowSet? ==> d.scheme == "column:" + field
  {
    TouchedRegular(op, before);
    var after := ColumnsAfter(op, before).value;
    var k0, k1 := KeysOf(id, before, field), KeysOf(id, after, field);
    KeyCount(id, before, field);
    KeyCount(id, after, field);
    if k0 != k1 || None in k0 {
      return FullRefresh;
    }
    var p := Find(before, op.column.name).value;
    ReplaceAt(before, p, op.column);
    var rows := ChangedRows(id, k0, before[p].cells, op.column.cells);
    d := RowSet("column:" + field, SortRows(rows));
    SortRowsCorrect(rows);
    if Keyed(k0) && SelfEqual(id, before) {
      SetColumnDifference(id, before, k0, p, op.column, rows);
    }
  }

  method AppendDelta(id: Identity, field: string, before: seq<DataColumn>, op: ColumnOp) returns (d: TableDelta)
    requires Regular(before) && op.AppendRows? && ColumnsAfter(op, before).Applied?
    ensures Regular(ColumnsAfter(op, before).value) && DeltaOk(id, field, before, op, ColumnsAfter(op, before).value, d)
    ensures d.RowSet? ==> d.scheme == "column:" + field
  {
    TouchedRegular(op, before);
    var after := ColumnsAfter(op, before).value;
    var k0, k1 := KeysOf(id, before, field), KeysOf(id, after, field);
    KeyCount(id, before, field);
    KeyCount(id, after, field);
    AppendKeys(id, before, op.rows, field);
    var rows := AddedRows(k0, k1[|k0|..]);
    if rows.None? {
      return FullRefresh;
    }
    d := RowSet("column:" + field, SortRows(rows.value));
    SortRowsCorrect(rows.value);
    if Keyed(k1) && SelfEqual(id, before) {
      AppendDifference(id, before, k0, after, k1[|k0|..], rows.value);
    }
  }

  /** Whenever it is a row set, the delta is precisely the difference of the keyed rows, and it is one
      exactly when the touched rows have keys of their own. */
  method GridEditDelta(run: Pipelines, id: Identity, field: string, before: Table, op: ColumnOp) returns (d: TableDelta)
    requires |before.schema| == |before.columns| && Regular(before.columns)
    ensures !TouchesRows(op) || ApplyColumnOp(run, op, before).Refused? ==> d == FullRefresh
    ensures TouchesRows(op) && ApplyColumnOp(run, op, before).Applied? ==>
      var after := ApplyColumnOp(run, op, before).value.columns;
      Regular(after) && DeltaOk(id, field, before.columns, op, after, d)
    ensures d.RowSet? ==> d.scheme == "column:" + field
  {
    if !TouchesRows(op) {
      return FullRefresh;
    }
    var after := ApplyColumnOp(run, op, before);
    if after.Refused? {
      return FullRefresh;
    }
    match op
    case SetCell(_, _, _) => d := SetCellDelta(id, field, before.columns, op);
    case SetColumn(_) => d := SetColumnDelta(id, field, before.columns, op);
    case AppendRows(_) => d := AppendDelta(id, field, before.columns, op);
  }
}
