/** The keyed relational verbs: distinct, the set operations, group-by and sort. */
module Verbs {
  import opened Trees
  import opened Cells
  import opened Exprs
  import opened Derive
  import opened RowKeys

  datatype AggFn = Sum | Mean | Min | Max | Count | Median | Stddev | First | Last | CountDistinct

  datatype Agg = Agg(name: string, func: AggFn, of: string)

  datatype SortKey = SortKey(col: string, descending: bool)

  /** What the verbs call out to: a cell's identity token, and one aggregate over a column's cells. */
  datatype Columns = Columns(token: Cell -> string, aggregate: (AggFn, ColumnType, seq<Cell>) -> Result<Cell>)

  function Tokens(c: Columns, row: Row): (ts: seq<string>)
    ensures |ts| == |row| && forall i :: 0 <= i < |row| ==> ts[i] == c.token(row[i])
  {
    if row == [] then [] else [c.token(row[0])] + Tokens(c, row[1..])
  }

  function Project(row: Row, idxs: seq<nat>): (r: Row)
    requires forall i :: 0 <= i < |idxs| ==> idxs[i] < |row|
    ensures |r| == |idxs| && forall i :: 0 <= i < |idxs| ==> r[i] == row[idxs[i]]
  {
    if idxs == [] then [] else [row[idxs[0]]] + Project(row, idxs[1..])
  }

  ghost predicate Within(idxs: seq<nat>, n: nat)
  {
    forall i :: 0 <= i < |idxs| ==> idxs[i] < n
  }

  /** Each row's identity over some of its columns. */
  function KeysOf(c: Columns, rows: seq<Row>, idxs: seq<nat>): (keys: seq<string>)
    requires forall r :: 0 <= r < |rows| ==> Within(idxs, |rows[r]|)
    ensures |keys| == |rows|
    ensures forall r :: 0 <= r < |rows| ==>
      Within(idxs, |rows[r]|) && keys[r] == RowKey(Tokens(c, Project(rows[r], idxs)))
  {
    if rows == [] then []
    else
      assert Within(idxs, |rows[0]|);
      [RowKey(Tokens(c, Project(rows[0], idxs)))] + KeysOf(c, rows[1..], idxs)
  }

  function WholeKeys(c: Columns, rows: seq<Row>): (keys: seq<string>)
    ensures |keys| == |rows| && forall r :: 0 <= r < |rows| ==> keys[r] == RowKey(Tokens(c, rows[r]))
  {
    if rows == [] then [] else [RowKey(Tokens(c, rows[0]))] + WholeKeys(c, rows[1..])
  }

  lemma TokensAgree(c: Columns, a: Row, b: Row)
    ensures Tokens(c, a) == Tokens(c, b) <==> |a| == |b| && forall i :: 0 <= i < |a| ==> c.token(a[i]) == c.token(b[i])
  {
    if Tokens(c, a) == Tokens(c, b) {
      forall i | 0 <= i < |a| ensures c.token(a[i]) == c.token(b[i]) { assert Tokens(c, a)[i] == Tokens(c, b)[i]; }
    }
  }

  /** Two rows are one row to these verbs exactly when their cells' tokens agree one by one. */
  lemma SameRow(c: Columns, a: Row, b: Row)
    ensures RowKey(Tokens(c, a)) == RowKey(Tokens(c, b))
       <==> |a| == |b| && forall i :: 0 <= i < |a| ==> c.token(a[i]) == c.token(b[i])
  {
    TokensAgree(c, a, b);
    var s, t := Tokens(c, a), Tokens(c, b);
    if RowKey(s) == RowKey(t) { RowKeyInjective(s, t); }
  }

  // ----- distinct -----

  lemma FirstsStep(keys: seq<string>, n: nat)
    requires n < |keys|
    ensures Firsts(keys[..n + 1]) == Firsts(keys[..n]) + (if keys[n] !in keys[..n] then [n] else [])
  {
    var s := keys[..n + 1];
    assert s[..n] == keys[..n] && s[n] == keys[n];
  }

  /** Keeps exactly the first row of each key, in order. */
  method EvalDistinct(c: Columns, f: Frame) returns (g: Frame)
    ensures g.cols == f.cols && Picks(f.rows, Firsts(WholeKeys(c, f.rows)), g.rows)
  {
    ghost var keys := WholeKeys(c, f.rows);
    ghost var kept: seq<nat> := [];
    var seen: set<string>, rows := {}, [];
    for n := 0 to |f.rows|
      invariant DistinctSoFar(keys, n, seen, kept) && Picks(f.rows, kept, rows)
    {
      var k := RowKey(Tokens(c, f.rows[n]));
      DistinctStep(keys, n, seen, kept, k);
      if k !in seen {
        seen := seen + {k};
        rows := rows + [f.rows[n]];
        kept := kept + [n];
      }
    }
    assert keys[..|f.rows|] == keys;
    g := Frame(f.cols, rows);
  }

  ghost predicate DistinctSoFar(keys: seq<string>, n: nat, seen: set<string>, kept: seq<nat>)
    requires n <= |keys|
  {
    kept == Firsts(keys[..n]) && forall k :: k in seen <==> k in keys[..n]
  }

  lemma DistinctStep(keys: seq<string>, n: nat, seen: set<string>, kept: seq<nat>, k: string)
    requires n < |keys| && DistinctSoFar(keys, n, seen, kept) && k == keys[n]
    ensures if k in seen then DistinctSoFar(keys, n + 1, seen, kept) else DistinctSoFar(keys, n + 1, seen + {k},
      kept + [n])
  {
    FirstsStep(keys, n);
    assert keys[..n + 1] == keys[..n] + [k];
  }

  /** The rows at a list of places. */
  ghost predicate Picks(rows: seq<Row>, places: seq<nat>, picked: seq<Row>)
  {
    |picked| == |places| && forall i :: 0 <= i < |places| ==> places[i] < |rows| && picked[i] == rows[places[i]]
  }

  // ----- intersect and except -----

  function NamesOf(cols: Schema): seq<string>
  {
    if cols == [] then [] else [cols[0].name] + NamesOf(cols[1..])
  }

  /** The first pair of columns stating two different units. */
  function UnitsRefusal(verb: string, l: Schema, r: Schema): Option<EvalError>
  {
    if l == [] || r == [] then None
    else if l[0].unit.Some? && r[0].unit.Some? && l[0].unit != r[0].unit then
      Some(UnitMismatch(verb + " column '" + l[0].name + "'", Unlike(l[0].unit.value, r[0].unit.value)))
    else UnitsRefusal(verb, l[1..], r[1..])
  }

  /** The left rows whose identity is (or is not) among the right's, in order. */
  function Selected(c: Columns, rows: seq<Row>, right: set<string>, keep: bool): seq<Row>
  {
    if rows == [] then []
    else
      var n := |rows| - 1;
      Selected(c, rows[..n], right, keep) + (if (RowKey(Tokens(c, rows[n])) in right) == keep then [rows[n]] else [])
  }

  method EvalSetOp(c: Columns, verb: string, keep: bool, f: Frame, other: Frame) returns (r: Result<Frame>)
    ensures NamesOf(f.cols) != NamesOf(other.cols) ==> r == Err(JoinError)
    ensures NamesOf(f.cols) == NamesOf(other.cols) ==>
      match UnitsRefusal(verb, f.cols, other.cols)
      case Some(e) => r == Err(e)
      case None => exists right: set<string> :: ((forall k :: k in right <==> k in WholeKeys(c, other.rows))
                                                && r == Ok(Frame(f.cols, Selected(c, f.rows, right, keep))))
  {
    if NamesOf(f.cols) != NamesOf(other.cols) {
      return Err(JoinError);
    }
    var refusal := UnitsRefusal(verb, f.cols, other.cols);
    if refusal.Some? {
      return Err(refusal.value);
    }
    var right := KeySet(c, other.rows);
    var rows := Filtered(c, f.rows, right, keep);
    r := Ok(Frame(f.cols, rows));
  }

  method KeySet(c: Columns, rows: seq<Row>) returns (keySet: set<string>)
    ensures forall k :: k in keySet <==> k in WholeKeys(c, rows)
  {
    ghost var keys := WholeKeys(c, rows);
    keySet := {};
    for n := 0 to |rows|
      invariant forall k :: k in keySet <==> k in keys[..n]
    {
      var key := RowKey(Tokens(c, rows[n]));
      assert key == keys[n];
      keySet := keySet + {key};
      assert keys[..n + 1] == keys[..n] + [key];
    }
    assert keys[..|rows|] == keys;
  }

  method Filtered(c: Columns, rows: seq<Row>, right: set<string>, keep: bool) returns (out: seq<Row>)
    ensures out == Selected(c, rows, right, keep)
  {
    out := [];
    for n := 0 to |rows|
      invariant out == Selected(c, rows[..n], right, keep)
    {
      SelectedStep(c, rows, n, right, keep);
      if (RowKey(Tokens(c, rows[n])) in right) == keep {
        out := out + [rows[n]];
      }
    }
    assert rows[..|rows|] == rows;
  }

  lemma SelectedStep(c: Columns, rows: seq<Row>, n: nat, right: set<string>, keep: bool)
    requires n < |rows|
    ensures Selected(c, rows[..n + 1], right, keep)
         == Selected(c, rows[..n], right, keep)
            + (if (RowKey(Tokens(c, rows[n])) in right) == keep then [rows[n]] else [])
  {
    assert rows[..n + 1][..n] == rows[..n] && rows[..n + 1][n] == rows[n];
  }

  /** Intersect and except split the left rows between them, multiplicities and all. */
  lemma {:induction false} SetOpsSplit(c: Columns, rows: seq<Row>, right: set<string>)
    ensures multiset(Selected(c, rows, right, true)) + multiset(Selected(c, rows, right, false)) == multiset(rows)
  {
    if rows != [] {
      var n := |rows| - 1;
      SetOpsSplit(c, rows[..n], right);
      assert rows == rows[..n] + [rows[n]];
    }
  }

  lemma {:induction false} SelectedExact(c: Columns, rows: seq<Row>, right: set<string>, keep: bool, row: Row)
    ensures row in Selected(c, rows, right, keep) <==> row in rows && (RowKey(Tokens(c, row)) in right) == keep
  {
    if rows != [] {
      var n := |rows| - 1;
      SelectedExact(c, rows[..n], right, keep, row);
      assert row in rows <==> row in rows[..n] || row == rows[n];
    }
  }

  // ----- group-by -----

  function ColumnAt(rows: seq<Row>, members: seq<nat>, idx: nat): (cells: seq<Cell>)
    requires forall m :: 0 <= m < |members| ==> members[m] < |rows| && idx < |rows[members[m]]|
    ensures |cells| == |members|
    ensures forall m :: 0 <= m < |members| ==>
      members[m] < |rows| && idx < |rows[members[m]]| && cells[m] == rows[members[m]][idx]
  {
    if members == [] then [] else [rows[members[0]][idx]] + ColumnAt(rows, members[1..], idx)
  }

  /** A group's aggregates in order, or the first refusal. */
  function Aggregates(c: Columns, f: Frame, aggs: seq<Agg>, members: seq<nat>): Result<seq<Cell>>
    requires Rectangular(f) && Within(members, |f.rows|)
    requires forall a :: 0 <= a < |aggs| ==> ColIndex(f.cols, aggs[a].of).Some?
  {
    if aggs == [] then Ok([])
    else
      var i := ColIndex(f.cols, aggs[0].of).value;
      var first :- c.aggregate(aggs[0].func, f.cols[i].columnType, ColumnAt(f.rows, members, i));
      var rest :- Aggregates(c, f, aggs[1..], members);
      Ok([first] + rest)
  }

  /** The first column of a list that the schema does not have. */
  function MissingColumn(cols: Schema, names: seq<string>): (r: Option<string>)
    ensures r.None? <==> forall i :: 0 <= i < |names| ==> ColIndex(cols, names[i]).Some?
  {
    if names == [] then None else if ColIndex(cols, names[0]).None? then Some(names[0]) else MissingColumn(cols,
      names[1..])
  }

  function IndexesOf(cols: Schema, names: seq<string>): (idxs: seq<nat>)
    requires MissingColumn(cols, names).None?
    ensures |idxs| == |names| && Within(idxs, |cols|)
    ensures forall i :: 0 <= i < |names| ==> ColIndex(cols, names[i]) == Some(idxs[i])
  {
    if names == [] then [] else [ColIndex(cols, names[0]).value] + IndexesOf(cols, names[1..])
  }

  function Sources(aggs: seq<Agg>): (names: seq<string>)
    ensures |names| == |aggs| && forall i :: 0 <= i < |aggs| ==> names[i] == aggs[i].of
  {
    if aggs == [] then [] else [aggs[0].of] + Sources(aggs[1..])
  }

  function Outputs(aggs: seq<Agg>): seq<string>
  {
    if aggs == [] then [] else [aggs[0].name] + Outputs(aggs[1..])
  }

  /** The first name an earlier output already took. */
  function Repeated(names: seq<string>): Option<string>
  {
    if names == [] then None
    else
      var n := |names| - 1;
      var earlier := Repeated(names[..n]);
      if earlier.Some? then earlier else if names[n] in names[..n] then Some(names[n]) else None
  }

  function AggType(func: AggFn, source: ColumnType): ColumnType
  {
    match func
    case Count | CountDistinct => TInt
    case Mean | Median | Stddev => TFloat
    case _ => source
  }

  function AggUnit(func: AggFn, source: Option<UnitOfMeasure>): Option<UnitOfMeasure>
  {
    if func.Count? || func.CountDistinct? then None else source
  }

  function AggColumns(cols: Schema, aggs: seq<Agg>): Schema
    requires MissingColumn(cols, Sources(aggs)).None?
  {
    if aggs == [] then []
    else
      var i := ColIndex(cols, aggs[0].of).value;
      assert Sources(aggs)[0] == aggs[0].of;
      assert forall j :: 0 <= j < |aggs[1..]| ==> Sources(aggs[1..])[j] == Sources(aggs)[j + 1];
      [Stated(aggs[0].name, AggType(aggs[0].func, cols[i].columnType), AggUnit(aggs[0].func, cols[i].unit))]
      + AggColumns(cols, aggs[1..])
  }

  function KeyColumns(cols: Schema, idxs: seq<nat>): (r: Schema)
    requires Within(idxs, |cols|)
    ensures |r| == |idxs| && forall i :: 0 <= i < |idxs| ==> r[i] == cols[idxs[i]]
  {
    if idxs == [] then [] else [cols[idxs[0]]] + KeyColumns(cols, idxs[1..])
  }

  /** What group-by answers once its columns resolve: one row per key, in first-appearance order, holding
      the key cells of the key's first row and the aggregates over exactly the key's rows. */
  ghost predicate Grouped(c: Columns, f: Frame, idxs: seq<nat>, aggs: seq<Agg>, r: Result<Frame>)
    requires Rectangular(f) && Within(idxs, |f.cols|) && MissingColumn(f.cols, Sources(aggs)).None?
  {
    SourcesResolve(f.cols, aggs);
    var keys := KeysOf(c, f.rows, idxs);
    match r
    case Ok(g) =>
      g.cols == KeyColumns(f.cols, idxs) + AggColumns(f.cols, aggs)
      && |g.rows| == |Firsts(keys)|
      && forall i :: 0 <= i < |g.rows| ==> GroupRow(c, f, idxs, aggs, keys, i, g.rows[i])
    case Err(e) =>
      exists i :: 0 <= i < |Firsts(keys)| && FirstGroupRefused(c, f, aggs, keys, i, e)
  }

  ghost predicate GroupRow(c: Columns, f: Frame, idxs: seq<nat>, aggs: seq<Agg>, keys: seq<string>, i: nat, row: Row)
    requires Rectangular(f) && Within(idxs, |f.cols|) && |keys| == |f.rows| && i < |Firsts(keys)|
    requires forall a :: 0 <= a < |aggs| ==> ColIndex(f.cols, aggs[a].of).Some?
  {
    var first := Firsts(keys)[i];
    first < |f.rows|
    && (MembersExact(keys, keys[first]);
        var outs := Aggregates(c, f, aggs, Members(keys, keys[first]));
        outs.Ok? && row == Project(f.rows[first], idxs) + outs.value)
  }

  ghost predicate GroupRefused(c: Columns, f: Frame, aggs: seq<Agg>, keys: seq<string>, i: nat, e: EvalError)
    requires Rectangular(f) && |keys| == |f.rows| && i < |Firsts(keys)|
    requires forall a :: 0 <= a < |aggs| ==> ColIndex(f.cols, aggs[a].of).Some?
  {
    var first := Firsts(keys)[i];
    first < |f.rows|
    && (MembersExact(keys, keys[first]);
        Aggregates(c, f, aggs, Members(keys, keys[first])) == Err(e))
  }

  ghost predicate GroupAnswered(c: Columns, f: Frame, aggs: seq<Agg>, keys: seq<string>, i: nat)
    requires Rectangular(f) && |keys| == |f.rows| && i < |Firsts(keys)|
    requires forall a :: 0 <= a < |aggs| ==> ColIndex(f.cols, aggs[a].of).Some?
  {
    var first := Firsts(keys)[i];
    first < |f.rows| && (MembersExact(keys, keys[first]); Aggregates(c, f, aggs, Members(keys, keys[first])).Ok?)
  }

  /** The first group whose aggregates refuse. */
  ghost predicate FirstGroupRefused(c: Columns, f: Frame, aggs: seq<Agg>, keys: seq<string>, i: nat, e: EvalError)
    requires Rectangular(f) && |keys| == |f.rows| && i < |Firsts(keys)|
    requires forall a :: 0 <= a < |aggs| ==> ColIndex(f.cols, aggs[a].of).Some?
  {
    GroupRefused(c, f, aggs, keys, i, e) && forall j :: 0 <= j < i ==> GroupAnswered(c, f, aggs, keys, j)
  }

  lemma SourcesResolve(cols: Schema, aggs: seq<Agg>)
    requires MissingColumn(cols, Sources(aggs)).None?
    ensures forall a :: 0 <= a < |aggs| ==> ColIndex(cols, aggs[a].of).Some?
  {
    forall a | 0 <= a < |aggs| ensures ColIndex(cols, aggs[a].of).Some? { assert Sources(aggs)[a] == aggs[a].of; }
  }

  method EvalGroupBy(c: Columns, f: Frame, keyNames: seq<string>, aggs: seq<Agg>) returns (r: Result<Frame>)
    requires Rectangular(f)
    ensures var missing, absent := MissingColumn(f.cols, keyNames), MissingColumn(f.cols, Sources(aggs));
      var repeated := Repeated(keyNames + Outputs(aggs));
      if missing.Some? then r == Err(UnknownColumn(missing.value))
      else if absent.Some? then r == Err(UnknownColumn(absent.value))
      else if repeated.Some? then r == Err(TypeError(RepeatedOutput(repeated.value)))
      else Grouped(c, f, IndexesOf(f.cols, keyNames), aggs, r)
  {
    var missing := MissingColumn(f.cols, keyNames);
    if missing.Some? {
      return Err(UnknownColumn(missing.value));
    }
    var idxs := IndexesOf(f.cols, keyNames);
    var keys := KeysOf(c, f.rows, idxs);
    var order, groups := Partition(keys);
    var absent := MissingColumn(f.cols, Sources(aggs));
    if absent.Some? {
      return Err(UnknownColumn(absent.value));
    }
    var repeated := Repeated(keyNames + Outputs(aggs));
    if repeated.Some? {
      return Err(TypeError(RepeatedOutput(repeated.value)));
    }
    SourcesResolve(f.cols, aggs);
    var rows, refusal := GroupRows(c, f, idxs, aggs, keys, order, groups);
    r := if refusal.Some? then Err(refusal.value) else Ok(Frame(KeyColumns(f.cols, idxs) + AggColumns(f.cols, aggs),
        rows));
  }

  /** The rows of the first groups, in order. */
  ghost predicate RowsSoFar(c: Columns, f: Frame, idxs: seq<nat>, aggs: seq<Agg>, keys: seq<string>, rows: seq<Row>)
    requires Rectangular(f) && Within(idxs, |f.cols|) && |keys| == |f.rows|
    requires forall a :: 0 <= a < |aggs| ==> ColIndex(f.cols, aggs[a].of).Some?
  {
    |rows| <= |Firsts(keys)| && forall i :: 0 <= i < |rows| ==> GroupRow(c, f, idxs, aggs, keys, i, rows[i])
  }

  lemma OneMoreRow(c: Columns, f: Frame, idxs: seq<nat>, aggs: seq<Agg>, keys: seq<string>, rows: seq<Row>, row: Row)
    requires Rectangular(f) && Within(idxs, |f.cols|) && |keys| == |f.rows|
    requires forall a :: 0 <= a < |aggs| ==> ColIndex(f.cols, aggs[a].of).Some?
    requires RowsSoFar(c, f, idxs, aggs, keys, rows) && |rows| < |Firsts(keys)|
    requires GroupRow(c, f, idxs, aggs, keys, |rows|, row)
    ensures RowsSoFar(c, f, idxs, aggs, keys, rows + [row])
  {
  }

  lemma RefusedAfter(c: Columns, f: Frame, idxs: seq<nat>, aggs: seq<Agg>, keys: seq<string>, rows: seq<Row>,
                     e: EvalError)
    requires Rectangular(f) && Within(idxs, |f.cols|) && |keys| == |f.rows|
    requires forall a :: 0 <= a < |aggs| ==> ColIndex(f.cols, aggs[a].of).Some?
    requires RowsSoFar(c, f, idxs, aggs, keys, rows) && |rows| < |Firsts(keys)|
    requires GroupRefused(c, f, aggs, keys, |rows|, e)
    ensures FirstGroupRefused(c, f, aggs, keys, |rows|, e)
  {
    forall j | 0 <= j < |rows| ensures GroupAnswered(c, f, aggs, keys, j) {
      assert GroupRow(c, f, idxs, aggs, keys, j, rows[j]);
    }
  }

  /** One output row per group, in order, up to the first refusal. */
  method GroupRows(c: Columns, f: Frame, idxs: seq<nat>, aggs: seq<Agg>, keys: seq<string>, order: seq<string>,
                   groups: map<string, seq<nat>>)
    returns (rows: seq<Row>, refusal: Option<EvalError>)
    requires Rectangular(f) && Within(idxs, |f.cols|) && |keys| == |f.rows| && |order| == |Firsts(keys)|
    requires forall a :: 0 <= a < |aggs| ==> ColIndex(f.cols, aggs[a].of).Some?
    requires forall g :: 0 <= g < |order| ==> Firsts(keys)[g] < |keys| && order[g] == keys[Firsts(keys)[g]]
    requires forall key :: key in keys ==> key in groups && groups[key] == Members(keys, key)
    ensures RowsSoFar(c, f, idxs, aggs, keys, rows)
    ensures if refusal.None? then |rows| == |Firsts(keys)|
            else |rows| < |Firsts(keys)| && FirstGroupRefused(c, f, aggs, keys, |rows|, refusal.value)
  {
    rows, refusal := [], None;
    for i := 0 to |order|
      invariant |rows| == i && RowsSoFar(c, f, idxs, aggs, keys, rows)
    {
      ghost var first := Firsts(keys)[i];
      MembersExact(keys, keys[first]);
      HeadIsFirst(keys, first);
      var members := groups[order[i]];
      var outs := Aggregates(c, f, aggs, members);
      if outs.Err? {
        assert GroupRefused(c, f, aggs, keys, i, outs.error);
        RefusedAfter(c, f, idxs, aggs, keys, rows, outs.error);
        return rows, Some(outs.error);
      }
      var row := Project(f.rows[members[0]], idxs) + outs.value;
      assert GroupRow(c, f, idxs, aggs, keys, i, row);
      OneMoreRow(c, f, idxs, aggs, keys, rows, row);
      rows := rows + [row];
    }
  }
}
