/** The derived column: how its type is chosen, and the verb that computes it. */
module Derive {
  import opened Trees
  import opened Cells
  import opened Exprs
  import opened Typer
  import opened Rewrites

  datatype DerivedTyping = Decided(ty: ColumnType) | ByCells | Refused

  /** Whether an arm the derived value is drawn from, through cases and coalesces, has type `ty`. */
  predicate ArmsHave(ty: ColumnType, cols: Schema, e: ColExpr)
    decreases e
  {
    match e
    case Coalesce(xs) => AnyArmHas(ty, cols, xs)
    case Case(arms, x) => ArmsHave(ty, cols, x) || AnyResultHas(ty, cols, arms)
    case _ => TypingOf(cols, e) == Of(ty)
  }

  predicate AnyArmHas(ty: ColumnType, cols: Schema, es: seq<ColExpr>)
    decreases es
  {
    es != [] && (ArmsHave(ty, cols, es[0]) || AnyArmHas(ty, cols, es[1..]))
  }

  predicate AnyResultHas(ty: ColumnType, cols: Schema, arms: seq<CaseArm>)
    decreases arms
  {
    arms != []
    && (var arm := arms[0];
        assert arm.result < arm;
        ArmsHave(ty, cols, arm.result) || AnyResultHas(ty, cols, arms[1..]))
  }

  function DerivedTypingOf(cols: Schema, e: ColExpr): DerivedTyping
  {
    if ArmsHave(TFloat, cols, e) && ArmsHave(TDecimal, cols, e) then Refused
    else
      match TypingOf(cols, e)
      case Of(ty) => Decided(ty)
      case Absent => Decided(TStr)
      case Unknown => ByCells
  }

  /** The static rule where it decides, and the same rule over the bound expression where it does not. */
  function DerivedTypingIn(env: Env, cols: Schema, e: ColExpr): DerivedTyping
  {
    var dt := DerivedTypingOf(cols, e);
    if !dt.ByCells? then dt
    else
      var bound := DerivedTypingOf(cols, Bind(env, e));
      if bound.Decided? then bound else ByCells
  }

  /** A decided column type is the type of every present cell the evaluator computes for it. */
  lemma DecidedTypeIsSound(k: Kernel, cols: Schema, row: Row, env: Env, e: ColExpr)
    requires RowFits(cols, row) && !HasConvert(e) && DerivedTypingIn(env, cols, e).Decided?
    ensures Fits(Of(DerivedTypingIn(env, cols, e).ty), Eval(k, cols, row, e, env))
  {
    Sound(k, cols, row, e, env);
    if DerivedTypingOf(cols, e).ByCells? {
      Sound(k, cols, row, Bind(env, e), env);
      BindingIsInvisible(k, cols, row, env, e);
    }
  }

  // ----- where the cells decide -----

  /** The least type two types both widen into, where there is one. */
  function WideningJoin(a: ColumnType, b: ColumnType): Option<ColumnType>
  {
    if a == b then Some(a)
    else if (a.TInt? && b.TFloat?) || (a.TFloat? && b.TInt?) then Some(TFloat)
    else if (a.TInt? && b.TDecimal?) || (a.TDecimal? && b.TInt?) then Some(TDecimal)
    else None
  }

  /** An int is exactly a float and exactly a decimal; every other type widens into itself alone. */
  predicate WidensTo(t: ColumnType, u: ColumnType)
  {
    t == u || (t.TInt? && (u.TFloat? || u.TDecimal?))
  }

  ghost predicate Covers(u: ColumnType, cells: seq<Cell>)
  {
    forall i :: 0 <= i < |cells| && !cells[i].Null? ==> WidensTo(TypeOfCell(cells[i]).value, u)
  }

  ghost predicate NonePresent(cells: seq<Cell>)
  {
    forall i :: 0 <= i < |cells| ==> cells[i].Null?
  }

  ghost predicate NothingCovers(cells: seq<Cell>)
  {
    forall u :: !Covers(u, cells)
  }

  /** The type the cells decide: `string` when none is present, else the least that covers them. */
  ghost predicate LeastCover(ty: ColumnType, cells: seq<Cell>)
  {
    if NonePresent(cells) then ty == TStr
    else Covers(ty, cells) && forall u :: Covers(u, cells) ==> WidensTo(ty, u)
  }

  ghost predicate FloatBesideDecimal(cells: seq<Cell>)
  {
    exists i, j :: 0 <= i < |cells| && 0 <= j < |cells| && cells[i].FloatCell? && cells[j].DecimalCell?
  }

  /** No type covers the cells, and the refusal says whether that is a float beside a decimal. */
  ghost predicate TypeRefused(column: string, cells: seq<Cell>, e: EvalError)
  {
    NothingCovers(cells) && e.TypeError? && (e.fault == FloatBesideDecimalColumn(column) <==> FloatBesideDecimal(cells))
  }

  lemma JoinIsLeast(a: ColumnType, b: ColumnType, u: ColumnType)
    requires WidensTo(a, u) && WidensTo(b, u)
    ensures WideningJoin(a, b).Some? && WidensTo(WideningJoin(a, b).value, u)
  {
  }

  /** What the loop knows of the cells it has read: the least type covering them, or a pair no type covers. */
  ghost predicate Seen(cells: seq<Cell>, acc: Option<ColumnType>, disjoint: bool)
  {
    (acc.None? <==> NonePresent(cells))
    && (disjoint ==> NothingCovers(cells))
    && (!disjoint && acc.Some? ==> Covers(acc.value, cells))
    && (acc.Some? ==> forall u :: Covers(u, cells) ==> WidensTo(acc.value, u))
  }

  lemma CoversExtended(u: ColumnType, cells: seq<Cell>, c: Cell)
    ensures Covers(u, cells + [c]) <==> Covers(u, cells) && (c.Null? || WidensTo(TypeOfCell(c).value, u))
  {
    assert (cells + [c])[|cells|] == c;
    forall i | 0 <= i < |cells| ensures (cells + [c])[i] == cells[i] {}
    if Covers(u, cells + [c]) {
      forall i | 0 <= i < |cells| && !cells[i].Null? ensures WidensTo(TypeOfCell(cells[i]).value, u) {
        assert (cells + [c])[i] == cells[i];
      }
    }
  }

  lemma SeenNull(cells: seq<Cell>, acc: Option<ColumnType>, disjoint: bool)
    requires Seen(cells, acc, disjoint)
    ensures Seen(cells + [Null], acc, disjoint)
  {
    forall u ensures Covers(u, cells + [Null]) <==> Covers(u, cells) { CoversExtended(u, cells, Null); }
    assert NonePresent(cells + [Null]) <==> NonePresent(cells) by {
      if NonePresent(cells + [Null]) {
        forall i | 0 <= i < |cells| ensures cells[i].Null? { assert (cells + [Null])[i] == cells[i]; }
      }
    }
  }

  lemma SeenPresent(cells: seq<Cell>, acc: Option<ColumnType>, disjoint: bool, c: Cell)
    requires Seen(cells, acc, disjoint) && !c.Null?
    ensures var t := TypeOfCell(c).value;
      var j := if acc.Some? then WideningJoin(acc.value, t) else Some(t);
      Seen(cells + [c], if j.Some? then j else acc, disjoint || j.None?)
  {
    var t := TypeOfCell(c).value;
    var j := if acc.Some? then WideningJoin(acc.value, t) else Some(t);
    assert (cells + [c])[|cells|] == c;
    forall u ensures Covers(u, cells + [c]) <==> Covers(u, cells) && WidensTo(t, u) { CoversExtended(u, cells, c); }
    if acc.Some? {
      forall u | Covers(u, cells + [c]) ensures j.Some? && WidensTo(j.value, u) { JoinIsLeast(acc.value, t, u); }
    }
  }

  lemma FloatAndDecimal(cells: seq<Cell>, i: nat, j: nat)
    requires i < |cells| && j < |cells| && cells[i].FloatCell? && cells[j].DecimalCell?
    ensures NothingCovers(cells)
  {
    forall u ensures !Covers(u, cells) {
      assert Covers(u, cells) ==> WidensTo(TFloat, u) && WidensTo(TDecimal, u);
    }
  }

  /** The least column type every present cell widens into, `string` when none is present, and a
      refusal exactly when no column type holds them together. */
  method TypeFromCells(column: string, cells: seq<Cell>) returns (r: Result<ColumnType>)
    ensures r.Ok? <==> !NothingCovers(cells)
    ensures if r.Ok? then LeastCover(r.value, cells) else TypeRefused(column, cells, r.error)
  {
    var acc: Option<ColumnType>, sawFloat, sawDecimal := None, false, false;
    var disjoint: Option<(ColumnType, ColumnType)> := None;
    for n := 0 to |cells|
      invariant Seen(cells[..n], acc, disjoint.Some?)
      invariant sawFloat <==> exists i :: 0 <= i < n && cells[i].FloatCell?
      invariant sawDecimal <==> exists i :: 0 <= i < n && cells[i].DecimalCell?
    {
      assert cells[..n + 1] == cells[..n] + [cells[n]];
      var c := cells[n];
      if c.Null? {
        SeenNull(cells[..n], acc, disjoint.Some?);
      } else {
        SeenPresent(cells[..n], acc, disjoint.Some?, c);
        var t := TypeOfCell(c).value;
        sawFloat := sawFloat || t.TFloat?;
        sawDecimal := sawDecimal || t.TDecimal?;
        var j := if acc.Some? then WideningJoin(acc.value, t) else Some(t);
        if j.Some? {
          acc := j;
        } else if disjoint.None? {
          disjoint := Some((acc.value, t));
        }
      }
    }
    assert cells[..|cells|] == cells;
    if sawFloat && sawDecimal {
      ghost var i :| 0 <= i < |cells| && cells[i].FloatCell?;
      ghost var j :| 0 <= j < |cells| && cells[j].DecimalCell?;
      FloatAndDecimal(cells, i, j);
      return Err(TypeError(FloatBesideDecimalColumn(column)));
    }
    if disjoint.Some? {
      return Err(TypeError(DisjointColumn(column, disjoint.value.0, disjoint.value.1)));
    }
    r := Ok(if acc.Some? then acc.value else TStr);
    assert Covers(r.value, cells);
  }

  /** The type the schema decided, or the least one the cells agree on. */
  ghost predicate TypedAs(dt: DerivedTyping, cells: seq<Cell>, ty: ColumnType)
  {
    if dt.Decided? then ty == dt.ty else LeastCover(ty, cells)
  }

  method ColumnTypeBy(dt: DerivedTyping, column: string, cells: seq<Cell>) returns (r: Result<ColumnType>)
    ensures r.Ok? ==> !dt.Refused? && TypedAs(dt, cells, r.value)
    ensures r.Err? ==> if dt.Refused? then r.error == TypeError(FloatBesideDecimalColumn(column))
                       else dt.ByCells? && TypeRefused(column, cells, r.error)
  {
    match dt {
      case Decided(ty) => r := Ok(ty);
      case ByCells => r := TypeFromCells(column, cells);
      case Refused => r := Err(TypeError(FloatBesideDecimalColumn(column)));
    }
  }

  // ----- the verb -----

  datatype Frame = Frame(cols: Schema, rows: seq<Row>)

  ghost predicate Rectangular(f: Frame)
  {
    forall i :: 0 <= i < |f.rows| ==> |f.rows[i]| == |f.cols|
  }

  ghost predicate FrameFits(f: Frame)
  {
    forall i :: 0 <= i < |f.rows| ==> RowFits(f.cols, f.rows[i])
  }

  /** A verb's own column: its type and the unit it derives, and no other metadata. */
  function Stated(name: string, ty: ColumnType, unit: Option<UnitOfMeasure>): SchemaEntry
  {
    SchemaEntry(name, ty, unit, None, None, map[])
  }

  /** Where the derived column goes: over the column of its name, else at the end. */
  function Target(cols: Schema, name: string): (p: nat)
    ensures p <= |cols|
  {
    var i := ColIndex(cols, name);
    if i.Some? then i.value else |cols|
  }

  function Placed<T>(s: seq<T>, p: nat, x: T): seq<T>
    requires p <= |s|
  {
    if p == |s| then s + [x] else s[p := x]
  }

  /** The cells a derive computes, one per row, where every row answers. */
  ghost predicate Computes(k: Kernel, f: Frame, e: ColExpr, env: Env, n: nat, cells: seq<Cell>)
    requires Rectangular(f) && n <= |f.rows|
  {
    |cells| == n && forall i :: 0 <= i < n ==> Eval(k, f.cols, f.rows[i], e, env) == Ok(cells[i])
  }

  /** The first row the expression is refused on. */
  ghost predicate FirstRefusal(k: Kernel, f: Frame, e: ColExpr, env: Env, n: nat, refusal: EvalError)
    requires Rectangular(f) && n < |f.rows|
  {
    Eval(k, f.cols, f.rows[n], e, env) == Err(refusal)
    && forall i :: 0 <= i < n ==> Eval(k, f.cols, f.rows[i], e, env).Ok?
  }

  /** The outcome of a derive, over its resolved expression. */
  ghost predicate DeriveOutcome(k: Kernel, f: Frame, name: string, u: Resolution, env: Env, cells: seq<Cell>,
                                r: Result<Frame>)
    requires Rectangular(f)
  {
    var dt := DerivedTypingIn(env, f.cols, u.expr);
    var p := Target(f.cols, name);
    match r
    case Ok(g) =>
      !dt.Refused? && Computes(k, f, u.expr, env, |f.rows|, cells)
      && |g.rows| == |f.rows| && (forall i :: 0 <= i < |f.rows| ==> g.rows[i] == Placed(f.rows[i], p, cells[i]))
      && (exists ty :: g.cols == Placed(f.cols, p, Stated(name, ty, u.unit)) && TypedAs(dt, cells, ty))
    case Err(e) =>
      (dt.Refused? && e == TypeError(FloatBesideDecimalColumn(name)))
      || (!dt.Refused? && exists n :: 0 <= n < |f.rows| && FirstRefusal(k, f, u.expr, env, n, e))
      || (dt.ByCells? && Computes(k, f, u.expr, env, |f.rows|, cells) && TypeRefused(name, cells, e))
  }

  /** Every row's cell, in order, stopping at the first refusal. */
  method ComputeCells(k: Kernel, f: Frame, e: ColExpr, env: Env) returns (r: Result<seq<Cell>>)
    requires Rectangular(f)
    ensures r.Ok? ==> Computes(k, f, e, env, |f.rows|, r.value)
    ensures r.Err? ==> exists n :: 0 <= n < |f.rows| && FirstRefusal(k, f, e, env, n, r.error)
  {
    var cells := [];
    for n := 0 to |f.rows|
      invariant Computes(k, f, e, env, n, cells)
    {
      var c := Eval(k, f.cols, f.rows[n], e, env);
      if c.Err? {
        assert FirstRefusal(k, f, e, env, n, c.error);
        return Err(c.error);
      }
      cells := cells + [c.value];
    }
    r := Ok(cells);
  }

  /** Each row with its own cell in place. */
  method PlaceCells(rows: seq<seq<Cell>>, p: nat, cells: seq<Cell>) returns (placed: seq<seq<Cell>>)
    requires |cells| == |rows| && forall i :: 0 <= i < |rows| ==> p <= |rows[i]|
    ensures |placed| == |rows| && forall i :: 0 <= i < |rows| ==> placed[i] == Placed(rows[i], p, cells[i])
  {
    placed := [];
    for n := 0 to |rows|
      invariant |placed| == n && forall i :: 0 <= i < n ==> placed[i] == Placed(rows[i], p, cells[i])
    {
      placed := placed + [Placed(rows[n], p, cells[n])];
    }
  }

  method EvalDerive(k: Kernel, f: Frame, name: string, written: ColExpr, env: Env)
    returns (r: Result<Frame>, cells: seq<Cell>)
    requires Rectangular(f)
    ensures var u := ResolveUnits(k, "derive '" + name + "'", f.cols, written);
      if u.Err? then r == Err(u.error) else DeriveOutcome(k, f, name, u.value, env, cells, r)
  {
    cells := [];
    var resolved := ResolveUnits(k, "derive '" + name + "'", f.cols, written);
    if resolved.Err? {
      return Err(resolved.error), [];
    }
    var Resolution(unit, expr) := resolved.value;
    var dt := DerivedTypingIn(env, f.cols, expr);
    if dt.Refused? {
      return Err(TypeError(FloatBesideDecimalColumn(name))), [];
    }
    var computed := ComputeCells(k, f, expr, env);
    if computed.Err? {
      return Err(computed.error), [];
    }
    cells := computed.value;
    var ty := ColumnTypeBy(dt, name, cells);
    if ty.Err? {
      return Err(ty.error), cells;
    }
    var p := Target(f.cols, name);
    var rows := PlaceCells(f.rows, p, cells);
    var cols := Placed(f.cols, p, Stated(name, ty.value, unit));
    r := Ok(Frame(cols, rows));
  }

  /** A decided derive over a frame that fits its schema gives a frame that fits its schema. */
  lemma DerivedFrameFits(k: Kernel, f: Frame, name: string, u: Resolution, env: Env, cells: seq<Cell>, g: Frame)
    requires Rectangular(f) && FrameFits(f) && !HasConvert(u.expr)
    requires DerivedTypingIn(env, f.cols, u.expr).Decided?
    requires DeriveOutcome(k, f, name, u, env, cells, Ok(g))
    ensures FrameFits(g)
  {
    var p := Target(f.cols, name);
    var ty := DerivedTypingIn(env, f.cols, u.expr).ty;
    assert g.cols == Placed(f.cols, p, Stated(name, ty, u.unit));
    forall i | 0 <= i < |g.rows| ensures RowFits(g.cols, g.rows[i]) {
      DecidedTypeIsSound(k, f.cols, f.rows[i], env, u.expr);
      assert g.rows[i] == Placed(f.rows[i], p, cells[i]);
      forall j | 0 <= j < |g.cols| ensures CellFits(Of(g.cols[j].columnType), g.rows[i][j]) {
        if j != p {
          assert g.cols[j] == f.cols[j] && g.rows[i][j] == f.rows[i][j];
          assert RowFits(f.cols, f.rows[i]);
        }
      }
    }
  }
}
