/** The static typer of column expressions, and its soundness against the evaluator. */
module Typer {
  import opened Trees
  import opened Cells
  import opened Exprs

  /** What a node's present values can be, decided from the schema alone. */
  datatype Typing = Absent | Of(ty: ColumnType) | Unknown

  function TypeOfCell(c: Cell): Option<ColumnType>
  {
    match c
    case Null => None
    case IntCell(_) => Some(TInt)
    case FloatCell(_) => Some(TFloat)
    case BoolCell(_) => Some(TBool)
    case StrCell(_) => Some(TStr)
    case DateCell(_) => Some(TDate)
    case InstantCell(_) => Some(TInstant(Seconds))
    case DecimalCell(_) => Some(TDecimal)
  }

  function TypingOfCell(c: Cell): Typing
  {
    if c.Null? then Absent else Of(TypeOfCell(c).value)
  }

  /** The least typing covering both: an exactness claim, not a widening. */
  function Join(a: Typing, b: Typing): Typing
  {
    if a.Absent? then b else if b.Absent? then a else if a == b then a else Unknown
  }

  function JoinFrom(acc: Typing, ts: seq<Typing>): Typing
    decreases |ts|
  {
    if ts == [] then acc else JoinFrom(Join(acc, ts[0]), ts[1..])
  }

  predicate NumericTyping(t: Typing) { t == Of(TInt) || t == Of(TFloat) }

  predicate BoolLike(t: Typing) { t.Absent? || t == Of(TBool) }

  predicate ExactTyping(t: Typing) { t == Of(TInt) || t == Of(TDecimal) }

  predicate DecimalPair(a: Typing, b: Typing)
  {
    ExactTyping(a) && ExactTyping(b) && (a == Of(TDecimal) || b == Of(TDecimal))
  }

  predicate Comparable(a: Typing, b: Typing)
  {
    (NumericTyping(a) && NumericTyping(b))
    || (ExactTyping(a) && ExactTyping(b))
    || (a.Of? && a == b && (a.ty.TStr? || a.ty.TDate? || a.ty.TInstant? || a.ty.TBool?))
  }

  function TypingBinary(op: BinOp, a: Typing, b: Typing): Typing
  {
    match op
    case And | Or => if BoolLike(a) && BoolLike(b) then Join(a, b) else Unknown
    case _ =>
      if a.Absent? || b.Absent? then Absent
      else
        match op
        case Add | Sub | Mul =>
          if a == Of(TInt) && b == Of(TInt) then Of(TInt)
          else if NumericTyping(a) && NumericTyping(b) then Of(TFloat)
          else if DecimalPair(a, b) then Of(TDecimal) else Unknown
        case Div => if NumericTyping(a) && NumericTyping(b) then Of(TFloat) else Unknown
        case Mod =>
          if a == Of(TInt) && b == Of(TInt) then Of(TInt)
          else if DecimalPair(a, b) then Of(TDecimal) else Unknown
        case Eq | Ne | Lt | Le | Gt | Ge => if Comparable(a, b) then Of(TBool) else Unknown
        case _ => if a == Of(TStr) && b == Of(TStr) then Of(TBool) else Unknown
  }

  function TypingUnary(func: ScalarFn, t: Typing): Typing
  {
    match func
    case Abs => if NumericTyping(t) || t == Of(TDecimal) then t else Unknown
    case Round | Floor | Ceil =>
      if t == Of(TDecimal) then t else if t.Unknown? then Unknown else Of(TFloat)
    case Length => Of(TInt)
    case Exp | Ln | Log10 => Of(TFloat)
    case _ => Of(TStr)
  }

  function TypingPower(a: Typing, b: Typing): Typing
  {
    if a.Absent? || b.Absent? then Absent
    else if a == Of(TInt) && b == Of(TInt) then Unknown
    else if a.Unknown? || b.Unknown? then Unknown
    else Of(TFloat)
  }

  /** A scalar function's typing: an arity it refuses is an error on every row, so absent, and a null
      argument propagates exactly where the function propagates it. */
  function TypingApply(func: ScalarFn, ts: seq<Typing>): Typing
  {
    match func
    case Abs | Round | Floor | Ceil | Length | Lower | Upper | Trim | Exp | Ln | Log10 =>
      if |ts| != 1 || ts[0].Absent? then Absent else TypingUnary(func, ts[0])
    case Substr => if |ts| != 3 || ts[0].Absent? then Absent else Of(TStr)
    case DatePart => if |ts| != 2 || ts[1].Absent? then Absent else Of(TInt)
    case Concat => if ts == [] || Absent in ts then Absent else Of(TStr)
    case Replace => if |ts| != 3 || Absent in ts then Absent else Of(TStr)
    case DateDiffDays => if |ts| != 2 || Absent in ts then Absent else Of(TInt)
    case PowFn => if |ts| != 2 then Absent else TypingPower(ts[0], ts[1])
    case Least | Greatest => if ts == [] || Absent in ts then Absent else JoinFrom(Absent, ts)
  }

  /** A power under a literal integer exponent: an int base answers an int at or above zero, a float below. */
  function TypingLiteralPower(n: int, b: Typing): Typing
  {
    if !b.Of? then b else if b.ty.TInt? && n >= 0 then Of(TInt) else Of(TFloat)
  }

  function TypingOf(cols: Schema, e: ColExpr): Typing
    decreases e
  {
    match e
    case Col(name) =>
      var i := ColIndex(cols, name);
      if i.Some? then Of(cols[i.value].columnType) else Unknown
    case Lit(c) => TypingOfCell(c)
    case Param(_) => Unknown
    case Binary(op, l, r) => TypingBinary(op, TypingOf(cols, l), TypingOf(cols, r))
    case Not(x) =>
      var t := TypingOf(cols, x);
      if BoolLike(t) then t else Unknown
    case Coalesce(xs) => JoinFrom(Absent, TypingAll(cols, xs))
    case Case(arms, x) => JoinFrom(Join(Absent, TypingOf(cols, x)), TypingResults(cols, arms))
    case Cast(ty, x) => if TypingOf(cols, x).Absent? then Absent else Of(ty)
    case Apply(func, xs) =>
      if func.PowFn? && LiteralPower(xs) then TypingLiteralPower(xs[1].cell.whole, TypingOf(cols, xs[0]))
      else TypingApply(func, TypingAll(cols, xs))
    case InList(x, _) => if TypingOf(cols, x).Absent? then Absent else Of(TBool)
    case InParam(x, _) => if TypingOf(cols, x).Absent? then Absent else Of(TBool)
    case IsNull(_) => Of(TBool)
    case Quotient(x, y, _) => TypingQuotient(TypingOf(cols, x), TypingOf(cols, y))
    case Rounded(x, _) =>
      var t := TypingOf(cols, x);
      if t.Absent? then Absent else if ExactTyping(t) then Of(TDecimal) else Unknown
    case Convert(x, _) => if TypingOf(cols, x).Absent? then Absent else Of(TFloat)
  }

  function TypingAll(cols: Schema, es: seq<ColExpr>): (ts: seq<Typing>)
    ensures |ts| == |es|
    decreases es
  {
    if es == [] then [] else [TypingOf(cols, es[0])] + TypingAll(cols, es[1..])
  }

  function TypingResults(cols: Schema, arms: seq<CaseArm>): (ts: seq<Typing>)
    ensures |ts| == |arms|
    decreases arms
  {
    if arms == [] then []
    else
      var arm := arms[0];
      assert arm.result < arm;
      [TypingOf(cols, arm.result)] + TypingResults(cols, arms[1..])
  }

  // ----- what a typing promises -----

  /** Strictly of the type; every timestamp unit shares one cell. */
  predicate HasType(c: Cell, ty: ColumnType)
  {
    match ty
    case TInt => c.IntCell?
    case TFloat => c.FloatCell?
    case TBool => c.BoolCell?
    case TStr => c.StrCell?
    case TDate => c.DateCell?
    case TInstant(_) => c.InstantCell?
    case TDecimal => c.DecimalCell?
  }

  predicate CellFits(t: Typing, c: Cell)
  {
    c.Null? || t.Unknown? || (t.Of? && HasType(c, t.ty))
  }

  predicate Fits(t: Typing, r: Result<Cell>)
  {
    r.Ok? ==> CellFits(t, r.value)
  }

  ghost predicate AllFit(ts: seq<Typing>, cs: seq<Cell>)
  {
    |ts| == |cs| && forall i :: 0 <= i < |ts| ==> CellFits(ts[i], cs[i])
  }

  /** Every cell of a row is null or strictly of its column's type. */
  ghost predicate RowFits(cols: Schema, row: Row)
  {
    |row| == |cols| && forall i :: 0 <= i < |row| ==> CellFits(Of(cols[i].columnType), row[i])
  }

  lemma {:induction false} JoinCovers(acc: Typing, ts: seq<Typing>, c: Cell)
    requires CellFits(acc, c) || exists i :: 0 <= i < |ts| && CellFits(ts[i], c)
    ensures CellFits(JoinFrom(acc, ts), c)
    decreases |ts|
  {
    if ts != [] {
      if !CellFits(acc, c) {
        var i :| 0 <= i < |ts| && CellFits(ts[i], c);
        if i > 0 { assert ts[1..][i - 1] == ts[i]; }
      }
      JoinCovers(Join(acc, ts[0]), ts[1..], c);
    }
  }

  // ----- the scalar layer -----

  lemma BinarySound(k: Kernel, op: BinOp, a: Cell, b: Cell, ta: Typing, tb: Typing)
    requires CellFits(ta, a) && CellFits(tb, b)
    ensures Fits(TypingBinary(op, ta, tb), BinaryCell(k, op, a, b))
  {
  }

  lemma CastSound(k: Kernel, ty: ColumnType, c: Cell, t: Typing)
    requires CellFits(t, c)
    ensures Fits(if t.Absent? then Absent else Of(ty), CastCell(k, ty, c))
  {
  }

  lemma UnarySound(k: Kernel, func: ScalarFn, c: Cell, t: Typing)
    requires CellFits(t, c) && !t.Absent? && !c.Null? && !Variadic(func) && Arity(func) == 1
    ensures Fits(TypingUnary(func, t), UnaryCell(k, func, c))
  {
  }

  lemma PowerSound(k: Kernel, a: Cell, b: Cell, ta: Typing, tb: Typing)
    requires CellFits(ta, a) && CellFits(tb, b)
    ensures Fits(TypingPower(ta, tb), PowCell(k, a, b))
  {
  }

  lemma LiteralPowerSound(k: Kernel, a: Cell, n: int, ta: Typing)
    requires CellFits(ta, a)
    ensures Fits(TypingLiteralPower(n, ta), PowCell(k, a, IntCell(n)))
  {
  }

  /** The extreme of several cells is one of them. */
  lemma {:induction false} ExtremeIsOne(k: Kernel, least: bool, best: Cell, rest: seq<Cell>)
    ensures var r := Extreme(k, least, best, rest);
      r.Ok? ==> r.value == best || exists i :: 0 <= i < |rest| && rest[i] == r.value
    decreases |rest|
  {
    if rest != [] {
      var c := CompareCells(k, best, rest[0]);
      if c.Some? {
        var next := if least != (c.value != Greater) then rest[0] else best;
        ExtremeIsOne(k, least, next, rest[1..]);
        var r := Extreme(k, least, next, rest[1..]);
        if r.Ok? && r.value != next {
          var i :| 0 <= i < |rest[1..]| && rest[1..][i] == r.value;
          assert rest[i + 1] == r.value;
        }
      }
    }
  }

  lemma AbsentMeansNull(ts: seq<Typing>, args: seq<Cell>)
    requires AllFit(ts, args) && Absent in ts
    ensures Null in args
  {
    var i :| 0 <= i < |ts| && ts[i] == Absent;
    assert args[i] == Null;
  }

  lemma ExtremeSound(k: Kernel, least: bool, args: seq<Cell>, ts: seq<Typing>)
    requires AllFit(ts, args) && args != []
    ensures Fits(JoinFrom(Absent, ts), Extreme(k, least, args[0], args[1..]))
  {
    ExtremeIsOne(k, least, args[0], args[1..]);
    var r := Extreme(k, least, args[0], args[1..]);
    if r.Ok? {
      if r.value == args[0] {
        assert CellFits(ts[0], r.value);
      } else {
        var i :| 0 <= i < |args[1..]| && args[1..][i] == r.value;
        assert CellFits(ts[i + 1], r.value);
      }
      JoinCovers(Absent, ts, r.value);
    }
  }

  lemma ApplySound(k: Kernel, func: ScalarFn, args: seq<Cell>, ts: seq<Typing>)
    requires AllFit(ts, args)
    ensures Fits(TypingApply(func, ts), ApplyScalar(k, func, args))
  {
    if Absent in ts { AbsentMeansNull(ts, args); }
    if func.Least? || func.Greatest? {
      if args != [] { ExtremeSound(k, func.Least?, args, ts); }
    } else if func.PowFn? {
      if |args| == 2 { PowerSound(k, args[0], args[1], ts[0], ts[1]); }
    } else if Arity(func) == 1 && !Variadic(func) {
      if |args| == 1 && !args[0].Null? { UnarySound(k, func, args[0], ts[0]); }
    }
  }

  // ----- resolving units keeps the typing -----

  /** Resolving never makes or unmakes an integer literal. */
  lemma ResolvedLiteral(k: Kernel, step: string, cols: Schema, e: ColExpr)
    requires ResolveUnits(k, step, cols, e).Ok?
    ensures var r := ResolveUnits(k, step, cols, e).value.expr; (r.Lit? <==> e.Lit?) && (e.Lit? ==> r == e)
  {
  }

  lemma {:induction false} ResolveKeepsTyping(k: Kernel, step: string, cols: Schema, e: ColExpr)
    requires ResolveUnits(k, step, cols, e).Ok?
    ensures TypingOf(cols, ResolveUnits(k, step, cols, e).value.expr) == TypingOf(cols, e)
    decreases e
  {
    match e
    case Binary(op, l, r) => ResolveKeepsBinary(k, step, cols, op, l, r);
    case Not(x) => ResolveKeepsTyping(k, step, cols, x);
    case InParam(x, _) => ResolveKeepsTyping(k, step, cols, x);
    case Coalesce(xs) => ResolveKeepsAll(k, step, cols, xs);
    case Case(arms, x) => ResolveKeepsCase(k, step, cols, arms, x);
    case Cast(_, x) => ResolveKeepsTyping(k, step, cols, x);
    case Apply(func, xs) => ResolveKeepsApply(k, step, cols, func, xs);
    case InList(x, _) => ResolveKeepsTyping(k, step, cols, x);
    case Quotient(x, y, rounding) => ResolveKeepsQuotient(k, step, cols, x, y, rounding);
    case Rounded(x, _) => ResolveKeepsTyping(k, step, cols, x);
    case Convert(x, unit) => ResolveKeepsConvert(k, step, cols, x, unit);
    case _ =>
  }

  lemma {:induction false} ResolveKeepsBinary(k: Kernel, step: string, cols: Schema, op: BinOp, l: ColExpr, r: ColExpr)
    requires ResolveUnits(k, step, cols, Binary(op, l, r)).Ok?
    ensures TypingOf(cols, ResolveUnits(k, step, cols, Binary(op, l, r)).value.expr) == TypingOf(cols, Binary(op, l, r))
    decreases Binary(op, l, r), 0
  {
    ResolveKeepsTyping(k, step, cols, l);
    ResolveKeepsTyping(k, step, cols, r);
  }

  lemma {:induction false} ResolveKeepsCase(k: Kernel, step: string, cols: Schema, arms: seq<CaseArm>, x: ColExpr)
    requires ResolveUnits(k, step, cols, Case(arms, x)).Ok?
    ensures TypingOf(cols, ResolveUnits(k, step, cols, Case(arms, x)).value.expr) == TypingOf(cols, Case(arms, x))
    decreases Case(arms, x), 0
  {
    ResolveKeepsTyping(k, step, cols, x);
    ResolveKeepsResults(k, step, cols, arms);
  }

  lemma {:induction false} ResolveKeepsQuotient(k: Kernel, step: string, cols: Schema, x: ColExpr, y: ColExpr,
                                                rounding: Rounding)
    requires ResolveUnits(k, step, cols, Quotient(x, y, rounding)).Ok?
    ensures TypingOf(cols, ResolveUnits(k, step, cols, Quotient(x, y, rounding)).value.expr)
         == TypingOf(cols, Quotient(x, y, rounding))
    decreases Quotient(x, y, rounding), 0
  {
    ResolveKeepsTyping(k, step, cols, x);
    ResolveKeepsTyping(k, step, cols, y);
  }

  lemma {:induction false} ResolveKeepsConvert(k: Kernel, step: string, cols: Schema, x: ColExpr, unit: UnitOfMeasure)
    requires ResolveUnits(k, step, cols, Convert(x, unit)).Ok?
    ensures TypingOf(cols, ResolveUnits(k, step, cols, Convert(x, unit)).value.expr) == TypingOf(cols, Convert(x, unit))
    decreases Convert(x, unit), 0
  {
    ResolveKeepsTyping(k, step, cols, x);
  }

  lemma {:induction false} ResolveKeepsAll(k: Kernel, step: string, cols: Schema, es: seq<ColExpr>)
    requires ResolveAll(k, step, cols, es).Ok?
    ensures TypingAll(cols, ResolveAll(k, step, cols, es).value.exprs) == TypingAll(cols, es)
    decreases es, 0
  {
    if es != [] {
      ResolveKeepsTyping(k, step, cols, es[0]);
      ResolveKeepsAll(k, step, cols, es[1..]);
      var r := ResolveAll(k, step, cols, es).value.exprs;
      assert r[1..] == ResolveAll(k, step, cols, es[1..]).value.exprs;
    }
  }

  lemma {:induction false} ResolveKeepsApply(k: Kernel, step: string, cols: Schema, func: ScalarFn, xs: seq<ColExpr>)
    requires ResolveUnits(k, step, cols, Apply(func, xs)).Ok?
    ensures TypingOf(cols, ResolveUnits(k, step, cols, Apply(func, xs)).value.expr) == TypingOf(cols, Apply(func, xs))
    decreases xs, 1
  {
    ResolveKeepsAll(k, step, cols, xs);
    var rs := ResolveAll(k, step, cols, xs).value.exprs;
    if |xs| == 2 {
      ResolvedPair(k, step, cols, xs);
      ResolvedLiteral(k, step, cols, xs[1]);
      assert TypingAll(cols, xs)[0] == TypingOf(cols, xs[0]) && TypingAll(cols, rs)[0] == TypingOf(cols, rs[0]);
    }
  }

  lemma ResolvedPair(k: Kernel, step: string, cols: Schema, xs: seq<ColExpr>)
    requires |xs| == 2 && ResolveAll(k, step, cols, xs).Ok?
    ensures ResolveUnits(k, step, cols, xs[1]).Ok?
    ensures ResolveAll(k, step, cols, xs).value.exprs[1] == ResolveUnits(k, step, cols, xs[1]).value.expr
  {
    var tail := xs[1..];
    assert tail[0] == xs[1];
    assert ResolveAll(k, step, cols, tail).Ok?;
    assert ResolveAll(k, step, cols, tail).value.exprs[0] == ResolveUnits(k, step, cols, xs[1]).value.expr;
  }

  lemma {:induction false} ResolveKeepsResults(k: Kernel, step: string, cols: Schema, arms: seq<CaseArm>)
    requires ResolveResults(k, step, cols, arms).Ok?
    ensures forall guards: seq<ColExpr> :: |guards| == |arms| ==>
      TypingResults(cols, Zip(guards, ResolveResults(k, step, cols, arms).value.exprs)) == TypingResults(cols, arms)
    decreases arms
  {
    if arms != [] {
      var arm := arms[0];
      assert arm.result < arm;
      ResolveKeepsTyping(k, step, cols, arm.result);
      ResolveKeepsResults(k, step, cols, arms[1..]);
      var rs := ResolveResults(k, step, cols, arms).value.exprs;
      assert rs[1..] == ResolveResults(k, step, cols, arms[1..]).value.exprs;
      forall guards: seq<ColExpr> | |guards| == |arms|
        ensures TypingResults(cols, Zip(guards, rs)) == TypingResults(cols, arms)
      {
        assert Zip(guards, rs)[1..] == Zip(guards[1..], rs[1..]);
      }
    }
  }

  // ----- soundness -----

  lemma ColSound(cols: Schema, row: Row, name: string)
    requires RowFits(cols, row)
    ensures ColIndex(cols, name).Some?
      ==> CellFits(Of(cols[ColIndex(cols, name).value].columnType), row[ColIndex(cols, name).value])
  {
  }

  /** Over a row that fits its schema, a typing bounds what the evaluator answers, whatever the params. */
  lemma {:induction false} Sound(k: Kernel, cols: Schema, row: Row, e: ColExpr, env: Env)
    requires RowFits(cols, row)
    ensures Fits(TypingOf(cols, e), Eval(k, cols, row, e, env))
    decreases HasConvert(e), e
  {
    match e
    case Col(name) => ColSound(cols, row, name);
    case Binary(op, l, r) => BinaryNode(k, cols, row, op, l, r, env);
    case Coalesce(xs) => CoalesceSound(k, cols, row, Absent, xs, env);
    case Case(arms, x) => CaseNode(k, cols, row, arms, x, env);
    case Cast(ty, x) => CastNode(k, cols, row, ty, x, env);
    case Apply(func, xs) => ApplyNode(k, cols, row, func, xs, env);
    case Not(x) => NotNode(k, cols, row, x, env);
    case InList(x, xs) => MemberNode(k, cols, row, x, xs, env);
    case Quotient(x, y, rounding) => QuotientNode(k, cols, row, x, y, rounding, env);
    case Rounded(x, rounding) => RoundedNode(k, cols, row, x, rounding, env);
    case Convert(x, unit) => ConvertNode(k, cols, row, x, unit, env);
    case _ =>
  }

  lemma {:induction false} NotNode(k: Kernel, cols: Schema, row: Row, x: ColExpr, env: Env)
    requires RowFits(cols, row)
    ensures Fits(TypingOf(cols, Not(x)), Eval(k, cols, row, Not(x), env))
    decreases HasConvert(Not(x)), Not(x), 0
  {
    Sound(k, cols, row, x, env);
  }

  lemma {:induction false} QuotientNode(k: Kernel, cols: Schema, row: Row, x: ColExpr, y: ColExpr, rounding: Rounding,
                                        env: Env)
    requires RowFits(cols, row)
    ensures Fits(TypingOf(cols, Quotient(x, y, rounding)), Eval(k, cols, row, Quotient(x, y, rounding), env))
    decreases HasConvert(Quotient(x, y, rounding)), Quotient(x, y, rounding), 0
  {
    Sound(k, cols, row, x, env);
    Sound(k, cols, row, y, env);
    var s, a, b := ScaleOf(env, rounding.scale), Eval(k, cols, row, x, env), Eval(k, cols, row, y, env);
    if s.Ok? && a.Ok? && b.Ok? {
      QuotientSound(k, rounding.mode, s.value, a.value, b.value, TypingOf(cols, x), TypingOf(cols, y));
    }
  }

  function TypingQuotient(a: Typing, b: Typing): Typing
  {
    if a.Absent? || b.Absent? then Absent
    else if ExactTyping(a) && ExactTyping(b) then Of(TDecimal) else Unknown
  }

  lemma QuotientSound(k: Kernel, mode: RoundingMode, scale: int, a: Cell, b: Cell, ta: Typing, tb: Typing)
    requires CellFits(ta, a) && CellFits(tb, b)
    ensures Fits(TypingQuotient(ta, tb), QuotientCell(k, mode, scale, a, b))
  {
  }

  lemma {:induction false} RoundedNode(k: Kernel, cols: Schema, row: Row, x: ColExpr, rounding: Rounding, env: Env)
    requires RowFits(cols, row)
    ensures Fits(TypingOf(cols, Rounded(x, rounding)), Eval(k, cols, row, Rounded(x, rounding), env))
    decreases HasConvert(Rounded(x, rounding)), Rounded(x, rounding), 0
  {
    Sound(k, cols, row, x, env);
  }

  lemma {:induction false} CastNode(k: Kernel, cols: Schema, row: Row, ty: ColumnType, x: ColExpr, env: Env)
    requires RowFits(cols, row)
    ensures Fits(TypingOf(cols, Cast(ty, x)), Eval(k, cols, row, Cast(ty, x), env))
    decreases HasConvert(Cast(ty, x)), Cast(ty, x), 0
  {
    Sound(k, cols, row, x, env);
    var v := Eval(k, cols, row, x, env);
    if v.Ok? { CastSound(k, ty, v.value, TypingOf(cols, x)); }
  }

  lemma {:induction false} MemberNode(k: Kernel, cols: Schema, row: Row, x: ColExpr, xs: seq<ColExpr>, env: Env)
    requires RowFits(cols, row)
    ensures Fits(TypingOf(cols, InList(x, xs)), Eval(k, cols, row, InList(x, xs), env))
    decreases HasConvert(InList(x, xs)), InList(x, xs), 0
  {
    Sound(k, cols, row, x, env);
    var v := Eval(k, cols, row, x, env);
    if v.Ok? && !v.value.Null? { MemberIsBool(k, cols, row, v.value, xs, false, env); }
  }

  lemma {:induction false} ConvertNode(k: Kernel, cols: Schema, row: Row, x: ColExpr, unit: UnitOfMeasure, env: Env)
    requires RowFits(cols, row)
    ensures Fits(TypingOf(cols, Convert(x, unit)), Eval(k, cols, row, Convert(x, unit), env))
    decreases HasConvert(Convert(x, unit)), Convert(x, unit), 0
  {
    var e := Convert(x, unit);
    var r := ResolveUnits(k, "expression", cols, e);
    if r.Ok? {
      ResolveKeepsTyping(k, "expression", cols, e);
      Sound(k, cols, row, r.value.expr, env);
    }
  }

  lemma {:induction false} BinaryNode(k: Kernel, cols: Schema, row: Row, op: BinOp, l: ColExpr, r: ColExpr, env: Env)
    requires RowFits(cols, row)
    ensures Fits(TypingOf(cols, Binary(op, l, r)), Eval(k, cols, row, Binary(op, l, r), env))
    decreases HasConvert(Binary(op, l, r)), Binary(op, l, r), 0
  {
    Sound(k, cols, row, l, env);
    Sound(k, cols, row, r, env);
    var a, b := Eval(k, cols, row, l, env), Eval(k, cols, row, r, env);
    if a.Ok? && b.Ok? {
      BinarySound(k, op, a.value, b.value, TypingOf(cols, l), TypingOf(cols, r));
    }
  }

  lemma {:induction false} AllSound(k: Kernel, cols: Schema, row: Row, es: seq<ColExpr>, env: Env)
    requires RowFits(cols, row)
    ensures var r := EvalAll(k, cols, row, es, env); r.Ok? ==> AllFit(TypingAll(cols, es), r.value)
    decreases AnyConvert(es), es, 0
  {
    if es != [] {
      Sound(k, cols, row, es[0], env);
      AllSound(k, cols, row, es[1..], env);
    }
  }

  lemma {:induction false} ApplyNode(k: Kernel, cols: Schema, row: Row, func: ScalarFn, xs: seq<ColExpr>, env: Env)
    requires RowFits(cols, row)
    ensures Fits(TypingOf(cols, Apply(func, xs)), Eval(k, cols, row, Apply(func, xs), env))
    decreases AnyConvert(xs), xs, 1
  {
    AllSound(k, cols, row, xs, env);
    var r := EvalAll(k, cols, row, xs, env);
    if r.Ok? {
      if func.PowFn? && LiteralPower(xs) {
        LiteralArguments(k, cols, row, xs, env);
        LiteralPowerSound(k, r.value[0], xs[1].cell.whole, TypingOf(cols, xs[0]));
      } else {
        ApplySound(k, func, r.value, TypingAll(cols, xs));
      }
    }
  }

  lemma LiteralArguments(k: Kernel, cols: Schema, row: Row, xs: seq<ColExpr>, env: Env)
    requires |row| == |cols| && LiteralPower(xs)
    ensures EvalAll(k, cols, row, xs, env).Ok? ==> EvalAll(k, cols, row, xs, env).value[1] == xs[1].cell
    ensures TypingAll(cols, xs)[0] == TypingOf(cols, xs[0])
  {
    var tail := xs[1..];
    assert tail[0] == xs[1] && Eval(k, cols, row, tail[0], env) == Ok(xs[1].cell);
    var rest := EvalAll(k, cols, row, tail, env);
    assert rest.Ok? ==> rest.value[0] == xs[1].cell;
  }

  lemma {:induction false} CoalesceSound(k: Kernel, cols: Schema, row: Row, acc: Typing, es: seq<ColExpr>, env: Env)
    requires RowFits(cols, row)
    ensures Fits(JoinFrom(acc, TypingAll(cols, es)), EvalCoalesce(k, cols, row, es, env))
    decreases AnyConvert(es), es
  {
    if es != [] {
      var t, ts := TypingOf(cols, es[0]), TypingAll(cols, es);
      Sound(k, cols, row, es[0], env);
      assert ts[1..] == TypingAll(cols, es[1..]);
      CoalesceSound(k, cols, row, Join(acc, t), es[1..], env);
      var v := Eval(k, cols, row, es[0], env);
      if v.Ok? && !v.value.Null? {
        assert CellFits(ts[0], v.value);
        JoinCovers(acc, ts, v.value);
      }
    }
  }

  lemma {:induction false} ArmsSound(k: Kernel, cols: Schema, row: Row, acc: Typing, arms: seq<CaseArm>, env: Env)
    requires RowFits(cols, row)
    ensures var r := EvalArms(k, cols, row, arms, env);
      r.Ok? && r.value.Some? ==> CellFits(JoinFrom(acc, TypingResults(cols, arms)), r.value.value)
    decreases ArmsConvert(arms), arms
  {
    if arms != [] {
      var arm, ts := arms[0], TypingResults(cols, arms);
      assert arm.result < arm;
      Sound(k, cols, row, arm.result, env);
      assert ts[1..] == TypingResults(cols, arms[1..]);
      ArmsSound(k, cols, row, Join(acc, ts[0]), arms[1..], env);
      var v := Eval(k, cols, row, arm.result, env);
      if v.Ok? {
        assert CellFits(ts[0], v.value);
        JoinCovers(acc, ts, v.value);
      }
    }
  }

  lemma {:induction false} CaseNode(k: Kernel, cols: Schema, row: Row, arms: seq<CaseArm>, x: ColExpr, env: Env)
    requires RowFits(cols, row)
    ensures Fits(TypingOf(cols, Case(arms, x)), Eval(k, cols, row, Case(arms, x), env))
    decreases HasConvert(Case(arms, x)), Case(arms, x), 0
  {
    var t := TypingOf(cols, x);
    ArmsSound(k, cols, row, t, arms, env);
    Sound(k, cols, row, x, env);
    var v := Eval(k, cols, row, x, env);
    if v.Ok? { JoinCovers(t, TypingResults(cols, arms), v.value); }
  }

  lemma {:induction false} MemberIsBool(k: Kernel, cols: Schema, row: Row, v: Cell, items: seq<ColExpr>, sawNull: bool,
                                        env: Env)
    requires |row| == |cols|
    ensures Fits(Of(TBool), EvalMember(k, cols, row, v, items, sawNull, env))
    decreases items
  {
    if items != [] {
      MemberIsBool(k, cols, row, v, items[1..], true, env);
      MemberIsBool(k, cols, row, v, items[1..], sawNull, env);
    }
  }
}
