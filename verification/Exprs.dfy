/** Column expressions: the evaluator over one row, and the unit resolver that rewrites conversions away. */
module Exprs {
  import opened Trees
  import opened Cells
  import Power

  datatype SchemaEntry = SchemaEntry(
    name: string, columnType: ColumnType, unit: Option<UnitOfMeasure>,
    labelText: Option<string>, description: Option<string>, ext: map<string, string>)

  type Schema = seq<SchemaEntry>
  type Row = seq<Cell>
  type Env = map<string, Cell>

  datatype RoundingScale = FixedScale(digits: int) | ParamScale(name: string)

  datatype Rounding = Rounding(scale: RoundingScale, mode: RoundingMode)

  datatype ColExpr =
    | Col(name: string)
    | Param(name: string)
    | Lit(cell: Cell)
    | Binary(op: BinOp, left: ColExpr, right: ColExpr)
    | Not(expr: ColExpr)
    | Coalesce(exprs: seq<ColExpr>)
    | Case(arms: seq<CaseArm>, otherwise: ColExpr)
    | Cast(to: ColumnType, expr: ColExpr)
    | Apply(func: ScalarFn, args: seq<ColExpr>)
    | InList(subject: ColExpr, items: seq<ColExpr>)
    | InParam(subject: ColExpr, name: string)
    | IsNull(expr: ColExpr)
    | Quotient(dividend: ColExpr, divisor: ColExpr, rounding: Rounding)
    | Rounded(expr: ColExpr, rounding: Rounding)
    | Convert(expr: ColExpr, unit: UnitOfMeasure)

  datatype CaseArm = CaseArm(guard: ColExpr, result: ColExpr)

  /** The first column of a name. */
  function ColIndex(cols: Schema, name: string): (r: Option<nat>)
    ensures r.Some? ==> r.value < |cols| && cols[r.value].name == name
    ensures r.Some? ==> forall j :: 0 <= j < r.value ==> cols[j].name != name
    ensures r.None? <==> forall j :: 0 <= j < |cols| ==> cols[j].name != name
  {
    if cols == [] then None
    else if cols[0].name == name then Some(0)
    else
      var rest := ColIndex(cols[1..], name);
      if rest.Some? then Some(rest.value + 1) else None
  }

  function ColUnit(cols: Schema, name: string): Option<UnitOfMeasure>
  {
    var i := ColIndex(cols, name);
    if i.Some? then cols[i.value].unit else None
  }

  // ----- conversions -----

  predicate HasConvert(e: ColExpr)
  {
    match e
    case Col(_) | Param(_) | Lit(_) => false
    case Binary(_, l, r) => HasConvert(l) || HasConvert(r)
    case Not(x) => HasConvert(x)
    case Coalesce(xs) => AnyConvert(xs)
    case Case(arms, x) => ArmsConvert(arms) || HasConvert(x)
    case Cast(_, x) => HasConvert(x)
    case Apply(_, xs) => AnyConvert(xs)
    case InList(x, xs) => HasConvert(x) || AnyConvert(xs)
    case InParam(x, _) => HasConvert(x)
    case IsNull(x) => HasConvert(x)
    case Quotient(x, y, _) => HasConvert(x) || HasConvert(y)
    case Rounded(x, _) => HasConvert(x)
    case Convert(_, _) => true
  }

  predicate AnyConvert(es: seq<ColExpr>)
  {
    es != [] && (HasConvert(es[0]) || AnyConvert(es[1..]))
  }

  predicate ArmsConvert(arms: seq<CaseArm>)
  {
    arms != [] &&
    var arm := arms[0];
    assert arm.guard < arm;
    HasConvert(arm.guard) || HasConvert(arm.result) || ArmsConvert(arms[1..])
  }

  // ----- units -----

  datatype Resolution = Resolution(unit: Option<UnitOfMeasure>, expr: ColExpr)
  datatype Resolutions = Resolutions(units: seq<Option<UnitOfMeasure>>, exprs: seq<ColExpr>)

  function Unmatched<T>(step: string, l: UnitOfMeasure, r: UnitOfMeasure): Result<T>
  {
    Err(UnitMismatch(step, Unlike(l, r)))
  }

  function InRange(step: string, of: UnitOfMeasure, u: Option<UnitOfMeasure>): Result<Option<UnitOfMeasure>>
  {
    if u.Some? then Ok(u) else Err(UnitMismatch(step, PowerOutOfRange(of)))
  }

  /** One unit among the stated ones: an operand that states none takes the others'. */
  function Agree(step: string, acc: Option<UnitOfMeasure>,
                 units: seq<Option<UnitOfMeasure>>): Result<Option<UnitOfMeasure>>
    decreases |units|
  {
    if units == [] then Ok(acc)
    else if units[0].None? then Agree(step, acc, units[1..])
    else if acc.None? then Agree(step, units[0], units[1..])
    else if acc != units[0] then Unmatched(step, acc.value, units[0].value)
    else Agree(step, acc, units[1..])
  }

  function ProductUnit(k: Kernel, step: string, a: Option<UnitOfMeasure>,
                       b: Option<UnitOfMeasure>): Result<Option<UnitOfMeasure>>
  {
    if a.None? then Ok(b) else if b.None? then Ok(a)
    else InRange(step, a.value, k.unitProduct(a.value, b.value))
  }

  /** An operand stating no unit is dimensionless over a stated divisor, and a divisor stating none
      leaves the dividend's. */
  function QuotientUnit(k: Kernel, step: string, a: Option<UnitOfMeasure>,
                        b: Option<UnitOfMeasure>): Result<Option<UnitOfMeasure>>
  {
    if b.None? then Ok(a)
    else
      var x := if a.Some? then a.value else k.dimensionless;
      InRange(step, x, k.unitQuotient(x, b.value))
  }

  function FirstDimensioned(k: Kernel, units: seq<Option<UnitOfMeasure>>): Option<UnitOfMeasure>
  {
    if units == [] then None
    else if units[0].Some? && units[0].value != k.dimensionless then units[0]
    else FirstDimensioned(k, units[1..])
  }

  function BinaryUnit(k: Kernel, step: string, op: BinOp, a: Option<UnitOfMeasure>,
                      b: Option<UnitOfMeasure>): Result<Option<UnitOfMeasure>>
  {
    match op
    case Add | Sub => Agree(step, a, [b])
    case Mul => ProductUnit(k, step, a, b)
    case Div => QuotientUnit(k, step, a, b)
    case Mod => Ok(a)
    case Eq | Ne | Lt | Le | Gt | Ge =>
      var _ :- Agree(step, a, [b]);
      Ok(None)
    case And | Or | Contains | StartsWith | EndsWith => Ok(None)
  }

  /** Whether a power's exponent is written as an integer literal. */
  predicate LiteralPower(args: seq<ColExpr>)
  {
    |args| == 2 && args[1].Lit? && args[1].cell.IntCell?
  }

  function OnlyDimensionless(k: Kernel, step: string, units: seq<Option<UnitOfMeasure>>): Result<Option<UnitOfMeasure>>
  {
    var d := FirstDimensioned(k, units);
    if d.Some? then Unmatched(step, d.value, k.dimensionless) else Ok(None)
  }

  function ApplyUnit(k: Kernel, step: string, func: ScalarFn, args: seq<ColExpr>,
                     units: seq<Option<UnitOfMeasure>>): Result<Option<UnitOfMeasure>>
  {
    var first := if units == [] then None else units[0];
    match func
    case Abs | Round | Floor | Ceil => Ok(first)
    case Least | Greatest => Agree(step, None, units)
    case PowFn =>
      if LiteralPower(args) then
        var n := args[1].cell.whole;
        if first.None? || n == 0 then Ok(None)
        else InRange(step, first.value, if Power.InBand(n) then k.unitPower(first.value, n) else None)
      else OnlyDimensionless(k, step, units)
    case Exp | Ln | Log10 => OnlyDimensionless(k, step, units)
    case _ => Ok(None)
  }

  /** The unit of an expression, and the expression with every conversion resolved to the cast (and
      factor) it stands for. */
  function ResolveUnits(k: Kernel, step: string, cols: Schema, e: ColExpr): (r: Result<Resolution>)
    ensures r.Ok? ==> !HasConvert(r.value.expr) && (e.Convert? ==> r.value.unit == Some(e.unit))
    decreases e
  {
    match e
    case Col(name) => Ok(Resolution(ColUnit(cols, name), e))
    case Lit(_) => Ok(Resolution(None, e))
    case Param(_) => Ok(Resolution(None, e))
    case Binary(op, l, r) =>
      var a :- ResolveUnits(k, step, cols, l);
      var b :- ResolveUnits(k, step, cols, r);
      var u :- BinaryUnit(k, step, op, a.unit, b.unit);
      Ok(Resolution(u, Binary(op, a.expr, b.expr)))
    case Not(x) =>
      var a :- ResolveUnits(k, step, cols, x);
      Ok(Resolution(None, Not(a.expr)))
    case IsNull(x) =>
      var a :- ResolveUnits(k, step, cols, x);
      Ok(Resolution(None, IsNull(a.expr)))
    case InParam(x, name) =>
      var a :- ResolveUnits(k, step, cols, x);
      Ok(Resolution(None, InParam(a.expr, name)))
    case Coalesce(xs) =>
      var all :- ResolveAll(k, step, cols, xs);
      var u :- Agree(step, None, all.units);
      Ok(Resolution(u, Coalesce(all.exprs)))
    case Case(arms, x) =>
      var guards :- ResolveGuards(k, step, cols, arms);
      var results :- ResolveResults(k, step, cols, arms);
      var o :- ResolveUnits(k, step, cols, x);
      var u :- Agree(step, o.unit, results.units);
      ZipPlain(guards.exprs, results.exprs);
      Ok(Resolution(u, Case(Zip(guards.exprs, results.exprs), o.expr)))
    case Cast(ty, x) =>
      var a :- ResolveUnits(k, step, cols, x);
      Ok(Resolution(a.unit, Cast(ty, a.expr)))
    case Apply(func, xs) =>
      var all :- ResolveAll(k, step, cols, xs);
      var u :- ApplyUnit(k, step, func, xs, all.units);
      Ok(Resolution(u, Apply(func, all.exprs)))
    case InList(x, xs) =>
      var s :- ResolveUnits(k, step, cols, x);
      var all :- ResolveAll(k, step, cols, xs);
      var _ :- Agree(step, s.unit, all.units);
      Ok(Resolution(None, InList(s.expr, all.exprs)))
    case Quotient(x, y, rounding) =>
      var a :- ResolveUnits(k, step, cols, x);
      var b :- ResolveUnits(k, step, cols, y);
      var u :- QuotientUnit(k, step, a.unit, b.unit);
      Ok(Resolution(u, Quotient(a.expr, b.expr, rounding)))
    case Rounded(x, rounding) =>
      var a :- ResolveUnits(k, step, cols, x);
      Ok(Resolution(a.unit, Rounded(a.expr, rounding)))
    case Convert(x, target) =>
      var a :- ResolveUnits(k, step, cols, x);
      Converted(k, step, a, target)
  }

  /** A conversion of a resolved operand: a tag, or a scaling by the exact factor. */
  function Converted(k: Kernel, step: string, a: Resolution, target: UnitOfMeasure): (r: Result<Resolution>)
    requires !HasConvert(a.expr)
    ensures r.Ok? ==> !HasConvert(r.value.expr) && r.value.unit == Some(target)
  {
    var asFloat := Cast(TFloat, a.expr);
    if a.unit.None? || a.unit.value == target then Ok(Resolution(Some(target), asFloat))
    else
      var factor := k.conversionFactor(a.unit.value, target);
      if factor.None? then Unmatched(step, a.unit.value, target)
      else Ok(Resolution(Some(target), Binary(Mul, asFloat, Lit(FloatCell(factor.value)))))
  }

  function ResolveAll(k: Kernel, step: string, cols: Schema, es: seq<ColExpr>): (r: Result<Resolutions>)
    ensures r.Ok? ==> |r.value.units| == |r.value.exprs| == |es| && !AnyConvert(r.value.exprs)
    decreases es
  {
    if es == [] then Ok(Resolutions([], []))
    else
      var a :- ResolveUnits(k, step, cols, es[0]);
      var rest :- ResolveAll(k, step, cols, es[1..]);
      assert ([a.expr] + rest.exprs)[1..] == rest.exprs;
      Ok(Resolutions([a.unit] + rest.units, [a.expr] + rest.exprs))
  }

  function ResolveGuards(k: Kernel, step: string, cols: Schema, arms: seq<CaseArm>): (r: Result<Resolutions>)
    ensures r.Ok? ==> |r.value.units| == |r.value.exprs| == |arms| && !AnyConvert(r.value.exprs)
    decreases arms
  {
    if arms == [] then Ok(Resolutions([], []))
    else
      var arm := arms[0];
      assert arm.guard < arm;
      var a :- ResolveUnits(k, step, cols, arm.guard);
      var rest :- ResolveGuards(k, step, cols, arms[1..]);
      assert ([a.expr] + rest.exprs)[1..] == rest.exprs;
      Ok(Resolutions([a.unit] + rest.units, [a.expr] + rest.exprs))
  }

  function ResolveResults(k: Kernel, step: string, cols: Schema, arms: seq<CaseArm>): (r: Result<Resolutions>)
    ensures r.Ok? ==> |r.value.units| == |r.value.exprs| == |arms| && !AnyConvert(r.value.exprs)
    decreases arms
  {
    if arms == [] then Ok(Resolutions([], []))
    else
      var arm := arms[0];
      assert arm.result < arm;
      var a :- ResolveUnits(k, step, cols, arm.result);
      var rest :- ResolveResults(k, step, cols, arms[1..]);
      assert ([a.expr] + rest.exprs)[1..] == rest.exprs;
      Ok(Resolutions([a.unit] + rest.units, [a.expr] + rest.exprs))
  }

  function Zip(guards: seq<ColExpr>, results: seq<ColExpr>): seq<CaseArm>
    requires |guards| == |results|
  {
    if guards == [] then [] else [CaseArm(guards[0], results[0])] + Zip(guards[1..], results[1..])
  }

  lemma {:induction false} ZipPlain(guards: seq<ColExpr>, results: seq<ColExpr>)
    requires |guards| == |results| && !AnyConvert(guards) && !AnyConvert(results)
    ensures !ArmsConvert(Zip(guards, results))
  {
    if guards != [] {
      ZipPlain(guards[1..], results[1..]);
      assert Zip(guards, results)[1..] == Zip(guards[1..], results[1..]);
    }
  }

  // ----- evaluation -----

  function ScaleOf(env: Env, s: RoundingScale): Result<int>
  {
    match s
    case FixedScale(n) => Ok(n)
    case ParamScale(name) =>
      if name !in env then Err(UnboundParam(name))
      else if env[name].IntCell? then Ok(env[name].whole)
      else Err(TypeError(ScaleNotInt(name)))
  }

  /** An expression's cell on one row, its params read from the environment. */
  function Eval(k: Kernel, cols: Schema, row: Row, e: ColExpr, env: Env): Result<Cell>
    requires |row| == |cols|
    decreases HasConvert(e), e
  {
    match e
    case Col(name) =>
      var i := ColIndex(cols, name);
      if i.Some? then Ok(row[i.value]) else Err(UnknownColumn(name))
    case Lit(c) => Ok(c)
    case Param(name) => if name in env then Ok(env[name]) else Err(UnboundParam(name))
    case Binary(op, l, r) =>
      var a :- Eval(k, cols, row, l, env);
      var b :- Eval(k, cols, row, r, env);
      BinaryCell(k, op, a, b)
    case Not(x) =>
      var v :- Eval(k, cols, row, x, env);
      if v.BoolCell? then Ok(BoolCell(!v.truth)) else if v.Null? then Ok(Null) else Refuse(NonBool)
    case Coalesce(xs) => EvalCoalesce(k, cols, row, xs, env)
    case Case(arms, x) =>
      var taken :- EvalArms(k, cols, row, arms, env);
      if taken.Some? then Ok(taken.value) else Eval(k, cols, row, x, env)
    case Cast(ty, x) =>
      var v :- Eval(k, cols, row, x, env);
      CastCell(k, ty, v)
    case Apply(func, xs) =>
      var vals :- EvalAll(k, cols, row, xs, env);
      ApplyScalar(k, func, vals)
    case InList(x, xs) =>
      var v :- Eval(k, cols, row, x, env);
      if v.Null? then Ok(Null) else EvalMember(k, cols, row, v, xs, false, env)
    case InParam(_, name) => Err(UnboundParam(name))
    case IsNull(x) =>
      var v :- Eval(k, cols, row, x, env);
      Ok(BoolCell(v.Null?))
    case Quotient(x, y, rounding) =>
      var scale :- ScaleOf(env, rounding.scale);
      var a :- Eval(k, cols, row, x, env);
      var b :- Eval(k, cols, row, y, env);
      QuotientCell(k, rounding.mode, scale, a, b)
    case Rounded(x, rounding) =>
      var scale :- ScaleOf(env, rounding.scale);
      var v :- Eval(k, cols, row, x, env);
      RoundedCell(k, rounding.mode, scale, v)
    case Convert(_, _) =>
      var resolved :- ResolveUnits(k, "expression", cols, e);
      Eval(k, cols, row, resolved.expr, env)
  }

  function EvalAll(k: Kernel, cols: Schema, row: Row, es: seq<ColExpr>, env: Env): (r: Result<seq<Cell>>)
    requires |row| == |cols|
    ensures r.Ok? ==> |r.value| == |es|
    decreases AnyConvert(es), es
  {
    if es == [] then Ok([])
    else
      var v :- Eval(k, cols, row, es[0], env);
      var rest :- EvalAll(k, cols, row, es[1..], env);
      Ok([v] + rest)
  }

  /** The first present value, in order; null when there is none. */
  function EvalCoalesce(k: Kernel, cols: Schema, row: Row, es: seq<ColExpr>, env: Env): Result<Cell>
    requires |row| == |cols|
    decreases AnyConvert(es), es
  {
    if es == [] then Ok(Null)
    else
      var v :- Eval(k, cols, row, es[0], env);
      if v.Null? then EvalCoalesce(k, cols, row, es[1..], env) else Ok(v)
  }

  /** The result of the first arm whose guard is true, if one is. */
  function EvalArms(k: Kernel, cols: Schema, row: Row, arms: seq<CaseArm>, env: Env): Result<Option<Cell>>
    requires |row| == |cols|
    decreases ArmsConvert(arms), arms
  {
    if arms == [] then Ok(None)
    else
      var arm := arms[0];
      assert arm.guard < arm;
      var w :- Eval(k, cols, row, arm.guard, env);
      if w == BoolCell(true) then
        var v :- Eval(k, cols, row, arm.result, env);
        Ok(Some(v))
      else EvalArms(k, cols, row, arms[1..], env)
  }

  /** Three-valued membership: true at the first equal item, null past a null one, else false. */
  function EvalMember(k: Kernel, cols: Schema, row: Row, v: Cell, items: seq<ColExpr>, sawNull: bool,
                      env: Env): Result<Cell>
    requires |row| == |cols|
    decreases AnyConvert(items), items
  {
    if items == [] then Ok(if sawNull then Null else BoolCell(false))
    else
      var i :- Eval(k, cols, row, items[0], env);
      if i.Null? then EvalMember(k, cols, row, v, items[1..], true, env)
      else
        var c := CompareCells(k, v, i);
        if c.None? then Refuse(Incomparable)
        else if c.value.Equal? then Ok(BoolCell(true))
        else EvalMember(k, cols, row, v, items[1..], sawNull, env)
  }
}
