/** Binding params in place: the rewrite the column typer relies on, and when the evaluator cannot tell. */
module Rewrites {
  import opened Trees
  import opened Cells
  import opened Exprs
  import opened Typer

  function BindScale(env: Env, r: Rounding): Rounding
  {
    match r.scale
    case ParamScale(name) => if name in env && env[name].IntCell? then r.(scale := FixedScale(env[name].whole)) else r
    case FixedScale(_) => r
  }

  /** The expression with every bound param replaced by its literal. */
  function Bind(env: Env, e: ColExpr): ColExpr
    decreases e
  {
    match e
    case Param(name) => if name in env then Lit(env[name]) else e
    case Col(_) => e
    case Lit(_) => e
    case Binary(op, l, r) => Binary(op, Bind(env, l), Bind(env, r))
    case Not(x) => Not(Bind(env, x))
    case Coalesce(xs) => Coalesce(BindAll(env, xs))
    case Case(arms, x) => Case(BindArms(env, arms), Bind(env, x))
    case Cast(ty, x) => Cast(ty, Bind(env, x))
    case Apply(func, xs) => Apply(func, BindAll(env, xs))
    case InList(x, xs) => InList(Bind(env, x), BindAll(env, xs))
    case InParam(x, name) => InParam(Bind(env, x), name)
    case IsNull(x) => IsNull(Bind(env, x))
    case Quotient(x, y, rounding) => Quotient(Bind(env, x), Bind(env, y), BindScale(env, rounding))
    case Rounded(x, rounding) => Rounded(Bind(env, x), BindScale(env, rounding))
    case Convert(x, unit) => Convert(Bind(env, x), unit)
  }

  function BindAll(env: Env, es: seq<ColExpr>): (r: seq<ColExpr>)
    ensures |r| == |es|
    decreases es
  {
    if es == [] then [] else [Bind(env, es[0])] + BindAll(env, es[1..])
  }

  function BindArms(env: Env, arms: seq<CaseArm>): (r: seq<CaseArm>)
    ensures |r| == |arms|
    decreases arms
  {
    if arms == [] then []
    else
      var arm := arms[0];
      assert arm.guard < arm;
      [CaseArm(Bind(env, arm.guard), Bind(env, arm.result))] + BindArms(env, arms[1..])
  }

  /** A power whose exponent is a param bound to an int: binding it makes the exponent a literal, which
      the unit rules read. */
  predicate BindsExponent(env: Env, func: ScalarFn, args: seq<ColExpr>)
  {
    func.PowFn? && |args| == 2 && args[1].Param? && args[1].name in env && env[args[1].name].IntCell?
  }

  /** A base whose power takes the same unit with its exponent written and bound: one that states no unit,
      or the dimensionless one to the power of zero. A base that does not resolve refuses either way. */
  predicate ExponentHarmless(k: Kernel, step: string, cols: Schema, base: ColExpr, n: int)
  {
    var r := ResolveUnits(k, step, cols, base);
    r.Err? || HarmlessUnit(k, r.value.unit, n)
  }

  predicate HarmlessUnit(k: Kernel, unit: Option<UnitOfMeasure>, n: int)
  {
    unit.None? || (unit.value == k.dimensionless && n == 0)
  }

  /** No power under a conversion has its exponent bound over a base for which that shows. */
  predicate Stable(k: Kernel, step: string, cols: Schema, env: Env, under: bool, e: ColExpr)
    decreases e
  {
    match e
    case Param(_) => true
    case Col(_) => true
    case Lit(_) => true
    case Binary(_, l, r) => Stable(k, step, cols, env, under, l) && Stable(k, step, cols, env, under, r)
    case Not(x) => Stable(k, step, cols, env, under, x)
    case Coalesce(xs) => StableAll(k, step, cols, env, under, xs)
    case Case(arms, x) => StableArms(k, step, cols, env, under, arms) && Stable(k, step, cols, env, under, x)
    case Cast(_, x) => Stable(k, step, cols, env, under, x)
    case Apply(func, xs) =>
      (under && BindsExponent(env, func, xs) ==> ExponentHarmless(k, step, cols, xs[0], env[xs[1].name].whole))
      && StableAll(k, step, cols, env, under, xs)
    case InList(x, xs) => Stable(k, step, cols, env, under, x) && StableAll(k, step, cols, env, under, xs)
    case InParam(x, _) => Stable(k, step, cols, env, under, x)
    case IsNull(x) => Stable(k, step, cols, env, under, x)
    case Quotient(x, y, _) => Stable(k, step, cols, env, under, x) && Stable(k, step, cols, env, under, y)
    case Rounded(x, _) => Stable(k, step, cols, env, under, x)
    case Convert(x, _) => Stable(k, step, cols, env, true, x)
  }

  predicate StableAll(k: Kernel, step: string, cols: Schema, env: Env, under: bool, es: seq<ColExpr>)
    decreases es
  {
    es == [] || (Stable(k, step, cols, env, under, es[0]) && StableAll(k, step, cols, env, under, es[1..]))
  }

  predicate StableArms(k: Kernel, step: string, cols: Schema, env: Env, under: bool, arms: seq<CaseArm>)
    decreases arms
  {
    arms == []
    || (var arm := arms[0];
        assert arm.guard < arm;
        Stable(k, step, cols, env, under, arm.guard) && Stable(k, step, cols, env, under, arm.result)
            && StableArms(k, step, cols, env, under, arms[1..]))
  }

  // ----- without conversions there is nothing to check -----

  lemma {:induction false} PlainStable(k: Kernel, step: string, cols: Schema, env: Env, e: ColExpr)
    requires !HasConvert(e)
    ensures Stable(k, step, cols, env, false, e)
    decreases e
  {
    match e
    case Binary(_, l, r) => PlainStable(k, step, cols, env, l); PlainStable(k, step, cols, env, r);
    case Not(x) => PlainStable(k, step, cols, env, x);
    case Coalesce(xs) => PlainStableAll(k, step, cols, env, xs);
    case Case(arms, x) => PlainStableArms(k, step, cols, env, arms); PlainStable(k, step, cols, env, x);
    case Cast(_, x) => PlainStable(k, step, cols, env, x);
    case Apply(_, xs) => PlainStableAll(k, step, cols, env, xs);
    case InList(x, xs) => PlainStable(k, step, cols, env, x); PlainStableAll(k, step, cols, env, xs);
    case InParam(x, _) => PlainStable(k, step, cols, env, x);
    case IsNull(x) => PlainStable(k, step, cols, env, x);
    case Quotient(x, y, _) => PlainStable(k, step, cols, env, x); PlainStable(k, step, cols, env, y);
    case Rounded(x, _) => PlainStable(k, step, cols, env, x);
    case _ =>
  }

  lemma {:induction false} PlainStableAll(k: Kernel, step: string, cols: Schema, env: Env, es: seq<ColExpr>)
    requires !AnyConvert(es)
    ensures StableAll(k, step, cols, env, false, es)
    decreases es
  {
    if es != [] { PlainStable(k, step, cols, env, es[0]); PlainStableAll(k, step, cols, env, es[1..]); }
  }

  lemma {:induction false} PlainStableArms(k: Kernel, step: string, cols: Schema, env: Env, arms: seq<CaseArm>)
    requires !ArmsConvert(arms)
    ensures StableArms(k, step, cols, env, false, arms)
    decreases arms
  {
    if arms != [] {
      var arm := arms[0];
      assert arm.guard < arm;
      PlainStable(k, step, cols, env, arm.guard);
      PlainStable(k, step, cols, env, arm.result);
      PlainStableArms(k, step, cols, env, arms[1..]);
    }
  }

  // ----- binding commutes with resolving -----

  function BoundResolution(env: Env, r: Result<Resolution>): Result<Resolution>
  {
    if r.Ok? then Ok(Resolution(r.value.unit, Bind(env, r.value.expr))) else r
  }

  function BoundResolutions(env: Env, r: Result<Resolutions>): Result<Resolutions>
  {
    if r.Ok? then Ok(Resolutions(r.value.units, BindAll(env, r.value.exprs))) else r
  }

  lemma {:induction false} ResolveBinds(k: Kernel, step: string, cols: Schema, env: Env, e: ColExpr)
    requires Stable(k, step, cols, env, true, e)
    ensures ResolveUnits(k, step, cols, Bind(env, e)) == BoundResolution(env, ResolveUnits(k, step, cols, e))
    decreases e
  {
    match e
    case Binary(op, l, r) => ResolveBindsBinary(k, step, cols, env, op, l, r);
    case Not(x) => ResolveBinds(k, step, cols, env, x);
    case IsNull(x) => ResolveBinds(k, step, cols, env, x);
    case InParam(x, _) => ResolveBinds(k, step, cols, env, x);
    case Coalesce(xs) => ResolveBindsCoalesce(k, step, cols, env, xs);
    case Case(arms, x) => ResolveBindsCase(k, step, cols, env, arms, x);
    case Cast(ty, x) => ResolveBindsCast(k, step, cols, env, ty, x);
    case Apply(func, xs) => ResolveBindsApply(k, step, cols, env, func, xs);
    case InList(x, xs) => ResolveBindsMember(k, step, cols, env, x, xs);
    case Quotient(x, y, rounding) => ResolveBindsQuotient(k, step, cols, env, x, y, rounding);
    case Rounded(x, rounding) => ResolveBindsRounded(k, step, cols, env, x, rounding);
    case Convert(x, unit) => ResolveBindsConvert(k, step, cols, env, x, unit);
    case _ =>
  }

  lemma {:induction false} ResolveBindsCoalesce(k: Kernel, step: string, cols: Schema, env: Env, xs: seq<ColExpr>)
    requires StableAll(k, step, cols, env, true, xs)
    ensures ResolveUnits(k, step, cols, Bind(env, Coalesce(xs)))
         == BoundResolution(env, ResolveUnits(k, step, cols, Coalesce(xs)))
    decreases Coalesce(xs), 0
  {
    ResolveBindsAll(k, step, cols, env, xs);
    assert Bind(env, Coalesce(xs)) == Coalesce(BindAll(env, xs));
  }

  lemma {:induction false} ResolveBindsCast(k: Kernel, step: string, cols: Schema, env: Env, ty: ColumnType, x: ColExpr)
    requires Stable(k, step, cols, env, true, x)
    ensures ResolveUnits(k, step, cols, Bind(env, Cast(ty, x)))
         == BoundResolution(env, ResolveUnits(k, step, cols, Cast(ty, x)))
    decreases Cast(ty, x), 0
  {
    ResolveBinds(k, step, cols, env, x);
    assert Bind(env, Cast(ty, x)) == Cast(ty, Bind(env, x));
  }

  lemma {:induction false} ResolveBindsRounded(k: Kernel, step: string, cols: Schema, env: Env, x: ColExpr,
                                               rounding: Rounding)
    requires Stable(k, step, cols, env, true, x)
    ensures ResolveUnits(k, step, cols, Bind(env, Rounded(x, rounding)))
         == BoundResolution(env, ResolveUnits(k, step, cols, Rounded(x, rounding)))
    decreases Rounded(x, rounding), 0
  {
    ResolveBinds(k, step, cols, env, x);
    assert Bind(env, Rounded(x, rounding)) == Rounded(Bind(env, x), BindScale(env, rounding));
  }

  lemma {:induction false} ResolveBindsConvert(k: Kernel, step: string, cols: Schema, env: Env, x: ColExpr,
                                               unit: UnitOfMeasure)
    requires Stable(k, step, cols, env, true, x)
    ensures ResolveUnits(k, step, cols, Bind(env, Convert(x, unit)))
         == BoundResolution(env, ResolveUnits(k, step, cols, Convert(x, unit)))
    decreases Convert(x, unit), 0
  {
    ResolveBinds(k, step, cols, env, x);
    assert Bind(env, Convert(x, unit)) == Convert(Bind(env, x), unit);
    var a := ResolveUnits(k, step, cols, x);
    if a.Ok? { ConvertedBinds(k, step, env, a.value, unit); }
  }

  lemma {:induction false} ResolveBindsAll(k: Kernel, step: string, cols: Schema, env: Env, es: seq<ColExpr>)
    requires StableAll(k, step, cols, env, true, es)
    ensures ResolveAll(k, step, cols, BindAll(env, es)) == BoundResolutions(env, ResolveAll(k, step, cols, es))
    decreases es, 0
  {
    if es != [] {
      ResolveBinds(k, step, cols, env, es[0]);
      ResolveBindsAll(k, step, cols, env, es[1..]);
      var bound := BindAll(env, es);
      assert bound[0] == Bind(env, es[0]) && bound[1..] == BindAll(env, es[1..]);
      var r := ResolveAll(k, step, cols, es);
      if r.Ok? {
        assert r.value.exprs[1..] == ResolveAll(k, step, cols, es[1..]).value.exprs;
      }
    }
  }

  lemma ConvertedBinds(k: Kernel, step: string, env: Env, a: Resolution, target: UnitOfMeasure)
    requires !HasConvert(a.expr) && !HasConvert(Bind(env, a.expr))
    ensures Converted(k, step, Resolution(a.unit, Bind(env, a.expr)), target)
         == BoundResolution(env, Converted(k, step, a, target))
  {
    var asFloat := Cast(TFloat, a.expr);
    assert Bind(env, asFloat) == Cast(TFloat, Bind(env, a.expr));
    forall f: Float
      ensures Bind(env, Binary(Mul, asFloat, Lit(FloatCell(f)))) == Binary(Mul, Bind(env, asFloat), Lit(FloatCell(f)))
    {
      assert Bind(env, Lit(FloatCell(f))) == Lit(FloatCell(f));
    }
  }

  lemma {:induction false} ResolveBindsBinary(k: Kernel, step: string, cols: Schema, env: Env, op: BinOp, l: ColExpr,
                                              r: ColExpr)
    requires Stable(k, step, cols, env, true, l) && Stable(k, step, cols, env, true, r)
    ensures ResolveUnits(k, step, cols, Bind(env, Binary(op, l, r)))
         == BoundResolution(env, ResolveUnits(k, step, cols, Binary(op, l, r)))
    decreases Binary(op, l, r), 0
  {
    ResolveBinds(k, step, cols, env, l);
    ResolveBinds(k, step, cols, env, r);
    assert Bind(env, Binary(op, l, r)) == Binary(op, Bind(env, l), Bind(env, r));
  }

  /** A membership's resolution, from those of its subject and its items. */
  function MemberOf(step: string, x: Result<Resolution>, all: Result<Resolutions>): Result<Resolution>
  {
    if x.Err? then Err(x.error)
    else if all.Err? then Err(all.error)
    else
      var u := Agree(step, x.value.unit, all.value.units);
      if u.Err? then Err(u.error) else Ok(Resolution(None, InList(x.value.expr, all.value.exprs)))
  }

  lemma MemberResolution(k: Kernel, step: string, cols: Schema, x: ColExpr, xs: seq<ColExpr>)
    ensures ResolveUnits(k, step, cols, InList(x, xs))
         == MemberOf(step, ResolveUnits(k, step, cols, x), ResolveAll(k, step, cols, xs))
  {
  }

  lemma MemberOfBinds(step: string, env: Env, x: Result<Resolution>, all: Result<Resolutions>)
    ensures MemberOf(step, BoundResolution(env, x), BoundResolutions(env, all))
         == BoundResolution(env, MemberOf(step, x, all))
  {
    if x.Ok? && all.Ok? {
      assert Bind(env, InList(x.value.expr, all.value.exprs))
          == InList(Bind(env, x.value.expr), BindAll(env, all.value.exprs));
    }
  }

  lemma {:induction false} ResolveBindsMember(k: Kernel, step: string, cols: Schema, env: Env, x: ColExpr,
                                              xs: seq<ColExpr>)
    requires Stable(k, step, cols, env, true, x) && StableAll(k, step, cols, env, true, xs)
    ensures ResolveUnits(k, step, cols, Bind(env, InList(x, xs)))
         == BoundResolution(env, ResolveUnits(k, step, cols, InList(x, xs)))
    decreases InList(x, xs), 0
  {
    ResolveBinds(k, step, cols, env, x);
    ResolveBindsAll(k, step, cols, env, xs);
    assert Bind(env, InList(x, xs)) == InList(Bind(env, x), BindAll(env, xs));
    MemberResolution(k, step, cols, x, xs);
    MemberResolution(k, step, cols, Bind(env, x), BindAll(env, xs));
    MemberOfBinds(step, env, ResolveUnits(k, step, cols, x), ResolveAll(k, step, cols, xs));
  }

  /** A quotient's resolution, from those of its operands. */
  function QuotientOf(k: Kernel, step: string, x: Result<Resolution>, y: Result<Resolution>, rounding: Rounding)
    : Result<Resolution>
  {
    if x.Err? then Err(x.error)
    else if y.Err? then Err(y.error)
    else
      var u := QuotientUnit(k, step, x.value.unit, y.value.unit);
      if u.Err? then Err(u.error) else Ok(Resolution(u.value, Quotient(x.value.expr, y.value.expr, rounding)))
  }

  lemma QuotientResolution(k: Kernel, step: string, cols: Schema, x: ColExpr, y: ColExpr, rounding: Rounding)
    ensures ResolveUnits(k, step, cols, Quotient(x, y, rounding))
         == QuotientOf(k, step, ResolveUnits(k, step, cols, x), ResolveUnits(k, step, cols, y), rounding)
  {
  }

  lemma QuotientOfBinds(k: Kernel, step: string, env: Env, x: Result<Resolution>, y: Result<Resolution>,
                        rounding: Rounding)
    ensures QuotientOf(k, step, BoundResolution(env, x), BoundResolution(env, y), BindScale(env, rounding))
         == BoundResolution(env, QuotientOf(k, step, x, y, rounding))
  {
    if x.Ok? && y.Ok? {
      assert Bind(env, Quotient(x.value.expr, y.value.expr, rounding))
          == Quotient(Bind(env, x.value.expr), Bind(env, y.value.expr), BindScale(env, rounding));
    }
  }

  lemma {:induction false} ResolveBindsQuotient(k: Kernel, step: string, cols: Schema, env: Env, x: ColExpr,
                                                y: ColExpr, rounding: Rounding)
    requires Stable(k, step, cols, env, true, x) && Stable(k, step, cols, env, true, y)
    ensures ResolveUnits(k, step, cols, Bind(env, Quotient(x, y, rounding)))
         == BoundResolution(env, ResolveUnits(k, step, cols, Quotient(x, y, rounding)))
    decreases Quotient(x, y, rounding), 0
  {
    ResolveBinds(k, step, cols, env, x);
    ResolveBinds(k, step, cols, env, y);
    assert Bind(env, Quotient(x, y, rounding)) == Quotient(Bind(env, x), Bind(env, y), BindScale(env, rounding));
    QuotientResolution(k, step, cols, x, y, rounding);
    QuotientResolution(k, step, cols, Bind(env, x), Bind(env, y), BindScale(env, rounding));
    QuotientOfBinds(k, step, env, ResolveUnits(k, step, cols, x), ResolveUnits(k, step, cols, y), rounding);
  }

  /** The unit rule of a function reads its written arguments only for a literal exponent. */
  lemma ApplyUnitBinds(k: Kernel, step: string, env: Env, func: ScalarFn, xs: seq<ColExpr>,
                       units: seq<Option<UnitOfMeasure>>)
    requires !BindsExponent(env, func, xs)
    ensures ApplyUnit(k, step, func, BindAll(env, xs), units) == ApplyUnit(k, step, func, xs, units)
  {
    if func.PowFn? && |xs| == 2 {
      var bound := BindAll(env, xs);
      assert bound[1..] == BindAll(env, xs[1..]);
      assert bound[1] == Bind(env, xs[1]);
    }
  }

  lemma BoundPair(env: Env, x: ColExpr, y: ColExpr)
    ensures BindAll(env, [x, y]) == [Bind(env, x), Bind(env, y)]
  {
    assert [x, y][1..] == [y] && [y][1..] == [];
    assert BindAll(env, [y]) == [Bind(env, y)] + BindAll(env, []);
  }

  /** A power whose exponent is bound to an int keeps its unit if and only if its base is harmless. */
  lemma PowerUnitBinds(k: Kernel, step: string, env: Env, xs: seq<ColExpr>, unit: Option<UnitOfMeasure>)
    requires BindsExponent(env, PowFn, xs)
    ensures (ApplyUnit(k, step, PowFn, BindAll(env, xs), [unit, None]) == ApplyUnit(k, step, PowFn, xs, [unit, None]))
            <==> HarmlessUnit(k, unit, env[xs[1].name].whole)
  {
    assert xs == [xs[0], xs[1]];
    BoundPair(env, xs[0], xs[1]);
    var none: seq<Option<UnitOfMeasure>> := [None];
    assert [unit, None][1..] == none && none[1..] == [];
    assert FirstDimensioned(k, none) == None;
    var bound := BindAll(env, xs);
    assert LiteralPower(bound) && bound[1].cell.whole == env[xs[1].name].whole && !LiteralPower(xs);
  }

  /** Such a power binds alike before and after its units resolve if and only if its base is harmless. */
  lemma {:induction false} PowerBindsExactly(k: Kernel, step: string, cols: Schema, env: Env, xs: seq<ColExpr>)
    requires BindsExponent(env, PowFn, xs) && StableAll(k, step, cols, env, true, xs)
    ensures (ResolveUnits(k, step, cols, Bind(env, Apply(PowFn, xs)))
             == BoundResolution(env, ResolveUnits(k, step, cols, Apply(PowFn, xs))))
            <==> ExponentHarmless(k, step, cols, xs[0], env[xs[1].name].whole)
    decreases xs, 1
  {
    ResolveBindsAll(k, step, cols, env, xs);
    var r := ResolveAll(k, step, cols, xs);
    BoundApply(env, PowFn, xs);
    AppliedResolution(k, step, cols, PowFn, xs);
    AppliedResolution(k, step, cols, PowFn, BindAll(env, xs));
    BaseResolves(k, step, cols, xs[0], xs[1]);
    assert xs == [xs[0], xs[1]];
    if r.Ok? {
      BoundApply(env, PowFn, r.value.exprs);
      PowerUnitBinds(k, step, env, xs, r.value.units[0]);
    }
  }

  lemma BaseResolves(k: Kernel, step: string, cols: Schema, base: ColExpr, exponent: ColExpr)
    requires exponent.Param?
    ensures var all, r := ResolveAll(k, step, cols, [base, exponent]), ResolveUnits(k, step, cols, base);
      (all.Err? <==> r.Err?) && (r.Ok? ==> all.value.units == [r.value.unit, None])
  {
    assert [base, exponent][1..] == [exponent] && [exponent][1..] == [];
    assert ResolveAll(k, step, cols, []) == Ok(Resolutions([], []));
    assert ResolveUnits(k, step, cols, exponent) == Ok(Resolution(None, exponent));
    var none: seq<Option<UnitOfMeasure>> := [None];
    assert none + [] == none && [exponent] + [] == [exponent];
    assert ResolveAll(k, step, cols, [exponent]) == Ok(Resolutions(none, [exponent]));
  }

  lemma {:induction false} ResolveBindsApply(k: Kernel, step: string, cols: Schema, env: Env, func: ScalarFn,
                                             xs: seq<ColExpr>)
    requires Stable(k, step, cols, env, true, Apply(func, xs))
    ensures ResolveUnits(k, step, cols, Bind(env, Apply(func, xs)))
         == BoundResolution(env, ResolveUnits(k, step, cols, Apply(func, xs)))
    decreases xs, 2
  {
    if BindsExponent(env, func, xs) {
      PowerBindsExactly(k, step, cols, env, xs);
    } else {
      ResolveBindsAll(k, step, cols, env, xs);
      var r := ResolveAll(k, step, cols, xs);
      if r.Ok? { ApplyUnitBinds(k, step, env, func, xs, r.value.units); }
      BoundApply(env, func, xs);
      AppliedResolution(k, step, cols, func, xs);
      AppliedResolution(k, step, cols, func, BindAll(env, xs));
      if r.Ok? { BoundApply(env, func, r.value.exprs); }
    }
  }

  lemma BoundApply(env: Env, func: ScalarFn, xs: seq<ColExpr>)
    ensures Bind(env, Apply(func, xs)) == Apply(func, BindAll(env, xs))
  {
  }

  lemma AppliedResolution(k: Kernel, step: string, cols: Schema, func: ScalarFn, xs: seq<ColExpr>)
    ensures var r, all := ResolveUnits(k, step, cols, Apply(func, xs)), ResolveAll(k, step, cols, xs);
      if all.Err? then r == Err(all.error)
      else
        var u := ApplyUnit(k, step, func, xs, all.value.units);
        if u.Err? then r == Err(u.error) else r == Ok(Resolution(u.value, Apply(func, all.value.exprs)))
  {
  }

  /** A case's resolution, from those of its guards, its results and its default. */
  function CaseOf(step: string, g: Result<Resolutions>, r: Result<Resolutions>, o: Result<Resolution>)
    : Result<Resolution>
    requires g.Ok? && r.Ok? ==> |g.value.exprs| == |r.value.exprs|
  {
    if g.Err? then Err(g.error)
    else if r.Err? then Err(r.error)
    else if o.Err? then Err(o.error)
    else
      var u := Agree(step, o.value.unit, r.value.units);
      if u.Err? then Err(u.error) else Ok(Resolution(u.value, Case(Zip(g.value.exprs, r.value.exprs), o.value.expr)))
  }

  lemma CaseResolution(k: Kernel, step: string, cols: Schema, arms: seq<CaseArm>, x: ColExpr)
    ensures ResolveUnits(k, step, cols, Case(arms, x))
         == CaseOf(step, ResolveGuards(k, step, cols, arms), ResolveResults(k, step, cols, arms),
                   ResolveUnits(k, step, cols, x))
  {
  }

  lemma CaseOfBinds(step: string, env: Env, g: Result<Resolutions>, r: Result<Resolutions>, o: Result<Resolution>)
    requires g.Ok? && r.Ok? ==> |g.value.exprs| == |r.value.exprs|
    ensures CaseOf(step, BoundResolutions(env, g), BoundResolutions(env, r), BoundResolution(env, o))
         == BoundResolution(env, CaseOf(step, g, r, o))
  {
    if g.Ok? && r.Ok? { BindZip(env, g.value.exprs, r.value.exprs); }
  }

  lemma {:induction false} ResolveBindsCase(k: Kernel, step: string, cols: Schema, env: Env, arms: seq<CaseArm>,
                                            x: ColExpr)
    requires StableArms(k, step, cols, env, true, arms) && Stable(k, step, cols, env, true, x)
    ensures ResolveUnits(k, step, cols, Bind(env, Case(arms, x)))
         == BoundResolution(env, ResolveUnits(k, step, cols, Case(arms, x)))
    decreases Case(arms, x), 0
  {
    ResolveBindsArms(k, step, cols, env, arms);
    ResolveBinds(k, step, cols, env, x);
    assert Bind(env, Case(arms, x)) == Case(BindArms(env, arms), Bind(env, x));
    CaseResolution(k, step, cols, arms, x);
    CaseResolution(k, step, cols, BindArms(env, arms), Bind(env, x));
    CaseOfBinds(step, env, ResolveGuards(k, step, cols, arms), ResolveResults(k, step, cols, arms),
                ResolveUnits(k, step, cols, x));
  }

  lemma {:induction false} ResolveBindsArms(k: Kernel, step: string, cols: Schema, env: Env, arms: seq<CaseArm>)
    requires StableArms(k, step, cols, env, true, arms)
    ensures ResolveGuards(k, step, cols, BindArms(env, arms))
      == BoundResolutions(env, ResolveGuards(k, step, cols, arms))
    ensures ResolveResults(k, step, cols, BindArms(env, arms))
      == BoundResolutions(env, ResolveResults(k, step, cols, arms))
    decreases arms
  {
    if arms != [] {
      var arm := arms[0];
      assert arm.guard < arm;
      ResolveBinds(k, step, cols, env, arm.guard);
      ResolveBinds(k, step, cols, env, arm.result);
      ResolveBindsArms(k, step, cols, env, arms[1..]);
      var bound := BindArms(env, arms);
      assert bound[1..] == BindArms(env, arms[1..]);
      var g, r := ResolveGuards(k, step, cols, arms), ResolveResults(k, step, cols, arms);
      if g.Ok? { assert g.value.exprs[1..] == ResolveGuards(k, step, cols, arms[1..]).value.exprs; }
      if r.Ok? { assert r.value.exprs[1..] == ResolveResults(k, step, cols, arms[1..]).value.exprs; }
    }
  }

  lemma {:induction false} BindZip(env: Env, guards: seq<ColExpr>, results: seq<ColExpr>)
    requires |guards| == |results|
    ensures BindArms(env, Zip(guards, results)) == Zip(BindAll(env, guards), BindAll(env, results))
  {
    if guards != [] {
      BindZip(env, guards[1..], results[1..]);
      assert Zip(guards, results)[1..] == Zip(guards[1..], results[1..]);
      assert BindAll(env, guards)[1..] == BindAll(env, guards[1..]);
      assert BindAll(env, results)[1..] == BindAll(env, results[1..]);
    }
  }

  // ----- binding changes no answer -----

  lemma ScaleBinds(env: Env, r: Rounding)
    ensures ScaleOf(env, BindScale(env, r).scale) == ScaleOf(env, r.scale) && BindScale(env, r).mode == r.mode
  {
  }

  lemma {:induction false} BindKeepsMeaning(k: Kernel, cols: Schema, row: Row, env: Env, e: ColExpr)
    requires |row| == |cols| && Stable(k, "expression", cols, env, false, e)
    ensures Eval(k, cols, row, Bind(env, e), env) == Eval(k, cols, row, e, env)
    decreases HasConvert(e), e
  {
    match e
    case Binary(op, l, r) => BindKeepsBinary(k, cols, row, env, op, l, r);
    case Not(x) => BindKeepsMeaning(k, cols, row, env, x);
    case IsNull(x) => BindKeepsMeaning(k, cols, row, env, x);
    case Coalesce(xs) => BindKeepsCoalesce(k, cols, row, env, xs);
    case Case(arms, x) => BindKeepsCase(k, cols, row, env, arms, x);
    case Cast(ty, x) => BindKeepsCast(k, cols, row, env, ty, x);
    case Apply(func, xs) => BindKeepsApply(k, cols, row, env, func, xs);
    case InList(x, xs) => BindKeepsInList(k, cols, row, env, x, xs);
    case Quotient(x, y, rounding) => BindKeepsQuotient(k, cols, row, env, x, y, rounding);
    case Rounded(x, rounding) => BindKeepsRounded(k, cols, row, env, x, rounding);
    case Convert(x, unit) => BindKeepsConvert(k, cols, row, env, x, unit);
    case _ =>
  }

  lemma {:induction false} BindKeepsCase(k: Kernel, cols: Schema, row: Row, env: Env, arms: seq<CaseArm>, x: ColExpr)
    requires |row| == |cols| && StableArms(k, "expression", cols, env, false, arms)
    requires Stable(k, "expression", cols, env, false, x)
    ensures Eval(k, cols, row, Bind(env, Case(arms, x)), env) == Eval(k, cols, row, Case(arms, x), env)
    decreases HasConvert(Case(arms, x)), Case(arms, x), 0
  {
    BindKeepsArms(k, cols, row, env, arms);
    BindKeepsMeaning(k, cols, row, env, x);
  }

  lemma {:induction false} BindKeepsCast(k: Kernel, cols: Schema, row: Row, env: Env, ty: ColumnType, x: ColExpr)
    requires |row| == |cols| && Stable(k, "expression", cols, env, false, x)
    ensures Eval(k, cols, row, Bind(env, Cast(ty, x)), env) == Eval(k, cols, row, Cast(ty, x), env)
    decreases HasConvert(Cast(ty, x)), Cast(ty, x), 0
  {
    BindKeepsMeaning(k, cols, row, env, x);
  }

  lemma {:induction false} BindKeepsApply(k: Kernel, cols: Schema, row: Row, env: Env, func: ScalarFn, xs: seq<ColExpr>)
    requires |row| == |cols| && StableAll(k, "expression", cols, env, false, xs)
    ensures Eval(k, cols, row, Bind(env, Apply(func, xs)), env) == Eval(k, cols, row, Apply(func, xs), env)
    decreases HasConvert(Apply(func, xs)), Apply(func, xs), 0
  {
    BindKeepsAll(k, cols, row, env, xs);
  }

  lemma {:induction false} BindKeepsInList(k: Kernel, cols: Schema, row: Row, env: Env, x: ColExpr, xs: seq<ColExpr>)
    requires |row| == |cols| && Stable(k, "expression", cols, env, false, x)
    requires StableAll(k, "expression", cols, env, false, xs)
    ensures Eval(k, cols, row, Bind(env, InList(x, xs)), env) == Eval(k, cols, row, InList(x, xs), env)
    decreases HasConvert(InList(x, xs)), InList(x, xs), 0
  {
    BindKeepsMeaning(k, cols, row, env, x);
    var v := Eval(k, cols, row, x, env);
    if v.Ok? { BindKeepsMember(k, cols, row, env, v.value, xs, false); }
  }

  lemma {:induction false} BindKeepsRounded(k: Kernel, cols: Schema, row: Row, env: Env, x: ColExpr, rounding: Rounding)
    requires |row| == |cols| && Stable(k, "expression", cols, env, false, x)
    ensures Eval(k, cols, row, Bind(env, Rounded(x, rounding)), env) == Eval(k, cols, row, Rounded(x, rounding), env)
    decreases HasConvert(Rounded(x, rounding)), Rounded(x, rounding), 0
  {
    ScaleBinds(env, rounding);
    BindKeepsMeaning(k, cols, row, env, x);
  }

  lemma {:induction false} BindKeepsConvert(k: Kernel, cols: Schema, row: Row, env: Env, x: ColExpr,
                                            unit: UnitOfMeasure)
    requires |row| == |cols| && Stable(k, "expression", cols, env, true, x)
    ensures Eval(k, cols, row, Bind(env, Convert(x, unit)), env) == Eval(k, cols, row, Convert(x, unit), env)
    decreases HasConvert(Convert(x, unit)), Convert(x, unit), 0
  {
    ResolveBindsConvert(k, "expression", cols, env, x, unit);
    var r := ResolveUnits(k, "expression", cols, Convert(x, unit));
    if r.Ok? {
      PlainStable(k, "expression", cols, env, r.value.expr);
      BindKeepsMeaning(k, cols, row, env, r.value.expr);
    }
  }

  lemma {:induction false} BindKeepsBinary(k: Kernel, cols: Schema, row: Row, env: Env, op: BinOp, l: ColExpr,
                                           r: ColExpr)
    requires |row| == |cols| && Stable(k, "expression", cols, env, false, l)
      && Stable(k, "expression", cols, env, false, r)
    ensures Eval(k, cols, row, Bind(env, Binary(op, l, r)), env) == Eval(k, cols, row, Binary(op, l, r), env)
    decreases HasConvert(Binary(op, l, r)), Binary(op, l, r), 0
  {
    BindKeepsMeaning(k, cols, row, env, l);
    BindKeepsMeaning(k, cols, row, env, r);
  }

  lemma {:induction false} BindKeepsQuotient(k: Kernel, cols: Schema, row: Row, env: Env, x: ColExpr, y: ColExpr,
                                             rounding: Rounding)
    requires |row| == |cols| && Stable(k, "expression", cols, env, false, x)
      && Stable(k, "expression", cols, env, false, y)
    ensures Eval(k, cols, row, Bind(env, Quotient(x, y, rounding)), env)
      == Eval(k, cols, row, Quotient(x, y, rounding), env)
    decreases HasConvert(Quotient(x, y, rounding)), Quotient(x, y, rounding), 0
  {
    ScaleBinds(env, rounding);
    BindKeepsMeaning(k, cols, row, env, x);
    BindKeepsMeaning(k, cols, row, env, y);
  }

  lemma {:induction false} BindKeepsAll(k: Kernel, cols: Schema, row: Row, env: Env, es: seq<ColExpr>)
    requires |row| == |cols| && StableAll(k, "expression", cols, env, false, es)
    ensures EvalAll(k, cols, row, BindAll(env, es), env) == EvalAll(k, cols, row, es, env)
    decreases AnyConvert(es), es
  {
    if es != [] {
      BindKeepsMeaning(k, cols, row, env, es[0]);
      BindKeepsAll(k, cols, row, env, es[1..]);
      assert BindAll(env, es)[1..] == BindAll(env, es[1..]);
    }
  }

  lemma {:induction false} BindKeepsCoalesce(k: Kernel, cols: Schema, row: Row, env: Env, es: seq<ColExpr>)
    requires |row| == |cols| && StableAll(k, "expression", cols, env, false, es)
    ensures EvalCoalesce(k, cols, row, BindAll(env, es), env) == EvalCoalesce(k, cols, row, es, env)
    decreases AnyConvert(es), es
  {
    if es != [] {
      BindKeepsMeaning(k, cols, row, env, es[0]);
      BindKeepsCoalesce(k, cols, row, env, es[1..]);
      assert BindAll(env, es)[1..] == BindAll(env, es[1..]);
    }
  }

  lemma {:induction false} BindKeepsArms(k: Kernel, cols: Schema, row: Row, env: Env, arms: seq<CaseArm>)
    requires |row| == |cols| && StableArms(k, "expression", cols, env, false, arms)
    ensures EvalArms(k, cols, row, BindArms(env, arms), env) == EvalArms(k, cols, row, arms, env)
    decreases ArmsConvert(arms), arms
  {
    if arms != [] {
      var arm := arms[0];
      assert arm.guard < arm;
      BindKeepsMeaning(k, cols, row, env, arm.guard);
      BindKeepsMeaning(k, cols, row, env, arm.result);
      BindKeepsArms(k, cols, row, env, arms[1..]);
      assert BindArms(env, arms)[1..] == BindArms(env, arms[1..]);
    }
  }

  lemma MemberStep(k: Kernel, cols: Schema, row: Row, v: Cell, items: seq<ColExpr>, sawNull: bool, env: Env)
    requires |row| == |cols| && items != []
    ensures var i, rest := Eval(k, cols, row, items[0], env), items[1..];
      EvalMember(k, cols, row, v, items, sawNull, env)
      == if i.Err? then Err(i.error)
         else if i.value.Null? then EvalMember(k, cols, row, v, rest, true, env)
         else if CompareCells(k, v, i.value).None? then Refuse(Incomparable)
         else if CompareCells(k, v, i.value).value.Equal? then Ok(BoolCell(true))
         else EvalMember(k, cols, row, v, rest, sawNull, env)
  {
  }

  lemma {:induction false} BindKeepsMember(k: Kernel, cols: Schema, row: Row, env: Env, v: Cell, items: seq<ColExpr>,
                                           sawNull: bool)
    requires |row| == |cols| && StableAll(k, "expression", cols, env, false, items)
    ensures EvalMember(k, cols, row, v, BindAll(env, items), sawNull, env)
         == EvalMember(k, cols, row, v, items, sawNull, env)
    decreases AnyConvert(items), items
  {
    if items != [] {
      BindKeepsMeaning(k, cols, row, env, items[0]);
      BindKeepsMember(k, cols, row, env, v, items[1..], true);
      BindKeepsMember(k, cols, row, env, v, items[1..], sawNull);
      assert BindAll(env, items)[0] == Bind(env, items[0]) && BindAll(env, items)[1..] == BindAll(env, items[1..]);
      MemberStep(k, cols, row, v, items, sawNull, env);
      MemberStep(k, cols, row, v, BindAll(env, items), sawNull, env);
    }
  }

  /** The evaluator answers the bound expression exactly as it answers the written one, wherever no
      conversion remains. */
  lemma BindingIsInvisible(k: Kernel, cols: Schema, row: Row, env: Env, e: ColExpr)
    requires |row| == |cols| && !HasConvert(e)
    ensures Eval(k, cols, row, Bind(env, e), env) == Eval(k, cols, row, e, env)
  {
    PlainStable(k, "expression", cols, env, e);
    BindKeepsMeaning(k, cols, row, env, e);
  }

  lemma ResolveTwo(k: Kernel, step: string, cols: Schema, a: ColExpr, b: ColExpr)
    requires ResolveUnits(k, step, cols, a).Ok? && ResolveUnits(k, step, cols, b).Ok?
    ensures var x, y := ResolveUnits(k, step, cols, a).value, ResolveUnits(k, step, cols, b).value;
      ResolveAll(k, step, cols, [a, b]) == Ok(Resolutions([x.unit, y.unit], [x.expr, y.expr]))
  {
    assert [a, b][1..] == [b] && [b][1..] == [];
    assert ResolveAll(k, step, cols, []) == Ok(Resolutions([], []));
    var y := ResolveUnits(k, step, cols, b).value;
    assert [y.unit] + [] == [y.unit] && [y.expr] + [] == [y.expr];
    assert ResolveAll(k, step, cols, [b]) == Ok(Resolutions([y.unit], [y.expr]));
    var x := ResolveUnits(k, step, cols, a).value;
    assert [x.unit] + [y.unit] == [x.unit, y.unit] && [x.expr] + [y.expr] == [x.expr, y.expr];
  }

  lemma EvalTwo(k: Kernel, cols: Schema, row: Row, a: ColExpr, b: ColExpr, env: Env)
    requires |row| == |cols| && Eval(k, cols, row, a, env).Ok? && Eval(k, cols, row, b, env).Ok?
    ensures EvalAll(k, cols, row, [a, b], env)
      == Ok([Eval(k, cols, row, a, env).value, Eval(k, cols, row, b, env).value])
  {
    assert [a, b][1..] == [b] && [b][1..] == [];
    assert EvalAll(k, cols, row, [], env) == Ok([]);
    var x, y := Eval(k, cols, row, a, env).value, Eval(k, cols, row, b, env).value;
    assert [y] + [] == [y] && [x] + [y] == [x, y];
    assert EvalAll(k, cols, row, [b], env) == Ok([y]);
  }

  lemma PowerNeverUnits(k: Kernel, cols: Schema, c: Cell, env: Env, n: int)
    requires |cols| == 1 && cols[0].name == "x"
    ensures var v := Eval(k, cols, [c], Cast(TFloat, Apply(PowFn, [Col("x"), Lit(IntCell(n))])), env);
      v.Err? ==> !v.error.UnitMismatch?
  {
    assert ColIndex(cols, "x") == Some(0);
    EvalTwo(k, cols, [c], Col("x"), Lit(IntCell(n)), env);
  }

  const METRES := SchemaEntry("x", TFloat, Some("m"), None, None, map[])
  const PARAM_SQUARE := Convert(Apply(PowFn, [Col("x"), Param("n")]), "m2")

  /** A power of the column, its exponent stating no unit, resolves by the power's unit rule alone. */
  lemma PowerOfColumn(k: Kernel, cols: Schema, exponent: ColExpr)
    requires exponent.Param? || exponent.Lit?
    ensures var xs := [Col("x"), exponent];
      var u := ApplyUnit(k, "expression", PowFn, xs, [ColUnit(cols, "x"), None]);
      ResolveUnits(k, "expression", cols, Apply(PowFn, xs))
      == if u.Err? then Err(u.error) else Ok(Resolution(u.value, Apply(PowFn, xs)))
  {
    ResolveTwo(k, "expression", cols, Col("x"), exponent);
    AppliedResolution(k, "expression", cols, PowFn, [Col("x"), exponent]);
  }

  lemma MetresToParamRefused(k: Kernel, c: Cell, env: Env)
    requires k.dimensionless != "m"
    ensures Eval(k, [METRES], [c], PARAM_SQUARE, env) == Err(UnitMismatch("expression", Unlike("m", k.dimensionless)))
  {
    assert ColIndex([METRES], "x") == Some(0);
    PowerOfColumn(k, [METRES], Param("n"));
    ParamPowerUnit(k);
    ConvertResolution(k, "expression", [METRES], Apply(PowFn, [Col("x"), Param("n")]), "m2");
  }

  lemma ParamPowerUnit(k: Kernel)
    requires k.dimensionless != "m"
    ensures ApplyUnit(k, "expression", PowFn, [Col("x"), Param("n")], [Some("m"), None])
         == Err(UnitMismatch("expression", Unlike("m", k.dimensionless)))
  {
  }

  lemma ConvertResolution(k: Kernel, step: string, cols: Schema, x: ColExpr, unit: UnitOfMeasure)
    ensures var r := ResolveUnits(k, step, cols, x);
      ResolveUnits(k, step, cols, Convert(x, unit))
      == if r.Err? then Err(r.error) else Converted(k, step, r.value, unit)
  {
    var r, whole := ResolveUnits(k, step, cols, x), ResolveUnits(k, step, cols, Convert(x, unit));
    if r.Err? {
      assert whole == Err(r.error);
    } else {
      assert whole == Converted(k, step, r.value, unit);
    }
  }

  lemma MetresSquaredResolves(k: Kernel)
    requires k.unitPower("m", 2) == Some("m2")
    ensures var squared := Apply(PowFn, [Col("x"), Lit(IntCell(2))]);
      ResolveUnits(k, "expression", [METRES], Convert(squared, "m2"))
          == Ok(Resolution(Some("m2"), Cast(TFloat, squared)))
  {
    assert ColIndex([METRES], "x") == Some(0);
    PowerOfColumn(k, [METRES], Lit(IntCell(2)));
    ConvertResolution(k, "expression", [METRES], Apply(PowFn, [Col("x"), Lit(IntCell(2))]), "m2");
  }

  lemma BoundSquare(env: Env)
    requires "n" in env && env["n"] == IntCell(2)
    ensures Bind(env, PARAM_SQUARE) == Convert(Apply(PowFn, [Col("x"), Lit(IntCell(2))]), "m2")
  {
    var args := [Col("x"), Param("n")];
    assert args[1..] == [Param("n")] && [Param("n")][1..] == [];
    assert BindAll(env, []) == [];
    assert BindAll(env, [Param("n")]) == [Lit(IntCell(2))];
    assert BindAll(env, args) == [Col("x"), Lit(IntCell(2))];
  }

  /** Under a conversion it is visible: a metre column to the power of a param is refused as it is
      written, and squares once the param is bound to two. */
  lemma BindingExponentVisible(k: Kernel, c: Cell, env: Env)
    requires k.unitPower("m", 2) == Some("m2") && k.dimensionless != "m"
    requires "n" in env && env["n"] == IntCell(2)
    ensures Eval(k, [METRES], [c], PARAM_SQUARE, env) == Err(UnitMismatch("expression", Unlike("m", k.dimensionless)))
    ensures Eval(k, [METRES], [c], Bind(env, PARAM_SQUARE), env) != Eval(k, [METRES], [c], PARAM_SQUARE, env)
  {
    MetresToParamRefused(k, c, env);
    BoundSquare(env);
    MetresSquaredResolves(k);
    PowerNeverUnits(k, [METRES], c, env, 2);
  }
}
