/** Dataframe cells and the scalar functions over them. The float and decimal kernels, text search and
    locale case mapping are parameters: total functions with the result tag the evaluator relies on. */
module Cells {
  import opened Trees
  import Ordinal
  import Power

  /** A 64-bit float, known by its bits alone. */
  datatype Float = Float(bits: nat)

  datatype InstantUnit = Seconds | Millis | Micros | Nanos

  datatype ColumnType = TInt | TFloat | TBool | TStr | TDate | TInstant(precision: InstantUnit) | TDecimal

  datatype Cell =
    | Null
    | IntCell(whole: int)
    | FloatCell(float: Float)
    | BoolCell(truth: bool)
    | StrCell(text: string)
    | DateCell(text: string)
    | InstantCell(text: string)
    | DecimalCell(text: string)

  datatype BinOp =
    | Add | Sub | Mul | Div | Mod | Eq | Ne | Lt | Le | Gt | Ge | And | Or | Contains | StartsWith | EndsWith

  datatype ScalarFn =
    | Abs | Round | Floor | Ceil | Length | Lower | Upper | Substr | DatePart | Concat | Trim | Replace
    | DateDiffDays | PowFn | Exp | Ln | Log10 | Least | Greatest

  datatype RoundingMode = Mode(name: string)

  datatype Order = Less | Equal | Greater

  datatype Fault =
    | DecimalBesideFloat | NonNumeric | NotDecimalText | DivisionNamesRounding | ModNeedsInts | NotAnOperator
    | Incomparable | NonBool | NonString | BadCast(to: ColumnType) | BadScale(scale: int) | ScaleNotInt(param: string)
    | PowOverflow | BadArguments(func: ScalarFn)
    | FloatBesideDecimalColumn(column: string) | DisjointColumn(column: string, first: ColumnType, other: ColumnType)
    | RepeatedOutput(name: string)

  /** A unit by its one canonical spelling. */
  type UnitOfMeasure = string

  datatype UnitFault = Unlike(left: UnitOfMeasure, right: UnitOfMeasure) | PowerOutOfRange(of: UnitOfMeasure)

  datatype EvalError =
    | UnknownColumn(name: string)
    | UnboundParam(name: string)
    | TypeError(fault: Fault)
    | ArityError(func: ScalarFn, expected: nat, got: nat)
    | UnitMismatch(step: string, unlike: UnitFault)
    | JoinError
    | AggError

  datatype Result<+T> = Ok(value: T) | Err(error: EvalError)
  {
    predicate IsFailure() { Err? }

    function PropagateFailure<U>(): Result<U>
      requires Err?
    {
      Err(error)
    }

    function Extract(): T
      requires Ok?
    {
      value
    }
  }

  /** The arithmetic and text the evaluator calls out to. */
  datatype Kernel = Kernel(
    ofInt: int -> Float, truncate: Float -> int, isZero: Float -> bool, isNan: Float -> bool, one: Float,
    floatOp: (BinOp, Float, Float) -> Float, floatFn: (ScalarFn, Float) -> Float, compareFloat: (Float, Float) -> Order,
    intOp: (BinOp, int, int) -> int,
    powFloat: (Float, Float) -> Option<Float>, hostFn: (ScalarFn, Float) -> Option<Float>,
    decimalOp: (BinOp, string, string) -> Option<string>, decimalAbs: string -> Option<string>,
    decimalIsZero: string -> bool, decimalCompare: (string, string) -> Option<Order>,
    quantize: (RoundingMode, int, string) -> Option<string>,
    divide: (RoundingMode, int, string, string) -> Option<Option<string>>,
    canonicalDecimal: string -> Option<string>, decimalOfFloat: Float -> Option<string>,
    decimalToFloat: string -> Option<Float>, decimalToInt: string -> Option<int>,
    cellText: Cell -> string, intText: int -> string, parseFloat: string -> Option<Float>,
        parseInt: string -> Option<int>,
    instantKey: string -> string, textFn: (ScalarFn, string) -> string, textTest: (BinOp, string, string) -> bool,
    replaceAll: (string, string, string) -> string, datePart: (string, string) -> Option<int>,
        civilDays: string -> Option<int>,
    unitProduct: (UnitOfMeasure, UnitOfMeasure) -> Option<UnitOfMeasure>,
    unitQuotient: (UnitOfMeasure, UnitOfMeasure) -> Option<UnitOfMeasure>,
    unitPower: (UnitOfMeasure, int) -> Option<UnitOfMeasure>, dimensionless: UnitOfMeasure,
    conversionFactor: (UnitOfMeasure, UnitOfMeasure) -> Option<Float>)

  const HALF_UP := Mode("halfUp")
  const FLOOR := Mode("floor")
  const CEILING := Mode("ceiling")
  const MAX_SCALE: int := 1000

  function Refuse(fault: Fault): Result<Cell>
  {
    Err(TypeError(fault))
  }

  // ----- numbers and order -----

  function AsNum(k: Kernel, c: Cell): Option<Float>
  {
    match c
    case IntCell(v) => Some(k.ofInt(v))
    case FloatCell(v) => Some(v)
    case _ => None
  }

  predicate Numeric(c: Cell) { c.IntCell? || c.FloatCell? }

  /** The exact family: a decimal, or an int, whose digits promote losslessly. */
  predicate Exact(c: Cell) { c.IntCell? || c.DecimalCell? }

  function DecimalText(k: Kernel, c: Cell): string
    requires Exact(c)
  {
    if c.IntCell? then k.intText(c.whole) else c.text
  }

  function CompareText(a: string, b: string): Order
  {
    if a == b then Equal else if Ordinal.Leq(a, b) then Less else Greater
  }

  /** The order of two present cells; none when their families do not compare. */
  function CompareCells(k: Kernel, a: Cell, b: Cell): Option<Order>
  {
    if Numeric(a) && Numeric(b) then Some(k.compareFloat(AsNum(k, a).value, AsNum(k, b).value))
    else if Exact(a) && Exact(b) then k.decimalCompare(DecimalText(k, a), DecimalText(k, b))
    else if a.BoolCell?
      && b.BoolCell? then Some(if a.truth == b.truth then Equal else if b.truth then Less else Greater)
    else if (a.StrCell? && b.StrCell?) || (a.DateCell? && b.DateCell?) then Some(CompareText(a.text, b.text))
    else if a.InstantCell? && b.InstantCell? then Some(CompareText(k.instantKey(a.text), k.instantKey(b.text)))
    else None
  }

  function DecimalResult(r: Option<string>): Result<Cell>
  {
    if r.Some? then Ok(DecimalCell(r.value)) else Refuse(NotDecimalText)
  }

  // ----- binary operators -----

  function DecimalArith(k: Kernel, op: BinOp, x: string, y: string): Result<Cell>
  {
    match op
    case Add | Sub | Mul => DecimalResult(k.decimalOp(op, x, y))
    case Mod => if k.decimalIsZero(y) then Ok(Null) else DecimalResult(k.decimalOp(op, x, y))
    case Div => Refuse(DivisionNamesRounding)
    case _ => Refuse(NotAnOperator)
  }

  function Arith(k: Kernel, op: BinOp, a: Cell, b: Cell): Result<Cell>
  {
    if a.Null? || b.Null? then Ok(Null)
    else if Exact(a) && Exact(b) && (a.DecimalCell? || b.DecimalCell?) then
      DecimalArith(k, op, DecimalText(k, a), DecimalText(k, b))
    else if (a.DecimalCell? && b.FloatCell?) || (a.FloatCell? && b.DecimalCell?) then Refuse(DecimalBesideFloat)
    else if !Numeric(a) || !Numeric(b) then Refuse(NonNumeric)
    else
      var x, y := AsNum(k, a).value, AsNum(k, b).value;
      var ints := a.IntCell? && b.IntCell?;
      match op
      case Add | Sub | Mul => Ok(if ints then IntCell(k.intOp(op, a.whole, b.whole)) else FloatCell(k.floatOp(op, x,
          y)))
      case Div => Ok(if k.isZero(y) then Null else FloatCell(k.floatOp(Div, x, y)))
      case Mod =>
        if !ints then Refuse(ModNeedsInts)
        else Ok(if b.whole == 0 then Null else IntCell(k.intOp(Mod, a.whole, b.whole)))
      case _ => Refuse(NotAnOperator)
  }

  function Comparison(k: Kernel, op: BinOp, a: Cell, b: Cell): Result<Cell>
  {
    if a.Null? || b.Null? then Ok(Null)
    else
      var c := CompareCells(k, a, b);
      if c.None? then
        Refuse(if (a.DecimalCell? && b.FloatCell?)
            || (a.FloatCell? && b.DecimalCell?) then DecimalBesideFloat else Incomparable)
      else
        Ok(BoolCell(match op
                    case Eq => c.value == Equal
                    case Ne => c.value != Equal
                    case Lt => c.value == Less
                    case Le => c.value != Greater
                    case Gt => c.value == Greater
                    case Ge => c.value != Less
                    case _ => false))
  }

  /** Kleene three-valued and / or: null is the unknown truth value. */
  function Logical(op: BinOp, a: Cell, b: Cell): Result<Cell>
  {
    if !(a.BoolCell? || a.Null?) || !(b.BoolCell? || b.Null?) then Refuse(NonBool)
    else
      match op
      case And =>
        Ok(if a == BoolCell(false) || b == BoolCell(false) then BoolCell(false)
           else if a == BoolCell(true) && b == BoolCell(true) then BoolCell(true) else Null)
      case Or =>
        Ok(if a == BoolCell(true) || b == BoolCell(true) then BoolCell(true)
           else if a == BoolCell(false) && b == BoolCell(false) then BoolCell(false) else Null)
      case _ => Refuse(NotAnOperator)
  }

  function StringTest(k: Kernel, op: BinOp, a: Cell, b: Cell): Result<Cell>
  {
    if a.Null? || b.Null? then Ok(Null)
    else if a.StrCell? && b.StrCell? then Ok(BoolCell(k.textTest(op, a.text, b.text)))
    else Refuse(NonString)
  }

  function BinaryCell(k: Kernel, op: BinOp, a: Cell, b: Cell): Result<Cell>
  {
    match op
    case Add | Sub | Mul | Div | Mod => Arith(k, op, a, b)
    case Eq | Ne | Lt | Le | Gt | Ge => Comparison(k, op, a, b)
    case Contains | StartsWith | EndsWith => StringTest(k, op, a, b)
    case And | Or => Logical(op, a, b)
  }

  // ----- casts and roundings -----

  function CastOr(cell: Option<Cell>, ty: ColumnType): Result<Cell>
  {
    if cell.Some? then Ok(cell.value) else Refuse(BadCast(ty))
  }

  function FloatOption(f: Option<Float>): Option<Cell>
  {
    if f.Some? then Some(FloatCell(f.value)) else None
  }

  function DecimalOption(s: Option<string>): Option<Cell>
  {
    if s.Some? then Some(DecimalCell(s.value)) else None
  }

  function IntOption(i: Option<int>): Option<Cell>
  {
    if i.Some? then Some(IntCell(i.value)) else None
  }

  function CastCell(k: Kernel, ty: ColumnType, c: Cell): Result<Cell>
  {
    if c.Null? then Ok(Null)
    else
      match ty
      case TStr => Ok(StrCell(k.cellText(c)))
      case TFloat =>
        CastOr(match c
               case IntCell(v) => Some(FloatCell(k.ofInt(v)))
               case FloatCell(v) => Some(c)
               case DecimalCell(s) => FloatOption(k.decimalToFloat(s))
               case StrCell(s) => FloatOption(k.parseFloat(s))
               case _ => None, ty)
      case TInt =>
        CastOr(match c
               case IntCell(_) => Some(c)
               case FloatCell(v) => Some(IntCell(k.truncate(v)))
               case DecimalCell(s) =>
                 var v := k.decimalToInt(s);
                 if v.Some? && Power.InBand(v.value) then Some(IntCell(v.value)) else None
               case BoolCell(b) => Some(IntCell(if b then 1 else 0))
               case StrCell(s) => IntOption(k.parseInt(s))
               case _ => None, ty)
      case TBool =>
        CastOr(match c
               case BoolCell(_) => Some(c)
               case IntCell(v) => Some(BoolCell(v != 0))
               case _ => None, ty)
      case TDate =>
        CastOr(match c
               case DateCell(_) => Some(c)
               case StrCell(s) => Some(DateCell(s))
               case _ => None, ty)
      case TInstant(_) =>
        CastOr(match c
               case InstantCell(_) => Some(c)
               case StrCell(s) => Some(InstantCell(s))
               case _ => None, ty)
      case TDecimal =>
        CastOr(match c
               case DecimalCell(s) => DecimalOption(k.canonicalDecimal(s))
               case StrCell(s) => DecimalOption(k.canonicalDecimal(s))
               case IntCell(v) => Some(DecimalCell(k.intText(v)))
               case FloatCell(f) => DecimalOption(k.decimalOfFloat(f))
               case _ => None, ty)
  }

  function RoundedCell(k: Kernel, mode: RoundingMode, scale: int, c: Cell): Result<Cell>
  {
    if !(0 <= scale <= MAX_SCALE) then Refuse(BadScale(scale))
    else if c.Null? then Ok(Null)
    else if Exact(c) then DecimalResult(k.quantize(mode, scale, DecimalText(k, c)))
    else if c.FloatCell? then Refuse(DecimalBesideFloat)
    else Refuse(NonNumeric)
  }

  function QuotientCell(k: Kernel, mode: RoundingMode, scale: int, a: Cell, b: Cell): Result<Cell>
  {
    if !(0 <= scale <= MAX_SCALE) then Refuse(BadScale(scale))
    else if a.Null? || b.Null? then Ok(Null)
    else if Exact(a) && Exact(b) then
      match k.divide(mode, scale, DecimalText(k, a), DecimalText(k, b))
      case Some(Some(q)) => Ok(DecimalCell(q))
      case Some(None) => Ok(Null)
      case None => Refuse(NotDecimalText)
    else if a.FloatCell? || b.FloatCell? then Refuse(DecimalBesideFloat)
    else Refuse(NonNumeric)
  }

  // ----- scalar functions -----

  function FloatOrNull(f: Option<Float>): Result<Cell>
  {
    Ok(if f.Some? then FloatCell(f.value) else Null)
  }

  function PowIntFloat(k: Kernel, x: Float, n: int): Result<Cell>
  {
    var mul := (a: Float, b: Float) => k.floatOp(Mul, a, b);
    if n == 0 then Ok(FloatCell(k.one))
    else if n > 0 then Ok(FloatCell(Power.Tree(mul, None, x, n)))
    else
      var p := Power.Tree(mul, None, x, -n);
      Ok(if k.isZero(p) then Null else FloatCell(k.floatOp(Div, k.one, p)))
  }

  function PowCell(k: Kernel, x: Cell, y: Cell): Result<Cell>
  {
    if x.Null? || y.Null? then Ok(Null)
    else if x.DecimalCell? || y.DecimalCell? then Refuse(BadArguments(PowFn))
    else if !Numeric(x) || !Numeric(y) then Refuse(NonNumeric)
    else if y.IntCell? then
      if x.IntCell? && y.whole >= 0 then
        var p := Power.IntPow(x.whole, y.whole);
        if Power.InBand(p) then Ok(IntCell(p)) else Refuse(PowOverflow)
      else
        var f := AsNum(k, x).value;
        if x.FloatCell? && k.isNan(f) then Ok(x) else PowIntFloat(k, f, y.whole)
    else FloatOrNull(k.powFloat(AsNum(k, x).value, y.float))
  }

  /** The functions of one argument, past their arity and null checks. */
  function UnaryCell(k: Kernel, func: ScalarFn, c: Cell): Result<Cell>
  {
    match func
    case Abs =>
      (match c
       case IntCell(v) => Ok(IntCell(if v < 0 then -v else v))
       case FloatCell(v) => Ok(FloatCell(k.floatFn(Abs, v)))
       case DecimalCell(s) => DecimalResult(k.decimalAbs(s))
       case _ => Refuse(NonNumeric))
    case Round | Floor | Ceil =>
      if c.DecimalCell? then
        RoundedCell(k, if func.Round? then HALF_UP else if func.Floor? then FLOOR else CEILING, 0, c)
      else if Numeric(c) then Ok(FloatCell(k.floatFn(func, AsNum(k, c).value)))
      else Refuse(NonNumeric)
    case Length => if c.StrCell? then Ok(IntCell(|c.text|)) else Refuse(NonString)
    case Lower | Upper | Trim => if c.StrCell? then Ok(StrCell(k.textFn(func, c.text))) else Refuse(NonString)
    case Exp | Ln | Log10 =>
      if c.DecimalCell? then Refuse(BadArguments(func))
      else if Numeric(c) then FloatOrNull(k.hostFn(func, AsNum(k, c).value))
      else Refuse(NonNumeric)
    case _ => Refuse(BadArguments(func))
  }

  function SubstrCell(s: Cell, start: Cell, length: Cell): Result<Cell>
  {
    if s.Null? then Ok(Null)
    else if s.StrCell? && start.IntCell? && length.IntCell? then
      var n := |s.text|;
      var from := if start.whole < 0 then 0 else if start.whole > n then n else start.whole;
      var count := if length.whole < 0 then 0 else if length.whole > n - from then n - from else length.whole;
      Ok(StrCell(s.text[from..from + count]))
    else Refuse(BadArguments(Substr))
  }

  predicate HasDays(c: Cell) { c.DateCell? || c.InstantCell? || c.StrCell? }

  function DatePartCell(k: Kernel, part: Cell, date: Cell): Result<Cell>
  {
    if date.Null? then Ok(Null)
    else if HasDays(date) && part.StrCell? && k.datePart(part.text, date.text).Some? then
      Ok(IntCell(k.datePart(part.text, date.text).value))
    else Refuse(BadArguments(DatePart))
  }

  function DateDiffCell(k: Kernel, a: Cell, b: Cell): Result<Cell>
  {
    if a.Null? || b.Null? then Ok(Null)
    else if HasDays(a) && HasDays(b) && k.civilDays(a.text).Some? && k.civilDays(b.text).Some? then
      Ok(IntCell(k.civilDays(b.text).value - k.civilDays(a.text).value))
    else Refuse(BadArguments(DateDiffDays))
  }

  function ReplaceCell(k: Kernel, s: Cell, find: Cell, with: Cell): Result<Cell>
  {
    if s.Null? || find.Null? || with.Null? then Ok(Null)
    else if s.StrCell? && find.StrCell? && with.StrCell? then
      Ok(StrCell(if find.text == "" then s.text else k.replaceAll(s.text, find.text, with.text)))
    else Refuse(BadArguments(Replace))
  }

  function Joined(k: Kernel, args: seq<Cell>): string
  {
    if args == [] then "" else k.cellText(args[0]) + Joined(k, args[1..])
  }

  /** The least (or greatest) of `best` and the rest, in the shared order. */
  function Extreme(k: Kernel, least: bool, best: Cell, rest: seq<Cell>): Result<Cell>
    decreases |rest|
  {
    if rest == [] then Ok(best)
    else
      var c := CompareCells(k, best, rest[0]);
      if c.None? then Refuse(Incomparable)
      else Extreme(k, least, if least != (c.value != Greater) then rest[0] else best, rest[1..])
  }

  function Arity(func: ScalarFn): nat
  {
    match func
    case Substr | Replace => 3
    case DatePart | DateDiffDays | PowFn => 2
    case _ => 1
  }

  predicate Variadic(func: ScalarFn) { func.Concat? || func.Least? || func.Greatest? }

  function ApplyScalar(k: Kernel, func: ScalarFn, args: seq<Cell>): Result<Cell>
  {
    if Variadic(func) then
      if args == [] then Err(ArityError(func, 1, 0))
      else if Null in args then Ok(Null)
      else if func.Concat? then Ok(StrCell(Joined(k, args)))
      else Extreme(k, func.Least?, args[0], args[1..])
    else if |args| != Arity(func) then Err(ArityError(func, Arity(func), |args|))
    else
      match func
      case Substr => SubstrCell(args[0], args[1], args[2])
      case DatePart => DatePartCell(k, args[0], args[1])
      case Replace => ReplaceCell(k, args[0], args[1], args[2])
      case DateDiffDays => DateDiffCell(k, args[0], args[1])
      case PowFn => PowCell(k, args[0], args[1])
      case _ => if args[0].Null? then Ok(Null) else UnaryCell(k, func, args[0])
  }
}
