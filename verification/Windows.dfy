/** Sorting by keys and window columns: every row answered in its own place. */
module Windows {
  import opened Trees
  import opened Cells
  import opened Exprs
  import opened Derive
  import opened RowKeys
  import opened Verbs

  datatype WindowFn = RowNumber | Rank | Lag | Lead | CumulSum | RollingMean

  function Reversed(o: Order): Order
  {
    match o case Less => Greater case Equal => Equal case Greater => Less
  }

  /** Nulls last in either direction, an incomparable pair equal. */
  function CompareAt(k: Kernel, a: Cell, b: Cell, descending: bool): Order
  {
    if a.Null? && b.Null? then Equal
    else if a.Null? then Greater
    else if b.Null? then Less
    else
      var c := CompareCells(k, a, b);
      if c.None? then Equal else if descending then Reversed(c.value) else c.value
  }

  /** The order of two rows: the first sort key that tells them apart, an unknown one skipped. */
  function RowOrder(k: Kernel, cols: Schema, keys: seq<SortKey>, a: Row, b: Row): Order
    requires |a| == |cols| && |b| == |cols|
  {
    if keys == [] then Equal
    else
      var i := ColIndex(cols, keys[0].col);
      var c := if i.Some? then CompareAt(k, a[i.value], b[i.value], keys[0].descending) else Equal;
      if c.Equal? then RowOrder(k, cols, keys[1..], a, b) else c
  }

  /** The order two rows of a frame take by their places. */
  function PlaceOrder(k: Kernel, f: Frame, keys: seq<SortKey>, i: nat, j: nat): Order
    requires Rectangular(f) && i < |f.rows| && j < |f.rows|
  {
    RowOrder(k, f.cols, keys, f.rows[i], f.rows[j])
  }

  /** The stable sort of some places by the rows they hold. */
  function InsertPlace(k: Kernel, f: Frame, keys: seq<SortKey>, x: nat, s: seq<nat>): seq<nat>
    requires Rectangular(f) && x < |f.rows| && Within(s, |f.rows|)
  {
    if s == [] || !PlaceOrder(k, f, keys, x, s[0]).Greater? then [x] + s
    else [s[0]] + InsertPlace(k, f, keys, x, s[1..])
  }

  function SortPlaces(k: Kernel, f: Frame, keys: seq<SortKey>, s: seq<nat>): (r: seq<nat>)
    requires Rectangular(f) && Within(s, |f.rows|)
    ensures Within(r, |f.rows|) && multiset(r) == multiset(s)
  {
    if s == [] then []
    else
      var rest := SortPlaces(k, f, keys, s[1..]);
      InsertedPlace(k, f, keys, s[0], rest);
      assert s == [s[0]] + s[1..];
      InsertPlace(k, f, keys, s[0], rest)
  }

  lemma {:induction false} InsertedPlace(k: Kernel, f: Frame, keys: seq<SortKey>, x: nat, s: seq<nat>)
    requires Rectangular(f) && x < |f.rows| && Within(s, |f.rows|)
    ensures Within(InsertPlace(k, f, keys, x, s), |f.rows|)
    ensures multiset(InsertPlace(k, f, keys, x, s)) == multiset(s) + multiset{x}
  {
    if s != [] && PlaceOrder(k, f, keys, x, s[0]).Greater? {
      InsertedPlace(k, f, keys, x, s[1..]);
      assert s == [s[0]] + s[1..];
    }
  }

  // ----- sortedness, where the keys order the rows -----

  /** The keys order these rows: whichever way two compare the other is its reverse, and no worse than
      composes. Incomparable cells in one column break this. */
  ghost predicate Ordering(k: Kernel, f: Frame, keys: seq<SortKey>)
    requires Rectangular(f)
  {
    (forall i: nat, j: nat :: i < |f.rows| && j < |f.rows|
        ==> PlaceOrder(k, f, keys, j, i) == Reversed(PlaceOrder(k, f, keys, i, j)))
    && (forall i: nat, j: nat, h: nat ::
          (i < |f.rows| && j < |f.rows| && h < |f.rows|
           && !PlaceOrder(k, f, keys, i, j).Greater? && !PlaceOrder(k, f, keys, j, h).Greater?) ==>
          (!PlaceOrder(k, f, keys, i, h).Greater?
           && (PlaceOrder(k, f, keys, i, h).Equal?
               ==> PlaceOrder(k, f, keys, i, j).Equal? && PlaceOrder(k, f, keys, j, h).Equal?)))
  }

  /** `i` belongs before `j`: its row is less, or equal and earlier. */
  ghost predicate Before(k: Kernel, f: Frame, keys: seq<SortKey>, i: nat, j: nat)
    requires Rectangular(f) && i < |f.rows| && j < |f.rows|
  {
    PlaceOrder(k, f, keys, i, j).Less? || (PlaceOrder(k, f, keys, i, j).Equal? && i < j)
  }

  ghost predicate StablySorted(k: Kernel, f: Frame, keys: seq<SortKey>, s: seq<nat>)
    requires Rectangular(f) && Within(s, |f.rows|)
  {
    forall p, q :: 0 <= p < q < |s| ==> Before(k, f, keys, s[p], s[q])
  }

  lemma BeforeTransitive(k: Kernel, f: Frame, keys: seq<SortKey>, i: nat, j: nat, h: nat)
    requires Rectangular(f) && Ordering(k, f, keys) && i < |f.rows| && j < |f.rows| && h < |f.rows|
    requires !PlaceOrder(k, f, keys, i, j).Greater? && Before(k, f, keys, j, h)
      && (PlaceOrder(k, f, keys, i, j).Equal? ==> i < h)
    ensures Before(k, f, keys, i, h)
  {
  }

  lemma {:induction false} InsertKeepsSorted(k: Kernel, f: Frame, keys: seq<SortKey>, x: nat, s: seq<nat>)
    requires Rectangular(f) && Ordering(k, f, keys) && x < |f.rows| && Within(s, |f.rows|)
    requires StablySorted(k, f, keys, s) && forall p :: 0 <= p < |s| ==> x < s[p]
    ensures Within(InsertPlace(k, f, keys, x, s), |f.rows|) && StablySorted(k, f, keys, InsertPlace(k, f, keys, x, s))
  {
    InsertedPlace(k, f, keys, x, s);
    if s != [] && PlaceOrder(k, f, keys, x, s[0]).Greater? {
      var rest := InsertPlace(k, f, keys, x, s[1..]);
      InsertKeepsSorted(k, f, keys, x, s[1..]);
      InsertedPlace(k, f, keys, x, s[1..]);
      forall q | 0 <= q < |rest| ensures Before(k, f, keys, s[0], rest[q]) {
        assert rest[q] in multiset(rest);
        if rest[q] != x {
          assert rest[q] in s[1..];
          var p :| 0 <= p < |s[1..]| && s[1..][p] == rest[q];
          assert Before(k, f, keys, s[0], s[p + 1]);
        }
      }
    } else if s != [] {
      forall q | 0 <= q < |s| ensures Before(k, f, keys, x, s[q]) {
        if q > 0 { BeforeTransitive(k, f, keys, x, s[0], s[q]); }
      }
    }
  }

  lemma {:induction false} SortIsStable(k: Kernel, f: Frame, keys: seq<SortKey>, s: seq<nat>)
    requires Rectangular(f) && Ordering(k, f, keys) && Increasing(s, |f.rows|)
    ensures StablySorted(k, f, keys, SortPlaces(k, f, keys, s))
  {
    if s != [] {
      SortIsStable(k, f, keys, s[1..]);
      var rest := SortPlaces(k, f, keys, s[1..]);
      forall p | 0 <= p < |rest| ensures s[0] < rest[p] {
        assert rest[p] in multiset(rest);
        assert rest[p] in s[1..];
      }
      InsertKeepsSorted(k, f, keys, s[0], rest);
    }
  }

  function AllPlaces(n: nat): (s: seq<nat>)
    ensures |s| == n && forall i :: 0 <= i < n ==> s[i] == i
  {
    if n == 0 then [] else AllPlaces(n - 1) + [n - 1]
  }

  lemma AllSorted(k: Kernel, f: Frame, keys: seq<SortKey>)
    requires Rectangular(f)
    ensures Ordering(k, f, keys) ==> StablySorted(k, f, keys, SortPlaces(k, f, keys, AllPlaces(|f.rows|)))
  {
    if Ordering(k, f, keys) { SortIsStable(k, f, keys, AllPlaces(|f.rows|)); }
  }

  /** The rows in the order of the keys: a permutation, stably sorted wherever the keys order them. */
  method EvalSort(k: Kernel, f: Frame, keys: seq<SortKey>) returns (g: Frame, ghost places: seq<nat>)
    requires Rectangular(f)
    ensures g.cols == f.cols && Picks(f.rows, places, g.rows) && Within(places, |f.rows|)
    ensures multiset(places) == multiset(AllPlaces(|f.rows|))
    ensures Ordering(k, f, keys) ==> StablySorted(k, f, keys, places)
  {
    var sorted := SortPlaces(k, f, keys, AllPlaces(|f.rows|));
    AllSorted(k, f, keys);
    var rows := [];
    for i := 0 to |sorted|
      invariant Picks(f.rows, sorted[..i], rows)
    {
      rows := rows + [f.rows[sorted[i]]];
    }
    assert sorted[..|sorted|] == sorted;
    g, places := Frame(f.cols, rows), sorted;
  }

  // ----- one partition's answers -----

  /** A window function over its source column; an exact source is a decimal one. */
  datatype Window = Window(k: Kernel, mean: seq<Float> -> Cell, sortKeys: seq<SortKey>, func: WindowFn,
                           source: Option<nat>, exact: bool)

  predicate Reads(w: Window, f: Frame) { w.source.Some? ==> w.source.value < |f.cols| }

  function ValueAt(w: Window, f: Frame, place: nat): Cell
    requires Rectangular(f) && Reads(w, f) && place < |f.rows|
  {
    if w.source.Some? then f.rows[place][w.source.value] else Null
  }

  /** The dense rank of a position: one more at each row its predecessor is not equal to. */
  function RankAt(w: Window, f: Frame, ordered: seq<nat>, i: nat): nat
    requires Rectangular(f) && Within(ordered, |f.rows|) && i < |ordered|
  {
    if i == 0 then 1
    else RankAt(w, f, ordered, i - 1) + if PlaceOrder(w.k, f, w.sortKeys, ordered[i - 1],
      ordered[i]).Equal? then 0 else 1
  }

  function AddedDecimal(k: Kernel, acc: string, v: Cell): string
  {
    if !Exact(v) then acc
    else
      var sum := k.decimalOp(Add, acc, DecimalText(k, v));
      if sum.Some? then sum.value else acc
  }

  function AddedFloat(k: Kernel, acc: Float, v: Cell): Float
  {
    if Numeric(v) then k.floatOp(Add, acc, AsNum(k, v).value) else acc
  }

  /** The running totals over the first `n` positions, exact over a decimal column. */
  function DecimalTotal(w: Window, f: Frame, ordered: seq<nat>, n: nat): string
    requires Rectangular(f) && Reads(w, f) && Within(ordered, |f.rows|) && n <= |ordered|
  {
    if n == 0 then "0" else AddedDecimal(w.k, DecimalTotal(w, f, ordered, n - 1), ValueAt(w, f, ordered[n - 1]))
  }

  function FloatTotal(w: Window, f: Frame, ordered: seq<nat>, n: nat): Float
    requires Rectangular(f) && Reads(w, f) && Within(ordered, |f.rows|) && n <= |ordered|
  {
    if n == 0 then w.k.ofInt(0) else AddedFloat(w.k, FloatTotal(w, f, ordered, n - 1), ValueAt(w, f, ordered[n - 1]))
  }

  function FloatsOf(w: Window, f: Frame, ordered: seq<nat>): seq<Float>
    requires Rectangular(f) && Reads(w, f) && Within(ordered, |f.rows|)
  {
    if ordered == [] then []
    else
      var v := ValueAt(w, f, ordered[0]);
      var x := if v.DecimalCell? then w.k.decimalToFloat(v.text) else AsNum(w.k, v);
      (if x.Some? then [x.value] else []) + FloatsOf(w, f, ordered[1..])
  }

  /** What the window function answers at one position of an ordered partition. */
  function WindowAt(w: Window, f: Frame, ordered: seq<nat>, i: nat): Cell
    requires Rectangular(f) && Reads(w, f) && Within(ordered, |f.rows|) && i < |ordered|
  {
    match w.func
    case RowNumber => IntCell(i + 1)
    case Rank => IntCell(RankAt(w, f, ordered, i))
    case Lag => if i == 0 then Null else ValueAt(w, f, ordered[i - 1])
    case Lead => if i + 1 == |ordered| then Null else ValueAt(w, f, ordered[i + 1])
    case CumulSum =>
      if w.exact then DecimalCell(DecimalTotal(w, f, ordered, i + 1)) else FloatCell(FloatTotal(w, f, ordered, i + 1))
    case RollingMean => w.mean(FloatsOf(w, f, ordered[(if i < 2 then 0 else i - 2)..i + 1]))
  }

  ghost predicate AnsweredTo(w: Window, f: Frame, ordered: seq<nat>, outs: seq<Cell>, n: nat)
    requires Rectangular(f) && Reads(w, f) && Within(ordered, |f.rows|) && n <= |ordered|
  {
    |outs| == n && forall j :: 0 <= j < n ==> outs[j] == WindowAt(w, f, ordered, j)
  }

  lemma AnsweredOneMore(w: Window, f: Frame, ordered: seq<nat>, outs: seq<Cell>, n: nat, out: Cell)
    requires Rectangular(f) && Reads(w, f) && Within(ordered, |f.rows|) && n < |ordered|
    requires AnsweredTo(w, f, ordered, outs, n) && out == WindowAt(w, f, ordered, n)
    ensures AnsweredTo(w, f, ordered, outs + [out], n + 1)
  {
  }

  /** The answers of one partition, in one pass with running accumulators. */
  method Answers(w: Window, f: Frame, ordered: seq<nat>) returns (outs: seq<Cell>)
    requires Rectangular(f) && Reads(w, f) && Within(ordered, |f.rows|)
    ensures |outs| == |ordered| && forall i :: 0 <= i < |ordered| ==> outs[i] == WindowAt(w, f, ordered, i)
  {
    outs := [];
    var rank, decimal, total := 0, "0", w.k.ofInt(0);
    for i := 0 to |ordered|
      invariant AnsweredTo(w, f, ordered, outs, i)
      invariant i > 0 ==> rank == RankAt(w, f, ordered, i - 1)
      invariant decimal == DecimalTotal(w, f, ordered, i) && total == FloatTotal(w, f, ordered, i)
    {
      var v := ValueAt(w, f, ordered[i]);
      if i == 0 {
        rank := 1;
      } else if !PlaceOrder(w.k, f, w.sortKeys, ordered[i - 1], ordered[i]).Equal? {
        rank := rank + 1;
      }
      decimal := AddedDecimal(w.k, decimal, v);
      total := AddedFloat(w.k, total, v);
      var out := match w.func
        case RowNumber => IntCell(i + 1)
        case Rank => IntCell(rank)
        case Lag => if i == 0 then Null else ValueAt(w, f, ordered[i - 1])
        case Lead => if i + 1 == |ordered| then Null else ValueAt(w, f, ordered[i + 1])
        case CumulSum => if w.exact then DecimalCell(decimal) else FloatCell(total)
        case RollingMean => w.mean(FloatsOf(w, f, ordered[(if i < 2 then 0 else i - 2)..i + 1]));
      AnsweredOneMore(w, f, ordered, outs, i, out);
      outs := outs + [out];
    }
  }

  // ----- every row's answer, in its place -----

  function IndexIn(s: seq<nat>, x: nat): (i: nat)
    requires x in s
    ensures i < |s| && s[i] == x
  {
    if s[0] == x then 0 else IndexIn(s[1..], x) + 1
  }

  /** The partition of a row, ordered. */
  function OrderedFor(w: Window, f: Frame, keys: seq<string>, key: string): (s: seq<nat>)
    requires Rectangular(f) && |keys| == |f.rows|
    ensures Within(s, |f.rows|) && multiset(s) == multiset(Members(keys, key))
  {
    MembersExact(keys, key);
    SortPlaces(w.k, f, w.sortKeys, Members(keys, key))
  }

  lemma OrderedHolds(w: Window, f: Frame, keys: seq<string>, i: nat)
    requires Rectangular(f) && |keys| == |f.rows| && i < |keys|
    ensures i in OrderedFor(w, f, keys, keys[i])
  {
    MembersExact(keys, keys[i]);
    assert i in multiset(OrderedFor(w, f, keys, keys[i]));
  }

  /** A row's answer: the window function at its position in its ordered partition. */
  function AnswerFor(w: Window, f: Frame, keys: seq<string>, i: nat): Cell
    requires Rectangular(f) && Reads(w, f) && |keys| == |f.rows| && i < |keys|
  {
    OrderedHolds(w, f, keys, i);
    var ordered := OrderedFor(w, f, keys, keys[i]);
    WindowAt(w, f, ordered, IndexIn(ordered, i))
  }

  lemma {:induction false} CountOfMembers(keys: seq<string>, key: string, i: nat)
    ensures multiset(Members(keys, key))[i] == if i < |keys| && keys[i] == key then 1 else 0
  {
    if keys != [] {
      var n := |keys| - 1;
      CountOfMembers(keys[..n], key, i);
    }
  }

  lemma OrderedDistinct(w: Window, f: Frame, keys: seq<string>, key: string, p: nat, q: nat)
    requires Rectangular(f) && |keys| == |f.rows| && p < q < |OrderedFor(w, f, keys, key)|
    ensures OrderedFor(w, f, keys, key)[p] != OrderedFor(w, f, keys, key)[q]
  {
    var s := OrderedFor(w, f, keys, key);
    CountOfMembers(keys, key, s[p]);
    TwiceCounts(s, p, q);
  }

  lemma TwiceCounts(s: seq<nat>, p: nat, q: nat)
    requires p < q < |s|
    ensures s[p] == s[q] ==> multiset(s)[s[p]] >= 2
  {
    assert s == s[..q] + s[q..];
    assert s[p] in s[..q] && s[q] in s[q..];
    assert multiset(s) == multiset(s[..q]) + multiset(s[q..]);
    assert s[p] in multiset(s[..q]) && s[q] in multiset(s[q..]);
  }

  /** A position's row finds that position again. */
  lemma AnswerAtPosition(w: Window, f: Frame, keys: seq<string>, key: string, p: nat)
    requires Rectangular(f) && Reads(w, f) && |keys| == |f.rows| && p < |OrderedFor(w, f, keys, key)|
    ensures var i := OrderedFor(w, f, keys, key)[p];
      i < |keys| && keys[i] == key && AnswerFor(w, f, keys, i) == WindowAt(w, f, OrderedFor(w, f, keys, key), p)
  {
    var s := OrderedFor(w, f, keys, key);
    var i := s[p];
    MembersExact(keys, key);
    assert i in multiset(s);
    assert i in Members(keys, key);
    var q := IndexIn(s, i);
    if q < p { OrderedDistinct(w, f, keys, key, q, p); }
    if p < q { OrderedDistinct(w, f, keys, key, p, q); }
  }

  // ----- putting the answers back in place -----

  type Placed = (nat, Cell)

  function PlacesOf(cs: seq<Placed>): (s: seq<nat>)
    ensures |s| == |cs| && forall i :: 0 <= i < |cs| ==> s[i] == cs[i].0
  {
    if cs == [] then [] else [cs[0].0] + PlacesOf(cs[1..])
  }

  function InsertPlaced(x: Placed, cs: seq<Placed>): seq<Placed>
  {
    if cs == [] || x.0 <= cs[0].0 then [x] + cs else [cs[0]] + InsertPlaced(x, cs[1..])
  }

  function SortPlaced(cs: seq<Placed>): seq<Placed>
  {
    if cs == [] then [] else InsertPlaced(cs[0], SortPlaced(cs[1..]))
  }

  ghost predicate InPlaceOrder(cs: seq<Placed>)
  {
    forall i, j :: 0 <= i < j < |cs| ==> cs[i].0 <= cs[j].0
  }

  lemma {:induction false} InsertPlacedSorted(x: Placed, cs: seq<Placed>)
    requires InPlaceOrder(cs)
    ensures InPlaceOrder(InsertPlaced(x, cs)) && multiset(InsertPlaced(x, cs)) == multiset(cs) + multiset{x}
  {
    if cs != [] && x.0 > cs[0].0 {
      InsertPlacedSorted(x, cs[1..]);
      var rest := InsertPlaced(x, cs[1..]);
      assert cs == [cs[0]] + cs[1..];
      forall j | 0 <= j < |rest| ensures cs[0].0 <= rest[j].0 { InsertedOrOld(x, cs[1..], rest, j); }
    }
  }

  lemma InsertedOrOld(x: Placed, before: seq<Placed>, now: seq<Placed>, j: nat)
    requires multiset(now) == multiset(before) + multiset{x} && j < |now|
    ensures now[j] == x || now[j] in before
  {
    assert now[j] in multiset(now);
    assert now[j] == x || now[j] in multiset(before);
  }

  lemma {:induction false} SortPlacedSorted(cs: seq<Placed>)
    ensures InPlaceOrder(SortPlaced(cs)) && multiset(SortPlaced(cs)) == multiset(cs)
  {
    if cs != [] {
      SortPlacedSorted(cs[1..]);
      InsertPlacedSorted(cs[0], SortPlaced(cs[1..]));
      assert cs == [cs[0]] + cs[1..];
    }
  }

  lemma {:induction false} InsertPlacedPlaces(x: Placed, cs: seq<Placed>)
    ensures multiset(PlacesOf(InsertPlaced(x, cs))) == multiset(PlacesOf(cs)) + multiset{x.0}
  {
    if cs == [] || x.0 <= cs[0].0 {
      assert ([x] + cs)[1..] == cs;
    } else {
      InsertPlacedPlaces(x, cs[1..]);
      var rest := InsertPlaced(x, cs[1..]);
      assert ([cs[0]] + rest)[1..] == rest;
    }
  }

  lemma {:induction false} SortPlacedPlaces(cs: seq<Placed>)
    ensures multiset(PlacesOf(SortPlaced(cs))) == multiset(PlacesOf(cs))
  {
    if cs != [] {
      SortPlacedPlaces(cs[1..]);
      InsertPlacedPlaces(cs[0], SortPlaced(cs[1..]));
    }
  }

  /** In order and each place below `n` exactly once: the places are 0, 1, 2, and so on. */
  lemma {:induction false} Enumerates(s: seq<nat>, n: nat)
    requires forall i, j :: 0 <= i < j < |s| ==> s[i] <= s[j]
    requires forall i: nat :: multiset(s)[i] == if i < n then 1 else 0
    ensures |s| == n && forall i :: 0 <= i < n ==> s[i] == i
    decreases n
  {
    forall x | x in s ensures x < n { assert multiset(s)[x] > 0; }
    if n > 0 {
      LastIsGreatest(s, n);
      var m := |s| - 1;
      forall i: nat ensures multiset(s[..m])[i] == if i < n - 1 then 1 else 0 { CountWithoutLast(s, i); }
      Enumerates(s[..m], n - 1);
    }
  }

  lemma LastIsGreatest(s: seq<nat>, n: nat)
    requires n > 0 && (forall i, j :: 0 <= i < j < |s| ==> s[i] <= s[j]) && (forall x :: x in s ==> x < n)
    requires multiset(s)[n - 1] == 1
    ensures s != [] && s[|s| - 1] == n - 1
  {
    assert n - 1 in multiset(s);
    var k :| 0 <= k < |s| && s[k] == n - 1;
    assert s[|s| - 1] in s;
  }

  lemma CountWithoutLast(s: seq<nat>, i: nat)
    requires s != []
    ensures multiset(s)[i] == multiset(s[..|s| - 1])[i] + if i == s[|s| - 1] then 1 else 0
  {
    assert s == s[..|s| - 1] + [s[|s| - 1]];
  }

  /** The places of the groups of some keys. */
  ghost function GroupedPlaces(keys: seq<string>, order: seq<string>): multiset<nat>
  {
    if order == [] then multiset{}
    else GroupedPlaces(keys, order[..|order| - 1]) + multiset(Members(keys, order[|order| - 1]))
  }

  ghost predicate KeysDistinct(order: seq<string>)
  {
    forall g, h :: 0 <= g < h < |order| ==> order[g] != order[h]
  }

  lemma KeysDistinctFront(front: seq<string>, last: string)
    requires KeysDistinct(front + [last])
    ensures KeysDistinct(front) && last !in front
  {
    forall g | 0 <= g < |front| ensures front[g] != last {
      assert (front + [last])[g] == front[g] && (front + [last])[|front|] == last;
    }
    forall g, h | 0 <= g < h < |front| ensures front[g] != front[h] {
      assert (front + [last])[g] == front[g] && (front + [last])[h] == front[h];
    }
  }

  lemma {:induction false} GroupedCount(keys: seq<string>, order: seq<string>, i: nat)
    requires KeysDistinct(order)
    ensures GroupedPlaces(keys, order)[i] == if i < |keys| && keys[i] in order then 1 else 0
  {
    if order != [] {
      var n := |order| - 1;
      assert order == order[..n] + [order[n]];
      KeysDistinctFront(order[..n], order[n]);
      GroupedCount(keys, order[..n], i);
      CountOfMembers(keys, order[n], i);
      GroupedSnoc(keys, order[..n], order[n], i);
      if i < |keys| { KeyInSnoc(order[..n], order[n], keys[i]); }
    }
  }

  lemma GroupedSnoc(keys: seq<string>, front: seq<string>, last: string, i: nat)
    ensures GroupedPlaces(keys, front + [last])[i] == GroupedPlaces(keys, front)[i] + multiset(Members(keys, last))[i]
  {
    assert (front + [last])[..|front|] == front;
  }

  lemma KeyInSnoc(front: seq<string>, last: string, key: string)
    requires last !in front
    ensures key in front + [last] <==> (key in front || key == last)
    ensures key in front ==> key != last
  {
  }

  /** Each placed answer is its own row's. */
  ghost predicate Answered(w: Window, f: Frame, keys: seq<string>, cs: seq<Placed>)
    requires Rectangular(f) && Reads(w, f) && |keys| == |f.rows|
  {
    forall p :: 0 <= p < |cs| ==> cs[p].0 < |keys| && cs[p].1 == AnswerFor(w, f, keys, cs[p].0)
  }

  method Zip(ordered: seq<nat>, outs: seq<Cell>) returns (cs: seq<Placed>)
    requires |ordered| == |outs|
    ensures |cs| == |ordered| && PlacesOf(cs) == ordered && forall p :: 0 <= p < |cs| ==> cs[p] == (ordered[p], outs[p])
  {
    cs := [];
    for i := 0 to |ordered|
      invariant |cs| == i && forall p :: 0 <= p < i ==> cs[p] == (ordered[p], outs[p])
    {
      cs := cs + [(ordered[i], outs[i])];
    }
  }

  /** One partition's answers, placed. */
  method PartitionAnswers(w: Window, f: Frame, keys: seq<string>, key: string, members: seq<nat>)
    returns (cs: seq<Placed>)
    requires Rectangular(f) && Reads(w, f) && |keys| == |f.rows| && members == Members(keys, key)
    ensures Answered(w, f, keys, cs) && multiset(PlacesOf(cs)) == multiset(members)
  {
    MembersExact(keys, key);
    var ordered := SortPlaces(w.k, f, w.sortKeys, members);
    var outs := Answers(w, f, ordered);
    cs := Zip(ordered, outs);
    forall p | 0 <= p < |cs| ensures cs[p].0 < |keys| && cs[p].1 == AnswerFor(w, f, keys, cs[p].0) {
      AnswerAtPosition(w, f, keys, key, p);
    }
  }

  lemma {:induction false} PlacesConcat(a: seq<Placed>, b: seq<Placed>)
    ensures PlacesOf(a + b) == PlacesOf(a) + PlacesOf(b)
  {
  }

  /** Every partition's answers, partition by partition. */
  method Computed(w: Window, f: Frame, keys: seq<string>, order: seq<string>, groups: map<string, seq<nat>>)
    returns (cs: seq<Placed>)
    requires Rectangular(f) && Reads(w, f) && |keys| == |f.rows|
    requires forall key :: key in order ==> key in groups && groups[key] == Members(keys, key)
    ensures Answered(w, f, keys, cs)
    ensures multiset(PlacesOf(cs)) == GroupedPlaces(keys, order)
  {
    cs := [];
    for g := 0 to |order|
      invariant Answered(w, f, keys, cs)
      invariant multiset(PlacesOf(cs)) == GroupedPlaces(keys, order[..g])
    {
      assert order[g] in order;
      var more := PartitionAnswers(w, f, keys, order[g], groups[order[g]]);
      GroupAppended(w, f, keys, order, g, cs, more);
      cs := cs + more;
    }
    assert order[..|order|] == order;
  }

  lemma GroupAppended(w: Window, f: Frame, keys: seq<string>, order: seq<string>, g: nat, cs: seq<Placed>,
                      more: seq<Placed>)
    requires Rectangular(f) && Reads(w, f) && |keys| == |f.rows| && g < |order|
    requires Answered(w, f, keys, cs) && Answered(w, f, keys, more)
    requires multiset(PlacesOf(cs)) == GroupedPlaces(keys, order[..g])
      && multiset(PlacesOf(more)) == multiset(Members(keys, order[g]))
    ensures Answered(w, f, keys, cs + more) && multiset(PlacesOf(cs + more)) == GroupedPlaces(keys, order[..g + 1])
  {
    PlacesConcat(cs, more);
    assert multiset(PlacesOf(cs) + PlacesOf(more)) == multiset(PlacesOf(cs)) + multiset(PlacesOf(more));
    GroupedOneMore(keys, order, g);
  }

  lemma GroupedOneMore(keys: seq<string>, order: seq<string>, g: nat)
    requires g < |order|
    ensures GroupedPlaces(keys, order[..g + 1]) == GroupedPlaces(keys, order[..g]) + multiset(Members(keys, order[g]))
  {
    assert order[..g + 1][..g] == order[..g];
  }

  /** In place order, the answers are the rows' answers one by one. */
  lemma SortedAnswers(w: Window, f: Frame, keys: seq<string>, order: seq<string>, cs: seq<Placed>)
    requires Rectangular(f) && Reads(w, f) && |keys| == |f.rows| && Answered(w, f, keys, cs)
    requires EachOnce(order, keys) && multiset(PlacesOf(cs)) == GroupedPlaces(keys, order)
    ensures |SortPlaced(cs)| == |keys|
    ensures forall p :: 0 <= p < |keys| ==> SortPlaced(cs)[p] == (p, AnswerFor(w, f, keys, p))
  {
    var sorted := SortPlaced(cs);
    SortPlacedSorted(cs);
    SortPlacedPlaces(cs);
    forall i: nat ensures multiset(PlacesOf(sorted))[i] == if i < |keys| then 1 else 0 {
      GroupedCount(keys, order, i);
      assert i < |keys| ==> keys[i] in keys;
    }
    Enumerates(PlacesOf(sorted), |keys|);
    forall p | 0 <= p < |sorted| ensures sorted[p] == (p, AnswerFor(w, f, keys, p)) {
      assert PlacesOf(sorted)[p] == p;
      assert sorted[p] in multiset(sorted);
      assert sorted[p] in cs;
    }
  }

  /** The rows' answers, one by one. */
  ghost predicate AllAnswers(w: Window, f: Frame, keys: seq<string>, cells: seq<Cell>)
    requires Rectangular(f) && Reads(w, f) && |keys| == |f.rows|
  {
    |cells| == |keys| && forall i :: 0 <= i < |keys| ==> cells[i] == AnswerFor(w, f, keys, i)
  }

  function CellsOf(cs: seq<Placed>): (cells: seq<Cell>)
    ensures |cells| == |cs| && forall i :: 0 <= i < |cs| ==> cells[i] == cs[i].1
  {
    if cs == [] then [] else [cs[0].1] + CellsOf(cs[1..])
  }

  lemma SortedCells(w: Window, f: Frame, keys: seq<string>, order: seq<string>, cs: seq<Placed>)
    requires Rectangular(f) && Reads(w, f) && |keys| == |f.rows| && Answered(w, f, keys, cs)
    requires EachOnce(order, keys) && multiset(PlacesOf(cs)) == GroupedPlaces(keys, order)
    ensures AllAnswers(w, f, keys, CellsOf(SortPlaced(cs)))
  {
    SortedAnswers(w, f, keys, order, cs);
  }

  // ----- the verb -----

  /** The places of the named columns the schema has; an unknown name is skipped. */
  function PresentIndexes(cols: Schema, names: seq<string>): (idxs: seq<nat>)
    ensures Within(idxs, |cols|)
  {
    if names == [] then []
    else
      var i := ColIndex(cols, names[0]);
      (if i.Some? then [i.value] else []) + PresentIndexes(cols, names[1..])
  }

  /** Each row's identity over the partition columns. */
  function PartitionKeys(c: Columns, f: Frame, partitionBy: seq<string>): (keys: seq<string>)
    requires Rectangular(f)
    ensures |keys| == |f.rows|
  {
    KeysOf(c, f.rows, PresentIndexes(f.cols, partitionBy))
  }

  function WindowType(w: Window, cols: Schema): ColumnType
    requires w.source.Some? ==> w.source.value < |cols|
  {
    match w.func
    case RowNumber | Rank => TInt
    case CumulSum => if w.exact then TDecimal else TFloat
    case RollingMean => TFloat
    case Lag | Lead => if w.source.Some? then cols[w.source.value].columnType else TStr
  }

  function WindowUnit(w: Window, cols: Schema): Option<UnitOfMeasure>
    requires w.source.Some? ==> w.source.value < |cols|
  {
    if w.func.RowNumber? || w.func.Rank? || w.source.None? then None else cols[w.source.value].unit
  }

  /** The window a call names: its source column, exact over a decimal one. */
  function WindowOf(k: Kernel, mean: seq<Float> -> Cell, cols: Schema, sortKeys: seq<SortKey>, func: WindowFn,
                    of: string): (w: Window)
    ensures w.source.Some? ==> w.source.value < |cols|
  {
    var i := ColIndex(cols, of);
    Window(k, mean, sortKeys, func, i, i.Some? && cols[i.value].columnType.TDecimal?)
  }

  /** Partition, order, answer, and put back in row order. */
  method WindowCells(w: Window, f: Frame, keys: seq<string>) returns (cells: seq<Cell>)
    requires Rectangular(f) && Reads(w, f) && |keys| == |f.rows|
    ensures AllAnswers(w, f, keys, cells)
  {
    var order, groups := Partition(keys);
    var computed := Computed(w, f, keys, order, groups);
    SortedCells(w, f, keys, order, computed);
    cells := CellsOf(SortPlaced(computed));
  }

  method Appended(rows: seq<Row>, cells: seq<Cell>) returns (out: seq<Row>)
    requires |rows| == |cells|
    ensures |out| == |rows| && forall i :: 0 <= i < |rows| ==> out[i] == rows[i] + [cells[i]]
  {
    out := [];
    for i := 0 to |rows|
      invariant |out| == i && forall j :: 0 <= j < i ==> out[j] == rows[j] + [cells[j]]
    {
      out := out + [rows[i] + [cells[i]]];
    }
  }

  /** Every row, in its place, with its answer behind it. */
  ghost predicate RowsAnswered(w: Window, f: Frame, keys: seq<string>, rows: seq<Row>)
    requires Rectangular(f) && Reads(w, f) && |keys| == |f.rows|
  {
    |rows| == |f.rows| && forall i :: 0 <= i < |f.rows| ==> rows[i] == f.rows[i] + [AnswerFor(w, f, keys, i)]
  }

  lemma AnsweredRows(w: Window, f: Frame, keys: seq<string>, cells: seq<Cell>, rows: seq<Row>)
    requires Rectangular(f) && Reads(w, f) && |keys| == |f.rows| == |rows| && AllAnswers(w, f, keys, cells)
    requires forall i :: 0 <= i < |rows| ==> rows[i] == f.rows[i] + [cells[i]]
    ensures RowsAnswered(w, f, keys, rows)
  {
  }

  /** Every input row comes back in its own place with its own answer behind it. */
  method EvalWindow(c: Columns, k: Kernel, mean: seq<Float> -> Cell, f: Frame, partitionBy: seq<string>,
                    sortKeys: seq<SortKey>,
                    func: WindowFn, of: string, name: string) returns (r: Result<Frame>)
    requires Rectangular(f)
    ensures var w := WindowOf(k, mean, f.cols, sortKeys, func, of);
      var keys := PartitionKeys(c, f, partitionBy);
      if w.source.None? && !func.RowNumber? && !func.Rank? then r == Err(UnknownColumn(of))
      else r.Ok? && r.value.cols == f.cols + [Stated(name, WindowType(w, f.cols), WindowUnit(w, f.cols))]
           && RowsAnswered(w, f, keys, r.value.rows)
  {
    var w := WindowOf(k, mean, f.cols, sortKeys, func, of);
    if w.source.None? && !func.RowNumber? && !func.Rank? {
      return Err(UnknownColumn(of));
    }
    var keys := PartitionKeys(c, f, partitionBy);
    var cells := WindowCells(w, f, keys);
    var rows := Appended(f.rows, cells);
    AnsweredRows(w, f, keys, cells, rows);
    r := Ok(Frame(f.cols + [Stated(name, WindowType(w, f.cols), WindowUnit(w, f.cols))], rows));
  }

  // ----- row numbers -----

  lemma SameCount(w: Window, f: Frame, keys: seq<string>, key: string)
    requires Rectangular(f) && |keys| == |f.rows|
    ensures |OrderedFor(w, f, keys, key)| == |Members(keys, key)|
  {
    var s, m := OrderedFor(w, f, keys, key), Members(keys, key);
    assert |multiset(s)| == |s| && |multiset(m)| == |m|;
  }

  /** Over a partition of k rows, each row's number is one of 1 to k. */
  lemma RowNumberOf(w: Window, f: Frame, keys: seq<string>, i: nat) returns (n: nat)
    requires Rectangular(f) && Reads(w, f) && |keys| == |f.rows| && w.func.RowNumber? && i < |keys|
    ensures 1 <= n <= |Members(keys, keys[i])| && AnswerFor(w, f, keys, i) == IntCell(n)
    ensures n <= |OrderedFor(w, f, keys, keys[i])| && OrderedFor(w, f, keys, keys[i])[n - 1] == i
  {
    SameCount(w, f, keys, keys[i]);
    OrderedHolds(w, f, keys, i);
    n := IndexIn(OrderedFor(w, f, keys, keys[i]), i) + 1;
  }

  /** And each of 1 to k is the number of exactly one row of the partition. */
  lemma RowNumbersAreABijection(w: Window, f: Frame, keys: seq<string>, key: string, n: nat) returns (i: nat)
    requires Rectangular(f) && Reads(w, f) && |keys| == |f.rows| && w.func.RowNumber? && 1 <= n <= |Members(keys, key)|
    ensures i < |keys| && keys[i] == key && AnswerFor(w, f, keys, i) == IntCell(n)
    ensures forall j: nat :: j < |keys| && keys[j] == key && AnswerFor(w, f, keys, j) == IntCell(n) ==> j == i
  {
    SameCount(w, f, keys, key);
    i := OrderedFor(w, f, keys, key)[n - 1];
    AnswerAtPosition(w, f, keys, key, n - 1);
    forall j: nat | j < |keys| && keys[j] == key && AnswerFor(w, f, keys, j) == IntCell(n) ensures j == i {
      var m := RowNumberOf(w, f, keys, j);
    }
  }

  /** Where the sort keys order the rows, a partition's row numbers follow them, ties in row order. */
  lemma RowNumbersFollowTheOrder(w: Window, f: Frame, keys: seq<string>, i: nat, j: nat)
    requires Rectangular(f) && Reads(w, f) && |keys| == |f.rows| && w.func.RowNumber? && Ordering(w.k, f, w.sortKeys)
    requires i < |keys| && j < |keys| && keys[i] == keys[j] && i != j && Before(w.k, f, w.sortKeys, i, j)
    ensures AnswerFor(w, f, keys, i).IntCell? && AnswerFor(w, f, keys, j).IntCell?
    ensures AnswerFor(w, f, keys, i).whole < AnswerFor(w, f, keys, j).whole
  {
    var m := RowNumberOf(w, f, keys, i);
    var n := RowNumberOf(w, f, keys, j);
    PartitionSorted(w, f, keys, keys[i]);
    NotBothBefore(w.k, f, w.sortKeys, i, j);
  }

  lemma PartitionSorted(w: Window, f: Frame, keys: seq<string>, key: string)
    requires Rectangular(f) && |keys| == |f.rows| && Ordering(w.k, f, w.sortKeys)
    ensures StablySorted(w.k, f, w.sortKeys, OrderedFor(w, f, keys, key))
  {
    MembersExact(keys, key);
    SortIsStable(w.k, f, w.sortKeys, Members(keys, key));
  }

  lemma NotBothBefore(k: Kernel, f: Frame, sortKeys: seq<SortKey>, i: nat, j: nat)
    requires Rectangular(f) && Ordering(k, f, sortKeys) && i < |f.rows| && j < |f.rows| && Before(k, f, sortKeys, i, j)
    ensures !Before(k, f, sortKeys, j, i)
  {
  }
}
