/** Rows whose cells fit their columns: the sort keys order them, so the sort is stable and row numbers
    follow it. */
module SortOrders {
  import opened Trees
  import opened Cells
  import opened Exprs
  import opened Typer
  import opened Derive
  import opened RowKeys
  import opened Verbs
  import opened Windows
  import Ordinal

  // ----- orders -----

  /** If the first is no worse than the second and the second than the third, then so is the first than the
      third, and it is equal to it only if all three are. */
  predicate Composes(ab: Order, bc: Order, ac: Order)
  {
    !ab.Greater? && !bc.Greater? ==> !ac.Greater? && (ac.Equal? ==> ab.Equal? && bc.Equal?)
  }

  ghost predicate TotalOrder<T(!new)>(compare: (T, T) -> Order)
  {
    (forall x, y :: compare(y, x) == Reversed(compare(x, y)))
    && forall x, y, z {:trigger compare(x, y), compare(y, z)} :: Composes(compare(x, y), compare(y, z), compare(x, z))
  }

  /** A text the decimal kernel reads: it compares with itself. */
  predicate ReadsAsDecimal(k: Kernel, text: string) { k.decimalCompare(text, text).Some? }

  function DecimalOrder(k: Kernel, x: string, y: string): Order
  {
    var c := k.decimalCompare(x, y);
    if c.Some? then c.value else Equal
  }

  /** The kernel's float comparison is a total order, and so is its decimal comparison over the texts it
      reads, any two of which it compares. */
  ghost predicate KernelOrders(k: Kernel)
  {
    TotalOrder(k.compareFloat)
    && (forall x, y :: ReadsAsDecimal(k, x) && ReadsAsDecimal(k, y) ==>
          k.decimalCompare(x, y).Some? && DecimalOrder(k, y, x) == Reversed(DecimalOrder(k, x, y)))
    && forall x, y, z {:trigger DecimalOrder(k, x, y), DecimalOrder(k, y, z)} ::
         ReadsAsDecimal(k, x) && ReadsAsDecimal(k, y) && ReadsAsDecimal(k, z) ==>
           Composes(DecimalOrder(k, x, y), DecimalOrder(k, y, z), DecimalOrder(k, x, z))
  }

  lemma TextReverses(a: string, b: string)
    ensures CompareText(b, a) == Reversed(CompareText(a, b))
  {
    Ordinal.LeqTotal(a, b);
    if Ordinal.Leq(a, b) && Ordinal.Leq(b, a) { Ordinal.LeqAntisymmetric(a, b); }
  }

  lemma TextComposes(a: string, b: string, c: string)
    ensures Composes(CompareText(a, b), CompareText(b, c), CompareText(a, c))
  {
    if a != b && b != c && Ordinal.Leq(a, b) && Ordinal.Leq(b, c) {
      Ordinal.LeqTransitive(a, b, c);
      if a == c { Ordinal.LeqAntisymmetric(a, b); }
    }
  }

  // ----- two cells of one column -----

  /** A cell of a column of type `ty`: null or of that type, and readable if it is a decimal. */
  predicate Sortable(k: Kernel, ty: ColumnType, c: Cell)
  {
    c.Null? || (HasType(c, ty) && (c.DecimalCell? ==> ReadsAsDecimal(k, c.text)))
  }

  lemma PresentReverses(k: Kernel, ty: ColumnType, a: Cell, b: Cell)
    requires KernelOrders(k) && HasType(a, ty) && HasType(b, ty) && Sortable(k, ty, a) && Sortable(k, ty, b)
    ensures CompareCells(k, a, b).Some? && CompareCells(k, b, a).Some?
    ensures CompareCells(k, b, a).value == Reversed(CompareCells(k, a, b).value)
  {
    match ty
    case TInt =>
    case TFloat =>
    case TBool =>
    case TStr => TextReverses(a.text, b.text);
    case TDate => TextReverses(a.text, b.text);
    case TInstant(_) => TextReverses(k.instantKey(a.text), k.instantKey(b.text));
    case TDecimal => assert DecimalOrder(k, b.text, a.text) == Reversed(DecimalOrder(k, a.text, b.text));
  }

  lemma PresentComposes(k: Kernel, ty: ColumnType, a: Cell, b: Cell, c: Cell)
    requires KernelOrders(k) && HasType(a, ty) && HasType(b, ty) && HasType(c, ty)
    requires Sortable(k, ty, a) && Sortable(k, ty, b) && Sortable(k, ty, c)
    ensures CompareCells(k, a, b).Some? && CompareCells(k, b, c).Some? && CompareCells(k, a, c).Some?
    ensures Composes(CompareCells(k, a, b).value, CompareCells(k, b, c).value, CompareCells(k, a, c).value)
  {
    PresentReverses(k, ty, a, b);
    PresentReverses(k, ty, b, c);
    PresentReverses(k, ty, a, c);
    match ty
    case TInt => FloatsCompose(k, k.ofInt(a.whole), k.ofInt(b.whole), k.ofInt(c.whole));
    case TFloat => FloatsCompose(k, a.float, b.float, c.float);
    case TBool =>
    case TStr => TextComposes(a.text, b.text, c.text);
    case TDate => TextComposes(a.text, b.text, c.text);
    case TInstant(_) => TextComposes(k.instantKey(a.text), k.instantKey(b.text), k.instantKey(c.text));
    case TDecimal =>
      assert Composes(DecimalOrder(k, a.text, b.text), DecimalOrder(k, b.text, c.text),
        DecimalOrder(k, a.text, c.text));
  }

  lemma FloatsCompose(k: Kernel, x: Float, y: Float, z: Float)
    requires KernelOrders(k)
    ensures Composes(k.compareFloat(x, y), k.compareFloat(y, z), k.compareFloat(x, z))
  {
  }

  lemma CellReverses(k: Kernel, ty: ColumnType, a: Cell, b: Cell, descending: bool)
    requires KernelOrders(k) && Sortable(k, ty, a) && Sortable(k, ty, b)
    ensures CompareAt(k, b, a, descending) == Reversed(CompareAt(k, a, b, descending))
  {
    if !a.Null? && !b.Null? { PresentReverses(k, ty, a, b); }
  }

  lemma CellComposes(k: Kernel, ty: ColumnType, a: Cell, b: Cell, c: Cell, descending: bool)
    requires KernelOrders(k) && Sortable(k, ty, a) && Sortable(k, ty, b) && Sortable(k, ty, c)
    ensures Composes(CompareAt(k, a, b, descending), CompareAt(k, b, c, descending), CompareAt(k, a, c, descending))
  {
    if !a.Null? && !b.Null? && !c.Null? {
      PresentComposes(k, ty, a, b, c);
      PresentComposes(k, ty, c, b, a);
      PresentReverses(k, ty, a, b);
      PresentReverses(k, ty, b, c);
      PresentReverses(k, ty, a, c);
    }
  }

  // ----- two rows -----

  ghost predicate RowSortable(k: Kernel, cols: Schema, row: Row)
  {
    |row| == |cols| && forall i :: 0 <= i < |row| ==> Sortable(k, cols[i].columnType, row[i])
  }

  /** How one sort key orders two rows. */
  function KeyOrder(k: Kernel, cols: Schema, key: SortKey, a: Row, b: Row): Order
    requires |a| == |cols| && |b| == |cols|
  {
    var i := ColIndex(cols, key.col);
    if i.Some? then CompareAt(k, a[i.value], b[i.value], key.descending) else Equal
  }

  lemma KeyReverses(k: Kernel, cols: Schema, key: SortKey, a: Row, b: Row)
    requires KernelOrders(k) && RowSortable(k, cols, a) && RowSortable(k, cols, b)
    ensures KeyOrder(k, cols, key, b, a) == Reversed(KeyOrder(k, cols, key, a, b))
  {
    var i := ColIndex(cols, key.col);
    if i.Some? { CellReverses(k, cols[i.value].columnType, a[i.value], b[i.value], key.descending); }
  }

  lemma KeyComposes(k: Kernel, cols: Schema, key: SortKey, a: Row, b: Row, c: Row)
    requires KernelOrders(k) && RowSortable(k, cols, a) && RowSortable(k, cols, b) && RowSortable(k, cols, c)
    ensures Composes(KeyOrder(k, cols, key, a, b), KeyOrder(k, cols, key, b, c), KeyOrder(k, cols, key, a, c))
  {
    var i := ColIndex(cols, key.col);
    if i.Some? { CellComposes(k, cols[i.value].columnType, a[i.value], b[i.value], c[i.value], key.descending); }
  }

  lemma RowStep(k: Kernel, cols: Schema, keys: seq<SortKey>, a: Row, b: Row)
    requires keys != [] && |a| == |cols| && |b| == |cols|
    ensures var first := KeyOrder(k, cols, keys[0], a, b);
      RowOrder(k, cols, keys, a, b) == if first.Equal? then RowOrder(k, cols, keys[1..], a, b) else first
  {
  }

  lemma {:induction false} RowReverses(k: Kernel, cols: Schema, keys: seq<SortKey>, a: Row, b: Row)
    requires KernelOrders(k) && RowSortable(k, cols, a) && RowSortable(k, cols, b)
    ensures RowOrder(k, cols, keys, b, a) == Reversed(RowOrder(k, cols, keys, a, b))
  {
    if keys != [] {
      RowStep(k, cols, keys, a, b);
      RowStep(k, cols, keys, b, a);
      KeyReverses(k, cols, keys[0], a, b);
      RowReverses(k, cols, keys[1..], a, b);
    }
  }

  lemma {:induction false} RowComposes(k: Kernel, cols: Schema, keys: seq<SortKey>, a: Row, b: Row, c: Row)
    requires KernelOrders(k) && RowSortable(k, cols, a) && RowSortable(k, cols, b) && RowSortable(k, cols, c)
    ensures Composes(RowOrder(k, cols, keys, a, b), RowOrder(k, cols, keys, b, c), RowOrder(k, cols, keys, a, c))
  {
    if keys != [] {
      RowStep(k, cols, keys, a, b);
      RowStep(k, cols, keys, b, c);
      RowStep(k, cols, keys, a, c);
      KeyComposes(k, cols, keys[0], a, b, c);
      KeyComposes(k, cols, keys[0], c, b, a);
      KeyReverses(k, cols, keys[0], a, b);
      KeyReverses(k, cols, keys[0], b, c);
      KeyReverses(k, cols, keys[0], a, c);
      RowComposes(k, cols, keys[1..], a, b, c);
    }
  }

  // ----- a frame that fits its schema -----

  /** Every decimal cell holds a text the decimal kernel reads. */
  ghost predicate DecimalsRead(k: Kernel, f: Frame)
  {
    forall i, j :: 0 <= i < |f.rows| && 0 <= j < |f.rows[i]| && f.rows[i][j].DecimalCell? ==>
      ReadsAsDecimal(k, f.rows[i][j].text)
  }

  lemma FittingRowSortable(k: Kernel, f: Frame, i: nat)
    requires Rectangular(f) && FrameFits(f) && DecimalsRead(k, f) && i < |f.rows|
    ensures RowSortable(k, f.cols, f.rows[i])
  {
    assert RowFits(f.cols, f.rows[i]);
  }

  /** Over a frame that fits its schema, any sort keys order the rows. */
  lemma FittingFrameOrders(k: Kernel, f: Frame, keys: seq<SortKey>)
    requires Rectangular(f) && FrameFits(f) && KernelOrders(k) && DecimalsRead(k, f)
    ensures Ordering(k, f, keys)
  {
    forall i: nat | i < |f.rows| ensures RowSortable(k, f.cols, f.rows[i]) { FittingRowSortable(k, f, i); }
    forall i: nat, j: nat | i < |f.rows| && j < |f.rows|
      ensures PlaceOrder(k, f, keys, j, i) == Reversed(PlaceOrder(k, f, keys, i, j))
    {
      RowReverses(k, f.cols, keys, f.rows[i], f.rows[j]);
    }
    forall i: nat, j: nat, h: nat | i < |f.rows| && j < |f.rows| && h < |f.rows|
      ensures Composes(PlaceOrder(k, f, keys, i, j), PlaceOrder(k, f, keys, j, h), PlaceOrder(k, f, keys, i, h))
    {
      RowComposes(k, f.cols, keys, f.rows[i], f.rows[j], f.rows[h]);
    }
  }

  /** So the sort of a frame that fits its schema is stable. */
  lemma FittingSortIsStable(k: Kernel, f: Frame, keys: seq<SortKey>, s: seq<nat>)
    requires Rectangular(f) && FrameFits(f) && KernelOrders(k) && DecimalsRead(k, f) && Increasing(s, |f.rows|)
    ensures StablySorted(k, f, keys, SortPlaces(k, f, keys, s))
  {
    FittingFrameOrders(k, f, keys);
    SortIsStable(k, f, keys, s);
  }

  /** And in each partition of it the row numbers follow the sort keys, ties in row order: of two rows the one
      that belongs before has the smaller number. */
  lemma FittingRowNumbers(w: Window, f: Frame, keys: seq<string>, i: nat, j: nat)
    requires Rectangular(f) && FrameFits(f) && KernelOrders(w.k) && DecimalsRead(w.k, f)
    requires Reads(w, f) && |keys| == |f.rows| && w.func.RowNumber?
    requires i < |keys| && j < |keys| && keys[i] == keys[j] && i != j
    ensures AnswerFor(w, f, keys, i).IntCell? && AnswerFor(w, f, keys, j).IntCell?
    ensures AnswerFor(w, f, keys, i).whole < AnswerFor(w, f, keys, j).whole <==> Before(w.k, f, w.sortKeys, i, j)
  {
    FittingFrameOrders(w.k, f, w.sortKeys);
    if Before(w.k, f, w.sortKeys, i, j) {
      RowNumbersFollowTheOrder(w, f, keys, i, j);
    } else {
      assert Before(w.k, f, w.sortKeys, j, i);
      RowNumbersFollowTheOrder(w, f, keys, j, i);
    }
  }
}
