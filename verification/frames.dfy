/** The tabular data the pipeline stages exchange, stated without pandas: a
    frame is a sequence of named columns of equal height, each carrying the
    dtype family pandas inferred for it. */
module Frames {
  import opened Base

  /** The dtype families the checks tell apart; `OtherKind` covers the rest
      (timestamps, for one). */
  datatype Kind = IntKind | FloatKind | BoolKind | ObjectKind | OtherKind

  /** One cell. Numbers are modelled by integers; `Null` is pandas' missing
      value, which is NaN in a numeric column and `None` in any other. */
  datatype Value = Null | Num(n: int) | Bool(b: bool) | Str(s: string)

  datatype Column = Column(name: string, kind: Kind, cells: seq<Value>)

  /** `height` is the row count, which a frame keeps even with no columns. */
  datatype Frame = Frame(cols: seq<Column>, height: nat)

  /** No name occurs after its first column. */
  predicate DistinctNames(cols: seq<Column>) {
    |cols| == 0 || (cols[0].name !in Names(cols[1..]) && DistinctNames(cols[1..]))
  }

  /** `DistinctNames` is the pairwise reading: no two columns share a name. */
  lemma {:induction false} DistinctNamesIsPairwise(cols: seq<Column>)
    ensures DistinctNames(cols) <==> forall i, j :: 0 <= i < j < |cols| ==> cols[i].name != cols[j].name
  {
    if |cols| > 0 {
      var tail := cols[1..];
      DistinctNamesIsPairwise(tail);
      if DistinctNames(cols) {
        forall i, j | 0 <= i < j < |cols| ensures cols[i].name != cols[j].name {
          assert cols[j] == tail[j - 1];
          if i == 0 {
            assert cols[j].name in Names(tail);
          } else {
            assert cols[i] == tail[i - 1];
          }
        }
      }
      if forall i, j :: 0 <= i < j < |cols| ==> cols[i].name != cols[j].name {
        forall i, j | 0 <= i < j < |tail| ensures tail[i].name != tail[j].name {
          assert tail[i] == cols[i + 1] && tail[j] == cols[j + 1];
        }
      }
    }
  }

  /** Every column has `height` cells and no two columns share a name. */
  predicate Valid(f: Frame) {
    && (forall i :: 0 <= i < |f.cols| ==> |f.cols[i].cells| == f.height)
    && DistinctNames(f.cols)
  }

  function Names(cols: seq<Column>): set<string> {
    set i | 0 <= i < |cols| :: cols[i].name
  }

  /** pandas' `df.empty`: no columns or no rows. */
  predicate IsEmpty(f: Frame) {
    |f.cols| == 0 || f.height == 0
  }

  /** Database-only columns that both validation and preprocessing drop first. */
  const Bookkeeping: set<string> := {"id", "created_at", "customer_id"}

  /** `df[name]`: the first column with that name, if any. */
  function Find(cols: seq<Column>, name: string): (r: Option<Column>)
    ensures r.Some? ==> r.value in cols && r.value.name == name
    ensures r.None? <==> name !in Names(cols)
  {
    if |cols| == 0 then None
    else if cols[0].name == name then Some(cols[0])
    else
      assert Names(cols) == {cols[0].name} + Names(cols[1..]);
      Find(cols[1..], name)
  }

  /** With distinct names, the column found is the one at the name's position. */
  lemma {:induction false} FindAt(cols: seq<Column>, i: nat)
    requires DistinctNames(cols) && i < |cols|
    ensures Find(cols, cols[i].name) == Some(cols[i])
  {
    if i > 0 {
      FindAt(cols[1..], i - 1);
    }
  }

  /** `df.drop(columns=drop, errors="ignore")` on the column list. */
  function DropColumns(cols: seq<Column>, drop: set<string>): (r: seq<Column>)
    ensures forall k :: 0 <= k < |r| ==> r[k] in cols && r[k].name !in drop
    ensures forall k :: 0 <= k < |cols| && cols[k].name !in drop ==> cols[k] in r
    ensures Names(r) == Names(cols) - drop
    ensures (forall k :: 0 <= k < |cols| ==> cols[k].name !in drop) ==> r == cols
    ensures DistinctNames(cols) ==> DistinctNames(r)
  {
    if |cols| == 0 then []
    else
      var rest := DropColumns(cols[1..], drop);
      assert forall k :: 1 <= k < |cols| ==> cols[k] == cols[1..][k - 1];
      assert Names(cols) == {cols[0].name} + Names(cols[1..]);
      if cols[0].name in drop then rest else [cols[0]] + rest
  }

  /** Dropping distributes over concatenation of column lists. */
  lemma {:induction false} DropColumnsAppend(a: seq<Column>, b: seq<Column>, drop: set<string>)
    ensures DropColumns(a + b, drop) == DropColumns(a, drop) + DropColumns(b, drop)
  {
    if |a| == 0 {
      assert a + b == b;
    } else {
      assert (a + b)[0] == a[0];
      assert (a + b)[1..] == a[1..] + b;
      DropColumnsAppend(a[1..], b, drop);
    }
  }

  /** The frame with the bookkeeping columns removed, rows untouched. */
  function WithoutBookkeeping(f: Frame): (r: Frame)
    ensures r.height == f.height
    ensures Names(r.cols) == Names(f.cols) - Bookkeeping
    ensures forall k :: 0 <= k < |r.cols| ==> r.cols[k] in f.cols && r.cols[k].name !in Bookkeeping
    ensures forall k :: 0 <= k < |f.cols| && f.cols[k].name !in Bookkeeping ==> f.cols[k] in r.cols
    ensures Valid(f) ==> Valid(r)
  {
    Frame(DropColumns(f.cols, Bookkeeping), f.height)
  }
}
