/** `validate_df`: a fixed sequence of checks of a batch against the schema
    contract. The first failing stage decides the reason; an absent or empty
    batch is skipped before any check runs. */
module SanityCheck {
  import opened Base
  import opened Frames
  import opened Schemas

  /** What `validate_df` raises, by stage. `Incomparable` is the `TypeError`
      pandas raises when a minimum is compared with text. */
  datatype Reason =
    | MissingColumns(columns: set<string>)
    | NullValues
    | TypeMismatch(column: string, expected: string)
    | BelowMinimum(column: string, min: int)
    | Incomparable(column: string, min: int)

  /** `Skipped` is the `False` return, `Passed` the `True` one, `Failed` the exception. */
  datatype Verdict = Skipped | Passed | Failed(reason: Reason)

  // ---------------------------------------------------------------------
  // The four stages, each stated as a predicate on the batch after the
  // bookkeeping columns are gone.
  // ---------------------------------------------------------------------

  /** Stage 1: every required column is there. */
  predicate ColumnsPresent(f: Frame, s: Schema) {
    ValidatorRequired(s) <= Names(f.cols)
  }

  /** Stage 2: no required column holds a missing value. */
  predicate NullFree(f: Frame, s: Schema) {
    forall k :: 0 <= k < |f.cols| && f.cols[k].name in ValidatorRequired(s) ==> Null !in f.cols[k].cells
  }

  /** Whether a column of dtype family `k` passes the declared kind: `int`
      wants an integer dtype, `float` any numeric dtype (pandas counts bool as
      numeric), `boolean` a bool dtype, `string` an object dtype. Any other
      declared kind is not checked. */
  predicate KindAccepts(expected: string, k: Kind) {
    if expected == "int" then k == IntKind
    else if expected == "float" then k == IntKind || k == FloatKind || k == BoolKind
    else if expected == "boolean" then k == BoolKind
    else if expected == "string" then k == ObjectKind
    else true
  }

  /** One `dtypes` entry holds when its column is absent or has an accepted kind. */
  predicate DtypeHolds(f: Frame, entry: (string, string)) {
    match Find(f.cols, entry.0)
    case None => true
    case Some(c) => KindAccepts(entry.1, c.kind)
  }

  /** Stage 3. */
  predicate TypesCompatible(f: Frame, dtypes: seq<(string, string)>) {
    forall i :: 0 <= i < |dtypes| ==> DtypeHolds(f, dtypes[i])
  }

  /** `cell < min` as pandas evaluates it element-wise: missing values compare
      false, booleans count as 0 and 1. */
  predicate Below(v: Value, min: int) {
    match v
    case Num(n) => n < min
    case Bool(b) => (if b then 1 else 0) < min
    case _ => false
  }

  /** A constrained column passes when it has no text (which would make the
      comparison raise) and no cell strictly below the minimum. */
  predicate ColumnMeets(c: Column, min: int) {
    forall v :: v in c.cells ==> !v.Str? && !Below(v, min)
  }

  /** One `constraints` entry holds when its column is absent, it has no
      `min`, or the column meets it. */
  predicate ConstraintHolds(f: Frame, entry: (string, Rule)) {
    match Find(f.cols, entry.0)
    case None => true
    case Some(c) => entry.1.min.None? || ColumnMeets(c, entry.1.min.value)
  }

  /** Stage 4. */
  predicate ConstraintsHold(f: Frame, constraints: seq<(string, Rule)>) {
    forall i :: 0 <= i < |constraints| ==> ConstraintHolds(f, constraints[i])
  }

  /** Entry `i` is the first `dtypes` entry from entry `k` on that does
      not hold. */
  predicate FirstFailingDtype(f: Frame, dtypes: seq<(string, string)>, k: nat, i: int) {
    && k <= i < |dtypes|
    && !DtypeHolds(f, dtypes[i])
    && forall j :: k <= j < i ==> DtypeHolds(f, dtypes[j])
  }

  /** Entry `i` is the first `constraints` entry from entry `k` on that
      does not hold. */
  predicate FirstFailingConstraint(f: Frame, constraints: seq<(string, Rule)>, k: nat, i: int) {
    && k <= i < |constraints|
    && !ConstraintHolds(f, constraints[i])
    && forall j :: k <= j < i ==> ConstraintHolds(f, constraints[j])
  }

  // ---------------------------------------------------------------------
  // The checks as the source runs them.
  // ---------------------------------------------------------------------

  /** `df[required_columns].isnull().any().any()`. */
  function HasNull(cols: seq<Column>, required: set<string>): (r: bool)
    ensures r <==> exists k :: 0 <= k < |cols| && cols[k].name in required && Null in cols[k].cells
  {
    if |cols| == 0 then false
    else
      assert forall k :: 1 <= k < |cols| ==> cols[k] == cols[1..][k - 1];
      (cols[0].name in required && Null in cols[0].cells) || HasNull(cols[1..], required)
  }

  /** The loop over `dtypes` from entry `k` on: the first entry whose column
      is present with a rejected kind raises. */
  function TypeCheckFrom(f: Frame, dtypes: seq<(string, string)>, k: nat): (r: Option<Reason>)
    requires k <= |dtypes|
    decreases |dtypes| - k
    ensures r.None? <==> forall i :: k <= i < |dtypes| ==> DtypeHolds(f, dtypes[i])
    ensures r.Some? ==> exists i :: FirstFailingDtype(f, dtypes, k, i)
                                   && r.value == TypeMismatch(dtypes[i].0, dtypes[i].1)
  {
    if k == |dtypes| then None
    else if DtypeHolds(f, dtypes[k]) then
      assert forall i :: FirstFailingDtype(f, dtypes, k + 1, i) ==> FirstFailingDtype(f, dtypes, k, i);
      TypeCheckFrom(f, dtypes, k + 1)
    else
      assert FirstFailingDtype(f, dtypes, k, k);
      Some(TypeMismatch(dtypes[k].0, dtypes[k].1))
  }

  /** `(df[col] < min).any()` for one column: text raises before any result. */
  function MinCheck(c: Column, min: int): (r: Option<Reason>)
    ensures r.None? <==> ColumnMeets(c, min)
    ensures r == Some(Incomparable(c.name, min)) <==> exists v :: v in c.cells && v.Str?
    ensures r == Some(BelowMinimum(c.name, min)) <==>
              (forall v :: v in c.cells ==> !v.Str?) && exists v :: v in c.cells && Below(v, min)
  {
    if exists v :: v in c.cells && v.Str? then Some(Incomparable(c.name, min))
    else if exists v :: v in c.cells && Below(v, min) then Some(BelowMinimum(c.name, min))
    else None
  }

  /** One `constraints` entry: an absent column or a rule without `min` is
      skipped, otherwise the column's minimum check decides. */
  function ConstraintCheck(f: Frame, entry: (string, Rule)): (r: Option<Reason>)
    ensures r.None? <==> ConstraintHolds(f, entry)
    ensures r.Some? ==> entry.1.min.Some?
                        && (r.value == BelowMinimum(entry.0, entry.1.min.value)
                            || r.value == Incomparable(entry.0, entry.1.min.value))
  {
    match Find(f.cols, entry.0)
    case None => None
    case Some(c) => if entry.1.min.None? then None else MinCheck(c, entry.1.min.value)
  }

  /** The loop over `constraints` from entry `k` on: the first entry that
      does not hold raises. */
  function ConstraintCheckFrom(f: Frame, constraints: seq<(string, Rule)>, k: nat): (r: Option<Reason>)
    requires k <= |constraints|
    decreases |constraints| - k
    ensures r.None? <==> forall i :: k <= i < |constraints| ==> ConstraintHolds(f, constraints[i])
    ensures r.Some? ==> exists i :: FirstFailingConstraint(f, constraints, k, i)
                                   && r == ConstraintCheck(f, constraints[i])
  {
    if k == |constraints| then None
    else match ConstraintCheck(f, constraints[k])
      case None =>
        assert forall i :: FirstFailingConstraint(f, constraints, k + 1, i) ==> FirstFailingConstraint(f, constraints, k, i);
        ConstraintCheckFrom(f, constraints, k + 1)
      case Some(reason) =>
        assert FirstFailingConstraint(f, constraints, k, k);
        Some(reason)
  }

  /** The checks that follow the empty-batch test, in the source's order.
      The reason reported is that of the first failing stage, and the batch
      passes exactly when all four stages hold. */
  function RunChecks(d: Frame, s: Schema): (v: Verdict)
    ensures v != Skipped
    ensures v.Failed? && v.reason.MissingColumns? <==> !ColumnsPresent(d, s)
    ensures !ColumnsPresent(d, s) ==> v == Failed(MissingColumns(ValidatorRequired(s) - Names(d.cols)))
    ensures v == Failed(NullValues) <==> ColumnsPresent(d, s) && !NullFree(d, s)
    ensures v.Failed? && v.reason.TypeMismatch? <==>
              ColumnsPresent(d, s) && NullFree(d, s) && !TypesCompatible(d, s.dtypes)
    ensures v.Failed? && (v.reason.BelowMinimum? || v.reason.Incomparable?) <==>
              ColumnsPresent(d, s) && NullFree(d, s) && TypesCompatible(d, s.dtypes)
              && !ConstraintsHold(d, s.constraints)
    ensures v == Passed <==>
              ColumnsPresent(d, s) && NullFree(d, s) && TypesCompatible(d, s.dtypes)
              && ConstraintsHold(d, s.constraints)
    ensures v.Failed? && v.reason.TypeMismatch? ==>
              exists i :: FirstFailingDtype(d, s.dtypes, 0, i)
                          && v.reason == TypeMismatch(s.dtypes[i].0, s.dtypes[i].1)
    ensures v.Failed? && (v.reason.BelowMinimum? || v.reason.Incomparable?) ==>
              exists i :: FirstFailingConstraint(d, s.constraints, 0, i)
                          && Some(v.reason) == ConstraintCheck(d, s.constraints[i])
  {
    var missing := ValidatorRequired(s) - Names(d.cols);
    assert missing == {} <==> ColumnsPresent(d, s) by {
      if missing == {} {
        forall x | x in ValidatorRequired(s) ensures x in Names(d.cols) {
          assert x !in missing;
        }
      }
    }
    if missing != {} then Failed(MissingColumns(missing))
    else if HasNull(d.cols, ValidatorRequired(s)) then Failed(NullValues)
    else match TypeCheckFrom(d, s.dtypes, 0)
      case Some(reason) =>
        assert exists i :: FirstFailingDtype(d, s.dtypes, 0, i) && reason == TypeMismatch(s.dtypes[i].0, s.dtypes[i].1);
        Failed(reason)
      case None =>
        match ConstraintCheckFrom(d, s.constraints, 0)
        case Some(reason) =>
          assert reason.BelowMinimum? || reason.Incomparable?;
          assert exists i :: FirstFailingConstraint(d, s.constraints, 0, i) && Some(reason) == ConstraintCheck(d, s.constraints[i]);
          Failed(reason)
        case None => Passed
  }

  /** `validate_df(df)`: an absent or empty batch is skipped before any
      check; otherwise the bookkeeping columns are dropped and the checks run
      on what is left. */
  function ValidateDf(df: Option<Frame>, s: Schema): (v: Verdict)
    ensures v == Skipped <==> df.None? || IsEmpty(df.value)
    ensures df.Some? && !IsEmpty(df.value) ==> v == RunChecks(WithoutBookkeeping(df.value), s)
  {
    if df.None? || IsEmpty(df.value) then Skipped
    else RunChecks(WithoutBookkeeping(df.value), s)
  }

  // ---------------------------------------------------------------------
  // Properties relating several calls.
  // ---------------------------------------------------------------------

  /** Inserting a bookkeeping column anywhere in a non-empty batch never
      changes the verdict: it is dropped before any check looks at it. */
  lemma AddingBookkeepingColumnKeepsVerdict(f: Frame, i: nat, c: Column, s: Schema)
    requires !IsEmpty(f) && i <= |f.cols|
    requires c.name in Bookkeeping
    ensures ValidateDf(Some(Frame(f.cols[..i] + [c] + f.cols[i..], f.height)), s)
            == ValidateDf(Some(f), s)
  {
    var a, b := f.cols[..i], f.cols[i..];
    var g := Frame(a + [c] + b, f.height);
    assert DropColumns([c], Bookkeeping) == [];
    calc {
      DropColumns(a + [c] + b, Bookkeeping);
      { DropColumnsAppend(a + [c], b, Bookkeeping); }
      DropColumns(a + [c], Bookkeeping) + DropColumns(b, Bookkeeping);
      { DropColumnsAppend(a, [c], Bookkeeping); }
      DropColumns(a, Bookkeeping) + DropColumns(b, Bookkeeping);
      { DropColumnsAppend(a, b, Bookkeeping); assert a + b == f.cols; }
      DropColumns(f.cols, Bookkeeping);
    }
    assert WithoutBookkeeping(g) == WithoutBookkeeping(f);
  }

  /** A schema that demands a bookkeeping column rejects every non-empty
      batch at the presence stage, naming that column. */
  lemma RequiringBookkeepingColumnAlwaysFails(f: Frame, s: Schema, x: string)
    requires !IsEmpty(f)
    requires x in ValidatorRequired(s) && x in Bookkeeping
    ensures ValidateDf(Some(f), s).Failed?
    ensures ValidateDf(Some(f), s).reason.MissingColumns?
    ensures x in ValidateDf(Some(f), s).reason.columns
  {
    assert x !in Names(WithoutBookkeeping(f).cols);
  }

  /** A type failure names a column that is present, with one of the four
      recognised kinds that the column's dtype does not satisfy; an entry
      with any other kind never fails. */
  lemma TypeMismatchNamesPresentColumn(d: Frame, s: Schema)
    requires RunChecks(d, s).Failed? && RunChecks(d, s).reason.TypeMismatch?
    ensures var r := RunChecks(d, s).reason;
            && Find(d.cols, r.column).Some?
            && r.expected in {"int", "float", "boolean", "string"}
            && !KindAccepts(r.expected, Find(d.cols, r.column).value.kind)
  {
  }

  /** A minimum failure names a present column and the entry's `min`; text
      in the column is reported as incomparable, otherwise some cell lies
      strictly below the minimum. */
  lemma MinimumFailureNamesPresentColumn(d: Frame, s: Schema)
    requires RunChecks(d, s).Failed?
    requires RunChecks(d, s).reason.BelowMinimum? || RunChecks(d, s).reason.Incomparable?
    ensures var r := RunChecks(d, s).reason;
            && Find(d.cols, r.column).Some?
            && (exists i :: 0 <= i < |s.constraints| && s.constraints[i] == (r.column, Rule(Some(r.min))))
            && (r.Incomparable? <==> exists v :: v in Find(d.cols, r.column).value.cells && v.Str?)
            && (r.BelowMinimum? ==> exists v :: v in Find(d.cols, r.column).value.cells && Below(v, r.min))
  {
    var i :| FirstFailingConstraint(d, s.constraints, 0, i)
             && Some(RunChecks(d, s).reason) == ConstraintCheck(d, s.constraints[i]);
    assert s.constraints[i].1 == Rule(s.constraints[i].1.min);
  }

  /** A minimum is inclusive: a column meets `min` when its smallest value
      equals it, and fails as soon as one value is one below. */
  lemma MinimumIsInclusive(name: string, kind: Kind, cells: seq<Value>, min: int)
    requires forall v :: v in cells ==> v.Num? && v.n >= min
    ensures MinCheck(Column(name, kind, cells + [Num(min)]), min).None?
    ensures MinCheck(Column(name, kind, cells + [Num(min - 1)]), min) == Some(BelowMinimum(name, min))
  {
    assert Num(min - 1) in cells + [Num(min - 1)];
  }

  // A worked example: the constraint `quantity >= 0` and one row with
  // `quantity = -1`.

  const QuantitySchema := Schema(["quantity"], [], ["quantity"], "spend",
                                 [("quantity", "float")], [("quantity", Rule(Some(0)))])
  const NegativeQuantity := Column("quantity", FloatKind, [Num(-1)])
  const Spend := Column("spend", FloatKind, [Num(40)])
  const NegativeQuantityBatch := Frame([Column("id", IntKind, [Num(1)]), NegativeQuantity, Spend], 1)

  lemma NegativeQuantityBatchEarlyStages()
    ensures WithoutBookkeeping(NegativeQuantityBatch) == Frame([NegativeQuantity, Spend], 1)
    ensures ColumnsPresent(Frame([NegativeQuantity, Spend], 1), QuantitySchema)
    ensures NullFree(Frame([NegativeQuantity, Spend], 1), QuantitySchema)
    ensures TypesCompatible(Frame([NegativeQuantity, Spend], 1), QuantitySchema.dtypes)
  {
    var d := Frame([NegativeQuantity, Spend], 1);
    assert ValidatorRequired(QuantitySchema) == {"quantity", "spend"};
    assert NegativeQuantity in d.cols && Spend in d.cols;
    forall c | c in d.cols ensures Null !in c.cells {
      assert c == NegativeQuantity || c == Spend;
    }
    assert DtypeHolds(d, QuantitySchema.dtypes[0]);
  }

  lemma NegativeQuantityBatchConstraint()
    ensures FirstFailingConstraint(Frame([NegativeQuantity, Spend], 1), QuantitySchema.constraints, 0, 0)
    ensures ConstraintCheck(Frame([NegativeQuantity, Spend], 1), QuantitySchema.constraints[0])
            == Some(BelowMinimum("quantity", 0))
  {
    assert NegativeQuantity.cells[0] == Num(-1) && Below(NegativeQuantity.cells[0], 0);
    assert MinCheck(NegativeQuantity, 0) == Some(BelowMinimum("quantity", 0));
  }

  /** A batch holding `quantity = -1` under the constraint `quantity >= 0`
      fails at the minimum stage and names the column and the bound. */
  lemma NegativeQuantityViolatesMinimum()
    ensures ValidateDf(Some(NegativeQuantityBatch), QuantitySchema) == Failed(BelowMinimum("quantity", 0))
  {
    NegativeQuantityBatchEarlyStages();
    NegativeQuantityBatchConstraint();
  }
}
