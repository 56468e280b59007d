/** `preprocess`: projects a batch onto the schema's `features` list and the
    target, then normalises a few column types. It reads `features`, not the
    numerical and categorical lists the validator reads. */
module Transform {
  import opened Base
  import opened Frames
  import opened Schemas
  import Decimal
  import SanityCheck

  /** The one flag column that is cast to bool whenever it is selected. */
  const DiscountFlag := "discount_applied"

  /** What `preprocess` raises: required columns missing, or a target cell
      that `astype(float)` cannot convert. */
  datatype PreprocessError = MissingColumns(columns: set<string>) | NotFloat(cell: Value)

  /** The pair `(X, y)`; `y` is a float series, so only its cells are kept. */
  datatype Prepared = Prepared(x: Frame, y: seq<Value>)

  /** A missing cell is NaN in a numeric column and `None` in any other. */
  predicate NullIsNaN(kind: Kind) {
    kind == IntKind || kind == FloatKind
  }

  /** `astype(bool)` on one cell of a column of dtype family `kind`: the
      cell's truthiness. Zero, the empty text and `None` are false; NaN,
      like every other number and text, is true. */
  function AsBool(v: Value, kind: Kind): (r: Value)
    ensures r.Bool?
    ensures v.Bool? ==> r == v
    ensures v.Null? ==> (r.b <==> NullIsNaN(kind))
    ensures v.Num? ==> (r.b <==> v.n != 0)
    ensures v.Str? ==> (r.b <==> |v.s| > 0)
  {
    match v
    case Null => Bool(NullIsNaN(kind))
    case Num(n) => Bool(n != 0)
    case Bool(b) => Bool(b)
    case Str(s) => Bool(|s| > 0)
  }

  /** `astype(str)` on one cell of a column of dtype family `kind`: Python's
      `str` of the value. A number in a float column is written with a
      trailing ".0", any other number as `str(int)`; both read back as the
      number. A missing cell is written "nan" or "None". */
  function AsStr(v: Value, kind: Kind): (r: Value)
    ensures r.Str?
    ensures v.Str? ==> r == v
    ensures v.Bool? ==> r.s == (if v.b then "True" else "False")
    ensures v.Null? ==> r.s == (if NullIsNaN(kind) then "nan" else "None")
    ensures v.Num? && kind != FloatKind ==> Decimal.Parse(r.s) == Some(v.n)
    ensures v.Num? && kind == FloatKind ==>
              && |r.s| > 2 && r.s[|r.s| - 2..] == ".0"
              && Decimal.Parse(r.s[..|r.s| - 2]) == Some(v.n)
  {
    match v
    case Null => Str(if NullIsNaN(kind) then "nan" else "None")
    case Num(n) =>
      Decimal.ParseShow(n);
      var digits := Decimal.Show(n);
      if kind == FloatKind then
        assert (digits + ".0")[..|digits|] == digits;
        Str(digits + ".0")
      else Str(digits)
    case Bool(b) => Str(if b then "True" else "False")
    case Str(s) => Str(s)
  }

  /** `astype(float)` on one cell: numbers and missing values convert, bools
      become 0 or 1, text converts only when it spells a number. */
  function AsFloat(v: Value): (r: Option<Value>)
    ensures r.Some? ==> r.value.Num? || r.value.Null?
    ensures v.Num? || v.Null? ==> r == Some(v)
    ensures v.Bool? ==> r == Some(Num(if v.b then 1 else 0))
    ensures v.Str? ==> (r.Some? <==> Decimal.Parse(v.s).Some?)
    ensures v.Str? && r.Some? ==> r.value == Num(Decimal.Parse(v.s).value)
  {
    match v
    case Null => Some(Null)
    case Num(n) => Some(Num(n))
    case Bool(b) => Some(Num(if b then 1 else 0))
    case Str(s) =>
      match Decimal.Parse(s)
      case Some(n) => Some(Num(n))
      case None => None
  }

  /** A number written out by `astype(str)` outside a float column is read
      back by `astype(float)` as the same number, and a float column's text
      is read back once its ".0" is removed. */
  lemma AsFloatReadsAsStr(n: int, kind: Kind)
    ensures kind != FloatKind ==> AsFloat(AsStr(Num(n), kind)) == Some(Num(n))
    ensures kind == FloatKind ==>
              var s := AsStr(Num(n), kind).s;
              AsFloat(Str(s[..|s| - 2])) == Some(Num(n))
  {
  }

  /** `df[target].astype(float)`: converts every cell, or raises on the first
      one that does not convert. */
  function CastTarget(cells: seq<Value>): (r: Result<seq<Value>, PreprocessError>)
    ensures r.Ok? <==> forall k :: 0 <= k < |cells| ==> AsFloat(cells[k]).Some?
    ensures r.Ok? ==> |r.value| == |cells|
                      && forall k :: 0 <= k < |cells| ==> Some(r.value[k]) == AsFloat(cells[k])
    ensures r.Err? ==> exists k :: 0 <= k < |cells| && AsFloat(cells[k]).None?
                                   && r.error == NotFloat(cells[k])
  {
    if |cells| == 0 then Ok([])
    else
      match AsFloat(cells[0])
      case None => Err(NotFloat(cells[0]))
      case Some(v) =>
        match CastTarget(cells[1..])
        case Err(e) => Err(e)
        case Ok(rest) => Ok([v] + rest)
  }

  /** The casts applied to one selected column: the flag column to bool,
      then every categorical column to text. */
  function Normalize(c: Column, categorical: seq<string>): Column {
    var flagged := if c.name == DiscountFlag then Column(c.name, BoolKind, Map(v => AsBool(v, c.kind), c.cells)) else c;
    if c.name in categorical then Column(c.name, ObjectKind, Map(v => AsStr(v, flagged.kind), flagged.cells)) else flagged
  }

  /** What one column of `X` is, given the input column `src` it was selected
      from: categorical columns become text (the flag column passing through
      bool first), the flag column otherwise becomes bool, and every other
      column is left exactly as it was. */
  predicate CastOf(out: Column, src: Column, categorical: seq<string>) {
    && out.name == src.name
    && |out.cells| == |src.cells|
    && (src.name in categorical ==>
          out.kind == ObjectKind
          && (forall k :: 0 <= k < |src.cells| ==> out.cells[k].Str?)
          && (src.name != DiscountFlag ==> forall k :: 0 <= k < |src.cells| ==> out.cells[k] == AsStr(src.cells[k], src.kind))
          && (src.name == DiscountFlag ==> forall k :: 0 <= k < |src.cells| ==> out.cells[k] == AsStr(AsBool(src.cells[k], src.kind), BoolKind)))
    && (src.name !in categorical && src.name == DiscountFlag ==>
          out.kind == BoolKind
          && forall k :: 0 <= k < |src.cells| ==> out.cells[k] == AsBool(src.cells[k], src.kind))
    && (src.name !in categorical && src.name != DiscountFlag ==> out == src)
  }

  lemma NormalizeIsCast(c: Column, categorical: seq<string>)
    ensures CastOf(Normalize(c, categorical), c, categorical)
  {
  }

  /** A missing flag becomes `True` in a float column, where it is NaN,
      and `False` in an object column, where it is `None`. */
  lemma MissingFlagDependsOnDtype()
    ensures Normalize(Column(DiscountFlag, FloatKind, [Null]), []).cells == [Bool(true)]
    ensures Normalize(Column(DiscountFlag, ObjectKind, [Null]), []).cells == [Bool(false)]
  {
    NormalizeIsCast(Column(DiscountFlag, FloatKind, [Null]), []);
    NormalizeIsCast(Column(DiscountFlag, ObjectKind, [Null]), []);
  }

  /** `df[features].copy()` followed by the casts of `Normalize`. */
  function Project(d: Frame, features: seq<string>, categorical: seq<string>): (x: Frame)
    requires forall i :: 0 <= i < |features| ==> features[i] in Names(d.cols)
  {
    Frame(seq(|features|, i requires 0 <= i < |features| =>
                Normalize(Find(d.cols, features[i]).value, categorical)),
          d.height)
  }

  /** The part of `preprocess` after the bookkeeping columns are dropped: a
      missing feature or target raises with exactly the missing names, and a
      target cell that does not convert raises. */
  function PreprocessBatch(d: Frame, s: Schema): (r: Result<Prepared, PreprocessError>)
    requires Valid(d)
    ensures r.Err? && r.error.MissingColumns? <==> !(TransformRequired(s) <= Names(d.cols))
    ensures r.Err? && r.error.MissingColumns? ==> r.error.columns == TransformRequired(s) - Names(d.cols)
    ensures r.Err? && r.error.NotFloat? <==>
              TransformRequired(s) <= Names(d.cols)
              && exists k :: 0 <= k < d.height && AsFloat(Find(d.cols, s.target).value.cells[k]).None?
  {
    var missing := TransformRequired(s) - Names(d.cols);
    assert missing == {} <==> TransformRequired(s) <= Names(d.cols) by {
      if missing == {} {
        forall x | x in TransformRequired(s) ensures x in Names(d.cols) {
          assert x !in missing;
        }
      }
    }
    if missing != {} then Err(MissingColumns(missing))
    else
      assert TransformRequired(s) <= Names(d.cols);
      var target := Find(d.cols, s.target).value;
      assert |target.cells| == d.height;
      assert forall i :: 0 <= i < |s.features| ==> s.features[i] in Names(d.cols);
      match CastTarget(target.cells)
      case Err(e) =>
        assert e.NotFloat?;
        assert exists k :: 0 <= k < d.height && AsFloat(Find(d.cols, s.target).value.cells[k]).None? by {
          var k :| 0 <= k < |target.cells| && AsFloat(target.cells[k]).None?;
          assert 0 <= k < d.height;
        }
        Err(e)
      case Ok(y) =>
        assert !exists k :: 0 <= k < d.height && AsFloat(target.cells[k]).None?;
        Ok(Prepared(Project(d, s.features, s.categoricalFeatures), y))
  }

  /** The shape of a successful pass: `X` has the `features` columns in
      schema order, all taken from the input; `y` is the target cast to
      float row for row; both keep the row count. */
  lemma PreprocessBatchShape(d: Frame, s: Schema)
    requires Valid(d)
    requires PreprocessBatch(d, s).Ok?
    ensures var x, y := PreprocessBatch(d, s).value.x, PreprocessBatch(d, s).value.y;
            && TransformRequired(s) <= Names(d.cols)
            && x.height == d.height && |y| == d.height
            && |x.cols| == |s.features|
            && (forall i :: 0 <= i < |s.features| ==> x.cols[i].name == s.features[i])
            && (forall k :: 0 <= k < |y| ==> Some(y[k]) == AsFloat(Find(d.cols, s.target).value.cells[k]))
  {
  }

  /** The contents of a successful pass: each column of `X` is the cast of
      the input column of the same name. */
  lemma PreprocessBatchCasts(d: Frame, s: Schema)
    requires Valid(d)
    requires PreprocessBatch(d, s).Ok?
    ensures TransformRequired(s) <= Names(d.cols)
    ensures var x := PreprocessBatch(d, s).value.x;
            && |x.cols| == |s.features|
            && forall i :: 0 <= i < |s.features| ==>
                 CastOf(x.cols[i], Find(d.cols, s.features[i]).value, s.categoricalFeatures)
  {
    forall i | 0 <= i < |s.features| {
      NormalizeIsCast(Find(d.cols, s.features[i]).value, s.categoricalFeatures);
    }
  }

  /** `preprocess(df)`: an absent or empty batch gives an empty `X` and an
      empty `y` instead of raising; otherwise the bookkeeping columns are
      dropped and the pass runs on what is left. */
  function Preprocess(df: Option<Frame>, s: Schema): (r: Result<Prepared, PreprocessError>)
    requires df.Some? ==> Valid(df.value)
    ensures df.None? || IsEmpty(df.value) ==> r == Ok(Prepared(Frame([], 0), []))
    ensures df.Some? && !IsEmpty(df.value) ==> r == PreprocessBatch(WithoutBookkeeping(df.value), s)
  {
    if df.None? || IsEmpty(df.value) then Ok(Prepared(Frame([], 0), []))
    else PreprocessBatch(WithoutBookkeeping(df.value), s)
  }

  /** Neither bookkeeping columns nor any column outside `features` reach `X`. */
  lemma FeatureMatrixHasOnlyFeatures(f: Frame, s: Schema)
    requires Valid(f) && !IsEmpty(f)
    requires Preprocess(Some(f), s).Ok?
    ensures var x := Preprocess(Some(f), s).value.x;
            && Names(x.cols) == (set n | n in s.features)
            && Names(x.cols) !! Bookkeeping
  {
    var d := WithoutBookkeeping(f);
    var x := PreprocessBatch(d, s).value.x;
    PreprocessBatchShape(d, s);
    assert (set n | n in s.features) <= TransformRequired(s);
    forall n | n in Names(x.cols) ensures n in s.features {
      var i :| 0 <= i < |x.cols| && x.cols[i].name == n;
    }
    forall n | n in s.features ensures n in Names(x.cols) {
      var i :| 0 <= i < |s.features| && s.features[i] == n;
      assert x.cols[i] in x.cols;
    }
  }

  // ---------------------------------------------------------------------
  // Properties relating several calls.
  // ---------------------------------------------------------------------

  predicate DistinctStrings(names: seq<string>) {
    forall i, j :: 0 <= i < j < |names| ==> names[i] != names[j]
  }

  /** The frame `X` with `y` appended as the target column again. */
  function Rejoin(p: Prepared, target: string): Frame {
    Frame(p.x.cols + [Column(target, FloatKind, p.y)], p.x.height)
  }

  /** Casting an already cast column again changes nothing, except for a
      categorical flag column (see `CategoricalFlagIsNotIdempotent`). */
  lemma CastTwiceIsCastOnce(src: Column, once: Column, twice: Column, categorical: seq<string>)
    requires CastOf(once, src, categorical) && CastOf(twice, once, categorical)
    requires !(src.name == DiscountFlag && src.name in categorical)
    ensures twice == once
  {
    if src.name in categorical || src.name == DiscountFlag {
      assert twice.cells == once.cells;
    }
  }

  /** A series that already holds floats converts to itself. */
  lemma {:induction false} CastTargetFixesFloats(y: seq<Value>)
    requires forall k :: 0 <= k < |y| ==> y[k].Num? || y[k].Null?
    ensures CastTarget(y) == Ok(y)
  {
    if |y| > 0 {
      CastTargetFixesFloats(y[1..]);
      assert AsFloat(y[0]) == Some(y[0]);
      assert [y[0]] + y[1..] == y;
    }
  }

  /** `X` plus `y` is a valid frame with no bookkeeping column. */
  lemma RejoinValid(f: Frame, s: Schema)
    requires Valid(f) && !IsEmpty(f)
    requires Preprocess(Some(f), s).Ok?
    requires DistinctStrings(s.features) && s.target !in s.features
    ensures var g := Rejoin(Preprocess(Some(f), s).value, s.target);
            Valid(g) && !IsEmpty(g) && WithoutBookkeeping(g) == g
  {
    var d := WithoutBookkeeping(f);
    var p := Preprocess(Some(f), s).value;
    PreprocessBatchShape(d, s);
    PreprocessBatchCasts(d, s);
    FeatureMatrixHasOnlyFeatures(f, s);
    var g := Rejoin(p, s.target);
    assert s.target in Names(d.cols);
    RejoinColumns(d, s, p);
    DistinctNamesIsPairwise(g.cols);
  }

  /** The columns of `X` plus `y`: each has the batch's height, no two share
      a name, and none is a bookkeeping column. */
  lemma RejoinColumns(d: Frame, s: Schema, p: Prepared)
    requires Valid(d) && TransformRequired(s) <= Names(d.cols) && Names(d.cols) !! Bookkeeping
    requires DistinctStrings(s.features) && s.target !in s.features
    requires |p.y| == d.height == p.x.height && |p.x.cols| == |s.features|
    requires forall i :: 0 <= i < |s.features| ==> p.x.cols[i].name == s.features[i]
    requires forall i :: 0 <= i < |s.features| ==>
               |p.x.cols[i].cells| == |Find(d.cols, s.features[i]).value.cells|
    ensures var g := Rejoin(p, s.target);
            && (forall k :: 0 <= k < |g.cols| ==> |g.cols[k].cells| == g.height && g.cols[k].name !in Bookkeeping)
            && (forall i, j :: 0 <= i < j < |g.cols| ==> g.cols[i].name != g.cols[j].name)
  {
    var g := Rejoin(p, s.target);
    forall k | 0 <= k < |g.cols| ensures |g.cols[k].cells| == g.height && g.cols[k].name !in Bookkeeping {
      if k < |s.features| {
        assert g.cols[k] == p.x.cols[k];
        var src := Find(d.cols, s.features[k]).value;
        assert s.features[k] in TransformRequired(s);
        assert src in d.cols;
      } else {
        assert s.target in TransformRequired(s);
      }
    }
  }

  /** In `X` plus `y`, each feature and the target is found at its own
      position, so a second pass selects exactly the first pass's output. */
  lemma RejoinFinds(p: Prepared, s: Schema)
    requires |p.x.cols| == |s.features|
    requires forall i :: 0 <= i < |s.features| ==> p.x.cols[i].name == s.features[i]
    requires DistinctNames(Rejoin(p, s.target).cols)
    ensures var g := Rejoin(p, s.target);
            && TransformRequired(s) <= Names(g.cols)
            && Find(g.cols, s.target) == Some(Column(s.target, FloatKind, p.y))
            && forall i :: 0 <= i < |s.features| ==> Find(g.cols, s.features[i]) == Some(p.x.cols[i])
  {
    var g := Rejoin(p, s.target);
    FindAt(g.cols, |s.features|);
    forall i | 0 <= i < |s.features| ensures Find(g.cols, s.features[i]) == Some(p.x.cols[i]) {
      FindAt(g.cols, i);
    }
    RejoinNames(p, s);
  }

  /** `X` plus `y` carries every name preprocessing requires. */
  lemma RejoinNames(p: Prepared, s: Schema)
    requires |p.x.cols| == |s.features|
    requires forall i :: 0 <= i < |s.features| ==> p.x.cols[i].name == s.features[i]
    ensures TransformRequired(s) <= Names(Rejoin(p, s.target).cols)
  {
    var g := Rejoin(p, s.target);
    forall n | n in TransformRequired(s) ensures n in Names(g.cols) {
      if n == s.target {
        assert g.cols[|s.features|].name == n;
      } else {
        var i :| 0 <= i < |s.features| && s.features[i] == n;
        assert g.cols[i].name == n;
      }
    }
  }

  /** The second pass converts the target back to the first pass's `y`. */
  lemma SecondPassKeepsTarget(d: Frame, g: Frame, p: Prepared, s: Schema)
    requires Valid(d) && Valid(g)
    requires PreprocessBatch(d, s) == Ok(p)
    requires TransformRequired(s) <= Names(g.cols)
    requires Find(g.cols, s.target) == Some(Column(s.target, FloatKind, p.y))
    requires g.height == d.height
    ensures PreprocessBatch(g, s).Ok? && PreprocessBatch(g, s).value.y == p.y
  {
    PreprocessBatchShape(d, s);
    CastTargetFixesFloats(p.y);
    var r := PreprocessBatch(g, s);
    assert r.Ok?;
    PreprocessBatchShape(g, s);
    assert forall k :: 0 <= k < |p.y| ==> Some(r.value.y[k]) == AsFloat(p.y[k]) == Some(p.y[k]);
  }

  /** The second pass selects and casts the first pass's `X` back to itself. */
  lemma SecondPassKeepsFeatures(d: Frame, g: Frame, p: Prepared, s: Schema)
    requires Valid(d) && Valid(g)
    requires PreprocessBatch(d, s) == Ok(p) && PreprocessBatch(g, s).Ok?
    requires DiscountFlag !in s.categoricalFeatures
    requires forall i :: 0 <= i < |s.features| ==> Find(g.cols, s.features[i]) == Some(p.x.cols[i])
    requires g.height == d.height
    ensures PreprocessBatch(g, s).value.x == p.x
  {
    var x2 := PreprocessBatch(g, s).value.x;
    PreprocessBatchShape(d, s);
    PreprocessBatchShape(g, s);
    PreprocessBatchCasts(d, s);
    PreprocessBatchCasts(g, s);
    forall i | 0 <= i < |s.features| ensures x2.cols[i] == p.x.cols[i] {
      CastTwiceIsCastOnce(Find(d.cols, s.features[i]).value, p.x.cols[i], x2.cols[i],
                          s.categoricalFeatures);
    }
    assert x2.cols == p.x.cols;
  }

  /** Preprocessing its own output, with `y` put back as the target column,
      gives the same `(X, y)`, provided the feature names are distinct, the
      target is not a feature, and the flag column is not categorical. */
  lemma PreprocessIdempotent(f: Frame, s: Schema)
    requires Valid(f) && !IsEmpty(f)
    requires Preprocess(Some(f), s).Ok?
    requires DistinctStrings(s.features) && s.target !in s.features
    requires DiscountFlag !in s.categoricalFeatures
    ensures Valid(Rejoin(Preprocess(Some(f), s).value, s.target))
    ensures Preprocess(Some(Rejoin(Preprocess(Some(f), s).value, s.target)), s) == Preprocess(Some(f), s)
  {
    var d := WithoutBookkeeping(f);
    var p := Preprocess(Some(f), s).value;
    var g := Rejoin(p, s.target);
    PreprocessBatchShape(d, s);
    RejoinValid(f, s);
    RejoinFinds(p, s);
    SecondPassKeepsTarget(d, g, p, s);
    SecondPassKeepsFeatures(d, g, p, s);
  }

  // A worked example: `discount_applied` listed as categorical. The first
  // pass turns `False` into the text "False"; a second pass reads that text
  // as truthy and yields "True".

  const FlagSchema := Schema([], [DiscountFlag], [DiscountFlag], "spend", [], [])
  const FlagBatch := Frame([Column(DiscountFlag, BoolKind, [Bool(false)]), Column("spend", FloatKind, [Num(3)])], 1)
  const FlagOnce := Prepared(Frame([Column(DiscountFlag, ObjectKind, [Str("False")])], 1), [Num(3)])
  const FlagTwice := Prepared(Frame([Column(DiscountFlag, ObjectKind, [Str("True")])], 1), [Num(3)])

  /** A two-column frame of the flag column and the target `spend`, as the
      first and the second pass both see it. */
  lemma FlagAndSpend(flag: Column, spend: Column)
    requires flag.name == DiscountFlag && spend.name == "spend"
    ensures var f := Frame([flag, spend], 1);
            && WithoutBookkeeping(f) == f
            && Find(f.cols, DiscountFlag) == Some(flag)
            && Find(f.cols, "spend") == Some(spend)
            && TransformRequired(FlagSchema) <= Names(f.cols)
  {
    var f := Frame([flag, spend], 1);
    assert f.cols[0].name == DiscountFlag && f.cols[1].name == "spend";
    assert TransformRequired(FlagSchema) == {DiscountFlag, "spend"};
  }

  lemma FlagBatchFirstPass()
    ensures Preprocess(Some(FlagBatch), FlagSchema) == Ok(FlagOnce)
  {
    var flag := Column(DiscountFlag, BoolKind, [Bool(false)]);
    var spend := Column("spend", FloatKind, [Num(3)]);
    CastTargetFixesFloats([Num(3)]);
    FlagAndSpend(flag, spend);
    assert Normalize(flag, FlagSchema.categoricalFeatures).cells == [Str("False")];
    assert Project(FlagBatch, FlagSchema.features, FlagSchema.categoricalFeatures) == FlagOnce.x;
  }

  lemma FlagBatchSecondPass()
    ensures Preprocess(Some(Rejoin(FlagOnce, FlagSchema.target)), FlagSchema) == Ok(FlagTwice)
  {
    var once := Column(DiscountFlag, ObjectKind, [Str("False")]);
    var y := Column("spend", FloatKind, [Num(3)]);
    CastTargetFixesFloats([Num(3)]);
    var g := Rejoin(FlagOnce, FlagSchema.target);
    assert g == Frame([once, y], 1);
    FlagAndSpend(once, y);
    assert Normalize(once, FlagSchema.categoricalFeatures).cells == [Str("True")];
    assert Project(g, FlagSchema.features, FlagSchema.categoricalFeatures) == FlagTwice.x;
  }

  /** When `discount_applied` is categorical, preprocessing is not
      idempotent: the text "False" it produces reads back as true. */
  lemma CategoricalFlagIsNotIdempotent()
    ensures Preprocess(Some(FlagBatch), FlagSchema) == Ok(FlagOnce)
    ensures Preprocess(Some(Rejoin(FlagOnce, FlagSchema.target)), FlagSchema) != Ok(FlagOnce)
  {
    FlagBatchFirstPass();
    FlagBatchSecondPass();
    assert FlagTwice.x.cols[0].cells[0] != FlagOnce.x.cols[0].cells[0];
  }

  // ---------------------------------------------------------------------
  // Validation and preprocessing read different feature lists.
  // ---------------------------------------------------------------------

  /** A batch that passed validation has every column preprocessing needs,
      provided `features` lists only numerical or categorical names. */
  lemma ValidatedBatchHasTransformColumns(f: Frame, s: Schema)
    requires Valid(f)
    requires SanityCheck.ValidateDf(Some(f), s) == SanityCheck.Passed
    requires forall n :: n in s.features ==> n in s.numericalFeatures + s.categoricalFeatures
    ensures !(Preprocess(Some(f), s).Err? && Preprocess(Some(f), s).error.MissingColumns?)
  {
    var d := WithoutBookkeeping(f);
    assert SanityCheck.ColumnsPresent(d, s);
    assert TransformRequired(s) <= ValidatorRequired(s);
  }

  const SplitSchema := Schema(["quantity"], [], ["quantity", "total_cost"], "spend", [], [])
  const SplitBatch := Frame([Column("quantity", FloatKind, [Num(2)]), Column("spend", FloatKind, [Num(9)])], 1)

  /** Without that proviso the two stages disagree: a `features` entry the
      validator never asks for passes validation and then fails
      preprocessing as a missing column. */
  lemma FeatureListsMayDisagree()
    ensures SanityCheck.ValidateDf(Some(SplitBatch), SplitSchema) == SanityCheck.Passed
    ensures Preprocess(Some(SplitBatch), SplitSchema) == Err(MissingColumns({"total_cost"}))
  {
    SplitBatchPassesValidation();
    SplitBatchMissesFeature();
  }

  lemma SplitBatchShape()
    ensures WithoutBookkeeping(SplitBatch) == SplitBatch
    ensures Names(SplitBatch.cols) == {"quantity", "spend"}
  {
    assert SplitBatch.cols[0].name == "quantity" && SplitBatch.cols[1].name == "spend";
  }

  lemma SplitBatchPassesValidation()
    ensures SanityCheck.ValidateDf(Some(SplitBatch), SplitSchema) == SanityCheck.Passed
  {
    SplitBatchShape();
    assert ValidatorRequired(SplitSchema) == {"quantity", "spend"};
    assert SanityCheck.NullFree(SplitBatch, SplitSchema);
  }

  lemma SplitBatchMissesFeature()
    ensures Preprocess(Some(SplitBatch), SplitSchema) == Err(MissingColumns({"total_cost"}))
  {
    SplitBatchShape();
    assert TransformRequired(SplitSchema) == {"quantity", "total_cost", "spend"};
    assert TransformRequired(SplitSchema) - Names(SplitBatch.cols) == {"total_cost"};
  }
}
