# Retail spend pipeline: validation, preprocessing, ingestion and model serving

This project models the core of a small retail-analytics pipeline. It predicts a customer's average 7-day spend. The model covers four parts:

- **Ingestion** (`pull_batch`) reads micro-batches of at most `MICRO_BATCH_SIZE = 10` rows from the `customer_7day_summary` table. It finds them through a persisted cursor, the `last_processed_id` record of `pipeline_state`, and moves the cursor to the largest id it fetched.
- **Validation** (`validate_df`) skips an absent or empty batch. Otherwise it drops the bookkeeping columns (`id`, `created_at`, `customer_id`) and runs four stages in order: column presence, nulls in required columns, declared dtypes, and `min` constraints. The first stage that fails decides the exception.
- **Preprocessing** (`preprocess`) projects a batch onto the schema's `features` list and the target. It casts `discount_applied` to bool and every categorical feature to text, and converts the target to float.
- **Serving** (`load_current_model`, the startup hook, `/reload`, and the no-model branch of `/predict`) is a state machine over the globals `model` and `active_version`. It is driven by the pointer file `current_model.txt` and the promoted-model directory.

How the model is built:

- A pandas frame is a sequence of named columns (`Frames.Frame`). Each column has a dtype family (`Kind`) and its cells (`Value`).
- The schema file is a `Schemas.Schema` value passed to each call, not a file read from disk.
- The database state of one pull is a `PullBatch.Db`: the cursor record's text and the source table.
- Python exceptions become `Result`/`Option` error values, and each `raise` has its own reason constructor.

Files:

- `base.dfy`: `Option`, `Result` and `Map`.
- `decimal.dfy`: `str(int)` and `int(str)`.
- `schema.dfy`: the schema contract.
- `frames.dfy`: frames, column lookup and `drop`.
- `sanity_check.dfy`: `validate_df`.
- `transform.dfy`: `preprocess`.
- `pull_batch.dfy`: the cursor, the query, one pull and successive pulls.
- `serving_api.dfy`: the loader, startup, `/reload` and `/predict`.

Points where the code's behaviour is easy to misread:

- **Type check.** The check tests the column's dtype family with the pandas `is_*_dtype` predicates, not the values. `float` accepts integer and bool dtypes, because pandas counts bool as numeric. Text in a column that has a `min` constraint makes the comparison raise, which the model reports as `Incomparable`.
- **Only the target is cast to float.** Numerical features pass through preprocessing unchanged. Only the target goes through `astype(float)`, and it raises on a cell that does not convert.
- **Feature lists.** Preprocessing reads its own `features` list. Nothing makes it agree with the numerical and categorical lists the validator checks (`Transform.FeatureListsMayDisagree`).
- **Idempotence.** Preprocessing is idempotent on its own output only when `discount_applied` is not also a categorical feature. If it is, the text `"False"` reads back as true (`Transform.CategoricalFlagIsNotIdempotent`).
- **Duplicate ids.** "No row skipped" needs unique ids, not just non-decreasing ones. When more rows share an id than one pull takes, the cursor moves to that id and the remaining rows are never delivered (`PullBatch.DuplicateIdsAreSkipped`).

## Model

| member | source | states |
|---|---|---|
| Decimal.ParseShow | src/ingestion/pull_batch.py:21-27 | reading back with `int()` a cursor value written with `str()` gives the same integer, negative values included |
| Frames.Find | src/validation/sanity_check.py:69-74 | `df[col]` finds a column of that name, and finds nothing exactly when no column has that name |
| Frames.DropColumns | src/validation/sanity_check.py:28 | `drop(errors="ignore")` keeps exactly the input columns whose names are not dropped, and the result's names are the input names minus the dropped set; if nothing matches, the frame is unchanged; distinct names stay distinct |
| Frames.WithoutBookkeeping | src/preprocessing/transform.py:25-28 | dropping `id`, `created_at` and `customer_id` keeps the row count and every other column, and removes exactly those names; a valid frame stays valid |
| SanityCheck.HasNull | src/validation/sanity_check.py:61 | the null test is true exactly when some required column holds a missing value |
| SanityCheck.TypeCheckFrom | src/validation/sanity_check.py:69-87 | the dtype loop passes exactly when every entry holds (absent column, or a kind the declared type accepts); otherwise it raises for the FIRST entry that fails, naming its column and declared type |
| SanityCheck.MinCheck | src/validation/sanity_check.py:94 | `(df[col] < min).any()` passes exactly when the column has no text and no cell strictly below `min`; text gives the comparison error; otherwise a cell below `min` gives the minimum failure |
| SanityCheck.ConstraintCheck | src/validation/sanity_check.py:93-100 | one constraint entry passes exactly when its column is absent, it has no `min`, or the column meets the minimum; a failure always carries the entry's `min` |
| SanityCheck.ConstraintCheckFrom | src/validation/sanity_check.py:92-100 | the constraint loop passes exactly when every entry holds; otherwise it raises the reason of the FIRST entry that fails |
| SanityCheck.RunChecks | src/validation/sanity_check.py:36-111 | each failure reason happens exactly when the earlier stages pass and its own stage fails (missing columns, reported with exactly the missing names; nulls; dtype; minimum); the batch passes exactly when all four stages hold |
| SanityCheck.ValidateDf | src/validation/sanity_check.py:13-28 | an absent or empty batch, and only such a batch, is skipped; any other batch gets the verdict of the checks run after the bookkeeping columns are dropped |
| SanityCheck.AddingBookkeepingColumnKeepsVerdict | src/validation/sanity_check.py:28 | inserting an `id`, `created_at` or `customer_id` column anywhere in a non-empty batch never changes the verdict |
| SanityCheck.RequiringBookkeepingColumnAlwaysFails | src/validation/sanity_check.py:28-56 | a schema that requires a bookkeeping column rejects every non-empty batch at the presence stage, naming that column |
| SanityCheck.TypeMismatchNamesPresentColumn | src/validation/sanity_check.py:69-87 | a dtype failure names a present column and one of `int`, `float`, `boolean` or `string`, and that column's dtype is one the declared type rejects |
| SanityCheck.MinimumFailureNamesPresentColumn | src/validation/sanity_check.py:92-100 | a minimum failure names a present column and a `min` the schema declares for it; it is the text error exactly when the column holds text, and otherwise some cell lies below `min` |
| SanityCheck.MinimumIsInclusive | src/validation/sanity_check.py:94 | `min` is inclusive: a cell equal to `min` passes, and one cell one below it fails |
| SanityCheck.NegativeQuantityViolatesMinimum | src/validation/sanity_check.py:92-100 | a batch with `quantity = -1` under `quantity >= 0` fails with a minimum failure on `quantity` and bound 0 |
| Transform.AsBool | src/preprocessing/transform.py:54-55 | `astype(bool)` gives every cell's truthiness: bools stay as they are; a number is true exactly when it is non-zero, and text exactly when it is non-empty; a missing cell is true exactly when it is NaN (numeric column) rather than `None` |
| Transform.AsStr | src/preprocessing/transform.py:58-61 | `astype(str)` writes every cell as text that keeps text as it is and writes bools as `"True"` or `"False"`. A number reads back as itself, with a trailing `".0"` in a float column. A missing cell becomes `"nan"` in a numeric column and `"None"` otherwise |
| Transform.AsFloat | src/preprocessing/transform.py:49 | `astype(float)` on one cell gives a number or a missing value: numbers and missing values are unchanged, `True`/`False` become 1/0, and text converts exactly when it parses as a number, to that number |
| Transform.AsFloatReadsAsStr | src/preprocessing/transform.py:49-61 | a number written out by `astype(str)` reads back through `astype(float)` as the same number (in a float column once its `".0"` is removed) |
| Transform.CastTarget | src/preprocessing/transform.py:49 | the target cast succeeds exactly when every cell converts; it then converts cell by cell and keeps the length, and otherwise reports a cell that does not convert |
| Transform.MissingFlagDependsOnDtype | src/preprocessing/transform.py:54-55 | a missing `discount_applied` cell becomes true in a float column (NaN) and false in an object column (`None`) |
| Transform.NormalizeIsCast | src/preprocessing/transform.py:54-61 | each selected column is cast as the source casts it: categorical columns become text (the flag column goes through bool first), the flag column alone becomes bool, and every other column is untouched |
| Transform.PreprocessBatch | src/preprocessing/transform.py:36-49 | it raises for missing columns exactly when some feature or the target is absent, naming exactly the absent ones; it raises for the target exactly when all columns are present and some target cell does not convert |
| Transform.PreprocessBatchShape | src/preprocessing/transform.py:48-49 | on success `X` has the `features` columns in schema order, `y` is the target converted row by row, and both keep the row count |
| Transform.PreprocessBatchCasts | src/preprocessing/transform.py:48-61 | on success every column of `X` is the cast of the input column of the same name |
| Transform.Preprocess | src/preprocessing/transform.py:19-28 | an absent or empty batch gives an empty `X` and `y` without raising; any other batch is processed after the bookkeeping columns are dropped |
| Transform.FeatureMatrixHasOnlyFeatures | src/preprocessing/transform.py:25-48 | the names of `X` are exactly the `features` names, and none of them is a bookkeeping column |
| Transform.CastTwiceIsCastOnce | src/preprocessing/transform.py:54-61 | casting an already cast column again changes nothing, unless the flag column is also categorical |
| Transform.CastTargetFixesFloats | src/preprocessing/transform.py:49 | a target that already holds floats converts to itself |
| Transform.PreprocessIdempotent | src/preprocessing/transform.py:13-73 | preprocessing its own output, with `y` put back as the target, gives the same `(X, y)`; this needs distinct feature names, a target that is not a feature, and a flag column that is not categorical |
| Transform.CategoricalFlagIsNotIdempotent | src/preprocessing/transform.py:54-61 | with `discount_applied` categorical, `False` becomes `"False"`, and a second pass turns that into `"True"` |
| Transform.ValidatedBatchHasTransformColumns | src/preprocessing/transform.py:36-43 | a batch that passed validation never fails preprocessing for missing columns, provided `features` lists only numerical or categorical names |
| Transform.FeatureListsMayDisagree | src/preprocessing/transform.py:36-43 | without that proviso, a batch can pass validation and then fail preprocessing for a missing feature |
| PullBatch.GetLastProcessedId | src/ingestion/pull_batch.py:10-21 | with no record, the record is created as `"0"` and 0 is read; otherwise the read succeeds exactly when the text parses, and afterwards the record exists and reads as the number returned |
| PullBatch.UpdateLastProcessedId | src/ingestion/pull_batch.py:24-28 | an existing record is rewritten so that it reads back as the new id; with no record, nothing is stored |
| PullBatch.CursorRoundTrip | src/ingestion/pull_batch.py:10-28 | reading the cursor after writing `n` to an existing record gives `n`; a write before the record exists is lost, and the next read gives 0 |
| PullBatch.LeastIdAboveIsLeast | src/ingestion/pull_batch.py:41-46 | `ORDER BY id` starts at the least id above the cursor, and there is none exactly when no row lies above the cursor |
| PullBatch.WithIdIsTier | src/ingestion/pull_batch.py:41-46 | the rows carrying one id are exactly the table's rows with that id |
| PullBatch.Fetch | src/ingestion/pull_batch.py:41-51 | `LIMIT` bounds the query's result by the limit |
| PullBatch.FetchRowsAbove | src/ingestion/pull_batch.py:41-46 | the query returns only rows of the table with `id > last_id` |
| PullBatch.FetchIsAscending | src/ingestion/pull_batch.py:41-46 | the query returns its rows in ascending id order |
| PullBatch.FetchIsEmptyIffNothingAbove | src/ingestion/pull_batch.py:41-56 | the query is empty exactly when the limit is 0 or no row lies above the cursor |
| PullBatch.FetchIsComplete | src/ingestion/pull_batch.py:41-46 | the query skips nothing: every row above the cursor and below the last id returned is in the result, and a result shorter than the limit holds every row above the cursor |
| PullBatch.FetchStrictlyAscending | src/ingestion/pull_batch.py:41-46 | with unique ids the query's ids strictly increase |
| PullBatch.FetchConsecutive | src/ingestion/pull_batch.py:41-51 | on consecutive ids, the query returns the contiguous run of rows right after the cursor, cut at the limit |
| PullBatch.ThreeQueriesFrom37 | src/ingestion/pull_batch.py:41-51 | from cursor 37 over ids 38 to 52, the queries return ids 38 to 47, then 48 to 52, then nothing |
| PullBatch.DrainFrom37 | src/ingestion/pull_batch.py:53-59 | from cursor 37 over ids 38 to 52, three steps move the cursor to 47, then 52, then leave it at 52 |
| PullBatch.ThreePullsFrom37 | src/ingestion/pull_batch.py:31-70 | three pulls from a cursor record reading `"37"` over ids 38 to 52 succeed, deliver ids 38 to 47 and then 48 to 52 without `id` and `created_at`, and leave the record reading 52 |
| PullBatch.MaxIdIsMax | src/ingestion/pull_batch.py:58 | `df["id"].max()` is the id of one of the rows, and no row has a larger id |
| PullBatch.MaxIdIsLast | src/ingestion/pull_batch.py:41-58 | the largest id of a non-empty result is the last row's id, and it lies above the cursor |
| PullBatch.Strip | src/ingestion/pull_batch.py:67 | `id` and `created_at` are removed from each row, and every other column keeps its value |
| PullBatch.Step | src/ingestion/pull_batch.py:39-59 | one pull fetches at most `MICRO_BATCH_SIZE` (10) rows |
| PullBatch.StepAdvances | src/ingestion/pull_batch.py:53-59 | a pull fetches nothing exactly when no row lies above the cursor, and then the cursor stays; otherwise the cursor moves strictly up, to the last row's id |
| PullBatch.StepSweeps | src/ingestion/pull_batch.py:41-59 | every row one pull fetches lies between the old and new cursor values; with unique ids, every row between them is fetched |
| PullBatch.StepLowersCount | src/ingestion/pull_batch.py:53-59 | a pull that fetches something lowers the number of rows above the cursor, and one that fetches nothing leaves none above it |
| PullBatch.PullBatch | src/ingestion/pull_batch.py:31-70 | an unreadable cursor rolls the transaction back and changes nothing. Otherwise the table is untouched and the record exists afterwards. The result is `None` exactly when nothing lies above the cursor, and then the cursor keeps its value. Otherwise between 1 and 10 stripped rows come back, and the cursor reads as the new, strictly larger value |
| PullBatch.PullBatchDropsBookkeeping | src/ingestion/pull_batch.py:67 | no returned row carries `id` or `created_at` |
| PullBatch.PullBatchFollowsStep | src/ingestion/pull_batch.py:37-70 | on a readable cursor a pull succeeds and returns exactly the rows one step on the cursor's value fetches, stripped, leaving the cursor at the step's value |
| PullBatch.PullAfterEmptyIsEmpty | src/ingestion/pull_batch.py:53-56 | after a pull that found nothing, the next pull finds nothing and changes nothing |
| PullBatch.PullManyFollowsDrain | src/ingestion/pull_batch.py:31-70 | from a readable cursor, `n` pulls never fail and return exactly the rows `n` steps on the cursor's value fetch |
| PullBatch.DrainSweeps | src/ingestion/pull_batch.py:39-59 | `n` pulls never move the cursor down; every row they fetch lies between the first and last cursor values, and with unique ids every such row is fetched |
| PullBatch.DrainStrictlyAscending | src/ingestion/pull_batch.py:41-59 | with unique ids, successive pulls deliver their rows in strictly ascending id order, so no row comes twice |
| PullBatch.DrainExhausts | src/ingestion/pull_batch.py:53-59 | as many pulls as there are rows above the cursor leave no row above it |
| PullBatch.SuccessivePullsDeliverEachRowOnce | src/ingestion/pull_batch.py:31-70 | over a table with unique ids, as many pulls as the table has rows deliver every row above the starting cursor exactly once, in id order, and nothing else; the cursor ends at or above every id |
| PullBatch.DuplicateIdsAreSkipped | src/ingestion/pull_batch.py:41-59 | with eleven rows sharing id 1, the first pull takes ten of them and moves the cursor to 1, and the next finds nothing, so the eleventh row is never delivered |
| ServingApi.Strip | src/serving/api.py:35 | `str.strip()` returns a slice of the text with whitespace only before and after it, and the slice neither starts nor ends with whitespace |
| ServingApi.StripIsEmptyIffAllSpace | src/serving/api.py:35 | a pointer strips to the empty string exactly when it is all whitespace |
| ServingApi.LoadCurrentModelAsWritten | src/serving/api.py:27-44 | the source's loader. A missing or empty pointer file, or a version whose path does not exist, unloads the model. A pointer that is only whitespace, with the promoted directory present, raises and keeps the previous state. Otherwise the version named is loaded and active. The globals stay consistent unless they already were not |
| ServingApi.LoadCurrentModel | src/serving/api.py:27-44 | the corrected loader keeps the globals consistent. No version is active exactly when the pointer is missing or blank, or names no promoted artifact; otherwise the stripped pointer is active and loaded |
| ServingApi.AsWrittenAgreesElsewhere | src/serving/api.py:27-44 | the source's loader and the corrected one agree on every input except a whitespace-only pointer next to an existing promoted directory |
| ServingApi.BlankPointerKeepsStaleModel | src/serving/api.py:30-44 | with a pointer of `"\n"`, the source's loader raises and keeps serving the old model; the corrected loader unloads it |
| ServingApi.AsWrittenLoadIsIdempotent | src/serving/api.py:27-44 | running the source's loader twice over the same files gives the same state and outcome as running it once |
| ServingApi.Startup | src/serving/api.py:50-52 | the startup hook runs the source's loader on the initial globals. It fails, so the application does not start, exactly when the loader raises. Otherwise the application starts consistent, in the state that loader gives |
| ServingApi.Reload | src/serving/api.py:127-133 | `/reload` runs the source's loader on the current globals. It fails exactly when the loader raises, and then keeps the globals. Otherwise it reports `"Model reloaded"` with the version now active. Consistent globals stay consistent |
| ServingApi.ReloadIsIdempotent | src/serving/api.py:127-133 | two reloads in a row give what one gives; the state before a reload matters only when the loader raises |
| ServingApi.BlankPointerFailsStartupAndReload | src/serving/api.py:43-52 | with a pointer of `"\n"` next to the promoted directory, the application does not start, and `/reload` fails and keeps whichever model was loaded before |
| ServingApi.ReloadsKeepConsistency | src/serving/api.py:127-133 | any run of reloads over changing files keeps the globals consistent; when the last reload does not raise, the run ends in the state the last files determine |
| ServingApi.ReloadAllLast | src/serving/api.py:127-133 | a run of reloads ends with the last reload applied to the globals the earlier ones left, so a failing last reload leaves them unchanged |
| ServingApi.ReloadIntended | src/serving/api.py:127-133 | `/reload` with the corrected loader never fails, reports `"Model reloaded"` with the version now active, and the loaded model is that version's artifact |
| ServingApi.ReloadIntendedIsIdempotent | src/serving/api.py:127-133 | with the corrected loader, two reloads give what one gives, whatever the state before |
| ServingApi.Predict | src/serving/api.py:88-96 | `/predict` with no model renders `"No model available yet."` with the active version and calls no model; with a model it hands the call to that model |
| ServingApi.PredictShowsNoVersionWithoutModel | src/serving/api.py:88-96 | in any state the loader produces, the no-model page shows no version, and a model is only called while the version it came from is active |
| ServingApi.NoPointerMeansNoModelMessage | src/serving/api.py:30-33 | with no pointer file, startup serves no model and `/predict` renders the no-model message with no version |

## Left out

- **Configuration and side effects.** Reading `schema.yaml`, logging, `log_event`, the HTML templates and the `/` route are not modelled. The schema is a parameter, and the events have no effect on the state the model tracks.
- **Database machinery.** SQLAlchemy, `pd.read_sql`, the connection and transaction isolation are not modelled. A pull is one atomic transition on a `Db` value, and concurrent pulls are not modelled.
- **Files and artifacts.** The file system is abstracted to the pointer file's text and the set of names under the promoted directory. `joblib.load` of an existing artifact is modelled as always succeeding, so a corrupt artifact and `joblib` internals are left out. Path syntax is left out: a version containing `/` or `..` is taken as a plain name.
- **`/predict` after the no-model branch.** The input frame, the `model.predict` call and the rounding are left out. The body also refers to `customer_category`, which is never defined, so it would fail at run time once a model is loaded. The model keeps only the choice between the no-model page and handing the call to the model.
- **Float arithmetic.** Numbers are integers, so float arithmetic and rounding are left out. A missing value is a `Null` cell that compares false with any minimum. It is NaN in an integer or float column and `None` in any other column.
- **pandas dtype inference.** Every column carries the dtype family pandas gave it as an explicit `Kind`.
- Decimal.Parse: reads only an optional sign followed by decimal digits. Python's `int()` also accepts surrounding whitespace and `_` digit separators, so a hand-edited cursor such as `" 5"` that Python reads is an unreadable cursor here. Cursor text written by the pipeline itself is always an optional `-` followed by digits.
- Transform.AsFloat: text converts only when it is an optional sign followed by digits. `float()` also accepts surrounding whitespace, `_` digit separators, decimals, exponents, `"nan"` and `"inf"`; the last three need floats.
- Transform.AsStr: a number is written with a trailing `".0"` in a float column and as an integer in any other. So a Python float inside an object column, or a float that Python writes with an exponent (`1e+16`), is not written as Python writes it. A missing timestamp (`NaT`) is written `"None"`, not `"NaT"`.
- Transform.AsBool: a missing timestamp (`NaT`) is false here; the timestamp casts are not modelled.
- Frames.Find: with two columns of the same name it returns the first, where pandas' `df[col]` returns both as a frame. `validate_df` does not exclude that case; `preprocess` is modelled only on frames with distinct names (`Transform.Preprocess` below). Frames read with `SELECT *` from one table never have duplicate names.
- Transform.Preprocess: requires, as does `Transform.PreprocessBatch`, a frame with distinct column names (part of `Valid`), where pandas would accept duplicates. Frames read with `SELECT *` from one table never have duplicate names, so no batch the pipeline builds is excluded.
- PullBatch.Fetch: rows that share an id come back in table order. `ORDER BY id` leaves their order to the database, so which of them a `LIMIT` cuts off is fixed here, not in SQL. `PullBatch.DuplicateIdsAreSkipped` loses `SharedIdTable[10]` under this order; a database may lose any one of the eleven rows.
- PullBatch.SuccessivePullsDeliverEachRowOnce: requires unique ids. With ids that are only non-decreasing, rows sharing an id at a batch boundary are skipped (`PullBatch.DuplicateIdsAreSkipped`).
- PullBatch.StepSweeps: states the "every row in between is fetched" half only for unique ids, for the same reason.
- Transform.PreprocessIdempotent: requires that `discount_applied` is not categorical, because the property fails in that case (`Transform.CategoricalFlagIsNotIdempotent`).
- **Training, promotion and database setup.** `train.py`, `promote` and `init_db.py` are not part of this model.

## Findings

| source | as written | input that shows it | evidently intended | confidence | as-written member | corrected member |
|---|---|---|---|---|---|---|
| src/serving/api.py:30-44 | the pointer file counts as empty only when its size is 0; a pointer that strips to `""` makes `PROMOTED_DIR / ""` the promoted directory itself, which exists, so `joblib.load` opens a directory, raises `IsADirectoryError` before assigning, and the old model and version keep being served | pointer file `"\n"`, promoted directory present, model `v1` loaded (`ServingApi.BlankPointerKeepsStaleModel`) | a pointer that strips to nothing means "no model", like an empty file | not executed; high | ServingApi.LoadCurrentModelAsWritten | ServingApi.LoadCurrentModel |

`ServingApi.Startup` and `ServingApi.Reload` run the source's loader, so on this input the application does not start and `/reload` fails (`ServingApi.BlankPointerFailsStartupAndReload`). `ServingApi.ReloadIntended` is `/reload` with the corrected loader. `ServingApi.AsWrittenAgreesElsewhere` proves that the corrected loader differs from the source's only on this input class.
