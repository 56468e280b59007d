/** The serving API's model loader: a small state machine over the global
    `(model, active_version)` pair, driven by the pointer file
    `current_model.txt` and the artifacts under the promoted directory. */
module ServingApi {
  import opened Base

  /** A loaded model, identified by the promoted artifact it came from. */
  datatype Model = Model(artifact: string)

  /** What the loader can see: the pointer file's text, if the file exists,
      and the names present under the promoted directory, if it exists. */
  datatype Env = Env(pointer: Option<string>, promoted: Option<set<string>>)

  /** The process-wide globals `model` and `active_version`. */
  datatype ServingState = ServingState(model: Option<Model>, activeVersion: Option<string>)

  /** `joblib.load` on the promoted directory itself. */
  datatype LoadError = IsADirectory

  const NoModel := ServingState(None, None)
  const NoModelMessage := "No model available yet."
  const ReloadedStatus := "Model reloaded"

  // ---------------------------------------------------------------------
  // `str.strip()`.
  // ---------------------------------------------------------------------

  /** The characters `str.isspace` accepts. */
  predicate IsSpace(c: char) {
    || c == ' ' || '\t' <= c <= '\r' || '\U{1c}' <= c <= '\U{1f}'
    || c == '\U{85}' || c == '\U{a0}' || c == '\U{1680}'
    || '\U{2000}' <= c <= '\U{200a}' || c == '\U{2028}' || c == '\U{2029}'
    || c == '\U{202f}' || c == '\U{205f}' || c == '\U{3000}'
  }

  predicate AllSpace(s: string) {
    forall k :: 0 <= k < |s| ==> IsSpace(s[k])
  }

  /** How many whitespace characters `s` starts with. */
  function LeadingSpaces(s: string): (n: nat)
    ensures n <= |s| && AllSpace(s[..n])
    ensures n < |s| ==> !IsSpace(s[n])
  {
    if |s| > 0 && IsSpace(s[0]) then
      var m := LeadingSpaces(s[1..]);
      1 + m
    else 0
  }

  /** How many whitespace characters `s` ends with. */
  function TrailingSpaces(s: string): (n: nat)
    ensures n <= |s|
    ensures forall k :: |s| - n <= k < |s| ==> IsSpace(s[k])
    ensures n < |s| ==> !IsSpace(s[|s| - n - 1])
  {
    if |s| > 0 && IsSpace(s[|s| - 1]) then
      var m := TrailingSpaces(s[..|s| - 1]);
      1 + m
    else 0
  }

  /** `s.strip()`: `s` without its leading and trailing whitespace. */
  function Strip(s: string): (r: string)
    ensures exists i, j :: 0 <= i <= j <= |s| && r == s[i..j] && AllSpace(s[..i]) && AllSpace(s[j..])
    ensures |r| > 0 ==> !IsSpace(r[0]) && !IsSpace(r[|r| - 1])
  {
    var i := LeadingSpaces(s);
    var t := s[i..];
    var j := i + |t| - TrailingSpaces(t);
    assert AllSpace(s[j..]) by {
      var tail := s[j..];
      forall k | 0 <= k < |tail| ensures IsSpace(tail[k]) {
        assert tail[k] == t[j - i + k];
      }
    }
    assert s[i..j] == t[..j - i];
    s[i..j]
  }

  /** A pointer strips to nothing exactly when it is all whitespace. */
  lemma StripIsEmptyIffAllSpace(s: string)
    ensures Strip(s) == "" <==> AllSpace(s)
  {
    var i := LeadingSpaces(s);
    if AllSpace(s) {
      assert i == |s|;
    } else {
      assert i < |s|;
      assert Strip(s)[0] == s[i];
    }
  }

  // ---------------------------------------------------------------------
  // `load_current_model`.
  // ---------------------------------------------------------------------

  /** The state once `version`'s artifact is loaded. */
  function Loaded(version: string): ServingState {
    ServingState(Some(Model(version)), Some(version))
  }

  /** Whether `PROMOTED_DIR / version` exists: the empty name is the
      promoted directory itself. */
  predicate PathExists(env: Env, version: string) {
    env.promoted.Some? && (version == "" || version in env.promoted.value)
  }

  /** The loader's invariant: there is a model exactly when there is an
      active version, and the model is the artifact that version names. */
  predicate Consistent(st: ServingState) {
    && (st.model.None? <==> st.activeVersion.None?)
    && (st.model.Some? ==> st.model.value.artifact == st.activeVersion.value)
  }

  /** The files that make the source's loader raise: a non-empty pointer
      file holding only whitespace, next to an existing promoted
      directory. */
  predicate LoadRaises(env: Env) {
    env.pointer.Some? && env.pointer.value != "" && AllSpace(env.pointer.value) && env.promoted.Some?
  }

  /** `load_current_model()` as written, from state `st`: the state
      afterwards and the exception it raised, if any. A missing or empty
      pointer file, or a stripped pointer naming nothing that exists, gives
      no model. A pointer that strips to the empty string while the promoted
      directory exists makes `joblib.load` open the directory: the call
      raises before assigning, so the previous model and version stay.
      Otherwise the named artifact is loaded and the active version is the
      stripped pointer. */
  function LoadCurrentModelAsWritten(env: Env, st: ServingState): (r: (ServingState, Option<LoadError>))
    ensures env.pointer.None? || env.pointer.value == "" ==> r == (NoModel, None)
    ensures env.pointer.Some? && env.pointer.value != "" ==>
      var version := Strip(env.pointer.value);
      && (!PathExists(env, version) ==> r == (NoModel, None))
      && (PathExists(env, version) && version == "" ==> r == (st, Some(IsADirectory)))
      && (PathExists(env, version) && version != "" ==> r == (Loaded(version), None))
    ensures r.1.Some? <==> LoadRaises(env)
    ensures r.1.Some? ==> r.0 == st
    ensures r.1.None? || Consistent(st) ==> Consistent(r.0)
  {
    if env.pointer.None? || env.pointer.value == "" then (NoModel, None)
    else
      var version := Strip(env.pointer.value);
      StripIsEmptyIffAllSpace(env.pointer.value);
      if !PathExists(env, version) then (NoModel, None)
      else if version == "" then (st, Some(IsADirectory))
      else (Loaded(version), None)
  }

  /** The loader as evidently intended: a pointer that strips to nothing
      means no model, like an empty one. It never raises and never depends
      on the previous state. */
  function LoadCurrentModel(env: Env): (st: ServingState)
    ensures Consistent(st)
    ensures st.activeVersion.None? <==>
      env.pointer.None? || AllSpace(env.pointer.value) || !PathExists(env, Strip(env.pointer.value))
    ensures st.activeVersion.Some? ==> && env.pointer.Some?
                                       && st.activeVersion.value == Strip(env.pointer.value)
                                       && st.activeVersion.value in env.promoted.value
  {
    if env.pointer.None? then NoModel
    else
      var version := Strip(env.pointer.value);
      StripIsEmptyIffAllSpace(env.pointer.value);
      if version == "" || !PathExists(env, version) then NoModel
      else Loaded(version)
  }

  /** The two loaders agree except on a whitespace-only pointer while the
      promoted directory exists. */
  lemma AsWrittenAgreesElsewhere(env: Env, st: ServingState)
    requires !LoadRaises(env)
    ensures LoadCurrentModelAsWritten(env, st) == (LoadCurrentModel(env), None)
  {
    if env.pointer.Some? {
      StripIsEmptyIffAllSpace(env.pointer.value);
    }
  }

  /** A newline-only pointer file, as an editor leaves behind after
      clearing the version, next to an existing promoted directory. */
  const BlankPointer := Env(Some("\n"), Some({"v1"}))

  /** As written, reloading with a blank pointer fails and keeps serving
      the model loaded before; the intended loader unloads it. */
  lemma BlankPointerKeepsStaleModel()
    ensures LoadCurrentModelAsWritten(BlankPointer, Loaded("v1")) == (Loaded("v1"), Some(IsADirectory))
    ensures LoadCurrentModel(BlankPointer) == NoModel
  {
    assert AllSpace("\n");
    StripIsEmptyIffAllSpace("\n");
  }

  /** Loading twice is loading once, for the source's loader too: a second
      call sees the same files and ends in the same state with the same
      outcome. */
  lemma AsWrittenLoadIsIdempotent(env: Env, st: ServingState)
    ensures var once := LoadCurrentModelAsWritten(env, st);
            LoadCurrentModelAsWritten(env, once.0) == once
  {
  }

  // ---------------------------------------------------------------------
  // Startup, `/reload` and `/predict`.
  // ---------------------------------------------------------------------

  /** The globals before startup. */
  const Initial := NoModel

  /** The startup hook: the source's loader run on the initial globals.
      When it raises, the application does not start; otherwise it serves
      the state the corrected loader would give, which is consistent. */
  function Startup(env: Env): (r: Result<ServingState, LoadError>)
    ensures r.Err? <==> LoadRaises(env)
    ensures r.Ok? ==> Consistent(r.value) && r.value == LoadCurrentModel(env)
  {
    var (st, raised) := LoadCurrentModelAsWritten(env, Initial);
    if raised.Some? then Err(raised.value)
    else
      AsWrittenAgreesElsewhere(env, Initial);
      Ok(st)
  }

  /** The JSON body `/reload` returns. */
  datatype ReloadResponse = ReloadResponse(status: string, activeVersion: Option<string>)

  /** `reload_model()`: reruns the source's loader on the current globals.
      When the loader raises, the request fails without a body and the
      globals keep their values; otherwise the globals are what the
      corrected loader gives, and the body reports "Model reloaded" with
      the version now active. Consistent globals stay consistent. */
  function Reload(env: Env, st: ServingState): (r: (ServingState, Result<ReloadResponse, LoadError>))
    ensures r.1.Err? <==> LoadRaises(env)
    ensures r.1.Err? ==> r.0 == st
    ensures r.1.Ok? ==> && r.0 == LoadCurrentModel(env)
                        && r.1.value == ReloadResponse(ReloadedStatus, r.0.activeVersion)
    ensures Consistent(st) ==> Consistent(r.0)
  {
    var (next, raised) := LoadCurrentModelAsWritten(env, st);
    if raised.Some? then (st, Err(raised.value))
    else
      AsWrittenAgreesElsewhere(env, st);
      (next, Ok(ReloadResponse(ReloadedStatus, next.activeVersion)))
  }

  /** Two reloads in a row give what one gives. The state before a reload
      matters only when the loader raises, which keeps that state. */
  lemma ReloadIsIdempotent(env: Env, a: ServingState, b: ServingState)
    ensures Reload(env, Reload(env, a).0) == Reload(env, a)
    ensures !LoadRaises(env) ==> Reload(env, a) == Reload(env, b)
  {
  }

  /** With a blank pointer the application does not start, and `/reload`
      fails and keeps serving whatever was loaded before. */
  lemma BlankPointerFailsStartupAndReload()
    ensures Startup(BlankPointer) == Err(IsADirectory)
    ensures Reload(BlankPointer, Loaded("v1")) == (Loaded("v1"), Err(IsADirectory))
    ensures Reload(BlankPointer, NoModel) == (NoModel, Err(IsADirectory))
  {
    assert AllSpace("\n");
    assert LoadRaises(BlankPointer);
  }

  /** `reload_model()` with the corrected loader: it never fails, and its
      result does not depend on the state before. */
  function ReloadIntended(env: Env, st: ServingState): (r: (ServingState, ReloadResponse))
    ensures r.0 == LoadCurrentModel(env)
    ensures r.1 == ReloadResponse(ReloadedStatus, r.0.activeVersion)
    ensures r.1.activeVersion.Some? ==> r.0.model == Some(Model(r.1.activeVersion.value))
  {
    var next := LoadCurrentModel(env);
    (next, ReloadResponse(ReloadedStatus, next.activeVersion))
  }

  /** With the corrected loader, two reloads in a row give the same state
      and the same report, whatever the state before. */
  lemma ReloadIntendedIsIdempotent(env: Env, a: ServingState, b: ServingState)
    ensures ReloadIntended(env, ReloadIntended(env, a).0) == ReloadIntended(env, a)
    ensures ReloadIntended(env, a) == ReloadIntended(env, b)
  {
  }

  /** The globals after a run of reloads over changing files. */
  function ReloadAll(envs: seq<Env>, st: ServingState): ServingState {
    if |envs| == 0 then st else ReloadAll(envs[1..], Reload(envs[0], st).0)
  }

  /** Any run of reloads keeps consistent globals consistent, and a last
      reload that does not raise leaves what the last files determine. */
  lemma {:induction false} ReloadsKeepConsistency(envs: seq<Env>, st: ServingState)
    requires Consistent(st)
    ensures Consistent(ReloadAll(envs, st))
    ensures |envs| > 0 && !LoadRaises(envs[|envs| - 1]) ==>
              ReloadAll(envs, st) == LoadCurrentModel(envs[|envs| - 1])
  {
    if |envs| > 0 {
      ReloadsKeepConsistency(envs[1..], Reload(envs[0], st).0);
      if |envs| > 1 {
        assert envs[1..][|envs[1..]| - 1] == envs[|envs| - 1];
      }
    }
  }

  /** A run of reloads ends with the last reload applied to the globals
      the earlier ones left, so a last reload that raises leaves them as
      they were. */
  lemma {:induction false} ReloadAllLast(envs: seq<Env>, st: ServingState)
    requires |envs| > 0
    ensures ReloadAll(envs, st) == Reload(envs[|envs| - 1], ReloadAll(envs[..|envs| - 1], st)).0
  {
    if |envs| > 1 {
      var init := envs[..|envs| - 1];
      ReloadAllLast(envs[1..], Reload(envs[0], st).0);
      assert envs[1..][|envs[1..]| - 1] == envs[|envs| - 1];
      assert envs[1..][..|envs[1..]| - 1] == init[1..];
      assert init[0] == envs[0];
    }
  }

  /** The response of `/predict`: the page rendered without calling any
      model, or the call handed to the loaded model. */
  datatype PredictResponse = Rendered(prediction: string, version: Option<string>) | Delegated(model: Model)

  /** `predict`'s first branch: with no model loaded it renders the
      no-model message with the active version and calls nothing. */
  function Predict(st: ServingState): (r: PredictResponse)
    ensures st.model.None? <==> r.Rendered?
    ensures r.Rendered? ==> r == Rendered(NoModelMessage, st.activeVersion)
    ensures r.Delegated? ==> r.model == st.model.value
  {
    if st.model.None? then Rendered(NoModelMessage, st.activeVersion) else Delegated(st.model.value)
  }

  /** In any consistent state, in particular any the loader produces, the
      no-model page shows no version, and a model is only called when the
      version it came from is active. */
  lemma PredictShowsNoVersionWithoutModel(st: ServingState)
    requires Consistent(st)
    ensures Predict(st).Rendered? ==> Predict(st).version.None?
    ensures Predict(st).Delegated? ==> st.activeVersion == Some(Predict(st).model.artifact)
  {
  }

  /** With no pointer file, startup serves no model and `/predict` renders
      the no-model message with no version, whatever is promoted. */
  lemma NoPointerMeansNoModelMessage(promoted: Option<set<string>>)
    ensures Startup(Env(None, promoted)) == Ok(NoModel)
    ensures Predict(Startup(Env(None, promoted)).value) == Rendered(NoModelMessage, None)
  {
  }
}
