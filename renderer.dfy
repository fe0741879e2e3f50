/**
 * pkgs/helmfile/renderer.go: `Renderer.Render` evaluates a helmfile.nix
 * through nix, converts the JSON documents to YAML, and renders the nix
 * charts of every document that lists `releases` on the way.
 */
module HelmfileRenderer {
  import opened Wrappers
  import opened ValueTree
  import GoStrings
  import Transform
  import NixChart

  /** The renderer's configuration: the eval.nix source, `--show-trace`, the state values. */
  datatype Renderer = Renderer(evalNix: string, showTrace: bool, stateValuesSet: seq<string>)

  /** What running nix printed, and the error when it failed. */
  datatype NixRun = NixRun(output: Transform.Text, failure: Option<string>)

  /**
   * The collaborators: writing eval.nix to a temporary file (its name),
   * running `nix eval` on an expression, go-yaml, and the chart evaluator.
   */
  datatype RenderTools = RenderTools(
    writeEvalNix: string -> Result<string, string>,
    nixEval: (string, bool) -> NixRun,
    codec: Transform.Codec,
    charts: NixChart.ChartEvaluator)

  datatype RenderError =
    | WriteEvalNixFailed(reason: string)                   // `could not write eval.nix`
    | EvalFailed(reason: string, output: Transform.Text)   // `failed to eval nix`
    | ConvertFailed(reason: string, output: Transform.Text) // `failed to convert JSON to YAML`

  /** How the hook ended the process: `Fatalf` on a chart error, or the panic on a nil document. */
  datatype Fatal = ChartsFatal(err: NixChart.ChartError) | NilDocumentPanic

  datatype Rendered =
    | Rendered(yaml: Transform.Text, cleanup: seq<string>)
    | RenderFailed(err: RenderError)
    | Exited(fatal: Fatal)

  /** `(import <f>).render "<fileName>" "<base>" "<env>" "<valuesJSONPath>"`. */
  function RenderExpr(f: string, fileName: string, base: string, env: string, valuesPath: string): string
  {
    "(import " + f + ").render \"" + fileName + "\" \"" + base + "\" \"" + env + "\" \"" + valuesPath + "\""
  }

  /** The document carries a `releases` key (whatever it holds). */
  predicate HasReleases(v: Value)
  {
    v.Map? && "releases" in v.entries
  }

  /**
   * The hook `Render` passes to `JSONToYAMLs`; its state is the captured
   * `cleanup` variable, which each document with `releases` overwrites.
   */
  function RenderHook(base: string, ev: NixChart.ChartEvaluator, cleanup: seq<string>, v: Value)
    : Transform.Hooked<seq<string>, Fatal>
  {
    if v.Null? then Transform.Exit(NilDocumentPanic)
    else if HasReleases(v) then
      match NixChart.RenderChartsSpec(v.entries, base, ev)
      case Charts(d, c) => Transform.Continue(c, Map(d))
      case ChartsFailed(_, e) => Transform.Exit(ChartsFatal(e))
    else Transform.Continue(cleanup, v)
  }

  /** The hook as the closure `Render` builds over its `base`. */
  function Hook(base: string, ev: NixChart.ChartEvaluator): (seq<string>, Value) -> Transform.Hooked<seq<string>, Fatal>
  {
    (s, v) => RenderHook(base, ev, s, v)
  }

  /** `Render(fileName, base, env, valuesJSONPath)`. */
  function RenderSpec(r: Renderer, tools: RenderTools, fileName: string, base: string, env: string, valuesPath: string)
    : Rendered
  {
    match tools.writeEvalNix(r.evalNix)
    case Failure(e) => RenderFailed(WriteEvalNixFailed(e))
    case Success(f) =>
      var run := tools.nixEval(RenderExpr(f, fileName, base, env, valuesPath), r.showTrace);
      if run.failure.Some? then RenderFailed(EvalFailed(run.failure.value, run.output))
      else
        match Transform.JSONToYAMLsSpec(run.output, tools.codec, [], Hook(base, tools.charts))
        case Converted(y, c) => Rendered(y, c)
        case DecodeFailed(e) => RenderFailed(ConvertFailed(e, run.output))
        case MarshalFailed(e) => RenderFailed(ConvertFailed(e, run.output))
        case HookExited(x) => Exited(x)
  }

  /** `Renderer.Render`. */
  method Render(r: Renderer, tools: RenderTools, fileName: string, base: string, env: string, valuesPath: string)
    returns (out: Rendered)
    ensures out == RenderSpec(r, tools, fileName, base, env, valuesPath)
  {
    var f := tools.writeEvalNix(r.evalNix);
    if f.Failure? {
      return RenderFailed(WriteEvalNixFailed(f.error));
    }
    var expr := RenderExpr(f.value, fileName, base, env, valuesPath);
    var run := tools.nixEval(expr, r.showTrace);
    if run.failure.Some? {
      return RenderFailed(EvalFailed(run.failure.value, run.output));
    }
    var hook := Hook(base, tools.charts);
    var conv := Transform.JSONToYAMLs(run.output, tools.codec, [], hook);
    match conv {
      case Converted(y, c) => out := Rendered(y, c);
      case DecodeFailed(e) => out := RenderFailed(ConvertFailed(e, run.output));
      case MarshalFailed(e) => out := RenderFailed(ConvertFailed(e, run.output));
      case HookExited(x) => out := Exited(x);
    }
  }

  // ------------------------------------------------------------- properties

  /** The expression as its leading text followed by quote-separated pieces. */
  lemma RenderExprShape(f: string, fileName: string, base: string, env: string, valuesPath: string)
    ensures var q := ['"'];
            RenderExpr(f, fileName, base, env, valuesPath)
            == ("(import " + f + ").render ") + q + (fileName + q + ([' '] + q + (base + q + ([' '] + q
               + (env + q + ([' '] + q + (valuesPath + q + [])))))))
  {
  }

  /** A quoted argument followed by `"`, a space and the quoted rest splits into the argument, the space and the rest's pieces. */
  lemma QuotedThenSpace(arg: string, rest: string, pieces: seq<string>)
    requires '"' !in arg && GoStrings.Split(rest, '"') == pieces
    ensures GoStrings.Split(arg + ['"'] + ([' '] + ['"'] + rest), '"') == [arg, " "] + pieces
  {
    GoStrings.SplitAtFirst([' '], rest, '"');
    GoStrings.SplitAtFirst(arg, [' '] + ['"'] + rest, '"');
  }

  /** The last quoted argument and its closing quote split into the argument and an empty tail. */
  lemma LastQuoted(arg: string)
    requires '"' !in arg
    ensures GoStrings.Split(arg + ['"'] + [], '"') == [arg, ""]
  {
    GoStrings.SplitNoSeparator([], '"');
    GoStrings.SplitAtFirst(arg, [], '"');
  }

  /**
   * The expression quotes its four arguments in the order fileName, base,
   * env, valuesJSONPath: splitting it on `"` gives them back.
   */
  lemma RenderExprArguments(f: string, fileName: string, base: string, env: string, valuesPath: string)
    requires '"' !in f && '"' !in fileName && '"' !in base && '"' !in env && '"' !in valuesPath
    ensures GoStrings.Split(RenderExpr(f, fileName, base, env, valuesPath), '"')
         == ["(import " + f + ").render ", fileName, " ", base, " ", env, " ", valuesPath, ""]
  {
    var q := ['"'];
    var head := "(import " + f + ").render ";
    assert '"' !in head;
    var t7 := valuesPath + q + [];
    var t5 := env + q + ([' '] + q + t7);
    var t3 := base + q + ([' '] + q + t5);
    var t1 := fileName + q + ([' '] + q + t3);
    LastQuoted(valuesPath);
    QuotedThenSpace(env, t7, [valuesPath, ""]);
    QuotedThenSpace(base, t5, [env, " ", valuesPath, ""]);
    QuotedThenSpace(fileName, t3, [base, " ", env, " ", valuesPath, ""]);
    GoStrings.SplitAtFirst(head, t1, '"');
    RenderExprShape(f, fileName, base, env, valuesPath);
  }

  /** Two expressions are equal only for the same arguments in the same order. */
  lemma RenderExprInjective(f: string, a: seq<string>, b: seq<string>)
    requires |a| == 4 && |b| == 4
    requires '"' !in f && forall i :: 0 <= i < 4 ==> '"' !in a[i] && '"' !in b[i]
    requires RenderExpr(f, a[0], a[1], a[2], a[3]) == RenderExpr(f, b[0], b[1], b[2], b[3])
    ensures a == b
  {
    RenderExprArguments(f, a[0], a[1], a[2], a[3]);
    RenderExprArguments(f, b[0], b[1], b[2], b[3]);
    var sa := GoStrings.Split(RenderExpr(f, a[0], a[1], a[2], a[3]), '"');
    assert sa[1] == a[0] && sa[3] == a[1] && sa[5] == a[2] && sa[7] == a[3];
  }

  /** An evaluator error returns an error with no YAML and no cleanup list. */
  lemma EvalErrorGivesNothing(r: Renderer, tools: RenderTools, fileName: string, base: string, env: string, valuesPath: string)
    requires tools.writeEvalNix(r.evalNix).Success?
    requires tools.nixEval(RenderExpr(tools.writeEvalNix(r.evalNix).value, fileName, base, env, valuesPath), r.showTrace).failure.Some?
    ensures RenderSpec(r, tools, fileName, base, env, valuesPath).RenderFailed?
    ensures RenderSpec(r, tools, fileName, base, env, valuesPath).err.EvalFailed?
  {
  }

  /** A document that does not decode, or does not marshal, fails the conversion with no YAML. */
  lemma ConvertErrorGivesNothing(r: Renderer, tools: RenderTools, fileName: string, base: string, env: string, valuesPath: string)
    requires tools.writeEvalNix(r.evalNix).Success?
    requires var run := tools.nixEval(RenderExpr(tools.writeEvalNix(r.evalNix).value, fileName, base, env, valuesPath), r.showTrace);
             run.failure.None? && tools.codec.decode(run.output).Failure?
    ensures RenderSpec(r, tools, fileName, base, env, valuesPath).RenderFailed?
    ensures RenderSpec(r, tools, fileName, base, env, valuesPath).err.ConvertFailed?
  {
  }

  /**
   * The hook renders charts, with the renderer's `base`, exactly for map
   * documents holding `releases`; a chart error ends the process; other
   * non-nil documents pass through untouched and keep the cleanup state.
   */
  lemma HookDispatch(base: string, ev: NixChart.ChartEvaluator, cleanup: seq<string>, v: Value)
    ensures !v.Null? && !HasReleases(v) ==> RenderHook(base, ev, cleanup, v) == Transform.Continue(cleanup, v)
    ensures HasReleases(v) && NixChart.RenderChartsSpec(v.entries, base, ev).Charts? ==>
      var o := NixChart.RenderChartsSpec(v.entries, base, ev);
      RenderHook(base, ev, cleanup, v) == Transform.Continue(o.cleanup, Map(o.doc))
    ensures HasReleases(v) && NixChart.RenderChartsSpec(v.entries, base, ev).ChartsFailed? ==>
      RenderHook(base, ev, cleanup, v) == Transform.Exit(ChartsFatal(NixChart.RenderChartsSpec(v.entries, base, ev).err))
  {
  }

  /** A `releases` key holding nil still reaches `RenderCharts`, which rejects it, and the process ends. */
  lemma NullReleasesIsFatal(base: string, ev: NixChart.ChartEvaluator, cleanup: seq<string>, t: Tree)
    requires "releases" in t && t["releases"] == Null
    ensures RenderHook(base, ev, cleanup, Map(t)) == Transform.Exit(ChartsFatal(NixChart.ReleasesNotSlice))
  {
  }

  /** A nil document makes the hook's type switch panic. */
  lemma NullDocumentPanics(base: string, ev: NixChart.ChartEvaluator, cleanup: seq<string>)
    ensures RenderHook(base, ev, cleanup, Null) == Transform.Exit(NilDocumentPanic)
  {
  }

  /** One more document: the cleanup state is what its `RenderCharts` returned when it has `releases`, else unchanged. */
  lemma HookStep(docs: seq<Value>, base: string, ev: NixChart.ChartEvaluator,
                 marshal: Value -> Result<Transform.Text, string>)
    requires docs != [] && Transform.ConvertDocs(docs, [], Hook(base, ev), marshal).Converted?
    ensures var prev := Transform.ConvertDocs(docs[..|docs| - 1], [], Hook(base, ev), marshal);
            var c := Transform.ConvertDocs(docs, [], Hook(base, ev), marshal).state;
            var last := docs[|docs| - 1];
            && prev.Converted?
            && (HasReleases(last) ==> NixChart.RenderChartsSpec(last.entries, base, ev).Charts?
                                      && c == NixChart.RenderChartsSpec(last.entries, base, ev).cleanup)
            && (!HasReleases(last) ==> c == prev.state)
  {
    var prev := Transform.ConvertDocs(docs[..|docs| - 1], [], Hook(base, ev), marshal);
    assert prev.Converted?;
    var h := RenderHook(base, ev, prev.state, docs[|docs| - 1]);
    assert Hook(base, ev)(prev.state, docs[|docs| - 1]) == h;
    assert h.Continue?;
  }

  /** With no document holding `releases`, the cleanup list returned is empty. */
  lemma {:induction false} NoReleasesNoCleanup(docs: seq<Value>, base: string, ev: NixChart.ChartEvaluator,
                                             marshal: Value -> Result<Transform.Text, string>)
    requires Transform.ConvertDocs(docs, [], Hook(base, ev), marshal).Converted?
    requires forall i :: 0 <= i < |docs| ==> !HasReleases(docs[i])
    ensures Transform.ConvertDocs(docs, [], Hook(base, ev), marshal).state == []
    decreases |docs|
  {
    if docs != [] {
      var front := docs[..|docs| - 1];
      HookStep(docs, base, ev, marshal);
      assert forall i :: 0 <= i < |front| ==> front[i] == docs[i];
      NoReleasesNoCleanup(front, base, ev, marshal);
    }
  }

  /**
   * The cleanup list returned is the one from the last document with
   * `releases`; earlier lists are overwritten, not appended.
   */
  lemma {:induction false} LastReleasesDocumentWins(docs: seq<Value>, i: nat, base: string, ev: NixChart.ChartEvaluator,
                                                  marshal: Value -> Result<Transform.Text, string>)
    requires Transform.ConvertDocs(docs, [], Hook(base, ev), marshal).Converted?
    requires i < |docs| && HasReleases(docs[i])
    requires forall j :: i < j < |docs| ==> !HasReleases(docs[j])
    ensures NixChart.RenderChartsSpec(docs[i].entries, base, ev).Charts?
    ensures Transform.ConvertDocs(docs, [], Hook(base, ev), marshal).state
         == NixChart.RenderChartsSpec(docs[i].entries, base, ev).cleanup
    decreases |docs|
  {
    var front := docs[..|docs| - 1];
    HookStep(docs, base, ev, marshal);
    if i < |docs| - 1 {
      assert forall j :: i < j < |front| ==> front[j] == docs[j];
      assert front[i] == docs[i];
      LastReleasesDocumentWins(front, i, base, ev, marshal);
    }
  }
}
