/**
 * pkgs/nixchart/nixchart.go: the pass that walks a helmfile document's
 * `releases`, renders every release that names a `nixChart` through an
 * evaluator, rewrites that release to point at the rendered directory, and
 * collects the directories for cleanup.
 */
module NixChart {
  import opened Wrappers
  import opened ValueTree
  import Environment

  /** `m[k]` of a Go map read through `any`: absent and a stored nil both read as nil. */
  function Get(t: Tree, k: string): Option<Value>
  {
    if k in t then Some(t[k]) else None
  }

  // ------------------------------------------------------ chart values

  predicate AllMaps(vs: seq<Value>)
  {
    forall i :: 0 <= i < |vs| ==> vs[i].Map?
  }

  /** A list of maps merged left to right with `MergeMaps`, starting from `{}`. */
  function FoldMerge(vs: seq<Value>): Tree
    requires AllMaps(vs)
  {
    if vs == [] then map[]
    else Environment.MergeMaps(FoldMerge(vs[..|vs| - 1]), vs[|vs| - 1].entries)
  }

  /**
   * The base of a chart's values: a list of maps is merged, a single map is
   * used as it is, anything else (absent, nil, another type) is `{}`.
   */
  function BaseValues(release: Tree): Tree
  {
    if "values" in release && release["values"].Seq? && AllMaps(release["values"].items) then
      FoldMerge(release["values"].items)
    else if "values" in release && release["values"].Map? then release["values"].entries
    else map[]
  }

  /**
   * The base as lines 93-106 compute it for decoded data: the list branch
   * asserts the static type `[]map[string]any`, which a decoded list (`[]any`)
   * never has, so every list falls through to `{}`.
   */
  function BaseValuesAsDecoded(release: Tree): Tree
  {
    if "values" in release && release["values"].Map? then release["values"].entries else map[]
  }

  /** The release's namespace when it is a non-empty string. */
  function Namespace(release: Tree): Option<string>
  {
    if "namespace" in release && release["namespace"].Str? && release["namespace"].s != "" then
      Some(release["namespace"].s)
    else None
  }

  /**
   * `prepareChartValues(chart)`: the base values with `release` set to the
   * release without its `values`, and `namespace` set when the release has one.
   */
  function ChartValues(release: Tree): Tree
  {
    var v := BaseValues(release)["release" := Map(release - {"values"})];
    match Namespace(release)
    case Some(ns) => v["namespace" := Str(ns)]
    case None => v
  }

  /** `prepareChartValues`: computes the values and deletes `values` from the release in place. */
  method PrepareChartValues(chart: ValueMap) returns (v: Tree)
    modifies chart
    ensures chart.entries == old(chart.entries) - {"values"}
    ensures v == ChartValues(old(chart.entries))
  {
    var release := chart.entries;
    if "values" in release && release["values"].Seq? && AllMaps(release["values"].items) {
      var vl := release["values"].items;
      var merged: Tree := map[];
      var i := 0;
      while i < |vl|
        invariant 0 <= i <= |vl|
        invariant merged == FoldMerge(vl[..i])
      {
        assert vl[..i + 1][..i] == vl[..i];
        merged := Environment.MergeMaps(merged, vl[i].entries);
        i := i + 1;
      }
      assert vl[..i] == vl;
      v := merged;
    } else if "values" in release && release["values"].Map? {
      v := release["values"].entries;
    } else {
      v := map[];
    }
    chart.entries := chart.entries - {"values"};
    v := v["release" := Map(chart.entries)];
    if "namespace" in chart.entries && chart.entries["namespace"].Str? && chart.entries["namespace"].s != "" {
      v := v["namespace" := chart.entries["namespace"]];
    }
  }

  // --------------------------------------------------------- evaluation

  datatype EvalError =
    | NixChartNotString(got: Option<Value>) // `ErrNixChartNotString`
    | ChartNotFound(reason: string)         // `failed to find chart file`
    | WriteEvalNixFailed(reason: string)    // `ErrWriteEvalNix`
    | CreateTempFailed(reason: string)      // `ErrCreateTempValuesFile`
    | RenderFailed(reason: string)          // marshalling or writing the values, nix, conversion, resources.yaml

  /** What an evaluator made of one release: the release as it left it, and the directory or an error. */
  datatype Evaluated = Evaluated(release: Tree, dir: Result<string, EvalError>)

  /** `evalChart(ctx, chart, hfbase)`, swappable as the tests swap it. */
  type ChartEvaluator = (Tree, string) -> Evaluated

  /** The chart file `FindFileNameAndBase` found. */
  datatype ChartFile = ChartFile(fileName: string, base: string)

  /**
   * The collaborators of the default evaluator: chart discovery, the outcome
   * of writing eval.nix and of creating the values file (both happen before
   * the values are prepared), the nix rendering of a chart with its values,
   * the temporary directory, and fmt's `%s` rendering of a value other than
   * a string or nil.
   */
  datatype ChartTools = ChartTools(
    locate: (string, string) -> Result<ChartFile, string>,
    writeEvalNix: Result<(), string>,
    createTemp: Result<(), string>,
    render: (ChartFile, Tree) -> Result<(), string>,
    tempDir: string,
    show: Value -> string)

  /** `%s` of a map entry: strings print as they are, nil as `%!s(<nil>)`. */
  function Show(tools: ChartTools, v: Option<Value>): string
  {
    match v
    case None => "%!s(<nil>)"
    case Some(Null) => "%!s(<nil>)"
    case Some(Str(s)) => s
    case Some(other) => tools.show(other)
  }

  /** The rendered chart's directory `nixChart-<namespace>-<name>` under the temporary directory. */
  function ChartDir(tools: ChartTools, release: Tree): string
  {
    tools.tempDir + "/" + "nixChart-" + Show(tools, Get(release, "namespace")) + "-" + Show(tools, Get(release, "name"))
  }

  /**
   * The default `evalChart`: type check, find the chart, write eval.nix,
   * create the values file, prepare the values (which deletes `values` from
   * the release), render, name the directory.
   */
  function EvalChart(tools: ChartTools, release: Tree, hfbase: string): Evaluated
  {
    if !("nixChart" in release && release["nixChart"].Str?) then
      Evaluated(release, Failure(NixChartNotString(Get(release, "nixChart"))))
    else
      match tools.locate(hfbase, release["nixChart"].s)
      case Failure(e) => Evaluated(release, Failure(ChartNotFound(e)))
      case Success(file) =>
        if tools.writeEvalNix.Failure? then Evaluated(release, Failure(WriteEvalNixFailed(tools.writeEvalNix.error)))
        else if tools.createTemp.Failure? then Evaluated(release, Failure(CreateTempFailed(tools.createTemp.error)))
        else
          var left := release - {"values"};
          match tools.render(file, ChartValues(release))
          case Failure(e) => Evaluated(left, Failure(RenderFailed(e)))
          case Success(_) => Evaluated(left, Success(ChartDir(tools, left)))
  }

  // ------------------------------------------------------ release walk

  datatype ChartError =
    | ReleasesNotSlice                                   // `ErrReleasesNotSlice`
    | ReleaseNotHash(index: nat, element: Value)         // `ErrReleaseNotHash: release at index <i>: <element>`
    | EvaluateFailed(name: Option<Value>, cause: EvalError) // `failed to evaluate chart <name>: <cause>`

  /** What `processRelease` did with one element of `releases`. */
  datatype Processed =
    | Skipped
    | Rendered(release: Tree, dir: string)
    | Failed(left: Value, err: ChartError)

  /** `processRelease(ctx, element, index, base)`. */
  function ProcessRelease(element: Value, index: nat, base: string, ev: ChartEvaluator): Processed
  {
    if !element.Map? then Failed(element, ReleaseNotHash(index, element))
    else
      var chart := element.entries;
      if "nixChart" !in chart || chart["nixChart"].Null? then Skipped
      else
        var e := ev(chart, base);
        match e.dir
        case Failure(cause) => Failed(Map(e.release), EvaluateFailed(Get(e.release, "name"), cause))
        case Success(dir) => Rendered(e.release["chart" := Str(dir)] - {"nixChart"}, dir)
  }

  /** The element as `processRelease` left it in place. */
  function After(p: Processed, element: Value): Value
  {
    match p
    case Skipped => element
    case Rendered(r, _) => Map(r)
    case Failed(l, _) => l
  }

  /** The releases after the loop, with the cleanup list so far, or the error that stopped it. */
  datatype Pass = Pass(items: seq<Value>, cleanup: seq<string>) | Stop(items: seq<Value>, err: ChartError)

  /** The loop of `RenderCharts` after its first `n` iterations. */
  function ProcessUpTo(releases: seq<Value>, n: nat, base: string, ev: ChartEvaluator): (r: Pass)
    requires n <= |releases|
    ensures |r.items| == |releases|
  {
    if n == 0 then Pass(releases, [])
    else
      match ProcessUpTo(releases, n - 1, base, ev)
      case Stop(items, e) => Stop(items, e)
      case Pass(items, cleanup) =>
        match ProcessRelease(releases[n - 1], n - 1, base, ev)
        case Skipped => Pass(items, cleanup)
        case Rendered(r, dir) => Pass(items[n - 1 := Map(r)], if dir != "" then cleanup + [dir] else cleanup)
        case Failed(l, e) => Stop(items[n - 1 := l], e)
  }

  /** The document after `RenderCharts` with the cleanup list, or the error and the document as left. */
  datatype ChartsOutcome = Charts(doc: Tree, cleanup: seq<string>) | ChartsFailed(doc: Tree, err: ChartError)

  /** `RenderCharts(ctx, obj, base)`. */
  function RenderChartsSpec(doc: Tree, base: string, ev: ChartEvaluator): ChartsOutcome
  {
    if "releases" !in doc || !doc["releases"].Seq? then ChartsFailed(doc, ReleasesNotSlice)
    else
      var rs := doc["releases"].items;
      match ProcessUpTo(rs, |rs|, base, ev)
      case Pass(items, cleanup) => Charts(doc["releases" := Seq(items)], cleanup)
      case Stop(items, e) => ChartsFailed(doc["releases" := Seq(items)], e)
  }

  /** `RenderCharts`: process the releases in index order, rewriting each in place. */
  method RenderCharts(doc: ValueMap, base: string, ev: ChartEvaluator) returns (r: Result<seq<string>, ChartError>)
    modifies doc
    ensures match RenderChartsSpec(old(doc.entries), base, ev)
            case Charts(d, c) => doc.entries == d && r == Success(c)
            case ChartsFailed(d, e) => doc.entries == d && r == Failure(e)
  {
    if "releases" !in doc.entries || !doc.entries["releases"].Seq? {
      return Failure(ReleasesNotSlice);
    }
    var rs := doc.entries["releases"].items;
    var pass := ProcessReleases(rs, base, ev);
    doc.entries := doc.entries["releases" := Seq(pass.items)];
    if pass.Stop? {
      return Failure(pass.err);
    }
    return Success(pass.cleanup);
  }

  /**
   * The loop of `RenderCharts` over the releases: each element as
   * `processRelease` left it, with the non-empty rendered directories, or
   * the first error.
   */
  method ProcessReleases(rs: seq<Value>, base: string, ev: ChartEvaluator) returns (p: Pass)
    ensures p == ProcessUpTo(rs, |rs|, base, ev)
  {
    var items := rs;
    var cleanup: seq<string> := [];
    var i := 0;
    while i < |rs|
      invariant 0 <= i <= |rs|
      invariant ProcessUpTo(rs, i, base, ev) == Pass(items, cleanup)
    {
      match ProcessRelease(rs[i], i, base, ev) {
        case Skipped =>
        case Rendered(release, dir) =>
          items := items[i := Map(release)];
          if dir != "" {
            cleanup := cleanup + [dir];
          }
        case Failed(left, e) =>
          StopSticky(rs, i + 1, base, ev);
          return Stop(items[i := left], e);
      }
      i := i + 1;
    }
    return Pass(items, cleanup);
  }

  // --------------------------------------------------------- cleanup

  /** The paths that exist on the file system. */
  class FileSystem {
    var paths: set<string>

    constructor (p: set<string>)
      ensures paths == p
    {
      paths := p;
    }
  }

  /** `p` is `dir` itself or lies below it. */
  predicate Under(p: string, dir: string)
  {
    p == dir || dir + "/" <= p
  }

  /** `os.RemoveAll(dir)` when it succeeds: the directory and everything below it are gone. */
  function RemoveAll(paths: set<string>, dir: string): set<string>
  {
    set p | p in paths && !Under(p, dir)
  }

  /** The file system after trying every entry of `cleanup` in order. */
  function AfterCleanup(paths: set<string>, cleanup: seq<string>, removable: string -> bool): set<string>
  {
    if cleanup == [] then paths
    else
      var before := AfterCleanup(paths, cleanup[..|cleanup| - 1], removable);
      if removable(cleanup[|cleanup| - 1]) then RemoveAll(before, cleanup[|cleanup| - 1]) else before
  }

  /** The entries whose removal failed and was logged, in order. */
  function Failures(cleanup: seq<string>, removable: string -> bool): seq<string>
  {
    if cleanup == [] then []
    else
      Failures(cleanup[..|cleanup| - 1], removable)
      + (if removable(cleanup[|cleanup| - 1]) then [] else [cleanup[|cleanup| - 1]])
  }

  /**
   * `CleanupCharts(cleanup)`: `os.RemoveAll` on every entry; a failure is
   * logged (returned here) and the loop goes on. `removable` says which
   * removals the operating system lets succeed.
   */
  method CleanupCharts(fs: FileSystem, cleanup: seq<string>, removable: string -> bool) returns (failed: seq<string>)
    modifies fs
    ensures fs.paths == AfterCleanup(old(fs.paths), cleanup, removable)
    ensures failed == Failures(cleanup, removable)
  {
    failed := [];
    var i := 0;
    while i < |cleanup|
      invariant 0 <= i <= |cleanup|
      invariant fs.paths == AfterCleanup(old(fs.paths), cleanup[..i], removable)
      invariant failed == Failures(cleanup[..i], removable)
    {
      assert cleanup[..i + 1][..i] == cleanup[..i];
      if removable(cleanup[i]) {
        fs.paths := RemoveAll(fs.paths, cleanup[i]);
      } else {
        failed := failed + [cleanup[i]];
      }
      i := i + 1;
    }
    assert cleanup[..i] == cleanup;
  }

  // ------------------------------------------------- properties: values

  /** The keys of a fold are the keys of all the merged maps. */
  lemma {:induction false} FoldMergeKeys(vs: seq<Value>, k: string)
    requires AllMaps(vs)
    ensures k in FoldMerge(vs) <==> exists j :: 0 <= j < |vs| && k in vs[j].entries
    decreases |vs|
  {
    if vs != [] {
      var front := vs[..|vs| - 1];
      FoldMergeKeys(front, k);
      if k in FoldMerge(vs) {
        if k !in vs[|vs| - 1].entries {
          var j :| 0 <= j < |front| && k in front[j].entries;
          assert vs[j] == front[j];
        }
      } else {
        forall j | 0 <= j < |vs|
          ensures k !in vs[j].entries
        {
          if j < |front| {
            assert vs[j] == front[j];
          }
        }
      }
    }
  }

  /** A later list entry's scalar wins over everything before it. */
  lemma FoldMergeLastWins(vs: seq<Value>, k: string)
    requires AllMaps(vs) && vs != []
    requires k in vs[|vs| - 1].entries && !vs[|vs| - 1].entries[k].Map?
    ensures FoldMerge(vs)[k] == vs[|vs| - 1].entries[k]
  {
  }

  /** The test's list `[{a:1,b:"two"},{b:"overwritten",c:3}]` merges to `{a:1,b:"overwritten",c:3}`. */
  lemma ValuesListExample()
    ensures var release := map["values" := Seq([Map(map["a" := Int(1), "b" := Str("two")]),
                                                Map(map["b" := Str("overwritten"), "c" := Int(3)])])];
            var v := BaseValues(release);
            v == map["a" := Int(1), "b" := Str("overwritten"), "c" := Int(3)]
  {
    var m1 := map["a" := Int(1), "b" := Str("two")];
    var m2 := map["b" := Str("overwritten"), "c" := Int(3)];
    var vs := [Map(m1), Map(m2)];
    assert AllMaps(vs);
    assert vs[..1] == [Map(m1)];
    assert vs[..1][..0] == [];
    Environment.MergeLeftIdentity(m1);
    assert FoldMerge(vs[..1]) == m1;
    assert FoldMerge(vs) == Environment.MergeMaps(m1, m2);
    TwoLayerExample("a", "b", "c");
  }

  /** Two value layers with a shared scalar key: the later layer's scalar wins, the other keys are kept. */
  lemma TwoLayerExample(ka: string, kb: string, kc: string)
    requires ka != kb && kb != kc && ka != kc
    ensures Environment.MergeMaps(map[ka := Int(1), kb := Str("two")], map[kb := Str("overwritten"), kc := Int(3)])
         == map[ka := Int(1), kb := Str("overwritten"), kc := Int(3)]
  {
    var a := map[ka := Int(1), kb := Str("two")];
    var b := map[kb := Str("overwritten"), kc := Int(3)];
    var r := Environment.MergeMaps(a, b);
    assert a.Keys == {ka, kb} && b.Keys == {kb, kc};
    assert r.Keys == {ka, kb, kc};
    assert ka !in b;
    Environment.ThreeEntries(r, ka, kb, kc, Int(1), Str("overwritten"), Int(3));
  }

  /** `release` always holds the release without its `values`, whatever the values said. */
  lemma ReleaseKeyIsSnapshot(release: Tree)
    ensures "release" in ChartValues(release)
    ensures ChartValues(release)["release"] == Map(release - {"values"})
    ensures "values" !in ChartValues(release)["release"].entries
    ensures "nixChart" in release ==> ChartValues(release)["release"].entries["nixChart"] == release["nixChart"]
  {
  }

  /**
   * `namespace` is the release's when that is a non-empty string; otherwise
   * a `namespace` from the values survives unchanged, or stays absent.
   */
  lemma NamespaceRule(release: Tree)
    ensures Namespace(release).Some? ==> ChartValues(release)["namespace"] == Str(Namespace(release).value)
    ensures Namespace(release).None? ==>
      ("namespace" in ChartValues(release) <==> "namespace" in BaseValues(release))
      && ("namespace" in BaseValues(release) ==> ChartValues(release)["namespace"] == BaseValues(release)["namespace"])
  {
  }

  /** Every other key comes from the base values unchanged. */
  lemma OtherKeysFromBase(release: Tree, k: string)
    requires k != "release" && k != "namespace"
    ensures k in ChartValues(release) <==> k in BaseValues(release)
    ensures k in BaseValues(release) ==> ChartValues(release)[k] == BaseValues(release)[k]
  {
  }

  /** A release without values and without a namespace gives values holding only `release`. */
  lemma NoValuesOnlyRelease(release: Tree)
    requires "values" !in release && Namespace(release).None?
    ensures ChartValues(release).Keys == {"release"}
  {
  }

  /** The test release with namespace `test-ns` overwrites the values' `namespace`. */
  lemma NamespaceOverwriteExample()
    ensures var release := map["namespace" := Str("test-ns"), "installed" := Bool(true),
                               "values" := Map(map["a" := Int(1), "namespace" := Str("should-be-overwritten")])];
            ChartValues(release)["namespace"] == Str("test-ns")
            && ChartValues(release)["release"] == Map(map["namespace" := Str("test-ns"), "installed" := Bool(true)])
  {
    var release := map["namespace" := Str("test-ns"), "installed" := Bool(true),
                       "values" := Map(map["a" := Int(1), "namespace" := Str("should-be-overwritten")])];
    assert Namespace(release) == Some("test-ns");
    assert release - {"values"} == map["namespace" := Str("test-ns"), "installed" := Bool(true)];
  }

  /**
   * The list branch is unreachable for decoded data: a decoded values list
   * of maps is dropped, where the merged list was evidently meant.
   */
  lemma DecodedValuesListDropped()
    ensures var release := map["values" := Seq([Map(map["a" := Int(1)])])];
            BaseValuesAsDecoded(release) == map[] && BaseValues(release) == map["a" := Int(1)]
  {
    var vs := [Map(map["a" := Int(1)])];
    assert vs[..0] == [];
    Environment.MergeLeftIdentity(map["a" := Int(1)]);
  }

  /** Apart from lists, the as-written base and the corrected base agree. */
  lemma BaseValuesAgreeOffLists(release: Tree)
    requires !("values" in release && release["values"].Seq?)
    ensures BaseValuesAsDecoded(release) == BaseValues(release)
  {
  }

  // --------------------------------------------- properties: evaluation

  /** A `nixChart` that is not a string fails the default evaluator before anything is touched. */
  lemma NixChartNotStringFails(tools: ChartTools, release: Tree, hfbase: string)
    requires "nixChart" in release && !release["nixChart"].Str?
    ensures EvalChart(tools, release, hfbase) == Evaluated(release, Failure(NixChartNotString(Some(release["nixChart"]))))
  {
  }

  /**
   * A release the default evaluator renders ends with `chart` set to the
   * directory and without `nixChart` or `values`; the values it rendered
   * with still saw `nixChart` in their `release` snapshot.
   */
  lemma DefaultEvaluatorRewrites(tools: ChartTools, release: Tree, index: nat, hfbase: string)
    requires "nixChart" in release && release["nixChart"].Str?
    requires tools.locate(hfbase, release["nixChart"].s).Success?
    requires tools.writeEvalNix.Success? && tools.createTemp.Success?
    requires tools.render(tools.locate(hfbase, release["nixChart"].s).value, ChartValues(release)).Success?
    ensures var p := ProcessRelease(Map(release), index, hfbase, (r, b) => EvalChart(tools, r, b));
            && p.Rendered?
            && p.dir == ChartDir(tools, release)
            && p.release.Keys == release.Keys - {"values", "nixChart"} + {"chart"}
            && p.release["chart"] == Str(p.dir)
            && (forall k :: k in release && k !in {"values", "nixChart", "chart"} ==> p.release[k] == release[k])
  {
    var left := release - {"values"};
    assert Get(left, "namespace") == Get(release, "namespace");
    assert Get(left, "name") == Get(release, "name");
  }

  /**
   * A failure while writing eval.nix or creating the values file comes
   * before the values are prepared: the release keeps its `values`, and so
   * does the element `processRelease` leaves behind.
   */
  lemma SetupFailureKeepsValues(tools: ChartTools, release: Tree, index: nat, hfbase: string)
    requires "nixChart" in release && release["nixChart"].Str?
    requires tools.locate(hfbase, release["nixChart"].s).Success?
    requires tools.writeEvalNix.Failure? || tools.createTemp.Failure?
    ensures EvalChart(tools, release, hfbase).release == release
    ensures EvalChart(tools, release, hfbase).dir
         == Failure(if tools.writeEvalNix.Failure? then WriteEvalNixFailed(tools.writeEvalNix.error)
                    else CreateTempFailed(tools.createTemp.error))
    ensures var p := ProcessRelease(Map(release), index, hfbase, (r, b) => EvalChart(tools, r, b));
            p.Failed? && p.left == Map(release)
  {
  }

  /** A failure after the values were prepared leaves the release without its `values`. */
  lemma RenderFailureDropsValues(tools: ChartTools, release: Tree, hfbase: string)
    requires "nixChart" in release && release["nixChart"].Str?
    requires tools.locate(hfbase, release["nixChart"].s).Success?
    requires tools.writeEvalNix.Success? && tools.createTemp.Success?
    requires tools.render(tools.locate(hfbase, release["nixChart"].s).value, ChartValues(release)).Failure?
    ensures EvalChart(tools, release, hfbase).release == release - {"values"}
    ensures EvalChart(tools, release, hfbase).dir.Failure?
    ensures EvalChart(tools, release, hfbase).dir.error.RenderFailed?
  {
  }

  /** The directory depends only on the namespace and name: two such releases share it. */
  lemma ChartDirNotUnique(tools: ChartTools, r1: Tree, r2: Tree)
    requires Get(r1, "namespace") == Get(r2, "namespace") && Get(r1, "name") == Get(r2, "name")
    ensures ChartDir(tools, r1) == ChartDir(tools, r2)
  {
  }

  // ------------------------------------------- properties: release walk

  /** The per-release rules of `processRelease`. */
  lemma ReleaseOutcomes(element: Value, index: nat, base: string, ev: ChartEvaluator)
    ensures !element.Map? ==> ProcessRelease(element, index, base, ev) == Failed(element, ReleaseNotHash(index, element))
    ensures element.Map? && (Get(element.entries, "nixChart") == None || Get(element.entries, "nixChart") == Some(Null))
            ==> ProcessRelease(element, index, base, ev) == Skipped
    ensures element.Map? && ProcessRelease(element, index, base, ev).Rendered? ==>
            var p := ProcessRelease(element, index, base, ev);
            "chart" in p.release && p.release["chart"] == Str(p.dir) && "nixChart" !in p.release
  {
  }

  /** `releases` that is absent or not a list fails before any release is looked at. */
  lemma ReleasesMustBeList(doc: Tree, base: string, ev: ChartEvaluator)
    requires "releases" !in doc || !doc["releases"].Seq?
    ensures RenderChartsSpec(doc, base, ev) == ChartsFailed(doc, ReleasesNotSlice)
  {
  }

  /** Once the loop stops, later iterations change nothing. */
  lemma {:induction false} StopSticky(releases: seq<Value>, n: nat, base: string, ev: ChartEvaluator)
    requires n <= |releases| && ProcessUpTo(releases, n, base, ev).Stop?
    ensures ProcessUpTo(releases, |releases|, base, ev) == ProcessUpTo(releases, n, base, ev)
    decreases |releases| - n
  {
    if n < |releases| {
      StopSticky(releases, n + 1, base, ev);
    }
  }

  /** The non-empty directories rendered by a run of per-release outcomes, front to back. */
  function Dirs(ps: seq<Processed>): seq<string>
  {
    if ps == [] then []
    else (if ps[0].Rendered? && ps[0].dir != "" then [ps[0].dir] else []) + Dirs(ps[1..])
  }

  lemma {:induction false} DirsSnoc(ps: seq<Processed>, p: Processed)
    ensures Dirs(ps + [p]) == Dirs(ps) + (if p.Rendered? && p.dir != "" then [p.dir] else [])
    decreases |ps|
  {
    if ps == [] {
      assert [p][1..] == [];
    } else {
      assert (ps + [p])[1..] == ps[1..] + [p];
      DirsSnoc(ps[1..], p);
    }
  }

  /** `processRelease` on every element, with its index. */
  function Outcomes(releases: seq<Value>, base: string, ev: ChartEvaluator): seq<Processed>
  {
    seq(|releases|, i requires 0 <= i < |releases| => ProcessRelease(releases[i], i, base, ev))
  }

  /** The first `n` outcomes are the first `n - 1` and then that of release `n - 1`. */
  lemma OutcomesSnoc(releases: seq<Value>, n: nat, base: string, ev: ChartEvaluator)
    requires 0 < n <= |releases|
    ensures Outcomes(releases, base, ev)[..n]
         == Outcomes(releases, base, ev)[..n - 1] + [ProcessRelease(releases[n - 1], n - 1, base, ev)]
  {
    var ps := Outcomes(releases, base, ev);
    assert ps[n - 1] == ProcessRelease(releases[n - 1], n - 1, base, ev);
    assert ps[..n] == ps[..n - 1] + [ps[n - 1]];
  }

  /** The loop gets through the first `n` releases exactly when none of them fails. */
  lemma {:induction false} ProcessUpToPassIff(releases: seq<Value>, n: nat, base: string, ev: ChartEvaluator)
    requires n <= |releases|
    ensures ProcessUpTo(releases, n, base, ev).Pass?
        <==> forall i :: 0 <= i < n ==> !ProcessRelease(releases[i], i, base, ev).Failed?
    decreases n
  {
    if n > 0 {
      ProcessUpToPassIff(releases, n - 1, base, ev);
    }
  }

  /**
   * After `n` iterations that got through, the loop holds every release as
   * `processRelease` left it, the untouched rest, and the non-empty rendered
   * directories in release order.
   */
  lemma {:induction false} ProcessUpToContents(releases: seq<Value>, n: nat, base: string, ev: ChartEvaluator)
    requires n <= |releases| && ProcessUpTo(releases, n, base, ev).Pass?
    ensures var r := ProcessUpTo(releases, n, base, ev);
            && (forall i :: 0 <= i < n ==> r.items[i] == After(ProcessRelease(releases[i], i, base, ev), releases[i]))
            && (forall i :: n <= i < |releases| ==> r.items[i] == releases[i])
            && r.cleanup == Dirs(Outcomes(releases, base, ev)[..n])
    decreases n
  {
    var ps := Outcomes(releases, base, ev);
    if n == 0 {
      assert ps[..0] == [];
    } else {
      ProcessUpToContents(releases, n - 1, base, ev);
      var prev := ProcessUpTo(releases, n - 1, base, ev);
      var p := ProcessRelease(releases[n - 1], n - 1, base, ev);
      OutcomesSnoc(releases, n, base, ev);
      DirsSnoc(ps[..n - 1], p);
      var r := ProcessUpTo(releases, n, base, ev);
      if p.Rendered? {
        assert r.items == prev.items[n - 1 := Map(p.release)];
      } else {
        assert r.items == prev.items;
      }
    }
  }

  /**
   * On success the cleanup list is exactly the non-empty directories the
   * releases rendered, in release order, and each release is as
   * `processRelease` left it.
   */
  lemma CleanupIsRenderedDirs(doc: Tree, base: string, ev: ChartEvaluator)
    requires RenderChartsSpec(doc, base, ev).Charts?
    ensures "releases" in doc && doc["releases"].Seq?
    ensures var rs := doc["releases"].items;
            var out := RenderChartsSpec(doc, base, ev);
            && out.cleanup == Dirs(Outcomes(rs, base, ev))
            && "releases" in out.doc && out.doc["releases"].Seq?
            && |out.doc["releases"].items| == |rs|
            && forall i :: 0 <= i < |rs| ==>
                 out.doc["releases"].items[i] == After(ProcessRelease(rs[i], i, base, ev), rs[i])
  {
    var rs := doc["releases"].items;
    ProcessUpToContents(rs, |rs|, base, ev);
    assert Outcomes(rs, base, ev)[..|rs|] == Outcomes(rs, base, ev);
  }

  /**
   * The first failing release decides the error, and no cleanup list is
   * returned, so directories rendered for earlier releases are not reported.
   */
  lemma FirstErrorAborts(doc: Tree, base: string, ev: ChartEvaluator, i: nat)
    requires "releases" in doc && doc["releases"].Seq?
    requires i < |doc["releases"].items|
    requires ProcessRelease(doc["releases"].items[i], i, base, ev).Failed?
    requires forall j :: 0 <= j < i ==> !ProcessRelease(doc["releases"].items[j], j, base, ev).Failed?
    ensures RenderChartsSpec(doc, base, ev).ChartsFailed?
    ensures RenderChartsSpec(doc, base, ev).err == ProcessRelease(doc["releases"].items[i], i, base, ev).err
  {
    var rs := doc["releases"].items;
    ProcessUpToPassIff(rs, i, base, ev);
    StopSticky(rs, i + 1, base, ev);
  }

  /** The test: one release with a `nixChart`, rendered to a directory, gives one cleanup entry. */
  lemma SingleReleaseExample(release: Tree, base: string, ev: ChartEvaluator, dir: string)
    requires "nixChart" in release && release["nixChart"].Str?
    requires ev(release, base) == Evaluated(release, Success(dir)) && dir != ""
    ensures RenderChartsSpec(map["releases" := Seq([Map(release)])], base, ev).Charts?
    ensures RenderChartsSpec(map["releases" := Seq([Map(release)])], base, ev).cleanup == [dir]
  {
    var rs := [Map(release)];
    assert ProcessUpTo(rs, 0, base, ev) == Pass(rs, []);
    assert ProcessRelease(rs[0], 0, base, ev).Rendered?;
    assert ProcessUpTo(rs, 1, base, ev).cleanup == [] + [dir];
  }

  // ------------------------------------------------ properties: cleanup

  /**
   * Cleanup is best-effort and never stops early: a path survives exactly
   * when it existed and lies below no entry whose removal succeeds.
   */
  lemma {:induction false} CleanupRemovesRemovable(paths: set<string>, cleanup: seq<string>, removable: string -> bool, p: string)
    ensures p in AfterCleanup(paths, cleanup, removable)
        <==> p in paths && forall k :: 0 <= k < |cleanup| && removable(cleanup[k]) ==> !Under(p, cleanup[k])
    decreases |cleanup|
  {
    if cleanup != [] {
      var front := cleanup[..|cleanup| - 1];
      CleanupRemovesRemovable(paths, front, removable, p);
      forall k | 0 <= k < |front|
        ensures front[k] == cleanup[k]
      {
      }
    }
  }

  /**
   * An entry under which nothing exists is removed without changing the
   * file system, so treating it as removable (as `os.RemoveAll` does, which
   * returns nil for a missing path) loses nothing.
   */
  lemma MissingEntryRemovesNothing(paths: set<string>, dir: string)
    requires forall p :: p in paths ==> !Under(p, dir)
    ensures RemoveAll(paths, dir) == paths
  {
  }

  /** Exactly the entries whose removal fails are reported, each as often as it occurs. */
  lemma {:induction false} FailuresAreUnremovable(cleanup: seq<string>, removable: string -> bool, x: string)
    ensures x in Failures(cleanup, removable) <==> x in cleanup && !removable(x)
    decreases |cleanup|
  {
    if cleanup != [] {
      var front := cleanup[..|cleanup| - 1];
      FailuresAreUnremovable(front, removable, x);
      assert cleanup == front + [cleanup[|cleanup| - 1]];
    }
  }
}
