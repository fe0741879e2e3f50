# helmfile-nix: a verified model of the configuration algebra and release rewriting

helmfile-nix renders a `helmfile.nix` through nix into helmfile YAML. This
project models, in Dafny, the parts of it that compute rather than
orchestrate processes:

- the value tree the tool passes around (null, bool, int, opaque float,
  string, sequence, string-keyed map);
- the deep merge of value layers and the dotted-key setter that applies
  `--state-values-set` overrides to the caller's map in place
  (pkgs/environment/values.go);
- the values writer that layers `env/defaults.yaml` under `env/<env>.yaml`
  and runs the override grammar `k=v,k2=v2` over the merged map
  (pkgs/environment/writer.go);
- the multi-document joiner `JSONToYAMLs` with its per-element hook and its
  `---\n` separator rule (pkgs/transform/convert.go);
- the release-rewriting pass `RenderCharts`/`processRelease`, the chart
  values builder `prepareChartValues`, the type check and directory naming of
  the default chart evaluator, and the best-effort `CleanupCharts`
  (pkgs/nixchart/nixchart.go);
- `Renderer.Render` with its expression, its error paths and the hook that
  renders the charts of every document listing `releases`
  (pkgs/helmfile/renderer.go);
- the older copies of merge, setter, joiner and values writer in
  pkgs/utils/utils.go and main.go, each as its own variant.

Files, one module each: `wrappers.dfy` (Option, Result), `go_strings.dfy`
(Go's `strings.Split` and `strings.Join` on a one-character separator),
`value_tree.dfy` (values, paths, the `ValueMap` class that stands for a Go
map shared by reference), `environment_values.dfy`, `environment_writer.dfy`,
`transform.dfy`, `nixchart.dfy`, `renderer.dfy`, `utils.dfy`,
`legacy_main.dfy`.

Where the source works step by step on a map it mutates, the model is a
method on a `ValueMap` (or `FileSystem`) object, proved equal to a
specification function of the old state. The properties the source promises
are then lemmas about those functions. The YAML and JSON libraries, nix,
chart discovery, the temporary directory and the removability of a path are
function-typed parameters.

Behaviour of the code that is easy to misread:

- Merging is not associative: `Environment.MergeNotAssociative` gives three
  trees where `Merge(Merge(a,b),c) != Merge(a,Merge(b,c))`. The code only
  ever folds layers left to right.
- On a failing release `RenderCharts` returns a nil cleanup list, so
  directories rendered for earlier releases are not reported.
- main.go's writer fails on a missing defaults or environment file. The
  environment package treats a missing file as an empty layer.
- utils.go's setter stores nil at a plain key whose value fails to parse,
  then returns the error. This is Go's `m[k], err = f()`.
- In utils.go and main.go, the walk over the intermediate segments of a
  dotted key looks every segment up in the root map. The first segment is
  created at the root when missing, so it panics only when it holds a
  non-map. A later segment panics when it is neither the first segment nor
  a key of the root map holding a map (`Utils.LegacyWalkMeaning`). The
  model does not make this a precondition; it makes the unchecked type
  assertion's panic the error outcome `AssertionPanic`.

## Model

| member | source | states |
|---|---|---|
| Environment.MergeMaps | pkgs/environment/values.go:15-30 | the result's keys are the union of both inputs; a key only in `a` keeps `a`'s value; the overlay's value wins unless both sides hold maps; when both hold maps the result does too |
| Environment.MergeRightIdentity | pkgs/environment/values.go:15-30 | merging an empty overlay gives `a` back |
| Environment.MergeLeftIdentity | pkgs/environment/values.go:15-30 | merging over an empty base gives the overlay back |
| Environment.MergeIdempotent | pkgs/environment/values.go:15-30 | merging a tree with itself gives the tree |
| Environment.MergeOverlayLeafWins | pkgs/environment/values.go:18-28 | any non-map value the overlay holds at any path is exactly what the merge holds there |
| Environment.MergeBothMaps | pkgs/environment/values.go:19-25 | where both sides hold maps at a key, the result holds their recursive merge there |
| Environment.MergeSharedMapKey | pkgs/environment/values.go:15-30 | two trees sharing one key that holds maps on both sides merge into the left-only entry, the merged shared maps and the right-only entry |
| Environment.MergeExample | pkgs/environment/values_test.go:8-19 | `{a:1,b:{x:1}}` merged with `{b:{y:2},c:3}` is `{a:1,b:{x:1,y:2},c:3}`, for any distinct key names |
| Environment.MergeNotAssociative | pkgs/environment/values.go:15-30 | for any key, a scalar in the middle layer gives trees with `Merge(Merge(a,b),c) != Merge(a,Merge(b,c))`, so only the left fold is meaningful |
| Environment.EnsureStep | pkgs/environment/values.go:66-77 | when `ensureNestedMap` succeeds, the path extended by the key leads to a map |
| Environment.EnsurePath | pkgs/environment/values.go:47-62 | when the walk over the intermediate segments succeeds, the whole walked path leads to a map |
| Environment.SetNestedValueSpec | pkgs/environment/values.go:45-64 | `setNestedValue` on a tree: the intermediate segments are walked from the root, a missing one getting a new map; the first non-map stops it with `ErrNestedKeyNotMap` naming that segment; otherwise the value is parsed and stored at the last segment, or the parse error is returned with the new maps in place |
| Environment.SetNestedMapValueSpec | pkgs/environment/values.go:32-43 | a key without `.` gets the parsed value at the top level, a parse error changing nothing; a dotted key is `setNestedValue` over its `.`-separated segments |
| Environment.EnsureNestedMap | pkgs/environment/values.go:66-77 | on the caller's map in place: a missing key gets a new empty map at the cursor; a map is reused unchanged; anything else fails naming the key and changes nothing |
| Environment.SetNestedValue | pkgs/environment/values.go:45-64 | the `mref` loop, in place, ends in exactly the state and error of the walk-then-store specification |
| Environment.SetNestedMapValue | pkgs/environment/values.go:32-43 | a plain key is set to the parsed value (a parse error leaves the map unchanged); a dotted key goes through the walk |
| Environment.BlockedSticky | pkgs/environment/values.go:57-60 | once a segment blocks the walk, longer paths end in that same block |
| Environment.EnsurePathFrame | pkgs/environment/values.go:45-77 | the walk changes nothing at any path that is not a prefix of the walked path |
| Environment.EnsurePathSucceedsIff | pkgs/environment/values.go:57-75 | the walk succeeds if and only if no walked segment holds a non-map value |
| Environment.LastStepBlocks | pkgs/environment/values.go:66-77 | after a walk that got through, one more segment blocks exactly when the original tree holds a non-map there |
| Environment.EnsurePathBlocked | pkgs/environment/values.go:57-75 | a blocked walk names the first segment holding a non-map, and every map created before it stays in place |
| Environment.SetNestedValueStores | pkgs/environment/values.go:45-55 | with the path clear and the value parsed, the value sits at the full dotted path |
| Environment.SetNestedValueSuccess | pkgs/environment/values.go:45-55 | a successful set means the value parsed and now sits at the full path |
| Environment.SetNestedValueFrame | pkgs/environment/values.go:45-77 | paths that are neither prefixes of the parent nor below the target keep their values, so sibling keys survive |
| Environment.SetNestedValueBlocked | pkgs/environment/values.go:57-75 | a non-map at an intermediate segment fails with `ErrNestedKeyNotMap` naming that first blocking segment; maps created before it stay |
| Environment.SetNestedValueParseFailure | pkgs/environment/values.go:49-52 | a parse error at the last segment is returned after the intermediate maps were created |
| Environment.SetNestedMapValueIsWalk | pkgs/environment/values.go:32-43 | a dotted key is set exactly as the walk over its `.`-separated segments |
| ValuesWriter.LoadLayer | pkgs/environment/writer.go:46-54 | a layer file that does not exist loads as the empty tree; one that exists but cannot be loaded is `LayerFailed`; otherwise its tree |
| ValuesWriter.Base | pkgs/environment/writer.go:46-56 | the defaults layer is loaded first, then the environment layer, the first failure being the result; the environment layer is merged over the defaults |
| ValuesWriter.Pieces | pkgs/environment/writer.go:58-60 | every comma-separated piece of every override string, in order |
| ValuesWriter.ApplyPiece | pkgs/environment/writer.go:61-68 | a piece that does not split on `=` into exactly two parts is `ErrInvalidStateValue` naming it; otherwise the dotted setter runs with the two parts and its error is wrapped with the key |
| ValuesWriter.ApplyPieces | pkgs/environment/writer.go:58-70 | the pieces applied left to right to the tree, the first failing piece ending the walk with its error |
| ValuesWriter.ValuesOf | pkgs/environment/writer.go:43-70 | the merged layers, or their load error, with every piece of every override applied in order |
| ValuesWriter.WriteJSON | pkgs/environment/writer.go:43-70 | the nested override loop on the merged map, in place, returns exactly the tree or error of the layered fold specification |
| ValuesWriter.ApplyOverride | pkgs/environment/writer.go:60-69 | the inner loop on the map in place applies one override string's pieces and ends in exactly the tree or first error of the piece fold |
| ValuesWriter.ApplyPiecesConcat | pkgs/environment/writer.go:58-70 | applying two runs of pieces is applying the first, then the second to its result |
| ValuesWriter.AbortAfter | pkgs/environment/writer.go:58-70 | a failure within the first override strings is the failure of the whole call |
| ValuesWriter.ApplyPiecesFailureSticky | pkgs/environment/writer.go:62-68 | after a failing piece no later piece changes the outcome |
| ValuesWriter.PieceShapeRule | pkgs/environment/writer.go:61-64 | a piece is rejected as an invalid state value exactly when it holds no `=` or more than one |
| ValuesWriter.FirstFailureDecides | pkgs/environment/writer.go:58-70 | the first failing piece's error is the error of the whole call |
| ValuesWriter.MalformedPieceFails | pkgs/environment/writer.go:61-64 | any malformed piece anywhere makes the whole call fail with no result |
| ValuesWriter.TrailingSeparatorPiece | pkgs/environment/writer.go:59 | a trailing comma leaves an empty last piece |
| ValuesWriter.TrailingCommaRejected | pkgs/environment/writer.go:59-64 | an override ending in a comma makes the call fail |
| ValuesWriter.SplitAssignment | pkgs/environment/writer.go:61 | `key=value` without further `=` splits into exactly the key and the value |
| ValuesWriter.LaterOverrideWins | pkgs/environment/writer.go:58-70 | after a successful run, the value at a key's dotted path is the parsed value of its last assignment, whatever earlier pieces or layers set there and whatever later pieces set on paths that neither pass through it nor lead to it |
| ValuesWriter.EmptyLayersGiveEmptyTree | pkgs/environment/writer_test.go:46-74 | two missing layer files and no overrides give the empty tree |
| ValuesWriter.NoOverridesGiveMergedLayers | pkgs/environment/writer.go:43-56 | with no overrides the result is the environment layer merged over the defaults layer |
| ValuesWriter.UnreadableLayerFails | pkgs/environment/writer.go:46-54 | a layer that exists but cannot be loaded fails the call, defaults checked first |
| ValuesWriter.NoEqualsSignRejected | pkgs/environment/writer_test.go:93-118 | a piece without `=` fails with the invalid-state-value error naming it |
| ValuesWriter.MultipleEqualsRejected | pkgs/environment/writer_test.go:93-118 | a piece with two `=` fails with the invalid-state-value error naming it |
| ValuesWriter.PlainAssignment | pkgs/environment/writer.go:61-68 | a plain `key=value` piece sets the key to the parsed value |
| ValuesWriter.ThreePieces | pkgs/environment/writer.go:59-60 | `p1,p2,p3` gives the three pieces in order |
| ValuesWriter.ThreeOverridesExample | pkgs/environment/writer_test.go:192-229 | `k1=v1,k2=v2,k3=v3` sets all three keys to their parsed values |
| GoStrings.Split | pkgs/environment/writer.go:59-61 | `strings.Split` always returns at least one piece |
| GoStrings.SplitPiecesFree | pkgs/environment/writer.go:59-61 | no piece contains the separator |
| GoStrings.SplitLength | pkgs/environment/writer.go:61-62 | the number of pieces is the number of separators plus one |
| GoStrings.JoinSplit | pkgs/environment/values.go:42 | splitting then joining on the separator gives the string back |
| GoStrings.SplitJoin | pkgs/environment/values.go:42 | joining separator-free pieces then splitting gives the pieces back |
| GoStrings.SplitAtLeastTwo | pkgs/utils/utils.go:137-141 | a string that contains the separator has at least two pieces |
| GoStrings.SplitNoSeparator | pkgs/environment/values.go:33-42 | a string without the separator splits into itself |
| GoStrings.SplitAtFirst | pkgs/environment/writer.go:61 | `a + sep + b`, with `a` separator-free, splits into `a` followed by the pieces of `b` |
| Transform.JSONToYAMLs | pkgs/transform/convert.go:19-46 | the hook-marshal-append loop returns exactly the text, final hook state or first error of the left-fold specification |
| Transform.ConvertDocs | pkgs/transform/convert.go:30-45 | the decoded elements in order: each is handed to the hook, then the element it left is marshalled and appended, with `---\n` before every document but the first; a hook exit or a marshal error ends the loop with no output |
| Transform.JSONToYAMLsSpec | pkgs/transform/convert.go:19-46 | a decode failure of the top-level array is returned before any element is hooked; otherwise the conversion of the decoded elements |
| Transform.AbortSticky | pkgs/transform/convert.go:35-37 | once an element fails, later elements change nothing |
| Transform.InterleaveSnoc | pkgs/transform/convert.go:39-42 | an interleaved text extended by one more document gains exactly the separator and that document |
| Transform.JoinIsInterleave | pkgs/transform/convert.go:39-42 | for non-empty document texts the output is the texts interleaved with `---\n`, no leading or trailing separator |
| Transform.ConvertIsJoin | pkgs/transform/convert.go:32-43 | with a stateless hook, the output is the join of the marshalled, hooked elements in input order |
| Transform.HookSeesEveryElement | pkgs/transform/convert.go:32-34 | the hook runs exactly once per element, in order |
| Transform.MarshalFailureAborts | pkgs/transform/convert.go:32-37 | for any hook: when the elements before it converted and the hook carried on, a marshal error on an element is the result of the whole conversion, with no output |
| Transform.HookExitAborts | pkgs/transform/convert.go:32-33 | for any hook: when the elements before it converted, a hook that ends the process on an element is the result of the whole conversion |
| Transform.NoHookMarshalFailureAborts | pkgs/transform/convert.go:32-37 | without a hook, the first element that fails to marshal decides the result, with no output |
| Transform.NoHookPrefixConverts | pkgs/transform/convert.go:32-43 | without a hook, a prefix whose elements all marshal converts |
| Transform.DecodeFailureRunsNoHook | pkgs/transform/convert.go:26-28 | a top-level decode failure returns its error without running the hook |
| Transform.EmptyArrayGivesEmptyOutput | pkgs/transform/convert_test.go:48-60 | an empty array gives empty output and the initial hook state |
| Transform.SingleElementHasNoSeparator | pkgs/transform/convert_test.go:62-75 | a single element gives just its text |
| Transform.TwoDocuments | pkgs/transform/convert.go:39-42 | two elements give the first text, `---\n`, then the second |
| Transform.TwoDocumentsExample | pkgs/transform/convert_test.go:33-46 | two documents give `"key: value\n---\nfoo: bar\n"` |
| Transform.PreprocessEditsAppear | pkgs/transform/convert_test.go:77-102 | an in-place edit by the hook is what gets marshalled |
| NixChart.PrepareChartValues | pkgs/nixchart/nixchart.go:92-118 | deletes `values` from the release in place and returns the chart values of the release as it was |
| NixChart.FoldMerge | pkgs/nixchart/nixchart.go:96-99 | a list of maps merged left to right with `MergeMaps`, starting from the empty map |
| NixChart.BaseValues | pkgs/nixchart/nixchart.go:93-106 | the base of the chart values as the code is evidently meant to read: a list of maps is folded, a map is taken as it is, anything else (absent, nil, another type) is the empty map |
| NixChart.BaseValuesAsDecoded | pkgs/nixchart/nixchart.go:93-106 | the base as written, for decoded data: a map is taken as it is and everything else, lists included, is the empty map |
| NixChart.ChartValues | pkgs/nixchart/nixchart.go:92-118 | the base values with `release` set to the release without `values`, and `namespace` set when the release has a non-empty string namespace |
| NixChart.FoldMergeKeys | pkgs/nixchart/nixchart.go:96-99 | the folded values hold a key exactly when some list entry holds it |
| NixChart.FoldMergeLastWins | pkgs/nixchart/nixchart.go:96-99 | a non-map value in the last list entry wins the fold |
| NixChart.ValuesListExample | pkgs/nixchart/nixchart_test.go:56-81 | `[{a:1,b:"two"},{b:"overwritten",c:3}]` folds to `{a:1,b:"overwritten",c:3}` |
| NixChart.TwoLayerExample | pkgs/nixchart/nixchart.go:96-99 | two layers sharing a scalar key: the later scalar wins and the other keys are kept |
| NixChart.ReleaseKeyIsSnapshot | pkgs/nixchart/nixchart.go:112-113 | `release` is always set to the release minus `values`, still holding `nixChart` |
| NixChart.NamespaceRule | pkgs/nixchart/nixchart.go:114-116 | `namespace` is overwritten only by a non-empty string namespace of the release; otherwise the values' own entry survives |
| NixChart.OtherKeysFromBase | pkgs/nixchart/nixchart.go:93-106 | every key besides `release` and `namespace` comes unchanged from the chosen base values |
| NixChart.NoValuesOnlyRelease | pkgs/nixchart/nixchart_test.go:82-106 | with no values and no usable namespace the result's only key is `release` |
| NixChart.NamespaceOverwriteExample | pkgs/nixchart/nixchart_test.go:82-106 | the test release gets namespace `test-ns` over the values' `should-be-overwritten`, and the release snapshot without `values` |
| NixChart.DecodedValuesListDropped | pkgs/nixchart/nixchart.go:94-105 | as written, a decoded list of maps is not recognised and the base values are empty; the corrected fold takes the list |
| NixChart.BaseValuesAgreeOffLists | pkgs/nixchart/nixchart.go:94-105 | as written and corrected agree whenever `values` is not a list |
| NixChart.EvalChart | pkgs/nixchart/nixchart.go:120-190 | a non-string `nixChart` fails with what was found; a chart that is not found, a failed eval.nix write or values-file creation fail with the release untouched; after that `values` is gone from the release, and a rendering failure is reported, or the directory named after namespace and name is returned |
| NixChart.NixChartNotStringFails | pkgs/nixchart/nixchart.go:121-124 | a present non-string `nixChart` fails the default evaluator with `ErrNixChartNotString` carrying what it found |
| NixChart.SetupFailureKeepsValues | pkgs/nixchart/nixchart.go:131-145 | a failure writing eval.nix or creating the values file is reported with its own error and leaves the release, and the element the walk leaves behind, with its `values` |
| NixChart.RenderFailureDropsValues | pkgs/nixchart/nixchart.go:153-163 | a failure after the values were prepared leaves the release without `values` |
| NixChart.DefaultEvaluatorRewrites | pkgs/nixchart/nixchart.go:70-79 | a default-evaluated release gains `chart` set to its directory `nixChart-<ns>-<name>` (named at line 180) under the temp dir and loses `nixChart` and `values`; other keys stay |
| NixChart.ChartDirNotUnique | pkgs/nixchart/nixchart.go:180 | two releases with the same namespace and name get the same directory |
| NixChart.ProcessRelease | pkgs/nixchart/nixchart.go:55-80 | a non-map element fails with `ErrReleaseNotHash`, its index and itself; a map with no or a nil `nixChart` is skipped; otherwise the evaluator runs, and its error is wrapped with the release's name, or the release gets `chart` set to the directory and loses `nixChart` |
| NixChart.RenderChartsSpec | pkgs/nixchart/nixchart.go:36-53 | an absent or non-list `releases` fails with `ErrReleasesNotSlice`; otherwise the releases are walked in index order and the document holds them as the walk left them, with the cleanup list or the first error |
| NixChart.ProcessUpTo | pkgs/nixchart/nixchart.go:43-51 | the walk keeps the length of the releases list |
| NixChart.RenderCharts | pkgs/nixchart/nixchart.go:36-53 | rewriting the document in place, it ends in exactly the document and cleanup list or error of the specification |
| NixChart.ProcessReleases | pkgs/nixchart/nixchart.go:42-51 | the loop over the releases returns exactly the rewritten releases and cleanup list, or the first error, of the walk specification |
| NixChart.ReleaseOutcomes | pkgs/nixchart/nixchart.go:55-80 | a non-map fails with `ErrReleaseNotHash` and its index; a map without `nixChart` (or with nil) is skipped; a rendered release has `chart` = its directory and no `nixChart` |
| NixChart.ReleasesMustBeList | pkgs/nixchart/nixchart.go:37-40 | a document whose `releases` is absent or not a sequence fails with `ErrReleasesNotSlice` |
| NixChart.StopSticky | pkgs/nixchart/nixchart.go:45-47 | after the first error no later release is processed |
| NixChart.DirsSnoc | pkgs/nixchart/nixchart.go:48-50 | one more release adds its directory to the cleanup list only when it rendered a non-empty one |
| NixChart.OutcomesSnoc | pkgs/nixchart/nixchart.go:43-44 | the outcomes of the first `n` releases are those of the first `n - 1`, then that of release `n - 1` |
| NixChart.ProcessUpToPassIff | pkgs/nixchart/nixchart.go:43-47 | the walk over the first `n` releases succeeds exactly when none of them fails |
| NixChart.ProcessUpToContents | pkgs/nixchart/nixchart.go:43-51 | after `n` releases, those are rewritten, the rest untouched, and the cleanup list is their rendered directories in order |
| NixChart.CleanupIsRenderedDirs | pkgs/nixchart/nixchart.go:42-52 | on success every release is rewritten in place and the cleanup list is the non-empty rendered directories in release order |
| NixChart.FirstErrorAborts | pkgs/nixchart/nixchart.go:43-47 | the first failing release's error is the call's error, with no cleanup list |
| NixChart.SingleReleaseExample | pkgs/nixchart/nixchart_test.go:10-54 | one rendered release gives exactly one cleanup entry, its directory |
| NixChart.CleanupCharts | pkgs/nixchart/nixchart.go:84-90 | every entry is attempted in order; the file system ends as the removal specification says, and the failures are the unremovable entries |
| NixChart.AfterCleanup | pkgs/nixchart/nixchart.go:84-90 | the paths left after trying every entry in order: a removable entry takes itself and everything below it away, an unremovable one nothing |
| NixChart.Failures | pkgs/nixchart/nixchart.go:84-90 | the entries whose removal fails, in order and with repetitions |
| NixChart.CleanupRemovesRemovable | pkgs/nixchart/nixchart.go:84-90 | a path survives cleanup exactly when no removable entry contains it |
| NixChart.FailuresAreUnremovable | pkgs/nixchart/nixchart.go:86-88 | a failure is logged for exactly the entries that cannot be removed; none stops the loop |
| NixChart.MissingEntryRemovesNothing | pkgs/nixchart/nixchart.go:86 | removing an entry under which nothing exists leaves the paths as they were |
| HelmfileRenderer.Render | pkgs/helmfile/renderer.go:35-73 | the method returns exactly the YAML and cleanup, error or fatal exit of the render specification |
| HelmfileRenderer.RenderSpec | pkgs/helmfile/renderer.go:35-73 | a failed eval.nix write, then a nix failure (with its output), are errors with no YAML; otherwise the output is converted with the chart-rendering hook, a conversion failure being an error with the output, a hook exit ending the process, and success giving the YAML and the cleanup list the hook captured |
| HelmfileRenderer.RenderExpr | pkgs/helmfile/renderer.go:47 | the nix expression `(import <f>).render` followed by the file name, base, environment and values path, each in double quotes |
| HelmfileRenderer.RenderHook | pkgs/helmfile/renderer.go:56-66 | a null document ends the process; a map with `releases` is rewritten by `RenderCharts`, whose cleanup list replaces the captured one and whose error ends the process; any other document passes unchanged |
| HelmfileRenderer.RenderExprShape | pkgs/helmfile/renderer.go:47 | the expression is the import, then each argument in double quotes |
| HelmfileRenderer.RenderExprArguments | pkgs/helmfile/renderer.go:47 | for quote-free arguments, splitting on `"` yields `fileName`, `base`, `env`, `valuesJSONPath` in that order |
| HelmfileRenderer.RenderExprInjective | pkgs/helmfile/renderer.go:47 | different quote-free argument lists give different expressions |
| HelmfileRenderer.EvalErrorGivesNothing | pkgs/helmfile/renderer.go:50-53 | an evaluator error returns an eval error with no YAML and no cleanup |
| HelmfileRenderer.ConvertErrorGivesNothing | pkgs/helmfile/renderer.go:68-70 | a conversion failure returns a convert error with no YAML |
| HelmfileRenderer.HookDispatch | pkgs/helmfile/renderer.go:56-66 | documents without `releases` pass through; a map with `releases` is rewritten by `RenderCharts` with the renderer's base and its list becomes the cleanup; a chart error ends the process |
| HelmfileRenderer.NullReleasesIsFatal | pkgs/helmfile/renderer.go:59-64 | a document whose `releases` is null ends the process with `ErrReleasesNotSlice` |
| HelmfileRenderer.NullDocumentPanics | pkgs/helmfile/renderer.go:57 | a null document ends the process, since its type has no kind |
| HelmfileRenderer.HookStep | pkgs/helmfile/renderer.go:55-66 | one more document replaces the cleanup list by its own `RenderCharts` list when it holds `releases`, and leaves it otherwise |
| HelmfileRenderer.NoReleasesNoCleanup | pkgs/helmfile/renderer.go:55-66 | when no document holds `releases`, the cleanup list stays empty |
| HelmfileRenderer.LastReleasesDocumentWins | pkgs/helmfile/renderer.go:55-61 | the returned cleanup list is the `RenderCharts` list of the last document holding `releases`; earlier lists are overwritten |
| Utils.MergeMaps | pkgs/utils/utils.go:118-133 | it is the environment package's merge |
| Utils.LegacyStep | pkgs/utils/utils.go:147-151 | after a step that got through, the cursor names a map of the root |
| Utils.LegacyWalkPath | pkgs/utils/utils.go:141-153 | a walk that got through leaves the cursor on a map of the root |
| Utils.DottedSpec | pkgs/utils/utils.go:140-153 | the root walk over the intermediate segments, a panic being the error; then the parse result stored at the cursor, nil on a parse error, which is returned |
| Utils.SetNestedMapValueSpec | pkgs/utils/utils.go:135-160 | a key without `.` gets the parsed value, or nil with the parse error; a dotted key goes through the root walk |
| Utils.SetNestedMapValue | pkgs/utils/utils.go:135-160 | on the caller's map in place it ends in exactly the state and error of the legacy specification |
| Utils.WalkFromRoot | pkgs/utils/utils.go:141-153 | the `mref` loop over the intermediate segments, in place, ends in exactly the state, cursor or panicking segment of the legacy walk |
| Utils.PanicSticky | pkgs/utils/utils.go:151 | once the assertion panics, longer walks end in the same panic |
| Utils.LegacyWalkMeaning | pkgs/utils/utils.go:147-151 | the walk gets through exactly when the first segment is absent or a map and every later one is the first or a map of the ROOT; it then created only the first segment and points at the root's entry for the last one |
| Utils.PlainKey | pkgs/utils/utils.go:154-158 | a plain key is set to the parsed value and no other key changes; a parse error is returned with the key holding nil |
| Utils.ValueLandsUnderNextToLast | pkgs/utils/utils.go:141-153 | the value lands under the root's entry for the next-to-last segment |
| Utils.TwoSegmentsAgree | pkgs/utils/utils.go:141-153 | for `a.b` with `m[a]` absent or a map, `m[a]` is created when missing and `b` set inside it, as the environment setter does |
| Utils.SplitThree | pkgs/utils/utils.go:137-141 | a key of three dot-free segments splits into them |
| Utils.RootWalkPanics | pkgs/utils/utils.go:148-151 | `a.b.c` on an empty map panics at `b` whenever `a` and `b` differ, where the environment setter succeeds |
| Utils.RootWalkMisplaces | pkgs/utils/utils.go:148-151 | on `{a:{},b:{}}` with `a` and `b` distinct, the value of `a.b.c` goes under `b`; the environment setter puts it under `a.b` |
| Utils.JSONToYAMLs | pkgs/utils/utils.go:68-96 | its loop returns exactly what the transform package's specification does |
| LegacyMain.MergeMaps | main.go:297-313 | it is the environment package's merge |
| LegacyMain.NoHookNeverExits | main.go:135-161 | without a hook the conversion never ends by the hook |
| LegacyMain.JSONToYAMLs | main.go:135-161 | it succeeds exactly when the hook-free conversion does, with the same text; otherwise it returns the decoder's or marshaller's error |
| LegacyMain.SetRaw | main.go:256-270 | the dotted branch on the merged map in place: the state or panic of the root walk, then the raw string stored |
| LegacyMain.WriteValJson | main.go:228-280 | the file reads, merge and override loop return exactly the tree or error of the specification |
| LegacyMain.ReadLayer | main.go:229-246 | a layer file is read and decoded; a missing file is `LayerMissing`, any other failure `LayerFailed` |
| LegacyMain.Base | main.go:229-247 | the defaults file, then the environment file, the first failure being the result; the environment file merged over the defaults |
| LegacyMain.SetRawSpec | main.go:256-270 | the root walk over the intermediate segments, a panic being the error; then the raw, undecoded string stored at the cursor |
| LegacyMain.ApplyPiece | main.go:252-278 | a piece that does not split on `=` into exactly two parts is "invalid state value"; a dotted key goes through the raw-string branch; a plain key gets the JSON-decoded value, or fails with "failed to marshal" |
| LegacyMain.ApplyPieces | main.go:249-280 | the pieces applied left to right, the first failing piece ending the walk with its error |
| LegacyMain.ValuesOf | main.go:228-280 | the merged files, or their read error, with every piece of every override applied in order |
| LegacyMain.ApplyOverride | main.go:251-279 | the inner loop on the merged map in place applies one override string's pieces and ends in exactly the tree or first error of the piece fold |
| LegacyMain.ApplyPiecesConcat | main.go:249-280 | applying two runs of pieces is applying the first, then the second to its result |
| LegacyMain.AbortAfter | main.go:249-280 | a failure within the first override strings is the failure of the whole call |
| LegacyMain.FailureSticky | main.go:253-276 | after a failing piece no later piece changes the outcome |
| LegacyMain.MissingFileFails | main.go:228-246 | a missing defaults or environment file is an error |
| LegacyMain.NoOverridesGiveMergedFiles | main.go:247 | with no overrides the result is the environment file merged over the defaults file |
| LegacyMain.PieceShapeRule | main.go:252-255 | a piece is rejected with "invalid state value" exactly when it holds no `=` or more than one |
| LegacyMain.PlainKeyDecoded | main.go:271-277 | a plain key's value is JSON-decoded and stored; a decoding error fails with "failed to marshal" naming it and stores nothing |
| LegacyMain.DottedKeyStoresRawString | main.go:256-270 | `a.b=v` stores the raw, undecoded string `v` under `m[a]`, creating it when missing |
| LegacyMain.DottedOutcome | main.go:259-270 | the dotted branch succeeds exactly when the root walk does, and then stores the raw string under the root's entry for the next-to-last segment |
| LegacyMain.RootWalkPanicsHere | main.go:265-268 | `a.b.c=v` on an empty map panics at `b` whenever `a` and `b` differ |

## Left out

- Environment.MergeMaps: its contract says a key held as a map on both sides stays a map; that this map is the recursive merge is stated by the lemma `Environment.MergeBothMaps`, not repeated as an ensures of the function.
- Utils.SetNestedMapValue and LegacyMain.SetRaw: the unchecked type assertion is modelled as an `AssertionPanic` error result. A real panic ends the program. The map state the model reports with it is the state just before the panic.
- NixChart.RenderCharts: on a failing release the model keeps the prefix of releases already rewritten, as the in-place Go map does. What the failing release itself holds at that point is what the evaluator reported.
- NixChart.EvalChart: the writing of eval.nix and the creation of the values file are given as outcomes, with their own errors, before the values are prepared. Everything after that (marshalling and writing the values, the nix run, the YAML conversion, `resources.yaml`) is one injected `render` collaborator. Its `Fatalln` exits and its returned errors are all the single `RenderFailed` error, reported with `values` already gone from the release.
- NixChart.PrepareChartValues and NixChart.EvalChart: the list branch folds a `Seq` of maps, reading it as the typed slice `[]map[string]any`. The releases `Render` feeds to `RenderCharts` are decoded, so their lists are `[]any`, and the running program drops them (nixchart.go:94). The model folds them, as the tests expect; `NixChart.BaseValuesAsDecoded` and "## Findings" give the program as written.
- NixChart.CleanupCharts: `removable` is the caller's. `os.RemoveAll` returns nil for a path that does not exist, but the model does not force `removable` to hold for such an entry, so a caller can have a missing entry reported as a failure. `NixChart.MissingEntryRemovesNothing` shows that counting it removable never changes the file system.
- `FindFileNameAndBase` (directory discovery), `LoadYamlFile`, `WriteEvalNix` and temp-file handling are file-system I/O. A layer file is given as missing, unreadable or parsed.
- nix evaluation, `Args`, `Executor`, `callHelmfile`/`renderHelmfile` and CLI parsing run processes. nix appears only as a function from expression to output.
- go-yaml and encoding/json (`yaml.Unmarshal`, `yaml.Marshal`, `json.Marshal`, `json.Unmarshal`, `UnmarshalOption`) are uninterpreted function parameters. Their scalar inference (`123` to int, `true` to bool) is library behaviour.
- The final `json.Marshal` of the value tree and the temp file it is written to are serialisation and I/O.
- The deferred `os.Remove` of eval.nix and its `Fatalf` are I/O.
- Logging, including the reserved-key warning in `prepareChartValues`, has no effect on results.
- Go map iteration order is not modelled. Every modelled result is independent of it.
- `context` arguments are not modelled.
- `yaml.v3` anchors and aliasing between distinct documents are not modelled. Each value is a tree.
- Integer width: Go `int` is 64-bit; the model's integers are unbounded. No modelled operation does arithmetic on values.
- Floats are an opaque `bv64`.
- Environment.MergeMaps, Environment.SetNestedValue, Utils.MergeMaps, Utils.SetNestedMapValue, LegacyMain.MergeMaps and LegacyMain.SetRaw: a YAML mapping with a non-string key (such as `{80: http}`) decodes to `map[interface{}]interface{}`. `Value` cannot represent it, because its only map has string keys. In the source, the type assertions treat such a mapping as a non-map. The merges replace it instead of merging it (values.go:19-21, utils.go:122-124, main.go:303-305). `ensureNestedMap` fails on it with `ErrNestedKeyNotMap` (values.go:72). The legacy walks panic on it (utils.go:151, main.go:268). The model does not capture these outcomes for such mappings.
- `path.Join` cleaning of the chart directory is not modelled. The directory is the temp dir, `/` and the name.
- The `reflect.Map` early skip in `processRelease` (nixchart.go:56-58) is not modelled. It applies only to a typed slice whose elements are maps. Decoded releases are `[]any`, whose elements have interface kind, so the skip never fires.
- `stateValuesSet` is carried by the renderer but unused by `Render`.
- Partial removal by `os.RemoveAll`: a removable entry is taken as removed entirely, an unremovable one as left entirely.
- `strings.SplitSeq` (writer.go:59) is modelled as `strings.Split`: the loop sees the same pieces in the same order.

## Findings

| source | as written | input that shows it | evidently intended | confidence | as-written member | corrected member |
|---|---|---|---|---|---|---|
| pkgs/nixchart/nixchart.go:94 | a `values` list is merged only when it has the static type `[]map[string]any`; releases decoded from nix's JSON hold `[]any`, so the list is ignored and the base values are `{}` | a release `{values: [{a: 1}]}` decoded from JSON | the list of maps is left-folded with `MergeMaps`, as the test with a typed slice expects | not executed; high | NixChart.DecodedValuesListDropped | NixChart.ValuesListExample |
| pkgs/utils/utils.go:148,151 | every intermediate segment is looked up in the root map `m`, not in the map reached so far | `a.b.c=1` on `{}` panics at `b`; on `{a:{},b:{}}` it writes `b.c` | each segment is looked up in the map reached so far, as the environment package does | not executed; high | Utils.RootWalkPanics | Environment.SetNestedValueStores |
| main.go:265,268 | the same root-map lookup in `writeValJson`'s dotted branch | `a.b.c=1` on an empty merged map panics at `b` | each segment is looked up in the map reached so far | not executed; high | LegacyMain.RootWalkPanicsHere | Environment.SetNestedValueStores |
