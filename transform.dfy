/**
 * pkgs/transform/convert.go: `JSONToYAMLs` turns the JSON array that nix
 * evaluation prints into a multi-document YAML stream, running a caller
 * hook on every element first; `UnmarshalOption` is go-yaml's reading of a
 * single override value and stays an injected parser (`Environment.Parser`).
 */
module Transform {
  import opened Wrappers
  import opened ValueTree

  type Text = string

  /** The document separator written between two YAML documents. */
  const Separator: Text := "---\n"

  /**
   * go-yaml as the conversion uses it: `decode` is `yaml.Unmarshal` into a
   * `[]any`, `marshal` is `yaml.Marshal` of one element.
   */
  datatype Codec = Codec(decode: Text -> Result<seq<Value>, string>, marshal: Value -> Result<Text, string>)

  /**
   * What the `preprocess` hook did with one element: carried on, with its
   * own state and the element as it left it, or ended the process.
   */
  datatype Hooked<S, E> = Continue(state: S, doc: Value) | Exit(reason: E)

  /** The outcome of a conversion, with the hook's final state on success. */
  datatype Conversion<S, E> =
    | Converted(text: Text, state: S)
    | DecodeFailed(reason: string)
    | MarshalFailed(reason: string)
    | HookExited(exit: E)

  /** One document appended to the output: the separator goes first only when something precedes it. */
  function Append(y: Text, t: Text): Text
  {
    if |y| > 0 then y + Separator + t else y + t
  }

  /** The documents appended one after another, left to right. */
  function JoinTexts(ts: seq<Text>): Text
  {
    if ts == [] then [] else Append(JoinTexts(ts[..|ts| - 1]), ts[|ts| - 1])
  }

  /** The elements hooked and marshalled in order; the first failure ends the loop. */
  function ConvertDocs<S, E>(docs: seq<Value>, s0: S, hook: (S, Value) -> Hooked<S, E>,
                             marshal: Value -> Result<Text, string>): Conversion<S, E>
  {
    if docs == [] then Converted([], s0)
    else
      match ConvertDocs(docs[..|docs| - 1], s0, hook, marshal)
      case Converted(y, s) =>
        (match hook(s, docs[|docs| - 1])
         case Exit(e) => HookExited(e)
         case Continue(s', d) =>
           match marshal(d)
           case Failure(e) => MarshalFailed(e)
           case Success(t) => Converted(Append(y, t), s'))
      case other => other
  }

  /** `JSONToYAMLs(j, preprocess)`. */
  function JSONToYAMLsSpec<S, E>(j: Text, codec: Codec, s0: S, hook: (S, Value) -> Hooked<S, E>): Conversion<S, E>
  {
    match codec.decode(j)
    case Failure(e) => DecodeFailed(e)
    case Success(docs) => ConvertDocs(docs, s0, hook, codec.marshal)
  }

  /** `JSONToYAMLs`: decode the array, then hook, marshal and append each element in a loop. */
  method JSONToYAMLs<S, E>(j: Text, codec: Codec, s0: S, hook: (S, Value) -> Hooked<S, E>)
    returns (r: Conversion<S, E>)
    ensures r == JSONToYAMLsSpec(j, codec, s0, hook)
  {
    var decoded := codec.decode(j);
    if decoded.Failure? {
      return DecodeFailed(decoded.error);
    }
    var docs := decoded.value;
    var y: Text := [];
    var s := s0;
    var i := 0;
    while i < |docs|
      invariant 0 <= i <= |docs|
      invariant ConvertDocs(docs[..i], s0, hook, codec.marshal) == Converted(y, s)
    {
      assert docs[..i + 1][..i] == docs[..i];
      var h := hook(s, docs[i]);
      if h.Exit? {
        AbortSticky(docs, i + 1, s0, hook, codec.marshal);
        return HookExited(h.reason);
      }
      var res := codec.marshal(h.doc);
      if res.Failure? {
        AbortSticky(docs, i + 1, s0, hook, codec.marshal);
        return MarshalFailed(res.error);
      }
      if |y| > 0 {
        y := y + Separator;
      }
      y := y + res.value;
      s := h.state;
      i := i + 1;
    }
    assert docs[..i] == docs;
    return Converted(y, s);
  }

  // ------------------------------------------------------------- properties

  /** Once an element fails, the elements after it are never hooked or marshalled. */
  lemma {:induction false} AbortSticky<S, E>(docs: seq<Value>, n: nat, s0: S, hook: (S, Value) -> Hooked<S, E>,
                                             marshal: Value -> Result<Text, string>)
    requires n <= |docs| && !ConvertDocs(docs[..n], s0, hook, marshal).Converted?
    ensures ConvertDocs(docs, s0, hook, marshal) == ConvertDocs(docs[..n], s0, hook, marshal)
    decreases |docs| - n
  {
    if n == |docs| {
      assert docs[..n] == docs;
    } else {
      assert docs[..n + 1][..n] == docs[..n];
      AbortSticky(docs, n + 1, s0, hook, marshal);
    }
  }

  /** The documents joined with a separator between each two, front to back. */
  function Interleave(ts: seq<Text>): Text
  {
    if ts == [] then []
    else if |ts| == 1 then ts[0]
    else ts[0] + Separator + Interleave(ts[1..])
  }

  lemma {:induction false} InterleaveSnoc(ts: seq<Text>, t: Text)
    requires ts != []
    ensures Interleave(ts + [t]) == Interleave(ts) + Separator + t
    decreases |ts|
  {
    if |ts| > 1 {
      assert (ts + [t])[1..] == ts[1..] + [t];
      InterleaveSnoc(ts[1..], t);
    } else {
      assert (ts + [t])[1..] == [t];
    }
  }

  /**
   * As long as no document is empty (go-yaml never marshals one), the output
   * has a separator between every two documents and none before the first
   * or after the last.
   */
  lemma {:induction false} JoinIsInterleave(ts: seq<Text>)
    requires forall i :: 0 <= i < |ts| ==> |ts[i]| > 0
    ensures JoinTexts(ts) == Interleave(ts)
    ensures ts != [] ==> |JoinTexts(ts)| > 0
    decreases |ts|
  {
    if ts != [] {
      var front := ts[..|ts| - 1];
      JoinIsInterleave(front);
      assert ts == front + [ts[|ts| - 1]];
      if front != [] {
        InterleaveSnoc(front, ts[|ts| - 1]);
      }
    }
  }

  /** Every element marshalled after the hook `f` rewrote it. */
  function MarshalAll(docs: seq<Value>, f: Value -> Value, marshal: Value -> Result<Text, string>): seq<Text>
    requires forall i :: 0 <= i < |docs| ==> marshal(f(docs[i])).Success?
  {
    seq(|docs|, i requires 0 <= i < |docs| => marshal(f(docs[i])).value)
  }

  /**
   * With a hook that rewrites each element by `f` and keeps its state, the
   * output is the join of every rewritten element's YAML text, in input order.
   */
  lemma {:induction false} ConvertIsJoin<S, E>(docs: seq<Value>, s0: S, hook: (S, Value) -> Hooked<S, E>,
                                               f: Value -> Value, marshal: Value -> Result<Text, string>)
    requires forall s: S, d: Value :: hook(s, d) == Continue(s, f(d))
    requires forall i :: 0 <= i < |docs| ==> marshal(f(docs[i])).Success?
    ensures ConvertDocs(docs, s0, hook, marshal) == Converted(JoinTexts(MarshalAll(docs, f, marshal)), s0)
    decreases |docs|
  {
    if docs != [] {
      var front := docs[..|docs| - 1];
      ConvertIsJoin(front, s0, hook, f, marshal);
      var ts := MarshalAll(docs, f, marshal);
      assert ts[..|ts| - 1] == MarshalAll(front, f, marshal);
    }
  }

  /** A hook that records every element it sees and leaves it unchanged. */
  function Recorder(seen: seq<Value>, d: Value): Hooked<seq<Value>, ()>
  {
    Continue(seen + [d], d)
  }

  /** The hook runs exactly once per element, in input order. */
  lemma {:induction false} HookSeesEveryElement(docs: seq<Value>, marshal: Value -> Result<Text, string>)
    requires forall i :: 0 <= i < |docs| ==> marshal(docs[i]).Success?
    ensures ConvertDocs(docs, [], Recorder, marshal).Converted?
    ensures ConvertDocs(docs, [], Recorder, marshal).state == docs
    decreases |docs|
  {
    if docs != [] {
      var front := docs[..|docs| - 1];
      var last := docs[|docs| - 1];
      forall i | 0 <= i < |front|
        ensures marshal(front[i]).Success?
      {
        assert front[i] == docs[i];
      }
      HookSeesEveryElement(front, marshal);
      var prev := ConvertDocs(front, [], Recorder, marshal);
      assert Recorder(prev.state, last) == Continue(front + [last], last);
      assert marshal(last).Success?;
      assert front + [last] == docs;
    }
  }

  /** The no-op hook the legacy callers pass. */
  function NoHook(u: (), d: Value): Hooked<(), ()>
  {
    Continue(u, d)
  }

  /**
   * A marshal error on any element aborts the conversion with that error and
   * no output: once the elements before it converted and the hook carried on
   * with this element, whatever the hook is and whatever comes after.
   */
  lemma MarshalFailureAborts<S, E>(docs: seq<Value>, i: nat, s0: S, hook: (S, Value) -> Hooked<S, E>,
                                   marshal: Value -> Result<Text, string>)
    requires i < |docs| && ConvertDocs(docs[..i], s0, hook, marshal).Converted?
    requires hook(ConvertDocs(docs[..i], s0, hook, marshal).state, docs[i]).Continue?
    requires marshal(hook(ConvertDocs(docs[..i], s0, hook, marshal).state, docs[i]).doc).Failure?
    ensures ConvertDocs(docs, s0, hook, marshal)
         == MarshalFailed(marshal(hook(ConvertDocs(docs[..i], s0, hook, marshal).state, docs[i]).doc).error)
  {
    var h := hook(ConvertDocs(docs[..i], s0, hook, marshal).state, docs[i]);
    ConvertSnoc(docs, i, s0, hook, marshal);
    assert ConvertDocs(docs[..i + 1], s0, hook, marshal) == MarshalFailed(marshal(h.doc).error);
    AbortSticky(docs, i + 1, s0, hook, marshal);
  }

  /** The same for a hook that exits: the conversion ends with the hook's exit. */
  lemma HookExitAborts<S, E>(docs: seq<Value>, i: nat, s0: S, hook: (S, Value) -> Hooked<S, E>,
                             marshal: Value -> Result<Text, string>)
    requires i < |docs| && ConvertDocs(docs[..i], s0, hook, marshal).Converted?
    requires hook(ConvertDocs(docs[..i], s0, hook, marshal).state, docs[i]).Exit?
    ensures ConvertDocs(docs, s0, hook, marshal)
         == HookExited(hook(ConvertDocs(docs[..i], s0, hook, marshal).state, docs[i]).reason)
  {
    var h := hook(ConvertDocs(docs[..i], s0, hook, marshal).state, docs[i]);
    ConvertSnoc(docs, i, s0, hook, marshal);
    assert ConvertDocs(docs[..i + 1], s0, hook, marshal) == HookExited(h.reason);
    AbortSticky(docs, i + 1, s0, hook, marshal);
  }

  /** One more element of a prefix is converted from where the shorter prefix ended. */
  lemma ConvertSnoc<S, E>(docs: seq<Value>, i: nat, s0: S, hook: (S, Value) -> Hooked<S, E>,
                          marshal: Value -> Result<Text, string>)
    requires i < |docs|
    ensures ConvertDocs(docs[..i + 1], s0, hook, marshal)
         == match ConvertDocs(docs[..i], s0, hook, marshal)
            case Converted(y, s) =>
              (match hook(s, docs[i])
               case Exit(e) => HookExited(e)
               case Continue(s', d) =>
                 match marshal(d)
                 case Failure(e) => MarshalFailed(e)
                 case Success(t) => Converted(Append(y, t), s'))
            case other => other
  {
    var pre := docs[..i + 1];
    assert pre[..|pre| - 1] == docs[..i];
    assert pre[|pre| - 1] == docs[i];
  }

  /** Without a hook, a marshal error on any element aborts with no output, whatever came before. */
  lemma NoHookMarshalFailureAborts(docs: seq<Value>, i: nat, marshal: Value -> Result<Text, string>)
    requires i < |docs| && marshal(docs[i]).Failure?
    requires forall k :: 0 <= k < i ==> marshal(docs[k]).Success?
    ensures ConvertDocs(docs, (), NoHook, marshal) == MarshalFailed(marshal(docs[i]).error)
  {
    NoHookPrefixConverts(docs, i, marshal);
    MarshalFailureAborts(docs, i, (), NoHook, marshal);
  }

  /** Without a hook, a prefix whose elements all marshal converts. */
  lemma {:induction false} NoHookPrefixConverts(docs: seq<Value>, n: nat, marshal: Value -> Result<Text, string>)
    requires n <= |docs|
    requires forall k :: 0 <= k < n ==> marshal(docs[k]).Success?
    ensures ConvertDocs(docs[..n], (), NoHook, marshal).Converted?
  {
    if n > 0 {
      NoHookPrefixConverts(docs, n - 1, marshal);
      assert docs[..n][..n - 1] == docs[..n - 1];
      assert docs[..n][n - 1] == docs[n - 1];
    }
  }

  /** A top-level decode failure is returned before any hook runs. */
  lemma DecodeFailureRunsNoHook<S, E>(j: Text, codec: Codec, s0: S, hook: (S, Value) -> Hooked<S, E>)
    requires codec.decode(j).Failure?
    ensures JSONToYAMLsSpec(j, codec, s0, hook) == DecodeFailed(codec.decode(j).error)
  {
  }

  /** An empty array gives empty output. */
  lemma EmptyArrayGivesEmptyOutput<S, E>(j: Text, codec: Codec, s0: S, hook: (S, Value) -> Hooked<S, E>)
    requires codec.decode(j) == Success([])
    ensures JSONToYAMLsSpec(j, codec, s0, hook) == Converted([], s0)
  {
  }

  /** A single element gives just its text, with no separator. */
  lemma SingleElementHasNoSeparator(j: Text, codec: Codec, d: Value)
    requires codec.decode(j) == Success([d]) && codec.marshal(d).Success?
    ensures JSONToYAMLsSpec(j, codec, (), NoHook) == Converted(codec.marshal(d).value, ())
  {
    assert [d][..0] == [];
    assert ConvertDocs([d][..0], (), NoHook, codec.marshal) == Converted([], ());
    assert Append([], codec.marshal(d).value) == codec.marshal(d).value;
  }

  /** Two documents are joined by exactly one separator. */
  lemma TwoDocuments(j: Text, codec: Codec, d1: Value, d2: Value)
    requires codec.decode(j) == Success([d1, d2])
    requires codec.marshal(d1).Success? && |codec.marshal(d1).value| > 0 && codec.marshal(d2).Success?
    ensures JSONToYAMLsSpec(j, codec, (), NoHook)
         == Converted(codec.marshal(d1).value + Separator + codec.marshal(d2).value, ())
  {
    var t1 := codec.marshal(d1).value;
    assert [d1, d2][..1] == [d1];
    assert [d1][..0] == [];
    assert ConvertDocs([d1][..0], (), NoHook, codec.marshal) == Converted([], ());
    assert Append([], t1) == t1;
    assert ConvertDocs([d1], (), NoHook, codec.marshal) == Converted(t1, ());
    assert ConvertDocs([d1, d2], (), NoHook, codec.marshal)
        == Converted(Append(t1, codec.marshal(d2).value), ());
  }

  /** Two documents `key: value` and `foo: bar` give `key: value`, the separator, `foo: bar`. */
  lemma TwoDocumentsExample(j: Text, codec: Codec, d1: Value, d2: Value)
    requires codec.decode(j) == Success([d1, d2])
    requires codec.marshal(d1) == Success("key: value\n") && codec.marshal(d2) == Success("foo: bar\n")
    ensures JSONToYAMLsSpec(j, codec, (), NoHook) == Converted("key: value\n---\nfoo: bar\n", ())
  {
    TwoDocuments(j, codec, d1, d2);
    assert "key: value\n" + Separator + "foo: bar\n" == "key: value\n---\nfoo: bar\n";
  }

  /** The hook of the preprocessing test: it adds `added: field` to every map element. */
  function AddField(u: (), v: Value): Hooked<(), ()>
  {
    if v.Map? then Continue(u, Map(v.entries["added" := Str("field")])) else Continue(u, v)
  }

  /** Edits the hook makes to an element are what gets marshalled. */
  lemma PreprocessEditsAppear(j: Text, codec: Codec, m: Tree)
    requires codec.decode(j) == Success([Map(m)])
    requires codec.marshal(Map(m["added" := Str("field")])).Success?
    ensures JSONToYAMLsSpec(j, codec, (), AddField)
         == Converted(codec.marshal(Map(m["added" := Str("field")])).value, ())
  {
    var t := codec.marshal(Map(m["added" := Str("field")])).value;
    assert [Map(m)][..0] == [];
    assert ConvertDocs([Map(m)][..0], (), AddField, codec.marshal) == Converted([], ());
    assert Append([], t) == t;
  }
}
