/**
 * main.go: the original single-file tool's copies of the document joiner,
 * the map merge and the values writer (`writeValJson`). The writer differs
 * from the environment package's: both files must exist, a dotted key is
 * walked from the root map and given the raw string, and a plain key's
 * value goes through the JSON decoder.
 */
module LegacyMain {
  import opened Wrappers
  import opened ValueTree
  import GoStrings
  import Environment
  import Transform
  import ValuesWriter
  import Utils

  /** `mergeMaps`: the same union, recursive merge and overlay rule as `Environment.MergeMaps`. */
  function MergeMaps(a: Tree, b: Tree): (r: Tree)
    ensures r == Environment.MergeMaps(a, b)
    decreases Map(b)
  {
    a + map k | k in b ::
      if b[k].Map? && k in a && a[k].Map? then Map(MergeMaps(a[k].entries, b[k].entries)) else b[k]
  }

  // ------------------------------------------------------------- joiner

  /** With no hook, the conversion never ends by the hook. */
  lemma {:induction false} NoHookNeverExits(docs: seq<Value>, marshal: Value -> Result<Transform.Text, string>)
    ensures !Transform.ConvertDocs(docs, (), Transform.NoHook, marshal).HookExited?
    ensures !Transform.ConvertDocs(docs, (), Transform.NoHook, marshal).DecodeFailed?
    decreases |docs|
  {
    if docs != [] {
      NoHookNeverExits(docs[..|docs| - 1], marshal);
    }
  }

  /**
   * `JSONToYAMLs(j)`: the joiner without a preprocess hook. It returns the
   * joined text exactly when the hook-free conversion succeeds, and the
   * decoder's or the marshaller's error otherwise.
   */
  method JSONToYAMLs(j: Transform.Text, codec: Transform.Codec) returns (r: Result<Transform.Text, string>)
    ensures var c := Transform.JSONToYAMLsSpec(j, codec, (), Transform.NoHook);
            && (r.Success? <==> c.Converted?)
            && (r.Success? ==> r.value == c.text)
            && (r.Failure? ==> (c.DecodeFailed? || c.MarshalFailed?) && r.error == c.reason)
  {
    var decoded := codec.decode(j);
    if decoded.Failure? {
      return Failure(decoded.error);
    }
    var docs := decoded.value;
    var y: Transform.Text := [];
    var i := 0;
    while i < |docs|
      invariant 0 <= i <= |docs|
      invariant Transform.ConvertDocs(docs[..i], (), Transform.NoHook, codec.marshal) == Transform.Converted(y, ())
    {
      assert docs[..i + 1][..i] == docs[..i];
      var res := codec.marshal(docs[i]);
      if res.Failure? {
        Transform.AbortSticky(docs, i + 1, (), Transform.NoHook, codec.marshal);
        return Failure(res.error);
      }
      if |y| > 0 {
        y := y + Transform.Separator;
      }
      y := y + res.value;
      i := i + 1;
    }
    assert docs[..i] == docs;
    return Success(y);
  }

  // ------------------------------------------------------- values writer

  datatype MainError =
    | LayerMissing                          // `os.ReadFile` of a file that does not exist
    | LayerFailed(reason: string)           // `os.ReadFile` or `yaml.Unmarshal` failed otherwise
    | InvalidStateValue(piece: string)      // `invalid state value: <piece>`
    | FailedToMarshal(raw: string, reason: string) // `failed to marshal <raw>: <reason>`
    | AssertionPanic(segment: string)       // the unchecked `m[key].(map[string]interface{})` panicked

  /** `os.ReadFile` then `yaml.Unmarshal`: every layer file must exist. */
  function ReadLayer(l: Layer): Result<Tree, MainError>
  {
    match l
    case Missing => Failure(LayerMissing)
    case Unreadable(e) => Failure(LayerFailed(e))
    case Parsed(t) => Success(t)
  }

  /** The starting tree: the environment file merged over the defaults file. */
  function Base(defaults: Layer, env: Layer): Result<Tree, MainError>
  {
    match ReadLayer(defaults)
    case Failure(e) => Failure(e)
    case Success(d) =>
      match ReadLayer(env)
      case Failure(e) => Failure(e)
      case Success(n) => Success(MergeMaps(d, n))
  }

  /** The dotted branch: the root walk, then the raw string stored at the cursor. */
  function SetRawSpec(t: Tree, keys: Path, raw: string): Result<Tree, MainError>
    requires keys != []
  {
    match Utils.LegacyWalkPath(t, keys[..|keys| - 1])
    case Panicked(_, s) => Failure(AssertionPanic(s))
    case Walking(t', c) => Success(Utils.Insert(t', c, keys[|keys| - 1], Str(raw)))
  }

  /** One piece `key=value` of an override. */
  function ApplyPiece(t: Tree, piece: string, jsonParse: Environment.Parser): Result<Tree, MainError>
  {
    var kv := GoStrings.Split(piece, '=');
    if |kv| != 2 then Failure(InvalidStateValue(piece))
    else if '.' in kv[0] then
      GoStrings.SplitLength(kv[0], '.');
      SetRawSpec(t, GoStrings.Split(kv[0], '.'), kv[1])
    else
      match jsonParse(kv[1])
      case Failure(e) => Failure(FailedToMarshal(kv[1], e))
      case Success(v) => Success(t[kv[0] := v])
  }

  /** The pieces applied left to right; the first error ends the walk. */
  function ApplyPieces(t: Tree, pieces: seq<string>, jsonParse: Environment.Parser): Result<Tree, MainError>
  {
    if pieces == [] then Success(t)
    else
      match ApplyPieces(t, pieces[..|pieces| - 1], jsonParse)
      case Failure(e) => Failure(e)
      case Success(t') => ApplyPiece(t', pieces[|pieces| - 1], jsonParse)
  }

  /** The tree `writeValJson` serialises, or the error it returns. */
  function ValuesOf(defaults: Layer, env: Layer, overrides: seq<string>, jsonParse: Environment.Parser)
    : Result<Tree, MainError>
  {
    match Base(defaults, env)
    case Failure(e) => Failure(e)
    case Success(b) => ApplyPieces(b, ValuesWriter.Pieces(overrides), jsonParse)
  }

  /** The dotted branch of `writeValJson`'s override loop, on the merged map in place. */
  method SetRaw(m: ValueMap, dottedKey: string, raw: string) returns (err: Option<MainError>)
    requires '.' in dottedKey
    modifies m
    ensures GoStrings.Split(dottedKey, '.') != []
    ensures var s := SetRawSpec(old(m.entries), GoStrings.Split(dottedKey, '.'), raw);
            if s.Failure? then err == Some(s.error) else err == None && m.entries == s.value
  {
    var keys := GoStrings.Split(dottedKey, '.');
    GoStrings.SplitAtLeastTwo(dottedKey, '.');
    var cursor, panicked := Utils.WalkFromRoot(m, keys[..|keys| - 1]);
    if panicked.Some? {
      return Some(AssertionPanic(panicked.value));
    }
    m.entries := Utils.Insert(m.entries, cursor, keys[|keys| - 1], Str(raw));
    return None;
  }

  /** `writeValJson`: read and merge both files, then run the override loop on the merged map. */
  method WriteValJson(defaults: Layer, env: Layer, overrides: seq<string>, jsonParse: Environment.Parser)
    returns (r: Result<Tree, MainError>)
    ensures r == ValuesOf(defaults, env, overrides, jsonParse)
  {
    var base := Base(defaults, env);
    if base.Failure? {
      return Failure(base.error);
    }
    var m := new ValueMap(base.value);
    var i := 0;
    while i < |overrides|
      invariant 0 <= i <= |overrides|
      invariant ApplyPieces(base.value, ValuesWriter.Pieces(overrides[..i]), jsonParse) == Success(m.entries)
    {
      var vals := GoStrings.Split(overrides[i], ',');
      var err := ApplyOverride(m, vals, jsonParse);
      ApplyPiecesConcat(base.value, ValuesWriter.Pieces(overrides[..i]), vals, jsonParse);
      ValuesWriter.NextOverride(overrides, i);
      if err.Some? {
        AbortAfter(base.value, overrides, i + 1, jsonParse);
        return Failure(err.value);
      }
      i := i + 1;
    }
    assert overrides[..i] == overrides;
    return Success(m.entries);
  }

  /**
   * The inner loop of `writeValJson`: the pieces of one override string
   * applied to the map in place, stopping at the first that fails.
   */
  method ApplyOverride(m: ValueMap, vals: seq<string>, jsonParse: Environment.Parser) returns (err: Option<MainError>)
    modifies m
    ensures ApplyPieces(old(m.entries), vals, jsonParse) == if err.Some? then Failure(err.value) else Success(m.entries)
  {
    ghost var t0 := m.entries;
    var j := 0;
    while j < |vals|
      invariant 0 <= j <= |vals|
      invariant ApplyPieces(t0, vals[..j], jsonParse) == Success(m.entries)
    {
      assert vals[..j + 1][..j] == vals[..j];
      assert vals[..j + 1] + vals[j + 1..] == vals;
      var kv := GoStrings.Split(vals[j], '=');
      if |kv| != 2 {
        FailureSticky(t0, vals[..j + 1], vals[j + 1..], jsonParse);
        return Some(InvalidStateValue(vals[j]));
      }
      ghost var before := m.entries;
      if '.' in kv[0] {
        var e := SetRaw(m, kv[0], kv[1]);
        if e.Some? {
          FailureSticky(t0, vals[..j + 1], vals[j + 1..], jsonParse);
          return e;
        }
      } else {
        var val := jsonParse(kv[1]);
        if val.Failure? {
          FailureSticky(t0, vals[..j + 1], vals[j + 1..], jsonParse);
          return Some(FailedToMarshal(kv[1], val.error));
        }
        m.entries := m.entries[kv[0] := val.value];
      }
      assert ApplyPiece(before, vals[j], jsonParse) == Success(m.entries);
      j := j + 1;
    }
    assert vals[..j] == vals;
    return None;
  }

  // ------------------------------------------------------------- properties

  /** Applying `ps + qs` is applying `ps`, then `qs` to its result. */
  lemma {:induction false} ApplyPiecesConcat(t: Tree, ps: seq<string>, qs: seq<string>, jsonParse: Environment.Parser)
    ensures ApplyPieces(t, ps + qs, jsonParse)
         == match ApplyPieces(t, ps, jsonParse)
            case Failure(e) => Failure(e)
            case Success(t') => ApplyPieces(t', qs, jsonParse)
    decreases |qs|
  {
    if qs == [] {
      assert ps + qs == ps;
    } else {
      var front := qs[..|qs| - 1];
      ApplyPiecesConcat(t, ps, front, jsonParse);
      assert (ps + qs)[..|ps + qs| - 1] == ps + front;
      assert (ps + qs)[|ps + qs| - 1] == qs[|qs| - 1];
    }
  }

  /** A failure within the first `n` override strings is the failure of the whole call. */
  lemma AbortAfter(t: Tree, overrides: seq<string>, n: nat, jsonParse: Environment.Parser)
    requires n <= |overrides|
    requires ApplyPieces(t, ValuesWriter.Pieces(overrides[..n]), jsonParse).Failure?
    ensures ApplyPieces(t, ValuesWriter.Pieces(overrides), jsonParse)
         == ApplyPieces(t, ValuesWriter.Pieces(overrides[..n]), jsonParse)
  {
    var upTo := ValuesWriter.Pieces(overrides[..n]);
    ValuesWriter.PiecesPrefix(overrides, n);
    FailureSticky(t, upTo, ValuesWriter.Pieces(overrides)[|upTo|..], jsonParse);
  }

  /** Once a piece has failed, no later piece changes the outcome. */
  lemma FailureSticky(t: Tree, ps: seq<string>, qs: seq<string>, jsonParse: Environment.Parser)
    requires ApplyPieces(t, ps, jsonParse).Failure?
    ensures ApplyPieces(t, ps + qs, jsonParse) == ApplyPieces(t, ps, jsonParse)
  {
    ApplyPiecesConcat(t, ps, qs, jsonParse);
  }

  /** A missing defaults or environment file is an error here, not an empty layer. */
  lemma MissingFileFails(defaults: Layer, env: Layer, overrides: seq<string>, jsonParse: Environment.Parser)
    requires defaults.Missing? || (env.Missing? && defaults.Parsed?)
    ensures ValuesOf(defaults, env, overrides, jsonParse) == Failure(LayerMissing)
  {
  }

  /** No overrides: the result is the environment file merged over the defaults file. */
  lemma NoOverridesGiveMergedFiles(d: Tree, e: Tree, jsonParse: Environment.Parser)
    ensures ValuesOf(Parsed(d), Parsed(e), [], jsonParse) == Success(Environment.MergeMaps(d, e))
  {
  }

  /** A piece is rejected as an invalid state value exactly when it holds no `=` or more than one. */
  lemma PieceShapeRule(t: Tree, piece: string, jsonParse: Environment.Parser)
    ensures ApplyPiece(t, piece, jsonParse) == Failure(InvalidStateValue(piece))
        <==> GoStrings.Count(piece, '=') != 1
  {
    GoStrings.SplitLength(piece, '=');
  }

  /** A plain key is decoded as JSON; a decoding error is reported and nothing is stored. */
  lemma PlainKeyDecoded(t: Tree, key: string, raw: string, jsonParse: Environment.Parser)
    requires '.' !in key && '=' !in key && '=' !in raw
    ensures ApplyPiece(t, key + "=" + raw, jsonParse)
         == match jsonParse(raw)
            case Failure(e) => Failure(FailedToMarshal(raw, e))
            case Success(v) => Success(t[key := v])
  {
    ValuesWriter.SplitAssignment(key, raw);
  }

  /**
   * A two-segment dotted key stores the value as the raw string, unparsed,
   * under the first segment, which is created when absent.
   */
  lemma DottedKeyStoresRawString(t: Tree, a: string, b: string, raw: string, jsonParse: Environment.Parser)
    requires '.' !in a && '.' !in b && '=' !in a && '=' !in b && '=' !in raw
    requires a !in t || t[a].Map?
    ensures ApplyPiece(t, a + "." + b + "=" + raw, jsonParse).Success?
    ensures var r := ApplyPiece(t, a + "." + b + "=" + raw, jsonParse).value;
            Lookup(Map(r), [a, b]) == Some(Str(raw))
  {
    var k := a + "." + b;
    assert '=' !in k;
    assert k + "=" + raw == a + "." + b + "=" + raw;
    ValuesWriter.SplitAssignment(k, raw);
    assert k == a + ['.'] + b;
    GoStrings.SplitAtFirst(a, b, '.');
    GoStrings.SplitNoSeparator(b, '.');
    var keys := [a, b];
    assert GoStrings.Split(k, '.') == keys;
    assert keys[..1] == [a];
    Utils.LegacyWalkMeaning(t, [a]);
    var c := Utils.Created(t, a);
    Utils.LookupPair(c[a := Map(c[a].entries[b := Str(raw)])], a, b);
  }

  /**
   * The dotted branch succeeds exactly when the root walk does; it then
   * stores the raw string under the root's entry for the next-to-last segment.
   */
  lemma DottedOutcome(t: Tree, keys: Path, raw: string)
    requires |keys| >= 2
    ensures SetRawSpec(t, keys, raw).Success? <==> Utils.LegacyWalkPath(t, keys[..|keys| - 1]).Walking?
    ensures SetRawSpec(t, keys, raw).Success? ==>
      Lookup(Map(SetRawSpec(t, keys, raw).value), [keys[|keys| - 2], keys[|keys| - 1]]) == Some(Str(raw))
  {
    var n := |keys|;
    var p := keys[..n - 1];
    if Utils.LegacyWalkPath(t, p).Walking? {
      Utils.LegacyWalkMeaning(t, p);
      assert p[|p| - 1] == keys[n - 2];
      Utils.LookupPair(SetRawSpec(t, keys, raw).value, keys[n - 2], keys[n - 1]);
    }
  }

  /**
   * The root walk here panics on `a.b.c=v` over an empty map whenever the
   * first two segments differ, as the utils copy does.
   */
  lemma RootWalkPanicsHere(a: string, b: string, c: string, raw: string, jsonParse: Environment.Parser)
    requires a != b
    requires '.' !in a && '.' !in b && '.' !in c && '=' !in a && '=' !in b && '=' !in c && '=' !in raw
    ensures ApplyPiece(map[], a + "." + b + "." + c + "=" + raw, jsonParse) == Failure(AssertionPanic(b))
  {
    var k := a + "." + b + "." + c;
    assert '=' !in k;
    ValuesWriter.SplitAssignment(k, raw);
    assert k == a + ['.'] + (b + ['.'] + c);
    GoStrings.SplitAtFirst(a, b + ['.'] + c, '.');
    GoStrings.SplitAtFirst(b, c, '.');
    GoStrings.SplitNoSeparator(c, '.');
    var keys := [a, b, c];
    assert GoStrings.Split(k, '.') == keys;
    var p := keys[..2];
    assert p == [a, b];
    var t0: Tree := map[];
    assert p[..1] == [a];
    Utils.LegacyWalkMeaning(t0, [a]);
    assert Utils.LegacyWalkPath(t0, [a]) == Utils.Walking(map[a := Map(map[])], Utils.AtEntry(a));
    assert Utils.LegacyWalkPath(t0, p).segment == b;
    assert SetRawSpec(t0, keys, raw) == Failure(AssertionPanic(b));
    var piece := a + "." + b + "." + c + "=" + raw;
    assert piece == k + "=" + raw;
    assert GoStrings.Split(piece, '=') == [k, raw];
    assert '.' in k by {
      assert k[|a|] == '.';
    }
  }
}
