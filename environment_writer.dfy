/**
 * pkgs/environment/writer.go, `ValuesWriter.WriteJSON`: the state values are
 * the defaults layer merged with the environment layer, then every
 * `--state-values-set` override applied to that tree in order.
 */
module ValuesWriter {
  import opened Wrappers
  import opened ValueTree
  import GoStrings
  import Environment

  datatype WriteError =
    | LayerFailed(reason: string)                          // `LoadYamlFile` failed on an existing file
    | InvalidStateValue(piece: string)                     // `ErrInvalidStateValue: <piece>`
    | CouldNotSet(key: string, cause: Environment.SetError) // `could not set nested map value <key>: <cause>`

  /** `LoadYamlFile`: a file that does not exist is an empty layer. */
  function LoadLayer(l: Layer): Result<Tree, WriteError>
  {
    match l
    case Missing => Success(map[])
    case Unreadable(e) => Failure(LayerFailed(e))
    case Parsed(t) => Success(t)
  }

  /** The starting tree: the environment layer merged over the defaults layer. */
  function Base(defaults: Layer, env: Layer): Result<Tree, WriteError>
  {
    match LoadLayer(defaults)
    case Failure(e) => Failure(e)
    case Success(d) =>
      match LoadLayer(env)
      case Failure(e) => Failure(e)
      case Success(n) => Success(Environment.MergeMaps(d, n))
  }

  /** Every comma-separated piece of every override string, in order. */
  function Pieces(overrides: seq<string>): seq<string>
  {
    if overrides == [] then []
    else Pieces(overrides[..|overrides| - 1]) + GoStrings.Split(overrides[|overrides| - 1], ',')
  }

  /** One piece `key=value`: it must split on `=` into exactly two parts. */
  function ApplyPiece(t: Tree, piece: string, parse: Environment.Parser): Result<Tree, WriteError>
  {
    var kv := GoStrings.Split(piece, '=');
    if |kv| != 2 then Failure(InvalidStateValue(piece))
    else
      var o := Environment.SetNestedMapValueSpec(t, kv[0], kv[1], parse);
      if o.err.Some? then Failure(CouldNotSet(kv[0], o.err.value)) else Success(o.tree)
  }

  /** The pieces applied left to right; the first error ends the walk. */
  function ApplyPieces(t: Tree, pieces: seq<string>, parse: Environment.Parser): Result<Tree, WriteError>
  {
    if pieces == [] then Success(t)
    else
      match ApplyPieces(t, pieces[..|pieces| - 1], parse)
      case Failure(e) => Failure(e)
      case Success(t') => ApplyPiece(t', pieces[|pieces| - 1], parse)
  }

  /** The tree `WriteJSON` serialises, or the error it returns. */
  function ValuesOf(defaults: Layer, env: Layer, overrides: seq<string>, parse: Environment.Parser)
    : Result<Tree, WriteError>
  {
    match Base(defaults, env)
    case Failure(e) => Failure(e)
    case Success(b) => ApplyPieces(b, Pieces(overrides), parse)
  }

  /**
   * Lines 43-70 of `WriteJSON`: load both layers, merge them, and run the
   * nested override loop on the merged map in place.
   */
  method WriteJSON(defaults: Layer, env: Layer, overrides: seq<string>, parse: Environment.Parser)
    returns (r: Result<Tree, WriteError>)
    ensures r == ValuesOf(defaults, env, overrides, parse)
  {
    var base := Base(defaults, env);
    if base.Failure? {
      return Failure(base.error);
    }
    var m := new ValueMap(base.value);
    var i := 0;
    while i < |overrides|
      invariant 0 <= i <= |overrides|
      invariant ApplyPieces(base.value, Pieces(overrides[..i]), parse) == Success(m.entries)
    {
      var vals := GoStrings.Split(overrides[i], ',');
      var err := ApplyOverride(m, vals, parse);
      ApplyPiecesConcat(base.value, Pieces(overrides[..i]), vals, parse);
      NextOverride(overrides, i);
      if err.Some? {
        AbortAfter(base.value, overrides, i + 1, parse);
        return Failure(err.value);
      }
      i := i + 1;
    }
    assert overrides[..i] == overrides;
    return Success(m.entries);
  }

  /**
   * The inner loop of `WriteJSON` (lines 60-69): the pieces of one override
   * string applied to the map in place, stopping at the first that fails.
   */
  method ApplyOverride(m: ValueMap, vals: seq<string>, parse: Environment.Parser) returns (err: Option<WriteError>)
    modifies m
    ensures ApplyPieces(old(m.entries), vals, parse) == if err.Some? then Failure(err.value) else Success(m.entries)
  {
    ghost var t0 := m.entries;
    var j := 0;
    while j < |vals|
      invariant 0 <= j <= |vals|
      invariant ApplyPieces(t0, vals[..j], parse) == Success(m.entries)
    {
      assert vals[..j + 1][..j] == vals[..j];
      assert vals[..j + 1] + vals[j + 1..] == vals;
      var kv := GoStrings.Split(vals[j], '=');
      if |kv| != 2 {
        ApplyPiecesFailureSticky(t0, vals[..j + 1], vals[j + 1..], parse);
        return Some(InvalidStateValue(vals[j]));
      }
      ghost var before := m.entries;
      var e := Environment.SetNestedMapValue(m, kv[0], kv[1], parse);
      if e.Some? {
        ApplyPiecesFailureSticky(t0, vals[..j + 1], vals[j + 1..], parse);
        return Some(CouldNotSet(kv[0], e.value));
      }
      assert ApplyPiece(before, vals[j], parse) == Success(m.entries);
      j := j + 1;
    }
    assert vals[..j] == vals;
    return None;
  }

  // ------------------------------------------------------------- properties

  /** The pieces of one more override string follow those of the strings before it. */
  lemma NextOverride(overrides: seq<string>, i: nat)
    requires i < |overrides|
    ensures Pieces(overrides[..i + 1]) == Pieces(overrides[..i]) + GoStrings.Split(overrides[i], ',')
  {
    assert overrides[..i + 1][..i] == overrides[..i];
  }

  /** A failure within the first `n` override strings is the failure of the whole call. */
  lemma AbortAfter(t: Tree, overrides: seq<string>, n: nat, parse: Environment.Parser)
    requires n <= |overrides|
    requires ApplyPieces(t, Pieces(overrides[..n]), parse).Failure?
    ensures ApplyPieces(t, Pieces(overrides), parse) == ApplyPieces(t, Pieces(overrides[..n]), parse)
  {
    var upTo := Pieces(overrides[..n]);
    PiecesPrefix(overrides, n);
    ApplyPiecesFailureSticky(t, upTo, Pieces(overrides)[|upTo|..], parse);
  }

  /** The pieces of a prefix of the overrides are a prefix of all pieces. */
  lemma {:induction false} PiecesPrefix(overrides: seq<string>, n: nat)
    requires n <= |overrides|
    ensures Pieces(overrides[..n]) <= Pieces(overrides)
    ensures Pieces(overrides) == Pieces(overrides[..n]) + Pieces(overrides)[|Pieces(overrides[..n])|..]
    decreases |overrides| - n
  {
    if n < |overrides| {
      PiecesPrefix(overrides, n + 1);
      assert overrides[..n + 1][..n] == overrides[..n];
    } else {
      assert overrides[..n] == overrides;
    }
  }

  /** Applying `ps + qs` is applying `ps`, then `qs` to its result. */
  lemma {:induction false} ApplyPiecesConcat(t: Tree, ps: seq<string>, qs: seq<string>, parse: Environment.Parser)
    ensures ApplyPieces(t, ps + qs, parse)
         == match ApplyPieces(t, ps, parse)
            case Failure(e) => Failure(e)
            case Success(t') => ApplyPieces(t', qs, parse)
    decreases |qs|
  {
    if qs == [] {
      assert ps + qs == ps;
    } else {
      var front := qs[..|qs| - 1];
      ApplyPiecesConcat(t, ps, front, parse);
      assert (ps + qs)[..|ps + qs| - 1] == ps + front;
      assert (ps + qs)[|ps + qs| - 1] == qs[|qs| - 1];
    }
  }

  /** Any error aborts the whole call: once a prefix fails, later pieces are never applied. */
  lemma ApplyPiecesFailureSticky(t: Tree, ps: seq<string>, qs: seq<string>, parse: Environment.Parser)
    requires ApplyPieces(t, ps, parse).Failure?
    ensures ApplyPieces(t, ps + qs, parse) == ApplyPieces(t, ps, parse)
  {
    ApplyPiecesConcat(t, ps, qs, parse);
  }

  /** A piece is rejected as an invalid state value exactly when it does not hold exactly one `=`. */
  lemma PieceShapeRule(t: Tree, piece: string, parse: Environment.Parser)
    ensures ApplyPiece(t, piece, parse) == Failure(InvalidStateValue(piece))
        <==> GoStrings.Count(piece, '=') != 1
  {
    GoStrings.SplitLength(piece, '=');
  }

  /** The first piece that fails decides the result of the whole call. */
  lemma FirstFailureDecides(t: Tree, ps: seq<string>, i: nat, parse: Environment.Parser)
    requires i < |ps|
    requires ApplyPieces(t, ps[..i], parse).Success?
    requires ApplyPiece(ApplyPieces(t, ps[..i], parse).value, ps[i], parse).Failure?
    ensures ApplyPieces(t, ps, parse) == ApplyPiece(ApplyPieces(t, ps[..i], parse).value, ps[i], parse)
  {
    assert ps[..i + 1][..i] == ps[..i];
    ApplyPiecesFailureSticky(t, ps[..i + 1], ps[i + 1..], parse);
    assert ps == ps[..i + 1] + ps[i + 1..];
  }

  /** A piece with more or fewer than one `=` fails the call, whatever comes before it. */
  lemma {:induction false} MalformedPieceFails(t: Tree, ps: seq<string>, i: nat, parse: Environment.Parser)
    requires i < |ps| && GoStrings.Count(ps[i], '=') != 1
    ensures ApplyPieces(t, ps, parse).Failure?
  {
    assert ps[..i + 1][..i] == ps[..i];
    if ApplyPieces(t, ps[..i], parse).Success? {
      PieceShapeRule(ApplyPieces(t, ps[..i], parse).value, ps[i], parse);
    }
    ApplyPiecesFailureSticky(t, ps[..i + 1], ps[i + 1..], parse);
    assert ps == ps[..i + 1] + ps[i + 1..];
  }

  /** The last piece of a string that ends with `,` is empty. */
  lemma {:induction false} TrailingSeparatorPiece(s: string, c: char)
    ensures |GoStrings.Split(s + [c], c)| >= 2
    ensures GoStrings.Split(s + [c], c)[|GoStrings.Split(s + [c], c)| - 1] == []
    decreases |s|
  {
    if s == [] {
      assert GoStrings.Split([c], c) == [[]] + GoStrings.Split([], c);
    } else {
      assert (s + [c])[1..] == s[1..] + [c];
      TrailingSeparatorPiece(s[1..], c);
    }
  }

  /** An override string with a trailing comma makes the whole call fail. */
  lemma TrailingCommaRejected(defaults: Layer, env: Layer, overrides: seq<string>, s: string, parse: Environment.Parser)
    requires overrides != [] && overrides[|overrides| - 1] == s + [',']
    ensures ValuesOf(defaults, env, overrides, parse).Failure?
  {
    if Base(defaults, env).Success? {
      var ps := Pieces(overrides);
      var last := GoStrings.Split(s + [','], ',');
      TrailingSeparatorPiece(s, ',');
      assert ps == Pieces(overrides[..|overrides| - 1]) + last;
      assert ps[|ps| - 1] == [];
      assert GoStrings.Count([], '=') == 0;
      MalformedPieceFails(Base(defaults, env).value, ps, |ps| - 1, parse);
    }
  }

  /** `key=value` with no further `=` splits into exactly the key and the value. */
  lemma SplitAssignment(key: string, value: string)
    requires '=' !in key && '=' !in value
    ensures GoStrings.Split(key + "=" + value, '=') == [key, value]
  {
    GoStrings.SplitAtFirst(key, value, '=');
    GoStrings.SplitNoSeparator(value, '=');
    assert key + "=" + value == key + ['='] + value;
  }

  /**
   * A piece that leaves `path` alone: either it is malformed (and fails the
   * run) or its dotted key's path neither passes through `path` nor ends
   * inside the maps leading to it.
   */
  predicate KeepsPath(piece: string, path: Path)
  {
    var kv := GoStrings.Split(piece, '=');
    |kv| == 2 ==>
      var keys := GoStrings.Split(kv[0], '.');
      !(path <= keys[..|keys| - 1]) && !(keys <= path)
  }

  /**
   * Pieces apply in order, so the last piece that names a key decides its
   * value, whatever earlier pieces or layers set there and whatever later
   * pieces set on other paths.
   */
  lemma {:induction false} LaterOverrideWins(t: Tree, ps: seq<string>, key: string, value: string, qs: seq<string>,
                                             parse: Environment.Parser)
    requires '=' !in key && '=' !in value
    requires forall j :: 0 <= j < |qs| ==> KeepsPath(qs[j], GoStrings.Split(key, '.'))
    requires ApplyPieces(t, ps + [key + "=" + value] + qs, parse).Success?
    ensures parse(value).Success?
    ensures Lookup(Map(ApplyPieces(t, ps + [key + "=" + value] + qs, parse).value), GoStrings.Split(key, '.'))
         == Some(parse(value).value)
    decreases |qs|
  {
    var p := key + "=" + value;
    var path := GoStrings.Split(key, '.');
    if qs == [] {
      assert ps + [p] + qs == ps + [p];
      assert (ps + [p])[..|ps|] == ps;
      SplitAssignment(key, value);
      var t' := ApplyPieces(t, ps, parse).value;
      Environment.SetNestedMapValueIsWalk(t', key, value, parse);
      GoStrings.SplitLength(key, '.');
      Environment.SetNestedValueSuccess(t', path, value, parse);
    } else {
      var front := qs[..|qs| - 1];
      var q := qs[|qs| - 1];
      var all := ps + [p] + qs;
      assert all[..|all| - 1] == ps + [p] + front;
      assert all[|all| - 1] == q;
      forall j | 0 <= j < |front|
        ensures KeepsPath(front[j], path)
      {
        assert front[j] == qs[j];
      }
      LaterOverrideWins(t, ps, key, value, front, parse);
      var t' := ApplyPieces(t, ps + [p] + front, parse).value;
      var kv := GoStrings.Split(q, '=');
      assert KeepsPath(q, path);
      var keys := GoStrings.Split(kv[0], '.');
      GoStrings.SplitLength(kv[0], '.');
      Environment.SetNestedMapValueIsWalk(t', kv[0], kv[1], parse);
      Environment.SetNestedValueFrame(t', keys, kv[1], parse, path);
    }
  }

  /** With both layer files missing and no overrides the values are the empty tree. */
  lemma EmptyLayersGiveEmptyTree(parse: Environment.Parser)
    ensures ValuesOf(Missing, Missing, [], parse) == Success(map[])
  {
    Environment.MergeLeftIdentity(map[]);
  }

  /** The starting tree is the environment layer merged over the defaults. */
  lemma NoOverridesGiveMergedLayers(d: Tree, e: Tree, parse: Environment.Parser)
    ensures ValuesOf(Parsed(d), Parsed(e), [], parse) == Success(Environment.MergeMaps(d, e))
  {
  }

  /** A layer file that exists but cannot be read or parsed fails the call. */
  lemma UnreadableLayerFails(defaults: Layer, env: Layer, overrides: seq<string>, parse: Environment.Parser)
    requires defaults.Unreadable? || (env.Unreadable? && !defaults.Unreadable?)
    ensures ValuesOf(defaults, env, overrides, parse)
         == Failure(LayerFailed(if defaults.Unreadable? then defaults.reason else env.reason))
  {
  }

  /** A piece without `=`, such as `no_equals_sign`, is rejected as an invalid state value. */
  lemma NoEqualsSignRejected(t: Tree, piece: string, parse: Environment.Parser)
    requires '=' !in piece
    ensures ApplyPiece(t, piece, parse) == Failure(InvalidStateValue(piece))
  {
    GoStrings.SplitNoSeparator(piece, '=');
  }

  /** A piece with two `=`, such as `multiple=equals=signs`, is rejected as an invalid state value. */
  lemma MultipleEqualsRejected(t: Tree, a: string, b: string, c: string, parse: Environment.Parser)
    requires '=' !in a && '=' !in b
    ensures ApplyPiece(t, a + "=" + b + "=" + c, parse) == Failure(InvalidStateValue(a + "=" + b + "=" + c))
  {
    var piece := a + "=" + b + "=" + c;
    assert piece == a + ['='] + (b + ['='] + c);
    GoStrings.SplitAtFirst(a, b + ['='] + c, '=');
    GoStrings.SplitAtFirst(b, c, '=');
  }

  /** A plain `key=value` piece sets the top-level key to the parsed value. */
  lemma PlainAssignment(t: Tree, key: string, value: string, parse: Environment.Parser)
    requires '.' !in key && '=' !in key && '=' !in value && parse(value).Success?
    ensures ApplyPiece(t, key + "=" + value, parse) == Success(t[key := parse(value).value])
  {
    SplitAssignment(key, value);
  }

  /** Three comma-separated pieces without further commas. */
  lemma ThreePieces(p1: string, p2: string, p3: string)
    requires ',' !in p1 && ',' !in p2 && ',' !in p3
    ensures Pieces([p1 + "," + p2 + "," + p3]) == [p1, p2, p3]
  {
    var o := p1 + "," + p2 + "," + p3;
    assert o == p1 + [','] + (p2 + [','] + p3);
    GoStrings.SplitAtFirst(p1, p2 + [','] + p3, ',');
    GoStrings.SplitAtFirst(p2, p3, ',');
    GoStrings.SplitNoSeparator(p3, ',');
    assert [o][..0] == [];
  }

  /**
   * Three comma-separated assignments, such as `foo=1,bar=2,baz=3`, over
   * empty layers set all three keys.
   */
  lemma ThreeOverridesExample(k1: string, v1: string, k2: string, v2: string, k3: string, v3: string,
                              parse: Environment.Parser)
    requires '.' !in k1 && '=' !in k1 && ',' !in k1 && '=' !in v1 && ',' !in v1 && parse(v1).Success?
    requires '.' !in k2 && '=' !in k2 && ',' !in k2 && '=' !in v2 && ',' !in v2 && parse(v2).Success?
    requires '.' !in k3 && '=' !in k3 && ',' !in k3 && '=' !in v3 && ',' !in v3 && parse(v3).Success?
    ensures ValuesOf(Missing, Missing, [k1 + "=" + v1 + "," + k2 + "=" + v2 + "," + k3 + "=" + v3], parse)
         == Success(map[k1 := parse(v1).value, k2 := parse(v2).value, k3 := parse(v3).value])
  {
    var p1, p2, p3 := k1 + "=" + v1, k2 + "=" + v2, k3 + "=" + v3;
    assert ',' !in p1 && ',' !in p2 && ',' !in p3;
    assert k1 + "=" + v1 + "," + k2 + "=" + v2 + "," + k3 + "=" + v3 == p1 + "," + p2 + "," + p3;
    ThreePieces(p1, p2, p3);
    Environment.MergeLeftIdentity(map[]);
    var t1: Tree := map[k1 := parse(v1).value];
    var t2 := t1[k2 := parse(v2).value];
    PlainAssignment(map[], k1, v1, parse);
    PlainAssignment(t1, k2, v2, parse);
    PlainAssignment(t2, k3, v3, parse);
    var ps := [p1, p2, p3];
    assert ps[..2] == [p1, p2];
    assert ps[..2][..1] == [p1];
    assert ps[..2][..1][..0] == [];
    assert ApplyPieces(map[], [p1], parse) == Success(t1);
    assert ApplyPieces(map[], [p1, p2], parse) == Success(t2);
  }
}
