/**
 * pkgs/utils/utils.go: the older copies of the merge, the dotted setter and
 * the document joiner. The merge and the joiner agree with the current
 * ones; the setter walks its intermediate segments from the root map.
 */
module Utils {
  import opened Wrappers
  import opened ValueTree
  import GoStrings
  import Environment
  import Transform

  /** `MergeMaps`: the same union, recursive merge and overlay rule as `Environment.MergeMaps`. */
  function MergeMaps(a: Tree, b: Tree): (r: Tree)
    ensures r == Environment.MergeMaps(a, b)
    decreases Map(b)
  {
    a + map k | k in b ::
      if b[k].Map? && k in a && a[k].Map? then Map(MergeMaps(a[k].entries, b[k].entries)) else b[k]
  }

  // -------------------------------------------------- the legacy setter

  /** Which map `mref` designates: the root `m`, or the map held by the root entry `m[key]`. */
  datatype Cursor = AtRoot | AtEntry(key: string)

  predicate CursorOk(t: Tree, c: Cursor)
  {
    c.AtRoot? || (c.key in t && t[c.key].Map?)
  }

  /** `mref[key] = v`. */
  function Insert(t: Tree, c: Cursor, key: string, v: Value): Tree
    requires CursorOk(t, c)
  {
    match c
    case AtRoot => t[key := v]
    case AtEntry(k) => t[k := Map(t[k].entries[key := v])]
  }

  /** The walk over the intermediate segments: still going, or the type assertion panicked. */
  datatype LegacyWalk = Walking(tree: Tree, cursor: Cursor) | Panicked(tree: Tree, segment: string)

  /**
   * One intermediate segment: a key missing from the ROOT map gets a new map
   * inserted at the cursor, then the cursor moves to the ROOT's entry for the
   * key, which must be a map.
   */
  function LegacyStep(t: Tree, c: Cursor, key: string): (w: LegacyWalk)
    requires CursorOk(t, c)
    ensures w.Walking? ==> CursorOk(w.tree, w.cursor)
  {
    var t' := if key !in t then Insert(t, c, key, Map(map[])) else t;
    if key in t' && t'[key].Map? then Walking(t', AtEntry(key)) else Panicked(t', key)
  }

  function LegacyWalkPath(t: Tree, path: Path): (w: LegacyWalk)
    ensures w.Walking? ==> CursorOk(w.tree, w.cursor)
  {
    if path == [] then Walking(t, AtRoot)
    else
      match LegacyWalkPath(t, path[..|path| - 1])
      case Panicked(t', s) => Panicked(t', s)
      case Walking(t', c) => LegacyStep(t', c, path[|path| - 1])
  }

  datatype LegacyError =
    | ParseError(reason: string)     // the error of `UnmarshalOption`, returned
    | AssertionPanic(segment: string) // the unchecked `m[key].(map[string]any)` panicked

  datatype LegacyOutcome = LegacyOutcome(tree: Tree, err: Option<LegacyError>)

  /**
   * The dotted branch: walk, then `mref[last], err = UnmarshalOption(value)`,
   * which stores the nil a failing parse returns before the error is seen.
   */
  function DottedSpec(t: Tree, keys: Path, raw: string, parse: Environment.Parser): LegacyOutcome
    requires keys != []
  {
    match LegacyWalkPath(t, keys[..|keys| - 1])
    case Panicked(t', s) => LegacyOutcome(t', Some(AssertionPanic(s)))
    case Walking(t', c) =>
      match parse(raw)
      case Failure(e) => LegacyOutcome(Insert(t', c, keys[|keys| - 1], Null), Some(ParseError(e)))
      case Success(v) => LegacyOutcome(Insert(t', c, keys[|keys| - 1], v), None)
  }

  /** `SetNestedMapValue(m, dottedKey, value)` of utils.go. */
  function SetNestedMapValueSpec(t: Tree, dottedKey: string, raw: string, parse: Environment.Parser): LegacyOutcome
  {
    if '.' !in dottedKey then
      match parse(raw)
      case Failure(e) => LegacyOutcome(t[dottedKey := Null], Some(ParseError(e)))
      case Success(v) => LegacyOutcome(t[dottedKey := v], None)
    else DottedSpec(t, GoStrings.Split(dottedKey, '.'), raw, parse)
  }

  /** `SetNestedMapValue`: the `mref` loop on the caller's map in place. */
  method SetNestedMapValue(m: ValueMap, dottedKey: string, value: string, parse: Environment.Parser)
    returns (err: Option<LegacyError>)
    modifies m
    ensures LegacyOutcome(m.entries, err) == SetNestedMapValueSpec(old(m.entries), dottedKey, value, parse)
  {
    if '.' !in dottedKey {
      var r := parse(value);
      if r.Failure? {
        m.entries := m.entries[dottedKey := Null];
        return Some(ParseError(r.error));
      }
      m.entries := m.entries[dottedKey := r.value];
      return None;
    }
    var keys := GoStrings.Split(dottedKey, '.');
    GoStrings.SplitAtLeastTwo(dottedKey, '.');
    var cursor, panicked := WalkFromRoot(m, keys[..|keys| - 1]);
    if panicked.Some? {
      return Some(AssertionPanic(panicked.value));
    }
    var r := parse(value);
    if r.Failure? {
      m.entries := Insert(m.entries, cursor, keys[|keys| - 1], Null);
      return Some(ParseError(r.error));
    }
    m.entries := Insert(m.entries, cursor, keys[|keys| - 1], r.value);
    return None;
  }

  /**
   * The `mref` loop over the intermediate segments, on the caller's map in
   * place: it returns where `mref` ended, or the segment whose type
   * assertion panicked.
   */
  method WalkFromRoot(m: ValueMap, path: Path) returns (cursor: Cursor, panicked: Option<string>)
    modifies m
    ensures LegacyWalkPath(old(m.entries), path)
         == if panicked.Some? then Panicked(m.entries, panicked.value) else Walking(m.entries, cursor)
  {
    ghost var t0 := m.entries;
    cursor := AtRoot;
    var i := 0;
    while i < |path|
      invariant 0 <= i <= |path|
      invariant LegacyWalkPath(t0, path[..i]) == Walking(m.entries, cursor)
    {
      assert path[..i + 1][..i] == path[..i];
      var key := path[i];
      if key !in m.entries {
        m.entries := Insert(m.entries, cursor, key, Map(map[]));
      }
      if !(key in m.entries && m.entries[key].Map?) {
        assert path[..i + 1] <= path;
        PanicSticky(t0, path[..i + 1], path);
        return cursor, Some(key);
      }
      cursor := AtEntry(key);
      i := i + 1;
    }
    assert path[..i] == path;
    return cursor, None;
  }

  /** Once the type assertion panicked, nothing further happens. */
  lemma {:induction false} PanicSticky(t: Tree, p: Path, q: Path)
    requires p <= q && LegacyWalkPath(t, p).Panicked?
    ensures LegacyWalkPath(t, q) == LegacyWalkPath(t, p)
    decreases |q|
  {
    if |q| > |p| {
      assert p <= q[..|q| - 1];
      PanicSticky(t, p, q[..|q| - 1]);
    } else {
      assert p == q;
    }
  }

  // ------------------------------------------------------------- properties

  predicate RootMap(t: Tree, k: string)
  {
    k in t && t[k].Map?
  }

  /** The root with a new empty map at `k` when it lacks `k`. */
  function Created(t: Tree, k: string): Tree
  {
    if k in t then t else t[k := Map(map[])]
  }

  /**
   * The walk gets through exactly when the first segment is absent or a map
   * and every later segment names the first one or a map entry of the ROOT.
   * It then has created only the first segment, at the root, and points at
   * the root's entry for the last intermediate segment.
   */
  lemma {:induction false} LegacyWalkMeaning(t: Tree, p: Path)
    requires p != []
    ensures LegacyWalkPath(t, p).Walking?
        <==> (p[0] !in t || t[p[0]].Map?) && forall i :: 1 <= i < |p| ==> p[i] == p[0] || RootMap(t, p[i])
    ensures LegacyWalkPath(t, p).Walking? ==>
      LegacyWalkPath(t, p) == Walking(Created(t, p[0]), AtEntry(p[|p| - 1]))
    decreases |p|
  {
    var n := |p|;
    if n > 1 {
      var front := p[..n - 1];
      LegacyWalkMeaning(t, front);
      forall i | 0 <= i < n - 1
        ensures front[i] == p[i]
      {
      }
    } else {
      assert p[..0] == [];
    }
  }

  /**
   * A key without `.` is set to the parsed value at the root; on a parse
   * error the key is left holding nil and the error is returned.
   */
  lemma PlainKey(t: Tree, key: string, raw: string, parse: Environment.Parser)
    requires '.' !in key
    ensures var r := SetNestedMapValueSpec(t, key, raw, parse);
            && (r.err == None <==> parse(raw).Success?)
            && r.tree.Keys == t.Keys + {key}
            && r.tree[key] == (if parse(raw).Success? then parse(raw).value else Null)
            && (forall k :: k in t && k != key ==> r.tree[k] == t[k])
  {
  }

  /** With a successful walk and parse, the value lands under the root's entry for the next-to-last segment. */
  lemma ValueLandsUnderNextToLast(t: Tree, keys: Path, raw: string, parse: Environment.Parser)
    requires |keys| >= 2 && parse(raw).Success?
    requires LegacyWalkPath(t, keys[..|keys| - 1]).Walking?
    ensures var n := |keys|;
            var r := DottedSpec(t, keys, raw, parse);
            r.err == None && Lookup(Map(r.tree), [keys[n - 2], keys[n - 1]]) == Some(parse(raw).value)
  {
    var n := |keys|;
    var p := keys[..n - 1];
    LegacyWalkMeaning(t, p);
    assert p[|p| - 1] == keys[n - 2];
    LookupPair(DottedSpec(t, keys, raw, parse).tree, keys[n - 2], keys[n - 1]);
  }

  lemma LookupPair(t: Tree, x: string, y: string)
    ensures Lookup(Map(t), [x, y])
         == if x in t && t[x].Map? && y in t[x].entries then Some(t[x].entries[y]) else None
  {
    assert [x, y][1..] == [y];
    assert [y][1..] == [];
    if x in t {
      assert Lookup(Map(t), [x, y]) == Lookup(t[x], [y]);
      if t[x].Map? && y in t[x].entries {
        assert Lookup(t[x], [y]) == Lookup(t[x].entries[y], []);
      }
    }
  }

  /** The current walk over one segment that is absent or a map creates it at the root. */
  lemma EnsureOneSegment(t: Tree, a: string)
    requires a !in t || t[a].Map?
    ensures Environment.EnsurePath(t, [a]) == Environment.Walked(Created(t, a))
  {
    assert [a][..0] == [];
    assert Lookup(Map(t), []) == Some(Map(t));
    assert Environment.EnsurePath(t, []) == Environment.Walked(t);
  }

  /**
   * For a two-segment key whose first segment is absent or a map, the legacy
   * setter agrees with `Environment.SetNestedMapValue`.
   */
  lemma TwoSegmentsAgree(t: Tree, a: string, b: string, raw: string, parse: Environment.Parser)
    requires '.' !in a && '.' !in b && parse(raw).Success?
    requires a !in t || t[a].Map?
    ensures var l := SetNestedMapValueSpec(t, a + "." + b, raw, parse);
            var e := Environment.SetNestedMapValueSpec(t, a + "." + b, raw, parse);
            && l.err == None && e.err == None && l.tree == e.tree
            && Lookup(Map(l.tree), [a, b]) == Some(parse(raw).value)
  {
    var k := a + "." + b;
    assert k == a + ['.'] + b;
    assert '.' in k;
    GoStrings.SplitAtFirst(a, b, '.');
    GoStrings.SplitNoSeparator(b, '.');
    var keys := [a, b];
    assert GoStrings.Split(k, '.') == keys;
    assert keys[..1] == [a];
    LegacyWalkMeaning(t, [a]);
    EnsureOneSegment(t, a);
    var c := Created(t, a);
    assert [a][1..] == [];
    assert PutAt(c, [a], b, parse(raw).value) == c[a := Map(c[a].entries[b := parse(raw).value])];
    LookupPair(c[a := Map(c[a].entries[b := parse(raw).value])], a, b);
  }

  /** A key of three dot-free segments splits into them. */
  lemma SplitThree(a: string, b: string, c: string)
    requires '.' !in a && '.' !in b && '.' !in c
    ensures '.' in a + "." + b + "." + c
    ensures GoStrings.Split(a + "." + b + "." + c, '.') == [a, b, c]
  {
    var k := a + "." + b + "." + c;
    assert k == a + ['.'] + (b + ['.'] + c);
    assert k[|a|] == '.';
    GoStrings.SplitAtFirst(a, b + ['.'] + c, '.');
    GoStrings.SplitAtFirst(b, c, '.');
    GoStrings.SplitNoSeparator(c, '.');
  }

  /**
   * The legacy walk panics on `a.b.c` over an empty map whenever `a` and `b`
   * differ, where the environment setter succeeds.
   */
  lemma RootWalkPanics(a: string, b: string, c: string, raw: string, parse: Environment.Parser)
    requires a != b && '.' !in a && '.' !in b && '.' !in c && parse(raw).Success?
    ensures SetNestedMapValueSpec(map[], a + "." + b + "." + c, raw, parse).err == Some(AssertionPanic(b))
    ensures Environment.SetNestedMapValueSpec(map[], a + "." + b + "." + c, raw, parse).err == None
  {
    SplitThree(a, b, c);
    var keys := [a, b, c];
    var p := keys[..2];
    assert p == [a, b] && p[..1] == [a];
    var t0: Tree := map[];
    LegacyWalkMeaning(t0, p[..1]);
    assert LegacyWalkPath(t0, p[..1]) == Walking(map[a := Map(map[])], AtEntry(a));
    assert LegacyWalkPath(t0, p) == Panicked(map[a := Map(map[b := Map(map[])])], b);
    Environment.EnsurePathSucceedsIff(t0, p);
    assert Environment.Clear(t0, p) by {
      forall j | 0 <= j < |p|
        ensures !Environment.Blocks(t0, p, j)
      {
        assert p[..j + 1][0] == a;
      }
    }
  }

  /**
   * On `{a: {}, b: {}}` the legacy setter puts the value of `a.b.c` under
   * the root's `b`; the environment setter puts it under `a.b`.
   */
  lemma RootWalkMisplaces(a: string, b: string, c: string, raw: string, parse: Environment.Parser, v: Value)
    requires a != b && '.' !in a && '.' !in b && '.' !in c && parse(raw) == Success(v)
    ensures var t := map[a := Map(map[]), b := Map(map[])];
            && SetNestedMapValueSpec(t, a + "." + b + "." + c, raw, parse).tree == t[b := Map(map[c := v])]
            && Environment.SetNestedMapValueSpec(t, a + "." + b + "." + c, raw, parse).tree
               == t[a := Map(map[b := Map(map[c := v])])]
  {
    LegacyMisplaces(a, b, c, raw, parse, v);
    CurrentNests(a, b, c, raw, parse, v);
  }

  lemma LegacyMisplaces(a: string, b: string, c: string, raw: string, parse: Environment.Parser, v: Value)
    requires a != b && '.' !in a && '.' !in b && '.' !in c && parse(raw) == Success(v)
    ensures var t := map[a := Map(map[]), b := Map(map[])];
            SetNestedMapValueSpec(t, a + "." + b + "." + c, raw, parse).tree == t[b := Map(map[c := v])]
  {
    SplitThree(a, b, c);
    var t := map[a := Map(map[]), b := Map(map[])];
    var p := [a, b, c][..2];
    assert p == [a, b] && p[..1] == [a];
    assert LegacyWalkPath(t, p[..1]) == Walking(t, AtEntry(a));
    assert LegacyWalkPath(t, p) == Walking(t, AtEntry(b));
  }

  lemma CurrentNests(a: string, b: string, c: string, raw: string, parse: Environment.Parser, v: Value)
    requires a != b && '.' !in a && '.' !in b && '.' !in c && parse(raw) == Success(v)
    ensures var t := map[a := Map(map[]), b := Map(map[])];
            Environment.SetNestedMapValueSpec(t, a + "." + b + "." + c, raw, parse).tree
            == t[a := Map(map[b := Map(map[c := v])])]
  {
    SplitThree(a, b, c);
    var t := map[a := Map(map[]), b := Map(map[])];
    assert [a, b, c][..2] == [a, b];
    CurrentWalk(t, a, b);
    CurrentStore(t, a, b, c, v);
  }

  /** The current walk over `a.b` on a root whose `a` is an empty map creates `b` inside `a`. */
  lemma CurrentWalk(t: Tree, a: string, b: string)
    requires a in t && t[a] == Map(map[])
    ensures Environment.EnsurePath(t, [a, b]) == Environment.Walked(t[a := Map(map[b := Map(map[])])])
  {
    var p := [a, b];
    assert p[..1] == [a];
    EnsureOneSegment(t, a);
    assert Created(t, a) == t;
    assert [a][1..] == [];
    assert Lookup(Map(t), [a]) == Lookup(t[a], []);
    assert PutAt(t, [a], b, Map(map[])) == t[a := Map(map[b := Map(map[])])];
  }

  /** Storing `c` at `a.b` of the walked tree. */
  lemma CurrentStore(t: Tree, a: string, b: string, c: string, v: Value)
    ensures var t1 := t[a := Map(map[b := Map(map[])])];
            IsMapAt(t1, [a, b]) && PutAt(t1, [a, b], c, v) == t[a := Map(map[b := Map(map[c := v])])]
  {
    var t1 := t[a := Map(map[b := Map(map[])])];
    LookupPair(t1, a, b);
    assert [a, b][1..] == [b];
    assert [b][1..] == [];
    var inner: Tree := map[b := Map(map[])];
    assert Lookup(Map(inner), [b]) == Lookup(inner[b], []);
    assert PutAt(inner, [b], c, v) == map[b := Map(map[c := v])];
  }

  // ------------------------------------------------------------- joiner

  /** `JSONToYAMLs` of utils.go: the same loop as the transform package's copy. */
  method JSONToYAMLs<S, E>(j: Transform.Text, codec: Transform.Codec, s0: S,
                           hook: (S, Value) -> Transform.Hooked<S, E>)
    returns (r: Transform.Conversion<S, E>)
    ensures r == Transform.JSONToYAMLsSpec(j, codec, s0, hook)
  {
    var decoded := codec.decode(j);
    if decoded.Failure? {
      return Transform.DecodeFailed(decoded.error);
    }
    var docs := decoded.value;
    var y: Transform.Text := [];
    var s := s0;
    var i := 0;
    while i < |docs|
      invariant 0 <= i <= |docs|
      invariant Transform.ConvertDocs(docs[..i], s0, hook, codec.marshal) == Transform.Converted(y, s)
    {
      assert docs[..i + 1][..i] == docs[..i];
      var h := hook(s, docs[i]);
      if h.Exit? {
        Transform.AbortSticky(docs, i + 1, s0, hook, codec.marshal);
        return Transform.HookExited(h.reason);
      }
      var res := codec.marshal(h.doc);
      if res.Failure? {
        Transform.AbortSticky(docs, i + 1, s0, hook, codec.marshal);
        return Transform.MarshalFailed(res.error);
      }
      if |y| > 0 {
        y := y + Transform.Separator;
      }
      y := y + res.value;
      s := h.state;
      i := i + 1;
    }
    assert docs[..i] == docs;
    return Transform.Converted(y, s);
  }
}
