/**
 * pkgs/environment/values.go: the deep merge of two configuration trees and
 * the dotted-path setter that writes one override into a tree in place.
 */
module Environment {
  import opened Wrappers
  import opened ValueTree
  import GoStrings

  /** `transform.UnmarshalOption`: go-yaml's reading of an override value, opaque here. */
  type Parser = string -> Result<Value, string>

  datatype SetError =
    | NestedKeyNotMap(segment: string) // `ErrNestedKeyNotMap` wrapped with the blocking key
    | ValueParseError(reason: string)  // the error of `UnmarshalOption`

  /** The caller's map after the setter returned, and the error it returned. */
  datatype SetOutcome = SetOutcome(tree: Tree, err: Option<SetError>)

  // ---------------------------------------------------------------- MergeMaps

  /**
   * `MergeMaps(a, b)`: a fresh map holding a copy of `a`, then every entry of
   * `b`; where both sides hold maps the two are merged recursively, otherwise
   * the overlay `b` replaces the entry wholesale. Neither input is changed.
   */
  function MergeMaps(a: Tree, b: Tree): (r: Tree)
    ensures r.Keys == a.Keys + b.Keys
    ensures forall k :: k in a && k !in b ==> r[k] == a[k]
    ensures forall k :: k in b && !(k in a && a[k].Map? && b[k].Map?) ==> r[k] == b[k]
    ensures forall k :: k in b && k in a && a[k].Map? && b[k].Map? ==> r[k].Map?
    decreases Map(b)
  {
    a + map k | k in b ::
      if k in a && a[k].Map? && b[k].Map? then Map(MergeMaps(a[k].entries, b[k].entries)) else b[k]
  }

  lemma MergeRightIdentity(a: Tree)
    ensures MergeMaps(a, map[]) == a
  {
  }

  lemma MergeLeftIdentity(b: Tree)
    ensures MergeMaps(map[], b) == b
  {
  }

  /** Merging a tree with itself gives the tree back, at every depth. */
  lemma {:induction false} MergeIdempotent(a: Tree)
    ensures MergeMaps(a, a) == a
    decreases Map(a)
  {
    forall k | k in a && a[k].Map?
      ensures MergeMaps(a[k].entries, a[k].entries) == a[k].entries
    {
      MergeIdempotent(a[k].entries);
    }
    assert MergeMaps(a, a).Keys == a.Keys;
  }

  /** Every non-map value the overlay holds, at any depth, is what the merge holds there. */
  lemma {:induction false} MergeOverlayLeafWins(a: Tree, b: Tree, p: Path, v: Value)
    requires Lookup(Map(b), p) == Some(v) && !v.Map?
    ensures Lookup(Map(MergeMaps(a, b)), p) == Some(v)
    decreases |p|
  {
    var r := MergeMaps(a, b);
    assert p != [];
    var k := p[0];
    if k in a && a[k].Map? && b[k].Map? {
      assert Lookup(Map(b), p) == Lookup(Map(b[k].entries), p[1..]);
      MergeOverlayLeafWins(a[k].entries, b[k].entries, p[1..], v);
      assert Lookup(Map(r), p) == Lookup(Map(MergeMaps(a[k].entries, b[k].entries)), p[1..]);
    } else {
      assert r[k] == b[k];
    }
  }

  /**
   * values_test.go: `{"a":1,"b":{"x":1}}` merged with `{"b":{"y":2},"c":3}`
   * gives `{"a":1,"b":{"x":1,"y":2},"c":3}`, for any distinct key names.
   */
  lemma MergeExample(ka: string, kb: string, kc: string, x: string, y: string)
    requires ka != kb && kb != kc && ka != kc && x != y
    ensures MergeMaps(map[ka := Int(1), kb := Map(map[x := Int(1)])],
                      map[kb := Map(map[y := Int(2)]), kc := Int(3)])
         == map[ka := Int(1), kb := Map(map[x := Int(1), y := Int(2)]), kc := Int(3)]
  {
    var a := map[ka := Int(1), kb := Map(map[x := Int(1)])];
    var b := map[kb := Map(map[y := Int(2)]), kc := Int(3)];
    assert a.Keys == {ka, kb} && b.Keys == {kb, kc};
    MergeInner(x, y);
    MergeSharedMapKey(a, b, ka, kb, kc);
  }

  /**
   * Two trees sharing one key, where both hold maps: the result keeps the
   * left-only key, merges the shared maps and adds the right-only key.
   */
  lemma MergeSharedMapKey(a: Tree, b: Tree, ka: string, kb: string, kc: string)
    requires ka != kb && kb != kc && ka != kc
    requires a.Keys == {ka, kb} && b.Keys == {kb, kc} && a[kb].Map? && b[kb].Map?
    ensures MergeMaps(a, b) == map[ka := a[ka], kb := Map(MergeMaps(a[kb].entries, b[kb].entries)), kc := b[kc]]
  {
    var r := MergeMaps(a, b);
    MergeBothMaps(a, b, kb);
    assert kc !in {ka, kb} && ka !in {kb, kc};
    assert kc !in a.Keys && ka !in b.Keys;
    assert r[ka] == a[ka] && r[kc] == b[kc];
    assert r.Keys == {ka, kb, kc};
    ThreeEntries(r, ka, kb, kc, a[ka], Map(MergeMaps(a[kb].entries, b[kb].entries)), b[kc]);
  }

  /** A tree with exactly three keys is the display of its three entries. */
  lemma ThreeEntries(r: Tree, ka: string, kb: string, kc: string, va: Value, vb: Value, vc: Value)
    requires r.Keys == {ka, kb, kc} && ka in r && kb in r && kc in r
    requires r[ka] == va && r[kb] == vb && r[kc] == vc
    ensures r == map[ka := va, kb := vb, kc := vc]
  {
  }

  /** Where both sides hold maps, the result holds their merge. */
  lemma MergeBothMaps(a: Tree, b: Tree, k: string)
    requires k in a && k in b && a[k].Map? && b[k].Map?
    ensures MergeMaps(a, b)[k] == Map(MergeMaps(a[k].entries, b[k].entries))
  {
  }

  lemma MergeInner(x: string, y: string)
    requires x != y
    ensures MergeMaps(map[x := Int(1)], map[y := Int(2)]) == map[x := Int(1), y := Int(2)]
  {
    var inner := MergeMaps(map[x := Int(1)], map[y := Int(2)]);
    assert inner.Keys == {x, y};
  }

  /**
   * The merge is not associative: a scalar in the middle layer cuts the
   * left-to-right fold off from the bottom map, the right-nested form does not.
   */
  lemma MergeNotAssociative(k: string, x: string, y: string)
    requires x != y
    ensures var a := map[k := Map(map[x := Int(1)])];
            var b := map[k := Int(2)];
            var c := map[k := Map(map[y := Int(3)])];
            MergeMaps(MergeMaps(a, b), c) != MergeMaps(a, MergeMaps(b, c))
  {
    var a := map[k := Map(map[x := Int(1)])];
    var b := map[k := Int(2)];
    var c := map[k := Map(map[y := Int(3)])];
    var ab := MergeMaps(a, b);
    assert ab[k] == Int(2);
    assert MergeMaps(ab, c)[k] == Map(map[y := Int(3)]);
    var bc := MergeMaps(b, c);
    assert bc[k] == Map(map[y := Int(3)]);
    MergeBothMaps(a, bc, k);
    assert x in MergeMaps(map[x := Int(1)], map[y := Int(3)]);
  }

  // ------------------------------------------------------- the dotted setter

  /** How far the walk of `setNestedValue` got: to the end, or blocked by a non-map. */
  datatype Walk = Walked(tree: Tree) | Blocked(tree: Tree, segment: string)

  /**
   * One call of `ensureNestedMap(mref, key)`, `mref` being the map `at` leads to:
   * a missing key gets a new empty map, a map is reused, anything else blocks.
   */
  function EnsureStep(t: Tree, at: Path, key: string): (w: Walk)
    requires IsMapAt(t, at)
    ensures w.Walked? ==> IsMapAt(w.tree, at + [key])
  {
    var here := Lookup(Map(t), at).value.entries;
    LookupConcat(Map(t), at, [key]);
    if key !in here then
      PutAtStores(t, at, key, Map(map[]));
      Walked(PutAt(t, at, key, Map(map[])))
    else if here[key].Map? then Walked(t)
    else Blocked(t, key)
  }

  /** The intermediate segments of `setNestedValue`'s loop, walked in order from the root. */
  function EnsurePath(t: Tree, path: Path): (w: Walk)
    ensures w.Walked? ==> IsMapAt(w.tree, path)
    decreases |path|
  {
    if path == [] then Walked(t)
    else
      var front := path[..|path| - 1];
      match EnsurePath(t, front)
      case Blocked(t', s) => Blocked(t', s)
      case Walked(t') =>
        assert path == front + [path[|path| - 1]];
        EnsureStep(t', front, path[|path| - 1])
  }

  /** `setNestedValue(m, keys, value)` on the tree `t`. */
  function SetNestedValueSpec(t: Tree, keys: Path, raw: string, parse: Parser): SetOutcome
  {
    if keys == [] then SetOutcome(t, None)
    else
      var at := keys[..|keys| - 1];
      match EnsurePath(t, at)
      case Blocked(t', s) => SetOutcome(t', Some(NestedKeyNotMap(s)))
      case Walked(t') =>
        match parse(raw)
        case Failure(e) => SetOutcome(t', Some(ValueParseError(e)))
        case Success(v) => SetOutcome(PutAt(t', at, keys[|keys| - 1], v), None)
  }

  /** `SetNestedMapValue(m, dottedKey, value)` on the tree `t`. */
  function SetNestedMapValueSpec(t: Tree, dottedKey: string, raw: string, parse: Parser): SetOutcome
  {
    if '.' !in dottedKey then
      match parse(raw)
      case Failure(e) => SetOutcome(t, Some(ValueParseError(e)))
      case Success(v) => SetOutcome(t[dottedKey := v], None)
    else SetNestedValueSpec(t, GoStrings.Split(dottedKey, '.'), raw, parse)
  }

  /** `ensureNestedMap(mref, key)`, where `mref` is the map reached from the root by `at`. */
  method EnsureNestedMap(m: ValueMap, at: Path, key: string) returns (err: Option<SetError>)
    requires IsMapAt(m.entries, at)
    modifies m
    ensures var here := Lookup(Map(old(m.entries)), at).value.entries;
      && (key !in here ==> m.entries == PutAt(old(m.entries), at, key, Map(map[])) && err == None)
      && (key in here && here[key].Map? ==> m.entries == old(m.entries) && err == None)
      && (key in here && !here[key].Map? ==>
            m.entries == old(m.entries) && err == Some(NestedKeyNotMap(key)))
  {
    var here := Lookup(Map(m.entries), at).value.entries;
    if key !in here {
      m.entries := PutAt(m.entries, at, key, Map(map[]));
      return None;
    }
    if !here[key].Map? {
      return Some(NestedKeyNotMap(key));
    }
    return None;
  }

  /** `setNestedValue`: walk `keys` from the root, creating missing maps, and store the value. */
  method SetNestedValue(m: ValueMap, keys: Path, value: string, parse: Parser) returns (err: Option<SetError>)
    modifies m
    ensures SetOutcome(m.entries, err) == SetNestedValueSpec(old(m.entries), keys, value, parse)
  {
    ghost var t0 := m.entries;
    var i := 0;
    while i < |keys|
      invariant 0 <= i <= |keys|
      invariant keys != [] ==> i <= |keys| - 1
      invariant EnsurePath(t0, keys[..i]) == Walked(m.entries)
    {
      if i == |keys| - 1 {
        match parse(value) {
          case Failure(e) =>
            return Some(ValueParseError(e));
          case Success(v) =>
            m.entries := PutAt(m.entries, keys[..i], keys[i], v);
            return None;
        }
      }
      assert keys[..i + 1][..i] == keys[..i];
      err := EnsureNestedMap(m, keys[..i], keys[i]);
      if err.Some? {
        BlockedSticky(t0, keys[..i + 1], keys[..|keys| - 1]);
        return;
      }
      i := i + 1;
    }
    return None;
  }

  /** `SetNestedMapValue`: a plain key is set directly, a dotted key is walked. */
  method SetNestedMapValue(m: ValueMap, dottedKey: string, value: string, parse: Parser)
    returns (err: Option<SetError>)
    modifies m
    ensures SetOutcome(m.entries, err) == SetNestedMapValueSpec(old(m.entries), dottedKey, value, parse)
  {
    if '.' !in dottedKey {
      match parse(value) {
        case Failure(e) =>
          return Some(ValueParseError(e));
        case Success(v) =>
          m.entries := m.entries[dottedKey := v];
          return None;
      }
    }
    err := SetNestedValue(m, GoStrings.Split(dottedKey, '.'), value, parse);
  }

  // ------------------------------------------------- properties of the walk

  /** Once the walk is blocked, walking further segments changes nothing. */
  lemma {:induction false} BlockedSticky(t: Tree, p: Path, q: Path)
    requires p <= q && EnsurePath(t, p).Blocked?
    ensures EnsurePath(t, q) == EnsurePath(t, p)
    decreases |q|
  {
    if |q| > |p| {
      var front := q[..|q| - 1];
      assert p <= front;
      BlockedSticky(t, p, front);
    } else {
      assert p == q;
    }
  }

  /** The walk touches only the segments it walks: paths that are not prefixes of it read as before. */
  lemma {:induction false} EnsurePathFrame(t: Tree, path: Path, p: Path)
    requires !(p <= path)
    ensures Lookup(Map(EnsurePath(t, path).tree), p) == Lookup(Map(t), p)
    decreases |path|
  {
    if path != [] {
      var n := |path|;
      var front := path[..n - 1];
      var key := path[n - 1];
      assert path == front + [key];
      assert !(p <= front);
      EnsurePathFrame(t, front, p);
      var w := EnsurePath(t, front);
      if w.Walked? {
        var t' := w.tree;
        var here := Lookup(Map(t'), front).value.entries;
        if key !in here {
          if front + [key] <= p {
            var q := p[n..];
            assert p == front + [key] + q;
            assert q != [];
            PutAtBelow(t', front, key, Map(map[]), q);
            LookupConcat(Map(t'), front, [key]);
            assert !(path <= front);
            EnsurePathFrame(t, front, path);
            LookupConcat(Map(t), path, q);
          } else {
            assert !(p <= front);
            PutAtElsewhere(t', front, key, Map(map[]), p);
          }
        }
      }
    }
  }

  /** Segment `j` of `path` holds something other than a map in the original tree. */
  predicate Blocks(t: Tree, path: Path, j: int)
    requires 0 <= j < |path|
  {
    Lookup(Map(t), path[..j + 1]).Some? && !Lookup(Map(t), path[..j + 1]).value.Map?
  }

  /** None of the first `n` segments of `path` blocks the walk. */
  predicate ClearBefore(t: Tree, path: Path, n: int)
    requires n <= |path|
  {
    forall j :: 0 <= j < n ==> !Blocks(t, path, j)
  }

  /** No segment of `path` blocks the walk. */
  predicate Clear(t: Tree, path: Path)
  {
    ClearBefore(t, path, |path|)
  }

  /** The walk gets through exactly when no walked segment holds a non-map value. */
  lemma {:induction false} EnsurePathSucceedsIff(t: Tree, path: Path)
    ensures EnsurePath(t, path).Walked? <==> Clear(t, path)
    decreases |path|
  {
    if path != [] {
      var n := |path|;
      var front := path[..n - 1];
      var key := path[n - 1];
      assert path == front + [key];
      EnsurePathSucceedsIff(t, front);
      forall j | 0 <= j < n - 1
        ensures Blocks(t, front, j) == Blocks(t, path, j)
      {
        assert front[..j + 1] == path[..j + 1];
      }
      if EnsurePath(t, front).Walked? {
        LastStepBlocks(t, front, key);
        if EnsurePath(t, path).Walked? {
          assert !Blocks(t, path, n - 1);
          assert Clear(t, path);
        } else {
          assert Blocks(t, path, n - 1);
        }
      }
    }
  }

  /** After a walk that got through, one more segment blocks exactly when the original tree holds a non-map there. */
  lemma LastStepBlocks(t: Tree, front: Path, key: string)
    requires EnsurePath(t, front).Walked?
    ensures var path := front + [key];
            EnsureStep(EnsurePath(t, front).tree, front, key).Walked? <==> !Blocks(t, path, |front|)
  {
    var w := EnsurePath(t, front);
    var path := front + [key];
    var n := |path|;
    assert !(path <= front);
    EnsurePathFrame(t, front, path);
    LookupConcat(Map(w.tree), front, [key]);
    assert path[..n] == path;
    var here := Lookup(Map(w.tree), front).value.entries;
    assert Lookup(Map(here), [key]) == if key in here then Some(here[key]) else None;
  }

  /**
   * A blocked walk names the first blocking segment, and the maps it created
   * on the way there stay in the tree.
   */
  lemma {:induction false} EnsurePathBlocked(t: Tree, path: Path) returns (j: nat)
    requires EnsurePath(t, path).Blocked?
    ensures j < |path| && Blocks(t, path, j)
    ensures ClearBefore(t, path, j)
    ensures EnsurePath(t, path).segment == path[j]
    ensures IsMapAt(EnsurePath(t, path).tree, path[..j])
    decreases |path|
  {
    var n := |path|;
    var front := path[..n - 1];
    var key := path[n - 1];
    assert path == front + [key];
    forall i | 0 <= i < n - 1
      ensures Blocks(t, front, i) == Blocks(t, path, i)
    {
      assert front[..i + 1] == path[..i + 1];
    }
    var w := EnsurePath(t, front);
    if w.Blocked? {
      j := EnsurePathBlocked(t, front);
      assert front[..j] == path[..j];
    } else {
      j := n - 1;
      EnsurePathSucceedsIff(t, front);
      assert !(path <= front);
      EnsurePathFrame(t, front, path);
      LookupConcat(Map(w.tree), front, [key]);
      assert path[..n] == path;
      assert path[..j] == front;
    }
  }

  // ------------------------------------------------ properties of the setter

  /** A dotted key sets exactly the given path when nothing blocks it and the value parses. */
  lemma SetNestedValueStores(t: Tree, keys: Path, raw: string, parse: Parser)
    requires keys != [] && parse(raw).Success?
    requires Clear(t, keys[..|keys| - 1])
    ensures SetNestedValueSpec(t, keys, raw, parse).err == None
    ensures Lookup(Map(SetNestedValueSpec(t, keys, raw, parse).tree), keys) == Some(parse(raw).value)
  {
    var at := keys[..|keys| - 1];
    EnsurePathSucceedsIff(t, at);
    assert keys == at + [keys[|keys| - 1]];
    PutAtStores(EnsurePath(t, at).tree, at, keys[|keys| - 1], parse(raw).value);
  }

  /** A call that returned no error parsed the value and stored it at exactly the given path. */
  lemma SetNestedValueSuccess(t: Tree, keys: Path, raw: string, parse: Parser)
    requires keys != [] && SetNestedValueSpec(t, keys, raw, parse).err == None
    ensures parse(raw).Success?
    ensures Lookup(Map(SetNestedValueSpec(t, keys, raw, parse).tree), keys) == Some(parse(raw).value)
  {
    var at := keys[..|keys| - 1];
    assert keys == at + [keys[|keys| - 1]];
    PutAtStores(EnsurePath(t, at).tree, at, keys[|keys| - 1], parse(raw).value);
  }

  /**
   * Whatever the outcome, every path off the walked segments and not below
   * the target reads as before: sibling keys survive at every level.
   */
  lemma SetNestedValueFrame(t: Tree, keys: Path, raw: string, parse: Parser, p: Path)
    requires keys != []
    requires !(p <= keys[..|keys| - 1]) && !(keys <= p)
    ensures Lookup(Map(SetNestedValueSpec(t, keys, raw, parse).tree), p) == Lookup(Map(t), p)
  {
    var at := keys[..|keys| - 1];
    EnsurePathFrame(t, at, p);
    var w := EnsurePath(t, at);
    if w.Walked? && parse(raw).Success? {
      assert keys == at + [keys[|keys| - 1]];
      PutAtElsewhere(w.tree, at, keys[|keys| - 1], parse(raw).value, p);
    }
  }

  /**
   * The setter fails with `NestedKeyNotMap` exactly when an intermediate
   * segment holds a non-map; the error names the first such segment and the
   * maps created before it stay in place.
   */
  lemma SetNestedValueBlocked(t: Tree, keys: Path, raw: string, parse: Parser) returns (j: nat)
    requires keys != []
    requires !Clear(t, keys[..|keys| - 1])
    ensures j < |keys| - 1 && Blocks(t, keys[..|keys| - 1], j)
    ensures ClearBefore(t, keys[..|keys| - 1], j)
    ensures SetNestedValueSpec(t, keys, raw, parse).err == Some(NestedKeyNotMap(keys[j]))
    ensures IsMapAt(SetNestedValueSpec(t, keys, raw, parse).tree, keys[..j])
  {
    var at := keys[..|keys| - 1];
    EnsurePathSucceedsIff(t, at);
    j := EnsurePathBlocked(t, at);
    assert at[..j] == keys[..j];
  }

  /** A value that does not parse fails after the intermediate maps were created. */
  lemma SetNestedValueParseFailure(t: Tree, keys: Path, raw: string, parse: Parser)
    requires keys != [] && parse(raw).Failure?
    requires Clear(t, keys[..|keys| - 1])
    ensures SetNestedValueSpec(t, keys, raw, parse).err == Some(ValueParseError(parse(raw).error))
    ensures IsMapAt(SetNestedValueSpec(t, keys, raw, parse).tree, keys[..|keys| - 1])
  {
    EnsurePathSucceedsIff(t, keys[..|keys| - 1]);
  }

  /** A key without `.` behaves as the one-segment walk of its split. */
  lemma SetNestedMapValueIsWalk(t: Tree, dottedKey: string, raw: string, parse: Parser)
    ensures SetNestedMapValueSpec(t, dottedKey, raw, parse)
         == SetNestedValueSpec(t, GoStrings.Split(dottedKey, '.'), raw, parse)
  {
    if '.' !in dottedKey {
      GoStrings.SplitNoSeparator(dottedKey, '.');
      assert [dottedKey][..0] == [];
    }
  }
}
