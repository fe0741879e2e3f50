/**
 * The configuration value type shared by every package of the core: what
 * go-yaml and encoding/json decode into `any` (nil, bool, int, float64,
 * string, []any, map[string]any), as a tagged variant, plus the path algebra
 * used to reason about nested maps.
 */
module ValueTree {
  import opened Wrappers

  /** A decoded YAML/JSON value; floats are kept opaque as their bit pattern. */
  datatype Value =
    | Null
    | Bool(b: bool)
    | Int(i: int)
    | Float(bits: bv64)
    | Str(s: string)
    | Seq(items: seq<Value>)
    | Map(entries: map<string, Value>)

  /** A `map[string]any`, the root of a configuration tree or of a document. */
  type Tree = map<string, Value>

  /** A sequence of map keys leading from a root map to a nested value. */
  type Path = seq<string>

  /**
   * A Go map that callers share by reference: functions that receive it
   * insert into it in place.
   */
  class ValueMap {
    var entries: Tree

    constructor (t: Tree)
      ensures entries == t
    {
      entries := t;
    }
  }

  /** What loading one YAML layer file produced. */
  datatype Layer =
    | Missing                  // the file does not exist
    | Unreadable(reason: string) // reading or parsing it failed
    | Parsed(tree: Tree)

  /** The value reached from `v` by following `p`, if every step is a map holding the key. */
  function Lookup(v: Value, p: Path): Option<Value>
    decreases |p|
  {
    if p == [] then Some(v)
    else if v.Map? && p[0] in v.entries then Lookup(v.entries[p[0]], p[1..])
    else None
  }

  /** `p` leads from the root `t` to a map. */
  predicate IsMapAt(t: Tree, p: Path)
  {
    Lookup(Map(t), p).Some? && Lookup(Map(t), p).value.Map?
  }

  /** The tree `t` after `mref[k] = v`, where `mref` is the map reached by `at`. */
  function PutAt(t: Tree, at: Path, k: string, v: Value): Tree
    requires IsMapAt(t, at)
    decreases |at|
  {
    if at == [] then t[k := v]
    else
      MapAtStep(t, at);
      t[at[0] := Map(PutAt(t[at[0]].entries, at[1..], k, v))]
  }

  /** A map reached by a non-empty path hangs below a map entry of the root. */
  lemma MapAtStep(t: Tree, at: Path)
    requires IsMapAt(t, at) && at != []
    ensures at[0] in t && t[at[0]].Map? && IsMapAt(t[at[0]].entries, at[1..])
  {
    var w := t[at[0]];
    assert Lookup(Map(t), at) == Lookup(w, at[1..]);
    if at[1..] != [] {
      assert Lookup(w, at[1..]) ==
        if w.Map? && at[1..][0] in w.entries then Lookup(w.entries[at[1..][0]], at[1..][1..]) else None;
    }
  }

  /** Prefixes of two paths with the same head compare as their tails do. */
  lemma PrefixCons(x: string, a: Path, b: Path)
    ensures ([x] + a <= [x] + b) == (a <= b)
  {
    if |a| <= |b| {
      assert ([x] + b)[..1 + |a|] == [x] + b[..|a|];
      assert ([x] + b[..|a|] == [x] + a) == (b[..|a|] == a) by {
        assert ([x] + b[..|a|])[1..] == b[..|a|];
        assert ([x] + a)[1..] == a;
      }
    }
  }

  /** Following `p + q` is following `p`, then `q` from where `p` ended. */
  lemma {:induction false} LookupConcat(v: Value, p: Path, q: Path)
    ensures Lookup(v, p + q) == if Lookup(v, p).Some? then Lookup(Lookup(v, p).value, q) else None
    decreases |p|
  {
    if p == [] {
      assert p + q == q;
    } else {
      assert (p + q)[0] == p[0];
      assert (p + q)[1..] == p[1..] + q;
      if v.Map? && p[0] in v.entries {
        LookupConcat(v.entries[p[0]], p[1..], q);
      }
    }
  }

  /** Every prefix of a path that leads to a map also leads to a map. */
  lemma {:induction false} MapAtPrefix(t: Tree, p: Path, q: Path)
    requires IsMapAt(t, q)
    requires p <= q
    ensures IsMapAt(t, p)
  {
    assert q == p + q[|p|..];
    LookupConcat(Map(t), p, q[|p|..]);
    if q[|p|..] != [] {
      assert Lookup(Map(t), p).value.Map?;
    }
  }

  /** After `PutAt`, the inserted position holds the value, and below it lies the value's content. */
  lemma {:induction false} PutAtBelow(t: Tree, at: Path, k: string, v: Value, q: Path)
    requires IsMapAt(t, at)
    ensures Lookup(Map(PutAt(t, at, k, v)), at + [k] + q) == Lookup(v, q)
    decreases |at|
  {
    var p := at + [k] + q;
    if at == [] {
      assert p[0] == k && p[1..] == q;
    } else {
      assert p[0] == at[0];
      assert p[1..] == at[1..] + [k] + q;
      MapAtStep(t, at);
      PutAtBelow(t[at[0]].entries, at[1..], k, v, q);
    }
  }

  /** `PutAt` stores the value at the inserted position. */
  lemma PutAtStores(t: Tree, at: Path, k: string, v: Value)
    requires IsMapAt(t, at)
    ensures Lookup(Map(PutAt(t, at, k, v)), at + [k]) == Some(v)
  {
    PutAtBelow(t, at, k, v, []);
    assert at + [k] + [] == at + [k];
  }

  /**
   * `PutAt` changes nothing off its own position: a path that neither runs
   * through the inserted entry nor is an ancestor of it reads as before.
   */
  lemma {:induction false} PutAtElsewhere(t: Tree, at: Path, k: string, v: Value, p: Path)
    requires IsMapAt(t, at)
    requires !(at + [k] <= p) && !(p <= at)
    ensures Lookup(Map(PutAt(t, at, k, v)), p) == Lookup(Map(t), p)
    decreases |at|
  {
    if at == [] {
      assert p != [];
      assert p[..1] == [p[0]];
    } else {
      assert p != [];
      MapAtStep(t, at);
      if p[0] == at[0] {
        var inner := t[at[0]].entries;
        assert at + [k] == [at[0]] + (at[1..] + [k]);
        assert p == [at[0]] + p[1..];
        assert at == [at[0]] + at[1..];
        PrefixCons(at[0], at[1..] + [k], p[1..]);
        PrefixCons(at[0], p[1..], at[1..]);
        PutAtElsewhere(inner, at[1..], k, v, p[1..]);
        assert t[at[0]] == Map(inner);
      }
    }
  }

  /** Every ancestor of the inserted position still leads to a map. */
  lemma {:induction false} PutAtKeepsMaps(t: Tree, at: Path, k: string, v: Value, p: Path)
    requires IsMapAt(t, at)
    requires p <= at
    ensures IsMapAt(PutAt(t, at, k, v), p)
  {
    PutAtStores(t, at, k, v);
    LookupConcat(Map(PutAt(t, at, k, v)), at, [k]);
    MapAtPrefix(PutAt(t, at, k, v), p, at);
  }
}
