/**
 `flattenObject` (src/App.js:234-249): a nested configuration object becomes
 a single-level object whose keys are the dotted paths to the leaves. A
 property whose value is an object (and not `null`) is descended into; every
 other property is a leaf. Keys are written by property assignment, so a
 dotted path produced twice keeps its first position and its last value.
 */
module Flattening {
  import opened Options
  import opened JsObjects
  import opened JsValues
  import opened JsStrings

  /** No value is a nested object. */
  ghost predicate NoNested(d: Dict<Value>) {
    forall p :: p in d ==> !p.1.Obj?
  }

  /** The flattened object. */
  function Flatten(ob: Dict<Value>): (r: Dict<Value>)
    ensures DistinctKeys(r) && NoNested(r)
  {
    FlattenFirstShape(ob, |ob|);
    FlattenFirst(ob, |ob|)
  }

  /** The flattened object after the outer loop has visited the first `n` properties of `ob`. */
  function FlattenFirst(ob: Dict<Value>, n: nat): Dict<Value>
    requires n <= |ob|
    decreases Obj(ob), n
  {
    if n == 0 then []
    else
      var acc := FlattenFirst(ob, n - 1);
      var (i, x) := ob[n - 1];
      if x.Obj? then PutPrefixed(acc, i, FlattenFirst(x.props, |x.props|))
      else Put(acc, i, x)
  }

  /** The inner loop: `toReturn[i + "." + x] = flatObject[x]` for every key `x` of `flat`, in order. */
  function PutPrefixed(acc: Dict<Value>, i: string, flat: Dict<Value>): Dict<Value>
  {
    if |flat| == 0 then acc
    else
      var last := flat[|flat| - 1];
      Put(PutPrefixed(acc, i, flat[..|flat| - 1]), i + "." + last.0, last.1)
  }

  /** The inner loop keeps keys distinct, and adds no nested object when `flat` holds none. */
  lemma {:induction false} PutPrefixedShape(acc: Dict<Value>, i: string, flat: Dict<Value>)
    ensures DistinctKeys(acc) ==> DistinctKeys(PutPrefixed(acc, i, flat))
    ensures NoNested(acc) && NoNested(flat) ==> NoNested(PutPrefixed(acc, i, flat))
  {
    if |flat| > 0 {
      var front := flat[..|flat| - 1];
      PutPrefixedShape(acc, i, front);
      if DistinctKeys(PutPrefixed(acc, i, front)) {
        PutDistinct(PutPrefixed(acc, i, front), i + "." + flat[|flat| - 1].0, flat[|flat| - 1].1);
      }
      assert NoNested(flat) ==> NoNested(front) by {
        forall p | p in front ensures p in flat { }
      }
    }
  }

  /** Every stage of the flattening has distinct keys and holds no nested object. */
  lemma {:induction false} FlattenFirstShape(ob: Dict<Value>, n: nat)
    requires n <= |ob|
    ensures DistinctKeys(FlattenFirst(ob, n)) && NoNested(FlattenFirst(ob, n))
    decreases Obj(ob), n
  {
    if n > 0 {
      var (i, x) := ob[n - 1];
      FlattenFirstShape(ob, n - 1);
      if x.Obj? {
        FlattenFirstShape(x.props, |x.props|);
        PutPrefixedShape(FlattenFirst(ob, n - 1), i, FlattenFirst(x.props, |x.props|));
      } else {
        PutDistinct(FlattenFirst(ob, n - 1), i, x);
      }
    }
  }

  /** `flattenObject` as the source writes it: a recursive call inside nested loops. */
  method FlattenObject(ob: Dict<Value>) returns (toReturn: Dict<Value>)
    ensures toReturn == Flatten(ob)
    decreases Obj(ob)
  {
    toReturn := [];
    for n := 0 to |ob|
      invariant toReturn == FlattenFirst(ob, n)
    {
      var (i, x) := ob[n];
      if x.Obj? {
        var flatObject := FlattenObject(x.props);
        ghost var acc := toReturn;
        for m := 0 to |flatObject|
          invariant toReturn == PutPrefixed(acc, i, flatObject[..m])
        {
          assert flatObject[..m + 1][..m] == flatObject[..m];
          toReturn := Put(toReturn, i + "." + flatObject[m].0, flatObject[m].1);
        }
        assert flatObject[..|flatObject|] == flatObject;
      } else {
        toReturn := Put(toReturn, i, x);
      }
    }
  }

  // ---------------------------------------------------------------------------
  // Paths to leaves

  /** The dotted key of a path: `p1 + "." + … + "." + pk`. */
  function Join(path: seq<string>): string
    requires |path| >= 1
  {
    if |path| == 1 then path[0] else path[0] + "." + Join(path[1..])
  }

  /** Following `path` from `ob` ends at the leaf `leaf` (a non-object value, `null` included). */
  ghost predicate LeafAt(ob: Dict<Value>, path: seq<string>, leaf: Value)
    decreases path
  {
    |path| >= 1 &&
    match Get(ob, path[0])
    case None => false
    case Some(x) =>
      if |path| == 1 then x == leaf && !x.Obj?
      else x.Obj? && LeafAt(x.props, path[1..], leaf)
  }

  /** Every object in the tree has distinct keys, as every parsed JSON object does. */
  ghost predicate DeepDistinct(ob: Dict<Value>)
    decreases Obj(ob)
  {
    DistinctKeys(ob) &&
    forall j :: 0 <= j < |ob| ==> ob[j].1.Obj? ==> DeepDistinct(ob[j].1.props)
  }

  /** Distinct keys everywhere, and no key contains a dot, so dotted paths cannot collide. */
  ghost predicate WellFormed(ob: Dict<Value>)
    decreases Obj(ob)
  {
    DistinctKeys(ob) &&
    forall j :: 0 <= j < |ob| ==>
      '.' !in ob[j].0 && (ob[j].1.Obj? ==> WellFormed(ob[j].1.props))
  }

  // ---------------------------------------------------------------------------
  // The inner loop

  /** A key the inner loop leaves different from `acc` is `i + "." + x` for a key `x` of `flat`, with its value. */
  lemma {:induction false} PutPrefixedSource(acc: Dict<Value>, i: string, flat: Dict<Value>, k: string)
    ensures Get(PutPrefixed(acc, i, flat), k) == Get(acc, k) ||
            exists m :: 0 <= m < |flat| && k == i + "." + flat[m].0 &&
                        Get(PutPrefixed(acc, i, flat), k) == Some(flat[m].1)
  {
    if |flat| > 0 {
      var n := |flat| - 1;
      var front := flat[..n];
      if k != i + "." + flat[n].0 {
        PutPrefixedSource(acc, i, front, k);
        if Get(PutPrefixed(acc, i, front), k) != Get(acc, k) {
          var m :| 0 <= m < |front| && k == i + "." + front[m].0 &&
                   Get(PutPrefixed(acc, i, front), k) == Some(front[m].1);
          assert front[m] == flat[m];
        }
      }
    }
  }

  /** The inner loop stores every key `x` of a distinct-keyed `flat` under `i + "." + x`. */
  lemma {:induction false} PutPrefixedHit(acc: Dict<Value>, i: string, flat: Dict<Value>, x: string)
    requires DistinctKeys(flat) && Get(flat, x).Some?
    ensures Get(PutPrefixed(acc, i, flat), i + "." + x) == Get(flat, x)
  {
    var n := |flat| - 1;
    var front := flat[..n];
    assert flat == front + [flat[n]];
    if flat[n].0 == x {
      GetAt(flat, n);
    } else {
      var j := IndexOf(flat, x).value;
      assert j < n && front[j] == flat[j];
      GetAt(flat, j);
      GetAt(front, j);
      PutPrefixedHit(acc, i, front, x);
      PrefixedInjective(i, flat[n].0, x);
    }
  }

  /** Different inner keys get different dotted keys. */
  lemma PrefixedInjective(i: string, a: string, b: string)
    ensures i + "." + a == i + "." + b ==> a == b
  {
    if i + "." + a == i + "." + b {
      assert (i + "." + a)[|i| + 1..] == a;
      assert (i + "." + b)[|i| + 1..] == b;
    }
  }

  // ---------------------------------------------------------------------------
  // Every leaf is in the result under its dotted path, and nothing else is

  /** Soundness: every key of the result is the dotted path of a leaf of `ob`, holding that leaf. */
  lemma FlattenSound(ob: Dict<Value>, k: string)
    requires DeepDistinct(ob)
    requires Get(Flatten(ob), k).Some?
    ensures exists path :: |path| >= 1 && Join(path) == k && LeafAt(ob, path, Get(Flatten(ob), k).value)
  {
    var path := FlattenFirstSound(ob, |ob|, k, Get(Flatten(ob), k).value);
  }

  /** The path to the leaf `y` stored under key `k` after the first `n` properties. */
  lemma {:induction false} FlattenFirstSound(ob: Dict<Value>, n: nat, k: string, y: Value) returns (path: seq<string>)
    requires n <= |ob| && DeepDistinct(ob)
    requires Get(FlattenFirst(ob, n), k) == Some(y)
    ensures |path| >= 1 && Join(path) == k && LeafAt(ob, path, y)
    decreases Obj(ob), n
  {
    if Get(FlattenFirst(ob, n - 1), k) == Some(y) {
      path := FlattenFirstSound(ob, n - 1, k, y);
    } else if !ob[n - 1].1.Obj? {
      path := LeafSound(ob, n, k, y);
    } else {
      path := NestedSound(ob, n, k, y);
    }
  }

  /** The step of the soundness proof for a key written by the leaf property `n - 1`: the key is that property's. */
  lemma LeafSound(ob: Dict<Value>, n: nat, k: string, y: Value) returns (path: seq<string>)
    requires 1 <= n <= |ob| && DistinctKeys(ob) && !ob[n - 1].1.Obj?
    requires Get(FlattenFirst(ob, n), k) == Some(y) && Get(FlattenFirst(ob, n - 1), k) != Some(y)
    ensures |path| >= 1 && Join(path) == k && LeafAt(ob, path, y)
  {
    assert FlattenFirst(ob, n) == Put(FlattenFirst(ob, n - 1), ob[n - 1].0, ob[n - 1].1);
    assert k == ob[n - 1].0 && y == ob[n - 1].1;
    GetAt(ob, n - 1);
    path := [k];
  }

  /** The step of the soundness proof for a key written by the inner loop of property `n - 1`. */
  lemma {:induction false} NestedSound(ob: Dict<Value>, n: nat, k: string, y: Value) returns (path: seq<string>)
    requires 1 <= n <= |ob| && DeepDistinct(ob) && ob[n - 1].1.Obj?
    requires Get(FlattenFirst(ob, n), k) == Some(y) && Get(FlattenFirst(ob, n - 1), k) != Some(y)
    ensures |path| >= 1 && Join(path) == k && LeafAt(ob, path, y)
    decreases Obj(ob), n, 0
  {
    var (i, x) := ob[n - 1];
    var acc := FlattenFirst(ob, n - 1);
    var inner := FlattenFirst(x.props, |x.props|);
    assert Get(ob, i) == Some(x) && DeepDistinct(x.props) by {
      GetAt(ob, n - 1);
    }
    assert Get(PutPrefixed(acc, i, inner), k) == Some(y);
    PutPrefixedSource(acc, i, inner, k);
    var m :| 0 <= m < |inner| && k == i + "." + inner[m].0 &&
             Get(PutPrefixed(acc, i, inner), k) == Some(inner[m].1);
    assert Get(inner, inner[m].0) == Some(y) by {
      FlattenFirstShape(x.props, |x.props|);
      GetAt(inner, m);
    }
    var rest := FlattenFirstSound(x.props, |x.props|, inner[m].0, y);
    path := [i] + rest;
    PathCons(ob, i, x, rest, y);
  }

  /** Prefixing a path inside the object at property `i` gives a path from `ob`. */
  lemma PathCons(ob: Dict<Value>, i: string, x: Value, rest: seq<string>, y: Value)
    requires Get(ob, i) == Some(x) && x.Obj? && |rest| >= 1 && LeafAt(x.props, rest, y)
    ensures Join([i] + rest) == i + "." + Join(rest)
    ensures LeafAt(ob, [i] + rest, y)
  {
    assert ([i] + rest)[1..] == rest;
  }

  /** The first segment of a dotted path whose first key has no dot is that key. */
  lemma JoinFirstSegment(path: seq<string>)
    requires |path| >= 1 && '.' !in path[0]
    ensures FirstSegment(Join(path)) == path[0]
  {
    if |path| == 1 {
      FirstSegmentDotFree(path[0]);
    } else {
      FirstSegmentDotted(path[0], Join(path[1..]));
    }
  }

  /** Completeness: in a well-formed tree, every leaf reached by `path` appears under `Join(path)` with its value. */
  lemma {:induction false} FlattenComplete(ob: Dict<Value>, path: seq<string>, leaf: Value)
    requires WellFormed(ob) && |path| >= 1 && LeafAt(ob, path, leaf)
    ensures Get(Flatten(ob), Join(path)) == Some(leaf)
    decreases Obj(ob), 1
  {
    var j := IndexOf(ob, path[0]).value;
    CompleteAt(ob, j + 1, path, leaf);
    LaterUntouched(ob, path, j);
    KeepAfter(ob, j + 1, |ob|, Join(path));
  }

  /** The properties after the path's first key neither contain a dot nor are that key. */
  lemma LaterUntouched(ob: Dict<Value>, path: seq<string>, j: nat)
    requires WellFormed(ob) && |path| >= 1 && IndexOf(ob, path[0]) == Some(j)
    ensures Untouched(ob, j + 1, |ob|, FirstSegment(Join(path)))
  {
    assert '.' !in path[0];
    JoinFirstSegment(path);
    UntouchedAll(ob, j + 1, |ob|, path[0]);
  }

  /** Property `n - 1`, the path's first key, stores the leaf under the dotted path. */
  lemma {:induction false} CompleteAt(ob: Dict<Value>, n: nat, path: seq<string>, leaf: Value)
    requires 1 <= n <= |ob| && WellFormed(ob) && |path| >= 1 && LeafAt(ob, path, leaf)
    requires IndexOf(ob, path[0]) == Some(n - 1)
    ensures Get(FlattenFirst(ob, n), Join(path)) == Some(leaf)
    decreases Obj(ob), 0
  {
    var (i, x) := ob[n - 1];
    var acc := FlattenFirst(ob, n - 1);
    assert i == path[0] && Get(ob, i) == Some(x);
    if |path| == 1 {
      assert x == leaf && !x.Obj?;
      assert FlattenFirst(ob, n) == Put(acc, i, x);
    } else {
      assert x.Obj? && LeafAt(x.props, path[1..], leaf);
      assert WellFormed(x.props);
      var inner := FlattenFirst(x.props, |x.props|);
      FlattenComplete(x.props, path[1..], leaf);
      FlattenFirstShape(x.props, |x.props|);
      PutPrefixedHit(acc, i, inner, Join(path[1..]));
      assert FlattenFirst(ob, n) == PutPrefixed(acc, i, inner);
    }
  }

  /** None of the properties `m` to `n - 1` of `ob` has a dot in its key or is named `seg`. */
  ghost predicate Untouched(ob: Dict<Value>, m: nat, n: nat, seg: string)
    requires n <= |ob|
    decreases n
  {
    n <= m || ('.' !in ob[n - 1].0 && ob[n - 1].0 != seg && Untouched(ob, m, n - 1, seg))
  }

  /** The quantified form of `Untouched` implies it. */
  lemma {:induction false} UntouchedAll(ob: Dict<Value>, m: nat, n: nat, seg: string)
    requires n <= |ob|
    requires forall t :: m <= t < n ==> '.' !in ob[t].0 && ob[t].0 != seg
    ensures Untouched(ob, m, n, seg)
    decreases n
  {
    if n > m {
      UntouchedAll(ob, m, n - 1, seg);
    }
  }

  /** Properties `m` to `n - 1`, none of them the key's first segment, leave the key as it was. */
  lemma {:induction false} KeepAfter(ob: Dict<Value>, m: nat, n: nat, key: string)
    requires m <= n <= |ob| && Untouched(ob, m, n, FirstSegment(key))
    ensures Get(FlattenFirst(ob, n), key) == Get(FlattenFirst(ob, m), key)
    decreases n
  {
    if n > m {
      KeepAfter(ob, m, n - 1, key);
      StepKeeps(ob, n, key);
    }
  }

  /** Property `n - 1` writes only keys whose first segment is its own key. */
  lemma StepKeeps(ob: Dict<Value>, n: nat, key: string)
    requires 1 <= n <= |ob| && '.' !in ob[n - 1].0 && FirstSegment(key) != ob[n - 1].0
    ensures Get(FlattenFirst(ob, n), key) == Get(FlattenFirst(ob, n - 1), key)
  {
    var (i, x) := ob[n - 1];
    var acc := FlattenFirst(ob, n - 1);
    if x.Obj? {
      var inner := FlattenFirst(x.props, |x.props|);
      assert FlattenFirst(ob, n) == PutPrefixed(acc, i, inner);
      PutPrefixedSource(acc, i, inner, key);
      if Get(PutPrefixed(acc, i, inner), key) != Get(acc, key) {
        var m :| 0 <= m < |inner| && key == i + "." + inner[m].0;
        FirstSegmentDotted(i, inner[m].0);
      }
    } else {
      FirstSegmentDotFree(i);
      assert FlattenFirst(ob, n) == Put(acc, i, x);
    }
  }

  // ---------------------------------------------------------------------------
  // Idempotence

  /** An object without nested objects and with distinct keys flattens to itself. */
  lemma FlattenFlat(ob: Dict<Value>)
    requires DistinctKeys(ob) && NoNested(ob)
    ensures Flatten(ob) == ob
  {
    FlattenFirstFlat(ob, |ob|);
    assert ob[..|ob|] == ob;
  }

  /** On a flat object with distinct keys the outer loop copies the properties it has visited. */
  lemma {:induction false} FlattenFirstFlat(ob: Dict<Value>, n: nat)
    requires n <= |ob| && DistinctKeys(ob) && NoNested(ob)
    ensures FlattenFirst(ob, n) == ob[..n]
  {
    if n > 0 {
      FlattenFirstFlat(ob, n - 1);
      assert ob[n - 1] in ob;
      assert Get(ob[..n - 1], ob[n - 1].0).None?;
      PutFresh(ob[..n - 1], ob[n - 1].0, ob[n - 1].1);
      assert ob[..n] == ob[..n - 1] + [ob[n - 1]];
    }
  }

  /** Flattening twice is flattening once. */
  lemma FlattenIdempotent(ob: Dict<Value>)
    ensures Flatten(Flatten(ob)) == Flatten(ob)
  {
    FlattenFlat(Flatten(ob));
  }

  /** An object is its own flattening exactly when it has distinct keys and holds no nested object. */
  lemma FlattenFixpoint(ob: Dict<Value>)
    ensures Flatten(ob) == ob <==> DistinctKeys(ob) && NoNested(ob)
  {
    if DistinctKeys(ob) && NoNested(ob) {
      FlattenFlat(ob);
    }
  }
}
