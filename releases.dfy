/**
 The releases object (src/App.js:60-69) and `findEarliestRelease`
 (src/App.js:252-260). The object maps `release1` … `releaseN`, in that
 order, to the parsed release files; only their `config` trees are used, so
 the model keeps `releases[i - 1]` as the `config` tree of release `i`.
 */
module Releases {
  import opened Options
  import opened JsObjects
  import opened JsValues
  import opened JsStrings
  import opened Flattening

  /** The `config` tree of one release file. */
  type Config = Dict<Value>

  /** The key of release `i` in the releases object, as `"release" + i` builds it. */
  function ReleaseKey(i: nat): string {
    "release" + Decimal(i)
  }

  /** `parseInt(releaseKey.replace("release", ""), 10)` (src/App.js:137); `None` is `NaN`. */
  function ReleaseOrdinal(releaseKey: string): Option<int> {
    ParseInt10(ReplaceFirst(releaseKey, "release", ""))
  }

  /** Parsing the ordinal back out of a release key gives the ordinal the key was built from. */
  lemma ReleaseOrdinalOfKey(i: nat)
    ensures ReleaseOrdinal(ReleaseKey(i)) == Some(i)
  {
    ReplaceLeadingPattern("release", Decimal(i));
    ParseDecimal(i);
  }

  /** Different releases have different keys. */
  lemma ReleaseKeyInjective(i: nat, j: nat)
    ensures ReleaseKey(i) == ReleaseKey(j) ==> i == j
  {
    ReleaseOrdinalOfKey(i);
    ReleaseOrdinalOfKey(j);
  }

  /** `releases[releaseKey]`: the ordinal of the release stored under that key, `None` for `undefined`. */
  function LookupRelease(releases: seq<Config>, releaseKey: string): Option<nat> {
    match ReleaseOrdinal(releaseKey)
    case Some(i) => if 1 <= i <= |releases| && ReleaseKey(i) == releaseKey then Some(i) else None
    case None => None
  }

  /** The lookup finds release `i` exactly when the key is `release<i>` for one of the releases. */
  lemma LookupReleaseIff(releases: seq<Config>, releaseKey: string, i: nat)
    ensures LookupRelease(releases, releaseKey) == Some(i) <==> 1 <= i <= |releases| && releaseKey == ReleaseKey(i)
  {
    if releaseKey == ReleaseKey(i) {
      ReleaseOrdinalOfKey(i);
    }
  }

  /** `!!flattenObject(config)[key]`: the flattened config holds a truthy value at `key`. */
  ghost predicate TruthyIn(config: Config, key: string) {
    TruthyRead(Get(Flatten(config), key))
  }

  /** Release `j` is one of the releases and its flattened config holds a truthy value at `key`. */
  ghost predicate TruthyInRelease(releases: seq<Config>, key: string, j: int) {
    1 <= j <= |releases| && TruthyIn(releases[j - 1], key)
  }

  /** The value `findEarliestRelease(key)` returns; `None` is `null`. */
  ghost function Earliest(releases: seq<Config>, key: string): Option<nat> {
    EarliestFrom(releases, key, 1)
  }

  /** The search from release `i` on. */
  ghost function EarliestFrom(releases: seq<Config>, key: string, i: nat): Option<nat>
    requires i >= 1
    decreases |releases| + 1 - i
  {
    if i > |releases| then None
    else if TruthyInRelease(releases, key, i) then Some(i)
    else EarliestFrom(releases, key, i + 1)
  }

  /** `findEarliestRelease` (src/App.js:252-260): release by release, flatten and test the key. */
  method FindEarliestRelease(releases: seq<Config>, featureKey: string) returns (r: Option<nat>)
    ensures r == Earliest(releases, featureKey)
  {
    var i := 1;
    while i <= |releases|
      invariant 1 <= i <= |releases| + 1
      invariant EarliestFrom(releases, featureKey, i) == Earliest(releases, featureKey)
    {
      var releaseConfig := FlattenObject(releases[i - 1]);
      if TruthyRead(Get(releaseConfig, featureKey)) {
        return Some(i);
      }
      i := i + 1;
    }
    return None;
  }

  /** The search from release `i` finds the first truthy release at or after `i`, or none. */
  lemma {:induction false} EarliestFromIsFirstTruthy(releases: seq<Config>, key: string, i: nat)
    requires i >= 1
    ensures var r := EarliestFrom(releases, key, i);
      && (r.Some? ==> i <= r.value && TruthyInRelease(releases, key, r.value) &&
                      forall j :: i <= j < r.value ==> !TruthyInRelease(releases, key, j))
      && (r.None? <==> forall j :: i <= j ==> !TruthyInRelease(releases, key, j))
    decreases |releases| + 1 - i
  {
    if i > |releases| {
      assert forall j :: i <= j ==> !TruthyInRelease(releases, key, j);
    } else if !TruthyInRelease(releases, key, i) {
      EarliestFromIsFirstTruthy(releases, key, i + 1);
      assert forall j :: i <= j <= i ==> !TruthyInRelease(releases, key, j);
    }
  }

  /**
   The resolver returns the first release, in ascending order, whose flattened
   config holds a truthy value at the key, and `null` exactly when no release does.
   */
  lemma EarliestIsFirstTruthy(releases: seq<Config>, key: string)
    ensures var r := Earliest(releases, key);
      && (r.Some? ==> TruthyInRelease(releases, key, r.value) &&
                      forall j :: j < r.value ==> !TruthyInRelease(releases, key, j))
      && (r.None? <==> forall j :: !TruthyInRelease(releases, key, j))
  {
    EarliestFromIsFirstTruthy(releases, key, 1);
  }

  /** A key truthy in release `n` has an earliest release, and it is at most `n`. */
  lemma EarliestAtMost(releases: seq<Config>, key: string, n: nat)
    requires TruthyInRelease(releases, key, n)
    ensures Earliest(releases, key).Some? && Earliest(releases, key).value <= n
  {
    EarliestIsFirstTruthy(releases, key);
  }

  /** The earliest release is never `0` and never past the last release. */
  lemma EarliestInRange(releases: seq<Config>, key: string)
    ensures Earliest(releases, key).Some? ==> 1 <= Earliest(releases, key).value <= |releases|
  {
    EarliestIsFirstTruthy(releases, key);
  }

  /**
   With only the first `m` releases the answer is the same if it is at most
   `m` and `null` otherwise: a key first truthy in release 5 resolves to 5 for
   five or more releases and to `null` for four.
   */
  lemma EarliestOfPrefix(releases: seq<Config>, key: string, m: nat)
    requires m <= |releases|
    ensures var r := Earliest(releases, key);
      Earliest(releases[..m], key) == if r.Some? && r.value <= m then r else None
  {
    var p := releases[..m];
    EarliestIsFirstTruthy(releases, key);
    EarliestIsFirstTruthy(p, key);
    assert forall j :: TruthyInRelease(p, key, j) <==> j <= m && TruthyInRelease(releases, key, j) by {
      forall j ensures TruthyInRelease(p, key, j) <==> j <= m && TruthyInRelease(releases, key, j) {
        if 1 <= j <= m {
          assert p[j - 1] == releases[j - 1];
        }
      }
    }
  }
}
