/**
 The value-level parts of the selection logic in src/App.js: the per-feature
 `map` of `handleFeatureChange` (src/App.js:142-154), the per-feature `map`
 of `resetFeaturesToRelease` (src/App.js:126-139) and the maximum that
 `updateEarliestMigrationRelease` (src/App.js:156-174) computes over the
 enabled features.
 */
module Selection {
  import opened Options
  import opened JsObjects
  import opened JsValues
  import opened Flattening
  import opened Releases
  import opened Catalogue

  /** `g` is `f` with at most its `enabled` flag changed (`{ ...f, enabled: … }`). */
  predicate SameButEnabled(f: Feature, g: Feature) {
    f.(enabled := g.enabled) == g
  }

  /** Every feature records the resolver's answer for its key, as `loadFeatures` stores it. */
  ghost predicate Resolved(releases: seq<Config>, features: Sections) {
    forall j, f :: 0 <= j < |features| && f in features[j].1 ==> f.earliestRelease == Earliest(releases, f.key)
  }

  /** The feature list `loadFeatures` builds is resolved. */
  lemma CatalogueResolved(releases: seq<Config>, mappings: Dict<Mapping>, config: Config)
    ensures Resolved(releases, FeatureCatalogue(releases, mappings, config))
  {
    var c := FeatureCatalogue(releases, mappings, config);
    forall j, f | 0 <= j < |c| && f in c[j].1 ensures f.earliestRelease == Earliest(releases, f.key) {
      CatalogueFields(releases, mappings, config, j, f);
    }
  }

  /** The feature list `loadFeatures` builds is a proper object whose features are resolved. */
  lemma CatalogueValid(releases: seq<Config>, mappings: Dict<Mapping>, config: Config)
    ensures DistinctKeys(FeatureCatalogue(releases, mappings, config))
    ensures Resolved(releases, FeatureCatalogue(releases, mappings, config))
  {
    CatalogueSections(releases, mappings, config);
    CatalogueResolved(releases, mappings, config);
  }

  // ---------------------------------------------------------------------------
  // handleFeatureChange

  /** `features.map(f => f.key === key ? { ...f, enabled: !f.enabled } : f)` (src/App.js:144-149). */
  function ToggleKey(fs: seq<Feature>, key: string): (r: seq<Feature>)
    ensures |r| == |fs|
    ensures forall i :: 0 <= i < |fs| ==>
      SameButEnabled(fs[i], r[i]) && (r[i].enabled <==> (fs[i].enabled != (fs[i].key == key)))
  {
    seq(|fs|, i requires 0 <= i < |fs| => if fs[i].key == key then fs[i].(enabled := !fs[i].enabled) else fs[i])
  }

  /**
   In a section with distinct keys, toggling the key of feature `i` negates
   the flag of that feature and of no other, and changes nothing else.
   */
  lemma ToggleExactlyOne(fs: seq<Feature>, i: nat)
    requires UniqueKeys(fs) && i < |fs|
    ensures var r := ToggleKey(fs, fs[i].key);
      && r[i] == fs[i].(enabled := !fs[i].enabled)
      && forall j :: 0 <= j < |fs| && j != i ==> r[j] == fs[j]
  {
  }

  /** A key no feature of the section has leaves the section as it was. */
  lemma ToggleAbsent(fs: seq<Feature>, key: string)
    requires forall i :: 0 <= i < |fs| ==> fs[i].key != key
    ensures ToggleKey(fs, key) == fs
  {
  }

  /** Toggling the same key twice restores the section. */
  lemma ToggleInvolution(fs: seq<Feature>, key: string)
    ensures ToggleKey(ToggleKey(fs, key), key) == fs
  {
    var r := ToggleKey(ToggleKey(fs, key), key);
    forall i | 0 <= i < |fs| ensures r[i] == fs[i] {
      assert ToggleKey(fs, key)[i].key == fs[i].key;
    }
  }

  /**
   `updatedFeatures[parent] = updatedFeatures[parent].map(…)` on a copy of the
   feature list (src/App.js:143-149); `parent` must be a section, or the read
   of `updatedFeatures[parent].map` throws.
   */
  function ToggleIn(features: Sections, key: string, parent: string): (r: Sections)
    requires Get(features, parent).Some?
    ensures Keys(r) == Keys(features)
    ensures Get(r, parent) == Some(ToggleKey(Get(features, parent).value, key))
    ensures forall s :: s != parent ==> Get(r, s) == Get(features, s)
    ensures DistinctKeys(features) ==> DistinctKeys(r)
  {
    var r := Put(features, parent, ToggleKey(Get(features, parent).value, key));
    PutKeys(features, parent, ToggleKey(Get(features, parent).value, key));
    r
  }

  /** Toggling a feature twice restores the whole feature list. */
  lemma ToggleInInvolution(features: Sections, key: string, parent: string)
    requires DistinctKeys(features) && Get(features, parent).Some?
    ensures ToggleIn(ToggleIn(features, key, parent), key, parent) == features
  {
    var i := IndexOf(features, parent).value;
    var fs := features[i].1;
    ToggleInvolution(fs, key);
    PutExisting(features, i, ToggleKey(fs, key));
    var once := ToggleIn(features, key, parent);
    assert once == features[i := (parent, ToggleKey(fs, key))];
    assert once[i].0 == parent;
    PutExisting(once, i, ToggleKey(ToggleKey(fs, key), key));
    assert ToggleIn(once, key, parent) == once[i := (parent, fs)];
  }

  /** A toggle keeps every feature's `earliestRelease`. */
  lemma ToggleInResolved(releases: seq<Config>, features: Sections, key: string, parent: string)
    requires Get(features, parent).Some? && Resolved(releases, features)
    ensures Resolved(releases, ToggleIn(features, key, parent))
  {
    var fs := Get(features, parent).value;
    var i := IndexOf(features, parent).value;
    assert features[i].1 == fs;
    var t := ToggleKey(fs, key);
    var r := ToggleIn(features, key, parent);
    forall j, f | 0 <= j < |r| && f in r[j].1 ensures f.earliestRelease == Earliest(releases, f.key) {
      assert r[j] in r;
      if r[j] in features {
        var j' :| 0 <= j' < |features| && features[j'] == r[j];
        assert f in features[j'].1;
      } else {
        assert r[j] == (parent, t);
        var m :| 0 <= m < |t| && t[m] == f;
        assert SameButEnabled(fs[m], f);
        assert fs[m] in features[i].1;
      }
    }
  }

  // ---------------------------------------------------------------------------
  // resetFeaturesToRelease

  /** `features.map(f => ({ ...f, enabled: !!releaseData[f.key] }))` (src/App.js:130-133). */
  function ResetFeatures(fs: seq<Feature>, releaseData: Dict<Value>): (r: seq<Feature>)
    ensures |r| == |fs|
    ensures forall i :: 0 <= i < |fs| ==>
      SameButEnabled(fs[i], r[i]) && r[i].enabled == TruthyRead(Get(releaseData, fs[i].key))
  {
    seq(|fs|, i requires 0 <= i < |fs| => fs[i].(enabled := TruthyRead(Get(releaseData, fs[i].key))))
  }

  /** The feature list `resetFeaturesToRelease` stores: every section reset, in the same order. */
  function ResetAll(features: Sections, releaseData: Dict<Value>): (r: Sections)
    ensures Keys(r) == Keys(features)
    ensures DistinctKeys(features) ==> DistinctKeys(r)
  {
    seq(|features|, j requires 0 <= j < |features| => (features[j].0, ResetFeatures(features[j].1, releaseData)))
  }

  /** The loop of `resetFeaturesToRelease` (src/App.js:128-134): each section is reassigned in turn. */
  method ResetSections(features: Sections, releaseData: Dict<Value>) returns (updatedFeatures: Sections)
    requires DistinctKeys(features)
    ensures updatedFeatures == ResetAll(features, releaseData)
  {
    updatedFeatures := features;
    var parents := Keys(features);
    for j := 0 to |parents|
      invariant |updatedFeatures| == |features|
      invariant forall i :: 0 <= i < j ==> updatedFeatures[i] == (features[i].0, ResetFeatures(features[i].1, releaseData))
      invariant forall i :: j <= i < |features| ==> updatedFeatures[i] == features[i]
    {
      var parent := parents[j];
      assert DistinctKeys(updatedFeatures) by {
        forall a, b | 0 <= a < b < |updatedFeatures| ensures updatedFeatures[a].0 != updatedFeatures[b].0 {
          assert updatedFeatures[a].0 == features[a].0 && updatedFeatures[b].0 == features[b].0;
        }
      }
      GetAt(updatedFeatures, j);
      var reset := ResetFeatures(Get(updatedFeatures, parent).value, releaseData);
      PutExisting(updatedFeatures, j, reset);
      updatedFeatures := Put(updatedFeatures, parent, reset);
    }
  }

  /**
   After a reset every feature is flagged by the truthiness of its key in
   the given release data; its other fields, the section names and
   order, and each section's length are kept.
   */
  lemma ResetAllFields(features: Sections, releaseData: Dict<Value>, j: nat, i: nat)
    requires j < |features| && i < |features[j].1|
    ensures var r := ResetAll(features, releaseData);
      && |r| == |features| && |r[j].1| == |features[j].1|
      && r[j].0 == features[j].0
      && SameButEnabled(features[j].1[i], r[j].1[i])
      && r[j].1[i].enabled == TruthyRead(Get(releaseData, features[j].1[i].key))
  {
  }

  /** Resetting twice to the same release is resetting once. */
  lemma ResetAllIdempotent(features: Sections, releaseData: Dict<Value>)
    ensures ResetAll(ResetAll(features, releaseData), releaseData) == ResetAll(features, releaseData)
  {
    var once := ResetAll(features, releaseData);
    var twice := ResetAll(once, releaseData);
    forall j | 0 <= j < |features| ensures twice[j] == once[j] {
      assert ResetFeatures(once[j].1, releaseData) == once[j].1;
    }
  }

  /** A reset discards an earlier toggle: the flags depend only on the release. */
  lemma ResetAfterToggle(features: Sections, key: string, parent: string, releaseData: Dict<Value>)
    requires DistinctKeys(features) && Get(features, parent).Some?
    ensures ResetAll(ToggleIn(features, key, parent), releaseData) == ResetAll(features, releaseData)
  {
    var i := IndexOf(features, parent).value;
    var fs := features[i].1;
    PutExisting(features, i, ToggleKey(fs, key));
    var t := ToggleIn(features, key, parent);
    assert t == features[i := (parent, ToggleKey(fs, key))];
    assert ResetFeatures(ToggleKey(fs, key), releaseData) == ResetFeatures(fs, releaseData);
    var a := ResetAll(t, releaseData);
    var b := ResetAll(features, releaseData);
    forall j | 0 <= j < |features| ensures a[j] == b[j] {
    }
  }

  /** A reset keeps every feature's `earliestRelease`. */
  lemma ResetAllResolved(releases: seq<Config>, features: Sections, releaseData: Dict<Value>)
    requires Resolved(releases, features)
    ensures Resolved(releases, ResetAll(features, releaseData))
  {
    var r := ResetAll(features, releaseData);
    forall j, f | 0 <= j < |r| && f in r[j].1 ensures f.earliestRelease == Earliest(releases, f.key) {
      var m :| 0 <= m < |r[j].1| && r[j].1[m] == f;
      assert SameButEnabled(features[j].1[m], f);
      assert features[j].1[m] in features[j].1;
    }
  }

  // ---------------------------------------------------------------------------
  // updateEarliestMigrationRelease

  /** `Object.values(features).flat()`: the sections' features, section after section. */
  function AllFeatures(features: Sections): (r: seq<Feature>)
    ensures forall f :: f in r <==> exists j :: 0 <= j < |features| && f in features[j].1
  {
    if |features| == 0 then []
    else
      var front := features[..|features| - 1];
      var r := AllFeatures(front) + features[|features| - 1].1;
      assert forall f :: f in r <==> exists j :: 0 <= j < |features| && f in features[j].1 by {
        forall f ensures f in r <==> exists j :: 0 <= j < |features| && f in features[j].1 {
          if exists j :: 0 <= j < |features| && f in features[j].1 {
            var j :| 0 <= j < |features| && f in features[j].1;
            if j < |features| - 1 {
              assert front[j] == features[j];
            }
          }
          if f in AllFeatures(front) {
            var j :| 0 <= j < |front| && f in front[j].1;
            assert features[j] == front[j];
          }
        }
      }
      r
  }

  /** `feature.earliestRelease > maxRelease`; `null` compares as `0`. */
  predicate Raises(e: Option<nat>, m: nat) {
    match e
    case None => 0 > m
    case Some(v) => v > m
  }

  /** One turn of the `forEach` (src/App.js:160-166). */
  function Step(m: nat, f: Feature): nat {
    if f.enabled && Raises(f.earliestRelease, m) then f.earliestRelease.value else m
  }

  /** `maxRelease` after visiting the features `fs` in order, starting from `m`. */
  function Fold(m: nat, fs: seq<Feature>): nat {
    if |fs| == 0 then m else Step(Fold(m, fs[..|fs| - 1]), fs[|fs| - 1])
  }

  /** The value `maxRelease` ends with: the fold started at the floor `1`. */
  function MaxRelease(fs: seq<Feature>): nat {
    Fold(1, fs)
  }

  /** The loop of `updateEarliestMigrationRelease` (src/App.js:157-167). */
  method ComputeMaxRelease(features: Sections) returns (maxRelease: nat)
    ensures maxRelease == MaxRelease(AllFeatures(features))
  {
    maxRelease := 1;
    var all := AllFeatures(features);
    for i := 0 to |all|
      invariant maxRelease == Fold(1, all[..i])
    {
      var feature := all[i];
      if feature.enabled {
        if Raises(feature.earliestRelease, maxRelease) {
          maxRelease := feature.earliestRelease.value;
        }
      }
      assert all[..i + 1][..i] == all[..i];
    }
    assert all[..|all|] == all;
  }

  /** The feature is enabled and has an earliest release. */
  predicate Counts(f: Feature) {
    f.enabled && f.earliestRelease.Some?
  }

  /** The fold never goes below its start and is at least every counted feature's release. */
  lemma {:induction false} FoldUpperBound(m: nat, fs: seq<Feature>)
    ensures Fold(m, fs) >= m
    ensures forall f :: f in fs && Counts(f) ==> f.earliestRelease.value <= Fold(m, fs)
  {
    if |fs| > 0 {
      var front := fs[..|fs| - 1];
      FoldUpperBound(m, front);
      assert fs == front + [fs[|fs| - 1]];
    }
  }

  /** The fold ends at its start or at the release of one counted feature. */
  lemma {:induction false} FoldAttained(m: nat, fs: seq<Feature>)
    ensures Fold(m, fs) == m || exists f :: f in fs && Counts(f) && f.earliestRelease.value == Fold(m, fs)
  {
    if |fs| > 0 {
      var front := fs[..|fs| - 1];
      var last := fs[|fs| - 1];
      FoldAttained(m, front);
      if Fold(m, fs) != Fold(m, front) {
        assert last in fs && Counts(last);
      } else if Fold(m, front) != m {
        var f :| f in front && Counts(f) && f.earliestRelease.value == Fold(m, front);
        assert f in fs;
      }
    }
  }

  /**
   The projected release is at least 1, at least the `earliestRelease` of
   every enabled feature that has one, and equal either to 1 or to one of
   those releases: the maximum of them with a floor of 1.
   */
  lemma MaxReleaseIsMaximum(fs: seq<Feature>)
    ensures MaxRelease(fs) >= 1
    ensures forall f :: f in fs && Counts(f) ==> f.earliestRelease.value <= MaxRelease(fs)
    ensures MaxRelease(fs) == 1 || exists f :: f in fs && Counts(f) && f.earliestRelease.value == MaxRelease(fs)
  {
    FoldUpperBound(1, fs);
    FoldAttained(1, fs);
  }

  /** Folding over a concatenation folds the second part from the result of the first. */
  lemma {:induction false} FoldAppend(m: nat, a: seq<Feature>, b: seq<Feature>)
    ensures Fold(m, a + b) == Fold(Fold(m, a), b)
    decreases |b|
  {
    if |b| > 0 {
      var front := b[..|b| - 1];
      assert (a + b)[..|a + b| - 1] == a + front;
      assert (a + b)[|a + b| - 1] == b[|b| - 1];
      FoldAppend(m, a, front);
    } else {
      assert a + b == a;
    }
  }

  /**
   A disabled feature, or one whose `earliestRelease` is `null`, never
   raises the projected release, wherever it stands in the list.
   */
  lemma MaxReleaseIgnores(a: seq<Feature>, f: Feature, b: seq<Feature>)
    requires !Counts(f)
    ensures MaxRelease(a + [f] + b) == MaxRelease(a + b)
  {
    FoldAppend(1, a + [f], b);
    FoldAppend(1, a, [f]);
    FoldAppend(1, a, b);
    assert Fold(Fold(1, a), [f]) == Step(Fold(1, a), f);
    FoldUpperBound(1, a);
  }

  /** With resolved features the projected release is one of the releases. */
  lemma MaxReleaseInRange(releases: seq<Config>, features: Sections)
    requires Resolved(releases, features) && |releases| >= 1
    ensures 1 <= MaxRelease(AllFeatures(features)) <= |releases|
  {
    var all := AllFeatures(features);
    MaxReleaseIsMaximum(all);
    if MaxRelease(all) != 1 {
      var f :| f in all && Counts(f) && f.earliestRelease.value == MaxRelease(all);
      var j :| 0 <= j < |features| && f in features[j].1;
      EarliestInRange(releases, f.key);
    }
  }

  /** The maximum is the bound `b` when every counted feature is within `b` and one of them reaches it. */
  lemma MaxReleaseIs(fs: seq<Feature>, g: Feature)
    requires g in fs && Counts(g) && g.earliestRelease.value >= 1
    requires forall f :: f in fs && Counts(f) ==> f.earliestRelease.value <= g.earliestRelease.value
    ensures MaxRelease(fs) == g.earliestRelease.value
  {
    MaxReleaseIsMaximum(fs);
  }

  /** The maximum is at most `b` when every counted feature is within `b`. */
  lemma MaxReleaseAtMost(fs: seq<Feature>, b: nat)
    requires b >= 1 && forall f :: f in fs && Counts(f) ==> f.earliestRelease.value <= b
    ensures MaxRelease(fs) <= b
  {
    MaxReleaseIsMaximum(fs);
  }

  /** The features of release `k`'s catalogue need no release later than `k`. */
  lemma CatalogueMaxRelease(releases: seq<Config>, mappings: Dict<Mapping>, k: nat)
    requires 1 <= k <= |releases|
    ensures MaxRelease(AllFeatures(FeatureCatalogue(releases, mappings, releases[k - 1]))) <= k
  {
    var c := FeatureCatalogue(releases, mappings, releases[k - 1]);
    forall f | f in AllFeatures(c) && Counts(f) ensures f.earliestRelease.value <= k {
      var j :| 0 <= j < |c| && f in c[j].1;
      CatalogueFields(releases, mappings, releases[k - 1], j, f);
      assert TruthyInRelease(releases, f.key, k);
      EarliestAtMost(releases, f.key, k);
    }
    MaxReleaseAtMost(AllFeatures(c), k);
  }

  /** A feature of a section is among all the features. */
  lemma SectionInAll(features: Sections, s: string, f: Feature)
    requires Get(features, s).Some? && f in Get(features, s).value
    ensures f in AllFeatures(features)
  {
    var i := IndexOf(features, s).value;
    assert f in features[i].1;
  }

  /** After a toggle, a feature was already in the list, or it carries the toggled key. */
  lemma ToggledFeature(features: Sections, key: string, parent: string, g: Feature)
    requires Get(features, parent).Some? && g in AllFeatures(ToggleIn(features, key, parent))
    ensures g in AllFeatures(features) || g.key == key
  {
    var i := IndexOf(features, parent).value;
    var fs := features[i].1;
    var t := ToggleKey(fs, key);
    assert ToggleIn(features, key, parent) == features[i := (parent, t)];
    ReplacedSection(features, i, parent, t, g);
    if g in t {
      var m :| 0 <= m < |t| && t[m] == g;
      if fs[m].key != key {
        assert g == fs[m] && g in features[i].1;
      }
    }
  }

  /** Replacing one section leaves only features that were there before or are in the new section. */
  lemma ReplacedSection(features: Sections, i: nat, s: string, t: seq<Feature>, g: Feature)
    requires i < |features| && g in AllFeatures(features[i := (s, t)])
    ensures g in AllFeatures(features) || g in t
  {
    var r := features[i := (s, t)];
    var j :| 0 <= j < |r| && g in r[j].1;
    if j != i {
      assert g in features[j].1;
    }
  }

  /**
   Toggling off an enabled feature never raises the projected release: the
   features the toggle enables share that feature's key, and so its
   resolved `earliestRelease`.
   */
  lemma ToggleOffKeeps(releases: seq<Config>, features: Sections, key: string, parent: string, f: Feature)
    requires Get(features, parent).Some? && Resolved(releases, features)
    requires f in Get(features, parent).value && f.key == key && f.enabled
    ensures MaxRelease(AllFeatures(ToggleIn(features, key, parent))) <= MaxRelease(AllFeatures(features))
  {
    var before := AllFeatures(features);
    var after := AllFeatures(ToggleIn(features, key, parent));
    MaxReleaseIsMaximum(before);
    ToggleInResolved(releases, features, key, parent);
    SectionInAll(features, parent, f);
    var i := IndexOf(features, parent).value;
    assert f in features[i].1;
    forall g | g in after && Counts(g) ensures g.earliestRelease.value <= MaxRelease(before) {
      ToggledFeature(features, key, parent, g);
      if g !in before {
        var j :| 0 <= j < |ToggleIn(features, key, parent)| && g in ToggleIn(features, key, parent)[j].1;
        assert g.earliestRelease == f.earliestRelease;
      }
    }
    MaxReleaseAtMost(after, MaxRelease(before));
  }

  /**
   Toggling on a disabled feature whose `earliestRelease` is past the
   projected release makes that release the new projected release.
   */
  lemma ToggleOnReaches(releases: seq<Config>, features: Sections, key: string, parent: string, f: Feature)
    requires Get(features, parent).Some? && Resolved(releases, features)
    requires f in Get(features, parent).value && f.key == key && !f.enabled
    requires f.earliestRelease.Some? && f.earliestRelease.value > MaxRelease(AllFeatures(features))
    ensures MaxRelease(AllFeatures(ToggleIn(features, key, parent))) == f.earliestRelease.value
  {
    var before := AllFeatures(features);
    var r := ToggleIn(features, key, parent);
    var after := AllFeatures(r);
    var fs := Get(features, parent).value;
    MaxReleaseIsMaximum(before);
    ToggleInResolved(releases, features, key, parent);
    var i := IndexOf(features, parent).value;
    assert f in features[i].1;
    var m :| 0 <= m < |fs| && fs[m] == f;
    var on := ToggleKey(fs, key)[m];
    assert on == f.(enabled := true);
    SectionInAll(r, parent, on);
    forall g | g in after && Counts(g) ensures g.earliestRelease.value <= on.earliestRelease.value {
      ToggledFeature(features, key, parent, g);
      if g !in before {
        var j :| 0 <= j < |r| && g in r[j].1;
        assert g.earliestRelease == f.earliestRelease;
      }
    }
    MaxReleaseIs(after, on);
  }

  /**
   After resetting resolved features to release `k`, the projected release
   is at most `k`: every feature enabled by the reset is truthy in release
   `k`, so its earliest release is no later.
   */
  lemma MaxReleaseAfterReset(releases: seq<Config>, features: Sections, k: nat)
    requires Resolved(releases, features) && 1 <= k <= |releases|
    ensures MaxRelease(AllFeatures(ResetAll(features, Flatten(releases[k - 1])))) <= k
  {
    var reset := ResetAll(features, Flatten(releases[k - 1]));
    var all := AllFeatures(reset);
    ResetAllResolved(releases, features, Flatten(releases[k - 1]));
    MaxReleaseIsMaximum(all);
    if MaxRelease(all) != 1 {
      var f :| f in all && Counts(f) && f.earliestRelease.value == MaxRelease(all);
      var j :| 0 <= j < |reset| && f in reset[j].1;
      var m :| 0 <= m < |reset[j].1| && reset[j].1[m] == f;
      ResetAllFields(features, Flatten(releases[k - 1]), j, m);
      assert TruthyInRelease(releases, f.key, k);
      EarliestAtMost(releases, f.key, k);
    }
  }

  /** A feature `f` of the list is new in release `k` and truthy there. */
  ghost predicate NewIn(releases: seq<Config>, features: Sections, k: nat, f: Feature)
    requires 1 <= k <= |releases|
  {
    f in AllFeatures(features) && TruthyIn(releases[k - 1], f.key) && Earliest(releases, f.key) == Some(k)
  }

  /**
   After resetting resolved features to release `k`, the projected release
   is exactly `k` when `k` is 1 or some listed feature is new in release `k`
   and truthy there, and it is below `k` otherwise.
   */
  lemma MaxReleaseAfterResetIs(releases: seq<Config>, features: Sections, k: nat)
    requires Resolved(releases, features) && 1 <= k <= |releases|
    ensures MaxRelease(AllFeatures(ResetAll(features, Flatten(releases[k - 1])))) == k <==>
      k == 1 || exists f :: NewIn(releases, features, k, f)
  {
    if exists f :: NewIn(releases, features, k, f) {
      var f :| NewIn(releases, features, k, f);
      ResetReachesNew(releases, features, k, f);
    } else if k == 1 {
      MaxReleaseAfterReset(releases, features, k);
      MaxReleaseIsMaximum(AllFeatures(ResetAll(features, Flatten(releases[k - 1]))));
    }
    ResetReachesOnlyNew(releases, features, k);
  }

  /** A feature new and truthy in release `k` lifts the reset maximum to `k`. */
  lemma ResetReachesNew(releases: seq<Config>, features: Sections, k: nat, f: Feature)
    requires Resolved(releases, features) && 1 <= k <= |releases|
    requires NewIn(releases, features, k, f)
    ensures MaxRelease(AllFeatures(ResetAll(features, Flatten(releases[k - 1])))) == k
  {
    var releaseData := Flatten(releases[k - 1]);
    var reset := ResetAll(features, releaseData);
    var all := AllFeatures(reset);
    MaxReleaseAfterReset(releases, features, k);
    var j :| 0 <= j < |features| && f in features[j].1;
    var m :| 0 <= m < |features[j].1| && features[j].1[m] == f;
    ResetAllFields(features, releaseData, j, m);
    var g := reset[j].1[m];
    assert g in reset[j].1;
    assert f.earliestRelease == Some(k);
    assert g in all && Counts(g) && g.earliestRelease.value == k;
    MaxReleaseIsMaximum(all);
  }

  /** A reset maximum of `k` above 1 comes from a feature new and truthy in release `k`. */
  lemma ResetReachesOnlyNew(releases: seq<Config>, features: Sections, k: nat)
    requires Resolved(releases, features) && 1 <= k <= |releases|
    ensures MaxRelease(AllFeatures(ResetAll(features, Flatten(releases[k - 1])))) == k ==>
      k == 1 || exists f :: NewIn(releases, features, k, f)
  {
    var releaseData := Flatten(releases[k - 1]);
    var reset := ResetAll(features, releaseData);
    var all := AllFeatures(reset);
    if MaxRelease(all) == k && k != 1 {
      MaxReleaseIsMaximum(all);
      var g :| g in all && Counts(g) && g.earliestRelease.value == k;
      var j :| 0 <= j < |reset| && g in reset[j].1;
      var m :| 0 <= m < |reset[j].1| && reset[j].1[m] == g;
      ResetAllFields(features, releaseData, j, m);
      var f := features[j].1[m];
      assert f in features[j].1;
      assert f.key == g.key && f.earliestRelease == g.earliestRelease;
      assert f.earliestRelease == Earliest(releases, f.key);
      assert f in AllFeatures(features);
      assert TruthyIn(releases[k - 1], f.key);
      assert NewIn(releases, features, k, f);
    }
  }
}
