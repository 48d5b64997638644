/**
 The state of the `App` component (src/App.js:101-106) that the feature
 logic reads and writes, and the handlers that change it. React's state
 setters are modelled as field assignments performed in the order the
 handler calls them.
 */
module AppState {
  import opened Options
  import opened JsObjects
  import opened Flattening
  import opened Releases
  import opened Catalogue
  import opened Selection

  class App {
    /** The releases object (src/App.js:60-69): release `i`'s config tree at index `i - 1`. */
    const releases: seq<Config>
    /** The feature mapping table `featureMapping.json` (src/App.js:58). */
    const featureMappings: Dict<Mapping>

    var selectedRelease: string
    var featureList: Sections
    var earliestMigrationRelease: int

    /** The selected release is the one the projected release names. */
    ghost predicate Synced()
      reads this
    {
      0 <= earliestMigrationRelease && selectedRelease == ReleaseKey(earliestMigrationRelease)
    }

    /** The feature list is a proper object whose features carry the resolver's answers. */
    ghost predicate FeaturesValid()
      reads this
    {
      DistinctKeys(featureList) && Resolved(releases, featureList)
    }

    /**
     Release 4 exists (the component starts on it), the projected release is
     one of the releases and is the selected one, and the feature list is valid.
     */
    ghost predicate Consistent()
      reads this
    {
      && 4 <= |releases|
      && 1 <= earliestMigrationRelease <= |releases|
      && Synced()
      && FeaturesValid()
    }

    /** The enabled features need no release later than the projected one. */
    ghost predicate Covered()
      reads this
    {
      MaxRelease(AllFeatures(featureList)) <= earliestMigrationRelease
    }

    /** The invariant of every state the component reaches. */
    ghost predicate Valid()
      reads this
    {
      Consistent() && Covered()
    }

    /** The initial state (src/App.js:102-106): `"release4"`, an empty feature list, release 4. */
    constructor(releases: seq<Config>, featureMappings: Dict<Mapping>)
      requires 4 <= |releases|
      ensures this.releases == releases && this.featureMappings == featureMappings
      ensures selectedRelease == "release4" && featureList == [] && earliestMigrationRelease == 4
      ensures Valid()
    {
      this.releases := releases;
      this.featureMappings := featureMappings;
      selectedRelease := "release4";
      featureList := [];
      earliestMigrationRelease := 4;
      assert ReleaseKey(4) == "release4";
    }

    /**
     `loadFeatures(releaseKey)` (src/App.js:176-222); `releases[releaseKey].config`
     must exist. The loaded features need no release past the loaded one, so
     the state is valid when that release is not past the projected one.
     */
    method LoadFeatures(releaseKey: string)
      requires Consistent() && LookupRelease(releases, releaseKey).Some?
      modifies this
      ensures featureList ==
        FeatureCatalogue(releases, featureMappings, releases[LookupRelease(releases, releaseKey).value - 1])
      ensures selectedRelease == old(selectedRelease)
      ensures earliestMigrationRelease == old(earliestMigrationRelease)
      ensures Consistent()
      ensures MaxRelease(AllFeatures(featureList)) <= LookupRelease(releases, releaseKey).value
      ensures LookupRelease(releases, releaseKey).value <= earliestMigrationRelease ==> Valid()
    {
      var i := LookupRelease(releases, releaseKey).value;
      var config := releases[i - 1];
      var features := LoadFeatureList(releases, featureMappings, config);
      assert DistinctKeys(features) && Resolved(releases, features) && MaxRelease(AllFeatures(features)) <= i by {
        CatalogueValid(releases, featureMappings, config);
        CatalogueMaxRelease(releases, featureMappings, i);
      }
      featureList := features;
    }

    /**
     The mount effect (src/App.js:109-111): load the features of release 4.
     It runs once, on the initial state, whose projected release is 4.
     */
    method Mount()
      requires Consistent()
      modifies this
      ensures featureList == FeatureCatalogue(releases, featureMappings, releases[3])
      ensures selectedRelease == old(selectedRelease)
      ensures earliestMigrationRelease == old(earliestMigrationRelease)
      ensures Consistent()
      ensures 4 <= earliestMigrationRelease ==> Valid()
    {
      assert ReleaseKey(4) == "release4";
      LookupReleaseIff(releases, "release4", 4);
      LoadFeatures("release4");
    }

    /**
     `resetFeaturesToRelease(releaseKey)` (src/App.js:126-139): every
     feature's `enabled` becomes its truthiness in the release, and the
     projected release becomes the ordinal parsed from the key. The
     selected release is left to the caller.
     */
    method ResetFeaturesToRelease(releaseKey: string)
      requires FeaturesValid() && LookupRelease(releases, releaseKey).Some?
      modifies this
      ensures var k := LookupRelease(releases, releaseKey).value;
        && featureList == ResetAll(old(featureList), Flatten(releases[k - 1]))
        && earliestMigrationRelease == k
      ensures selectedRelease == old(selectedRelease)
      ensures FeaturesValid() && Covered()
    {
      var k := LookupRelease(releases, releaseKey).value;
      MaxReleaseAfterReset(releases, featureList, k);
      var releaseData := FlattenObject(releases[k - 1]);
      var updatedFeatures := ResetSections(featureList, releaseData);
      assert DistinctKeys(updatedFeatures) && Resolved(releases, updatedFeatures) by {
        ResetAllResolved(releases, featureList, releaseData);
      }
      var ordinal := ReleaseOrdinal(releaseKey);
      assert ordinal == Some(k) by {
        LookupReleaseIff(releases, releaseKey, k);
        ReleaseOrdinalOfKey(k);
      }
      featureList := updatedFeatures;
      earliestMigrationRelease := ordinal.value;
    }

    /**
     `handleReleaseChange(releaseKey)` (src/App.js:121-124): select the
     release, then reset every selection to it. Afterwards the enabled
     features need no release later than the selected one.
     */
    method HandleReleaseChange(releaseKey: string)
      requires Consistent() && LookupRelease(releases, releaseKey).Some?
      modifies this
      ensures var k := LookupRelease(releases, releaseKey).value;
        && selectedRelease == releaseKey
        && featureList == ResetAll(old(featureList), Flatten(releases[k - 1]))
        && earliestMigrationRelease == k
      ensures MaxRelease(AllFeatures(featureList)) <= earliestMigrationRelease
      ensures Valid()
    {
      var k := LookupRelease(releases, releaseKey).value;
      selectedRelease := releaseKey;
      ResetFeaturesToRelease(releaseKey);
      LookupReleaseIff(releases, releaseKey, k);
    }

    /**
     `updateEarliestMigrationRelease(features)` (src/App.js:156-174): the
     selected and projected releases are set to the maximum only when its
     key differs from the selected one. From a synced state the projected
     release ends as the maximum either way.
     */
    method UpdateEarliestMigrationRelease(features: Sections)
      modifies this
      ensures var m := MaxRelease(AllFeatures(features));
        if ReleaseKey(m) != old(selectedRelease)
        then selectedRelease == ReleaseKey(m) && earliestMigrationRelease == m
        else selectedRelease == old(selectedRelease) && earliestMigrationRelease == old(earliestMigrationRelease)
      ensures featureList == old(featureList)
      ensures old(Synced()) ==> Synced() && earliestMigrationRelease == MaxRelease(AllFeatures(features))
    {
      var maxRelease := ComputeMaxRelease(features);
      if ReleaseKey(maxRelease) != selectedRelease {
        selectedRelease := ReleaseKey(maxRelease);
        earliestMigrationRelease := maxRelease;
      } else if 0 <= earliestMigrationRelease {
        ReleaseKeyInjective(maxRelease, earliestMigrationRelease);
      }
    }

    /**
     `handleFeatureChange(key, parent)` (src/App.js:142-154): toggle one
     feature of section `parent`, store the list, and recompute the
     projected release from it; `parent` must be a section. Turning on a
     feature that needs a release past the projected one moves the
     projection to exactly that release; turning one off never raises it.
     */
    method HandleFeatureChange(key: string, parent: string)
      requires Valid() && Get(featureList, parent).Some?
      modifies this
      ensures featureList == ToggleIn(old(featureList), key, parent)
      ensures earliestMigrationRelease == MaxRelease(AllFeatures(featureList))
      ensures selectedRelease == ReleaseKey(earliestMigrationRelease)
      ensures Valid()
      ensures forall f ::
        (f in Get(old(featureList), parent).value && f.key == key && !f.enabled &&
         f.earliestRelease.Some? && f.earliestRelease.value > old(earliestMigrationRelease))
        ==> earliestMigrationRelease == f.earliestRelease.value
      ensures (exists f :: f in Get(old(featureList), parent).value && f.key == key && f.enabled)
        ==> earliestMigrationRelease <= old(earliestMigrationRelease)
    {
      var updatedFeatures := ToggleIn(featureList, key, parent);
      forall f | f in Get(featureList, parent).value && f.key == key && !f.enabled &&
        f.earliestRelease.Some? && f.earliestRelease.value > earliestMigrationRelease
        ensures MaxRelease(AllFeatures(updatedFeatures)) == f.earliestRelease.value
      {
        ToggleOnReaches(releases, featureList, key, parent, f);
      }
      if f :| f in Get(featureList, parent).value && f.key == key && f.enabled {
        ToggleOffKeeps(releases, featureList, key, parent, f);
      }
      ToggleInResolved(releases, featureList, key, parent);
      MaxReleaseInRange(releases, updatedFeatures);
      featureList := updatedFeatures;
      UpdateEarliestMigrationRelease(updatedFeatures);
    }
  }
}
