/**
 `loadFeatures` (src/App.js:176-222): every key of a release's flattened
 config becomes a feature record, pushed into the section named by the
 key's first dotted segment when that is one of six known sections, and
 into the catch-all section `other` otherwise.
 */
module Catalogue {
  import opened Options
  import opened JsObjects
  import opened JsValues
  import opened JsStrings
  import opened Flattening
  import opened Releases

  /** An entry of the feature mapping table: display name and description. */
  datatype Mapping = Mapping(name: string, description: string)

  /** A feature record as pushed into `featureList`. */
  datatype Feature = Feature(
    key: string,
    name: string,
    description: string,
    enabled: bool,
    available: bool,
    earliestRelease: Option<nat>)

  /** `featureList`: section name ↦ features, in insertion order. */
  type Sections = Dict<seq<Feature>>

  const KnownSections: seq<string> :=
    ["appearance", "booking", "event", "expire_after", "features", "reminders"]
  const Other: string := "other"
  const NoDescription: string := "No description available."

  /** The bucket a key goes to. */
  function SectionOf(key: string): string {
    var parent := FirstSegment(key);
    if parent in KnownSections then parent else Other
  }

  /** The record `loadFeatures` builds for `key` (src/App.js:195-204 and 208-217, which are identical). */
  ghost function Describe(releases: seq<Config>, mappings: Dict<Mapping>, releaseData: Dict<Value>, key: string): Feature {
    var truthy := TruthyRead(Get(releaseData, key));
    Feature(
      key,
      match Get(mappings, key) case Some(m) => m.name case None => key,
      match Get(mappings, key) case Some(m) => m.description case None => NoDescription,
      truthy,
      truthy,
      Earliest(releases, key))
  }

  /** A section for each known name, all empty (the `sections.reduce`). */
  function EmptySections(): (r: Sections)
    ensures forall s :: s in KnownSections ==> Get(r, s).Some?
  {
    var r := seq(|KnownSections|, j requires 0 <= j < |KnownSections| => (KnownSections[j], []));
    assert forall s :: s in KnownSections ==> Get(r, s).Some? by {
      forall s | s in KnownSections ensures Get(r, s).Some? {
        var j :| 0 <= j < |KnownSections| && KnownSections[j] == s;
        assert r[j].0 == s;
        GetSomeIff(r, s);
      }
    }
    r
  }

  /** All six known sections are present. */
  ghost predicate HasKnownSections(features: Sections) {
    forall s :: s in KnownSections ==> Get(features, s).Some?
  }

  /** One turn of the `forEach`: push `f` into its section, creating `other` the first time it is needed. */
  ghost function AddFeature(features: Sections, f: Feature): (r: Sections)
    requires HasKnownSections(features)
    ensures HasKnownSections(r)
  {
    var parent := FirstSegment(f.key);
    if parent in KnownSections then
      Put(features, parent, Get(features, parent).value + [f])
    else
      var withOther := if Get(features, Other).None? then Put(features, Other, []) else features;
      Put(withOther, Other, Get(withOther, Other).value + [f])
  }

  /** The records `loadFeatures` builds for the first `n` flattened keys, in key order. */
  ghost function Records(releases: seq<Config>, mappings: Dict<Mapping>, releaseData: Dict<Value>, n: nat): (r: seq<Feature>)
    requires n <= |releaseData|
  {
    seq(n, t requires 0 <= t < n => Describe(releases, mappings, releaseData, releaseData[t].0))
  }

  /** The feature list after pushing the records `recs` one by one into the empty sections. */
  ghost function AddAll(recs: seq<Feature>): (r: Sections)
    ensures HasKnownSections(r)
  {
    if |recs| == 0 then EmptySections()
    else AddFeature(AddAll(recs[..|recs| - 1]), recs[|recs| - 1])
  }

  /** The feature list `loadFeatures` stores for a release whose config tree is `config`. */
  ghost function FeatureCatalogue(releases: seq<Config>, mappings: Dict<Mapping>, config: Config): Sections {
    var releaseData := Flatten(config);
    AddAll(Records(releases, mappings, releaseData, |releaseData|))
  }

  /** The computation of `loadFeatures`, up to the `setFeatureList` call. */
  method LoadFeatureList(releases: seq<Config>, mappings: Dict<Mapping>, config: Config) returns (features: Sections)
    ensures features == FeatureCatalogue(releases, mappings, config)
  {
    var releaseData := FlattenObject(config);
    features := EmptySections();
    for n := 0 to |releaseData|
      invariant features == AddAll(Records(releases, mappings, releaseData, n))
    {
      var key := releaseData[n].0;
      var parent := FirstSegment(key);
      var truthy := TruthyRead(Get(releaseData, key));
      var earliest := FindEarliestRelease(releases, key);
      var name := match Get(mappings, key) case Some(m) => m.name case None => key;
      var description := match Get(mappings, key) case Some(m) => m.description case None => NoDescription;
      var feature := Feature(key, name, description, truthy, truthy, earliest);
      ghost var recs := Records(releases, mappings, releaseData, n + 1);
      assert recs[..n] == Records(releases, mappings, releaseData, n);
      assert recs[n] == feature;
      if parent in KnownSections {
        features := Put(features, parent, Get(features, parent).value + [feature]);
      } else {
        if Get(features, Other).None? {
          features := Put(features, Other, []);
        }
        features := Put(features, Other, Get(features, Other).value + [feature]);
      }
    }
  }

  // ---------------------------------------------------------------------------
  // A reference definition: each section is the filter of the records by section

  /** No two records share a key. */
  ghost predicate UniqueKeys(fs: seq<Feature>) {
    forall i, j :: 0 <= i < j < |fs| ==> fs[i].key != fs[j].key
  }

  /** The records whose section is `s`, in order. */
  function Bucket(recs: seq<Feature>, s: string): seq<Feature> {
    if |recs| == 0 then []
    else
      var last := recs[|recs| - 1];
      Bucket(recs[..|recs| - 1], s) + if SectionOf(last.key) == s then [last] else []
  }

  /** Some record goes to `other`. */
  ghost predicate HasOther(recs: seq<Feature>) {
    Bucket(recs, Other) != []
  }

  /** `HasOther` holds exactly when some record's section is `other`. */
  lemma HasOtherIff(recs: seq<Feature>)
    ensures HasOther(recs) <==> exists t :: 0 <= t < |recs| && SectionOf(recs[t].key) == Other
  {
    if HasOther(recs) {
      var f := Bucket(recs, Other)[0];
      BucketMembers(recs, Other, f);
      var t :| 0 <= t < |recs| && recs[t] == f;
    }
    if exists t :: 0 <= t < |recs| && SectionOf(recs[t].key) == Other {
      var t :| 0 <= t < |recs| && SectionOf(recs[t].key) == Other;
      BucketMembers(recs, Other, recs[t]);
    }
  }

  /** The six known sections, in order, each with its bucket. */
  ghost function KnownLayout(recs: seq<Feature>): (r: Sections)
    ensures |r| == |KnownSections|
  {
    seq(|KnownSections|, j requires 0 <= j < |KnownSections| => (KnownSections[j], Bucket(recs, KnownSections[j])))
  }

  /** The layout the reference definition predicts: the known sections, then `other` when some record goes there. */
  ghost function Layout(recs: seq<Feature>): Sections {
    KnownLayout(recs) + if HasOther(recs) then [(Other, Bucket(recs, Other))] else []
  }

  /** The six known section names are distinct, and `other` is not one of them. */
  lemma KnownSectionsDistinct()
    ensures forall i, j :: 0 <= i < j < |KnownSections| ==> KnownSections[i] != KnownSections[j]
    ensures Other !in KnownSections
  {
  }

  /** The reference layout has distinct section names and all six known sections. */
  lemma LayoutWellFormed(recs: seq<Feature>)
    ensures DistinctKeys(Layout(recs))
    ensures HasKnownSections(Layout(recs))
  {
    var l := Layout(recs);
    KnownSectionsDistinct();
    forall j | 0 <= j < |KnownSections| ensures l[j].0 == KnownSections[j] {
    }
    forall s | s in KnownSections ensures Get(l, s).Some? {
      var j :| 0 <= j < |KnownSections| && KnownSections[j] == s;
      assert l[j].0 == s;
      GetSomeIff(l, s);
    }
  }

  /**
   Pushing the records one by one gives the reference layout: the six known
   sections in order, followed by `other` exactly when some record went
   there, each holding the records of its section in order.
   */
  lemma {:induction false} AddAllIsLayout(recs: seq<Feature>)
    ensures AddAll(recs) == Layout(recs)
  {
    if |recs| == 0 {
      LayoutStart();
    } else {
      var front := recs[..|recs| - 1];
      AddAllIsLayout(front);
      LayoutStep(recs);
      assert AddAll(recs) == AddFeature(AddAll(front), recs[|recs| - 1]);
    }
  }

  /** With no record visited the layout is the six known sections, empty. */
  lemma LayoutStart()
    ensures Layout([]) == EmptySections()
  {
    assert !HasOther([]);
  }

  /** Updating a position of the front part of a concatenation leaves the back part alone. */
  lemma UpdateBeforeSuffix<T>(k: seq<T>, rest: seq<T>, j0: nat, v: T)
    requires j0 < |k|
    ensures (k + rest)[j0 := v] == k[j0 := v] + rest
  {
  }

  /** One push turns the layout of the records before the last into the layout of all of them. */
  lemma LayoutStep(recs: seq<Feature>)
    requires |recs| > 0
    ensures HasKnownSections(Layout(recs[..|recs| - 1]))
    ensures AddFeature(Layout(recs[..|recs| - 1]), recs[|recs| - 1]) == Layout(recs)
  {
    LayoutWellFormed(recs[..|recs| - 1]);
    var parent := FirstSegment(recs[|recs| - 1].key);
    if parent in KnownSections {
      var j0 :| 0 <= j0 < |KnownSections| && KnownSections[j0] == parent;
      LayoutStepKnown(recs, j0);
    } else if HasOther(recs[..|recs| - 1]) {
      LayoutStepOther(recs);
    } else {
      LayoutStepFirstOther(recs);
    }
  }

  /** Adding a record extends exactly the bucket of its section. */
  lemma BucketStep(recs: seq<Feature>, s: string)
    requires |recs| > 0
    ensures var last := recs[|recs| - 1];
      Bucket(recs, s) ==
        if SectionOf(last.key) == s then Bucket(recs[..|recs| - 1], s) + [last] else Bucket(recs[..|recs| - 1], s)
  {
  }

  /** A record of section `KnownSections[j0]` extends that known bucket only. */
  lemma KnownLayoutPush(recs: seq<Feature>, j0: nat)
    requires |recs| > 0 && j0 < |KnownSections|
    requires SectionOf(recs[|recs| - 1].key) == KnownSections[j0]
    ensures var before := KnownLayout(recs[..|recs| - 1]);
      KnownLayout(recs) == before[j0 := (KnownSections[j0], before[j0].1 + [recs[|recs| - 1]])]
  {
    KnownSectionsDistinct();
    var before := KnownLayout(recs[..|recs| - 1]);
    var after := KnownLayout(recs);
    var r := before[j0 := (KnownSections[j0], before[j0].1 + [recs[|recs| - 1]])];
    forall j | 0 <= j < |KnownSections| ensures after[j] == r[j] {
      BucketStep(recs, KnownSections[j]);
    }
  }

  /** A record of section `other` leaves the known buckets as they were. */
  lemma KnownLayoutKeep(recs: seq<Feature>)
    requires |recs| > 0
    requires SectionOf(recs[|recs| - 1].key) == Other
    ensures KnownLayout(recs) == KnownLayout(recs[..|recs| - 1])
  {
    KnownSectionsDistinct();
    var before := KnownLayout(recs[..|recs| - 1]);
    var after := KnownLayout(recs);
    forall j | 0 <= j < |KnownSections| ensures after[j] == before[j] {
      BucketStep(recs, KnownSections[j]);
    }
  }

  /** A record of a known section is pushed onto that section, as the layout places it. */
  lemma LayoutStepKnown(recs: seq<Feature>, j0: nat)
    requires |recs| > 0 && j0 < |KnownSections|
    requires FirstSegment(recs[|recs| - 1].key) == KnownSections[j0]
    requires HasKnownSections(Layout(recs[..|recs| - 1]))
    ensures AddFeature(Layout(recs[..|recs| - 1]), recs[|recs| - 1]) == Layout(recs)
  {
    var front := recs[..|recs| - 1];
    var f := recs[|recs| - 1];
    var before := Layout(front);
    KnownSectionsDistinct();
    LayoutWellFormed(front);
    assert SectionOf(f.key) == KnownSections[j0];
    assert before[j0].0 == KnownSections[j0];
    GetAt(before, j0);
    PutExisting(before, j0, before[j0].1 + [f]);
    KnownLayoutPush(recs, j0);
    BucketStep(recs, Other);
    var k := KnownLayout(front);
    var rest := if HasOther(front) then [(Other, Bucket(front, Other))] else [];
    assert before == k + rest;
    assert before[j0] == k[j0];
    UpdateBeforeSuffix(k, rest, j0, (KnownSections[j0], k[j0].1 + [f]));
  }

  /** A record of no known section, once `other` exists, is pushed onto `other`. */
  lemma LayoutStepOther(recs: seq<Feature>)
    requires |recs| > 0
    requires FirstSegment(recs[|recs| - 1].key) !in KnownSections
    requires HasOther(recs[..|recs| - 1])
    requires HasKnownSections(Layout(recs[..|recs| - 1]))
    ensures AddFeature(Layout(recs[..|recs| - 1]), recs[|recs| - 1]) == Layout(recs)
  {
    var front := recs[..|recs| - 1];
    var f := recs[|recs| - 1];
    var before := Layout(front);
    LayoutWellFormed(front);
    KnownLayoutKeep(recs);
    BucketStep(recs, Other);
    assert before[6].0 == Other;
    GetAt(before, 6);
    PutExisting(before, 6, before[6].1 + [f]);
  }

  /** The first record of no known section creates `other` holding just that record. */
  lemma LayoutStepFirstOther(recs: seq<Feature>)
    requires |recs| > 0
    requires FirstSegment(recs[|recs| - 1].key) !in KnownSections
    requires !HasOther(recs[..|recs| - 1])
    requires HasKnownSections(Layout(recs[..|recs| - 1]))
    ensures AddFeature(Layout(recs[..|recs| - 1]), recs[|recs| - 1]) == Layout(recs)
  {
    var front := recs[..|recs| - 1];
    var f := recs[|recs| - 1];
    var before := Layout(front);
    assert before == KnownLayout(front);
    assert AddFeature(before, f) == before + [(Other, [f])] by {
      KnownSectionsDistinct();
      assert forall j :: 0 <= j < |before| ==> before[j].0 != Other;
      AddFirstOther(before, f);
    }
    assert Layout(recs) == before + [(Other, [f])] by {
      KnownLayoutKeep(recs);
      BucketStep(recs, Other);
      assert Bucket(recs, Other) == [f];
      assert HasOther(recs);
    }
  }

  /** Pushing the first `other` record appends the section `other` holding just that record. */
  lemma AddFirstOther(before: Sections, f: Feature)
    requires HasKnownSections(before) && FirstSegment(f.key) !in KnownSections
    requires forall j :: 0 <= j < |before| ==> before[j].0 != Other
    ensures AddFeature(before, f) == before + [(Other, [f])]
  {
    var withOther := before + [(Other, [])];
    assert Get(before, Other).None?;
    assert Put(before, Other, []) == withOther;
    assert forall j :: 0 <= j < |before| ==> withOther[j] == before[j];
    assert withOther[|before|].0 == Other;
    assert IndexOf(withOther, Other) == Some(|before|);
    assert Get(withOther, Other) == Some([]);
    assert [] + [f] == [f];
  }

  // ---------------------------------------------------------------------------
  // What the catalogue holds

  /** How many features of `fs` have key `key`. */
  function KeyCount(fs: seq<Feature>, key: string): nat {
    if |fs| == 0 then 0
    else KeyCount(fs[..|fs| - 1], key) + if fs[|fs| - 1].key == key then 1 else 0
  }

  /** Appending a record adds one to its key's count. */
  lemma KeyCountAppend(fs: seq<Feature>, f: Feature, key: string)
    ensures KeyCount(fs + [f], key) == KeyCount(fs, key) + if f.key == key then 1 else 0
  {
    assert (fs + [f])[..|fs|] == fs;
  }

  /** A bucket holds exactly the records of its section. */
  lemma {:induction false} BucketMembers(recs: seq<Feature>, s: string, f: Feature)
    ensures f in Bucket(recs, s) <==> f in recs && SectionOf(f.key) == s
  {
    if |recs| > 0 {
      var front := recs[..|recs| - 1];
      BucketMembers(front, s, f);
      assert recs == front + [recs[|recs| - 1]];
    }
  }

  /** A bucket holds every record of a key of its section, and none of other keys. */
  lemma {:induction false} BucketKeyCount(recs: seq<Feature>, s: string, key: string)
    ensures KeyCount(Bucket(recs, s), key) == if SectionOf(key) == s then KeyCount(recs, key) else 0
  {
    if |recs| > 0 {
      var front := recs[..|recs| - 1];
      var last := recs[|recs| - 1];
      BucketKeyCount(front, s, key);
      assert KeyCount(recs, key) == KeyCount(front, key) + if last.key == key then 1 else 0;
      BucketStep(recs, s);
      if SectionOf(last.key) == s {
        KeyCountAppend(Bucket(front, s), last, key);
      }
    }
  }

  /** With distinct keys, a key occurs once if some record has it and not at all otherwise. */
  lemma {:induction false} UniqueKeyCount(recs: seq<Feature>, key: string)
    requires UniqueKeys(recs)
    ensures KeyCount(recs, key) == if exists t :: 0 <= t < |recs| && recs[t].key == key then 1 else 0
  {
    if |recs| > 0 {
      var front := recs[..|recs| - 1];
      var last := recs[|recs| - 1];
      assert UniqueKeys(front);
      UniqueKeyCount(front, key);
      if exists t :: 0 <= t < |recs| && recs[t].key == key {
        var t :| 0 <= t < |recs| && recs[t].key == key;
        if t < |front| {
          assert front[t] == recs[t];
        }
      }
      if exists t :: 0 <= t < |front| && front[t].key == key {
        var t :| 0 <= t < |front| && front[t].key == key;
        assert recs[t] == front[t];
        assert recs[t].key != last.key;
      }
    }
  }

  /** Each entry of the layout holds the bucket of its own section name. */
  lemma LayoutEntries(recs: seq<Feature>)
    ensures var l := Layout(recs);
      forall j :: 0 <= j < |l| ==> l[j].1 == Bucket(recs, l[j].0)
  {
  }

  /** The section names of the layout: the six known ones in order, then `other` when some record goes there. */
  lemma LayoutNames(recs: seq<Feature>)
    ensures Keys(Layout(recs)) == KnownSections + if HasOther(recs) then [Other] else []
  {
  }

  /**
   Each section of the layout counts a key as often as the records do if the
   key belongs there, and not at all otherwise; a key some record has finds
   its section in the layout.
   */
  lemma LayoutPlacement(recs: seq<Feature>, key: string)
    ensures var l := Layout(recs);
      forall j :: 0 <= j < |l| ==> KeyCount(l[j].1, key) == if l[j].0 == SectionOf(key) then KeyCount(recs, key) else 0
    ensures KeyCount(recs, key) > 0 ==> Get(Layout(recs), SectionOf(key)).Some?
  {
    var l := Layout(recs);
    LayoutEntries(recs);
    forall j | 0 <= j < |l|
      ensures KeyCount(l[j].1, key) == if l[j].0 == SectionOf(key) then KeyCount(recs, key) else 0
    {
      BucketKeyCount(recs, l[j].0, key);
    }
    if KeyCount(recs, key) > 0 {
      LayoutWellFormed(recs);
      if SectionOf(key) == Other {
        BucketKeyCount(recs, Other, key);
        assert HasOther(recs);
        LayoutNames(recs);
        assert Keys(l)[6] == Other;
        GetSomeIff(l, Other);
      }
    }
  }

  /** Some flattened key does not start with a known section name. */
  ghost predicate HasOtherKey(releaseData: Dict<Value>) {
    exists t :: 0 <= t < |releaseData| && SectionOf(releaseData[t].0) == Other
  }

  /** The records carry the flattened keys, in order; with distinct keys, no record key repeats. */
  lemma RecordKeys(releases: seq<Config>, mappings: Dict<Mapping>, releaseData: Dict<Value>)
    ensures var recs := Records(releases, mappings, releaseData, |releaseData|);
      && |recs| == |releaseData|
      && (forall t :: 0 <= t < |recs| ==> recs[t].key == releaseData[t].0)
      && (HasOther(recs) <==> HasOtherKey(releaseData))
      && (DistinctKeys(releaseData) ==> UniqueKeys(recs))
  {
    var recs := Records(releases, mappings, releaseData, |releaseData|);
    assert forall t :: 0 <= t < |recs| ==> recs[t].key == releaseData[t].0;
    HasOtherIff(recs);
  }

  /** The catalogue is the reference layout of the records of the flattened keys. */
  lemma CatalogueIsLayout(releases: seq<Config>, mappings: Dict<Mapping>, config: Config)
    ensures var releaseData := Flatten(config);
      FeatureCatalogue(releases, mappings, config) == Layout(Records(releases, mappings, releaseData, |releaseData|))
  {
    var releaseData := Flatten(config);
    AddAllIsLayout(Records(releases, mappings, releaseData, |releaseData|));
  }

  /**
   The sections `loadFeatures` builds: the six known sections always, in
   their listed order, followed by `other` exactly when some flattened key
   does not start with a known section name; no section name twice.
   */
  lemma CatalogueSections(releases: seq<Config>, mappings: Dict<Mapping>, config: Config)
    ensures Keys(FeatureCatalogue(releases, mappings, config)) ==
      KnownSections + if HasOtherKey(Flatten(config)) then [Other] else []
    ensures DistinctKeys(FeatureCatalogue(releases, mappings, config))
  {
    var releaseData := Flatten(config);
    var recs := Records(releases, mappings, releaseData, |releaseData|);
    CatalogueIsLayout(releases, mappings, config);
    RecordKeys(releases, mappings, releaseData);
    LayoutNames(recs);
    LayoutWellFormed(recs);
  }

  /**
   Every flattened key is placed exactly once: the section named by its
   first segment (or `other`) holds one record of it, and every other
   section holds none; a key that is not in the flattened config appears
   nowhere.
   */
  lemma CataloguePlacement(releases: seq<Config>, mappings: Dict<Mapping>, config: Config, key: string)
    ensures var c := FeatureCatalogue(releases, mappings, config);
      forall j :: 0 <= j < |c| ==>
        KeyCount(c[j].1, key) == if c[j].0 == SectionOf(key) && Get(Flatten(config), key).Some? then 1 else 0
    ensures Get(Flatten(config), key).Some? ==> Get(FeatureCatalogue(releases, mappings, config), SectionOf(key)).Some?
  {
    var releaseData := Flatten(config);
    var recs := Records(releases, mappings, releaseData, |releaseData|);
    CatalogueIsLayout(releases, mappings, config);
    RecordKeyCount(releases, mappings, releaseData, key);
    LayoutPlacement(recs, key);
  }

  /** With distinct flattened keys, the records hold a key once if it was flattened and not at all otherwise. */
  lemma RecordKeyCount(releases: seq<Config>, mappings: Dict<Mapping>, releaseData: Dict<Value>, key: string)
    requires DistinctKeys(releaseData)
    ensures KeyCount(Records(releases, mappings, releaseData, |releaseData|), key) ==
      if Get(releaseData, key).Some? then 1 else 0
  {
    var recs := Records(releases, mappings, releaseData, |releaseData|);
    RecordKeys(releases, mappings, releaseData);
    UniqueKeyCount(recs, key);
    GetSomeIff(releaseData, key);
    if Get(releaseData, key).Some? {
      var t :| 0 <= t < |releaseData| && releaseData[t].0 == key;
      assert recs[t].key == key;
    }
  }

  /**
   Every record in the catalogue is that of a flattened key of the section
   it is in: `enabled` and `available` are both the key's truthiness in the
   release, `earliestRelease` is the resolver's answer, and the name and
   description come from the mapping table, defaulting to the key and to
   "No description available.".
   */
  lemma CatalogueFields(releases: seq<Config>, mappings: Dict<Mapping>, config: Config, j: nat, f: Feature)
    requires j < |FeatureCatalogue(releases, mappings, config)|
    requires f in FeatureCatalogue(releases, mappings, config)[j].1
    ensures Get(Flatten(config), f.key).Some?
    ensures SectionOf(f.key) == FeatureCatalogue(releases, mappings, config)[j].0
    ensures f.enabled == TruthyIn(config, f.key) && f.available == TruthyIn(config, f.key)
    ensures f.earliestRelease == Earliest(releases, f.key)
    ensures f.name == match Get(mappings, f.key) case Some(m) => m.name case None => f.key
    ensures f.description == match Get(mappings, f.key) case Some(m) => m.description case None => NoDescription
  {
    var releaseData := Flatten(config);
    var recs := Records(releases, mappings, releaseData, |releaseData|);
    var c := FeatureCatalogue(releases, mappings, config);
    CatalogueIsLayout(releases, mappings, config);
    LayoutEntries(recs);
    BucketMembers(recs, c[j].0, f);
    var t :| 0 <= t < |recs| && recs[t] == f;
    GetSomeIff(releaseData, releaseData[t].0);
  }
}
