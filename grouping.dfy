/**
  Grouping of the localization entries (`batch_localization_by_keys` in
  main.py). A localization key reads "<category>.wynntils.<feature>...": the
  category is dot-segment 0 and the feature dot-segment 2.
 */
module Grouping {
  import opened Wrappers
  import opened Dicts
  import opened Text

  /** Localization key to localization string. */
  type Entries = Dict<string, string>
  /** Feature to the entries of that feature. */
  type Features = Dict<string, Entries>
  /** Category to its features. */
  type Groups = Dict<string, Features>

  /** A key has a segment 2 to read the feature from. */
  predicate WellFormedKey(key: string) {
    |Split(key, '.')| >= 3
  }

  predicate AllWellFormed(data: Entries) {
    forall i :: 0 <= i < |data| ==> WellFormedKey(data[i].0)
  }

  function Category(key: string): string
    requires WellFormedKey(key)
  {
    Split(key, '.')[0]
  }

  function Feature(key: string): string
    requires WellFormedKey(key)
  {
    Split(key, '.')[2]
  }

  /** `parts[2]` raises an IndexError for a key with fewer than three segments. */
  datatype GroupError = MalformedKey(key: string)

  /** One pass of the loop body: file `key -> value` under its category and feature. */
  function Place(g: Groups, key: string, value: string): Groups
    requires WellFormedKey(key)
  {
    var fs := Lookup(g, Category(key)).GetOr([]);
    var es := Lookup(fs, Feature(key)).GetOr([]);
    Set(g, Category(key), Set(fs, Feature(key), Set(es, key, value)))
  }

  /** The grouping the loop has built after the entries of `data`. */
  function GroupAll(data: Entries): Groups
    requires AllWellFormed(data)
  {
    if data == [] then []
    else Place(GroupAll(data[..|data| - 1]), data[|data| - 1].0, data[|data| - 1].1)
  }

  /** Each element once, in the order of its first occurrence. */
  function FirstOccurrences(s: seq<string>): (r: seq<string>)
    ensures Distinct(r)
    ensures forall x :: x in r <==> x in s
  {
    if s == [] then []
    else
      var r := FirstOccurrences(s[..|s| - 1]);
      assert s == s[..|s| - 1] + [s[|s| - 1]];
      if s[|s| - 1] in r then r else r + [s[|s| - 1]]
  }

  /** The category of every entry, in input order. */
  function Categories(data: Entries): seq<string>
    requires AllWellFormed(data)
  {
    seq(|data|, i requires 0 <= i < |data| => Category(data[i].0))
  }

  /** The feature of every entry, in input order. */
  function FeatureNames(data: Entries): seq<string>
    requires AllWellFormed(data)
  {
    seq(|data|, i requires 0 <= i < |data| => Feature(data[i].0))
  }

  /** The entries of category `c`, in input order. */
  function InCategory(data: Entries, c: string): (r: Entries)
    requires AllWellFormed(data)
    ensures AllWellFormed(r)
    ensures forall p :: p in r <==> p in data && Category(p.0) == c
  {
    if data == [] then []
    else
      var r := InCategory(data[..|data| - 1], c);
      var last := data[|data| - 1];
      assert data == data[..|data| - 1] + [last];
      if Category(last.0) == c then r + [last] else r
  }

  /** The entries of feature `f`, in input order. */
  function InFeature(data: Entries, f: string): (r: Entries)
    requires AllWellFormed(data)
    ensures AllWellFormed(r)
    ensures forall p :: p in r <==> p in data && Feature(p.0) == f
  {
    if data == [] then []
    else
      var r := InFeature(data[..|data| - 1], f);
      var last := data[|data| - 1];
      assert data == data[..|data| - 1] + [last];
      if Feature(last.0) == f then r + [last] else r
  }

  /**
    What the grouping of `data` is: categories in order of first occurrence;
    under each, its features in order of first occurrence; under each feature,
    exactly the entries of that category and feature in input order; and the
    flattened features of a category hold exactly that category's entries.
   */
  ghost predicate GroupsOf(g: Groups, data: Entries)
    requires AllWellFormed(data)
  {
    && Keys(g) == FirstOccurrences(Categories(data))
    && forall c :: Lookup(g, c).Some? ==> FeaturesOf(Lookup(g, c).value, data, c)
  }

  ghost predicate FeaturesOf(fs: Features, data: Entries, c: string)
    requires AllWellFormed(data)
  {
    && Keys(fs) == FirstOccurrences(FeatureNames(InCategory(data, c)))
    && (forall f :: Lookup(fs, f).Some? ==> Lookup(fs, f).value == InFeature(InCategory(data, c), f))
    && multiset(Flatten(fs)) == multiset(InCategory(data, c))
  }

  lemma {:induction false} CategoryAbsent(data: Entries, c: string)
    requires AllWellFormed(data) && c !in Categories(data)
    ensures InCategory(data, c) == []
  {
    if data != [] {
      var n := |data| - 1;
      assert Categories(data)[n] == Category(data[n].0);
      assert Categories(data[..n]) == Categories(data)[..n];
      CategoryAbsent(data[..n], c);
    }
  }

  lemma {:induction false} FeatureAbsent(data: Entries, f: string)
    requires AllWellFormed(data) && f !in FeatureNames(data)
    ensures InFeature(data, f) == []
  {
    if data != [] {
      var n := |data| - 1;
      assert FeatureNames(data)[n] == Feature(data[n].0);
      assert FeatureNames(data[..n]) == FeatureNames(data)[..n];
      FeatureAbsent(data[..n], f);
    }
  }

  /** A key that is not in `data` is in none of its groups. */
  lemma KeyAbsent(data: Entries, c: string, f: string, key: string)
    requires AllWellFormed(data) && key !in Keys(data)
    ensures key !in Keys(InFeature(InCategory(data, c), f))
  {
    var es := InFeature(InCategory(data, c), f);
    forall j | 0 <= j < |es| ensures Keys(es)[j] != key {
      assert es[j] in data;
      var i :| 0 <= i < |data| && data[i] == es[j];
      assert Keys(data)[i] == es[j].0;
    }
  }

  lemma FirstOccurrencesStep(s: seq<string>, x: string)
    ensures FirstOccurrences(s + [x])
         == if x in FirstOccurrences(s) then FirstOccurrences(s) else FirstOccurrences(s) + [x]
  {
    assert (s + [x])[..|s|] == s;
  }

  lemma FeatureStep(ic: Entries, key: string, value: string, f: string)
    requires AllWellFormed(ic) && WellFormedKey(key)
    ensures AllWellFormed(ic + [(key, value)])
    ensures InFeature(ic + [(key, value)], f)
         == if Feature(key) == f then InFeature(ic, f) + [(key, value)] else InFeature(ic, f)
  {
    assert (ic + [(key, value)])[..|ic|] == ic;
  }

  /** The feature list of a category after its next entry is filed. */
  lemma PlaceFeatureKeys(fs: Features, ic: Entries, key: string, value: string, x: Entries)
    requires AllWellFormed(ic) && WellFormedKey(key)
    requires Keys(fs) == FirstOccurrences(FeatureNames(ic))
    ensures AllWellFormed(ic + [(key, value)])
    ensures Keys(Set(fs, Feature(key), x)) == FirstOccurrences(FeatureNames(ic + [(key, value)]))
  {
    FeatureStep(ic, key, value, Feature(key));
    assert FeatureNames(ic + [(key, value)]) == FeatureNames(ic) + [Feature(key)];
    FirstOccurrencesStep(FeatureNames(ic), Feature(key));
  }

  /** The entries of the receiving feature gain the new entry at the end. */
  lemma PlaceFeatureEntries(fs: Features, ic: Entries, key: string, value: string)
    requires AllWellFormed(ic) && WellFormedKey(key)
    requires key !in Keys(InFeature(ic, Feature(key)))
    requires Keys(fs) == FirstOccurrences(FeatureNames(ic))
    requires forall f :: Lookup(fs, f).Some? ==> Lookup(fs, f).value == InFeature(ic, f)
    ensures Lookup(fs, Feature(key)).GetOr([]) == InFeature(ic, Feature(key))
    ensures Set(Lookup(fs, Feature(key)).GetOr([]), key, value)
         == InFeature(ic, Feature(key)) + [(key, value)]
  {
    if Feature(key) !in Keys(fs) { FeatureAbsent(ic, Feature(key)); }
  }

  /** The category that receives the next entry ends up with its features right. */
  lemma PlaceHere(fs: Features, ic: Entries, key: string, value: string)
    requires AllWellFormed(ic) && WellFormedKey(key)
    requires key !in Keys(InFeature(ic, Feature(key)))
    requires Keys(fs) == FirstOccurrences(FeatureNames(ic))
    requires forall f :: Lookup(fs, f).Some? ==> Lookup(fs, f).value == InFeature(ic, f)
    requires multiset(Flatten(fs)) == multiset(ic)
    ensures AllWellFormed(ic + [(key, value)])
    ensures var fs2 := Set(fs, Feature(key), Set(Lookup(fs, Feature(key)).GetOr([]), key, value));
            && Keys(fs2) == FirstOccurrences(FeatureNames(ic + [(key, value)]))
            && (forall f :: Lookup(fs2, f).Some? ==> Lookup(fs2, f).value == InFeature(ic + [(key, value)], f))
            && multiset(Flatten(fs2)) == multiset(ic + [(key, value)])
  {
    var f := Feature(key);
    var ic2 := ic + [(key, value)];
    var es := Lookup(fs, f).GetOr([]);
    PlaceFeatureEntries(fs, ic, key, value);
    var es2 := Set(es, key, value);
    var fs2 := Set(fs, f, es2);
    PlaceFeatureKeys(fs, ic, key, value, es2);
    forall f' | Lookup(fs2, f').Some? ensures Lookup(fs2, f').value == InFeature(ic2, f') {
      FeatureStep(ic, key, value, f');
    }
    FlattenSetAppend(fs, f, (key, value));
    assert multiset(ic2) == multiset(ic) + multiset{(key, value)};
  }

  lemma CategoryStep(data: Entries, key: string, value: string, c: string)
    requires AllWellFormed(data) && WellFormedKey(key)
    ensures AllWellFormed(data + [(key, value)])
    ensures InCategory(data + [(key, value)], c)
         == if Category(key) == c then InCategory(data, c) + [(key, value)] else InCategory(data, c)
  {
    assert (data + [(key, value)])[..|data|] == data;
  }

  /** The features of the receiving category before the new entry is filed. */
  lemma PlaceBefore(g: Groups, data: Entries, c: string)
    requires AllWellFormed(data) && GroupsOf(g, data)
    ensures FeaturesOf(Lookup(g, c).GetOr([]), data, c)
  {
    if c !in Keys(g) {
      CategoryAbsent(data, c);
      assert FirstOccurrences(FeatureNames([])) == [];
      assert Values<string, Entries>([]) == [];
    }
  }

  /** The categories of the grouping after the next entry is filed. */
  lemma PlaceCategories(g: Groups, data: Entries, key: string, value: string, fs: Features)
    requires AllWellFormed(data) && WellFormedKey(key)
    requires Keys(g) == FirstOccurrences(Categories(data))
    ensures AllWellFormed(data + [(key, value)])
    ensures Keys(Set(g, Category(key), fs)) == FirstOccurrences(Categories(data + [(key, value)]))
  {
    var data2 := data + [(key, value)];
    assert data2[..|data2| - 1] == data;
    assert Categories(data2) == Categories(data) + [Category(key)];
    FirstOccurrencesStep(Categories(data), Category(key));
  }

  /** The receiving category's features after the next entry is filed. */
  lemma PlaceReceiving(g: Groups, data: Entries, key: string, value: string)
    requires AllWellFormed(data) && WellFormedKey(key) && key !in Keys(data)
    requires GroupsOf(g, data)
    ensures AllWellFormed(data + [(key, value)])
    ensures FeaturesOf(Lookup(Place(g, key, value), Category(key)).value, data + [(key, value)], Category(key))
  {
    var c := Category(key);
    var fs := Lookup(g, c).GetOr([]);
    PlaceBefore(g, data, c);
    KeyAbsent(data, c, Feature(key), key);
    PlaceHere(fs, InCategory(data, c), key, value);
    CategoryStep(data, key, value, c);
  }

  /** Categories other than the receiving one are untouched. */
  lemma PlaceOthers(g: Groups, data: Entries, key: string, value: string, c: string)
    requires AllWellFormed(data) && WellFormedKey(key) && c != Category(key)
    requires GroupsOf(g, data)
    requires Lookup(g, c).Some?
    ensures AllWellFormed(data + [(key, value)])
    ensures Lookup(Place(g, key, value), c) == Lookup(g, c)
    ensures FeaturesOf(Lookup(g, c).value, data + [(key, value)], c)
  {
    CategoryStep(data, key, value, c);
  }

  lemma PlaceEach(g: Groups, data: Entries, key: string, value: string, c: string)
    requires AllWellFormed(data) && WellFormedKey(key) && key !in Keys(data)
    requires GroupsOf(g, data)
    requires Lookup(Place(g, key, value), c).Some?
    ensures AllWellFormed(data + [(key, value)])
    ensures FeaturesOf(Lookup(Place(g, key, value), c).value, data + [(key, value)], c)
  {
    if c == Category(key) {
      PlaceReceiving(g, data, key, value);
    } else {
      PlaceOthers(g, data, key, value, c);
    }
  }

  /** Filing the next entry keeps the grouping what it should be. */
  lemma PlaceCorrect(g: Groups, data: Entries, key: string, value: string)
    requires AllWellFormed(data) && WellFormedKey(key) && key !in Keys(data)
    requires GroupsOf(g, data)
    ensures AllWellFormed(data + [(key, value)])
    ensures GroupsOf(Place(g, key, value), data + [(key, value)])
  {
    var g2 := Place(g, key, value);
    var data2 := data + [(key, value)];
    PlaceCategories(g, data, key, value, Lookup(g2, Category(key)).value);
    forall c | Lookup(g2, c).Some? ensures FeaturesOf(Lookup(g2, c).value, data2, c) {
      PlaceEach(g, data, key, value, c);
    }
  }

  /** The grouping of a dictionary is `GroupsOf` it. */
  lemma {:induction false} GroupAllCorrect(data: Entries)
    requires AllWellFormed(data) && DistinctKeys(data)
    ensures GroupsOf(GroupAll(data), data)
  {
    if data == [] {
      assert FirstOccurrences(Categories(data)) == [];
    } else {
      var n := |data| - 1;
      var prefix := data[..n];
      assert data == prefix + [data[n]];
      assert Keys(data) == Keys(prefix) + [data[n].0];
      assert DistinctKeys(prefix) by {
        assert Keys(prefix) == Keys(data)[..n];
      }
      forall j | 0 <= j < n ensures Keys(prefix)[j] != data[n].0 {
        assert Keys(data)[j] == Keys(prefix)[j];
        assert Keys(data)[n] == data[n].0;
      }
      GroupAllCorrect(prefix);
      PlaceCorrect(GroupAll(prefix), prefix, data[n].0, data[n].1);
    }
  }

  /** The value the grouping files under category `c`, feature `f` and key `key`. */
  function Find(g: Groups, c: string, f: string, key: string): Option<string> {
    match Lookup(g, c)
    case None => None
    case Some(fs) =>
      match Lookup(fs, f)
      case None => None
      case Some(es) => Lookup(es, key)
  }

  /** Soundness of the grouping: whatever it files is an input entry, under that key's own category and feature. */
  lemma GroupAllSound(data: Entries, c: string, f: string, key: string)
    requires AllWellFormed(data) && DistinctKeys(data)
    requires Find(GroupAll(data), c, f, key).Some?
    ensures key in Keys(data) && WellFormedKey(key) && Category(key) == c && Feature(key) == f
    ensures Find(GroupAll(data), c, f, key) == Lookup(data, key)
  {
    var g := GroupAll(data);
    GroupAllCorrect(data);
    var v := Find(g, c, f, key).value;
    var fs := Lookup(g, c).value;
    var es := Lookup(fs, f).value;
    assert es == InFeature(InCategory(data, c), f);
    assert (key, v) in es;
    LookupPair(data, key, v);
  }

  /** An entry's category is a category of the grouping. */
  lemma CategoryFiled(g: Groups, data: Entries, key: string, v: string)
    requires AllWellFormed(data) && GroupsOf(g, data) && (key, v) in data
    ensures WellFormedKey(key) && Lookup(g, Category(key)).Some?
    ensures FeaturesOf(Lookup(g, Category(key)).value, data, Category(key))
  {
    var i :| 0 <= i < |data| && data[i] == (key, v);
    assert Categories(data)[i] == Category(key);
  }

  /** An entry's feature is a feature of its category's group. */
  lemma FeatureFiled(fs: Features, data: Entries, key: string, v: string)
    requires AllWellFormed(data) && (key, v) in data && WellFormedKey(key)
    requires FeaturesOf(fs, data, Category(key))
    ensures Lookup(fs, Feature(key)).Some?
    ensures (key, v) in Lookup(fs, Feature(key)).value
  {
    var ic := InCategory(data, Category(key));
    assert (key, v) in ic;
    var j :| 0 <= j < |ic| && ic[j] == (key, v);
    assert FeatureNames(ic)[j] == Feature(key);
  }

  lemma GroupsOfComplete(g: Groups, data: Entries, key: string)
    requires AllWellFormed(data) && DistinctKeys(data) && GroupsOf(g, data)
    requires key in Keys(data)
    ensures WellFormedKey(key)
    ensures Find(g, Category(key), Feature(key), key) == Lookup(data, key)
  {
    var v := Lookup(data, key).value;
    CategoryFiled(g, data, key, v);
    var fs := Lookup(g, Category(key)).value;
    FeatureFiled(fs, data, key, v);
    var es := Lookup(fs, Feature(key)).value;
    var m :| 0 <= m < |es| && es[m] == (key, v);
    assert Keys(es)[m] == key;
    var w := Lookup(es, key).value;
    assert (key, w) in es;
    assert es == InFeature(InCategory(data, Category(key)), Feature(key));
    LookupPair(data, key, w);
  }

  /** Completeness of the grouping: every input entry is filed under its category and feature. */
  lemma GroupAllComplete(data: Entries, key: string)
    requires AllWellFormed(data) && DistinctKeys(data)
    requires key in Keys(data)
    ensures WellFormedKey(key)
    ensures Find(GroupAll(data), Category(key), Feature(key), key) == Lookup(data, key)
  {
    GroupAllCorrect(data);
    GroupsOfComplete(GroupAll(data), data, key);
  }

  /** Both directions together: the grouping files exactly the input entries, each where it belongs. */
  lemma GroupAllFind(data: Entries, c: string, f: string, key: string)
    requires AllWellFormed(data) && DistinctKeys(data)
    ensures Find(GroupAll(data), c, f, key)
         == if key in Keys(data) && WellFormedKey(key) && Category(key) == c && Feature(key) == f
            then Lookup(data, key) else None
  {
    if Find(GroupAll(data), c, f, key).Some? { GroupAllSound(data, c, f, key); }
    if key in Keys(data) { GroupAllComplete(data, key); }
  }

  lemma {:induction false} InCategoryDistinct(data: Entries, c: string)
    requires AllWellFormed(data) && DistinctKeys(data)
    ensures DistinctKeys(InCategory(data, c))
  {
    if data != [] {
      var n := |data| - 1;
      var prefix := data[..n];
      assert data == prefix + [data[n]];
      assert Keys(data) == Keys(prefix) + [data[n].0];
      assert DistinctKeys(prefix) by { assert Keys(prefix) == Keys(data)[..n]; }
      InCategoryDistinct(prefix, c);
      var ic := InCategory(prefix, c);
      if Category(data[n].0) == c {
        forall j | 0 <= j < |ic| ensures Keys(ic)[j] != data[n].0 {
          assert ic[j] in prefix;
          var i :| 0 <= i < |prefix| && prefix[i] == ic[j];
          assert Keys(data)[i] == ic[j].0 && Keys(data)[n] == data[n].0;
        }
        assert InCategory(data, c) == ic + [data[n]];
        KeysAppend(ic, [data[n]]);
        DistinctAppend(Keys(ic), data[n].0);
      }
    }
  }

  /** The flattened features of any category of the grouping have distinct keys. */
  lemma CategoryEntriesDistinct(data: Entries, i: nat)
    requires AllWellFormed(data) && DistinctKeys(data)
    requires i < |GroupAll(data)|
    ensures Lookup(GroupAll(data), GroupAll(data)[i].0) == Some(GroupAll(data)[i].1)
    ensures multiset(Flatten(GroupAll(data)[i].1)) == multiset(InCategory(data, GroupAll(data)[i].0))
    ensures DistinctKeys(Flatten(GroupAll(data)[i].1))
  {
    var g := GroupAll(data);
    GroupAllCorrect(data);
    assert DistinctKeys(g);
    assert g[i] in g;
    LookupPair(g, g[i].0, g[i].1);
    InCategoryDistinct(data, g[i].0);
    DistinctKeysPermutation(InCategory(data, g[i].0), Flatten(g[i].1));
  }

  /** One more entry of the input is one more `Place`. */
  lemma GroupAllStep(data: Entries, i: nat)
    requires i < |data| && AllWellFormed(data[..i]) && WellFormedKey(data[i].0)
    ensures AllWellFormed(data[..i + 1])
    ensures GroupAll(data[..i + 1]) == Place(GroupAll(data[..i]), data[i].0, data[i].1)
  {
    assert data[..i + 1] == data[..i] + [data[i]];
    assert data[..i + 1][..i] == data[..i];
  }

  /** The loop body's three statements do what `Place` says. */
  lemma PlaceInSteps(g: Groups, key: string, value: string)
    requires WellFormedKey(key)
    ensures var c, f := Category(key), Feature(key);
            var g1 := if c !in Keys(g) then Set(g, c, []) else g;
            var fs := Lookup(g1, c).value;
            var fs1 := if f !in Keys(fs) then Set(fs, f, []) else fs;
            Set(g1, c, Set(fs1, f, Set(Lookup(fs1, f).value, key, value))) == Place(g, key, value)
  {
    var c, f := Category(key), Feature(key);
    var g1 := if c !in Keys(g) then Set(g, c, []) else g;
    var fs := Lookup(g1, c).value;
    var fs1 := if f !in Keys(fs) then Set(fs, f, []) else fs;
    var x := Set(fs1, f, Set(Lookup(fs1, f).value, key, value));
    if c !in Keys(g) { SetTwice(g, c, [], x); }
    if f !in Keys(fs) { SetTwice(fs, f, [], Set(Lookup(fs1, f).value, key, value)); }
  }

  /**
    `batch_localization_by_keys`: walks the entries in order and files each
    under its category and feature, or fails on the first key without a
    segment 2.
   */
  method BatchLocalizationByKeys(data: Entries) returns (r: Result<Groups, GroupError>)
    ensures r.Success? <==> AllWellFormed(data)
    ensures r.Success? ==> AllWellFormed(data) && r.value == GroupAll(data)
    ensures r.Failure? ==> exists i :: 0 <= i < |data| && !WellFormedKey(data[i].0)
                                    && r.error == MalformedKey(data[i].0)
                                    && AllWellFormed(data[..i])
  {
    var batched: Groups := [];
    var i := 0;
    while i < |data|
      invariant 0 <= i <= |data|
      invariant AllWellFormed(data[..i])
      invariant batched == GroupAll(data[..i])
    {
      var key, value := data[i].0, data[i].1;
      var parts := Split(key, '.');
      if |parts| < 3 {
        return Failure(MalformedKey(key));
      }
      var category, feature := parts[0], parts[2];
      ghost var before := batched;
      if category !in Keys(batched) {
        batched := Set(batched, category, []);
      }
      var features := Lookup(batched, category).value;
      if feature !in Keys(features) {
        features := Set(features, feature, []);
      }
      var entries := Lookup(features, feature).value;
      batched := Set(batched, category, Set(features, feature, Set(entries, key, value)));
      PlaceInSteps(before, key, value);
      GroupAllStep(data, i);
      i := i + 1;
    }
    assert data[..i] == data;
    return Success(batched);
  }
}
