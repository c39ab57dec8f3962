/** `CrateVersion::normalize`: one form for index entries that differ only in order, as far as the code goes. */
module Normalize {
  import opened RegistryTypes
  import opened Sorting
  import opened Wrappers

  // ---- The order of the sort keys ----

  function CompareInt(a: int, b: int): Ordering {
    if a < b then Less else if a == b then Equal else Greater
  }

  /** `str` order: the first difference decides, and a prefix comes first. */
  function CompareString(a: string, b: string): Ordering {
    if a == "" && b == "" then Equal
    else if a == "" then Less
    else if b == "" then Greater
    else if a[0] != b[0] then CompareInt(a[0] as int, b[0] as int)
    else CompareString(a[1..], b[1..])
  }

  /** `Option` order: None comes first. */
  function CompareOption(a: Option<string>, b: Option<string>): Ordering {
    if a.None? && b.None? then Equal
    else if a.None? then Less
    else if b.None? then Greater
    else CompareString(a.value, b.value)
  }

  function KindRank(kind: DependencyKind): int {
    match kind
    case Normal => 0
    case Dev => 1
    case Build => 2
  }

  function Then(first: Ordering, second: Ordering): Ordering {
    if first == Equal then second else first
  }

  datatype DependencyKey = DependencyKey(
    registry: Option<string>, name: string, package: Option<string>, req: VersionReq, kind: DependencyKind,
    target: Option<string>)

  function KeyOf(d: Dependency): DependencyKey {
    DependencyKey(d.registry, d.name, d.package, d.req, d.kind, d.target)
  }

  function CompareSource(a: DependencyKey, b: DependencyKey): Ordering {
    Then(CompareOption(a.registry, b.registry),
         Then(CompareString(a.name, b.name), CompareOption(a.package, b.package)))
  }

  function CompareUse(a: DependencyKey, b: DependencyKey): Ordering {
    Then(CompareString(a.req, b.req),
         Then(CompareInt(KindRank(a.kind), KindRank(b.kind)), CompareOption(a.target, b.target)))
  }

  /** Tuples are compared field by field. */
  function CompareKey(a: DependencyKey, b: DependencyKey): Ordering {
    Then(CompareSource(a, b), CompareUse(a, b))
  }

  lemma {:induction false} CompareStringEqual(a: string, b: string)
    ensures CompareString(a, b) == Equal <==> a == b
  {
    if a != "" && b != "" {
      CompareStringEqual(a[1..], b[1..]);
      assert a == [a[0]] + a[1..] && b == [b[0]] + b[1..];
    }
  }

  lemma {:induction false} CompareStringFlips(a: string, b: string)
    ensures CompareString(a, b) == Less <==> CompareString(b, a) == Greater
  {
    if a != "" && b != "" {
      CompareStringFlips(a[1..], b[1..]);
    }
  }

  lemma {:induction false} CompareStringTransitive(a: string, b: string, c: string)
    requires CompareString(a, b) == Less && CompareString(b, c) == Less
    ensures CompareString(a, c) == Less
  {
    if a != "" && a[0] == b[0] && b[0] == c[0] {
      CompareStringTransitive(a[1..], b[1..], c[1..]);
    }
  }

  lemma StringsOrdered()
    ensures IsTotalOrder(CompareString)
  {
    forall a, b
      ensures CompareString(a, b) == Equal <==> a == b
      ensures CompareString(a, b) == Less <==> CompareString(b, a) == Greater
    {
      CompareStringEqual(a, b);
      CompareStringFlips(a, b);
    }
    forall a, b, c | CompareString(a, b) == Less && CompareString(b, c) == Less
      ensures CompareString(a, c) == Less
    {
      CompareStringTransitive(a, b, c);
    }
  }

  lemma OptionsOrdered()
    ensures IsTotalOrder(CompareOption)
  {
    forall a, b
      ensures CompareOption(a, b) == Equal <==> a == b
      ensures CompareOption(a, b) == Less <==> CompareOption(b, a) == Greater
    {
      if a.Some? && b.Some? {
        CompareStringEqual(a.value, b.value);
        CompareStringFlips(a.value, b.value);
      }
    }
    forall a, b, c | CompareOption(a, b) == Less && CompareOption(b, c) == Less
      ensures CompareOption(a, c) == Less
    {
      if a.Some? && b.Some? && c.Some? {
        CompareStringTransitive(a.value, b.value, c.value);
      }
    }
  }

  lemma KeysOrdered()
    ensures IsTotalOrder(CompareKey)
  {
    StringsOrdered();
    OptionsOrdered();
    forall a, b
      ensures CompareKey(a, b) == Equal <==> a == b
      ensures CompareKey(a, b) == Less <==> CompareKey(b, a) == Greater
    {
      KeyPairOrdered(a, b);
    }
    forall a, b, c | CompareKey(a, b) == Less && CompareKey(b, c) == Less
      ensures CompareKey(a, c) == Less
    {
      KeyTripleOrdered(a, b, c);
    }
  }

  lemma KeyPairOrdered(a: DependencyKey, b: DependencyKey)
    requires IsTotalOrder(CompareString) && IsTotalOrder(CompareOption)
    ensures CompareKey(a, b) == Equal <==> a == b
    ensures CompareKey(a, b) == Less <==> CompareKey(b, a) == Greater
  {
  }

  lemma KeyTripleOrdered(a: DependencyKey, b: DependencyKey, c: DependencyKey)
    requires IsTotalOrder(CompareString) && IsTotalOrder(CompareOption)
    requires CompareKey(a, b) == Less && CompareKey(b, c) == Less
    ensures CompareKey(a, c) == Less
  {
  }

  // ---- What normalizing gives ----

  function Itself(s: string): string {
    s
  }

  /** `Vec<String>::sort`. */
  function SortStrings(xs: seq<string>): seq<string> {
    StableSort(xs, Itself, CompareString)
  }

  function SortFeatures(d: Dependency): Dependency {
    d.(features := SortStrings(d.features))
  }

  function SortedFeatures(deps: seq<Dependency>): (r: seq<Dependency>)
    ensures |r| == |deps|
  {
    seq(|deps|, i requires 0 <= i < |deps| => SortFeatures(deps[i]))
  }

  function NormalDependencies(deps: seq<Dependency>): seq<Dependency> {
    StableSort(SortedFeatures(deps), KeyOf, CompareKey)
  }

  /** The entries of `features2`, sorted, win over those of `features`, which stay as they are. */
  function NormalFeatures(features: map<string, seq<string>>, features2: map<string, seq<string>>):
    map<string, seq<string>>
  {
    features + map k | k in features2 :: SortStrings(features2[k])
  }

  function Normalized(e: CrateVersion): CrateVersion {
    e.(features := NormalFeatures(e.features, e.features2), features2 := map[], deps := NormalDependencies(e.deps))
  }

  // ---- The code ----

  /** The fields of an index entry that `normalize` updates in place. */
  class EntryFields {
    var deps: seq<Dependency>
    var features: map<string, seq<string>>
    var features2: map<string, seq<string>>

    constructor (e: CrateVersion)
      ensures deps == e.deps && features == e.features && features2 == e.features2
    {
      deps, features, features2 := e.deps, e.features, e.features2;
    }

    method Normalize()
      modifies this
      ensures deps == NormalDependencies(old(deps))
      ensures features == NormalFeatures(old(features), old(features2)) && features2 == map[]
    {
      NormalizeFeatures();
      NormalizeDependencies();
    }

    method NormalizeDependencies()
      modifies this`deps
      ensures deps == NormalDependencies(old(deps))
    {
      ghost var before := deps;
      var i := 0;
      while i < |deps|
        invariant 0 <= i <= |deps| == |before|
        invariant deps[..i] == SortedFeatures(before)[..i] && deps[i..] == before[i..]
      {
        assert deps[i] == before[i];
        deps := deps[i := deps[i].(features := SortStrings(deps[i].features))];
        assert deps[i] == SortedFeatures(before)[i];
        i := i + 1;
      }
      assert deps == SortedFeatures(before);
      deps := StableSort(deps, KeyOf, CompareKey);
    }

    method NormalizeFeatures()
      modifies this`features, this`features2
      ensures features == NormalFeatures(old(features), old(features2)) && features2 == map[]
    {
      ghost var before := features;
      var taken := features2;
      features2 := map[];
      var todo := taken.Keys;
      while todo != {}
        invariant todo <= taken.Keys && features2 == map[]
        invariant MergedBut(before, taken, todo, features)
        decreases |todo|
      {
        var k :| k in todo;
        features := features[k := SortStrings(taken[k])];
        todo := todo - {k};
      }
      MergedAll(before, taken, features);
    }
  }

  /** All of `taken` but `todo` has been merged into `before`. */
  ghost predicate MergedBut(before: map<string, seq<string>>, taken: map<string, seq<string>>, todo: set<string>,
                            now: map<string, seq<string>>) {
    (forall k :: k in now <==> k in before || (k in taken && k !in todo)) &&
    forall k | k in now :: now[k] == if k in taken && k !in todo then SortStrings(taken[k]) else before[k]
  }

  lemma MergedAll(before: map<string, seq<string>>, taken: map<string, seq<string>>, now: map<string, seq<string>>)
    requires MergedBut(before, taken, {}, now)
    ensures now == NormalFeatures(before, taken)
  {
  }

  // ---- What normalizing means ----

  lemma SortStringsIdempotent(xs: seq<string>)
    ensures SortStrings(SortStrings(xs)) == SortStrings(xs)
  {
    StringsOrdered();
    SortIdempotent(xs, Itself, CompareString);
  }

  /** Sorting strings forgets their order and nothing else. */
  lemma SortStringsExactly(xs: seq<string>, ys: seq<string>)
    ensures SortStrings(xs) == SortStrings(ys) <==> multiset(xs) == multiset(ys)
  {
    StringsOrdered();
    SortPermutesAndSorts(xs, Itself, CompareString);
    SortPermutesAndSorts(ys, Itself, CompareString);
    if multiset(xs) == multiset(ys) {
      forall k ensures WithKey(xs, Itself, k) == WithKey(ys, Itself, k) {
        WithItself(xs, k);
        WithItself(ys, k);
      }
      SameByKeySortsAlike(xs, ys, Itself, CompareString);
    }
  }

  ghost function Repeat(k: string, n: nat): seq<string> {
    if n == 0 then [] else Repeat(k, n - 1) + [k]
  }

  lemma {:induction false} WithItself(xs: seq<string>, k: string)
    ensures WithKey(xs, Itself, k) == Repeat(k, multiset(xs)[k])
  {
    if xs != [] {
      var n := |xs| - 1;
      WithItself(xs[..n], k);
      assert xs == xs[..n] + [xs[n]];
      assert multiset(xs)[k] == multiset(xs[..n])[k] + if xs[n] == k then 1 else 0;
    }
  }

  lemma SortedFeaturesIdempotent(deps: seq<Dependency>)
    requires forall i | 0 <= i < |deps| :: SortFeatures(deps[i]) == deps[i]
    ensures SortedFeatures(deps) == deps
  {
  }

  lemma NormalDependenciesStay(deps: seq<Dependency>)
    ensures NormalDependencies(NormalDependencies(deps)) == NormalDependencies(deps)
  {
    KeysOrdered();
    var sorted := SortedFeatures(deps);
    var normal := NormalDependencies(deps);
    SortPermutesAndSorts(sorted, KeyOf, CompareKey);
    forall i | 0 <= i < |normal| ensures SortFeatures(normal[i]) == normal[i] {
      assert normal[i] in multiset(sorted);
      var j :| 0 <= j < |sorted| && sorted[j] == normal[i];
      SortStringsIdempotent(deps[j].features);
    }
    SortedFeaturesIdempotent(normal);
    SortIdempotent(sorted, KeyOf, CompareKey);
  }

  /** Normalizing twice is normalizing once, and leaves nothing in `features2`. */
  lemma NormalizeIdempotent(e: CrateVersion)
    ensures Normalized(Normalized(e)) == Normalized(e) && Normalized(e).features2 == map[]
  {
    NormalDependenciesStay(e.deps);
    var features := Normalized(e).features;
    assert NormalFeatures(features, map[]) == features;
  }

  /** No dependency is lost or made up: each keeps its features as a multiset and everything else as it is. */
  lemma DependenciesPermuted(e: CrateVersion)
    ensures multiset(Normalized(e).deps) == multiset(SortedFeatures(e.deps))
    ensures forall i | 0 <= i < |e.deps| ::
              SortedFeatures(e.deps)[i].(features := e.deps[i].features) == e.deps[i] &&
              multiset(SortedFeatures(e.deps)[i].features) == multiset(e.deps[i].features)
  {
    KeysOrdered();
    StringsOrdered();
    SortPermutesAndSorts(SortedFeatures(e.deps), KeyOf, CompareKey);
    forall i | 0 <= i < |e.deps|
      ensures multiset(SortedFeatures(e.deps)[i].features) == multiset(e.deps[i].features)
    {
      SortPermutesAndSorts(e.deps[i].features, Itself, CompareString);
    }
  }

  /** Two permutations of dependencies with pairwise distinct keys get one form. */
  lemma PermutedDependenciesMeet(deps: seq<Dependency>, deps': seq<Dependency>)
    requires multiset(SortedFeatures(deps)) == multiset(SortedFeatures(deps'))
    requires DistinctKeys(deps, KeyOf) && DistinctKeys(deps', KeyOf)
    ensures NormalDependencies(deps) == NormalDependencies(deps')
  {
    KeysOrdered();
    PermutationsSortAlike(SortedFeatures(deps), SortedFeatures(deps'), KeyOf, CompareKey);
  }

  /** The value a feature name ends up with, before `normalize` sorts any. */
  function Merged(e: CrateVersion): map<string, seq<string>> {
    e.features + e.features2
  }

  /** Same entries up to the order of dependencies and of every list of features. */
  ghost predicate Equivalent(a: CrateVersion, b: CrateVersion) {
    a.(deps := b.deps, features := b.features, features2 := b.features2) == b &&
    multiset(SortedFeatures(a.deps)) == multiset(SortedFeatures(b.deps)) &&
    Merged(a).Keys == Merged(b).Keys &&
    forall k | k in Merged(a) :: multiset(Merged(a)[k]) == multiset(Merged(b)[k])
  }

  /** A list taken from `features2` is sorted by `normalize`, a list from `features` is not: they meet if they are
      both sorted or otherwise the same already. */
  ghost predicate ListsMeet(a: CrateVersion, b: CrateVersion, k: string)
    requires k in Merged(a) && k in Merged(b)
  {
    if k in a.features2 && k in b.features2 then true
    else if k in a.features2 then SortStrings(b.features[k]) == b.features[k]
    else if k in b.features2 then SortStrings(a.features[k]) == a.features[k]
    else a.features[k] == b.features[k]
  }

  lemma FeatureListsMeet(a: CrateVersion, b: CrateVersion, k: string)
    requires Equivalent(a, b) && k in Merged(a)
    ensures k in Normalized(a).features && k in Normalized(b).features
    ensures Normalized(a).features[k] == Normalized(b).features[k] <==> ListsMeet(a, b, k)
  {
    assert k in Merged(b);
    SortStringsExactly(Merged(a)[k], Merged(b)[k]);
  }

  ghost predicate AllListsMeet(a: CrateVersion, b: CrateVersion) {
    forall k | k in Merged(a) :: k in Merged(b) && ListsMeet(a, b, k)
  }

  lemma FeaturesMeetExactly(a: CrateVersion, b: CrateVersion)
    requires Equivalent(a, b)
    ensures Normalized(a).features == Normalized(b).features <==> AllListsMeet(a, b)
  {
    var fa, fb := Normalized(a).features, Normalized(b).features;
    assert fa.Keys == Merged(a).Keys && fb.Keys == Merged(b).Keys;
    if AllListsMeet(a, b) {
      forall k | k in fa ensures fa[k] == fb[k] {
        FeatureListsMeet(a, b, k);
      }
    } else {
      var k :| k in Merged(a) && !ListsMeet(a, b, k);
      FeatureListsMeet(a, b, k);
    }
  }

  /** The purpose of `normalize` is to make equivalent entries identical. It does so exactly for those that agree on
      the lists it does not sort and on the order of dependencies with one sort key. */
  lemma EquivalentMeetExactly(a: CrateVersion, b: CrateVersion)
    requires Equivalent(a, b)
    ensures Normalized(a) == Normalized(b) <==>
            AllListsMeet(a, b) && SameByKey(SortedFeatures(a.deps), SortedFeatures(b.deps), KeyOf)
  {
    KeysOrdered();
    SortsAlikeExactly(SortedFeatures(a.deps), SortedFeatures(b.deps), KeyOf, CompareKey);
    FeaturesMeetExactly(a, b);
  }

  /** Equivalent entries need not meet: the order of a list in `features` survives. */
  lemma PlainFeaturesStayUnsorted(e: CrateVersion)
    ensures var a := e.(features := map["default" := ["std", "alloc"]], features2 := map[]);
            var b := e.(features := map["default" := ["alloc", "std"]], features2 := map[]);
            Equivalent(a, b) && Normalized(a) != Normalized(b)
  {
    var a := e.(features := map["default" := ["std", "alloc"]], features2 := map[]);
    var b := e.(features := map["default" := ["alloc", "std"]], features2 := map[]);
    assert multiset(["std", "alloc"]) == multiset(["alloc", "std"]);
    assert Merged(a) == a.features && Merged(b) == b.features;
    assert a.features["default"][0] != b.features["default"][0];
    assert !ListsMeet(a, b, "default");
    FeatureListsMeet(a, b, "default");
  }

  // ---- The order, spelled out ----

  /** The first difference is a smaller character, or the end. */
  ghost predicate StringLess(a: string, b: string) {
    exists i | 0 <= i <= |a| && i < |b| :: a[..i] == b[..i] && (i == |a| || a[i] < b[i])
  }

  ghost predicate OptionLess(a: Option<string>, b: Option<string>) {
    b.Some? && (a.None? || StringLess(a.value, b.value))
  }

  ghost predicate KindLess(a: DependencyKind, b: DependencyKind) {
    (a, b) == (Normal, Dev) || (a, b) == (Normal, Build) || (a, b) == (Dev, Build)
  }

  /** By registry, then name, package, requirement, kind and target. */
  ghost predicate DependencyLess(a: Dependency, b: Dependency) {
    OptionLess(a.registry, b.registry) || (a.registry == b.registry &&
    (StringLess(a.name, b.name) || (a.name == b.name &&
    (OptionLess(a.package, b.package) || (a.package == b.package &&
    (StringLess(a.req, b.req) || (a.req == b.req &&
    (KindLess(a.kind, b.kind) || (a.kind == b.kind && OptionLess(a.target, b.target))))))))))
  }

  lemma {:induction false} StringLessExactly(a: string, b: string)
    ensures CompareString(a, b) == Less <==> StringLess(a, b)
  {
    if b == "" {
    } else if a == "" {
      assert a[..0] == b[..0];
    } else if a[0] != b[0] {
      if a[0] < b[0] {
        assert a[..0] == b[..0];
      }
      forall i | 0 < i <= |a| && i < |b| ensures a[..i] != b[..i] {
        assert a[..i][0] == a[0] && b[..i][0] == b[0];
      }
    } else {
      StringLessExactly(a[1..], b[1..]);
      if i :| 0 <= i <= |a| && i < |b| && a[..i] == b[..i] && (i == |a| || a[i] < b[i]) {
        assert i > 0 && a[1..][..i - 1] == a[..i][1..] && b[1..][..i - 1] == b[..i][1..];
      }
      if i :| 0 <= i <= |a[1..]| && i < |b[1..]| && a[1..][..i] == b[1..][..i] &&
              (i == |a[1..]| || a[1..][i] < b[1..][i]) {
        assert a[..i + 1] == [a[0]] + a[1..][..i] && b[..i + 1] == [b[0]] + b[1..][..i];
      }
    }
  }

  lemma OptionLessExactly(a: Option<string>, b: Option<string>)
    ensures CompareOption(a, b) == Less <==> OptionLess(a, b)
    ensures CompareOption(a, b) == Equal <==> a == b
  {
    if a.Some? && b.Some? {
      StringLessExactly(a.value, b.value);
      CompareStringEqual(a.value, b.value);
    }
  }

  lemma DependencyLessExactly(a: Dependency, b: Dependency)
    ensures CompareKey(KeyOf(a), KeyOf(b)) == Less <==> DependencyLess(a, b)
  {
    OptionLessExactly(a.registry, b.registry);
    StringLessExactly(a.name, b.name);
    CompareStringEqual(a.name, b.name);
    OptionLessExactly(a.package, b.package);
    StringLessExactly(a.req, b.req);
    CompareStringEqual(a.req, b.req);
    OptionLessExactly(a.target, b.target);
  }

  lemma SortedAscends(xs: seq<string>)
    ensures var ys := SortStrings(xs);
            multiset(ys) == multiset(xs) && forall i, j | 0 <= i < j < |ys| :: !StringLess(ys[j], ys[i])
  {
    StringsOrdered();
    SortPermutesAndSorts(xs, Itself, CompareString);
    var ys := SortStrings(xs);
    forall i, j | 0 <= i < j < |ys| ensures !StringLess(ys[j], ys[i]) {
      StringLessExactly(ys[j], ys[i]);
      assert CompareString(Itself(ys[i]), Itself(ys[j])) != Greater;
    }
  }

  /** The normal list of dependencies ascends. */
  lemma DependenciesAscend(e: CrateVersion)
    ensures var deps := Normalized(e).deps; forall i, j | 0 <= i < j < |deps| :: !DependencyLess(deps[j], deps[i])
  {
    KeysOrdered();
    var deps := Normalized(e).deps;
    SortPermutesAndSorts(SortedFeatures(e.deps), KeyOf, CompareKey);
    forall i, j | 0 <= i < j < |deps| ensures !DependencyLess(deps[j], deps[i]) {
      DependencyLessExactly(deps[j], deps[i]);
      assert CompareKey(KeyOf(deps[i]), KeyOf(deps[j])) != Greater;
    }
  }

  /** The lists of `features2` win and are sorted; any other list of `features` stays as it is. */
  lemma FeaturesMerged(e: CrateVersion, k: string)
    ensures k in Normalized(e).features <==> k in e.features || k in e.features2
    ensures k in e.features && k !in e.features2 ==> Normalized(e).features[k] == e.features[k]
    ensures k in e.features2 ==>
              var ys := Normalized(e).features[k];
              multiset(ys) == multiset(e.features2[k]) && forall i, j | 0 <= i < j < |ys| :: !StringLess(ys[j], ys[i])
  {
    if k in e.features2 {
      SortedAscends(e.features2[k]);
    }
  }

  /** So are the feature lists of each dependency. */
  lemma DependencyFeaturesAscend(d: Dependency)
    ensures var ys := SortFeatures(d).features;
            multiset(ys) == multiset(d.features) && forall i, j | 0 <= i < j < |ys| :: !StringLess(ys[j], ys[i])
    ensures SortFeatures(d).(features := d.features) == d
  {
    SortedAscends(d.features);
  }
}
