/** `ensure_correct_metadata`: drop feature actions that name nothing, and make the names they used exist. */
module FeatureRepair {
  import opened RegistryTypes

  // ---- What a repaired entry is ----

  function Features(e: CrateVersion): set<string> {
    e.features.Keys + e.features2.Keys
  }

  predicate IsDependency(e: CrateVersion, name: string) {
    exists i | 0 <= i < |e.deps| :: e.deps[i].name == name
  }

  function StripDep(action: string): string {
    if "dep:" <= action then action[4..] else action
  }

  /** The part before the first `?` or `/`. */
  function CutAtMark(s: string): string {
    if s == "" || s[0] == '?' || s[0] == '/' then "" else [s[0]] + CutAtMark(s[1..])
  }

  /** The dependency an action is about: `dep:serde` and `serde?/std` are about `serde`. */
  function Base(action: string): string {
    CutAtMark(StripDep(action))
  }

  predicate Survives(e: CrateVersion, action: string) {
    action in Features(e) || IsDependency(e, Base(action))
  }

  function Kept(e: CrateVersion, actions: seq<string>): seq<string> {
    if actions == [] then []
    else
      var n := |actions| - 1;
      Kept(e, actions[..n]) + if Survives(e, actions[n]) then [actions[n]] else []
  }

  /** The base names of dropped actions that are no feature yet. */
  function Missing(e: CrateVersion, actions: seq<string>): seq<string> {
    if actions == [] then []
    else
      var n := |actions| - 1;
      Missing(e, actions[..n]) +
      if !Survives(e, actions[n]) && Base(actions[n]) !in Features(e) then [Base(actions[n])] else []
  }

  function KeptLists(e: CrateVersion, lists: map<string, seq<string>>): map<string, seq<string>> {
    map k | k in lists :: Kept(e, lists[k])
  }

  ghost function MissingNames(e: CrateVersion, lists: map<string, seq<string>>): set<string> {
    set k, name | k in lists && name in Missing(e, lists[k]) :: name
  }

  ghost function NewFeatures(e: CrateVersion): set<string> {
    MissingNames(e, e.features) + MissingNames(e, e.features2)
  }

  ghost function Repaired(e: CrateVersion): CrateVersion {
    e.(features := KeptLists(e, e.features) + (map name | name in NewFeatures(e) :: []),
       features2 := KeptLists(e, e.features2))
  }

  // ---- The code ----

  predicate IsMark(c: char) {
    c == '?' || c == '/'
  }

  lemma {:induction false} CutIsPrefix(s: string, i: nat)
    requires i <= |s| && forall j | 0 <= j < i :: !IsMark(s[j])
    requires i < |s| ==> IsMark(s[i])
    ensures CutAtMark(s) == s[..i]
  {
    if i > 0 {
      CutIsPrefix(s[1..], i - 1);
      assert s[..i] == [s[0]] + s[1..][..i - 1];
    }
  }

  /** `action` speaks of `n`: the name, after `dep:` or alone, and nothing else before the end, a `?` or a `/`. */
  ghost predicate IsAbout(action: string, n: string, t: string) {
    '?' !in n && '/' !in n && (t == "" || t[0] == '?' || t[0] == '/') &&
    (action == "dep:" + n + t || (action == n + t && !("dep:" <= action)))
  }

  lemma {:induction false} CutJoined(n: string, t: string)
    requires '?' !in n && '/' !in n && IsTail(t)
    ensures CutAtMark(n + t) == n
  {
    if n == "" {
      assert n + t == t;
    } else {
      CutJoined(n[1..], t);
      assert (n + t)[1..] == n[1..] + t;
      assert n == [n[0]] + n[1..];
    }
  }

  lemma AboutOne(action: string, n: string, t: string)
    requires IsAbout(action, n, t)
    ensures Base(action) == n
  {
    CutJoined(n, t);
    if action == "dep:" + n + t {
      assert action == "dep:" + (n + t);
      assert StripDep(action) == n + t;
    }
  }

  ghost predicate IsTail(t: string) {
    t == "" || t[0] == '?' || t[0] == '/'
  }

  lemma {:induction false} CutSplits(s: string)
    ensures |CutAtMark(s)| <= |s| && CutAtMark(s) == s[..|CutAtMark(s)|] && IsTail(s[|CutAtMark(s)|..])
    ensures '?' !in CutAtMark(s) && '/' !in CutAtMark(s)
  {
    if !IsTail(s) {
      var n := |CutAtMark(s[1..])|;
      CutSplits(s[1..]);
      assert s[1..][n..] == s[n + 1..];
      assert s[..n + 1] == [s[0]] + s[1..][..n];
    }
  }

  lemma BaseIsAbout(action: string)
    ensures exists t :: IsAbout(action, Base(action), t)
  {
    var stripped := StripDep(action);
    CutSplits(stripped);
    var t := stripped[|Base(action)|..];
    assert stripped == Base(action) + t;
    if "dep:" <= action {
      assert action == "dep:" + action[4..];
      assert action == "dep:" + Base(action) + t;
    }
    assert IsAbout(action, Base(action), t);
  }

  method CutAction(action: string) returns (base: string)
    ensures base == Base(action)
    ensures forall n, t | IsAbout(action, n, t) :: base == n
    ensures exists t :: IsAbout(action, base, t)
  {
    forall n, t | IsAbout(action, n, t) ensures Base(action) == n {
      AboutOne(action, n, t);
    }
    BaseIsAbout(action);
    var stripped := if "dep:" <= action then action[4..] else action;
    var i := 0;
    while i < |stripped| && !IsMark(stripped[i])
      invariant 0 <= i <= |stripped|
      invariant forall j | 0 <= j < i :: !IsMark(stripped[j])
    {
      i := i + 1;
    }
    CutIsPrefix(stripped, i);
    return stripped[..i];
  }

  method AnyDependency(e: CrateVersion, name: string) returns (found: bool)
    ensures found == IsDependency(e, name)
  {
    for i := 0 to |e.deps|
      invariant forall j | 0 <= j < i :: e.deps[j].name != name
    {
      if e.deps[i].name == name {
        return true;
      }
    }
    return false;
  }

  /** `retain` on one list of actions, noting the missing names. */
  method Retain(e: CrateVersion, validFeatures: set<string>, actions: seq<string>, missing: seq<string>)
    returns (kept: seq<string>, missing': seq<string>)
    requires validFeatures == Features(e)
    ensures kept == Kept(e, actions) && missing' == missing + Missing(e, actions)
  {
    kept, missing' := [], missing;
    for i := 0 to |actions|
      invariant kept == Kept(e, actions[..i]) && missing' == missing + Missing(e, actions[..i])
    {
      assert actions[..i + 1][..i] == actions[..i];
      var keep := true;
      if actions[i] !in validFeatures {
        var action := CutAction(actions[i]);
        var isDependency := AnyDependency(e, action);
        if !isDependency {
          if action !in validFeatures {
            missing' := missing' + [action];
          }
          keep := false;
        }
      }
      if keep {
        kept := kept + [actions[i]];
      }
    }
    assert actions[..|actions|] == actions;
  }

  /** One pass over the values of a feature table, in no particular order. */
  method RetainAll(e: CrateVersion, validFeatures: set<string>, lists: map<string, seq<string>>, missing: seq<string>)
    returns (lists': map<string, seq<string>>, missing': seq<string>)
    requires validFeatures == Features(e)
    ensures lists' == KeptLists(e, lists)
    ensures forall name :: name in missing' <==> name in missing || name in MissingNames(e, lists)
  {
    lists', missing' := lists, missing;
    var todo := lists.Keys;
    while todo != {}
      invariant todo <= lists.Keys && lists'.Keys == lists.Keys
      invariant forall k | k in lists :: lists'[k] == if k in todo then lists[k] else Kept(e, lists[k])
      invariant forall name :: name in missing' <==>
                  name in missing || exists k :: k in lists && k !in todo && name in Missing(e, lists[k])
      decreases |todo|
    {
      var k :| k in todo;
      var kept, more := Retain(e, validFeatures, lists[k], missing');
      MoreMissing(e, lists, todo, k, missing, missing', more);
      lists', missing', todo := lists'[k := kept], more, todo - {k};
    }
  }

  lemma MoreMissing(e: CrateVersion, lists: map<string, seq<string>>, todo: set<string>, k: string,
                    start: seq<string>, before: seq<string>, after: seq<string>)
    requires k in todo && k in lists && after == before + Missing(e, lists[k])
    requires forall name :: name in before <==>
               name in start || exists j :: j in lists && j !in todo && name in Missing(e, lists[j])
    ensures forall name :: name in after <==>
              name in start || exists j :: j in lists && j !in todo - {k} && name in Missing(e, lists[j])
  {
    forall name
      ensures name in after <==>
        name in start || exists j :: j in lists && j !in todo - {k} && name in Missing(e, lists[j])
    {
      if name in Missing(e, lists[k]) {
        assert k !in todo - {k};
      }
    }
  }

  ghost predicate RepairedIn(before: seq<CrateVersion>, after: seq<CrateVersion>, i: int)
    requires 0 <= i < |before| == |after|
  {
    after[i] == Repaired(before[i])
  }

  /** Every entry of the list is repaired where it stands. */
  method EnsureCorrectMetadata(entries: array<CrateVersion>)
    modifies entries
    ensures forall i | 0 <= i < entries.Length :: RepairedIn(old(entries[..]), entries[..], i)
  {
    for n := 0 to entries.Length
      invariant forall i | 0 <= i < n :: RepairedIn(old(entries[..]), entries[..], i)
      invariant forall i | n <= i < entries.Length :: entries[i] == old(entries[i])
    {
      ghost var before := entries[..];
      var e := RepairEntry(entries[n]);
      entries[n] := e;
      assert entries[..] == before[n := e];
      forall i | 0 <= i < n ensures RepairedIn(old(entries[..]), entries[..], i) {
        assert RepairedIn(old(entries[..]), before, i);
      }
    }
  }

  method RepairEntry(e: CrateVersion) returns (r: CrateVersion)
    ensures r == Repaired(e)
  {
    var validFeatures := e.features.Keys + e.features2.Keys;
    var features, missing := RetainAll(e, validFeatures, e.features, []);
    var features2, missingFeatures := RetainAll(e, validFeatures, e.features2, missing);
    var completed := AddMissing(features, missingFeatures);
    RepairedParts(e, missingFeatures, completed);
    r := e.(features := completed, features2 := features2);
  }

  /** `entry(f).or_insert_with(Vec::new)` for each name. */
  method AddMissing(features: map<string, seq<string>>, missingFeatures: seq<string>)
    returns (r: map<string, seq<string>>)
    ensures forall k :: k in r <==> k in features || k in missingFeatures
    ensures forall k | k in r :: r[k] == if k in features then features[k] else []
  {
    r := features;
    for i := 0 to |missingFeatures|
      invariant forall k :: k in r <==> k in features || k in missingFeatures[..i]
      invariant forall k | k in r :: r[k] == if k in features then features[k] else []
    {
      if missingFeatures[i] !in r {
        r := r[missingFeatures[i] := []];
      }
    }
  }

  lemma RepairedParts(e: CrateVersion, missing: seq<string>, features: map<string, seq<string>>)
    requires forall name :: name in missing <==>
               name in MissingNames(e, e.features) || name in MissingNames(e, e.features2)
    requires forall k :: k in features <==> k in KeptLists(e, e.features) || k in missing
    requires forall k | k in features ::
               features[k] == if k in KeptLists(e, e.features) then KeptLists(e, e.features)[k] else []
    ensures features == Repaired(e).features
  {
    NewFeaturesAreNew(e);
  }

  lemma {:induction false} MissingIsNew(e: CrateVersion, actions: seq<string>)
    ensures forall name | name in Missing(e, actions) :: name !in Features(e)
  {
    if actions == [] {
    } else {
      MissingIsNew(e, actions[..|actions| - 1]);
    }
  }

  lemma NewFeaturesAreNew(e: CrateVersion)
    ensures NewFeatures(e) !! Features(e)
  {
    forall name | name in NewFeatures(e) ensures name !in Features(e) {
      if k :| k in e.features && name in Missing(e, e.features[k]) {
        MissingIsNew(e, e.features[k]);
      } else {
        var k :| k in e.features2 && name in Missing(e, e.features2[k]);
        MissingIsNew(e, e.features2[k]);
      }
    }
  }

  // ---- What the repair means ----

  /** The positions of the surviving actions, in order. */
  function KeptAt(e: CrateVersion, actions: seq<string>): seq<nat> {
    if actions == [] then []
    else
      var n := |actions| - 1;
      KeptAt(e, actions[..n]) + if Survives(e, actions[n]) then [n] else []
  }

  lemma {:induction false} KeptAtSurvivors(e: CrateVersion, actions: seq<string>)
    ensures forall k | 0 <= k < |KeptAt(e, actions)| :: KeptAt(e, actions)[k] < |actions|
    ensures forall i: nat | i < |actions| :: i in KeptAt(e, actions) <==> Survives(e, actions[i])
  {
    if actions == [] {
    } else {
      var n := |actions| - 1;
      KeptAtSurvivors(e, actions[..n]);
      assert forall i: nat | i < n :: actions[..n][i] == actions[i];
      assert n !in KeptAt(e, actions[..n]);
    }
  }

  lemma {:induction false} KeptAtIncreases(e: CrateVersion, actions: seq<string>)
    ensures forall j, k | 0 <= j < k < |KeptAt(e, actions)| :: KeptAt(e, actions)[j] < KeptAt(e, actions)[k]
  {
    if actions == [] {
    } else {
      KeptAtIncreases(e, actions[..|actions| - 1]);
      KeptAtSurvivors(e, actions[..|actions| - 1]);
    }
  }

  /** The kept list is the original one read at the positions of the survivors, which are in order. */
  lemma {:induction false} KeptInOrder(e: CrateVersion, actions: seq<string>)
    ensures |Kept(e, actions)| == |KeptAt(e, actions)|
    ensures forall k | 0 <= k < |KeptAt(e, actions)| ::
              KeptAt(e, actions)[k] < |actions| && Kept(e, actions)[k] == actions[KeptAt(e, actions)[k]]
    ensures forall j, k | 0 <= j < k < |KeptAt(e, actions)| :: KeptAt(e, actions)[j] < KeptAt(e, actions)[k]
    ensures forall i: nat | i < |actions| :: i in KeptAt(e, actions) <==> Survives(e, actions[i])
  {
    KeptAtIncreases(e, actions);
    KeptAtSurvivors(e, actions);
    if actions != [] {
      KeptInOrder(e, actions[..|actions| - 1]);
    }
  }

  /** The names added for a list are the bases, not features already, of the actions dropped from it. */
  lemma {:induction false} MissingExactly(e: CrateVersion, actions: seq<string>, name: string)
    ensures name in Missing(e, actions) <==>
            name !in Features(e) &&
            exists i | 0 <= i < |actions| :: !Survives(e, actions[i]) && Base(actions[i]) == name
  {
    if actions == [] {
    } else {
      var n := |actions| - 1;
      MissingExactly(e, actions[..n], name);
      assert actions == actions[..n] + [actions[n]];
    }
  }

  /** No feature is lost, each new one is empty, and the new ones are the names `MissingExactly` describes. */
  lemma KeysAfterRepair(e: CrateVersion)
    ensures Repaired(e).features.Keys == e.features.Keys + NewFeatures(e)
    ensures Repaired(e).features2.Keys == e.features2.Keys
    ensures forall name | name in NewFeatures(e) :: Repaired(e).features[name] == []
    ensures forall k | k in e.features :: Repaired(e).features[k] == Kept(e, e.features[k])
    ensures forall k | k in e.features2 :: Repaired(e).features2[k] == Kept(e, e.features2[k])
    ensures Repaired(e).(features := e.features, features2 := e.features2) == e
  {
    NewFeaturesAreNew(e);
  }

  lemma {:induction false} SecondPassKeeps(e: CrateVersion, e': CrateVersion, actions: seq<string>)
    requires Features(e) <= Features(e') && e'.deps == e.deps
    ensures Kept(e', Kept(e, actions)) == Kept(e, actions) && Missing(e', Kept(e, actions)) == []
  {
    if actions == [] {
    } else {
      var n := |actions| - 1;
      var front := Kept(e, actions[..n]);
      SecondPassKeeps(e, e', actions[..n]);
      if Survives(e, actions[n]) {
        assert (front + [actions[n]])[..|front|] == front;
      } else {
        assert Kept(e, actions) == front;
      }
    }
  }

  /** In a repaired entry nothing is left to drop or to add. */
  lemma RepairedIsClean(e: CrateVersion, k: string)
    requires k in Repaired(e).features
    ensures Clean(Repaired(e), Repaired(e).features[k])
  {
    KeysAfterRepair(e);
    if k in e.features {
      SecondPassKeeps(e, Repaired(e), e.features[k]);
    }
  }

  lemma RepairedIsClean2(e: CrateVersion, k: string)
    requires k in Repaired(e).features2
    ensures Clean(Repaired(e), Repaired(e).features2[k])
  {
    KeysAfterRepair(e);
    SecondPassKeeps(e, Repaired(e), e.features2[k]);
  }

  predicate Clean(e: CrateVersion, actions: seq<string>) {
    Kept(e, actions) == actions && Missing(e, actions) == []
  }

  lemma CleanListsStay(e: CrateVersion, lists: map<string, seq<string>>)
    requires forall k | k in lists :: Clean(e, lists[k])
    ensures KeptLists(e, lists) == lists && MissingNames(e, lists) == {}
  {
  }

  lemma CleanStays(e: CrateVersion)
    requires forall k | k in e.features :: Clean(e, e.features[k])
    requires forall k | k in e.features2 :: Clean(e, e.features2[k])
    ensures Repaired(e) == e
  {
    CleanListsStay(e, e.features);
    CleanListsStay(e, e.features2);
  }

  /** Repairing twice is repairing once. */
  lemma RepairIdempotent(e: CrateVersion)
    ensures Repaired(Repaired(e)) == Repaired(e)
  {
    var e' := Repaired(e);
    forall k | k in e'.features
      ensures Clean(e', e'.features[k])
    {
      RepairedIsClean(e, k);
    }
    forall k | k in e'.features2
      ensures Clean(e', e'.features2[k])
    {
      RepairedIsClean2(e, k);
    }
    CleanStays(e');
  }

  // ---- The actions that stay ----

  /** An action survives exactly if it is itself a feature, or speaks of a dependency. */
  lemma SurvivesExactly(e: CrateVersion, action: string)
    ensures Survives(e, action) <==>
            action in e.features || action in e.features2 ||
            exists i, t | 0 <= i < |e.deps| :: IsAbout(action, e.deps[i].name, t)
  {
    BaseIsAbout(action);
    var t :| IsAbout(action, Base(action), t);
    if i :| 0 <= i < |e.deps| && e.deps[i].name == Base(action) {
      assert IsAbout(action, e.deps[i].name, t);
    }
    forall i, u | 0 <= i < |e.deps| && IsAbout(action, e.deps[i].name, u) ensures e.deps[i].name == Base(action) {
      AboutOne(action, e.deps[i].name, u);
    }
  }

  /** The three ways to speak of a dependency `n`. */
  lemma WaysToSpeak(n: string, f: string)
    requires '?' !in n && '/' !in n && !("dep:" <= n)
    ensures IsAbout("dep:" + n, n, "")
    ensures IsAbout(n + "/" + f, n, "/" + f)
    ensures IsAbout(n + "?/" + f, n, "?/" + f)
  {
    NoPrefix(n, "/" + f);
    NoPrefix(n, "?/" + f);
    assert "dep:" + n == "dep:" + n + "";
    assert n + "/" + f == n + ("/" + f) && n + "?/" + f == n + ("?/" + f);
  }

  lemma NoPrefix(n: string, t: string)
    requires !("dep:" <= n) && t != "" && (t[0] == '?' || t[0] == '/')
    ensures !("dep:" <= n + t)
  {
    if |n| < 4 {
      assert (n + t)[|n|] == t[0] && "dep:"[|n|] != t[0];
    } else {
      assert (n + t)[..4] == n[..4];
    }
  }

  /** An action that speaks of a dependency stays in its list, and nothing is added for it. */
  lemma DependencyActionsStay(e: CrateVersion, k: string, action: string, i: nat, t: string)
    requires k in e.features && action in e.features[k] && i < |e.deps| && IsAbout(action, e.deps[i].name, t)
    ensures action in Repaired(e).features[k] && Missing(e, [action]) == []
  {
    SurvivesExactly(e, action);
    KeysAfterRepair(e);
    SurvivorsStay(e, e.features[k], action);
    assert [action][..0] == [];
  }

  lemma {:induction false} SurvivorsStay(e: CrateVersion, actions: seq<string>, action: string)
    requires action in actions
    ensures action in Kept(e, actions) <==> Survives(e, action)
  {
    KeptInOrder(e, actions);
    if Survives(e, action) {
      var i: nat :| i < |actions| && actions[i] == action;
      assert i in KeptAt(e, actions);
    }
  }

  /** An action that is no feature and speaks of no dependency. */
  ghost predicate IsStray(e: CrateVersion, action: string, n: string, t: string) {
    IsAbout(action, n, t) && action !in e.features && action !in e.features2 &&
    forall i | 0 <= i < |e.deps| :: e.deps[i].name != n
  }

  lemma StrayDies(e: CrateVersion, action: string, n: string, t: string)
    requires IsStray(e, action, n, t)
    ensures !Survives(e, action) && Base(action) == n
  {
    AboutOne(action, n, t);
  }

  lemma StrayNameAdded(e: CrateVersion, k: string, action: string, n: string, t: string)
    requires k in e.features && action in e.features[k] && IsStray(e, action, n, t) && n !in Features(e)
    ensures n in NewFeatures(e)
  {
    StrayDies(e, action, n, t);
    MissingExactly(e, e.features[k], n);
    assert n in Missing(e, e.features[k]);
    assert n in MissingNames(e, e.features);
  }

  /** It goes, and the name it speaks of is a feature afterwards. */
  lemma StrayActionsGo(e: CrateVersion, k: string, action: string, n: string, t: string)
    requires k in e.features && action in e.features[k] && IsStray(e, action, n, t)
    ensures action !in Repaired(e).features[k]
    ensures n in Repaired(e).features || n in Repaired(e).features2
  {
    StrayDies(e, action, n, t);
    KeysAfterRepair(e);
    SurvivorsStay(e, e.features[k], action);
    if n !in Features(e) {
      StrayNameAdded(e, k, action, n, t);
    }
  }
}
