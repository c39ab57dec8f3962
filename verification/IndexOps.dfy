/** An index file as records, and what each request does to it when nothing runs beside it. */
module IndexOps {
  import opened Bytes
  import opened RegistryTypes
  import opened SemVer
  import opened Wrappers

  datatype IndexFile = IndexFile(entries: seq<CrateVersion>, latest: Option<Publish>)

  datatype IndexError = Conflict | CrateNameNotAllowed | NotFound | ServiceError

  datatype Op =
    | PublishCrate(publish: Publish, cksum: Checksum, tarball: seq<Byte>)
    | SetYank(name: string, vers: Version, yank: bool)
    | ReadEntries(name: string)

  /** What a request comes to: a new file, an answer, or a refusal. */
  datatype Verdict = Commit(file: IndexFile) | Answer(file: IndexFile) | Refuse(error: IndexError)

  function CrateNameOf(op: Op): string {
    match op
    case PublishCrate(publish, _, _) => publish.name
    case SetYank(name, _, _) => name
    case ReadEntries(name) => name
  }

  predicate IsWriter(op: Op) {
    !op.ReadEntries?
  }

  /** The index speaks of a renamed dependency by its alias, the publisher by its package. */
  function DependencyOf(d: PublishDependency): Dependency {
    var name := if d.explicitNameInToml.Some? then d.explicitNameInToml.value else d.name;
    var package := if d.explicitNameInToml.Some? then Some(d.name) else None;
    Dependency(name, d.versionReq, d.features, d.optional, d.defaultFeatures, d.target, d.kind, d.registry, package)
  }

  /** What `DependencyOf` was made from. */
  function PublishedFrom(d: Dependency): PublishDependency {
    PublishDependency(if d.package.Some? then d.package.value else d.name, d.req, d.features, d.optional,
                      d.defaultFeatures, d.target, d.kind, d.registry,
                      if d.package.Some? then Some(d.name) else None)
  }

  /** Alias and package change places, and nothing of a published dependency is lost. */
  lemma DependencyRoundTrip(d: PublishDependency)
    ensures PublishedFrom(DependencyOf(d)) == d
  {
  }

  /** The index's name for a dependency is the one in the publisher's manifest; everything else is copied. */
  lemma DependencyFields(d: PublishDependency)
    ensures var r := DependencyOf(d);
            r.req == d.versionReq && r.features == d.features && r.optional == d.optional &&
            r.defaultFeatures == d.defaultFeatures && r.target == d.target && r.kind == d.kind &&
            r.registry == d.registry
    ensures d.explicitNameInToml.None? ==> DependencyOf(d).name == d.name && DependencyOf(d).package == None
    ensures d.explicitNameInToml.Some? ==>
              Some(DependencyOf(d).name) == d.explicitNameInToml && DependencyOf(d).package == Some(d.name)
  {
  }

  function DependenciesOf(deps: seq<PublishDependency>): (r: seq<Dependency>)
    ensures |r| == |deps|
  {
    seq(|deps|, i requires 0 <= i < |deps| => DependencyOf(deps[i]))
  }

  function ReleaseOf(p: Publish, cksum: Checksum): CrateVersion {
    CrateVersion(p.name, p.vers, DependenciesOf(p.deps), cksum, p.features, false, p.links, 2, map[])
  }

  /** A new release, field by field. */
  lemma ReleaseFields(p: Publish, cksum: Checksum)
    ensures var e := ReleaseOf(p, cksum);
            e.name == p.name && e.vers == p.vers && e.cksum == cksum && e.features == p.features && !e.yanked &&
            e.links == p.links && e.v == 2 && e.features2 == map[] && |e.deps| == |p.deps| &&
            forall i | 0 <= i < |p.deps| :: e.deps[i] == DependencyOf(p.deps[i])
  {
  }

  /** `iter().rfind(|v| v.vers == vers)`, as a position. */
  function RFind(entries: seq<CrateVersion>, vers: Version): (r: Option<nat>)
    ensures r.Some? ==> r.value < |entries| && entries[r.value].vers == vers
    ensures r.None? ==> forall i | 0 <= i < |entries| :: entries[i].vers != vers
  {
    if entries == [] then None
    else if entries[|entries| - 1].vers == vers then Some(|entries| - 1)
    else RFind(entries[..|entries| - 1], vers)
  }

  predicate HasVersion(entries: seq<CrateVersion>, vers: Version) {
    exists i | 0 <= i < |entries| :: entries[i].vers == vers
  }

  /** The file at a path, if there is one. */
  function View(files: map<string, IndexFile>, path: string): Option<IndexFile> {
    if path in files then Some(files[path]) else None
  }

  /** The file at `path` has an entry at position `i`. */
  ghost predicate EntryAt(files: map<string, IndexFile>, path: string, i: nat) {
    path in files && i < |files[path].entries|
  }

  function EntriesOf(file: Option<IndexFile>): seq<CrateVersion> {
    if file.None? then [] else file.value.entries
  }

  function Judge(file: Option<IndexFile>, op: Op): Verdict {
    match op
    case PublishCrate(publish, cksum, _) =>
      if HasVersion(EntriesOf(file), publish.vers) then Refuse(Conflict)
      else Commit(IndexFile(EntriesOf(file) + [ReleaseOf(publish, cksum)], Some(publish)))
    case SetYank(_, vers, yank) =>
      if file.None? then Refuse(NotFound)
      else
        var found := RFind(file.value.entries, vers);
        if found.None? then Refuse(NotFound)
        else
          var entries := file.value.entries;
          Commit(IndexFile(entries[found.value := entries[found.value].(yanked := yank)], file.value.latest))
    case ReadEntries(_) =>
      if file.None? then Refuse(NotFound) else Answer(file.value)
  }

  // ---- The history of one file ----

  /** At least one release, no version twice, and the trailing record is the publication of the last release. */
  ghost predicate SoundFile(file: IndexFile) {
    var n := |file.entries|;
    n > 0 && file.latest.Some? &&
    (forall i, j | 0 <= i < j < n :: file.entries[i].vers != file.entries[j].vers) &&
    var last := file.entries[n - 1];
    last == ReleaseOf(file.latest.value, last.cksum).(yanked := last.yanked)
  }

  /** Releases are only ever added at the end, and only their `yanked` flag ever changes. */
  ghost predicate Extends(before: seq<CrateVersion>, after: seq<CrateVersion>) {
    |before| <= |after| &&
    forall i | 0 <= i < |before| :: after[i] == before[i].(yanked := after[i].yanked)
  }

  lemma ExtendsTransitive(a: seq<CrateVersion>, b: seq<CrateVersion>, c: seq<CrateVersion>)
    requires Extends(a, b) && Extends(b, c)
    ensures Extends(a, c)
  {
    forall i | 0 <= i < |a| ensures c[i] == a[i].(yanked := c[i].yanked) {
      assert b[i] == a[i].(yanked := b[i].yanked);
      assert c[i] == b[i].(yanked := c[i].yanked);
    }
  }

  lemma CommitKeepsHistory(file: Option<IndexFile>, op: Op)
    requires file.Some? ==> SoundFile(file.value)
    requires Judge(file, op).Commit?
    ensures SoundFile(Judge(file, op).file)
    ensures Extends(EntriesOf(file), Judge(file, op).file.entries)
  {
  }

  /** In a sound file `rfind` has one candidate: it finds the release with that version wherever it is. */
  lemma RFindIsUnique(file: IndexFile, i: nat)
    requires SoundFile(file) && i < |file.entries|
    ensures RFind(file.entries, file.entries[i].vers) == Some(i)
  {
    var found := RFind(file.entries, file.entries[i].vers);
    assert found.Some?;
  }

  /** A publish is refused as a conflict exactly if its version is there, and otherwise adds its release at the end and
      becomes the trailing publication. */
  lemma PublishExactly(file: Option<IndexFile>, p: Publish, cksum: Checksum, tarball: seq<Byte>)
    ensures var verdict := Judge(file, PublishCrate(p, cksum, tarball));
            var entries := if file.Some? then file.value.entries else [];
            verdict == if exists i | 0 <= i < |entries| :: entries[i].vers == p.vers then Refuse(Conflict)
                       else Commit(IndexFile(entries + [ReleaseOf(p, cksum)], Some(p)))
  {
  }

  /** A read gives the whole file, and is refused as not found exactly if there is none. */
  lemma ReadExactly(file: Option<IndexFile>, name: string)
    ensures Judge(file, ReadEntries(name)) == if file.Some? then Answer(file.value) else Refuse(NotFound)
  {
  }

  /** A yank is refused as not found exactly if the version is not there. In a sound file it sets the version's flag as
      told, and changes no other release, nor anything else of this one, nor the trailing publication. */
  lemma YankExactly(file: Option<IndexFile>, name: string, vers: Version, yank: bool)
    ensures var verdict := Judge(file, SetYank(name, vers, yank));
            var entries := if file.Some? then file.value.entries else [];
            (verdict.Commit? <==> exists i | 0 <= i < |entries| :: entries[i].vers == vers) &&
            (!verdict.Commit? ==> verdict == Refuse(NotFound)) &&
            (verdict.Commit? && SoundFile(file.value) ==>
              |verdict.file.entries| == |entries| && verdict.file.latest == file.value.latest &&
              forall i | 0 <= i < |entries| ::
                verdict.file.entries[i] ==
                  if entries[i].vers == vers then entries[i].(yanked := yank) else entries[i])
  {
    if file.Some? && SoundFile(file.value) {
      if i :| 0 <= i < |file.value.entries| && file.value.entries[i].vers == vers {
        RFindIsUnique(file.value, i);
      }
    }
  }

  /** Two yanks and their undoing: un-yanking what was yanked restores the file. */
  lemma UnyankRestores(file: IndexFile, name: string, vers: Version)
    requires SoundFile(file)
    requires exists i | 0 <= i < |file.entries| :: file.entries[i].vers == vers && !file.entries[i].yanked
    ensures var yanked := Judge(Some(file), SetYank(name, vers, true));
            yanked.Commit? && Judge(Some(yanked.file), SetYank(name, vers, false)) == Commit(file)
  {
    var i :| 0 <= i < |file.entries| && file.entries[i].vers == vers && !file.entries[i].yanked;
    RFindIsUnique(file, i);
    var yanked := Judge(Some(file), SetYank(name, vers, true)).file;
    CommitKeepsHistory(Some(file), SetYank(name, vers, true));
    RFindIsUnique(yanked, i);
    assert yanked.entries[i := file.entries[i]] == file.entries;
  }
}
