/** The keyword tables, and the category tables that have the same shape: names, and links from crates to names. */
module PgTags {
  type Id = nat

  datatype LinkRow = LinkRow(crateId: Id, tag: Id)

  /** A table of unique names and a table of link rows, which may repeat. */
  datatype TagTables = TagTables(names: map<Id, string>, links: map<Id, LinkRow>)

  ghost predicate NamesUnique(names: map<Id, string>) {
    forall i, j | i in names && j in names && names[i] == names[j] :: i == j
  }

  /** Identities come from below `nextId`, names are unique, and links point to names. */
  ghost predicate TagsSound(tags: TagTables, nextId: Id) {
    (forall i | i in tags.names :: i < nextId) && (forall l | l in tags.links :: l < nextId) &&
    NamesUnique(tags.names) && forall l | l in tags.links :: tags.links[l].tag in tags.names
  }

  ghost predicate IsLink(tags: TagTables, l: Id, crateId: Id, name: string) {
    l in tags.links && tags.links[l].crateId == crateId && tags.links[l].tag in tags.names &&
    tags.names[tags.links[l].tag] == name
  }

  /** The crate is linked to the name, by one row or several. */
  ghost predicate Linked(tags: TagTables, crateId: Id, name: string) {
    exists l :: IsLink(tags, l, crateId, name)
  }

  /** The link rows of other crates are the same rows, and no name is lost or changed. */
  ghost predicate OthersKept(tags: TagTables, tags': TagTables, crateId: Id) {
    (forall l | l in tags.links && tags.links[l].crateId != crateId ::
      l in tags'.links && tags'.links[l] == tags.links[l]) &&
    (forall l | l in tags'.links && tags'.links[l].crateId != crateId ::
      l in tags.links && tags.links[l] == tags'.links[l]) &&
    forall i | i in tags.names :: i in tags'.names && tags'.names[i] == tags.names[i]
  }

  /** `get-crate-keywords.sql`: the names of the crate's links, in no particular order. */
  method SelectNames(tags: TagTables, crateId: Id) returns (names: seq<string>)
    ensures forall name :: name in names <==> Linked(tags, crateId, name)
  {
    names := [];
    var todo := tags.links.Keys;
    while todo != {}
      invariant todo <= tags.links.Keys
      invariant forall name :: name in names <==> exists l :: l !in todo && IsLink(tags, l, crateId, name)
      decreases |todo|
    {
      var l :| l in todo;
      ghost var before := names;
      if tags.links[l].crateId == crateId && tags.links[l].tag in tags.names {
        names := names + [tags.names[tags.links[l].tag]];
      }
      todo := todo - {l};
      forall name ensures name in names <==> exists k :: k !in todo && IsLink(tags, k, crateId, name) {
        if IsLink(tags, l, crateId, name) {
          assert name in names;
        }
      }
    }
  }

  /** `insert-keyword.sql`: the id of the name, inserted unless it is there. */
  method InsertName(tags: TagTables, nextId: Id, name: string) returns (tags': TagTables, nextId': Id, id: Id)
    requires TagsSound(tags, nextId)
    ensures TagsSound(tags', nextId') && nextId <= nextId' && id in tags'.names && tags'.names[id] == name
    ensures tags'.links == tags.links
    ensures if name in tags.names.Values then tags' == tags && nextId' == nextId
            else tags'.names == tags.names[nextId := name] && id == nextId && nextId' == nextId + 1
  {
    if name in tags.names.Values {
      id :| id in tags.names && tags.names[id] == name;
      return tags, nextId, id;
    }
    id := nextId;
    return tags.(names := tags.names[id := name]), nextId + 1, id;
  }

  /** `insert-crate-keyword.sql`. */
  function InsertLink(tags: TagTables, nextId: Id, crateId: Id, tag: Id): TagTables {
    tags.(links := tags.links[nextId := LinkRow(crateId, tag)])
  }

  /** `remove-crate-keyword.sql`: every link row of the crate to that name goes. */
  function RemoveLinks(tags: TagTables, crateId: Id, name: string): TagTables {
    tags.(links := map l | l in tags.links &&
                     !(tags.links[l].crateId == crateId && tags.links[l].tag in tags.names &&
                       tags.names[tags.links[l].tag] == name) :: tags.links[l])
  }

  /** What adding has achieved after some names: those not linked at the start are linked now. */
  ghost predicate AddedNames(start: TagTables, tags: TagTables, crateId: Id, done: seq<string>) {
    OthersKept(start, tags, crateId) &&
    forall name :: Linked(tags, crateId, name) <==> Linked(start, crateId, name) || name in done
  }

  /** One turn of the adding loop. */
  method AddOne(start: TagTables, tags: TagTables, nextId: Id, crateId: Id, name: string, ghost done: seq<string>)
    returns (tags': TagTables, nextId': Id)
    requires TagsSound(tags, nextId) && AddedNames(start, tags, crateId, done)
    ensures TagsSound(tags', nextId') && nextId <= nextId' && AddedNames(start, tags', crateId, done + [name])
  {
    var named, next, tag := InsertName(tags, nextId, name);
    tags', nextId' := InsertLink(named, next, crateId, tag), next + 1;
    assert IsLink(tags', next, crateId, name);
    forall other ensures Linked(tags', crateId, other) <==> Linked(tags, crateId, other) || other == name {
      forall l | IsLink(tags, l, crateId, other) ensures IsLink(tags', l, crateId, other) {
      }
      forall l | IsLink(tags', l, crateId, other) && other != name ensures IsLink(tags, l, crateId, other) {
      }
    }
  }

  lemma AlreadyAdded(start: TagTables, tags: TagTables, crateId: Id, done: seq<string>, name: string)
    requires AddedNames(start, tags, crateId, done) && Linked(start, crateId, name)
    ensures AddedNames(start, tags, crateId, done + [name])
  {
  }

  /** One turn of the pruning loop. */
  lemma RemoveOne(tags: TagTables, nextId: Id, crateId: Id, name: string)
    requires TagsSound(tags, nextId)
    ensures TagsSound(RemoveLinks(tags, crateId, name), nextId)
    ensures OthersKept(tags, RemoveLinks(tags, crateId, name), crateId)
    ensures forall other :: Linked(RemoveLinks(tags, crateId, name), crateId, other) <==>
              Linked(tags, crateId, other) && other != name
  {
    var tags' := RemoveLinks(tags, crateId, name);
    forall other ensures Linked(tags', crateId, other) <==> Linked(tags, crateId, other) && other != name {
      forall l | IsLink(tags, l, crateId, other) && other != name ensures IsLink(tags', l, crateId, other) {
      }
      forall l | IsLink(tags', l, crateId, other) ensures IsLink(tags, l, crateId, other) && other != name {
      }
    }
  }

  lemma OthersKeptTransitive(a: TagTables, b: TagTables, c: TagTables, crateId: Id)
    requires OthersKept(a, b, crateId) && OthersKept(b, c, crateId)
    ensures OthersKept(a, c, crateId)
  {
  }

  method AddMissing(tags: TagTables, nextId: Id, crateId: Id, existing: seq<string>, wanted: seq<string>)
    returns (tags': TagTables, nextId': Id)
    requires TagsSound(tags, nextId)
    requires forall name :: name in existing <==> Linked(tags, crateId, name)
    ensures TagsSound(tags', nextId') && nextId <= nextId' && AddedNames(tags, tags', crateId, wanted)
  {
    tags', nextId' := tags, nextId;
    for i := 0 to |wanted|
      invariant TagsSound(tags', nextId') && nextId <= nextId' && AddedNames(tags, tags', crateId, wanted[..i])
    {
      assert wanted[..i + 1] == wanted[..i] + [wanted[i]];
      if wanted[i] !in existing {
        tags', nextId' := AddOne(tags, tags', nextId', crateId, wanted[i], wanted[..i]);
      } else {
        AlreadyAdded(tags, tags', crateId, wanted[..i], wanted[i]);
      }
    }
    assert wanted[..|wanted|] == wanted;
  }

  method PruneUnneeded(tags: TagTables, ghost nextId: Id, crateId: Id, existing: seq<string>, wanted: seq<string>)
    returns (tags': TagTables)
    requires TagsSound(tags, nextId)
    ensures TagsSound(tags', nextId) && OthersKept(tags, tags', crateId)
    ensures forall name :: Linked(tags', crateId, name) <==>
              Linked(tags, crateId, name) && !(name in existing && name !in wanted)
  {
    tags' := tags;
    for i := 0 to |existing|
      invariant TagsSound(tags', nextId) && OthersKept(tags, tags', crateId)
      invariant forall name :: Linked(tags', crateId, name) <==>
                  Linked(tags, crateId, name) && !(name in existing[..i] && name !in wanted)
    {
      assert existing[..i + 1] == existing[..i] + [existing[i]];
      if existing[i] !in wanted {
        RemoveOne(tags', nextId, crateId, existing[i]);
        OthersKeptTransitive(tags, tags', RemoveLinks(tags', crateId, existing[i]), crateId);
        tags' := RemoveLinks(tags', crateId, existing[i]);
      }
    }
    assert existing[..|existing|] == existing;
  }

  /** From any bag of link rows, adding what is missing and pruning what is not wanted leaves the crate linked to
      exactly the wanted names, and every other crate as it was. */
  method Reconcile(tags: TagTables, nextId: Id, crateId: Id, wanted: seq<string>)
    returns (tags': TagTables, nextId': Id)
    requires TagsSound(tags, nextId)
    ensures TagsSound(tags', nextId') && nextId <= nextId' && OthersKept(tags, tags', crateId)
    ensures forall name :: Linked(tags', crateId, name) <==> name in wanted
  {
    var existing := SelectNames(tags, crateId);
    var more, next := AddMissing(tags, nextId, crateId, existing, wanted);
    nextId' := next;
    tags' := PruneUnneeded(more, next, crateId, existing, wanted);
    OthersKeptTransitive(tags, more, tags', crateId);
  }
}
