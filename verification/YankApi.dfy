/** The yank and unyank handlers: a token, the right of an owner, and the flag. */
module YankApi {
  import opened ApiTypes
  import opened CratePaths
  import opened FsAuthProvider
  import opened FsIndexProvider
  import opened IndexOps
  import opened Ownership
  import opened OwnershipRuns
  import opened PgIndexProvider
  import opened RegistryTypes
  import opened Wrappers
  import SemVer

  /** Of the files' entries nothing has changed but the flag of the release with that version, the last of them if there
      are several. */
  ghost predicate FlagSet(before: map<string, IndexFile>, after: map<string, IndexFile>, path: string,
                          version: SemVer.Version, yank: bool) {
    path in before && path in after && after == before[path := after[path]] &&
    after[path].latest == before[path].latest &&
    exists i | 0 <= i < |before[path].entries| ::
      before[path].entries[i].vers == version &&
      (forall j | i < j < |before[path].entries| :: before[path].entries[j].vers != version) &&
      after[path].entries == before[path].entries[i := before[path].entries[i].(yanked := yank)]
  }

  lemma UpdatedFlag(before: map<string, IndexFile>, after: map<string, IndexFile>, name: string,
                    version: SemVer.Version, yank: bool, pullOk: bool, putOk: bool)
    requires Updated(before, after, SetYank(name, version, yank), pullOk, true, putOk, Ok(()))
    ensures MetaPath(ToLower(name)).Some? && FlagSet(before, after, MetaPath(ToLower(name)).value, version, yank)
  {
    var path := MetaPath(ToLower(name)).value;
    RFindIsLast(before[path].entries, version);
    var i := RFind(before[path].entries, version).value;
    assert before[path].entries[i].vers == version;
    assert after[path].entries == before[path].entries[i := before[path].entries[i].(yanked := yank)];
  }

  /** The owner's right, asked of the owners in memory. */
  method Admit(auth: FsAuthProvider, header: Option<string>, tokenFromStr: string -> Option<Token>, name: string,
               loadOk: bool)
    returns (r: Result<(), ApiError>)
    requires Sound(auth.Contents())
    modifies auth`owners
    ensures Sound(auth.Contents()) && auth.disk == old(auth.disk) && auth.Seen() == old(auth.Seen())
    ensures auth.owners == old(auth.owners) || fresh(auth.owners)
    ensures r.Ok? <==> header.Some? && tokenFromStr(header.value).Some? && auth.owners != null &&
                       auth.IsOwner(tokenFromStr(header.value).value, name)
    ensures r.Err? ==> r.error == if header.None? then Unauthorized
                                  else if tokenFromStr(header.value).None? then Auth(InvalidCredentials)
                                  else if auth.owners == null then Auth(AuthError.ServiceError)
                                  else if name !in auth.owners.crateOwners then Auth(CrateNotFound)
                                  else if tokenFromStr(header.value).value !in auth.owners.tokenOwners then
                                    Auth(InvalidCredentials)
                                  else Auth(Forbidden)
  {
    if header.None? {
      return Err(Unauthorized);
    }
    var allowed := auth.AuthYank(tokenFromStr(header.value), name, loadOk);
    return if allowed.Ok? then Ok(()) else Err(Auth(allowed.error));
  }

  /** `yank` and `unyank` on the file-system index: only an owner changes anything, and then one flag. */
  method Yank(auth: FsAuthProvider, index: FsIndexProvider, header: Option<string>,
              tokenFromStr: string -> Option<Token>, name: string, version: SemVer.Version, yank: bool, loadOk: bool,
              pullOk: bool, putOk: bool)
    returns (r: Result<(), ApiError>)
    requires Sound(auth.Contents()) && index.Valid()
    modifies auth`owners, index`files, index`contents, index.metaFileLocks
    ensures Sound(auth.Contents()) && index.Valid() && auth.disk == old(auth.disk)
    ensures var owner := header.Some? && tokenFromStr(header.value).Some? && auth.owners != null &&
                         auth.IsOwner(tokenFromStr(header.value).value, name);
            (!owner ==> r.Err? && (r.error.Unauthorized? || r.error.Auth?) && index.contents == old(index.contents)) &&
            (owner ==>
              var path := MetaPath(ToLower(name));
              r == if path.None? then Err(Index(CrateNameNotAllowed))
                   else if !pullOk then Err(Index(IndexError.ServiceError))
                   else if !HasVersion(EntriesOf(View(old(index.contents), path.value)), version) then
                     Err(Index(NotFound))
                   else if putOk then Ok(()) else Err(Index(IndexError.ServiceError)))
    ensures r.Err? ==> index.contents == old(index.contents)
    ensures r.Ok? ==> MetaPath(ToLower(name)).Some? &&
                      FlagSet(old(index.contents), index.contents, MetaPath(ToLower(name)).value, version, yank)
  {
    var admitted := Admit(auth, header, tokenFromStr, name, loadOk);
    if admitted.Err? {
      return Err(admitted.error);
    }
    ghost var before := index.contents;
    var done := index.YankInner(name, version, yank, pullOk, putOk);
    if done.Err? {
      return Err(Index(done.error));
    }
    UpdatedFlag(before, index.contents, name, version, yank, pullOk, putOk);
    return Ok(());
  }

  /** The same handlers on Postgres. */
  method YankPg(auth: FsAuthProvider, index: PgIndexProvider, header: Option<string>,
                tokenFromStr: string -> Option<Token>, name: string, version: SemVer.Version, yank: bool, loadOk: bool)
    returns (r: Result<(), ApiError>)
    requires Sound(auth.Contents()) && index.Valid()
    modifies auth`owners, index
    ensures Sound(auth.Contents()) && index.Valid() && auth.disk == old(auth.disk)
    ensures var owner := header.Some? && tokenFromStr(header.value).Some? && auth.owners != null &&
                         auth.IsOwner(tokenFromStr(header.value).value, name);
            var key := (name, SemVer.Print(version));
            (!owner ==> r.Err? && (r.error.Unauthorized? || r.error.Auth?)) &&
            (owner ==> r == if key in old(index.committed) then Ok(()) else Err(Index(Conflict))) &&
            index.committed == if owner && key in old(index.committed) then
                                 old(index.committed)[key := old(index.committed)[key].(yanked := yank)]
                               else old(index.committed)
  {
    var admitted := Admit(auth, header, tokenFromStr, name, loadOk);
    if admitted.Err? {
      return Err(admitted.error);
    }
    var done := index.SetYank(name, version, yank);
    return if done.Ok? then Ok(()) else Err(Index(done.error));
  }
}
