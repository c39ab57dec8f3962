/** The file-backed owners in memory and on disk, updated in place. */
module FsAuthProvider {
  import opened Ownership
  import opened OwnershipRuns
  import opened Wrappers

  class Owners {
    var tokenOwners: map<Token, Login>
    var crateOwners: map<string, set<Login>>
    var ownerTokens: map<Login, Token>

    ghost function Contents(): Memory
      reads this
    {
      Memory(tokenOwners, crateOwners, ownerTokens)
    }

    constructor (saved: Saved)
      ensures Contents() == Memory(saved.tokenOwners, saved.crateOwners, map[])
    {
      tokenOwners, crateOwners, ownerTokens := saved.tokenOwners, saved.crateOwners, map[];
    }

    method RebuildIndex()
      requires LoginsUnique(tokenOwners)
      modifies this`ownerTokens
      ensures ownerTokens == Inverse(tokenOwners)
    {
      ownerTokens := map[];
      var todo := tokenOwners.Keys;
      while todo != {}
        invariant todo <= tokenOwners.Keys
        invariant forall t | t in tokenOwners && t !in todo ::
                    tokenOwners[t] in ownerTokens && ownerTokens[tokenOwners[t]] == t
        invariant forall login | login in ownerTokens ::
                    ownerTokens[login] in tokenOwners && tokenOwners[ownerTokens[login]] == login
        decreases |todo|
      {
        var t :| t in todo;
        ownerTokens := ownerTokens[tokenOwners[t] := t];
        todo := todo - {t};
      }
      InverseIsInverse(tokenOwners);
      InverseUnique(tokenOwners, ownerTokens, Inverse(tokenOwners));
    }

    method Register(login: Login, token: Token) returns (r: Result<(), AuthError>)
      requires SoundMemory(Contents())
      modifies this
      ensures var index := IndexFor(old(Contents()));
              if login in index then
                r == Err(Forbidden) && Contents() == old(Contents()).(ownerTokens := index)
              else
                r == Ok(()) &&
                Contents() == old(Contents()).(ownerTokens := index[login := token],
                                               tokenOwners := old(tokenOwners)[token := login])
    {
      if ownerTokens == map[] {
        RebuildIndex();
      }
      if login in ownerTokens {
        return Err(Forbidden);
      }
      ownerTokens := ownerTokens[login := token];
      tokenOwners := tokenOwners[token := login];
      return Ok(());
    }

    /** The removal loop on one crate's owners; `through` is false if it stopped before emptying them. */
    method RemoveEach(crateName: string, users: seq<Login>) returns (through: bool)
      requires crateName in crateOwners
      modifies this`crateOwners
      ensures crateOwners == old(crateOwners)[crateName := Removed(old(crateOwners)[crateName], users).0]
      ensures through == Removed(old(crateOwners)[crateName], users).1
    {
      ghost var before := crateOwners;
      for i := 0 to |users|
        invariant crateName in crateOwners && crateOwners == before[crateName := crateOwners[crateName]]
        invariant Removed(before[crateName], users) == Removed(crateOwners[crateName], users[i..])
      {
        assert users[i..][1..] == users[i + 1..];
        if |crateOwners[crateName]| > 1 {
          crateOwners := crateOwners[crateName := crateOwners[crateName] - {users[i]}];
        } else {
          return false;
        }
      }
      return true;
    }

    method EnsureAuthorizedForCrate(token: Token, crateName: string) returns (r: Result<(), AuthError>)
      ensures r == Authorized(Contents(), token, crateName)
    {
      if crateName !in crateOwners {
        return Err(CrateNotFound);
      }
      if token !in tokenOwners {
        return Err(InvalidCredentials);
      }
      return if tokenOwners[token] in crateOwners[crateName] then Ok(()) else Err(Forbidden);
    }
  }

  class FsAuthProvider {
    var owners: Owners?
    /** The owners file. */
    var disk: Option<Saved>

    ghost function Contents(): Provider
      reads this, owners
    {
      Provider(if owners == null then None else Some(owners.Contents()), disk)
    }

    /** The tokens and owners a request goes by: those in memory, else those in the file, else none. */
    ghost function Seen(): Saved
      reads this, owners
    {
      if owners != null then Saved(owners.tokenOwners, owners.crateOwners)
      else if disk.Some? then disk.value
      else Saved(map[], map[])
    }

    /** The token belongs to an owner of the crate. */
    ghost predicate IsOwner(token: Token, crateName: string)
      reads this, owners
    {
      token in Seen().tokenOwners && crateName in Seen().crateOwners &&
      Seen().tokenOwners[token] in Seen().crateOwners[crateName]
    }

    /** Opening a provider looks at nothing: the file that is there is loaded by the first request. */
    constructor (ownersFile: Option<Saved>)
      ensures Contents() == Provider(None, ownersFile)
    {
      owners, disk := null, ownersFile;
    }

    /** Either the owners were loaded already, or they are loaded now; `loadOk` says whether that works. */
    method OwnersMut(loadOk: bool) returns (r: Result<Owners, AuthError>)
      modifies this`owners
      ensures disk == old(disk) && (owners == old(owners) || fresh(owners))
      ensures r.Err? ==> r == Err(ServiceError) && owners == null && Loaded(old(Contents()), loadOk).None?
      ensures r.Ok? <==> old(owners) != null || loadOk
      ensures Seen() == old(Seen())
      ensures r.Ok? ==> owners == r.value && Some(r.value.Contents()) == Loaded(old(Contents()), loadOk)
    {
      if owners == null {
        if !loadOk {
          return Err(ServiceError);
        }
        owners := new Owners(if disk.Some? then disk.value else Saved(map[], map[]));
      }
      return Ok(owners);
    }

    method SyncOwners(saveOk: bool) returns (r: Result<(), AuthError>)
      requires owners != null
      modifies this`disk
      ensures r == SaveResult(saveOk)
      ensures disk == if saveOk then Some(SavedOf(owners.Contents())) else old(disk)
    {
      if saveOk {
        disk := Some(Saved(owners.tokenOwners, owners.crateOwners));
      }
      return if saveOk then Ok(()) else Err(ServiceError);
    }

    method Register(username: Login, hashedToken: Token, loadOk: bool, saveOk: bool) returns (r: Result<(), AuthError>)
      requires Sound(Contents())
      requires FreshToken(Contents(), Event(Request.Register(username, hashedToken), loadOk, saveOk))
      modifies this, owners
      ensures owners == old(owners) || fresh(owners)
      ensures (Contents(), r) == Served(old(Contents()), Request.Register(username, hashedToken), loadOk, saveOk)
      ensures Sound(Contents())
      ensures var taken := exists t :: t in old(Seen()).tokenOwners && old(Seen()).tokenOwners[t] == username;
              r == (if old(owners) == null && !loadOk then Err(ServiceError)
                    else if taken then Err(Forbidden)
                    else if saveOk then Ok(()) else Err(ServiceError)) &&
              Seen() == if (old(owners) == null && !loadOk) || taken then old(Seen())
                        else Saved(old(Seen()).tokenOwners[hashedToken := username], old(Seen()).crateOwners)
      ensures disk == if r.Ok? then Some(Seen()) else old(disk)
    {
      ghost var p := Contents();
      NextSound(p, Event(Request.Register(username, hashedToken), loadOk, saveOk));
      var loaded := OwnersMut(loadOk);
      if loaded.Err? {
        return Err(loaded.error);
      }
      LoadedSound(p, loadOk);
      var registered := loaded.value.Register(username, hashedToken);
      if registered.Err? {
        return registered;
      }
      r := SyncOwners(saveOk);
    }

    method AddOwners(token: Option<Token>, users: seq<Login>, crateName: string, loadOk: bool, saveOk: bool)
      returns (r: Result<(), AuthError>)
      requires Sound(Contents())
      modifies this, owners
      ensures owners == old(owners) || fresh(owners)
      ensures (Contents(), r) == Served(old(Contents()), Request.AddOwners(token, users, crateName), loadOk, saveOk)
      ensures Sound(Contents())
      ensures var allowed := token.Some? && (old(owners) != null || loadOk) && old(IsOwner(token.value, crateName));
              r == (if allowed then if saveOk then Ok(()) else Err(ServiceError)
                    else if token.None? then Err(InvalidCredentials)
                    else if old(owners) == null && !loadOk then Err(ServiceError)
                    else if crateName !in old(Seen()).crateOwners then Err(CrateNotFound)
                    else if token.value !in old(Seen()).tokenOwners then Err(InvalidCredentials)
                    else Err(Forbidden)) &&
              Seen() == (if allowed then
                           Saved(old(Seen()).tokenOwners,
                                 old(Seen()).crateOwners[crateName := old(Seen()).crateOwners[crateName] +
                                                                      set i | 0 <= i < |users| :: users[i]])
                         else old(Seen())) &&
              disk == if allowed && saveOk then Some(Seen()) else old(disk)
    {
      ghost var p := Contents();
      NextSound(p, Event(Request.AddOwners(token, users, crateName), loadOk, saveOk));
      if token.None? {
        return Err(InvalidCredentials);
      }
      var loaded := OwnersMut(loadOk);
      if loaded.Err? {
        return Err(loaded.error);
      }
      var auth := loaded.value.EnsureAuthorizedForCrate(token.value, crateName);
      if auth.Err? {
        return auth;
      }
      var crateOwners := owners.crateOwners[crateName];
      for i := 0 to |users|
        invariant owners == loaded.value && crateOwners == owners.crateOwners[crateName] + SetOf(users[..i])
      {
        crateOwners := crateOwners + {users[i]};
        assert SetOf(users[..i + 1]) == SetOf(users[..i]) + {users[i]};
      }
      assert users[..|users|] == users;
      owners.crateOwners := owners.crateOwners[crateName := crateOwners];
      r := SyncOwners(saveOk);
    }

    method RemoveOwners(token: Option<Token>, users: seq<Login>, crateName: string, loadOk: bool, saveOk: bool)
      returns (r: Result<(), AuthError>)
      requires Sound(Contents())
      modifies this, owners
      ensures owners == old(owners) || fresh(owners)
      ensures (Contents(), r) == Served(old(Contents()), Request.RemoveOwners(token, users, crateName), loadOk, saveOk)
      ensures Sound(Contents())
      ensures var allowed := token.Some? && (old(owners) != null || loadOk) && old(IsOwner(token.value, crateName));
              if allowed then
                Seen().tokenOwners == old(Seen()).tokenOwners && crateName in Seen().crateOwners &&
                Seen().crateOwners == old(Seen()).crateOwners[crateName := Seen().crateOwners[crateName]] &&
                (exists n: nat ::
                  StopsAfter(old(Seen()).crateOwners[crateName], users, n, Seen().crateOwners[crateName]) &&
                  r == if !saveOk then Err(ServiceError) else if n == |users| then Ok(()) else Err(Forbidden)) &&
                disk == if saveOk then Some(Seen()) else old(disk)
              else
                Seen() == old(Seen()) && disk == old(disk) &&
                r == if token.None? then Err(InvalidCredentials)
                     else if old(owners) == null && !loadOk then Err(ServiceError)
                     else if crateName !in old(Seen()).crateOwners then Err(CrateNotFound)
                     else if token.value !in old(Seen()).tokenOwners then Err(InvalidCredentials)
                     else Err(Forbidden)
    {
      ghost var p := Contents();
      NextSound(p, Event(Request.RemoveOwners(token, users, crateName), loadOk, saveOk));
      if token.None? {
        return Err(InvalidCredentials);
      }
      var loaded := OwnersMut(loadOk);
      if loaded.Err? {
        return Err(loaded.error);
      }
      var auth := loaded.value.EnsureAuthorizedForCrate(token.value, crateName);
      if auth.Err? {
        return auth;
      }
      RemovedStops(owners.crateOwners[crateName], users);
      var through := loaded.value.RemoveEach(crateName, users);
      r := SyncOwners(saveOk);
      if !through && r.Ok? {
        r := Err(Forbidden);
      }
    }

    /** The reading side of `owners_mut`. */
    method EnsureValidToken(token: Option<Token>, loadOk: bool) returns (r: Result<(), AuthError>)
      requires Sound(Contents())
      modifies this`owners
      ensures disk == old(disk) && (owners == old(owners) || fresh(owners))
      ensures forall saveOk ::
                (Contents(), r) == Served(old(Contents()), Request.CheckToken(token), loadOk, saveOk)
      ensures Sound(Contents()) && Seen() == old(Seen())
      ensures r == if token.None? then Err(InvalidCredentials)
                   else if owners == null then Err(ServiceError)
                   else if token.value in owners.tokenOwners then Ok(()) else Err(InvalidCredentials)
      ensures token.Some? ==> (owners == null <==> old(owners) == null && !loadOk)
    {
      ghost var p := Contents();
      NextSound(p, Event(Request.CheckToken(token), loadOk, true));
      if token.None? {
        return Err(InvalidCredentials);
      }
      var loaded := OwnersMut(loadOk);
      if loaded.Err? {
        return Err(loaded.error);
      }
      return if token.value in owners.tokenOwners then Ok(()) else Err(InvalidCredentials);
    }

    method AuthYank(token: Option<Token>, crateName: string, loadOk: bool) returns (r: Result<(), AuthError>)
      requires Sound(Contents())
      modifies this`owners
      ensures disk == old(disk) && (owners == old(owners) || fresh(owners))
      ensures forall saveOk ::
                (Contents(), r) == Served(old(Contents()), Request.AuthYank(token, crateName), loadOk, saveOk)
      ensures Sound(Contents()) && Seen() == old(Seen())
      ensures r.Ok? <==> token.Some? && owners != null && token.value in owners.tokenOwners &&
                         crateName in owners.crateOwners &&
                         owners.tokenOwners[token.value] in owners.crateOwners[crateName]
      ensures r.Err? ==> r.error == if token.None? then InvalidCredentials
                                    else if owners == null then ServiceError
                                    else if crateName !in owners.crateOwners then CrateNotFound
                                    else if token.value !in owners.tokenOwners then InvalidCredentials
                                    else Forbidden
      ensures token.Some? ==> (owners == null <==> old(owners) == null && !loadOk)
    {
      ghost var p := Contents();
      NextSound(p, Event(Request.AuthYank(token, crateName), loadOk, true));
      if token.None? {
        return Err(InvalidCredentials);
      }
      var loaded := OwnersMut(loadOk);
      if loaded.Err? {
        return Err(loaded.error);
      }
      r := loaded.value.EnsureAuthorizedForCrate(token.value, crateName);
    }

    /** The owners of a crate, whom anybody may list. */
    method ListOwners(crateName: string, loadOk: bool) returns (r: Result<set<Login>, AuthError>)
      requires Sound(Contents())
      modifies this`owners
      ensures disk == old(disk) && (owners == old(owners) || fresh(owners))
      ensures r.Ok? ==> owners != null && crateName in owners.crateOwners && r.value == owners.crateOwners[crateName]
      ensures forall saveOk :: (Contents(), if r.Ok? then Ok(()) else Err(r.error)) ==
                               Served(old(Contents()), Request.ListOwners(crateName), loadOk, saveOk)
      ensures Sound(Contents()) && Seen() == old(Seen())
      ensures r.Ok? <==> owners != null && crateName in owners.crateOwners
      ensures r.Err? ==> r.error == if owners == null then ServiceError else CrateNotFound
      ensures owners == null <==> old(owners) == null && !loadOk
    {
      ghost var p := Contents();
      NextSound(p, Event(Request.ListOwners(crateName), loadOk, true));
      var loaded := OwnersMut(loadOk);
      if loaded.Err? {
        return Err(loaded.error);
      }
      return if crateName in owners.crateOwners then Ok(owners.crateOwners[crateName]) else Err(CrateNotFound);
    }

    method Publish(token: Option<Token>, crateName: string, loadOk: bool) returns (r: Result<(), AuthError>)
      requires Sound(Contents())
      modifies this, owners
      ensures owners == old(owners) || fresh(owners)
      ensures forall saveOk ::
                (Contents(), r) == Served(old(Contents()), Request.AuthPublish(token, crateName), loadOk, saveOk)
      ensures Sound(Contents())
      ensures r == if token.None? then Err(InvalidCredentials)
                   else if owners == null then Err(ServiceError)
                   else if token.value !in owners.tokenOwners then Err(InvalidCredentials)
                   else if IsOwner(token.value, crateName) then Ok(()) else Err(Forbidden)
      ensures disk == old(disk) && Seen().tokenOwners == old(Seen()).tokenOwners
      ensures Seen().crateOwners ==
              if crateName !in old(Seen()).crateOwners && token.Some? && owners != null &&
                 token.value in owners.tokenOwners then
                old(Seen()).crateOwners[crateName := {owners.tokenOwners[token.value]}]
              else old(Seen()).crateOwners
    {
      ghost var p := Contents();
      NextSound(p, Event(Request.AuthPublish(token, crateName), loadOk, true));
      if token.None? {
        return Err(InvalidCredentials);
      }
      var loaded := OwnersMut(loadOk);
      if loaded.Err? {
        return Err(loaded.error);
      }
      if crateName !in owners.crateOwners {
        if token.value !in owners.tokenOwners {
          return Err(InvalidCredentials);
        }
        owners.crateOwners := owners.crateOwners[crateName := {owners.tokenOwners[token.value]}];
      }
      r := loaded.value.EnsureAuthorizedForCrate(token.value, crateName);
    }
  }
}
