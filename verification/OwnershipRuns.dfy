/** Whole runs of registrations, publications, changes of owners and restarts, with loads and saves that may fail. */
module OwnershipRuns {
  import opened Ownership
  import opened Wrappers

  datatype Event = Event(request: Request, loadOk: bool, saveOk: bool)

  const EMPTY: Provider := Provider(None, None)

  ghost function Next(p: Provider, e: Event): Provider {
    Served(p, e.request, e.loadOk, e.saveOk).0
  }

  ghost function Answer(p: Provider, e: Event): Result<(), AuthError> {
    Served(p, e.request, e.loadOk, e.saveOk).1
  }

  ghost function RunFrom(p: Provider, events: seq<Event>): Provider {
    if events == [] then p else Next(RunFrom(p, events[..|events| - 1]), events[|events| - 1])
  }

  /** A registration draws a token nobody has. */
  ghost predicate FreshToken(p: Provider, e: Event) {
    e.request.Register? ==>
      var m := Loaded(p, e.loadOk);
      m.Some? ==> e.request.newToken !in m.value.tokenOwners
  }

  ghost predicate FreshTokens(p: Provider, events: seq<Event>) {
    events == [] ||
    (FreshTokens(p, events[..|events| - 1]) &&
     FreshToken(RunFrom(p, events[..|events| - 1]), events[|events| - 1]))
  }

  // ---- Tokens and owner sets ----

  ghost predicate OwnersNonEmpty(crateOwners: map<string, set<Login>>) {
    forall c | c in crateOwners :: crateOwners[c] != {}
  }

  ghost predicate IndexSound(m: Memory) {
    m.ownerTokens == map[] || IsInverse(m.tokenOwners, m.ownerTokens)
  }

  /** One token a login, an owner for every crate, and an index that is empty or exact. */
  ghost predicate SoundMemory(m: Memory) {
    LoginsUnique(m.tokenOwners) && OwnersNonEmpty(m.crateOwners) && IndexSound(m)
  }

  ghost predicate Sound(p: Provider) {
    LoginsUnique(DiskOf(p).tokenOwners) && OwnersNonEmpty(DiskOf(p).crateOwners) &&
    (p.mem.Some? ==> SoundMemory(p.mem.value))
  }

  lemma LoadedSound(p: Provider, loadOk: bool)
    requires Sound(p) && Loaded(p, loadOk).Some?
    ensures SoundMemory(Loaded(p, loadOk).value)
  {
  }

  lemma IndexForIsInverse(m: Memory)
    requires SoundMemory(m)
    ensures IsInverse(m.tokenOwners, IndexFor(m))
  {
    InverseIsInverse(m.tokenOwners);
  }

  lemma RegistrationKeepsMemory(m: Memory, login: Login, newToken: Token)
    requires SoundMemory(m) && newToken !in m.tokenOwners && login !in IndexFor(m)
    ensures SoundMemory(m.(ownerTokens := IndexFor(m)[login := newToken],
                           tokenOwners := m.tokenOwners[newToken := login]))
  {
    IndexForIsInverse(m);
    assert forall t | t in m.tokenOwners :: m.tokenOwners[t] != login;
  }

  lemma RegisteredSound(p: Provider, m: Memory, login: Login, newToken: Token, saveOk: bool)
    requires Sound(p) && SoundMemory(m) && newToken !in m.tokenOwners
    ensures Sound(Registered(p, m, login, newToken, saveOk).0)
  {
    if login !in IndexFor(m) {
      RegistrationKeepsMemory(m, login, newToken);
    } else {
      IndexForIsInverse(m);
    }
  }

  lemma DroppedSound(p: Provider, m: Memory, token: Token, users: seq<Login>, crateName: string, saveOk: bool)
    requires Sound(p) && SoundMemory(m)
    ensures Sound(Dropped(p, m, token, users, crateName, saveOk).0)
  {
    if Authorized(m, token, crateName).Ok? {
      RemovedBounds(m.crateOwners[crateName], users);
    }
  }

  lemma AddedSound(p: Provider, m: Memory, token: Token, users: seq<Login>, crateName: string, saveOk: bool)
    requires Sound(p) && SoundMemory(m)
    ensures Sound(Added(p, m, token, users, crateName, saveOk).0)
  {
  }

  lemma NextSound(p: Provider, e: Event)
    requires Sound(p) && FreshToken(p, e)
    ensures Sound(Next(p, e))
  {
    var m := Loaded(p, e.loadOk);
    if m.Some? {
      LoadedSound(p, e.loadOk);
      match e.request
      case Register(login, newToken) => RegisteredSound(p, m.value, login, newToken, e.saveOk);
      case AddOwners(token, users, c) =>
        if token.Some? { AddedSound(p, m.value, token.value, users, c, e.saveOk); }
      case RemoveOwners(token, users, c) =>
        if token.Some? { DroppedSound(p, m.value, token.value, users, c, e.saveOk); }
      case _ =>
    }
  }

  /** In every run, whatever loads and saves fail: each login has at most one token, every known crate has an owner,
      and the reverse index is empty or exact. */
  lemma {:induction false} RunSound(p: Provider, events: seq<Event>)
    requires Sound(p) && FreshTokens(p, events)
    ensures Sound(RunFrom(p, events))
  {
    if events != [] {
      RunSound(p, events[..|events| - 1]);
      NextSound(RunFrom(p, events[..|events| - 1]), events[|events| - 1]);
    }
  }

  /** A registration is refused exactly when the login has a token already, and then changes no owner or token;
      otherwise it adds the new token and changes nothing else in memory. */
  ghost predicate RegisteredAsAsked(m: Memory, p: Provider, p': Provider, e: Event, r: Result<(), AuthError>)
    requires e.request.Register?
  {
    p'.mem.Some? &&
    if e.request.login in m.tokenOwners.Values then
      r == Err(Forbidden) && SavedOf(p'.mem.value) == SavedOf(m) && p'.disk == p.disk
    else
      r == SaveResult(e.saveOk) &&
      SavedOf(p'.mem.value) == Saved(m.tokenOwners[e.request.newToken := e.request.login], m.crateOwners)
  }

  lemma RegistrationStep(p: Provider, e: Event)
    requires e.request.Register? && Loaded(p, e.loadOk).Some? && SoundMemory(Loaded(p, e.loadOk).value)
    ensures RegisteredAsAsked(Loaded(p, e.loadOk).value, p, Next(p, e), e, Answer(p, e))
  {
    var m := Loaded(p, e.loadOk).value;
    IndexForIsInverse(m);
    if e.request.login in IndexFor(m) {
      assert m.tokenOwners[IndexFor(m)[e.request.login]] == e.request.login;
    }
  }

  /** Registering in any reachable state. */
  lemma RegistrationRefusedExactly(p: Provider, events: seq<Event>, e: Event)
    requires Sound(p) && FreshTokens(p, events) && e.request.Register?
    requires Loaded(RunFrom(p, events), e.loadOk).Some?
    ensures var before := RunFrom(p, events);
            RegisteredAsAsked(Loaded(before, e.loadOk).value, before, Next(before, e), e, Answer(before, e))
  {
    RunSound(p, events);
    LoadedSound(RunFrom(p, events), e.loadOk);
    RegistrationStep(RunFrom(p, events), e);
  }

  /** More than one owner is left before the last name. */
  ghost predicate GetsThrough(owners: set<Login>, users: seq<Login>) {
    users == [] || |owners - SetOf(users[..|users| - 1])| > 1
  }

  /** Getting through leaves exactly the owners not listed; stopping half-way leaves one owner; nobody who is not listed
      goes; and all of this happens in memory even if it cannot be saved. */
  ghost predicate RemovedAsAsked(owners: set<Login>, left: set<Login>, users: seq<Login>, saveOk: bool,
                                 r: Result<(), AuthError>) {
    left != {} && left <= owners && owners - SetOf(users) <= left &&
    (if GetsThrough(owners, users) then left == owners - SetOf(users) else |left| == 1) &&
    r == if !saveOk then Err(ServiceError) else if GetsThrough(owners, users) then Ok(()) else Err(Forbidden)
  }

  ghost predicate RemovalAllowed(p: Provider, e: Event) {
    e.request.RemoveOwners? && e.request.token.Some? && Loaded(p, e.loadOk).Some? &&
    Authorized(Loaded(p, e.loadOk).value, e.request.token.value, e.request.crateName).Ok?
  }

  ghost predicate RemovalServed(p: Provider, e: Event)
    requires RemovalAllowed(p, e)
  {
    var c := e.request.crateName;
    Next(p, e).mem.Some? && c in Next(p, e).mem.value.crateOwners &&
    RemovedAsAsked(Loaded(p, e.loadOk).value.crateOwners[c], Next(p, e).mem.value.crateOwners[c], e.request.users,
                   e.saveOk, Answer(p, e))
  }

  lemma RemovalStep(p: Provider, e: Event)
    requires RemovalAllowed(p, e) && OwnersNonEmpty(Loaded(p, e.loadOk).value.crateOwners)
    ensures RemovalServed(p, e)
  {
    var owners := Loaded(p, e.loadOk).value.crateOwners[e.request.crateName];
    RemovedBounds(owners, e.request.users);
    RemovedExactly(owners, e.request.users);
  }

  /** Removing owners in any reachable state. */
  lemma RemovalExactly(p: Provider, events: seq<Event>, e: Event)
    requires Sound(p) && FreshTokens(p, events) && RemovalAllowed(RunFrom(p, events), e)
    ensures RemovalServed(RunFrom(p, events), e)
  {
    RunSound(p, events);
    LoadedSound(RunFrom(p, events), e.loadOk);
    RemovalStep(RunFrom(p, events), e);
  }

  ghost predicate FirstPublish(p: Provider, e: Event) {
    e.request.AuthPublish? && Answer(p, e).Ok? && Loaded(p, e.loadOk).Some? &&
    e.request.crateName !in Loaded(p, e.loadOk).value.crateOwners
  }

  // ---- Where ownership comes from ----

  ghost predicate Owns(p: Provider, login: Login, c: string) {
    p.mem.Some? && c in p.mem.value.crateOwners && login in p.mem.value.crateOwners[c]
  }

  /** `e` makes `login` the first owner of a crate nobody has published. */
  ghost predicate FirstPublishBy(p: Provider, e: Event, login: Login, c: string) {
    FirstPublish(p, e) && e.request.crateName == c && e.request.token.Some? &&
    LoginForToken(Loaded(p, e.loadOk).value, e.request.token.value) == Ok(login)
  }

  /** `e` is `giver`, an owner at that moment, listing `login` as an owner. */
  ghost predicate GrantBy(p: Provider, e: Event, giver: Login, login: Login, c: string) {
    e.request.AddOwners? && e.request.crateName == c && login in e.request.users && e.request.token.Some? &&
    Loaded(p, e.loadOk).Some? &&
    var m := Loaded(p, e.loadOk).value;
    LoginForToken(m, e.request.token.value) == Ok(giver) && c in m.crateOwners && giver in m.crateOwners[c]
  }

  /** `e` is an owner's request that takes `login` off the list. */
  ghost predicate TakenBy(p: Provider, e: Event, login: Login, c: string) {
    e.request.RemoveOwners? && e.request.crateName == c && e.request.token.Some? && Loaded(p, e.loadOk).Some? &&
    var m := Loaded(p, e.loadOk).value;
    Authorized(m, e.request.token.value, c).Ok? && login !in Removed(m.crateOwners[c], e.request.users).0
  }

  /** One request changes who owns what exactly by a first publish, an owner's grant or an owner's removal; every
      other owner stays, whether or not the change could be saved. */
  lemma OwnersChangeExactly(p: Provider, e: Event, login: Login, c: string)
    requires !e.request.Restart? && Loaded(p, e.loadOk).Some? && Next(p, e).mem.Some?
    ensures Owns(Next(p, e), login, c) <==>
            (Owns(Provider(Loaded(p, e.loadOk), p.disk), login, c) && !TakenBy(p, e, login, c)) ||
            FirstPublishBy(p, e, login, c) || exists giver :: GrantBy(p, e, giver, login, c)
  {
    var m := Loaded(p, e.loadOk).value;
    match e.request
    case AddOwners(token, users, crateName) =>
      assert login in SetOf(users) <==> login in users;
      if token.Some? && Authorized(m, token.value, crateName).Ok? {
        assert crateName == c && login in users ==> GrantBy(p, e, m.tokenOwners[token.value], login, c);
      }
    case RemoveOwners(token, users, crateName) =>
      if crateName in m.crateOwners {
        RemovedShrinks(m.crateOwners[crateName], users);
      }
    case _ =>
  }

  ghost predicate OwnsWhenLoaded(p: Provider, login: Login, c: string) {
    c in Loaded(p, true).value.crateOwners && login in Loaded(p, true).value.crateOwners[c]
  }

  ghost predicate FirstPublishAt(p: Provider, events: seq<Event>, n: nat, login: Login, c: string) {
    n < |events| && FirstPublishBy(RunFrom(p, events[..n]), events[n], login, c)
  }

  ghost predicate GrantAt(p: Provider, events: seq<Event>, n: nat, giver: Login, login: Login, c: string) {
    n < |events| && GrantBy(RunFrom(p, events[..n]), events[n], giver, login, c)
  }

  /** A chain of grants by then-owners from the first publisher, or from an owner at the last load, to `login`. */
  ghost predicate Chain(p: Provider, events: seq<Event>, login: Login, c: string)
    decreases |events|
  {
    OwnsWhenLoaded(p, login, c) ||
    (exists n: nat :: FirstPublishAt(p, events, n, login, c)) ||
    (exists n: nat, giver :: GrantAt(p, events, n, giver, login, c) && Chain(p, events[..n], giver, c))
  }

  lemma ChainLonger(p: Provider, events: seq<Event>, login: Login, c: string)
    requires events != [] && Chain(p, events[..|events| - 1], login, c)
    ensures Chain(p, events, login, c)
  {
    var front := events[..|events| - 1];
    if !OwnsWhenLoaded(p, login, c) {
      if n: nat :| FirstPublishAt(p, front, n, login, c) {
        assert front[..n] == events[..n];
        assert FirstPublishAt(p, events, n, login, c);
      } else {
        var n: nat, giver :| GrantAt(p, front, n, giver, login, c) && Chain(p, front[..n], giver, c);
        assert front[..n] == events[..n];
        assert GrantAt(p, events, n, giver, login, c);
      }
    }
  }

  /** Without a restart the memory, once there, is the loaded one carried on. */
  lemma {:induction false} LoadedOnce(p: Provider, events: seq<Event>)
    requires p.mem.None? && forall i | 0 <= i < |events| :: !events[i].request.Restart?
    requires RunFrom(p, events).mem.None?
    ensures RunFrom(p, events) == p
  {
    if events != [] {
      LoadedOnce(p, events[..|events| - 1]);
    }
  }

  lemma {:induction false} RemovedShrinks(owners: set<Login>, users: seq<Login>)
    ensures Removed(owners, users).0 <= owners
  {
    if users != [] && |owners| > 1 {
      RemovedShrinks(owners - {users[0]}, users[1..]);
    }
  }

  /** Between restarts a login owns a crate only through a chain of grants by then-owners that starts at the first
      publisher or at an owner the file had. */
  lemma {:induction false} OwnershipHasChain(p: Provider, events: seq<Event>, login: Login, c: string)
    requires p.mem.None? && forall i | 0 <= i < |events| :: !events[i].request.Restart?
    requires Owns(RunFrom(p, events), login, c)
    ensures Chain(p, events, login, c)
    decreases |events|
  {
    var n := |events| - 1;
    var front, e := events[..n], events[n];
    var before := RunFrom(p, front);
    if before.mem.None? {
      LoadedOnce(p, front);
    }
    if Owns(before, login, c) {
      OwnershipHasChain(p, front, login, c);
      ChainLonger(p, events, login, c);
    } else if !(before.mem.None? && OwnsWhenLoaded(p, login, c)) {
      OwnersChangeExactly(before, e, login, c);
      if FirstPublishBy(before, e, login, c) {
        assert FirstPublishAt(p, events, n, login, c);
      } else {
        var giver :| GrantBy(before, e, giver, login, c);
        if before.mem.Some? {
          OwnershipHasChain(p, front, giver, c);
        } else {
          assert OwnsWhenLoaded(p, giver, c);
        }
        assert Chain(p, front, giver, c) && GrantAt(p, events, n, giver, login, c);
      }
    }
  }
}
