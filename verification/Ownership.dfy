/** Who may do what to a crate: the memory and the disk copy of the owners, and what each request does to them. */
module Ownership {
  import opened Bytes
  import opened Wrappers

  /** A hashed token; hashing is not looked into. */
  type Token = seq<Byte>
  type Login = string

  datatype AuthError = InvalidCredentials | Forbidden | CrateNotFound | ServiceError

  /** The loaded owners; `ownerTokens` is the reverse index that is left empty by loading. */
  datatype Memory = Memory(
    tokenOwners: map<Token, Login>, crateOwners: map<string, set<Login>>, ownerTokens: map<Login, Token>)

  /** What the owners file holds. */
  datatype Saved = Saved(tokenOwners: map<Token, Login>, crateOwners: map<string, set<Login>>)

  datatype Provider = Provider(mem: Option<Memory>, disk: Option<Saved>)

  /** A request; a token of None is a text that is no token. `Restart` forgets the memory. */
  datatype Request =
    | Register(login: Login, newToken: Token)
    | AddOwners(token: Option<Token>, users: seq<Login>, crateName: string)
    | RemoveOwners(token: Option<Token>, users: seq<Login>, crateName: string)
    | AuthPublish(token: Option<Token>, crateName: string)
    | AuthYank(token: Option<Token>, crateName: string)
    | CheckToken(token: Option<Token>)
    | ListOwners(crateName: string)
    | Restart

  function SavedOf(m: Memory): Saved {
    Saved(m.tokenOwners, m.crateOwners)
  }

  /** The file's contents; no file is an empty one. */
  function DiskOf(p: Provider): Saved {
    if p.disk.Some? then p.disk.value else Saved(map[], map[])
  }

  /** `owners_mut`: the memory, loaded if need be. */
  function Loaded(p: Provider, loadOk: bool): Option<Memory> {
    if p.mem.Some? then p.mem
    else if !loadOk then None
    else Some(Memory(DiskOf(p).tokenOwners, DiskOf(p).crateOwners, map[]))
  }

  /** `sync_owners`: the file is replaced as a whole or not at all. */
  function Synced(p: Provider, m: Memory, saveOk: bool): Provider {
    Provider(Some(m), if saveOk then Some(SavedOf(m)) else p.disk)
  }

  function LoginForToken(m: Memory, token: Token): Result<Login, AuthError> {
    if token in m.tokenOwners then Ok(m.tokenOwners[token]) else Err(InvalidCredentials)
  }

  function Checked(m: Memory, token: Token): Result<(), AuthError> {
    var login := LoginForToken(m, token);
    if login.Ok? then Ok(()) else Err(login.error)
  }

  function Authorized(m: Memory, token: Token, crateName: string): Result<(), AuthError> {
    if crateName !in m.crateOwners then Err(CrateNotFound)
    else
      var login := LoginForToken(m, token);
      if login.Err? then Err(login.error)
      else if login.value in m.crateOwners[crateName] then Ok(()) else Err(Forbidden)
  }

  // ---- The reverse index ----

  ghost predicate LoginsUnique(tokens: map<Token, Login>) {
    forall s, t | s in tokens && t in tokens && tokens[s] == tokens[t] :: s == t
  }

  /** The exact inverse of the token table. */
  ghost predicate IsInverse(tokens: map<Token, Login>, index: map<Login, Token>) {
    (forall t | t in tokens :: tokens[t] in index && index[tokens[t]] == t) &&
    (forall login | login in index :: index[login] in tokens && tokens[index[login]] == login)
  }

  ghost function Inverse(tokens: map<Token, Login>): map<Login, Token> {
    map login | login in tokens.Values :: var t :| t in tokens && tokens[t] == login; t
  }

  lemma InverseIsInverse(tokens: map<Token, Login>)
    requires LoginsUnique(tokens)
    ensures IsInverse(tokens, Inverse(tokens))
  {
    forall t | t in tokens ensures tokens[t] in Inverse(tokens) && Inverse(tokens)[tokens[t]] == t {
      assert tokens[t] in tokens.Values;
    }
  }

  lemma InverseUnique(tokens: map<Token, Login>, a: map<Login, Token>, b: map<Login, Token>)
    requires IsInverse(tokens, a) && IsInverse(tokens, b)
    ensures a == b
  {
    forall login | login in a ensures login in b && a[login] == b[login] {
      assert tokens[a[login]] == login;
    }
    forall login | login in b ensures login in a {
      assert tokens[b[login]] == login;
    }
  }

  /** The index a registration works with: rebuilt if empty. */
  ghost function IndexFor(m: Memory): map<Login, Token> {
    if m.ownerTokens == map[] then Inverse(m.tokenOwners) else m.ownerTokens
  }

  // ---- Removing owners one by one ----

  /** The owners left, and whether the loop got through the list: it stops before it would empty the set. */
  function Removed(owners: set<Login>, users: seq<Login>): (set<Login>, bool) {
    if users == [] then (owners, true)
    else if |owners| > 1 then Removed(owners - {users[0]}, users[1..])
    else (owners, false)
  }

  function SetOf(users: seq<Login>): set<Login> {
    set i | 0 <= i < |users| :: users[i]
  }

  // ---- One request ----

  ghost function Served(p: Provider, request: Request, loadOk: bool, saveOk: bool): (Provider, Result<(), AuthError>) {
    match request
    case Register(login, newToken) =>
      var m := Loaded(p, loadOk);
      if m.None? then (p, Err(ServiceError)) else Registered(p, m.value, login, newToken, saveOk)
    case AddOwners(token, users, crateName) =>
      var m := Loaded(p, loadOk);
      if token.None? then (p, Err(InvalidCredentials))
      else if m.None? then (p, Err(ServiceError))
      else Added(p, m.value, token.value, users, crateName, saveOk)
    case RemoveOwners(token, users, crateName) =>
      var m := Loaded(p, loadOk);
      if token.None? then (p, Err(InvalidCredentials))
      else if m.None? then (p, Err(ServiceError))
      else Dropped(p, m.value, token.value, users, crateName, saveOk)
    case AuthPublish(token, crateName) =>
      var m := Loaded(p, loadOk);
      if token.None? then (p, Err(InvalidCredentials))
      else if m.None? then (p, Err(ServiceError))
      else Published(p, m.value, token.value, crateName)
    case AuthYank(token, crateName) =>
      var m := Loaded(p, loadOk);
      if token.None? then (p, Err(InvalidCredentials))
      else if m.None? then (p, Err(ServiceError))
      else (p.(mem := m), Authorized(m.value, token.value, crateName))
    case CheckToken(token) =>
      var m := Loaded(p, loadOk);
      if token.None? then (p, Err(InvalidCredentials))
      else if m.None? then (p, Err(ServiceError))
      else (p.(mem := m), Checked(m.value, token.value))
    case ListOwners(crateName) =>
      var m := Loaded(p, loadOk);
      if m.None? then (p, Err(ServiceError))
      else (p.(mem := m), if crateName in m.value.crateOwners then Ok(()) else Err(CrateNotFound))
    case Restart => (p.(mem := None), Ok(()))
  }

  function SaveResult(saveOk: bool): Result<(), AuthError> {
    if saveOk then Ok(()) else Err(ServiceError)
  }

  ghost function Registered(p: Provider, m: Memory, login: Login, newToken: Token, saveOk: bool):
    (Provider, Result<(), AuthError>)
  {
    var index := IndexFor(m);
    if login in index then (p.(mem := Some(m.(ownerTokens := index))), Err(Forbidden))
    else
      var m' := m.(ownerTokens := index[login := newToken], tokenOwners := m.tokenOwners[newToken := login]);
      (Synced(p, m', saveOk), SaveResult(saveOk))
  }

  function Added(p: Provider, m: Memory, token: Token, users: seq<Login>, crateName: string, saveOk: bool):
    (Provider, Result<(), AuthError>)
  {
    var auth := Authorized(m, token, crateName);
    if auth.Err? then (p.(mem := Some(m)), auth)
    else
      var m' := m.(crateOwners := m.crateOwners[crateName := m.crateOwners[crateName] + SetOf(users)]);
      (Synced(p, m', saveOk), SaveResult(saveOk))
  }

  function Dropped(p: Provider, m: Memory, token: Token, users: seq<Login>, crateName: string, saveOk: bool):
    (Provider, Result<(), AuthError>)
  {
    var auth := Authorized(m, token, crateName);
    if auth.Err? then (p.(mem := Some(m)), auth)
    else
      var left := Removed(m.crateOwners[crateName], users);
      var m' := m.(crateOwners := m.crateOwners[crateName := left.0]);
      (Synced(p, m', saveOk), if saveOk && !left.1 then Err(Forbidden) else SaveResult(saveOk))
  }

  /** Nothing is saved: the first publisher's ownership lives in memory until the next save. */
  function Published(p: Provider, m: Memory, token: Token, crateName: string): (Provider, Result<(), AuthError>) {
    if crateName in m.crateOwners then (p.(mem := Some(m)), Authorized(m, token, crateName))
    else
      var login := LoginForToken(m, token);
      if login.Err? then (p.(mem := Some(m)), Err(login.error))
      else (p.(mem := Some(m.(crateOwners := m.crateOwners[crateName := {login.value}]))), Ok(()))
  }

  // ---- What the removal loop does ----

  lemma SetOfCons(users: seq<Login>)
    requires users != []
    ensures SetOf(users) == {users[0]} + SetOf(users[1..])
  {
    assert users == [users[0]] + users[1..];
  }

  lemma FrontOfRest(owners: set<Login>, users: seq<Login>)
    requires |users| > 1
    ensures owners - SetOf(users[..|users| - 1]) ==
            owners - {users[0]} - SetOf(users[1..][..|users[1..]| - 1])
  {
    var front := users[..|users| - 1];
    assert users[1..][..|users[1..]| - 1] == front[1..];
    SetOfCons(front);
  }

  lemma {:induction false} RemovedBounds(owners: set<Login>, users: seq<Login>)
    requires owners != {}
    ensures var left := Removed(owners, users);
            left.0 != {} && left.0 <= owners && owners - SetOf(users) <= left.0 &&
            (left.1 ==> left.0 == owners - SetOf(users)) && (!left.1 ==> |left.0| == 1)
  {
    if users == [] {
    } else if |owners| > 1 {
      var rest := owners - {users[0]};
      SetOfCons(users);
      assert |rest| >= |owners| - 1;
      RemovedBounds(rest, users[1..]);
    }
  }

  /** The loop gets through exactly when more than one owner would be left before the last name. */
  lemma {:induction false} RemovedExactly(owners: set<Login>, users: seq<Login>)
    ensures Removed(owners, users).1 <==> users == [] || |owners - SetOf(users[..|users| - 1])| > 1
  {
    if users == [] {
    } else {
      var front := users[..|users| - 1];
      if |owners| <= 1 {
        assert owners - SetOf(front) <= owners;
        SubsetSize(owners - SetOf(front), owners);
      } else if |users| == 1 {
        assert owners - SetOf(front) == owners;
      } else {
        RemovedExactly(owners - {users[0]}, users[1..]);
        FrontOfRest(owners, users);
      }
    }
  }

  lemma {:induction false} SubsetSize<T>(a: set<T>, b: set<T>)
    requires a <= b
    ensures |a| <= |b|
  {
    assert b == a + (b - a);
  }

  function Without(owners: set<Login>, users: seq<Login>, n: nat): set<Login>
    requires n <= |users|
  {
    owners - set i | 0 <= i < n :: users[i]
  }

  /** The first `n` names went, each while others were left; if names are still to come, one owner is left. */
  ghost predicate StopsAfter(owners: set<Login>, users: seq<Login>, n: nat, left: set<Login>) {
    n <= |users| && left == Without(owners, users, n) && (n < |users| ==> |left| <= 1) &&
    forall m: nat | m < n :: |Without(owners, users, m)| > 1
  }

  /** Names are taken in their order, and the loop stops at the first that would leave nobody. */
  lemma {:induction false} RemovedStops(owners: set<Login>, users: seq<Login>)
    ensures exists n: nat :: StopsAfter(owners, users, n, Removed(owners, users).0) &&
              (Removed(owners, users).1 <==> n == |users|)
  {
    if users == [] || |owners| <= 1 {
      assert StopsAfter(owners, users, 0, Removed(owners, users).0);
    } else {
      var rest := owners - {users[0]};
      RemovedStops(rest, users[1..]);
      var n: nat :| StopsAfter(rest, users[1..], n, Removed(rest, users[1..]).0) &&
        (Removed(rest, users[1..]).1 <==> n == |users[1..]|);
      forall m: nat | m <= n ensures Without(owners, users, m + 1) == Without(rest, users[1..], m) {
        WithoutFirst(owners, users, m);
      }
      forall m: nat | m < n + 1 ensures |Without(owners, users, m)| > 1 {
        if m > 0 {
          assert Without(owners, users, m) == Without(rest, users[1..], m - 1);
        } else {
          assert Without(owners, users, 0) == owners;
        }
      }
      assert StopsAfter(owners, users, n + 1, Removed(owners, users).0);
    }
  }

  lemma WithoutFirst(owners: set<Login>, users: seq<Login>, m: nat)
    requires m < |users|
    ensures Without(owners, users, m + 1) == Without(owners - {users[0]}, users[1..], m)
  {
    var a, b := set i | 0 <= i < m + 1 :: users[i], set i | 0 <= i < m :: users[1..][i];
    forall u | u in a ensures u == users[0] || u in b {
      var i :| 0 <= i < m + 1 && users[i] == u;
      if i > 0 {
        assert users[1..][i - 1] == u;
      }
    }
    forall u | u in b ensures u in a {
      var i :| 0 <= i < m && users[1..][i] == u;
      assert users[i + 1] == u;
    }
    assert users[0] in a;
  }
}
