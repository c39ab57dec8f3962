/** How far the owners file lags behind the memory: what saves it, and what a restart forgets. */
module OwnershipDisk {
  import opened Ownership
  import opened OwnershipRuns
  import opened Wrappers

  /** The request writes the owners file: a registration that is not refused, or an owner's change of owners. */
  ghost predicate Saves(p: Provider, e: Event) {
    e.saveOk && Loaded(p, e.loadOk).Some? &&
    var m := Loaded(p, e.loadOk).value;
    match e.request
    case Register(login, _) => login !in IndexFor(m)
    case AddOwners(token, _, c) => token.Some? && Authorized(m, token.value, c).Ok?
    case RemoveOwners(token, _, c) => token.Some? && Authorized(m, token.value, c).Ok?
    case _ => false
  }

  /** The file changes exactly with a save, which makes it a copy of the memory. */
  lemma DiskChangesExactly(p: Provider, e: Event)
    ensures Saves(p, e) ==> Next(p, e).mem.Some? && Next(p, e).disk == Some(SavedOf(Next(p, e).mem.value))
    ensures !Saves(p, e) ==> Next(p, e).disk == p.disk
  {
  }

  /** A registration or a change of owners that says Ok has been saved, whatever failed before. */
  lemma OkIsOnDisk(p: Provider, e: Event)
    requires e.request.Register? || e.request.AddOwners? || e.request.RemoveOwners?
    requires Answer(p, e).Ok?
    ensures Saves(p, e)
  {
  }

  // ---- Crates the file does not know ----

  /** The crates whose ownership a restart would forget. */
  ghost function Unsaved(p: Provider): set<string> {
    if p.mem.None? then {} else p.mem.value.crateOwners.Keys - DiskOf(p).crateOwners.Keys
  }

  /** Whatever the file knows, the memory knows. */
  ghost predicate Covers(p: Provider) {
    p.mem.Some? ==> DiskOf(p).crateOwners.Keys <= p.mem.value.crateOwners.Keys
  }

  /** After such a request there is nothing a restart would forget. */
  ghost predicate Settles(p: Provider, e: Event) {
    e.request.Restart? || Saves(p, e)
  }

  /** A first publish leaves its crate unsaved, a save or a restart leaves none, and nothing else matters. */
  lemma UnsavedExactly(p: Provider, e: Event)
    requires Covers(p)
    ensures Covers(Next(p, e))
    ensures Unsaved(Next(p, e)) ==
            if Settles(p, e) then {}
            else if FirstPublish(p, e) then Unsaved(p) + {e.request.crateName}
            else Unsaved(p)
  {
    DiskChangesExactly(p, e);
  }

  /** Event `n` is the first publish of `c`, and no save or restart came after it. */
  ghost predicate UnsavedSince(p: Provider, events: seq<Event>, n: nat, c: string) {
    n < |events| && FirstPublish(RunFrom(p, events[..n]), events[n]) && events[n].request.crateName == c &&
    NoneSettles(p, events, n)
  }

  ghost predicate NoneSettles(p: Provider, events: seq<Event>, n: nat) {
    forall i | n < i < |events| :: !Settles(RunFrom(p, events[..i]), events[i])
  }

  lemma NoneSettlesOneMore(p: Provider, events: seq<Event>, n: nat)
    requires n + 1 < |events|
    ensures var m := |events| - 1;
            NoneSettles(p, events, n) <==>
            NoneSettles(p, events[..m], n) && !Settles(RunFrom(p, events[..m]), events[m])
  {
    var m := |events| - 1;
    var front := events[..m];
    forall i: nat | i < m ensures front[..i] == events[..i] && front[i] == events[i] {
    }
  }

  lemma UnsavedSinceOneMore(p: Provider, events: seq<Event>, n: nat, c: string)
    requires n + 1 < |events|
    ensures var m := |events| - 1;
            UnsavedSince(p, events, n, c) <==>
            UnsavedSince(p, events[..m], n, c) && !Settles(RunFrom(p, events[..m]), events[m])
  {
    assert events[..|events| - 1][..n] == events[..n];
    NoneSettlesOneMore(p, events, n);
  }

  lemma {:induction false} RunCovers(p: Provider, events: seq<Event>)
    requires Covers(p)
    ensures Covers(RunFrom(p, events))
  {
    if events != [] {
      RunCovers(p, events[..|events| - 1]);
      UnsavedExactly(RunFrom(p, events[..|events| - 1]), events[|events| - 1]);
    }
  }

  /** In every run, whatever loads and saves fail, a restart would forget exactly the owners of the crates first
      published since the last save or restart. */
  lemma {:induction false} ForgottenExactly(p: Provider, events: seq<Event>, c: string)
    requires p.mem.None?
    ensures c in Unsaved(RunFrom(p, events)) <==> exists n: nat :: UnsavedSince(p, events, n, c)
  {
    if events != [] {
      var m := |events| - 1;
      var before := RunFrom(p, events[..m]);
      ForgottenExactly(p, events[..m], c);
      RunCovers(p, events[..m]);
      UnsavedExactly(before, events[m]);
      ForgottenOneMore(p, events, c);
    }
  }

  /** One more event, seen from the events a crate can be unsaved since. */
  lemma ForgottenOneMore(p: Provider, events: seq<Event>, c: string)
    requires events != []
    ensures var m := |events| - 1;
            var before := RunFrom(p, events[..m]);
            (exists n: nat :: UnsavedSince(p, events, n, c)) <==>
            (FirstPublish(before, events[m]) && events[m].request.crateName == c) ||
            ((exists n: nat :: UnsavedSince(p, events[..m], n, c)) && !Settles(before, events[m]))
  {
    var m := |events| - 1;
    var before := RunFrom(p, events[..m]);
    if n: nat :| UnsavedSince(p, events, n, c) && n < m {
      UnsavedSinceOneMore(p, events, n, c);
    }
    if n: nat :| UnsavedSince(p, events[..m], n, c) && !Settles(before, events[m]) {
      UnsavedSinceOneMore(p, events, n, c);
    }
    if FirstPublish(before, events[m]) && events[m].request.crateName == c {
      assert UnsavedSince(p, events, m, c);
    }
  }

  // ---- Runs whose saves succeed ----

  /** `c` has one owner, the login whose first publish of it has not been saved since. */
  ghost predicate OwnedByPublisher(p: Provider, events: seq<Event>, m: Memory, c: string) {
    exists n: nat, login :: UnsavedSince(p, events, n, c) &&
      FirstPublishBy(RunFrom(p, events[..n]), events[n], login, c) && c in m.crateOwners && m.crateOwners[c] == {login}
  }

  /** The memory is the file's tokens and owners, and crates first published since, each owned by its publisher. */
  ghost predicate Lagging(p: Provider, events: seq<Event>) {
    var now := RunFrom(p, events);
    now.mem.Some? ==>
      now.mem.value.tokenOwners == DiskOf(now).tokenOwners &&
      (forall c | c in DiskOf(now).crateOwners ::
        c in now.mem.value.crateOwners && now.mem.value.crateOwners[c] == DiskOf(now).crateOwners[c]) &&
      forall c | c in now.mem.value.crateOwners && c !in DiskOf(now).crateOwners ::
        OwnedByPublisher(p, events, now.mem.value, c)
  }

  /** A request that saves nothing, when saves succeed, leaves tokens and owners, or publishes a crate for the first
      time. */
  lemma QuietRequest(p: Provider, e: Event)
    requires e.saveOk && !Settles(p, e) && Next(p, e).mem.Some?
    ensures Loaded(p, e.loadOk).Some? || p.mem.Some?
    ensures var m, m' := (if p.mem.Some? then p.mem.value else Loaded(p, e.loadOk).value), Next(p, e).mem.value;
            m'.tokenOwners == m.tokenOwners &&
            if FirstPublish(p, e) then
              exists login :: FirstPublishBy(p, e, login, e.request.crateName) &&
                m'.crateOwners == m.crateOwners[e.request.crateName := {login}]
            else m'.crateOwners == m.crateOwners
  {
    if FirstPublish(p, e) {
      var m := Loaded(p, e.loadOk).value;
      assert FirstPublishBy(p, e, m.tokenOwners[e.request.token.value], e.request.crateName);
    }
  }

  lemma OwnedByPublisherLonger(p: Provider, events: seq<Event>, m: Memory, m': Memory, c: string)
    requires events != [] && OwnedByPublisher(p, events[..|events| - 1], m, c)
    requires !Settles(RunFrom(p, events[..|events| - 1]), events[|events| - 1])
    requires c in m.crateOwners && c in m'.crateOwners && m'.crateOwners[c] == m.crateOwners[c]
    ensures OwnedByPublisher(p, events, m', c)
  {
    var front := events[..|events| - 1];
    var n: nat, login :| UnsavedSince(p, front, n, c) &&
      FirstPublishBy(RunFrom(p, front[..n]), front[n], login, c) && m.crateOwners[c] == {login};
    UnsavedSinceOneMore(p, events, n, c);
    assert front[..n] == events[..n];
  }

  lemma NewlyOwned(p: Provider, events: seq<Event>, m': Memory, login: Login, c: string)
    requires events != []
    requires FirstPublishBy(RunFrom(p, events[..|events| - 1]), events[|events| - 1], login, c)
    requires c in m'.crateOwners && m'.crateOwners[c] == {login}
    ensures OwnedByPublisher(p, events, m', c)
  {
    assert UnsavedSince(p, events, |events| - 1, c);
  }

  lemma LagsOneMore(p: Provider, events: seq<Event>)
    requires events != [] && events[|events| - 1].saveOk && Lagging(p, events[..|events| - 1])
    ensures Lagging(p, events)
  {
    var front, e := events[..|events| - 1], events[|events| - 1];
    var before, now := RunFrom(p, front), RunFrom(p, events);
    DiskChangesExactly(before, e);
    if now.mem.Some? && !Settles(before, e) {
      QuietRequest(before, e);
      var m := if before.mem.Some? then before.mem.value else Loaded(before, e.loadOk).value;
      forall c | c in now.mem.value.crateOwners && c !in DiskOf(now).crateOwners
        ensures OwnedByPublisher(p, events, now.mem.value, c)
      {
        if FirstPublish(before, e) && c == e.request.crateName {
          var login :| FirstPublishBy(before, e, login, c) && now.mem.value.crateOwners == m.crateOwners[c := {login}];
          NewlyOwned(p, events, now.mem.value, login, c);
        } else {
          OwnedByPublisherLonger(p, events, m, now.mem.value, c);
        }
      }
    }
  }

  /** If saves succeed, the memory exceeds the file only by the crates first published since the last save or restart,
      each owned by its publisher alone. */
  lemma {:induction false} RunLags(p: Provider, events: seq<Event>)
    requires p.mem.None? && forall i | 0 <= i < |events| :: events[i].saveOk
    ensures Lagging(p, events)
  {
    if events != [] {
      RunLags(p, events[..|events| - 1]);
      LagsOneMore(p, events);
    }
  }
}
