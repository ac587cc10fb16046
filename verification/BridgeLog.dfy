/** What the router did, and why every forwarded message was due. */
module BridgeLog {
  import opened Options
  import opened ReplyRouteSpec
  import opened ReplyRouteProtocol
  import opened Clients

  /** What a browser asks of the owner of a route. */
  datatype Request =
    | OpenMatch(generation: int, id: string)
    | OpenRule(generation: int, id: string)
    | Navigate(generation: int)
    | Settings

  /** What an IDE tells the origin of a route. */
  datatype Answer =
    | Resolved(ide: Id, generation: int)
    | Sourced(ide: Id, generation: int)
    | MatchesAre(ide: Id, generation: int, ids: set<string>)
    | Invalidated(ide: Id, generation: int)
    | Navigated(ide: Id, generation: int, active: Option<string>)
    | NavigationCleared(ide: Id, generation: int)

  datatype Event =
    | Committed(key: Key, origin: Id, serial: nat)
    | Owned(key: Key, serial: nat, ide: Id)
    | ClaimedBy(key: Key, serial: nat, ide: Id, generation: int, resolved: bool)
    | Matched(key: Key, serial: nat, ide: Id, generation: int, ids: set<string>)
    | Batched(key: Key, serial: nat, ide: Id, generation: int, ids: set<string>)
    | Reply(to: Id, key: Key, serial: nat, answer: Answer)
    | Command(from: Id, to: Id, key: Key, serial: nat, request: Request)
    | Broadcast(to: Id, session: Id)
    | Failure(to: Id)

  // ---- What the log says of a route ----

  /** A claim, or a replacement of match ids, for a route. */
  ghost predicate Resets(ev: Event, serial: nat) {
    (ev.ClaimedBy? || ev.Matched?) && ev.serial == serial
  }

  ghost predicate ClaimsFor(ev: Event, serial: nat) {
    ev.ClaimedBy? && ev.serial == serial
  }

  ghost predicate BatchesFor(ev: Event, serial: nat) {
    ev.Batched? && ev.serial == serial
  }

  /** The claim, match ids and batch that stand for a route after a log. */
  datatype Standing = Standing(resolution: Option<int>, claimed: bool, matchIds: set<string>, rules: Option<int>,
                               openIds: set<string>)

  ghost function Record(log: seq<Event>, serial: nat): Standing {
    if log == [] then Standing(None, false, {}, None, {})
    else
      var before, ev := Record(log[..|log| - 1], serial), log[|log| - 1];
      if ClaimsFor(ev, serial) then before.(resolution := Some(ev.generation), claimed := ev.resolved, matchIds := {})
      else if Resets(ev, serial) then before.(matchIds := ev.ids)
      else if BatchesFor(ev, serial) then before.(rules := Some(ev.generation), openIds := ev.ids)
      else before
  }

  ghost function StandingOf(r: Route): Standing {
    Standing(r.resolution, r.claimed, r.matchIds, r.rules, r.openIds)
  }

  lemma RecordNext(log: seq<Event>, ev: Event, serial: nat)
    ensures Record(log + [ev], serial) ==
      var before := Record(log, serial);
      if ClaimsFor(ev, serial) then before.(resolution := Some(ev.generation), claimed := ev.resolved, matchIds := {})
      else if Resets(ev, serial) then before.(matchIds := ev.ids)
      else if BatchesFor(ev, serial) then before.(rules := Some(ev.generation), openIds := ev.ids)
      else before
  {
    assert (log + [ev])[..|log|] == log;
  }

  /** The next batch of a route is the first one, or a later one than any before. */
  ghost predicate NextBatch(s: Standing, generation: int) {
    if s.rules.None? then generation == 1 else generation > s.rules.value
  }

  ghost predicate Unowned(log: seq<Event>, serial: nat) {
    forall k, ide :: Owned(k, serial, ide) !in log
  }

  /** What must stand for an answer to be sent to a route's origin. */
  ghost predicate AnswerDue(log: seq<Event>, key: Key, serial: nat, answer: Answer) {
    var s := Record(log, serial);
    match answer
    case Resolved(ide, g) => Owned(key, serial, ide) in log && s.resolution == Some(g) && s.claimed && s.matchIds == {}
    case Sourced(ide, g) => (Owned(key, serial, ide) in log || Unowned(log, serial)) && NextBatch(s, g)
    case MatchesAre(ide, g, ids) =>
      Owned(key, serial, ide) in log && s.resolution == Some(g) && s.claimed && s.matchIds == ids
    case Invalidated(ide, g) =>
      s.matchIds == {} && (Unowned(log, serial) || (Owned(key, serial, ide) in log && s.resolution == Some(g) && !s.claimed))
    case Navigated(ide, g, active) =>
      && Owned(key, serial, ide) in log && s.resolution == Some(g) && s.claimed
      && (active.Some? ==> active.value in s.matchIds)
    case NavigationCleared(ide, g) => Unowned(log, serial) || (Owned(key, serial, ide) in log && s.resolution == Some(g))
  }

  /** What must stand for a request to be sent to a route's owner. */
  ghost predicate RequestDue(log: seq<Event>, serial: nat, request: Request) {
    var s := Record(log, serial);
    match request
    case OpenMatch(g, id) => s.resolution == Some(g) && id in s.matchIds
    case OpenRule(g, id) => s.rules == Some(g) && id in s.openIds
    case Navigate(g) => s.resolution == Some(g)
    case Settings => true
  }

  /**
   * A reply goes to the connection that committed the route; a command goes from it to the route's owner. Claims, match ids
   * and batches are the owner's, generations never fall, and match ids are set under a claim at their generation.
   */
  ghost predicate EventDue(log: seq<Event>, ev: Event) {
    match ev
    case Reply(to, key, serial, answer) => Committed(key, to, serial) in log && AnswerDue(log, key, serial, answer)
    case Command(from, to, key, serial, request) =>
      Committed(key, from, serial) in log && Owned(key, serial, to) in log && RequestDue(log, serial, request)
    case ClaimedBy(key, serial, ide, g, _) =>
      var s := Record(log, serial);
      Owned(key, serial, ide) in log && (s.resolution.Some? ==> s.resolution.value <= g)
    case Matched(key, serial, ide, g, _) =>
      Owned(key, serial, ide) in log && Record(log, serial).resolution == Some(g) && Record(log, serial).claimed
    case Batched(key, serial, ide, g, _) => Owned(key, serial, ide) in log && NextBatch(Record(log, serial), g)
    case _ => true
  }

  ghost predicate Due(log: seq<Event>, i: nat)
    requires i < |log|
  {
    EventDue(log[..i], log[i])
  }

  ghost predicate EntryLogged(log: seq<Event>, e: Entry) {
    && Committed(e.key, e.route.origin, e.route.serial) in log
    && (e.route.ide.Some? ==> Owned(e.key, e.route.serial, e.route.ide.value) in log)
    && (e.route.ide.None? ==> Unowned(log, e.route.serial))
    && Record(log, e.route.serial) == StandingOf(e.route)
  }

  ghost predicate IsIdeOf(known: map<Id, Client>, ide: Id, session: Id) {
    ide in known && known[ide].session == session && known[ide].role == Ide
  }

  /** A route is committed by a browser-side connection, and owned by an IDE, of the key's session. */
  ghost predicate CommitProper(ev: Event, serials: nat, known: map<Id, Client>) {
    && (ev.Committed? ==>
          && ev.serial < serials && ev.origin in known && known[ev.origin].session == ev.key.session
          && known[ev.origin].role != Ide)
    && (ev.Owned? ==> ev.serial < serials && IsIdeOf(known, ev.ide, ev.key.session))
    && (ev.ClaimedBy? || ev.Matched? || ev.Batched? ==> ev.serial < serials)
  }

  /** One commit and one owner for each route. */
  ghost predicate Compatible(a: Event, b: Event) {
    && (a.Committed? && b.Committed? && a.serial == b.serial ==> a == b)
    && (a.Owned? && b.Owned? && a.serial == b.serial ==> a == b)
  }

  ghost predicate Justified(log: seq<Event>, st: Store, known: map<Id, Client>) {
    && (forall e :: e in st.table ==> EntryLogged(log, e))
    && (forall ev :: ev in log ==> CommitProper(ev, st.serials, known))
    && (forall a, b :: a in log && b in log ==> Compatible(a, b))
    && (forall i :: 0 <= i < |log| ==> Due(log, i))
  }

  /** The same route with the same owner, claim, match ids and batch. */
  ghost predicate Continues(t: seq<Entry>, e: Entry) {
    exists x :: x in t && x.key == e.key && SameStanding(x.route, e.route)
  }

  ghost predicate SameStanding(r: Route, s: Route) {
    s.serial == r.serial && s.origin == r.origin && s.ide == r.ide && StandingOf(s) == StandingOf(r)
  }

  lemma KeepJustified(log: seq<Event>, st: Store, after: Store, known: map<Id, Client>)
    requires Justified(log, st, known) && after.serials == st.serials
    requires forall e :: e in after.table ==> Continues(st.table, e)
    ensures Justified(log, after, known)
  {
    hide Record;
    forall e | e in after.table ensures EntryLogged(log, e) {
      var x :| x in st.table && x.key == e.key && SameStanding(x.route, e.route);
      assert EntryLogged(log, x);
    }
  }

  lemma ContinuesItself(t: seq<Entry>)
    ensures forall e :: e in t ==> Continues(t, e)
  {
  }

  lemma TouchJustified(log: seq<Event>, st: Store, known: map<Id, Client>, k: Key, r: Route)
    requires Justified(log, st, known) && Find(st.table, k).Some? && SameStanding(Find(st.table, k).value, r)
    ensures Justified(log, Touch(st, k, r), known)
  {
    FindEntry(st.table, k);
    ContinuesItself(st.table);
    forall e | e in Touch(st, k, r).table ensures Continues(st.table, e) {
      assert e in Drop(st.table, k) || e == Entry(k, r, st.revision);
    }
    KeepJustified(log, st, Touch(st, k, r), known);
  }

  lemma RemovalJustified(log: seq<Event>, st: Store, after: Store, known: map<Id, Client>)
    requires Justified(log, st, known) && after.serials == st.serials
    requires forall e :: e in after.table ==> e in st.table
    ensures Justified(log, after, known)
  {
    ContinuesItself(st.table);
    KeepJustified(log, st, after, known);
  }

  /** Appending an event that is due itself keeps every earlier one due. */
  lemma {:induction false} DueAfterAppend(log: seq<Event>, ev: Event)
    requires forall i :: 0 <= i < |log| ==> Due(log, i)
    requires EventDue(log, ev)
    ensures forall i :: 0 <= i < |log + [ev]| ==> Due(log + [ev], i)
  {
    hide EventDue;
    var longer := log + [ev];
    assert longer[..|log|] == log && longer[|log|] == ev;
    forall i | 0 <= i < |log| ensures Due(longer, i) {
      assert longer[..i] == log[..i] && longer[i] == log[i];
      assert Due(log, i);
    }
  }

  /** Appending an event that changes nothing of a route. */
  lemma MessageJustified(log: seq<Event>, st: Store, known: map<Id, Client>, ev: Event)
    requires Justified(log, st, known) && (ev.Reply? || ev.Command? || ev.Broadcast? || ev.Failure?) && EventDue(log, ev)
    ensures Justified(log + [ev], st, known)
  {
    hide Record, EventDue;
    DueAfterAppend(log, ev);
    forall e | e in st.table ensures EntryLogged(log + [ev], e) {
      assert EntryLogged(log, e);
      RecordNext(log, ev, e.route.serial);
    }
  }

  /** A stored route's commit, owner and standing are on record. */
  lemma StoredIsLogged(log: seq<Event>, st: Store, known: map<Id, Client>, k: Key)
    requires Justified(log, st, known) && Find(st.table, k).Some?
    ensures var r := Find(st.table, k).value;
      && Committed(k, r.origin, r.serial) in log && (r.ide.Some? ==> Owned(k, r.serial, r.ide.value) in log)
      && (r.ide.None? ==> Unowned(log, r.serial)) && Record(log, r.serial) == StandingOf(r)
  {
    FindEntry(st.table, k);
    var e :| e in st.table && e.key == k && e.route == Find(st.table, k).value;
    assert EntryLogged(log, e);
  }

  /** The first owner of a route. */
  lemma OwnJustified(log: seq<Event>, st: Store, cap: nat, known: map<Id, Client>, k: Key, r: Route)
    requires Justified(log, st, known) && Kept(st, cap) && Find(st.table, k).Some?
    requires var found := Find(st.table, k).value; found.ide.None? && r.ide.Some? && SameStanding(found.(ide := r.ide), r)
    requires IsIdeOf(known, r.ide.value, k.session)
    ensures Justified(log + [Owned(k, r.serial, r.ide.value)], Touch(st, k, r), known)
  {
    hide Find, Drop, Ordered, ClientKeys, RouteOk, Record, EventDue;
    var ev := Owned(k, r.serial, r.ide.value);
    FoundRouteOk(st, cap, k);
    StoredIsLogged(log, st, known, k);
    NoCondition(log, ev);
    DueAfterAppend(log, ev);
    forall e | e in Touch(st, k, r).table ensures EntryLogged(log + [ev], e) {
      assert e in Drop(st.table, k) || e == Entry(k, r, st.revision);
      RecordNext(log, ev, e.route.serial);
      if e in Drop(st.table, k) {
        assert EntryLogged(log, e);
        SerialsAgree(st.table, k, e);
      }
    }
  }

  lemma NoCondition(log: seq<Event>, ev: Event)
    requires ev.Committed? || ev.Owned?
    ensures EventDue(log, ev)
  {
  }

  /** A claim, match ids or a batch of an owned route, written back with it. */
  lemma WrittenJustified(log: seq<Event>, st: Store, cap: nat, known: map<Id, Client>, k: Key, next: Route, ev: Event)
    requires Justified(log, st, known) && Kept(st, cap) && Find(st.table, k).Some? && EventDue(log, ev)
    requires var found := Find(st.table, k).value;
      && next.serial == found.serial && next.origin == found.origin && next.ide == found.ide && found.ide.Some?
      && (ev.ClaimedBy? || ev.Matched? || ev.Batched?) && ev.serial == found.serial
    requires Record(log + [ev], next.serial) == StandingOf(next)
    ensures Justified(log + [ev], Touch(st, k, next), known)
  {
    hide Find, Drop, Ordered, ClientKeys, RouteOk, Record, EventDue;
    FoundRouteOk(st, cap, k);
    StoredIsLogged(log, st, known, k);
    DueAfterAppend(log, ev);
    forall e | e in Touch(st, k, next).table ensures EntryLogged(log + [ev], e) {
      assert e in Drop(st.table, k) || e == Entry(k, next, st.revision);
      if e in Drop(st.table, k) {
        assert EntryLogged(log, e);
        SerialsAgree(st.table, k, e);
        RecordNext(log, ev, e.route.serial);
      }
    }
  }

  /** Two writes of one route leave what the second one leaves. */
  lemma WrittenTwice(log: seq<Event>, st: Store, known: map<Id, Client>, k: Key, first: Route, next: Route)
    requires Justified(log, Touch(Touch(st, k, first), k, next), known)
    ensures Justified(log, Touch(st, k, next), known)
  {
    hide EntryLogged;
    var twice, once := Touch(Touch(st, k, first), k, next), Touch(st, k, next);
    forall e | e in once.table ensures Continues(twice.table, e) {
      if e.key == k {
        assert e.route == next && Entry(k, next, st.revision + 1) in twice.table;
        assert SameStanding(Entry(k, next, st.revision + 1).route, e.route);
      } else {
        assert e in twice.table && SameStanding(e.route, e.route);
      }
    }
    KeepJustified(log, twice, once, known);
  }

  lemma CreateJustified(log: seq<Event>, st: Store, cap: nat, known: map<Id, Client>, k: Key, c: Id, refs: set<string>)
    requires Justified(log, st, known) && Kept(st, cap) && Register(st, cap, k, c, refs).Create?
    requires c in known && known[c].session == k.session && known[c].role != Ide
    ensures Justified(log + [Committed(k, c, st.serials)], CommitHandle(st, Register(st, cap, k, c, refs)).0, known)
  {
    hide Record, EventDue;
    var ev := Committed(k, c, st.serials);
    var h := Register(st, cap, k, c, refs);
    var after := CommitHandle(st, h).0;
    var roomy := MakeRoom(st, h);
    assert forall x :: x in log ==> CommitProper(x, st.serials, known);
    NothingRecorded(log, st.serials);
    NoCondition(log, ev);
    DueAfterAppend(log, ev);
    forall e | e in after.table ensures EntryLogged(log + [ev], e) {
      assert e in Drop(roomy.table, k) || e == Entry(k, NewRoute(st, c, refs), roomy.revision);
      RecordNext(log, ev, e.route.serial);
      if e in Drop(roomy.table, k) {
        assert e in st.table;
        assert EntryLogged(log, e);
      }
    }
    forall a, b | a in log + [ev] && b in log + [ev] ensures Compatible(a, b) {
      assert a in log ==> CommitProper(a, st.serials, known);
      assert b in log ==> CommitProper(b, st.serials, known);
      assert a in log && b in log ==> Compatible(a, b);
    }
    forall x | x in log + [ev] ensures CommitProper(x, after.serials, known) {
      assert x in log ==> CommitProper(x, st.serials, known);
    }
  }

  /** Nothing is on record for a route that does not exist yet. */
  lemma {:induction false} NothingRecorded(log: seq<Event>, serial: nat)
    requires forall ev :: ev in log && (ev.ClaimedBy? || ev.Matched? || ev.Batched?) ==> ev.serial != serial
    ensures Record(log, serial) == Standing(None, false, {}, None, {})
  {
    if log != [] { NothingRecorded(log[..|log| - 1], serial); }
  }

  /** A newly known connection changes nothing that was logged. */
  lemma KnownJustified(log: seq<Event>, st: Store, known: map<Id, Client>, c: Client)
    requires Justified(log, st, known) && c.id !in known
    ensures Justified(log, st, known[c.id := c])
  {
    forall ev | ev in log ensures CommitProper(ev, st.serials, known[c.id := c]) {
      assert CommitProper(ev, st.serials, known);
    }
  }

  /**
   * A reply about an inspect reaches only the browser-side connection of that session whose own inspect committed the
   * route, and no other connection ever committed it.
   */
  lemma RepliesReachTheirOrigin(log: seq<Event>, st: Store, known: map<Id, Client>, i: nat)
    requires Justified(log, st, known) && i < |log| && log[i].Reply?
    ensures exists j :: 0 <= j < i && log[j] == Committed(log[i].key, log[i].to, log[i].serial)
    ensures log[i].to in known && known[log[i].to].session == log[i].key.session && known[log[i].to].role != Ide
    ensures forall ev :: ev in log && ev.Committed? && ev.serial == log[i].serial ==> ev.origin == log[i].to
  {
    assert Due(log, i);
    var commit := Committed(log[i].key, log[i].to, log[i].serial);
    assert commit in log && CommitProper(commit, st.serials, known);
    forall ev | ev in log && ev.Committed? && ev.serial == log[i].serial ensures ev.origin == log[i].to {
      assert Compatible(ev, commit);
    }
  }

  /** An open, navigate or settings message goes only from a route's origin to the one IDE of the session that owns it. */
  lemma CommandsReachTheOwner(log: seq<Event>, st: Store, known: map<Id, Client>, i: nat)
    requires Justified(log, st, known) && i < |log| && log[i].Command?
    ensures exists j :: 0 <= j < i && log[j] == Committed(log[i].key, log[i].from, log[i].serial)
    ensures exists j :: 0 <= j < i && log[j] == Owned(log[i].key, log[i].serial, log[i].to)
    ensures IsIdeOf(known, log[i].to, log[i].key.session)
    ensures forall ev :: ev in log && ev.Owned? && ev.serial == log[i].serial ==> ev.ide == log[i].to
  {
    assert Due(log, i);
    var own := Owned(log[i].key, log[i].serial, log[i].to);
    assert own in log && CommitProper(own, st.serials, known);
    forall ev | ev in log && ev.Owned? && ev.serial == log[i].serial ensures ev.ide == log[i].to {
      assert Compatible(ev, own);
    }
  }

  // ---- The authority behind a message ----

  /** The claim at `j` is the last one for the route. */
  ghost predicate LastClaim(log: seq<Event>, j: nat, serial: nat, generation: int, resolved: bool) {
    && j < |log| && ClaimsFor(log[j], serial) && log[j].generation == generation && log[j].resolved == resolved
    && forall x :: j < x < |log| ==> !ClaimsFor(log[x], serial)
  }

  /** The match ids at `j` are the last ones for the route, and neither a claim nor an invalidation came since. */
  ghost predicate LastMatches(log: seq<Event>, j: nat, serial: nat, generation: int, ids: set<string>) {
    && j < |log| && log[j].Matched? && log[j].serial == serial && log[j].generation == generation && log[j].ids == ids
    && forall x :: j < x < |log| ==> !Resets(log[x], serial)
  }

  ghost predicate LastBatch(log: seq<Event>, j: nat, serial: nat, generation: int, ids: set<string>) {
    && j < |log| && BatchesFor(log[j], serial) && log[j].generation == generation && log[j].ids == ids
    && forall x :: j < x < |log| ==> !BatchesFor(log[x], serial)
  }

  /** The claim on record is the last one in the log. */
  lemma {:induction false} ClaimOnRecord(log: seq<Event>, serial: nat, generation: int, resolved: bool)
    ensures Record(log, serial).resolution == Some(generation) && Record(log, serial).claimed == resolved
       <==> exists j :: LastClaim(log, j, serial, generation, resolved)
  {
    if log != [] {
      var n := |log| - 1;
      ClaimOnRecord(log[..n], serial, generation, resolved);
      if ClaimsFor(log[n], serial) {
        if log[n].generation == generation && log[n].resolved == resolved {
          assert LastClaim(log, n, serial, generation, resolved);
        }
      } else {
        if j :| LastClaim(log[..n], j, serial, generation, resolved) {
          assert LastClaim(log, j, serial, generation, resolved);
        }
        if j :| LastClaim(log, j, serial, generation, resolved) {
          assert LastClaim(log[..n], j, serial, generation, resolved);
        }
      }
    }
  }

  /** The batch on record is the last one in the log. */
  lemma {:induction false} BatchOnRecord(log: seq<Event>, serial: nat, generation: int, ids: set<string>)
    ensures Record(log, serial).rules == Some(generation) && Record(log, serial).openIds == ids
       <==> exists j :: LastBatch(log, j, serial, generation, ids)
  {
    if log != [] {
      var n := |log| - 1;
      BatchOnRecord(log[..n], serial, generation, ids);
      if BatchesFor(log[n], serial) {
        if log[n].generation == generation && log[n].ids == ids { assert LastBatch(log, n, serial, generation, ids); }
      } else {
        if j :| LastBatch(log[..n], j, serial, generation, ids) { assert LastBatch(log, j, serial, generation, ids); }
        if j :| LastBatch(log, j, serial, generation, ids) { assert LastBatch(log[..n], j, serial, generation, ids); }
      }
    }
  }

  /** Match ids on record, if there are any, are the last ones in the log, at the generation of the last claim. */
  lemma {:induction false} MatchesOnRecord(log: seq<Event>, serial: nat, generation: int, ids: set<string>)
    requires ids != {} && forall i :: 0 <= i < |log| ==> Due(log, i)
    ensures Record(log, serial).resolution == Some(generation) && Record(log, serial).matchIds == ids
       <==> exists j :: LastMatches(log, j, serial, generation, ids)
  {
    if log != [] {
      var n := |log| - 1;
      var init := log[..n];
      forall i | 0 <= i < n ensures Due(init, i) { assert Due(log, i) && init[..i] == log[..i] && init[i] == log[i]; }
      MatchesOnRecord(init, serial, generation, ids);
      if Resets(log[n], serial) {
        assert Due(log, n);
        if log[n].Matched? && log[n].generation == generation && log[n].ids == ids {
          assert LastMatches(log, n, serial, generation, ids);
        }
      } else {
        if j :| LastMatches(init, j, serial, generation, ids) { assert LastMatches(log, j, serial, generation, ids); }
        if j :| LastMatches(log, j, serial, generation, ids) { assert LastMatches(init, j, serial, generation, ids); }
      }
    }
  }

  /** Whose match ids stand. */
  lemma MatchesOfTheOwner(log: seq<Event>, st: Store, known: map<Id, Client>, i: nat, j: nat, owner: Event)
    requires Justified(log, st, known) && j < i <= |log| && owner.Owned? && owner in log
    requires (log[j].Matched? || log[j].ClaimedBy? || log[j].Batched?) && log[j].serial == owner.serial
    ensures log[j].ide == owner.ide && log[j].key == owner.key
  {
    hide Record;
    assert Due(log, j);
    assert Compatible(Owned(log[j].key, log[j].serial, log[j].ide), owner);
  }

  /** Before `i` the IDE last published match ids for the route at this generation, and this is one that stands. */
  ghost predicate MatchesBehind(log: seq<Event>, i: nat, key: Key, serial: nat, ide: Id, generation: int, id: string)
    requires i <= |log|
  {
    exists j: nat, ids ::
      LastMatches(log[..i], j, serial, generation, ids) && log[j] == Matched(key, serial, ide, generation, ids) && id in ids
  }

  ghost predicate BatchBehind(log: seq<Event>, i: nat, key: Key, serial: nat, ide: Id, generation: int, id: string)
    requires i <= |log|
  {
    exists j: nat, ids ::
      LastBatch(log[..i], j, serial, generation, ids) && log[j] == Batched(key, serial, ide, generation, ids) && id in ids
  }

  ghost predicate ClaimBehind(log: seq<Event>, i: nat, key: Key, serial: nat, ide: Id, generation: int)
    requires i <= |log|
  {
    exists j: nat, resolved ::
      LastClaim(log[..i], j, serial, generation, resolved) && log[j] == ClaimedBy(key, serial, ide, generation, resolved)
  }

  /**
   * A forwarded open names an id of the last matches that the owner it goes to published for the route, at that generation,
   * and no claim, invalidation or newer matches came between. It is the same with the last batch for the open of a rule,
   * and with the generation of the last claim for a navigation.
   */
  lemma CommandsStandOnTheOwner(log: seq<Event>, st: Store, known: map<Id, Client>, i: nat)
    requires Justified(log, st, known) && i < |log| && log[i].Command?
    ensures var (key, serial, ide) := (log[i].key, log[i].serial, log[i].to);
      match log[i].request
      case OpenMatch(g, id) => MatchesBehind(log, i, key, serial, ide, g, id)
      case OpenRule(g, id) => BatchBehind(log, i, key, serial, ide, g, id)
      case Navigate(g) => ClaimBehind(log, i, key, serial, ide, g)
      case Settings => true
  {
    hide Record, EventDue;
    var (serial, before) := (log[i].serial, log[..i]);
    CommandDue(log, i);
    forall x | 0 <= x < i ensures Due(before, x) { assert Due(log, x) && before[..x] == log[..x] && before[x] == log[x]; }
    var owner := Owned(log[i].key, serial, log[i].to);
    match log[i].request
    case OpenMatch(g, id) =>
      var ids := Record(before, serial).matchIds;
      MatchesOnRecord(before, serial, g, ids);
      var j: nat :| LastMatches(before, j, serial, g, ids);
      MatchesOfTheOwner(log, st, known, i, j, owner);
    case OpenRule(g, id) =>
      var ids := Record(before, serial).openIds;
      BatchOnRecord(before, serial, g, ids);
      var j: nat :| LastBatch(before, j, serial, g, ids);
      MatchesOfTheOwner(log, st, known, i, j, owner);
      assert log[j] == Batched(log[i].key, serial, log[i].to, g, ids);
    case Navigate(g) =>
      var resolved := Record(before, serial).claimed;
      ClaimOnRecord(before, serial, g, resolved);
      var j: nat :| LastClaim(before, j, serial, g, resolved);
      MatchesOfTheOwner(log, st, known, i, j, owner);
      assert log[j] == ClaimedBy(log[i].key, serial, log[i].to, g, resolved);
      assert LastClaim(log[..i], j, serial, g, resolved);
    case Settings =>
  }

  lemma CommandDue(log: seq<Event>, i: nat)
    requires i < |log| && log[i].Command? && Due(log, i)
    ensures RequestDue(log[..i], log[i].serial, log[i].request) && Owned(log[i].key, log[i].serial, log[i].to) in log[..i]
  {
  }

  /**
   * A resolution, matches and an active navigation state come from the owner, at the generation of its last claim, which is
   * a resolution; the matches sent are the last ones, and an active id is one of them.
   */
  lemma AnswersStandOnTheOwner(log: seq<Event>, st: Store, known: map<Id, Client>, i: nat)
    requires Justified(log, st, known) && i < |log| && log[i].Reply?
    requires log[i].answer.Resolved? || log[i].answer.MatchesAre? || log[i].answer.Navigated?
    ensures var (key, serial, answer) := (log[i].key, log[i].serial, log[i].answer);
      && (exists j: nat :: LastClaim(log[..i], j, serial, answer.generation, true)
                      && log[j] == ClaimedBy(key, serial, answer.ide, answer.generation, true))
      && (answer.MatchesAre? && answer.ids != {} ==>
            exists j :: LastMatches(log[..i], j, serial, answer.generation, answer.ids))
      && (answer.Navigated? && answer.active.Some? ==>
            exists j: nat, ids :: LastMatches(log[..i], j, serial, answer.generation, ids) && answer.active.value in ids)
  {
    hide Record, EventDue;
    var (serial, before, answer) := (log[i].serial, log[..i], log[i].answer);
    ReplyDue(log, i);
    forall x | 0 <= x < i ensures Due(before, x) { assert Due(log, x) && before[..x] == log[..x] && before[x] == log[x]; }
    ClaimOnRecord(before, serial, answer.generation, true);
    var j: nat :| LastClaim(before, j, serial, answer.generation, true);
    MatchesOfTheOwner(log, st, known, i, j, Owned(log[i].key, serial, answer.ide));
    if Record(before, serial).matchIds != {} {
      MatchesOnRecord(before, serial, answer.generation, Record(before, serial).matchIds);
    }
  }

  lemma ReplyDue(log: seq<Event>, i: nat)
    requires i < |log| && log[i].Reply? && Due(log, i)
    ensures AnswerDue(log[..i], log[i].key, log[i].serial, log[i].answer)
  {
  }
}
