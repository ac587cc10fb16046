/** The message router: every branch of `routeMessage` over the registries, with a ghost log of what it did. */
module BridgeRouter {
  import opened Options
  import opened ReplyRouteSpec
  import opened ReplyRouteProtocol
  import opened ReplyRoutes
  import opened Clients
  import opened BridgeLog

  datatype Message =
    | Inspect(key: Key, role: Role, sourceId: string, ruleRefs: set<string>)
    | Resolution(key: Key, sourceId: string, generation: int)
    | RulesSources(key: Key, sourceId: string, generation: int, sources: seq<RuleSource>, unresolved: int)
    | SourceMatches(key: Key, sourceId: string, generation: int, matchIds: seq<string>, omitted: nat)
    | SourceOpen(key: Key, generation: int, matchId: string)
    | RulesOpen(key: Key, generation: int, authorityId: string)
    | PresentationSettings(key: Key)
    | SourceNavigate(key: Key, generation: int)
    | NavigationState(key: Key, sourceId: string, generation: int, selected: nat, activeIndex: Option<nat>, activeId: Option<string>)
    | PageRefresh(key: Key, sourceId: string)

  /** The connections a registry mentions. */
  ghost function IdsIn(t: seq<Entry>): set<Id> {
    (set e | e in t :: e.route.origin) + (set e | e in t && e.route.ide.Some? :: e.route.ide.value)
  }

  predicate IsBrowserSide(c: Client) {
    c.role.Browser? || c.role.Simulator?
  }

  function Supports(c: Client, capability: Capability): bool {
    capability in c.capabilities
  }

  /** The gate on messages an IDE sends about an inspect. */
  predicate FromIde(sender: Client, m: Message, sourceId: string, capability: Capability) {
    sender.role.Ide? && sourceId == sender.sourceId && m.key.session == sender.session && Supports(sender, capability)
  }

  predicate FromBrowser(sender: Client, m: Message, capability: Capability) {
    IsBrowserSide(sender) && m.key.session == sender.session && Supports(sender, capability)
  }

  /** What a sender must have announced for a message of this kind. */
  ghost function Needed(m: Message): set<Capability> {
    match m
    case Inspect(_, _, _, _) => {InspectCapability}
    case Resolution(_, _, _) => {ResolutionCapability}
    case RulesSources(_, _, _, _, _) => {RulesSourcesCapability}
    case SourceMatches(_, _, _, ids, omitted) =>
      if ids == [] && omitted == 0 then {SourcePresentationCapability, ResolutionCapability} else {SourcePresentationCapability}
    case SourceOpen(_, _, _) => {SourcePresentationCapability}
    case RulesOpen(_, _, _) => {RulesSourcesCapability}
    case PresentationSettings(_) => {PresentationSettingsCapability}
    case SourceNavigate(_, _) => {SourceNavigationCapability}
    case NavigationState(_, _, _, _, _, _) => {SourceNavigationCapability}
    case PageRefresh(_, _) => {AutoRefreshCapability}
  }

  /** A message about the sender's own session, of its side of the bridge, under its own name, that it announced to send. */
  ghost predicate Genuine(sender: Client, m: Message) {
    && m.key.session == sender.session && Needed(m) <= sender.capabilities
    && match m
       case Inspect(_, role, sourceId, _) => sender.role != Ide && role == sender.role && sourceId == sender.sourceId
       case SourceOpen(_, _, _) => sender.role != Ide
       case RulesOpen(_, _, _) => sender.role != Ide
       case PresentationSettings(_) => sender.role != Ide
       case SourceNavigate(_, _) => sender.role != Ide
       case _ => sender.role == Ide && m.sourceId == sender.sourceId
  }

  /** The gates of the branches let exactly the genuine messages through. */
  lemma GatesAreGenuine(sender: Client, m: Message)
    ensures Genuine(sender, m) <==>
      match m
      case Inspect(_, role, sourceId, _) =>
        FromBrowser(sender, m, InspectCapability) && role == sender.role && sourceId == sender.sourceId
      case Resolution(_, sourceId, _) => FromIde(sender, m, sourceId, ResolutionCapability)
      case RulesSources(_, sourceId, _, _, _) => FromIde(sender, m, sourceId, RulesSourcesCapability)
      case SourceMatches(_, _, _, _, _) => MatchesAllowed(sender, m)
      case RulesOpen(_, _, _) => FromBrowser(sender, m, RulesSourcesCapability)
      case NavigationState(_, sourceId, _, _, _, _) => FromIde(sender, m, sourceId, SourceNavigationCapability)
      case PageRefresh(_, sourceId) => FromIde(sender, m, sourceId, AutoRefreshCapability)
      case _ => FromBrowser(sender, m, CommandCapability(m))
  {
  }

  function OriginRecipient(clients: map<Id, Client>, k: Key, r: Route): Option<Client> {
    if r.origin in clients && clients[r.origin].session == k.session && IsBrowserSide(clients[r.origin])
    then Some(clients[r.origin]) else None
  }

  function IdeRecipient(clients: map<Id, Client>, k: Key, r: Route): Option<Client> {
    if r.ide.Some? && r.ide.value in clients && clients[r.ide.value].session == k.session && clients[r.ide.value].role.Ide?
    then Some(clients[r.ide.value]) else None
  }

  lemma TouchIds(st: Store, k: Key, r: Route)
    requires Find(st.table, k).Some? && r.origin == Find(st.table, k).value.origin
    ensures IdsIn(Touch(st, k, r).table) <= IdsIn(st.table) + if r.ide.Some? then {r.ide.value} else {}
  {
    FindEntry(st.table, k);
    forall e | e in Touch(st, k, r).table ensures e in st.table || e == Entry(k, r, st.revision) {
      assert e in Drop(st.table, k) || e == Entry(k, r, st.revision);
    }
  }

  lemma SubtableIds(t: seq<Entry>, less: seq<Entry>)
    requires forall e :: e in less ==> e in t
    ensures IdsIn(less) <= IdsIn(t)
  {
  }

  lemma CreateIds(st: Store, cap: nat, k: Key, c: Id, refs: set<string>)
    requires Register(st, cap, k, c, refs).Create?
    ensures IdsIn(CommitHandle(st, Register(st, cap, k, c, refs)).0.table) <= IdsIn(st.table) + {c}
  {
    var h := Register(st, cap, k, c, refs);
    var roomy := MakeRoom(st, h);
    var added := Entry(k, NewRoute(st, c, refs), roomy.revision);
    forall e | e in CommitHandle(st, h).0.table ensures e in st.table || e == added {
      assert e in Drop(roomy.table, k) || e == added;
    }
  }

  lemma OwnedId(t: seq<Entry>, k: Key)
    requires Find(t, k).Some?
    ensures Find(t, k).value.origin in IdsIn(t)
    ensures Find(t, k).value.ide.Some? ==> Find(t, k).value.ide.value in IdsIn(t)
  {
    FindEntry(t, k);
  }

  /** The log after a route is written back: a first owner is recorded. */
  ghost function OwnerLogged(log: seq<Event>, k: Key, before: Route, next: Route): seq<Event> {
    if before.ide.None? && next.ide.Some? then log + [Owned(k, next.serial, next.ide.value)] else log
  }

  /** The first owner of a route, when it had none. */
  ghost function NewOwner(k: Key, r: Route, ide: Id): seq<Event> {
    if r.ide.None? then [Owned(k, r.serial, ide)] else []
  }

  /** A claim, match ids or a batch written back with its route, and a first owner before it. */
  lemma WriteJustified(log: seq<Event>, st: Store, cap: nat, known: map<Id, Client>, k: Key, next: Route, ev: Event)
    requires Justified(log, st, known) && Kept(st, cap) && Find(st.table, k).Some?
    requires var found := Find(st.table, k).value;
      && next.serial == found.serial && next.origin == found.origin && next.ide.Some?
      && if found.ide.Some? then next.ide == found.ide else IsIdeOf(known, next.ide.value, k.session)
    requires (ev.ClaimedBy? || ev.Matched? || ev.Batched?) && ev.serial == next.serial
    requires EventDue(OwnerLogged(log, k, Find(st.table, k).value, next), ev)
    requires Record(OwnerLogged(log, k, Find(st.table, k).value, next) + [ev], next.serial) == StandingOf(next)
    ensures Justified(OwnerLogged(log, k, Find(st.table, k).value, next) + [ev], Touch(st, k, next), known)
    ensures IdsIn(Touch(st, k, next).table) <= IdsIn(st.table) + {next.ide.value}
  {
    hide Justified, Kept, Find, Drop, IdsIn, Record, EventDue, Put;
    var found := Find(st.table, k).value;
    TouchIds(st, k, next);
    if found.ide.Some? {
      WrittenJustified(log, st, cap, known, k, next, ev);
    } else {
      var adopted := found.(ide := next.ide);
      FoundRouteOk(st, cap, k);
      OwnJustified(log, st, cap, known, k, adopted);
      TouchKeeps(st, cap, k, adopted);
      PutFound(st.table, k, adopted, st.revision);
      WrittenJustified(log + [Owned(k, next.serial, next.ide.value)], Touch(st, k, adopted), cap, known, k, next, ev);
      WrittenTwice(log + [Owned(k, next.serial, next.ide.value)] + [ev], st, known, k, adopted, next);
    }
  }

  /** A first owner is on record then, and nothing else of the route changed. */
  lemma OwnerOnRecord(log: seq<Event>, k: Key, before: Route, next: Route)
    requires next.ide.Some? && next.serial == before.serial && (before.ide.Some? ==> next.ide == before.ide)
    requires before.ide.Some? ==> Owned(k, before.serial, before.ide.value) in log
    ensures Owned(k, next.serial, next.ide.value) in OwnerLogged(log, k, before, next)
    ensures Record(OwnerLogged(log, k, before, next), next.serial) == Record(log, next.serial)
    ensures forall ev :: ev in log ==> ev in OwnerLogged(log, k, before, next)
  {
    if before.ide.None? { RecordNext(log, Owned(k, next.serial, next.ide.value), next.serial); }
  }

  /** A use that changes nothing but the order. */
  lemma UseJustified(log: seq<Event>, st: Store, known: map<Id, Client>, k: Key)
    requires Justified(log, st, known) && Find(st.table, k).Some?
    ensures Justified(log, Touch(st, k, Find(st.table, k).value), known)
    ensures IdsIn(Touch(st, k, Find(st.table, k).value).table) <= IdsIn(st.table)
  {
    hide Justified, Find, Drop, IdsIn;
    OwnedId(st.table, k);
    TouchIds(st, k, Find(st.table, k).value);
    TouchJustified(log, st, known, k, Find(st.table, k).value);
  }

  lemma RemoveJustified(log: seq<Event>, st: Store, known: map<Id, Client>, k: Key)
    requires Justified(log, st, known)
    ensures Justified(log, RemoveKey(st, k), known) && IdsIn(RemoveKey(st, k).table) <= IdsIn(st.table)
  {
    hide Justified;
    RemovalJustified(log, st, RemoveKey(st, k), known);
    SubtableIds(st.table, RemoveKey(st, k).table);
  }

  class BridgeRouter {
    const clients: ClientRegistry
    const routes: ReplyRouteRegistry
    ghost var log: seq<Event>
    // Every client there ever was, as it registered.
    ghost var known: map<Id, Client>

    ghost predicate Valid()
      reads this, clients, routes
    {
      clients.Valid() && routes.Valid() && ClientsKnown() && Justified(log, routes.View(), known)
    }

    ghost predicate ClientsKnown()
      reads this, clients
    {
      forall id :: id in clients.clients ==> id in known && known[id] == Identity(clients.clients[id])
    }

    ghost predicate Knows(c: Client)
      reads this
    {
      c.id in known && known[c.id] == Identity(c)
    }

    constructor (clients: ClientRegistry, routes: ReplyRouteRegistry)
      requires clients.Valid() && clients.clients == map[] && routes.Valid() && routes.View() == Start().st
      ensures Valid() && this.clients == clients && this.routes == routes && log == [] && known == map[]
    {
      this.clients, this.routes := clients, routes;
      log, known := [], map[];
    }

    /** A connection has registered: from now on it is known, as it was then. */
    ghost method Know(c: Client)
      requires Valid() && c.id !in known && c.missedPongs == 0
      modifies this`known
      ensures Valid() && known == old(known)[c.id := c]
    {
      hide Justified;
      KnownJustified(log, routes.View(), known, c);
      known := known[c.id := c];
    }

    /** Deliver a message when its connection takes it. */
    method Send(to: Id, ghost ev: Event, delivers: Id -> bool) returns (ok: bool)
      requires Valid() && (ev.Reply? || ev.Command? || ev.Broadcast?) && EventDue(log, ev)
      modifies this`log
      ensures Valid() && ok == delivers(to)
      ensures log == if ok then old(log) + [ev] else old(log)
    {
      hide Justified;
      MessageJustified(log, routes.View(), known, ev);
      ok := delivers(to);
      if ok { log := log + [ev]; }
    }

    /** `sendError`: an error to the sender, whether or not it arrives. */
    method Fail(sender: Client)
      requires Valid()
      modifies this`log
      ensures Valid() && log == old(log) + [Failure(sender.id)]
    {
      hide Justified;
      MessageJustified(log, routes.View(), known, Failure(sender.id));
      log := log + [Failure(sender.id)];
    }

    /** `sendToClients`: how many connections took the message. */
    method SendToAll(to: set<Id>, session: Id, delivers: Id -> bool) returns (sent: nat)
      requires Valid()
      modifies this`log
      ensures Valid() && old(log) <= log
      ensures forall ev :: ev in log[|old(log)|..] <==> ev.Broadcast? && ev.session == session && ev.to in to && delivers(ev.to)
      ensures (sent > 0 <==> exists id :: id in to && delivers(id)) && (sent == 0 ==> log == old(log))
    {
      hide Justified;
      var left := to;
      sent := 0;
      while left != {}
        invariant Valid() && left <= to && old(log) <= log
        invariant forall ev :: ev in log[|old(log)|..] <==>
                    ev.Broadcast? && ev.session == session && ev.to in to - left && delivers(ev.to)
        invariant (sent > 0 <==> exists id :: id in to - left && delivers(id)) && (sent == 0 ==> log == old(log))
        decreases left
      {
        var id :| id in left;
        ghost var before := log;
        var ok := Send(id, Broadcast(id, session), delivers);
        if ok {
          sent := sent + 1;
          assert log[|old(log)|..] == before[|old(log)|..] + [Broadcast(id, session)];
        }
        assert to - (left - {id}) == (to - left) + {id};
        left := left - {id};
      }
    }

    /** The IDEs of a session that take inspects. */
    function ResolvingIdes(session: Id): (ids: set<Id>)
      reads clients
      ensures forall id :: id in ids <==>
        id in clients.clients && clients.clients[id].session == session && clients.clients[id].role == Ide
        && ResolutionCapability in clients.clients[id].capabilities
    {
      set id | id in InSession(clients.clients, session, Ide) && Supports(clients.clients[id], ResolutionCapability)
    }

    /**
     * An inspect: register, send to the session's resolving IDEs, and commit once one of them has it. The commit cannot
     * fail: an inspect that reached an IDE is registered to its sender, and any other leaves the routes alone.
     */
    method RouteInspect(sender: Client, m: Message, delivers: Id -> bool) returns (ghost reached: bool)
      requires Valid() && Knows(sender) && m.Inspect?
      modifies this`log, routes
      ensures Valid() && old(log) <= log
      ensures IdsIn(routes.table) <= IdsIn(old(routes.table)) + {sender.id}
      ensures reached <==>
        && Genuine(sender, m)
        && !Register(old(routes.View()), routes.maxRoutesPerClient, m.key, sender.id, m.ruleRefs).Collision?
        && exists id :: id in ResolvingIdes(m.key.session) && delivers(id)
      ensures forall to :: Broadcast(to, m.key.session) in log[|old(log)|..] <==>
        reached && to in ResolvingIdes(m.key.session) && delivers(to)
      ensures forall ev :: ev in log[|old(log)|..] ==> ev.Broadcast? || ev.Committed? || ev.Failure?
      ensures routes.View() == if !reached then old(routes.View())
        else CommitHandle(old(routes.View()), Register(old(routes.View()), routes.maxRoutesPerClient, m.key, sender.id, m.ruleRefs)).0
      ensures reached ==> Find(routes.table, m.key).Some? && Find(routes.table, m.key).value.origin == sender.id
                          && Find(routes.table, m.key).value.expected == m.ruleRefs
      ensures !reached ==> log == old(log) + [Failure(sender.id)]
      ensures |log| > |old(log)|
    {
      hide Justified, Kept, HandleKept, CommitHandle, Find, IdsIn, Evolves, RoutesAgree, ClientsAgree, IdesAgree,
        InSession, Supports, Genuine, FromBrowser;
      reached := false;
      GatesAreGenuine(sender, m);
      if !FromBrowser(sender, m, InspectCapability) || m.role != sender.role || m.sourceId != sender.sourceId {
        Fail(sender);
        return;
      }
      var handle := routes.Register(m.key, sender.id, m.ruleRefs);
      if handle.Collision? {
        Fail(sender);
        return;
      }
      BrowserSender(sender, m, InspectCapability);
      var registration := new PreparedHandle(routes, handle);
      var sent := SendToAll(ResolvingIdes(m.key.session), m.key.session, delivers);
      if sent == 0 {
        registration.Rollback();
        Fail(sender);
        return;
      }
      reached := true;
      ghost var told := log;
      CommitInspect(sender, m, registration);
      assert log[|old(log)|..] == told[|old(log)|..] + log[|told|..];
    }

    method CommitInspect(sender: Client, m: Message, registration: PreparedHandle)
      requires Valid() && Knows(sender) && m.Inspect? && sender.session == m.key.session && IsBrowserSide(sender)
      requires registration.registry == routes && !registration.settled && !registration.handle.Collision?
      requires registration.handle == Register(routes.View(), routes.maxRoutesPerClient, m.key, sender.id, m.ruleRefs)
      requires HandleKept(routes.View(), routes.maxRoutesPerClient, registration.handle)
      modifies this`log, routes, registration
      ensures Valid() && old(log) <= log
      ensures IdsIn(routes.table) <= IdsIn(old(routes.table)) + {sender.id}
      ensures Find(routes.table, m.key).Some? && Find(routes.table, m.key).value.origin == sender.id
              && Find(routes.table, m.key).value.expected == m.ruleRefs
      ensures routes.View() == CommitHandle(old(routes.View()), registration.handle).0
      ensures log == if registration.handle.Create? then old(log) + [Committed(m.key, sender.id, old(routes.serials))] else old(log)
    {
      hide Justified, Kept, HandleKept, CommitHandle, Find, IdsIn, Evolves, RoutesAgree, ClientsAgree, IdesAgree;
      InspectCommitted(log, routes.View(), routes.maxRoutesPerClient, known, m.key, sender.id, m.ruleRefs);
      ghost var serial := routes.serials;
      var committed := registration.Commit();
      if registration.handle.Create? { log := log + [Committed(m.key, sender.id, serial)]; }
      // The source reports a failed commit; that branch cannot be reached.
      assert committed;
    }

    /** A reply to the route's origin, when it is still a browser of the session and takes the message. */
    method SendReply(k: Key, r: Route, capability: Option<Capability>, ghost answer: Answer,
                     delivers: Id -> bool) returns (ok: bool)
      requires Valid() && Committed(k, r.origin, r.serial) in log && AnswerDue(log, k, r.serial, answer)
      modifies this`log
      ensures Valid()
      ensures ok <==> MayReply(clients.clients, k, r, capability) && delivers(r.origin)
      ensures log == if ok then old(log) + [Reply(r.origin, k, r.serial, answer)] else old(log)
    {
      hide Justified;
      var recipient := OriginRecipient(clients.clients, k, r);
      if recipient.None? || (capability.Some? && !Supports(recipient.value, capability.value)) { return false; }
      ok := Send(r.origin, Reply(r.origin, k, r.serial, answer), delivers);
    }

    /** Answer the browser, or remove the route when the answer cannot be delivered. */
    method ReplyOrRemove(sender: Client, k: Key, r: Route, capability: Option<Capability>, ghost answer: Answer,
                         delivers: Id -> bool) returns (ok: bool)
      requires Valid() && Committed(k, r.origin, r.serial) in log && AnswerDue(log, k, r.serial, answer)
      modifies this`log, routes
      ensures Valid() && old(log) <= log
      ensures ok <==> MayReply(clients.clients, k, r, capability) && delivers(r.origin)
      ensures log == old(log) + [if ok then Reply(r.origin, k, r.serial, answer) else Failure(sender.id)]
      ensures routes.View() == if ok then old(routes.View()) else RemoveKey(old(routes.View()), k)
      ensures IdsIn(routes.table) <= IdsIn(old(routes.table))
    {
      hide Justified, Kept, Find, IdsIn, Drop, MayReply, AnswerDue;
      ok := SendReply(k, r, capability, answer, delivers);
      if !ok {
        RemoveJustified(log, routes.View(), known, k);
        var _ := routes.Remove(k);
        Fail(sender);
      }
    }

    /** Record what was just written back to a route, then answer the browser. */
    method RecordAndReply(sender: Client, k: Key, ghost events: seq<Event>, r: Route, capability: Option<Capability>,
                          ghost answer: Answer, delivers: Id -> bool)
      returns (ok: bool)
      requires clients.Valid() && routes.Valid() && ClientsKnown()
      requires Justified(log + events, routes.View(), known)
      requires Committed(k, r.origin, r.serial) in log + events && AnswerDue(log + events, k, r.serial, answer)
      modifies this`log, routes
      ensures Valid() && old(log) <= log
      ensures ok <==> MayReply(clients.clients, k, r, capability) && delivers(r.origin)
      ensures log == old(log) + events + [if ok then Reply(r.origin, k, r.serial, answer) else Failure(sender.id)]
      ensures routes.View() == if ok then old(routes.View()) else RemoveKey(old(routes.View()), k)
      ensures IdsIn(routes.table) <= IdsIn(old(routes.table))
    {
      hide Justified, Kept, Find, IdsIn, Drop, MayReply, RemoveKey, AnswerDue;
      log := log + events;
      ok := ReplyOrRemove(sender, k, r, capability, answer, delivers);
    }

    /** A resolution: claim the route, then answer the browser; a reply that cannot be delivered removes the route. */
    method RouteResolution(sender: Client, m: Message, delivers: Id -> bool) returns (forwarded: bool)
      requires Valid() && Knows(sender) && m.Resolution?
      modifies this`log, routes
      ensures Valid() && old(log) <= log
      ensures IdsIn(routes.table) <= IdsIn(old(routes.table)) + {sender.id}
      ensures var (after, claimed) := ClaimAuthority(old(routes.View()), m.key, sender.id, m.generation, true);
        && (forwarded <==> Genuine(sender, m) && claimed.Some?
                           && MayReply(clients.clients, m.key, claimed.value, None) && delivers(claimed.value.origin))
        && if !Genuine(sender, m) || claimed.None?
           then routes.View() == old(routes.View()) && log == old(log) + [Failure(sender.id)]
           else
             && routes.View() == (if forwarded then after else RemoveKey(after, m.key))
             && Find(old(routes.table), m.key).Some?
             && log == old(log) + NewOwner(m.key, Find(old(routes.table), m.key).value, sender.id)
                       + [ClaimedBy(m.key, claimed.value.serial, sender.id, m.generation, true)]
                       + [if forwarded then Reply(claimed.value.origin, m.key, claimed.value.serial, Resolved(sender.id, m.generation))
                          else Failure(sender.id)]
    {
      hide Justified, Kept, Find, IdsIn, Drop, ClaimAuthority, FromIde, MayReply, RemoveKey, AnswerDue, Record, Genuine;
      forwarded := false;
      GatesAreGenuine(sender, m);
      if !FromIde(sender, m, m.sourceId, ResolutionCapability) {
        Fail(sender);
      } else {
        IdeSender(known, sender, m, m.sourceId, ResolutionCapability);
        ClaimJustified(log, routes.View(), routes.maxRoutesPerClient, known, m.key, sender.id, m.generation, true);
        ghost var before := Find(routes.table, m.key);
        var claimed := routes.ClaimResolution(m.key, sender.id, m.generation);
        if claimed.None? {
          Fail(sender);
        } else {
          ghost var events := ClaimLogged(m.key, before.value, sender.id, m.generation, true);
          forwarded := RecordAndReply(sender, m.key, events, claimed.value, None, Resolved(sender.id, m.generation), delivers);
        }
      }
    }

    /** `prepareRulesSources` and the send that must succeed before the batch is committed. */
    method DeliverBatch(sender: Client, m: Message, r: Route, delivers: Id -> bool) returns (forwarded: bool)
      requires Valid() && IsIdeOf(known, sender.id, m.key.session) && m.RulesSources?
      requires Find(routes.table, m.key) == Some(r)
      modifies this`log, routes
      ensures Valid() && old(log) <= log
      ensures IdsIn(routes.table) <= IdsIn(old(routes.table)) + {sender.id}
      ensures var st := old(routes.View()); var prepared := PrepareRules(st, m.key, sender.id, m.generation, m.sources, m.unresolved);
        && (forwarded <==> prepared.Some? && MayReply(clients.clients, m.key, r, Some(RulesSourcesCapability)) && delivers(r.origin))
        && log == old(log) + (if forwarded then [Reply(r.origin, m.key, r.serial, Sourced(sender.id, m.generation))]
                                                + BatchLogged(m.key, r, sender.id, m.generation, m.sources)
                              else [Failure(sender.id)])
        && routes.View() == if forwarded then CommitHandle(st, prepared.value).0 else st
    {
      hide Justified, Kept, HandleKept, CommitHandle, PrepareRules, Find, IdsIn, Drop, Evolves, MayReply, AnswerDue, Record,
        EventDue, AuthorityIds;
      forwarded := false;
      var handle := routes.PrepareRulesSources(m.key, sender.id, m.generation, m.sources, m.unresolved);
      if handle.None? {
        Fail(sender);
      } else {
        BatchJustified(log, routes.View(), routes.maxRoutesPerClient, known, m.key, sender.id, m.generation, m.sources, m.unresolved);
        var prepared := new PreparedHandle(routes, handle.value);
        forwarded := SendReply(m.key, r, Some(RulesSourcesCapability), Sourced(sender.id, m.generation), delivers);
        if !forwarded {
          prepared.Rollback();
          Fail(sender);
        } else {
          CommitBatch(sender, m, r, prepared);
        }
      }
    }

    method CommitBatch(sender: Client, m: Message, r: Route, prepared: PreparedHandle)
      requires Valid() && IsIdeOf(known, sender.id, m.key.session) && m.RulesSources?
      requires Find(routes.table, m.key) == Some(r)
      requires prepared.registry == routes && !prepared.settled
      requires PrepareRules(routes.View(), m.key, sender.id, m.generation, m.sources, m.unresolved) == Some(prepared.handle)
      requires HandleKept(routes.View(), routes.maxRoutesPerClient, prepared.handle)
      modifies this`log, routes, prepared
      ensures Valid() && old(log) <= log
      ensures IdsIn(routes.table) <= IdsIn(old(routes.table)) + {sender.id}
      ensures routes.View() == CommitHandle(old(routes.View()), prepared.handle).0
      ensures log == old(log) + BatchLogged(m.key, r, sender.id, m.generation, m.sources)
    {
      hide Justified, Kept, HandleKept, CommitHandle, PrepareRules, Find, IdsIn, Drop, Evolves, AnswerDue, Record, EventDue,
        AuthorityIds;
      BatchJustified(log, routes.View(), routes.maxRoutesPerClient, known, m.key, sender.id, m.generation, m.sources, m.unresolved);
      var committed := prepared.Commit();
      // The source reports a failed commit; that branch cannot be reached.
      assert committed;
      log := log + BatchLogged(m.key, r, sender.id, m.generation, m.sources);
    }

    /**
     * A rules batch: checked, delivered to the browser, and only then committed. The commit cannot fail, so a batch
     * that was delivered is the batch that rules may be opened from.
     */
    method RouteRulesSources(sender: Client, m: Message, delivers: Id -> bool) returns (forwarded: bool)
      requires Valid() && Knows(sender) && m.RulesSources?
      modifies this`log, routes
      ensures Valid() && old(log) <= log
      ensures IdsIn(routes.table) <= IdsIn(old(routes.table)) + {sender.id}
      ensures var st := old(routes.View()); var found := Find(st.table, m.key);
        var prepared := PrepareRules(st, m.key, sender.id, m.generation, m.sources, m.unresolved);
        && (forwarded <==> Genuine(sender, m) && found.Some? && prepared.Some?
                           && MayReply(clients.clients, m.key, found.value, Some(RulesSourcesCapability)) && delivers(found.value.origin))
        && log == old(log) + (if forwarded
                              then [Reply(found.value.origin, m.key, found.value.serial, Sourced(sender.id, m.generation))]
                                   + BatchLogged(m.key, found.value, sender.id, m.generation, m.sources)
                              else [Failure(sender.id)])
        && routes.View() == if forwarded then CommitHandle(st, prepared.value).0 else st
    {
      hide Justified, Kept, HandleKept, CommitHandle, PrepareRules, Find, IdsIn, Drop, Evolves, FromIde, MayReply, Genuine;
      forwarded := false;
      GatesAreGenuine(sender, m);
      var route := routes.StoredRoute(m.key);
      if !FromIde(sender, m, m.sourceId, RulesSourcesCapability) || route.None?
         || !MayReply(clients.clients, m.key, route.value, Some(RulesSourcesCapability)) {
        Fail(sender);
      } else {
        IdeSender(known, sender, m, m.sourceId, RulesSourcesCapability);
        forwarded := DeliverBatch(sender, m, route.value, delivers);
      }
    }

    method UpdateMatches(sender: Client, m: Message) returns (r: Option<Route>)
      requires routes.Valid() && m.SourceMatches?
      modifies routes
      ensures routes.Valid() && (routes.View(), r) == MatchesUpdate(old(routes.View()), sender, m)
    {
      hide Kept, Find, Drop;
      if IsInvalidation(m) {
        r := routes.ClaimSourceInvalidation(m.key, sender.id, m.generation);
      } else {
        r := routes.ReplaceMatchIds(m.key, sender.id, m.generation, set x | x in m.matchIds);
      }
    }

    /** Source matches, or with none at all a source invalidation; undeliverable ones remove the route. */
    method RouteSourceMatches(sender: Client, m: Message, delivers: Id -> bool) returns (forwarded: bool)
      requires Valid() && Knows(sender) && m.SourceMatches?
      modifies this`log, routes
      ensures Valid() && old(log) <= log
      ensures IdsIn(routes.table) <= IdsIn(old(routes.table)) + {sender.id}
      ensures var st := old(routes.View()); var found := Find(st.table, m.key);
        var open := Genuine(sender, m) && found.Some?
                    && MayReply(clients.clients, m.key, found.value, Some(SourcePresentationCapability));
        var (after, updated) := MatchesUpdate(st, sender, m);
        && (forwarded <==> open && updated.Some? && delivers(found.value.origin))
        && (open && updated.Some? ==> updated.value.origin == found.value.origin)
        && routes.View() == (if !open || updated.None? then st else if forwarded then after else RemoveKey(after, m.key))
        && log == if !open || updated.None? then old(log) + [Failure(sender.id)]
                  else old(log) + MatchesLogged(m, found.value, sender.id)
                       + [if forwarded then Reply(found.value.origin, m.key, found.value.serial, MatchesAnswer(m, sender.id))
                          else Failure(sender.id)]
    {
      hide Justified, Kept, Find, IdsIn, Drop, MatchesUpdate, MatchesAllowed, FromIde, MayReply, RemoveKey, RoutesAgree,
        ClientsAgree, IdesAgree, Touch, Evolves, AnswerDue, Record, MatchesLogged, MatchesAnswer, Genuine;
      forwarded := false;
      GatesAreGenuine(sender, m);
      var route := routes.StoredRoute(m.key);
      if !MatchesAllowed(sender, m) || route.None?
         || !MayReply(clients.clients, m.key, route.value, Some(SourcePresentationCapability)) {
        Fail(sender);
      } else {
        MatchesSender(sender, m);
        IdeSender(known, sender, m, m.sourceId, SourcePresentationCapability);
        MatchesJustified(log, routes.View(), routes.maxRoutesPerClient, known, sender, m);
        var updated := UpdateMatches(sender, m);
        if updated.None? {
          Fail(sender);
        } else {
          SameRecipient(clients.clients, m.key, route.value, updated.value, Some(SourcePresentationCapability));
          forwarded := RecordAndReply(sender, m.key, MatchesLogged(m, route.value, sender.id), updated.value,
                                      Some(SourcePresentationCapability), MatchesAnswer(m, sender.id), delivers);
        }
      }
    }

    /** Touch a route and send a command of its origin to the IDE that owns it. */
    method ForwardCommand(sender: Client, k: Key, r: Route, capability: Capability, ghost request: Request,
                          delivers: Id -> bool) returns (forwarded: bool)
      requires Valid() && Find(routes.table, k) == Some(r) && r.origin == sender.id && RequestDue(log, r.serial, request)
      modifies this`log, routes
      ensures Valid() && old(log) <= log
      ensures IdsIn(routes.table) <= IdsIn(old(routes.table)) + {sender.id}
      ensures forwarded <==> MayCommand(clients.clients, k, r, capability) && delivers(r.ide.value)
      ensures log == old(log) + [if forwarded then Command(sender.id, r.ide.value, k, r.serial, request) else Failure(sender.id)]
      ensures routes.View() == if MayCommand(clients.clients, k, r, capability) then Touch(old(routes.View()), k, r)
                               else old(routes.View())
    {
      hide Justified, Kept, Find, IdsIn, Drop, Put, RequestDue, Record, RoutesAgree, ClientsAgree, IdesAgree, Evolves,
        MayCommand;
      forwarded := false;
      if !MayCommand(clients.clients, k, r, capability) {
        Fail(sender);
        return;
      }
      OwnerIsThere(clients.clients, k, r, capability);
      UseJustified(log, routes.View(), known, k);
      StoredIsLogged(log, routes.View(), known, k);
      var _ := routes.ResolveOrigin(k);
      forwarded := Send(r.ide.value, Command(sender.id, r.ide.value, k, r.serial, request), delivers);
      if !forwarded { Fail(sender); }
    }

    /** `source.open`, `presentation.settings` and `source.navigate`: a command of the route's origin. */
    method RouteCommand(sender: Client, m: Message, delivers: Id -> bool) returns (forwarded: bool)
      requires Valid() && Knows(sender) && (m.SourceOpen? || m.PresentationSettings? || m.SourceNavigate?)
      modifies this`log, routes
      ensures Valid() && old(log) <= log
      ensures IdsIn(routes.table) <= IdsIn(old(routes.table)) + {sender.id}
      ensures var found := Find(old(routes.table), m.key);
        var open := found.Some? && CommandAllowed(sender, m, found.value)
                    && MayCommand(clients.clients, m.key, found.value, CommandCapability(m));
        && (forwarded <==> open && delivers(found.value.ide.value))
        && routes.View() == (if open then Touch(old(routes.View()), m.key, found.value) else old(routes.View()))
        && log == old(log) + [if forwarded
                              then Command(sender.id, found.value.ide.value, m.key, found.value.serial, RequestOf(m))
                              else Failure(sender.id)]
      ensures var found := Find(old(routes.table), m.key);
        forwarded <==>
          && Genuine(sender, m) && found.Some? && found.value.origin == sender.id
          && Stands(old(log), found.value.serial, RequestOf(m))
          && MayCommand(clients.clients, m.key, found.value, CommandCapability(m)) && delivers(found.value.ide.value)
    {
      hide Justified, Kept, Find, IdsIn, Drop, RequestDue, Record, Stands, Genuine, FromBrowser;
      GatesAreGenuine(sender, m);
      var route := routes.StoredRoute(m.key);
      if route.Some? { CommandStands(log, routes.View(), known, sender, m); }
      if route.None? || !CommandAllowed(sender, m, route.value) {
        Fail(sender);
        return false;
      }
      forwarded := ForwardCommand(sender, m.key, route.value, CommandCapability(m), RequestOf(m), delivers);
    }

    /** `rules.open`: authorized by the last committed batch, which counts as a use even when no IDE takes it. */
    method RouteRulesOpen(sender: Client, m: Message, delivers: Id -> bool) returns (forwarded: bool)
      requires Valid() && Knows(sender) && m.RulesOpen?
      modifies this`log, routes
      ensures Valid() && old(log) <= log
      ensures IdsIn(routes.table) <= IdsIn(old(routes.table)) + {sender.id}
      ensures var found := Find(old(routes.table), m.key);
        forwarded <==>
          && Genuine(sender, m) && found.Some? && found.value.origin == sender.id
          && Stands(old(log), found.value.serial, OpenRule(m.generation, m.authorityId))
          && MayCommand(clients.clients, m.key, found.value, RulesSourcesCapability) && delivers(found.value.ide.value)
      ensures var gate := Genuine(sender, m);
        var (after, granted) := AuthorizeRulesOpen(old(routes.View()), m.key, sender.id, m.generation, m.authorityId);
        && (forwarded <==> gate && granted.Some? && MayCommand(clients.clients, m.key, granted.value, RulesSourcesCapability)
                           && delivers(granted.value.ide.value))
        && routes.View() == (if gate then after else old(routes.View()))
        && log == old(log) + [if forwarded then Command(sender.id, granted.value.ide.value, m.key, granted.value.serial,
                                                        OpenRule(m.generation, m.authorityId))
                              else Failure(sender.id)]
    {
      hide Justified, Kept, Find, IdsIn, Drop, Record, Stands, Genuine, FromBrowser;
      forwarded := false;
      GatesAreGenuine(sender, m);
      if !FromBrowser(sender, m, RulesSourcesCapability) {
        Fail(sender);
        return;
      }
      AuthorizeJustified(log, routes.View(), routes.maxRoutesPerClient, known, m.key, sender.id, m.generation, m.authorityId);
      OpenGrantedExactly(log, routes.View(), routes.maxRoutesPerClient, known, m.key, sender.id, m.generation, m.authorityId);
      var granted := routes.AuthorizeRulesOpen(m.key, sender.id, m.generation, m.authorityId);
      if granted.None? || !MayCommand(clients.clients, m.key, granted.value, RulesSourcesCapability) {
        Fail(sender);
        return;
      }
      var ide := granted.value.ide.value;
      forwarded := Send(ide, Command(sender.id, ide, m.key, granted.value.serial, OpenRule(m.generation, m.authorityId)), delivers);
      if !forwarded { Fail(sender); }
    }

    /** `source.navigationState`: a clearing state, or an authoritative one of the owner at the route's generation. */
    method RouteNavigationState(sender: Client, m: Message, delivers: Id -> bool) returns (forwarded: bool)
      requires Valid() && Knows(sender) && m.NavigationState?
      modifies this`log, routes
      ensures Valid() && old(log) <= log
      ensures IdsIn(routes.table) <= IdsIn(old(routes.table)) + {sender.id}
      ensures var st := old(routes.View()); var found := Find(st.table, m.key);
        var open := Genuine(sender, m) && found.Some? && StateStands(old(log), m.key, found.value.serial, sender, m)
                    && MayReply(clients.clients, m.key, found.value, Some(SourceNavigationCapability));
        && (forwarded <==> open && delivers(found.value.origin))
        && log == old(log) + [if forwarded then Reply(found.value.origin, m.key, found.value.serial, StateAnswer(m, sender.id))
                              else Failure(sender.id)]
        && routes.View() == if !open then st
                            else if forwarded then Touch(st, m.key, found.value)
                            else RemoveKey(Touch(st, m.key, found.value), m.key)
    {
      hide Justified, Kept, Find, IdsIn, Drop, Record, AnswerDue, StateAllowed, StateAnswer, Genuine, StateStands;
      forwarded := false;
      GatesAreGenuine(sender, m);
      var route := routes.StoredRoute(m.key);
      if route.Some? { StateStandsExactly(log, routes.View(), known, sender, m); }
      if !FromIde(sender, m, m.sourceId, SourceNavigationCapability) || route.None? || !StateAllowed(sender, m, route.value)
         || !MayReply(clients.clients, m.key, route.value, Some(SourceNavigationCapability)) {
        Fail(sender);
        return;
      }
      UseJustified(log, routes.View(), known, m.key);
      StoredIsLogged(log, routes.View(), known, m.key);
      StateDue(log, sender, m, route.value);
      var _ := routes.ResolveOrigin(m.key);
      forwarded := ReplyOrRemove(sender, m.key, route.value, Some(SourceNavigationCapability), StateAnswer(m, sender.id), delivers);
    }

    /** `page.refresh`: to every browser and simulator of the session that refreshes automatically. */
    method RoutePageRefresh(sender: Client, m: Message, delivers: Id -> bool)
      requires Valid() && Knows(sender) && m.PageRefresh?
      modifies this`log
      ensures Valid() && old(log) <= log
      ensures if Genuine(sender, m)
        then forall ev :: ev in log[|old(log)|..] <==>
          && ev.Broadcast? && ev.session == m.key.session && ev.to in clients.clients && delivers(ev.to)
          && clients.clients[ev.to].session == sender.session && IsBrowserSide(clients.clients[ev.to])
          && Supports(clients.clients[ev.to], AutoRefreshCapability)
        else log == old(log) + [Failure(sender.id)]
    {
      hide Justified;
      GatesAreGenuine(sender, m);
      if !FromIde(sender, m, m.sourceId, AutoRefreshCapability) {
        Fail(sender);
        return;
      }
      var to := set id | id in clients.clients && clients.clients[id].session == m.key.session
                         && IsBrowserSide(clients.clients[id]) && Supports(clients.clients[id], AutoRefreshCapability);
      var _ := SendToAll(to, m.key.session, delivers);
    }

    /** `routeMessage`: one message of a registered connection, whatever state it finds. */
    method RouteMessage(sender: Client, m: Message, delivers: Id -> bool)
      requires Valid() && Knows(sender)
      modifies this`log, routes
      ensures Valid() && old(log) <= log
      ensures routes.View() == RoutesAfter(old(routes.View()), routes.maxRoutesPerClient, clients.clients, sender, m, delivers)
      ensures m.PageRefresh? || |log| > |old(log)|
      ensures !Genuine(sender, m) ==> routes.View() == old(routes.View()) && log == old(log) + [Failure(sender.id)]
      ensures IdsIn(routes.table) <= IdsIn(old(routes.table)) + {sender.id}
    {
      hide Justified, Kept, HandleKept, CommitHandle, PrepareRules, Find, IdsIn, Touch, RemoveKey, ClaimAuthority,
        Register,
        AuthorizeRulesOpen, MatchesUpdate, FromIde, FromBrowser, MayCommand, StateAllowed, MatchesAllowed, Genuine,
        CommandAllowed, Stands, StateStands, Supports, RoutesAgree, ClientsAgree, IdesAgree, Put;
      match m {
        case Inspect(_, _, _, _) => ghost var _ := RouteInspect(sender, m, delivers);
        case Resolution(_, _, _) => var _ := RouteResolution(sender, m, delivers);
        case RulesSources(_, _, _, _, _) => var _ := RouteRulesSources(sender, m, delivers);
        case SourceMatches(_, _, _, _, _) => var _ := RouteSourceMatches(sender, m, delivers);
        case RulesOpen(_, _, _) => var _ := RouteRulesOpen(sender, m, delivers);
        case NavigationState(_, _, _, _, _, _) =>
          if Find(routes.table, m.key).Some? { StateStandsExactly(log, routes.View(), known, sender, m); }
          var _ := RouteNavigationState(sender, m, delivers);
        case PageRefresh(_, _) => RoutePageRefresh(sender, m, delivers);
        case _ =>
          GatesAreGenuine(sender, m);
          if Find(routes.table, m.key).Some? { CommandStands(log, routes.View(), known, sender, m); }
          var _ := RouteCommand(sender, m, delivers);
      }
    }
  }

  /** The routes after one message: what it may change, and when an answer that cannot be delivered costs the route. */
  ghost function RoutesAfter(st: Store, cap: nat, clients: map<Id, Client>, sender: Client, m: Message,
                             delivers: Id -> bool): Store {
    match m
    case Inspect(k, role, sourceId, refs) =>
      var h := Register(st, cap, k, sender.id, refs);
      if Genuine(sender, m) && !h.Collision?
         && (exists id :: id in InSession(clients, k.session, Ide) && Supports(clients[id], ResolutionCapability) && delivers(id))
      then CommitHandle(st, h).0 else st
    case Resolution(k, sourceId, g) =>
      if Genuine(sender, m)
      then Delivered(st, ClaimAuthority(st, k, sender.id, g, true), clients, k, None, delivers) else st
    case RulesSources(k, sourceId, g, sources, unresolved) =>
      var found := Find(st.table, k);
      var prepared := PrepareRules(st, k, sender.id, g, sources, unresolved);
      if Genuine(sender, m) && found.Some? && prepared.Some?
         && MayReply(clients, k, found.value, Some(RulesSourcesCapability)) && delivers(found.value.origin)
      then CommitHandle(st, prepared.value).0 else st
    case SourceMatches(k, _, _, _, _) =>
      if Genuine(sender, m) && Find(st.table, k).Some?
         && MayReply(clients, k, Find(st.table, k).value, Some(SourcePresentationCapability))
      then Delivered(st, MatchesUpdate(st, sender, m), clients, k, Some(SourcePresentationCapability), delivers) else st
    case RulesOpen(k, g, id) =>
      if Genuine(sender, m) then AuthorizeRulesOpen(st, k, sender.id, g, id).0 else st
    case NavigationState(k, sourceId, _, _, _, _) =>
      var found := Find(st.table, k);
      if Genuine(sender, m) && found.Some? && StateAllowed(sender, m, found.value)
         && MayReply(clients, k, found.value, Some(SourceNavigationCapability))
      then Delivered(st, (Touch(st, k, found.value), found), clients, k, Some(SourceNavigationCapability), delivers) else st
    case PageRefresh(_, _) => st
    case _ =>
      var found := Find(st.table, m.key);
      if found.Some? && CommandAllowed(sender, m, found.value) && MayCommand(clients, m.key, found.value, CommandCapability(m))
      then Touch(st, m.key, found.value) else st
  }

  /** An update that succeeded stands when its answer is delivered; otherwise its route goes. */
  ghost function Delivered(st: Store, update: (Store, Option<Route>), clients: map<Id, Client>, k: Key,
                           capability: Option<Capability>, delivers: Id -> bool): Store {
    if update.1.None? then st
    else if MayReply(clients, k, update.1.value, capability) && delivers(update.1.value.origin) then update.0
    else RemoveKey(update.0, k)
  }

  /** The table apart from one key. */
  ghost predicate SameElsewhere(before: seq<Entry>, after: seq<Entry>, k: Key) {
    forall e: Entry :: e.key != k ==> (e in before <==> e in after)
  }

  lemma SameIsSame(t: seq<Entry>, k: Key)
    ensures SameElsewhere(t, t, k)
  {
  }

  lemma TouchedElsewhere(st: Store, k: Key, r: Route)
    ensures SameElsewhere(st.table, Touch(st, k, r).table, k)
  {
  }

  lemma RemovedElsewhere(before: seq<Entry>, st: Store, k: Key)
    requires SameElsewhere(before, st.table, k)
    ensures SameElsewhere(before, RemoveKey(st, k).table, k)
  {
  }

  lemma DeliveredElsewhere(st: Store, update: (Store, Option<Route>), clients: map<Id, Client>, k: Key,
                           capability: Option<Capability>, delivers: Id -> bool)
    requires SameElsewhere(st.table, update.0.table, k)
    ensures SameElsewhere(st.table, Delivered(st, update, clients, k, capability, delivers).table, k)
  {
    hide RemoveKey, SameElsewhere;
    SameIsSame(st.table, k);
    RemovedElsewhere(st.table, update.0, k);
  }

  lemma ClaimedElsewhere(st: Store, k: Key, ide: Id, g: int, claimed: bool)
    ensures SameElsewhere(st.table, ClaimAuthority(st, k, ide, g, claimed).0.table, k)
  {
    hide Touch, SameElsewhere, Find;
    SameIsSame(st.table, k);
    if ClaimAuthority(st, k, ide, g, claimed).1.Some? { TouchedElsewhere(st, k, ClaimAuthority(st, k, ide, g, claimed).1.value); }
  }

  lemma MatchesElsewhere(st: Store, sender: Client, m: Message)
    requires m.SourceMatches?
    ensures SameElsewhere(st.table, MatchesUpdate(st, sender, m).0.table, m.key)
  {
    hide Touch, SameElsewhere, Find, ClaimAuthority;
    SameIsSame(st.table, m.key);
    ClaimedElsewhere(st, m.key, sender.id, m.generation, false);
    if Find(st.table, m.key).Some? {
      TouchedElsewhere(st, m.key, Find(st.table, m.key).value.(matchIds := {}));
      TouchedElsewhere(st, m.key, Find(st.table, m.key).value.(matchIds := set x | x in m.matchIds));
    }
  }

  /** A message other than an inspect changes no route but that of its own key. */
  lemma OtherRoutesStay(st: Store, cap: nat, clients: map<Id, Client>, sender: Client, m: Message, delivers: Id -> bool)
    requires !m.Inspect?
    ensures SameElsewhere(st.table, RoutesAfter(st, cap, clients, sender, m, delivers).table, m.key)
  {
    hide Touch, SameElsewhere, Find, ClaimAuthority, MatchesUpdate, Delivered, MayReply, Supports, Genuine, StateAllowed,
      CommandAllowed, MayCommand, ProperSources;
    SameIsSame(st.table, m.key);
    if Find(st.table, m.key).Some? { TouchedElsewhere(st, m.key, Find(st.table, m.key).value); }
    match m
    case Resolution(k, _, g) =>
      ClaimedElsewhere(st, k, sender.id, g, true);
      DeliveredElsewhere(st, ClaimAuthority(st, k, sender.id, g, true), clients, k, None, delivers);
    case RulesSources(k, _, g, sources, unresolved) =>
      var prepared := PrepareRules(st, k, sender.id, g, sources, unresolved);
      if prepared.Some? {
        TouchedElsewhere(st, k, Find(st.table, k).value.(ide := Some(sender.id), rules := Some(g), openIds := prepared.value.ids));
      }
    case SourceMatches(k, _, _, _, _) =>
      MatchesElsewhere(st, sender, m);
      DeliveredElsewhere(st, MatchesUpdate(st, sender, m), clients, k, Some(SourcePresentationCapability), delivers);
    case NavigationState(k, _, _, _, _, _) =>
      if Find(st.table, k).Some? {
        DeliveredElsewhere(st, (Touch(st, k, Find(st.table, k).value), Find(st.table, k)), clients, k, Some(SourceNavigationCapability), delivers);
      }
    case _ =>
  }

  /** Only the browser that asked and the editor that owns the route, or is the first to claim it, change anything. */
  lemma OnlyPartiesChangeRoutes(st: Store, cap: nat, clients: map<Id, Client>, sender: Client, m: Message,
      delivers: Id -> bool)
    requires RoutesAfter(st, cap, clients, sender, m, delivers) != st && Find(st.table, m.key).Some?
    ensures var r := Find(st.table, m.key).value;
      (IsBrowserSide(sender) && r.origin == sender.id) || (sender.role.Ide? && (r.ide.None? || r.ide == Some(sender.id)))
  {
    hide Touch, Find, RemoveKey, MayReply, Supports, MayCommand, ProperSources;
  }

  predicate IsInvalidation(m: Message)
    requires m.SourceMatches?
  {
    m.matchIds == [] && m.omitted == 0
  }

  predicate MatchesAllowed(sender: Client, m: Message)
    requires m.SourceMatches?
  {
    FromIde(sender, m, m.sourceId, SourcePresentationCapability)
    && (IsInvalidation(m) ==> Supports(sender, ResolutionCapability))
  }

  function MatchesUpdate(st: Store, sender: Client, m: Message): (Store, Option<Route>)
    requires m.SourceMatches?
  {
    if IsInvalidation(m) then ClaimSourceInvalidation(st, m.key, sender.id, m.generation)
    else ReplaceMatchIds(st, m.key, sender.id, m.generation, set x | x in m.matchIds)
  }

  /** What the route must say for a command of the browser to be forwarded. */
  predicate CommandAllowed(sender: Client, m: Message, r: Route)
    requires m.SourceOpen? || m.PresentationSettings? || m.SourceNavigate?
  {
    && FromBrowser(sender, m, CommandCapability(m)) && r.origin == sender.id
    && (m.SourceOpen? ==> r.resolution == Some(m.generation) && m.matchId in r.matchIds)
    && (m.SourceNavigate? ==> r.resolution == Some(m.generation))
  }

  function CommandCapability(m: Message): Capability
    requires m.SourceOpen? || m.PresentationSettings? || m.SourceNavigate?
  {
    match m
    case SourceOpen(_, _, _) => SourcePresentationCapability
    case PresentationSettings(_) => PresentationSettingsCapability
    case _ => SourceNavigationCapability
  }

  predicate StateAllowed(sender: Client, m: Message, r: Route)
    requires m.NavigationState?
  {
    var zero := m.selected == 0 && m.activeIndex.None? && m.activeId.None?;
    var owned := r.ide == Some(sender.id) && r.resolution == Some(m.generation);
    if zero then (r.ide.None? && Supports(sender, ResolutionCapability)) || owned
    else owned && r.claimed && (m.activeId.Some? ==> m.activeId.value in r.matchIds)
  }

  /** What a command of the browser asks of the owner. */
  ghost function RequestOf(m: Message): Request
    requires m.SourceOpen? || m.PresentationSettings? || m.SourceNavigate?
  {
    match m
    case SourceOpen(_, g, id) => OpenMatch(g, id)
    case PresentationSettings(_) => Settings
    case SourceNavigate(_, g) => Navigate(g)
  }

  /** The events behind a request, found in the log itself. */
  ghost predicate Stands(log: seq<Event>, serial: nat, request: Request) {
    match request
    case OpenMatch(g, id) => exists j: nat, ids :: LastMatches(log, j, serial, g, ids) && id in ids
    case OpenRule(g, id) => exists j: nat, ids :: LastBatch(log, j, serial, g, ids) && id in ids
    case Navigate(g) => exists j: nat, resolved :: LastClaim(log, j, serial, g, resolved)
    case Settings => true
  }

  /** A request is due exactly if the events behind it are the last of their kind in the log. */
  lemma RequestStands(log: seq<Event>, serial: nat, request: Request)
    requires forall i :: 0 <= i < |log| ==> Due(log, i)
    ensures RequestDue(log, serial, request) <==> Stands(log, serial, request)
  {
    hide Record, EventDue, LastMatches, LastBatch, LastClaim;
    var s := Record(log, serial);
    match request
    case OpenMatch(g, id) =>
      if id in s.matchIds { MatchesOnRecord(log, serial, g, s.matchIds); }
      if j: nat, ids :| LastMatches(log, j, serial, g, ids) && id in ids { MatchesOnRecord(log, serial, g, ids); }
    case OpenRule(g, id) =>
      BatchOnRecord(log, serial, g, s.openIds);
      if j: nat, ids :| LastBatch(log, j, serial, g, ids) && id in ids { BatchOnRecord(log, serial, g, ids); }
    case Navigate(g) =>
      ClaimOnRecord(log, serial, g, s.claimed);
      if j: nat, resolved :| LastClaim(log, j, serial, g, resolved) { ClaimOnRecord(log, serial, g, resolved); }
    case Settings =>
  }

  /** What the route says of a command is what the log says. */
  lemma CommandStands(log: seq<Event>, st: Store, known: map<Id, Client>, sender: Client, m: Message)
    requires Justified(log, st, known) && (m.SourceOpen? || m.PresentationSettings? || m.SourceNavigate?)
    requires Find(st.table, m.key).Some?
    ensures var found := Find(st.table, m.key).value;
      && (CommandAllowed(sender, m, found)
          <==> FromBrowser(sender, m, CommandCapability(m)) && found.origin == sender.id && Stands(log, found.serial, RequestOf(m)))
      && (Stands(log, found.serial, RequestOf(m)) <==> RequestDue(log, found.serial, RequestOf(m)))
  {
    hide Find, Record, EventDue, Stands, FromBrowser;
    StoredIsLogged(log, st, known, m.key);
    RequestStands(log, Find(st.table, m.key).value.serial, RequestOf(m));
  }

  ghost function StateAnswer(m: Message, ide: Id): Answer
    requires m.NavigationState?
  {
    if m.selected == 0 && m.activeIndex.None? && m.activeId.None? then NavigationCleared(ide, m.generation)
    else Navigated(ide, m.generation, m.activeId)
  }

  lemma StateDue(log: seq<Event>, sender: Client, m: Message, r: Route)
    requires m.NavigationState? && StateAllowed(sender, m, r)
    requires r.ide.Some? ==> Owned(m.key, r.serial, r.ide.value) in log
    requires r.ide.None? ==> Unowned(log, r.serial)
    requires Record(log, r.serial) == StandingOf(r)
    ensures AnswerDue(log, m.key, r.serial, StateAnswer(m, sender.id))
  {
  }

  /** What the log must say for a navigation state to be forwarded. */
  ghost predicate StateStands(log: seq<Event>, k: Key, serial: nat, sender: Client, m: Message)
    requires m.NavigationState?
  {
    if m.selected == 0 && m.activeIndex.None? && m.activeId.None? then
      || (Unowned(log, serial) && ResolutionCapability in sender.capabilities)
      || (Owned(k, serial, sender.id) in log && Stands(log, serial, Navigate(m.generation)))
    else
      && Owned(k, serial, sender.id) in log && (exists j: nat :: LastClaim(log, j, serial, m.generation, true))
      && (m.activeId.Some? ==> Stands(log, serial, OpenMatch(m.generation, m.activeId.value)))
  }

  /** What the route says of a navigation state is what the log says. */
  lemma StateStandsExactly(log: seq<Event>, st: Store, known: map<Id, Client>, sender: Client, m: Message)
    requires Justified(log, st, known) && m.NavigationState? && Find(st.table, m.key).Some?
    ensures StateAllowed(sender, m, Find(st.table, m.key).value)
       <==> StateStands(log, m.key, Find(st.table, m.key).value.serial, sender, m)
  {
    hide Find, Record, EventDue, Justified, Stands;
    var r := Find(st.table, m.key).value;
    StoredIsLogged(log, st, known, m.key);
    OwnerStored(log, st, known, m.key, sender.id);
    AllDue(log, st, known);
    RequestStands(log, r.serial, Navigate(m.generation));
    ClaimOnRecord(log, r.serial, m.generation, true);
    if m.activeId.Some? { RequestStands(log, r.serial, OpenMatch(m.generation, m.activeId.value)); }
  }

  /** What a claim leaves in the log. */
  ghost function ClaimLogged(k: Key, r: Route, ide: Id, g: int, resolved: bool): seq<Event> {
    NewOwner(k, r, ide) + [ClaimedBy(k, r.serial, ide, g, resolved)]
  }

  /** What a committed batch leaves in the log. */
  ghost function BatchLogged(k: Key, r: Route, ide: Id, g: int, sources: seq<RuleSource>): seq<Event> {
    NewOwner(k, r, ide) + [Batched(k, r.serial, ide, g, AuthorityIds(sources))]
  }

  /** Without an owner an invalidation has nothing to clear. */
  ghost function MatchesLogged(m: Message, r: Route, ide: Id): seq<Event>
    requires m.SourceMatches?
  {
    if !IsInvalidation(m) then [Matched(m.key, r.serial, ide, m.generation, set x | x in m.matchIds)]
    else if r.ide.None? then []
    else [ClaimedBy(m.key, r.serial, ide, m.generation, false)]
  }

  ghost function MatchesAnswer(m: Message, ide: Id): Answer
    requires m.SourceMatches?
  {
    if IsInvalidation(m) then Invalidated(ide, m.generation) else MatchesAre(ide, m.generation, set x | x in m.matchIds)
  }

  /** A claim that succeeds keeps the record, with a first owner and the claim added to it. */
  lemma ClaimJustified(log: seq<Event>, st: Store, cap: nat, known: map<Id, Client>, k: Key, ide: Id, g: int, claimed: bool)
    requires Justified(log, st, known) && Kept(st, cap) && IsIdeOf(known, ide, k.session)
    ensures var (after, r) := ClaimAuthority(st, k, ide, g, claimed);
      && IdsIn(after.table) <= IdsIn(st.table) + {ide}
      && (r.None? ==> after == st)
      && (r.Some? ==>
            && Find(st.table, k).Some? && r.value.serial == Find(st.table, k).value.serial
            && r.value.origin == Find(st.table, k).value.origin
            && var now := log + ClaimLogged(k, Find(st.table, k).value, ide, g, claimed);
            && Justified(now, after, known) && Committed(k, r.value.origin, r.value.serial) in now
            && AnswerDue(now, k, r.value.serial, if claimed then Resolved(ide, g) else Invalidated(ide, g)))
  {
    hide Justified, Kept, Find, IdsIn, Drop, EventDue, Record;
    var (after, r) := ClaimAuthority(st, k, ide, g, claimed);
    if r.Some? {
      var found := Find(st.table, k).value;
      var ev := ClaimedBy(k, found.serial, ide, g, claimed);
      StoredIsLogged(log, st, known, k);
      OwnerOnRecord(log, k, found, r.value);
      RecordNext(OwnerLogged(log, k, found, r.value), ev, found.serial);
      ClaimDue(OwnerLogged(log, k, found, r.value), k, found, ide, g, claimed);
      WriteJustified(log, st, cap, known, k, r.value, ev);
      assert OwnerLogged(log, k, found, r.value) + [ev] == log + ClaimLogged(k, found, ide, g, claimed);
    }
  }

  lemma ClaimDue(log: seq<Event>, k: Key, r: Route, ide: Id, g: int, claimed: bool)
    requires Owned(k, r.serial, ide) in log && Record(log, r.serial) == StandingOf(r)
    requires r.resolution.Some? ==> r.resolution.value <= g
    ensures EventDue(log, ClaimedBy(k, r.serial, ide, g, claimed))
  {
  }

  lemma MatchesDue(log: seq<Event>, k: Key, r: Route, ide: Id, g: int, ids: set<string>)
    requires Owned(k, r.serial, ide) in log && Record(log, r.serial) == StandingOf(r) && r.resolution == Some(g) && r.claimed
    ensures EventDue(log, Matched(k, r.serial, ide, g, ids))
  {
  }

  lemma BatchDue(log: seq<Event>, k: Key, r: Route, ide: Id, g: int, ids: set<string>)
    requires Owned(k, r.serial, ide) in log && Record(log, r.serial) == StandingOf(r)
    requires if r.rules.None? then g == 1 else g > r.rules.value
    ensures EventDue(log, Batched(k, r.serial, ide, g, ids))
  {
  }

  lemma MatchesJustified(log: seq<Event>, st: Store, cap: nat, known: map<Id, Client>, sender: Client, m: Message)
    requires Justified(log, st, known) && Kept(st, cap) && m.SourceMatches? && IsIdeOf(known, sender.id, m.key.session)
    ensures var (after, r) := MatchesUpdate(st, sender, m);
      && IdsIn(after.table) <= IdsIn(st.table) + {sender.id}
      && (r.None? ==> after == st)
      && (r.Some? ==>
            && Find(st.table, m.key).Some? && r.value.origin == Find(st.table, m.key).value.origin
            && r.value.serial == Find(st.table, m.key).value.serial
            && var now := log + MatchesLogged(m, Find(st.table, m.key).value, sender.id);
            && Justified(now, after, known)
            && Committed(m.key, r.value.origin, r.value.serial) in now
            && AnswerDue(now, m.key, r.value.serial, MatchesAnswer(m, sender.id)))
  {
    hide Justified, Kept, Find, IdsIn, Drop, EventDue, Record;
    var (after, r) := MatchesUpdate(st, sender, m);
    if r.Some? {
      var found := Find(st.table, m.key).value;
      StoredIsLogged(log, st, known, m.key);
      FoundRouteOk(st, cap, m.key);
      if IsInvalidation(m) && found.ide.Some? {
        ClaimJustified(log, st, cap, known, m.key, sender.id, m.generation, false);
        assert ClaimLogged(m.key, found, sender.id, m.generation, false) == MatchesLogged(m, found, sender.id);
      } else if IsInvalidation(m) {
        assert r.value == found;
        UseJustified(log, st, known, m.key);
        assert log + [] == log;
      } else {
        var ids := set x | x in m.matchIds;
        var ev := Matched(m.key, found.serial, sender.id, m.generation, ids);
        RecordNext(log, ev, found.serial);
        MatchesDue(log, m.key, found, sender.id, m.generation, ids);
        WriteJustified(log, st, cap, known, m.key, r.value, ev);
      }
    }
  }

  lemma AuthorizeJustified(log: seq<Event>, st: Store, cap: nat, known: map<Id, Client>, k: Key, c: Id, g: int, id: string)
    requires Justified(log, st, known) && Kept(st, cap)
    ensures var (after, r) := AuthorizeRulesOpen(st, k, c, g, id);
      && Justified(log, after, known) && IdsIn(after.table) <= IdsIn(st.table)
      && (r.Some? ==>
            && r.value.ide.Some? && Committed(k, c, r.value.serial) in log && Owned(k, r.value.serial, r.value.ide.value) in log
            && RequestDue(log, r.value.serial, OpenRule(g, id)))
  {
    hide Justified, Kept, Find, IdsIn, Drop, Record;
    if AuthorizeRulesOpen(st, k, c, g, id).1.Some? {
      UseJustified(log, st, known, k);
      StoredIsLogged(log, st, known, k);
    }
  }

  /** The open of a rule is granted exactly to the origin of a stored route, on the last batch in the log. */
  lemma OpenGrantedExactly(log: seq<Event>, st: Store, cap: nat, known: map<Id, Client>, k: Key, c: Id, g: int, id: string)
    requires Justified(log, st, known) && Kept(st, cap)
    ensures var granted := AuthorizeRulesOpen(st, k, c, g, id).1; var found := Find(st.table, k);
      && (granted.Some? <==>
            found.Some? && found.value.origin == c && Stands(log, found.value.serial, OpenRule(g, id)))
      && (granted.Some? ==> granted == found)
  {
    hide Justified, Kept, Find, Record, Stands, Touch;
    if Find(st.table, k).Some? {
      StoredIsLogged(log, st, known, k);
      FoundRouteOk(st, cap, k);
      AllDue(log, st, known);
      RequestStands(log, Find(st.table, k).value.serial, OpenRule(g, id));
    }
  }

  /** A committed batch keeps the record, with the batch's IDE as the owner of a route that had none. */
  lemma BatchJustified(log: seq<Event>, st: Store, cap: nat, known: map<Id, Client>, k: Key, ide: Id, g: int,
                       sources: seq<RuleSource>, unresolved: int)
    requires Justified(log, st, known) && Kept(st, cap) && PrepareRules(st, k, ide, g, sources, unresolved).Some?
    requires IsIdeOf(known, ide, k.session)
    ensures Find(st.table, k).Some?
    ensures var found := Find(st.table, k).value; var h := PrepareRules(st, k, ide, g, sources, unresolved).value;
      var after := CommitHandle(st, h).0;
      && h.Rules? && h.revision == st.revision
      && Committed(k, found.origin, found.serial) in log && AnswerDue(log, k, found.serial, Sourced(ide, g))
      && IdsIn(after.table) <= IdsIn(st.table) + {ide}
      && Justified(log + BatchLogged(k, found, ide, g, sources), after, known)
  {
    hide Justified, Kept, Find, IdsIn, Drop, EventDue, Record, AuthorityIds, ProperSources;
    var found := Find(st.table, k).value;
    var h := PrepareRules(st, k, ide, g, sources, unresolved).value;
    var next := found.(ide := Some(ide), rules := Some(g), openIds := h.ids);
    var ev := Batched(k, found.serial, ide, g, h.ids);
    StoredIsLogged(log, st, known, k);
    OwnerOnRecord(log, k, found, next);
    RecordNext(OwnerLogged(log, k, found, next), ev, found.serial);
    BatchDue(OwnerLogged(log, k, found, next), k, found, ide, g, h.ids);
    WriteJustified(log, st, cap, known, k, next, ev);
    assert OwnerLogged(log, k, found, next) + [ev] == log + BatchLogged(k, found, ide, g, sources);
  }

  /** The origin is still there, in the session and on the browser side, with what it needs to take the reply. */
  predicate MayReply(clients: map<Id, Client>, k: Key, r: Route, capability: Option<Capability>): (ok: bool)
    ensures ok <==> r.origin in clients && clients[r.origin].session == k.session && clients[r.origin].role != Ide
                    && (capability.Some? ==> capability.value in clients[r.origin].capabilities)
  {
    var recipient := OriginRecipient(clients, k, r);
    recipient.Some? && (capability.Some? ==> Supports(recipient.value, capability.value))
  }

  lemma IdeSender(known: map<Id, Client>, sender: Client, m: Message, sourceId: string, capability: Capability)
    requires FromIde(sender, m, sourceId, capability) && sender.id in known && known[sender.id] == Identity(sender)
    ensures IsIdeOf(known, sender.id, m.key.session)
  {
  }

  lemma BrowserSender(sender: Client, m: Message, capability: Capability)
    requires FromBrowser(sender, m, capability)
    ensures sender.session == m.key.session && IsBrowserSide(sender)
  {
  }

  lemma MatchesSender(sender: Client, m: Message)
    requires m.SourceMatches? && MatchesAllowed(sender, m)
    ensures FromIde(sender, m, m.sourceId, SourcePresentationCapability)
  {
  }

  lemma SameRecipient(clients: map<Id, Client>, k: Key, r: Route, s: Route, capability: Option<Capability>)
    requires r.origin == s.origin
    ensures MayReply(clients, k, r, capability) == MayReply(clients, k, s, capability)
  {
  }

  predicate MayCommand(clients: map<Id, Client>, k: Key, r: Route, capability: Capability): (ok: bool)
    ensures ok <==> r.ide.Some? && r.ide.value in clients && clients[r.ide.value].session == k.session
                    && clients[r.ide.value].role == Ide && capability in clients[r.ide.value].capabilities
  {
    var recipient := IdeRecipient(clients, k, r);
    recipient.Some? && Supports(recipient.value, capability)
  }

  // ---- When the owner's messages are taken, told by the log ----

  /** The claims of a route in the log, however many. */
  ghost predicate NoLaterClaim(log: seq<Event>, serial: nat, g: int) {
    forall j :: 0 <= j < |log| && ClaimsFor(log[j], serial) ==> log[j].generation <= g
  }

  ghost predicate NoLaterBatch(log: seq<Event>, serial: nat, g: int) {
    && (forall j :: 0 <= j < |log| && BatchesFor(log[j], serial) ==> log[j].generation < g)
    && (g == 1 || exists j :: 0 <= j < |log| && BatchesFor(log[j], serial))
  }

  /** Whoever owns the route, it is this IDE or nobody yet. */
  ghost predicate NobodyElses(log: seq<Event>, k: Key, serial: nat, ide: Id) {
    Unowned(log, serial) || Owned(k, serial, ide) in log
  }

  /** Generations never fall: the last claim of a route is the greatest, and its last batch too. */
  lemma {:induction false} RecordIsGreatest(log: seq<Event>, serial: nat)
    requires forall i :: 0 <= i < |log| ==> Due(log, i)
    ensures var s := Record(log, serial);
      && (forall j :: 0 <= j < |log| && ClaimsFor(log[j], serial) ==> s.resolution.Some? && log[j].generation <= s.resolution.value)
      && (forall j :: 0 <= j < |log| && BatchesFor(log[j], serial) ==> s.rules.Some? && log[j].generation <= s.rules.value)
      && (s.resolution.Some? ==> exists j :: 0 <= j < |log| && ClaimsFor(log[j], serial) && log[j].generation == s.resolution.value)
      && (s.rules.Some? ==>
            s.rules.value >= 1 && exists j :: 0 <= j < |log| && BatchesFor(log[j], serial) && log[j].generation == s.rules.value)
  {
    if log != [] {
      var n := |log| - 1;
      var init := log[..n];
      forall i | 0 <= i < n ensures Due(init, i) { assert Due(log, i) && init[..i] == log[..i] && init[i] == log[i]; }
      RecordIsGreatest(init, serial);
      assert Due(log, n);
      assert forall j :: 0 <= j < n ==> init[j] == log[j];
    }
  }

  lemma OwnerStored(log: seq<Event>, st: Store, known: map<Id, Client>, k: Key, ide: Id)
    requires Justified(log, st, known) && Find(st.table, k).Some?
    ensures var r := Find(st.table, k).value; r.ide.None? || r.ide == Some(ide) <==> NobodyElses(log, k, r.serial, ide)
    ensures var r := Find(st.table, k).value; r.ide == Some(ide) <==> Owned(k, r.serial, ide) in log
  {
    hide Find, Record, EventDue;
    StoredIsLogged(log, st, known, k);
    var r := Find(st.table, k).value;
    if r.ide.Some? && Owned(k, r.serial, ide) in log {
      assert Compatible(Owned(k, r.serial, ide), Owned(k, r.serial, r.ide.value));
    }
  }

  /** A claim succeeds exactly on a stored route that nobody else owns, when no claim of it had a greater generation. */
  lemma ClaimSucceedsExactly(log: seq<Event>, st: Store, known: map<Id, Client>, k: Key, ide: Id, g: int, claimed: bool)
    requires Justified(log, st, known)
    ensures ClaimAuthority(st, k, ide, g, claimed).1.Some? <==>
      var found := Find(st.table, k);
      found.Some? && NobodyElses(log, k, found.value.serial, ide) && NoLaterClaim(log, found.value.serial, g)
  {
    hide Find, Record, EventDue, NobodyElses, Justified, Touch;
    if Find(st.table, k).Some? {
      StoredIsLogged(log, st, known, k);
      OwnerStored(log, st, known, k, ide);
      AllDue(log, st, known);
      RecordIsGreatest(log, Find(st.table, k).value.serial);
    }
  }

  lemma AllDue(log: seq<Event>, st: Store, known: map<Id, Client>)
    requires Justified(log, st, known)
    ensures forall i :: 0 <= i < |log| ==> Due(log, i)
  {
  }

  /** Match ids are taken exactly from the owner of a stored route, at the generation of its last claim, a resolution. */
  lemma MatchesTakenExactly(log: seq<Event>, st: Store, known: map<Id, Client>, k: Key, ide: Id, g: int, ids: set<string>)
    requires Justified(log, st, known)
    ensures ReplaceMatchIds(st, k, ide, g, ids).1.Some? <==>
      var found := Find(st.table, k);
      found.Some? && Owned(k, found.value.serial, ide) in log && exists j :: LastClaim(log, j, found.value.serial, g, true)
  {
    hide Find, Record, EventDue, Justified, Touch, LastClaim;
    if Find(st.table, k).Some? {
      StoredIsLogged(log, st, known, k);
      OwnerStored(log, st, known, k, ide);
      ClaimOnRecord(log, Find(st.table, k).value.serial, g, true);
    }
  }

  /**
   * A rules batch is taken exactly on a stored route that nobody else owns, if it is the first one with generation 1 or
   * later than every batch before, names expected rules and non-empty ids once each, and leaves exactly the others unresolved.
   */
  lemma BatchTakenExactly(log: seq<Event>, st: Store, known: map<Id, Client>, k: Key, ide: Id, g: int,
                          sources: seq<RuleSource>, unresolved: int)
    requires Justified(log, st, known)
    ensures PrepareRules(st, k, ide, g, sources, unresolved).Some? <==>
      var found := Find(st.table, k);
      && found.Some? && NobodyElses(log, k, found.value.serial, ide) && NoLaterBatch(log, found.value.serial, g)
      && RuleRefs(sources) <= found.value.expected && unresolved == |found.value.expected - RuleRefs(sources)|
      && (forall i :: 0 <= i < |sources| ==> sources[i].openAuthorityId != "")
      && forall i, j :: 0 <= i < j < |sources| ==>
           sources[i].ruleRef != sources[j].ruleRef && sources[i].openAuthorityId != sources[j].openAuthorityId
  {
    hide Find, Record, EventDue, NobodyElses, Justified, RuleRefs;
    if Find(st.table, k).Some? {
      StoredIsLogged(log, st, known, k);
      OwnerStored(log, st, known, k, ide);
      AllDue(log, st, known);
      RecordIsGreatest(log, Find(st.table, k).value.serial);
      if forall i, j :: 0 <= i < j < |sources| ==> sources[i].ruleRef != sources[j].ruleRef {
        RefsTold(sources, Find(st.table, k).value.expected);
      }
    }
  }

  ghost function RuleRefs(sources: seq<RuleSource>): set<string> {
    set i | 0 <= i < |sources| :: sources[i].ruleRef
  }

  lemma {:induction false} DistinctRefs(sources: seq<RuleSource>)
    requires forall i, j :: 0 <= i < j < |sources| ==> sources[i].ruleRef != sources[j].ruleRef
    ensures |RuleRefs(sources)| == |sources|
  {
    if sources != [] {
      var init, last := sources[..|sources| - 1], sources[|sources| - 1];
      DistinctRefs(init);
      assert RuleRefs(sources) == RuleRefs(init) + {last.ruleRef};
    }
  }

  /** The sources are proper and leave `unresolved` others exactly if they name distinct expected rules and all but those. */
  lemma RefsTold(sources: seq<RuleSource>, expected: set<string>)
    requires forall i, j :: 0 <= i < j < |sources| ==> sources[i].ruleRef != sources[j].ruleRef
    ensures RuleRefs(sources) <= expected <==> forall i :: 0 <= i < |sources| ==> sources[i].ruleRef in expected
    ensures RuleRefs(sources) <= expected ==> |expected - RuleRefs(sources)| == |expected| - |sources|
  {
    DistinctRefs(sources);
    if RuleRefs(sources) <= expected { OthersLeft(RuleRefs(sources), expected); }
    forall i | 0 <= i < |sources| ensures sources[i].ruleRef in RuleRefs(sources) {}
  }

  lemma OthersLeft(refs: set<string>, expected: set<string>)
    requires refs <= expected
    ensures |expected - refs| == |expected| - |refs|
  {
    assert expected == refs + (expected - refs);
  }

  lemma OwnerIsThere(clients: map<Id, Client>, k: Key, r: Route, capability: Capability)
    requires MayCommand(clients, k, r, capability)
    ensures r.ide.Some?
  {
  }

  /** What committing a registration that nothing overtook leaves. */
  lemma InspectCommitted(log: seq<Event>, st: Store, cap: nat, known: map<Id, Client>, k: Key, c: Id, refs: set<string>)
    requires Justified(log, st, known) && Kept(st, cap) && cap > 0
    requires c in known && known[c].session == k.session && known[c].role != Ide
    requires !Register(st, cap, k, c, refs).Collision?
    ensures var h := Register(st, cap, k, c, refs); var after := CommitHandle(st, h).0;
      && h.revision == st.revision
      && Justified(if h.Create? then log + [Committed(k, c, st.serials)] else log, after, known)
      && IdsIn(after.table) <= IdsIn(st.table) + {c}
      && Find(after.table, k).Some? && Find(after.table, k).value.origin == c && Find(after.table, k).value.expected == refs
  {
    var h := Register(st, cap, k, c, refs);
    if h.Create? {
      CreateJustified(log, st, cap, known, k, c, refs);
      CreateIds(st, cap, k, c, refs);
      PutFound(MakeRoom(st, h).table, k, NewRoute(st, c, refs), MakeRoom(st, h).revision);
    } else {
      UseJustified(log, st, known, k);
      PutFound(st.table, k, Find(st.table, k).value, st.revision);
    }
  }

  lemma PutFound(t: seq<Entry>, k: Key, r: Route, stamp: nat)
    ensures Find(Put(t, k, r, stamp), k) == Some(r)
  {
  }
}
