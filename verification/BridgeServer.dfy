/**
 * The bridge server: what its connection, message, close, heartbeat and stop handlers do to the registries, and what
 * holds whenever one of them has returned.
 */
module BridgeServer {
  import opened Options
  import opened ReplyRouteSpec
  import opened ReplyRouteProtocol
  import opened ReplyRoutes
  import opened Clients
  import opened PeerStates
  import opened BridgeLog
  import opened BridgeRouter

  /** The variables each connection's handlers share. */
  datatype Connection = Connection(registered: Option<Client>, linkAttempted: bool, closing: bool)

  /** A payload as the handler finds it; what the authenticator answers comes with it. */
  datatype Payload =
    | OtherVersion
    | Malformed
    | LinkRequest(accepted: bool)
    | Hello(id: Id, session: Id, role: Role, sourceId: string, capabilities: set<Capability>, admitted: bool)
    | Unlink(session: Id)
    | Pong
    | Routed(message: Message)
    | NotInbound

  /** `isAllowedInboundMessage` for the messages that are routed. */
  predicate AllowedInbound(c: Client, m: Message) {
    match m
    case Inspect(_, role, sourceId, _) =>
      FromBrowser(c, m, InspectCapability) && role == c.role && sourceId == c.sourceId
    case Resolution(_, sourceId, _) => FromIde(c, m, sourceId, ResolutionCapability)
    case RulesSources(_, sourceId, _, _, _) => FromIde(c, m, sourceId, RulesSourcesCapability)
    case SourceMatches(_, sourceId, _, _, _) => FromIde(c, m, sourceId, SourcePresentationCapability)
    case SourceOpen(_, _, _) => FromBrowser(c, m, SourcePresentationCapability)
    case RulesOpen(_, _, _) => FromBrowser(c, m, RulesSourcesCapability)
    case PresentationSettings(_) => FromBrowser(c, m, PresentationSettingsCapability)
    case SourceNavigate(_, _) => FromBrowser(c, m, SourceNavigationCapability)
    case NavigationState(_, sourceId, _, _, _, _) => FromIde(c, m, sourceId, SourceNavigationCapability)
    case PageRefresh(_, sourceId) => FromIde(c, m, sourceId, AutoRefreshCapability)
  }

  /** The client ids that connections stand registered under. */
  ghost function RegisteredIds(connections: map<nat, Connection>): set<Id> {
    set c | c in connections && connections[c].registered.Some? :: connections[c].registered.value.id
  }

  /** The session's flag is set exactly when it has an IDE. */
  ghost predicate FlagRight(clients: map<Id, Client>, states: map<Id, PeerState>, session: Id) {
    StateOf(states, session).connected <==> InSession(clients, session, Ide) != {}
  }

  /** The last peer state a browser-side client was sent is the session's current one. */
  ghost predicate ToldRight(clients: map<Id, Client>, states: map<Id, PeerState>, told: map<Id, PeerState>, id: Id) {
    id in clients && IsBrowserSide(clients[id]) ==> id in told && told[id] == StateOf(states, clients[id].session)
  }

  lemma SameFlags(a: map<Id, Client>, b: map<Id, Client>, states: map<Id, PeerState>, session: Id)
    requires SameClients(a, b)
    ensures FlagRight(a, states, session) == FlagRight(b, states, session)
  {
    assert forall id :: id in InSession(a, session, Ide) <==> id in InSession(b, session, Ide) by {
      assert forall id :: id in a ==> Identity(a[id]) == Identity(b[id]);
    }
  }

  lemma SameTold(a: map<Id, Client>, b: map<Id, Client>, states: map<Id, PeerState>, told: map<Id, PeerState>, id: Id)
    requires SameClients(a, b)
    ensures ToldRight(a, states, told, id) == ToldRight(b, states, told, id)
  {
    if id in a { assert Identity(a[id]) == Identity(b[id]); }
  }

  /** Removing a client moves only the flag of its session, and only if it is an IDE. */
  lemma RemovalFlags(clients: map<Id, Client>, states: map<Id, PeerState>, id: Id, session: Id)
    requires FlagRight(clients, states, session)
    requires id in clients ==> clients[id].role != Ide || clients[id].session != session
    ensures FlagRight(clients - {id}, states, session)
  {
    assert InSession(clients - {id}, session, Ide) == InSession(clients, session, Ide);
  }

  /** Adding a client moves only the flag of its session, and only if it is an IDE. */
  lemma AdditionFlags(clients: map<Id, Client>, states: map<Id, PeerState>, c: Client, session: Id)
    requires FlagRight(clients, states, session) && c.id !in clients && (c.role != Ide || c.session != session)
    ensures FlagRight(clients[c.id := c], states, session)
  {
    assert InSession(clients[c.id := c], session, Ide) == InSession(clients, session, Ide);
  }

  lemma AdditionTold(clients: map<Id, Client>, states: map<Id, PeerState>, told: map<Id, PeerState>, c: Client, id: Id)
    requires ToldRight(clients, states, told, id) && (id != c.id || !IsBrowserSide(c))
    ensures ToldRight(clients[c.id := c], states, told, id)
  {
  }

  lemma RemoveClientIds(st: Store, c: Id)
    ensures IdsIn(ReplyRouteSpec.RemoveClient(st, c).table) <= IdsIn(st.table) - {c}
  {
  }

  class BridgeServer {
    const clients: ClientRegistry
    const peers: PeerStateRegistry
    const routes: ReplyRouteRegistry
    const router: BridgeRouter
    var connections: map<nat, Connection>
    // The last peer state sent to each client, delivered or not.
    ghost var told: map<Id, PeerState>
    // The connections whose close or unlink handler has run.
    ghost var ended: set<nat>

    /** What holds even while a handler is at work. */
    ghost predicate Standing()
      reads this, clients, peers, routes, router
    {
      && router.clients == clients && router.routes == routes && router.Valid() && peers.Valid()
      && IdsIn(routes.table) <= RegisteredIds(connections)
      && clients.clients.Keys <= RegisteredIds(connections)
      && (forall c :: c in connections && connections[c].registered.Some? ==> router.Knows(connections[c].registered.value))
      && (forall c :: c in ended ==> c in connections && connections[c].registered.None? && connections[c].closing)
    }

    ghost predicate FlagsRight(except: Option<Id>)
      reads this, clients, peers
    {
      forall s :: Some(s) != except ==> FlagRight(clients.clients, peers.states, s)
    }

    ghost predicate AllTold(except: Option<Id>)
      reads this, clients, peers
    {
      forall id :: Some(id) != except ==> ToldRight(clients.clients, peers.states, told, id)
    }

    /**
     * Between handlers: a session's flag is set exactly when an IDE of it is registered, its generation is odd exactly
     * then, every browser was last told that state, and every id in a route is that of a connection whose close or
     * unlink handler has not run.
     */
    ghost predicate Valid()
      reads this, clients, peers, routes, router
    {
      Standing() && FlagsRight(None) && AllTold(None)
    }

    constructor (clients: ClientRegistry, peers: PeerStateRegistry, routes: ReplyRouteRegistry)
      requires clients.Valid() && clients.clients == map[] && peers.Valid() && peers.states == map[]
      requires routes.Valid() && routes.View() == Start().st
      ensures Valid() && fresh(router) && connections == map[] && ended == {}
      ensures this.clients == clients && this.peers == peers && this.routes == routes
    {
      this.clients, this.peers, this.routes := clients, peers, routes;
      router := new BridgeRouter(clients, routes);
      connections, told, ended := map[], map[], {};
    }

    /** `publishPeerState`: to every browser and simulator of the session but one. */
    method PublishPeerState(session: Id, state: PeerState, excluded: Option<Id>)
      modifies this`told
      ensures told.Keys >= old(told).Keys
      ensures forall id :: id in told ==>
        if id in clients.clients && clients.clients[id].session == session && IsBrowserSide(clients.clients[id]) && Some(id) != excluded
        then told[id] == state else id in old(told) && told[id] == old(told)[id]
      ensures forall id :: id in clients.clients ==>
        clients.clients[id].session == session && IsBrowserSide(clients.clients[id]) && Some(id) != excluded ==> id in told
    {
      var left := set id | id in clients.clients && clients.clients[id].session == session
                           && IsBrowserSide(clients.clients[id]) && Some(id) != excluded;
      ghost var all := left;
      while left != {}
        invariant left <= all && told.Keys == old(told).Keys + (all - left)
        invariant forall id :: id in told ==>
                    if id in all - left then told[id] == state else id in old(told) && told[id] == old(told)[id]
        decreases left
      {
        var id :| id in left;
        told := told[id := state];
        left := left - {id};
      }
    }

    /** Count the IDEs of a session and set its flag by them. */
    method RefreshFlag(session: Id) returns (transition: Transition)
      requires Standing() && FlagsRight(Some(session))
      modifies peers
      ensures Standing() && FlagsRight(None) && !transition.Rejected?
      ensures transition.Changed? ==> transition.state == StateOf(peers.states, session)
      ensures forall s :: s != session ==> StateOf(peers.states, s) == StateOf(old(peers.states), s)
      ensures !transition.Changed? ==> peers.states == old(peers.states)
      ensures FlagsCounted(old(peers.states), peers.states)
    {
      hide Justified, Kept, IdsIn, RegisteredIds;
      var count := clients.CountBySessionAndRole(session, Ide);
      transition := peers.UpdateIdeCount(session, count);
      forall s ensures FlagRight(clients.clients, peers.states, s) {
        assert s != session ==> FlagRight(clients.clients, old(peers.states), s);
      }
    }

    /** Set the session's flag and, if it changed, tell every browser of the session but one. */
    method Refresh(session: Id, excluded: Option<Id>)
      requires Standing() && FlagsRight(Some(session)) && AllTold(excluded)
      modifies peers, this`told
      ensures Standing() && FlagsRight(None) && AllTold(excluded)
      ensures FlagsCounted(old(peers.states), peers.states)
    {
      hide Justified, Kept, IdsIn, RegisteredIds, FlagRight, StateOf, InSession, FlagsCounted;
      var transition := RefreshFlag(session);
      if transition.Changed? { PublishPeerState(session, transition.state, excluded); }
      forall id | Some(id) != excluded ensures ToldRight(clients.clients, peers.states, told, id) {
        assert ToldRight(clients.clients, old(peers.states), old(told), id);
      }
    }

    /** `updatePeerState`: bring the session's flag up to date and tell every browser if it changed. */
    method UpdatePeerState(session: Id)
      requires Standing() && FlagsRight(Some(session)) && AllTold(None)
      modifies peers, this`told
      ensures Valid() && FlagsCounted(old(peers.states), peers.states)
    {
      Refresh(session, None);
    }

    /** `sendCurrentPeerState`: bring the flag up to date, tell the others if it changed, and the new browser in any case. */
    method SendCurrentPeerState(client: Client)
      requires Standing() && FlagsRight(Some(client.session)) && AllTold(Some(client.id))
      requires client.id in clients.clients && clients.clients[client.id] == client
      modifies peers, this`told
      ensures Valid() && client.id in told && told[client.id] == StateOf(peers.states, client.session)
      ensures FlagsCounted(old(peers.states), peers.states)
    {
      hide Justified, Kept, IdsIn, RegisteredIds, FlagRight, StateOf, InSession, FlagsCounted;
      Refresh(client.session, Some(client.id));
      label Refreshed:
      told := told[client.id := StateOf(peers.states, client.session)];
      forall id ensures ToldRight(clients.clients, peers.states, told, id) {
        assert id != client.id ==> ToldRight(clients.clients, peers.states, old@Refreshed(told), id);
      }
    }

    /** `onClientRemoved`: the client's routes go, and the flag follows when it was an IDE. */
    method OnClientRemoved(client: Client)
      requires Standing() && client.id !in clients.clients && AllTold(None)
      requires FlagsRight(if client.role == Ide then Some(client.session) else None)
      modifies peers, routes, this`told
      ensures Valid() && routes.View() == ReplyRouteSpec.RemoveClient(old(routes.View()), client.id)
      ensures FlagsCounted(old(peers.states), peers.states)
    {
      hide Kept, IdsIn, Justified, FlagsCounted;
      NothingCounted(peers.states);
      ForgetRoutes(client.id);
      if client.role == Ide { UpdatePeerState(client.session); }
    }

    /** `replyRoutes.removeClient`, with what the routes may still mention afterwards. */
    method ForgetRoutes(id: Id)
      requires Standing()
      modifies routes
      ensures Standing() && routes.View() == ReplyRouteSpec.RemoveClient(old(routes.View()), id)
      ensures id !in IdsIn(routes.table)
    {
      hide Kept, IdsIn, Justified;
      RemoveClientIds(routes.View(), id);
      ClientGone(router.log, routes.View(), router.known, id);
      routes.RemoveClient(id);
    }

    /** Take a client out of the registry and everything else that mentions it. */
    method DropClient(client: Client) returns (removed: bool)
      requires Valid() && (client.id in clients.clients ==> Identity(clients.clients[client.id]) == Identity(client))
      modifies clients, peers, routes, this`told
      ensures Valid() && client.id !in IdsIn(routes.table)
      ensures clients.clients == old(clients.clients) - {client.id}
      ensures routes.View() == ReplyRouteSpec.RemoveClient(old(routes.View()), client.id)
      ensures FlagsCounted(old(peers.states), peers.states)
    {
      hide Kept, IdsIn, Justified, FlagsCounted;
      NothingCounted(peers.states);
      RemoveClientIds(routes.View(), client.id);
      ghost var before := clients.clients;
      removed := clients.Remove(client.id);
      forall s | client.role != Ide || s != client.session || !removed
        ensures FlagRight(clients.clients, peers.states, s)
      {
        assert FlagRight(before, peers.states, s);
        RemovalFlags(before, peers.states, client.id, s);
      }
      forall id ensures ToldRight(clients.clients, peers.states, told, id) {
        assert ToldRight(before, peers.states, told, id);
      }
      if removed { OnClientRemoved(client); } else { ForgetRoutes(client.id); }
    }

    /** A new socket. */
    method OnConnection(conn: nat)
      requires Valid() && conn !in connections
      modifies this`connections
      ensures Valid() && connections == old(connections)[conn := Connection(None, false, false)]
    {
      hide Kept, IdsIn, Justified;
      connections := connections[conn := Connection(None, false, false)];
      SameRegistered(old(connections), connections, conn);
    }

    /** Change what a connection remembers, but not whether it is registered. */
    method Note(conn: nat, linkAttempted: bool, closing: bool)
      requires Valid() && conn in connections && (connections[conn].closing ==> closing)
      modifies this`connections
      ensures Valid()
      ensures connections == old(connections)[conn := Connection(old(connections)[conn].registered, linkAttempted, closing)]
    {
      hide Kept, IdsIn, Justified;
      connections := connections[conn := Connection(connections[conn].registered, linkAttempted, closing)];
      SameRegistered(old(connections), connections, conn);
    }

    /** Add a client under a fresh id and remember it on its connection; its peers do not know yet. */
    method Enroll(conn: nat, c: Client)
      requires Valid() && conn in connections && connections[conn].registered.None? && !connections[conn].closing
      requires c.id !in router.known && c.missedPongs == 0
      modifies this`connections, clients, router`known
      ensures Standing() && FlagsRight(if c.role == Ide then Some(c.session) else None)
      ensures AllTold(if IsBrowserSide(c) then Some(c.id) else None)
      ensures clients.clients == old(clients.clients)[c.id := c] && c.id !in old(clients.clients)
      ensures connections == old(connections)[conn := old(connections)[conn].(registered := Some(c))]
    {
      hide Kept, IdsIn, Justified, RegisteredIds, FlagRight, ToldRight;
      ghost var before := clients.clients;
      assert c.id !in before;
      router.Know(c);
      var client := clients.Add(c.id, c.session, c.role, c.sourceId, c.capabilities);
      connections := connections[conn := connections[conn].(registered := Some(client))];
      NewlyRegistered(old(connections), connections, conn);
      forall s | c.role != Ide || s != c.session ensures FlagRight(clients.clients, peers.states, s) {
        assert FlagRight(before, peers.states, s);
        AdditionFlags(before, peers.states, client, s);
      }
      forall other | other != c.id || !IsBrowserSide(c) ensures ToldRight(clients.clients, peers.states, told, other) {
        assert ToldRight(before, peers.states, told, other);
        AdditionTold(before, peers.states, told, client, other);
      }
    }

    /** `hello`: the connection is registered under a fresh id, and peers learn of each other. */
    method Authenticate(conn: nat, id: Id, session: Id, role: Role, sourceId: string, capabilities: set<Capability>)
      requires Valid() && conn in connections && connections[conn].registered.None? && !connections[conn].closing
      requires id !in router.known
      modifies this, clients, peers, router`known
      ensures Valid() && ended == old(ended) && FlagsCounted(old(peers.states), peers.states)
      ensures var c := Client(id, session, role, sourceId, capabilities, 0);
        && clients.clients == old(clients.clients)[id := c]
        && connections == old(connections)[conn := old(connections)[conn].(registered := Some(c))]
    {
      hide Kept, IdsIn, Justified, RegisteredIds, FlagRight, ToldRight, FlagsCounted;
      var client := Client(id, session, role, sourceId, capabilities, 0);
      Enroll(conn, client);
      if IsBrowserSide(client) { SendCurrentPeerState(client); } else { UpdatePeerState(session); }
    }

    /** `unlink` and `close`: the connection's registration ends, wherever the client is. */
    method End(conn: nat)
      requires Valid() && conn in connections
      modifies this, clients, peers, routes
      ensures Valid() && conn in ended && ended == old(ended) + {conn} && FlagsCounted(old(peers.states), peers.states)
      ensures connections == old(connections)[conn := old(connections)[conn].(registered := None, closing := true)]
      ensures var was := old(connections)[conn].registered;
        && clients.clients == (if was.Some? then old(clients.clients) - {was.value.id} else old(clients.clients))
        && routes.View() == if was.Some? then ReplyRouteSpec.RemoveClient(old(routes.View()), was.value.id) else old(routes.View())
    {
      hide Kept, IdsIn, Justified, RegisteredIds, FlagRight, ToldRight, ReplyRouteSpec.RemoveClient, FlagsCounted;
      NothingCounted(peers.states);
      var was := connections[conn].registered;
      if was.Some? { var _ := DropClient(was.value); }
      Unregister(conn);
    }

    /** `registered = undefined` and `closing = true`, once nothing mentions the client any more. */
    method Unregister(conn: nat)
      requires Valid() && conn in connections
      requires connections[conn].registered.Some? ==>
        var id := connections[conn].registered.value.id; id !in clients.clients && id !in IdsIn(routes.table)
      modifies this`connections, this`ended
      ensures Valid() && ended == old(ended) + {conn}
      ensures connections == old(connections)[conn := old(connections)[conn].(registered := None, closing := true)]
    {
      hide Kept, IdsIn, Justified, RegisteredIds, FlagRight, ToldRight;
      connections := connections[conn := connections[conn].(registered := None, closing := true)];
      ended := ended + {conn};
      LessRegistered(old(connections), connections, conn);
    }

    method OnClose(conn: nat)
      requires Valid() && conn in connections
      modifies this, clients, peers, routes
      ensures Valid() && conn in ended && connections[conn].registered.None?
      ensures old(connections)[conn].registered.Some? ==>
        var id := old(connections)[conn].registered.value.id; id !in clients.clients && id !in IdsIn(routes.table)
    {
      hide Kept, Justified;
      if connections[conn].registered.Some? { RemoveClientIds(routes.View(), connections[conn].registered.value.id); }
      End(conn);
    }

    /**
     * One message of a socket: what it does to its connection, to the clients and to the routes; every flag that
     * changes raises its generation by one, and only a routed message of an admitted client is logged by the router.
     */
    method OnMessage(conn: nat, p: Payload, delivers: Id -> bool)
      requires Valid() && conn in connections && (p.Hello? ==> p.id !in router.known)
      modifies this, clients, peers, routes, router`known, router`log
      ensures Valid() && old(router.log) <= router.log
      ensures connections == old(connections)[conn := Next(old(connections)[conn], p)]
      ensures ended == old(ended) + if EndsBy(old(connections)[conn], p) then {conn} else {}
      ensures clients.clients == NextClients(old(clients.clients), old(connections)[conn], p)
      ensures routes.View() == NextRoutes(old(routes.View()), routes.maxRoutesPerClient, old(clients.clients),
                                          old(connections)[conn], p, delivers)
      ensures FlagsCounted(old(peers.states), peers.states)
      ensures !Routes(old(connections)[conn], p) ==> router.log == old(router.log)
    {
      hide Kept, IdsIn, Justified, AllowedInbound, RegisteredIds, FlagRight, ToldRight, Standing, FlagsCounted, RoutesAfter,
        ReplyRouteSpec.RemoveClient;
      NothingCounted(peers.states);
      var state := connections[conn];
      assert connections[conn := state] == connections;
      if state.closing { return; }
      match p {
        case LinkRequest(accepted) =>
          if state.linkAttempted || state.registered.Some? { Note(conn, state.linkAttempted, true); }
          else { Note(conn, true, !accepted); }
        case Hello(id, session, role, sourceId, capabilities, admitted) =>
          if state.registered.Some? || !admitted { Note(conn, state.linkAttempted, true); }
          else { Authenticate(conn, id, session, role, sourceId, capabilities); }
        case Unlink(session) =>
          if state.registered.None? || session != state.registered.value.session { Note(conn, state.linkAttempted, true); }
          else { End(conn); }
        case Pong =>
          if state.registered.None? { Note(conn, state.linkAttempted, true); } else { MarkAlive(state.registered.value.id); }
        case Routed(m) =>
          if state.registered.None? || !AllowedInbound(state.registered.value, m) { Note(conn, state.linkAttempted, true); }
          else { Route(conn, state.registered.value, m, delivers); }
        case _ => Note(conn, state.linkAttempted, true);
      }
    }

    method MarkAlive(id: Id)
      requires Valid()
      modifies clients
      ensures Valid()
      ensures clients.clients == if id in old(clients.clients) then old(clients.clients)[id := old(clients.clients)[id].(missedPongs := 0)]
                                 else old(clients.clients)
    {
      hide Kept, IdsIn, Justified;
      clients.MarkAlive(id);
      StillRight(old(clients.clients));
    }

    twostate lemma StillRight(before: map<Id, Client>)
      requires before == old(clients.clients) && old(Valid()) && clients.Valid() && SameClients(before, clients.clients)
      requires unchanged(this) && unchanged(peers) && unchanged(routes) && unchanged(router)
      ensures Valid()
    {
      hide Kept, IdsIn, Justified;
      forall s ensures FlagRight(clients.clients, peers.states, s) {
        assert FlagRight(before, peers.states, s);
        SameFlags(before, clients.clients, peers.states, s);
      }
      forall id ensures ToldRight(clients.clients, peers.states, told, id) {
        assert ToldRight(before, peers.states, told, id);
        SameTold(before, clients.clients, peers.states, told, id);
      }
    }

    method Route(conn: nat, sender: Client, m: Message, delivers: Id -> bool)
      requires Valid() && conn in connections && connections[conn].registered == Some(sender)
      modifies routes, router`log
      ensures Valid() && old(router.log) <= router.log
      ensures routes.View() == RoutesAfter(old(routes.View()), routes.maxRoutesPerClient, clients.clients, sender, m, delivers)
    {
      hide Kept, Justified, IdsIn;
      assert sender.id in RegisteredIds(connections);
      router.RouteMessage(sender, m, delivers);
    }

    /** One client's turn of the heartbeat. */
    method Beat(id: Id)
      requires Valid() && id in clients.clients
      modifies clients, peers, routes, this`told
      ensures Valid()
      ensures var c := old(clients.clients)[id];
        clients.clients == if c.missedPongs >= 2 then old(clients.clients) - {id}
                           else old(clients.clients)[id := c.(missedPongs := c.missedPongs + 1)]
      ensures routes.View() == if id in clients.clients then old(routes.View())
                               else ReplyRouteSpec.RemoveClient(old(routes.View()), id)
      ensures id !in clients.clients ==> id !in IdsIn(routes.table)
      ensures IdsIn(routes.table) <= IdsIn(old(routes.table))
    {
      hide Kept, Justified, IdsIn, RegisteredIds, FlagRight, ToldRight;
      var client := clients.clients[id];
      if client.missedPongs >= 2 {
        RemoveClientIds(routes.View(), id);
        var _ := DropClient(client);
      } else {
        Ping(id);
      }
    }

    /** The heartbeat: clients that missed two pongs are evicted with their routes, all others are pinged. */
    method HeartbeatTick()
      requires Valid()
      modifies clients, peers, routes, this`told
      ensures Valid()
      ensures forall id :: id in clients.clients <==> id in old(clients.clients) && old(clients.clients)[id].missedPongs < 2
      ensures forall id :: id in clients.clients ==>
        clients.clients[id] == old(clients.clients)[id].(missedPongs := old(clients.clients)[id].missedPongs + 1)
      ensures forall id :: id in old(clients.clients) && id !in clients.clients ==> id !in IdsIn(routes.table)
    {
      hide *;
      ghost var all := clients.clients;
      var left := clients.clients.Keys;
      while left != {}
        invariant Valid() && left <= all.Keys && clients.clients.Keys <= all.Keys
        invariant forall id :: id in left ==> id in clients.clients && clients.clients[id] == all[id]
        invariant forall id :: id in all && id !in left ==> (id in clients.clients <==> all[id].missedPongs < 2)
        invariant forall id :: id in clients.clients && id !in left ==>
                    clients.clients[id] == all[id].(missedPongs := all[id].missedPongs + 1)
        invariant forall id :: id in all && id !in clients.clients ==> id !in IdsIn(routes.table)
        decreases left
      {
        var id :| id in left;
        Beat(id);
        left := left - {id};
      }
    }

    method Ping(id: Id)
      requires Valid() && id in clients.clients
      modifies clients
      ensures Valid()
      ensures clients.clients == old(clients.clients)[id := old(clients.clients)[id].(missedPongs := old(clients.clients)[id].missedPongs + 1)]
    {
      hide Kept, IdsIn, Justified;
      clients.MarkPingSent(id);
      StillRight(old(clients.clients));
    }

    /** `stop`: every registry is emptied; connections notice when their sockets close. */
    method Stop()
      requires Valid()
      modifies clients, peers, routes
      ensures Valid() && clients.clients == map[] && peers.states == map[] && routes.table == []
    {
      hide Kept, Justified;
      RemovalJustified(router.log, routes.View(), ReplyRouteSpec.Clear(routes.View()), router.known);
      clients.Clear();
      peers.Clear();
      routes.Clear();
      assert forall s :: InSession(clients.clients, s, Ide) == {};
    }
  }

  /** What a message leaves of its connection's state. */
  function Next(c: Connection, p: Payload): Connection {
    if c.closing then c
    else if p.LinkRequest? then
      if c.linkAttempted || c.registered.Some? then c.(closing := true) else c.(linkAttempted := true, closing := !p.accepted)
    else if p.Hello? && c.registered.None? && p.admitted then
      c.(registered := Some(Client(p.id, p.session, p.role, p.sourceId, p.capabilities, 0)))
    else if EndsBy(c, p) then c.(registered := None, closing := true)
    else c.(closing := c.registered.None? || !(p.Pong? || (p.Routed? && AllowedInbound(c.registered.value, p.message))))
  }

  /** What some messages leave, one after the other. */
  function NextAll(c: Connection, ps: seq<Payload>): Connection {
    if ps == [] then c else Next(NextAll(c, ps[..|ps| - 1]), ps[|ps| - 1])
  }

  /**
   * Over any messages a connection registers at most once, asks for a link at most once and never after it registered, and
   * once it is closing or has lost its registration nothing changes any more.
   */
  lemma {:induction false} OneIdentity(c: Connection, ps: seq<Payload>)
    ensures var after := NextAll(c, ps);
      && (c.closing ==> after == c)
      && (c.registered.Some? ==> after.registered == c.registered || (after.registered.None? && after.closing))
      && (c.linkAttempted || c.registered.Some? ==>
            after.linkAttempted == c.linkAttempted && ((exists i :: 0 <= i < |ps| && ps[i].LinkRequest?) ==> after.closing))
  {
    if ps != [] {
      OneIdentity(c, ps[..|ps| - 1]);
      forall i | 0 <= i < |ps| && ps[i].LinkRequest? && (c.linkAttempted || c.registered.Some?)
        ensures NextAll(c, ps).closing
      {
        if i < |ps| - 1 { assert ps[..|ps| - 1][i].LinkRequest?; }
      }
    }
  }

  /** What is let in is what the router then takes for genuine, but for the further capability some matches need. */
  lemma InboundIsGenuine(c: Client, m: Message)
    ensures Genuine(c, m) ==> AllowedInbound(c, m)
    ensures AllowedInbound(c, m) && !Genuine(c, m) ==>
              m.SourceMatches? && m.matchIds == [] && m.omitted == 0 && ResolutionCapability !in c.capabilities
    ensures m.SourceMatches? ==>
              (AllowedInbound(c, m) <==>
                c.role == Ide && m.key.session == c.session && m.sourceId == c.sourceId
                && SourcePresentationCapability in c.capabilities)
  {
    GatesAreGenuine(c, m);
  }

  function ClientOf(p: Payload): Client
    requires p.Hello?
  {
    Client(p.id, p.session, p.role, p.sourceId, p.capabilities, 0)
  }

  /** A message that an open connection may get after the ones before it. */
  ghost predicate Welcome(ps: seq<Payload>, i: nat)
    requires i < |ps|
  {
    match ps[i]
    case LinkRequest(accepted) => accepted && forall j :: 0 <= j < i ==> !ps[j].LinkRequest? && !ps[j].Hello?
    case Hello(_, _, _, _, _, admitted) => admitted && forall j :: 0 <= j < i ==> !ps[j].Hello?
    case Pong => exists j :: 0 <= j < i && ps[j].Hello?
    case Routed(m) => exists j :: 0 <= j < i && ps[j].Hello? && AllowedInbound(ClientOf(ps[j]), m)
    case _ => false
  }

  lemma WelcomeSnoc(ps: seq<Payload>, p: Payload, i: nat)
    requires i < |ps|
    ensures Welcome(ps + [p], i) <==> Welcome(ps, i)
  {
    hide AllowedInbound;
    assert forall j :: 0 <= j < |ps| ==> (ps + [p])[j] == ps[j];
  }

  /**
   * A new connection stays open exactly as long as every message is welcome: at most one request for a link, accepted and
   * before the hello, at most one hello, and pongs and allowed messages only after it. It is registered as its hello says.
   */
  lemma {:induction false} OpenExactly(ps: seq<Payload>)
    ensures var c := NextAll(Connection(None, false, false), ps);
      && (!c.closing <==> forall i: nat :: i < |ps| ==> Welcome(ps, i))
      && (!c.closing ==>
            && (c.linkAttempted <==> exists i :: 0 <= i < |ps| && ps[i].LinkRequest?)
            && (c.registered.Some? <==> exists i :: 0 <= i < |ps| && ps[i].Hello?)
            && forall i :: 0 <= i < |ps| && ps[i].Hello? ==> c.registered == Some(ClientOf(ps[i])))
  {
    hide AllowedInbound, Welcome, Next;
    if ps != [] {
      var init, p := ps[..|ps| - 1], ps[|ps| - 1];
      OpenExactly(init);
      assert ps == init + [p];
      forall i: nat | i < |init| ensures Welcome(ps, i) <==> Welcome(init, i) { WelcomeSnoc(init, p, i); }
      OneMessage(NextAll(Connection(None, false, false), init), init, p);
    }
  }

  lemma OneMessage(c: Connection, init: seq<Payload>, p: Payload)
    requires !c.closing ==>
      && (c.linkAttempted <==> exists i :: 0 <= i < |init| && init[i].LinkRequest?)
      && (c.registered.Some? <==> exists i :: 0 <= i < |init| && init[i].Hello?)
      && forall i :: 0 <= i < |init| && init[i].Hello? ==> c.registered == Some(ClientOf(init[i]))
    ensures var ps, after := init + [p], Next(c, p);
      && (!after.closing <==> !c.closing && Welcome(ps, |init|))
      && (!after.closing ==>
            && (after.linkAttempted <==> exists i :: 0 <= i < |ps| && ps[i].LinkRequest?)
            && (after.registered.Some? <==> exists i :: 0 <= i < |ps| && ps[i].Hello?)
            && forall i :: 0 <= i < |ps| && ps[i].Hello? ==> after.registered == Some(ClientOf(ps[i])))
  {
    hide AllowedInbound;
    var ps, after := init + [p], Next(c, p);
    assert ps[|init|] == p;
    if !c.closing {
      assert forall j :: 0 <= j < |init| ==> ps[j] == init[j];
      SomeLink(init, p);
      if c.registered.Some? {
        var h: nat :| h < |init| && init[h].Hello?;
        assert ps[h] == init[h] && c.registered == Some(ClientOf(ps[h]));
      }
    }
  }

  lemma SomeLink(init: seq<Payload>, p: Payload)
    ensures var ps := init + [p];
      && ((exists i :: 0 <= i < |ps| && ps[i].LinkRequest?) <==> p.LinkRequest? || exists i :: 0 <= i < |init| && init[i].LinkRequest?)
      && ((exists i :: 0 <= i < |ps| && ps[i].Hello?) <==> p.Hello? || exists i :: 0 <= i < |init| && init[i].Hello?)
  {
    var ps := init + [p];
    assert ps[|init|] == p;
    if i :| 0 <= i < |init| && init[i].LinkRequest? { assert ps[i] == init[i]; }
    if i :| 0 <= i < |init| && init[i].Hello? { assert ps[i] == init[i]; }
  }

  /** A routed message of a registered client that may send it. */
  predicate Routes(c: Connection, p: Payload) {
    !c.closing && c.registered.Some? && p.Routed? && AllowedInbound(c.registered.value, p.message)
  }

  /** What a message does to the registered clients. */
  function NextClients(clients: map<Id, Client>, c: Connection, p: Payload): map<Id, Client> {
    if !c.closing && p.Hello? && c.registered.None? && p.admitted then
      clients[p.id := Client(p.id, p.session, p.role, p.sourceId, p.capabilities, 0)]
    else if EndsBy(c, p) then clients - {c.registered.value.id}
    else if !c.closing && p.Pong? && c.registered.Some? && c.registered.value.id in clients then
      clients[c.registered.value.id := clients[c.registered.value.id].(missedPongs := 0)]
    else clients
  }

  /**
   * Who is a client after a message: the one an admitted hello of an open, unregistered connection names, and all others
   * but the one that takes its leave.
   */
  lemma ClientsExactly(clients: map<Id, Client>, c: Connection, p: Payload, id: Id)
    ensures var after := NextClients(clients, c, p);
      var joins := !c.closing && c.registered.None? && p.Hello? && p.admitted && id == p.id;
      var leaves := !c.closing && c.registered.Some? && id == c.registered.value.id && p.Unlink? && p.session == c.registered.value.session;
      && (id in after <==> joins || (id in clients && !leaves))
      && (joins ==> after[id] == ClientOf(p))
      && (id in after && !joins ==>
            after[id] == if !c.closing && c.registered.Some? && id == c.registered.value.id && p.Pong?
                         then clients[id].(missedPongs := 0) else clients[id])
  {
  }

  /** What a message does to the routes: the router's work, or the end of its client. */
  ghost function NextRoutes(st: Store, cap: nat, clients: map<Id, Client>, c: Connection, p: Payload,
                            delivers: Id -> bool): Store {
    if EndsBy(c, p) then ReplyRouteSpec.RemoveClient(st, c.registered.value.id)
    else if Routes(c, p) then RoutesAfter(st, cap, clients, c.registered.value, p.message, delivers)
    else st
  }

  /** Every generation counts exactly the changes of its flag. */
  ghost predicate FlagsCounted(before: map<Id, PeerState>, after: map<Id, PeerState>) {
    forall s :: StateOf(after, s).generation
      == StateOf(before, s).generation + if StateOf(after, s).connected != StateOf(before, s).connected then 1 else 0
  }

  lemma NothingCounted(states: map<Id, PeerState>)
    ensures FlagsCounted(states, states)
  {
  }

  predicate EndsBy(c: Connection, p: Payload) {
    !c.closing && p.Unlink? && c.registered.Some? && c.registered.value.session == p.session
  }

  lemma SameRegistered(before: map<nat, Connection>, after: map<nat, Connection>, conn: nat)
    requires conn in after && after == before[conn := after[conn]]
    requires after[conn].registered == if conn in before then before[conn].registered else None
    ensures RegisteredIds(after) == RegisteredIds(before)
  {
    forall id | id in RegisteredIds(before) ensures id in RegisteredIds(after) {
      var c :| c in before && before[c].registered.Some? && before[c].registered.value.id == id;
      assert c in after && after[c].registered == before[c].registered;
    }
  }

  lemma NewlyRegistered(before: map<nat, Connection>, after: map<nat, Connection>, conn: nat)
    requires conn in before && before[conn].registered.None?
    requires conn in after && after == before[conn := after[conn]] && after[conn].registered.Some?
    ensures RegisteredIds(after) == RegisteredIds(before) + {after[conn].registered.value.id}
  {
    forall id | id in RegisteredIds(before) ensures id in RegisteredIds(after) {
      var c :| c in before && before[c].registered.Some? && before[c].registered.value.id == id;
      assert c in after && after[c].registered == before[c].registered;
    }
    assert conn in after;
  }

  lemma LessRegistered(before: map<nat, Connection>, after: map<nat, Connection>, conn: nat)
    requires conn in before && conn in after && after == before[conn := after[conn]] && after[conn].registered.None?
    ensures RegisteredIds(after) >= RegisteredIds(before) - if before[conn].registered.Some? then {before[conn].registered.value.id} else {}
  {
    forall id | id in RegisteredIds(before) && (before[conn].registered.Some? ==> id != before[conn].registered.value.id)
      ensures id in RegisteredIds(after)
    {
      var c :| c in before && before[c].registered.Some? && before[c].registered.value.id == id;
      assert c in after && after[c].registered == before[c].registered;
    }
  }

  lemma ClientGone(log: seq<Event>, st: Store, known: map<Id, Client>, id: Id)
    requires Justified(log, st, known)
    ensures Justified(log, ReplyRouteSpec.RemoveClient(st, id), known)
  {
    hide Justified;
    RemovalJustified(log, st, ReplyRouteSpec.RemoveClient(st, id), known);
  }
}
