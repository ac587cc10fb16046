/** Registered connections: who they are and how many pings they have missed. */
module Clients {
  import opened Options
  import opened ReplyRouteSpec

  datatype Role = Browser | Simulator | Ide

  datatype Capability =
    | InspectCapability
    | ResolutionCapability
    | RulesSourcesCapability
    | SourcePresentationCapability
    | PresentationSettingsCapability
    | SourceNavigationCapability
    | AutoRefreshCapability

  datatype Client = Client(id: Id, session: Id, role: Role, sourceId: string, capabilities: set<Capability>, missedPongs: nat)

  /** The same client whatever its counter. */
  function Identity(c: Client): Client {
    c.(missedPongs := 0)
  }

  ghost predicate SameClients(a: map<Id, Client>, b: map<Id, Client>) {
    a.Keys == b.Keys && forall id :: id in a ==> Identity(a[id]) == Identity(b[id])
  }

  function InSession(clients: map<Id, Client>, session: Id, role: Role): set<Id> {
    set id | id in clients && clients[id].session == session && clients[id].role == role
  }

  lemma OneLess(matching: set<Id>, left: set<Id>, id: Id)
    requires id in left
    ensures |matching - (left - {id})| == |matching - left| + if id in matching then 1 else 0
  {
    assert matching - (left - {id}) == matching - left + if id in matching then {id} else {};
  }

  class ClientRegistry {
    var clients: map<Id, Client>

    ghost predicate Valid()
      reads this
    {
      forall id :: id in clients ==> clients[id].id == id
    }

    constructor ()
      ensures Valid() && clients == map[]
    {
      clients := map[];
    }

    method Add(id: Id, session: Id, role: Role, sourceId: string, capabilities: set<Capability>) returns (entry: Client)
      requires Valid() && id !in clients
      modifies this
      ensures Valid() && entry == Client(id, session, role, sourceId, capabilities, 0)
      ensures clients == old(clients)[id := entry]
    {
      entry := Client(id, session, role, sourceId, capabilities, 0);
      clients := clients[id := entry];
    }

    method Remove(id: Id) returns (removed: bool)
      requires Valid()
      modifies this
      ensures Valid() && clients == old(clients) - {id} && (removed <==> id in old(clients))
    {
      removed := id in clients;
      clients := clients - {id};
    }

    function Get(id: Id): Option<Client>
      reads this
    {
      if id in clients then Some(clients[id]) else None
    }

    /** Counts one by one the clients of a session that play a role. */
    method CountBySessionAndRole(session: Id, role: Role) returns (count: nat)
      ensures count == |InSession(clients, session, role)|
    {
      count := 0;
      var left := clients.Keys;
      ghost var matching := InSession(clients, session, role);
      while left != {}
        invariant left <= clients.Keys && count == |matching - left|
        decreases left
      {
        var id :| id in left;
        OneLess(matching, left, id);
        if clients[id].session == session && clients[id].role == role { count := count + 1; }
        left := left - {id};
      }
      assert matching - {} == matching;
    }

    method MarkAlive(id: Id)
      requires Valid()
      modifies this
      ensures Valid() && SameClients(old(clients), clients)
      ensures clients == if id in old(clients) then old(clients)[id := old(clients)[id].(missedPongs := 0)] else old(clients)
    {
      if id in clients { clients := clients[id := clients[id].(missedPongs := 0)]; }
    }

    method MarkPingSent(id: Id)
      requires Valid()
      modifies this
      ensures Valid() && SameClients(old(clients), clients)
      ensures clients == if id in old(clients)
        then old(clients)[id := old(clients)[id].(missedPongs := old(clients)[id].missedPongs + 1)] else old(clients)
    {
      if id in clients { clients := clients[id := clients[id].(missedPongs := clients[id].missedPongs + 1)]; }
    }

    method Clear()
      modifies this
      ensures Valid() && clients == map[]
    {
      clients := map[];
    }
  }
}
