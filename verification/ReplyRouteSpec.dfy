/**
 * Reply routes as one table in order of use, and the two-phase protocol over it. The registry keeps three nested
 * indices instead; `ReplyRoutes` proves that they are views of this table.
 */
module ReplyRouteSpec {
  import opened Options

  type Id = string

  datatype Key = Key(session: Id, inspect: Id)

  /** A stored route. `serial` stands for the identity of the route object. */
  datatype Route = Route(
    serial: nat,
    origin: Id,
    expected: set<string>,
    ide: Option<Id>,
    resolution: Option<int>,
    claimed: bool,
    matchIds: set<string>,
    rules: Option<int>,
    openIds: set<string>
  )

  /** `stamp` is the revision at which the route was last created or touched. */
  datatype Entry = Entry(key: Key, route: Route, stamp: nat)

  datatype Store = Store(table: seq<Entry>, revision: nat, serials: nat)

  // ---- The table ----

  function Find(t: seq<Entry>, k: Key): (r: Option<Route>)
    ensures r.Some? <==> exists i :: 0 <= i < |t| && t[i].key == k
  {
    if t == [] then None else if t[|t| - 1].key == k then Some(t[|t| - 1].route) else Find(t[..|t| - 1], k)
  }

  function Drop(t: seq<Entry>, k: Key): (r: seq<Entry>)
    ensures forall e :: e in r <==> e in t && e.key != k
  {
    if t == [] then []
    else Drop(t[..|t| - 1], k) + (if t[|t| - 1].key == k then [] else [t[|t| - 1]])
  }

  /** Write a route and make it the most recently used one. */
  function Put(t: seq<Entry>, k: Key, r: Route, stamp: nat): seq<Entry> {
    Drop(t, k) + [Entry(k, r, stamp)]
  }

  /** The keys of a client, least recently used first. */
  function ClientKeys(t: seq<Entry>, c: Id): (r: seq<Key>)
    ensures |r| <= |t|
  {
    if t == [] then []
    else ClientKeys(t[..|t| - 1], c) + (if t[|t| - 1].route.origin == c then [t[|t| - 1].key] else [])
  }

  function IdeKeys(t: seq<Entry>, i: Id): set<Key> {
    set e | e in t && e.route.ide == Some(i) :: e.key
  }

  /** Remove every route a connection originated or owns. */
  function DropClient(t: seq<Entry>, c: Id): (r: seq<Entry>)
    ensures forall e :: e in r <==> e in t && e.route.origin != c && e.route.ide != Some(c)
  {
    if t == [] then []
    else
      var last := t[|t| - 1];
      DropClient(t[..|t| - 1], c) + (if last.route.origin == c || last.route.ide == Some(c) then [] else [last])
  }

  // ---- Operations ----

  function Mutated(st: Store, t: seq<Entry>): Store {
    st.(table := t, revision := st.revision + 1)
  }

  /** Write back a route and touch it: one mutation. */
  function Touch(st: Store, k: Key, r: Route): Store {
    Mutated(st, Put(st.table, k, r, st.revision))
  }

  datatype RuleSource = RuleSource(ruleRef: string, openAuthorityId: string)

  datatype Handle =
    | Collision
    | Refresh(key: Key, origin: Id, serial: nat, revision: nat)
    | Create(key: Key, origin: Id, expected: set<string>, evicted: Option<Key>, revision: nat)
    | Rules(key: Key, serial: nat, ide: Id, generation: int, before: Option<int>, ids: set<string>, revision: nat)

  function Register(st: Store, cap: nat, k: Key, c: Id, refs: set<string>): Handle {
    match Find(st.table, k)
    case Some(r) =>
      if r.origin != c || r.expected != refs then Collision else Refresh(k, c, r.serial, st.revision)
    case None =>
      var keys := ClientKeys(st.table, c);
      Create(k, c, refs, if |keys| >= cap && keys != [] then Some(keys[0]) else None, st.revision)
  }

  /** Every rule reference is expected and named once, every authority id is non-empty and used once. */
  ghost predicate ProperSources(sources: seq<RuleSource>, expected: set<string>) {
    && (forall i :: 0 <= i < |sources| ==> sources[i].ruleRef in expected && sources[i].openAuthorityId != "")
    && (forall i, j :: 0 <= i < j < |sources| ==>
          sources[i].ruleRef != sources[j].ruleRef && sources[i].openAuthorityId != sources[j].openAuthorityId)
  }

  function AuthorityIds(sources: seq<RuleSource>): set<string> {
    set i | 0 <= i < |sources| :: sources[i].openAuthorityId
  }

  ghost function PrepareRules(st: Store, k: Key, ide: Id, generation: int, sources: seq<RuleSource>,
                              unresolved: int): Option<Handle> {
    match Find(st.table, k)
    case None => None
    case Some(r) =>
      if (r.ide.Some? && r.ide != Some(ide)) || unresolved < 0
         || (if r.rules.None? then generation != 1 else generation <= r.rules.value)
         || !ProperSources(sources, r.expected) || |sources| + unresolved != |r.expected|
      then None
      else Some(Rules(k, r.serial, ide, generation, r.rules, AuthorityIds(sources), st.revision))
  }

  /** What `removeByKey` leaves; the source throws for a key that is not stored. */
  function RemoveKey(st: Store, k: Key): Store {
    if Find(st.table, k).None? then st else Mutated(st, Drop(st.table, k))
  }

  function NewRoute(st: Store, origin: Id, expected: set<string>): Route {
    Route(st.serials, origin, expected, None, None, false, {}, None, {})
  }

  /** The commit of an unsettled handle, with every check the source makes. */
  function CommitHandle(st: Store, h: Handle): (Store, bool) {
    match h
    case Collision => (st, false)
    case Refresh(k, c, serial, revision) =>
      var found := Find(st.table, k);
      if st.revision != revision || found.None? || found.value.serial != serial then (st, false)
      else (Touch(st, k, found.value), true)
    case Create(k, c, expected, evicted, revision) =>
      if st.revision != revision || Find(st.table, k).Some? then (st, false)
      else
        var roomy := if evicted.Some? then RemoveKey(st, evicted.value) else st;
        (Touch(roomy, k, NewRoute(st, c, expected)).(serials := st.serials + 1), true)
    case Rules(k, serial, ide, generation, before, ids, revision) =>
      var found := Find(st.table, k);
      if st.revision != revision || found.None? || found.value.serial != serial || found.value.rules != before
         || (found.value.ide.Some? && found.value.ide != Some(ide)) then (st, false)
      else (Touch(st, k, found.value.(ide := Some(ide), rules := Some(generation), openIds := ids)), true)
  }

  function ClaimAuthority(st: Store, k: Key, ide: Id, generation: int, claimed: bool): (Store, Option<Route>) {
    match Find(st.table, k)
    case None => (st, None)
    case Some(r) =>
      if (r.ide.Some? && r.ide != Some(ide)) || (r.resolution.Some? && generation < r.resolution.value) then (st, None)
      else
        var next := r.(ide := Some(ide), resolution := Some(generation), matchIds := {}, claimed := claimed);
        (Touch(st, k, next), Some(next))
  }

  function ClaimSourceInvalidation(st: Store, k: Key, ide: Id, generation: int): (Store, Option<Route>) {
    match Find(st.table, k)
    case None => (st, None)
    case Some(r) =>
      if r.ide.None? then
        var next := r.(matchIds := {});
        (Touch(st, k, next), Some(next))
      else ClaimAuthority(st, k, ide, generation, false)
  }

  function ReplaceMatchIds(st: Store, k: Key, ide: Id, generation: int, ids: set<string>): (Store, Option<Route>) {
    match Find(st.table, k)
    case None => (st, None)
    case Some(r) =>
      if r.ide != Some(ide) || r.resolution != Some(generation) || !r.claimed then (st, None)
      else
        var next := r.(matchIds := ids);
        (Touch(st, k, next), Some(next))
  }

  function AuthorizeRulesOpen(st: Store, k: Key, origin: Id, generation: int, id: string): (Store, Option<Route>) {
    match Find(st.table, k)
    case None => (st, None)
    case Some(r) =>
      if r.origin != origin || r.ide.None? || r.rules != Some(generation) || id !in r.openIds then (st, None)
      else (Touch(st, k, r), Some(r))
  }

  function Resolve(st: Store, k: Key): (Store, Option<Id>) {
    match Find(st.table, k)
    case None => (st, None)
    case Some(r) => (Touch(st, k, r), Some(r.origin))
  }

  /** One mutation up front and one for every route removed. */
  function RemoveClient(st: Store, c: Id): Store {
    var left := DropClient(st.table, c);
    st.(table := left, revision := st.revision + 1 + if |left| <= |st.table| then |st.table| - |left| else 0)
  }

  function Clear(st: Store): Store {
    Mutated(st, [])
  }
}
