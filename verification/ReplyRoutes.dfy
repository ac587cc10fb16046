/** The reply-route registry: three nested indices kept in step, and the handles prepared on it. */
module ReplyRoutes {
  import opened Options
  import opened ReplyRouteSpec
  import opened ReplyRouteProtocol

  type RouteIndex = map<Id, map<Id, Route>>

  function Lookup(routes: RouteIndex, k: Key): Option<Route> {
    if k.session in routes && k.inspect in routes[k.session] then Some(routes[k.session][k.inspect]) else None
  }

  function StoreRoute(routes: RouteIndex, k: Key, r: Route): RouteIndex {
    routes[k.session := (if k.session in routes then routes[k.session] else map[])[k.inspect := r]]
  }

  /** Delete a route and, when it was the last one, its session. */
  function Forget(routes: RouteIndex, k: Key): RouteIndex
    requires k.session in routes
  {
    var left := routes[k.session] - {k.inspect};
    if left == map[] then routes - {k.session} else routes[k.session := left]
  }

  function ClientBucket(byClient: map<Id, seq<Key>>, c: Id): seq<Key> {
    if c in byClient then byClient[c] else []
  }

  function IdeBucket(byIde: map<Id, set<Key>>, i: Id): set<Key> {
    if i in byIde then byIde[i] else {}
  }

  function Without(keys: seq<Key>, k: Key): (r: seq<Key>)
    ensures k !in keys ==> r == keys
  {
    if keys == [] then []
    else Without(keys[..|keys| - 1], k) + (if keys[|keys| - 1] == k then [] else [keys[|keys| - 1]])
  }

  /** Move a key to the end of its client's bucket. */
  function TouchBucket(byClient: map<Id, seq<Key>>, c: Id, k: Key): map<Id, seq<Key>> {
    byClient[c := Without(ClientBucket(byClient, c), k) + [k]]
  }

  function DropFromClient(byClient: map<Id, seq<Key>>, c: Id, k: Key): map<Id, seq<Key>> {
    if c !in byClient then byClient
    else if Without(byClient[c], k) == [] then byClient - {c} else byClient[c := Without(byClient[c], k)]
  }

  function AddToIde(byIde: map<Id, set<Key>>, i: Id, k: Key): map<Id, set<Key>> {
    byIde[i := IdeBucket(byIde, i) + {k}]
  }

  function DropFromIde(byIde: map<Id, set<Key>>, i: Id, k: Key): map<Id, set<Key>> {
    if i !in byIde then byIde
    else if byIde[i] - {k} == {} then byIde - {i} else byIde[i := byIde[i] - {k}]
  }

  ghost predicate RoutesAgree(routes: RouteIndex, t: seq<Entry>) {
    && (forall k :: Lookup(routes, k) == Find(t, k))
    && (forall s :: s in routes ==> routes[s] != map[])
  }

  ghost predicate ClientsAgree(byClient: map<Id, seq<Key>>, t: seq<Entry>) {
    && (forall c :: ClientBucket(byClient, c) == ClientKeys(t, c))
    && (forall c :: c in byClient ==> byClient[c] != [])
  }

  ghost predicate IdesAgree(byIde: map<Id, set<Key>>, t: seq<Entry>) {
    && (forall i :: IdeBucket(byIde, i) == IdeKeys(t, i))
    && (forall i :: i in byIde ==> byIde[i] != {})
  }

  // ---- How the indices follow the table ----

  lemma WithoutSnoc(keys: seq<Key>, last: Key, k: Key)
    ensures Without(keys + [last], k) == Without(keys, k) + if last == k then [] else [last]
  {
    assert (keys + [last])[..|keys|] == keys;
  }

  lemma {:induction false} BucketAfterDrop(t: seq<Entry>, k: Key, c: Id)
    ensures ClientKeys(Drop(t, k), c) == Without(ClientKeys(t, c), k)
  {
    if t != [] {
      var init, last := t[..|t| - 1], t[|t| - 1];
      assert t == init + [last];
      DropSnoc(init, last, k);
      ClientKeysAppend(init, last, c);
      BucketAfterDrop(init, k, c);
      ClientKeysAppend(Drop(init, k), last, c);
      WithoutSnoc(ClientKeys(init, c), last.key, k);
      hide Drop, ClientKeys, Without;
      assert ClientKeys(init, c) + [] == ClientKeys(init, c);
      assert ClientKeys(Drop(init, k), c) + [] == ClientKeys(Drop(init, k), c);
    }
  }

  lemma FindAfterPut(t: seq<Entry>, k: Key, r: Route, stamp: nat, x: Key)
    requires Ordered(t)
    ensures Find(Put(t, k, r, stamp), x) == if x == k then Some(r) else Find(t, x)
  {
    DropSnoc(Drop(t, k), Entry(k, r, stamp), k);
    assert Put(t, k, r, stamp)[..|Drop(t, k)|] == Drop(t, k);
    if x != k { FindOther(t, k, x); }
  }

  lemma {:induction false} FindOther(t: seq<Entry>, k: Key, x: Key)
    requires x != k
    ensures Find(Drop(t, k), x) == Find(t, x)
  {
    if t != [] {
      var init, last := t[..|t| - 1], t[|t| - 1];
      assert t == init + [last];
      FindOther(init, k, x);
      DropSnoc(init, last, k);
      DropSnoc(init, last, x);
      DropSnoc(Drop(init, k), last, x);
    }
  }

  lemma FindDropped(t: seq<Entry>, k: Key)
    ensures Find(Drop(t, k), k).None?
  {
  }

  lemma IdeKeysAfterDrop(t: seq<Entry>, k: Key, i: Id)
    ensures IdeKeys(Drop(t, k), i) == IdeKeys(t, i) - {k}
  {
  }

  lemma IdeKeysAfterPut(t: seq<Entry>, k: Key, r: Route, stamp: nat, i: Id)
    ensures IdeKeys(Put(t, k, r, stamp), i) == (IdeKeys(t, i) - {k}) + if r.ide == Some(i) then {k} else {}
  {
    var e := Entry(k, r, stamp);
    assert Put(t, k, r, stamp) == Drop(t, k) + [e];
    assert forall x :: x in Put(t, k, r, stamp) <==> x in Drop(t, k) || x == e;
    assert e in Put(t, k, r, stamp);
  }

  /** A key is in a client's or an IDE's share exactly when its route says so. */
  lemma {:induction false} KeysByRoute(t: seq<Entry>, k: Key)
    requires Ordered(t)
    ensures forall c :: k in ClientKeys(t, c) <==> Find(t, k).Some? && Find(t, k).value.origin == c
    ensures forall i :: k in IdeKeys(t, i) <==> Find(t, k).Some? && Find(t, k).value.ide == Some(i)
  {
    FindEntry(t, k);
    forall c ensures k in ClientKeys(t, c) <==> Find(t, k).Some? && Find(t, k).value.origin == c {
      KeyInBucket(t, k, c);
    }
  }

  lemma {:induction false} KeyInBucket(t: seq<Entry>, k: Key, c: Id)
    requires Ordered(t)
    ensures k in ClientKeys(t, c) <==> Find(t, k).Some? && Find(t, k).value.origin == c
  {
    if t != [] {
      var init, last := t[..|t| - 1], t[|t| - 1];
      assert t == init + [last];
      KeyInBucket(init, k, c);
      DropSnoc(init, last, k);
      ClientKeysAppend(init, last, c);
      if last.key == k { FindEntry(init, k); }
    }
  }

  // ---- Writing a route back and touching it, in the indices ----

  lemma TouchRoutes(routes: RouteIndex, t: seq<Entry>, k: Key, r: Route, stamp: nat)
    requires RoutesAgree(routes, t) && Ordered(t)
    ensures RoutesAgree(StoreRoute(routes, k, r), Put(t, k, r, stamp))
  {
    hide Find, Drop, Ordered, Put;
    forall x ensures Lookup(StoreRoute(routes, k, r), x) == Find(Put(t, k, r, stamp), x) {
      FindAfterPut(t, k, r, stamp, x);
      assert Lookup(routes, x) == Find(t, x);
    }
    assert k.inspect in StoreRoute(routes, k, r)[k.session];
  }

  lemma TouchClients(byClient: map<Id, seq<Key>>, t: seq<Entry>, k: Key, r: Route, stamp: nat)
    requires ClientsAgree(byClient, t) && Ordered(t)
    requires Find(t, k).Some? ==> Find(t, k).value.origin == r.origin
    ensures ClientsAgree(TouchBucket(byClient, r.origin, k), Put(t, k, r, stamp))
  {
    hide Find, Drop, Ordered, ClientKeys, Without;
    forall c ensures ClientBucket(TouchBucket(byClient, r.origin, k), c) == ClientKeys(Put(t, k, r, stamp), c) {
      BucketAfterDrop(t, k, c);
      ClientKeysAppend(Drop(t, k), Entry(k, r, stamp), c);
      KeyInBucket(t, k, c);
      assert ClientBucket(byClient, c) == ClientKeys(t, c);
      assert ClientKeys(t, c) + [] == ClientKeys(t, c);
    }
  }

  lemma TouchIdes(byIde: map<Id, set<Key>>, t: seq<Entry>, k: Key, r: Route, stamp: nat)
    requires IdesAgree(byIde, t) && Ordered(t)
    requires Find(t, k).Some? && Find(t, k).value.ide.Some? ==> Find(t, k).value.ide == r.ide
    ensures IdesAgree(if r.ide.Some? then AddToIde(byIde, r.ide.value, k) else byIde, Put(t, k, r, stamp))
  {
    hide Find, Drop, Ordered, ClientKeys, Put, IdeKeys;
    var byIde' := if r.ide.Some? then AddToIde(byIde, r.ide.value, k) else byIde;
    forall i ensures IdeBucket(byIde', i) == IdeKeys(Put(t, k, r, stamp), i) {
      IdeKeysAfterPut(t, k, r, stamp, i);
      KeysByRoute(t, k);
      assert IdeBucket(byIde, i) == IdeKeys(t, i);
    }
  }

  /** An owner that is already recorded need not be recorded again. */
  lemma OwnerRecorded(byIde: map<Id, set<Key>>, t: seq<Entry>, k: Key)
    requires IdesAgree(byIde, t) && Ordered(t) && Find(t, k).Some? && Find(t, k).value.ide.Some?
    ensures AddToIde(byIde, Find(t, k).value.ide.value, k) == byIde
  {
    hide Find, Ordered, ClientKeys, IdeKeys;
    KeysByRoute(t, k);
    var i := Find(t, k).value.ide.value;
    assert IdeBucket(byIde, i) == IdeKeys(t, i);
    assert IdeBucket(byIde, i) + {k} == IdeBucket(byIde, i);
  }

  // ---- Removing a stored route, in the indices ----

  lemma RemoveRoutes(routes: RouteIndex, t: seq<Entry>, k: Key)
    requires RoutesAgree(routes, t) && Find(t, k).Some?
    ensures k.session in routes && RoutesAgree(Forget(routes, k), Drop(t, k))
  {
    hide Find, Drop;
    assert Lookup(routes, k) == Find(t, k);
    forall x ensures Lookup(Forget(routes, k), x) == Find(Drop(t, k), x) {
      assert Lookup(routes, x) == Find(t, x);
      if x == k { FindDropped(t, k); } else { FindOther(t, k, x); }
      var left := routes[k.session] - {k.inspect};
      if x.session == k.session && x.inspect in routes[k.session] && x != k { assert x.inspect in left; }
    }
  }

  lemma RemoveFromClients(byClient: map<Id, seq<Key>>, t: seq<Entry>, k: Key)
    requires ClientsAgree(byClient, t) && Ordered(t) && Find(t, k).Some?
    ensures ClientsAgree(DropFromClient(byClient, Find(t, k).value.origin, k), Drop(t, k))
  {
    hide Find, Drop, Ordered, ClientKeys, Without;
    forall c ensures ClientBucket(DropFromClient(byClient, Find(t, k).value.origin, k), c) == ClientKeys(Drop(t, k), c) {
      assert ClientBucket(byClient, c) == ClientKeys(t, c);
      BucketAfterDrop(t, k, c);
      KeyInBucket(t, k, c);
    }
  }

  lemma RemoveFromIdes(byIde: map<Id, set<Key>>, t: seq<Entry>, k: Key)
    requires IdesAgree(byIde, t) && Ordered(t) && Find(t, k).Some?
    ensures IdesAgree(if Find(t, k).value.ide.Some? then DropFromIde(byIde, Find(t, k).value.ide.value, k) else byIde, Drop(t, k))
  {
    hide Find, Drop, Ordered, ClientKeys, IdeKeys;
    var byIde' := if Find(t, k).value.ide.Some? then DropFromIde(byIde, Find(t, k).value.ide.value, k) else byIde;
    forall i ensures IdeBucket(byIde', i) == IdeKeys(Drop(t, k), i) {
      assert IdeBucket(byIde, i) == IdeKeys(t, i);
      IdeKeysAfterDrop(t, k, i);
      KeysByRoute(t, k);
    }
  }

  /** A client's removal takes out exactly the routes it originates or owns. */
  function DropKeys(t: seq<Entry>, ks: set<Key>): (r: seq<Entry>)
    ensures forall e :: e in r <==> e in t && e.key !in ks
  {
    if t == [] then []
    else DropKeys(t[..|t| - 1], ks) + (if t[|t| - 1].key in ks then [] else [t[|t| - 1]])
  }

  lemma DropKeysSnoc(t: seq<Entry>, e: Entry, ks: set<Key>)
    ensures DropKeys(t + [e], ks) == DropKeys(t, ks) + if e.key in ks then [] else [e]
  {
    assert (t + [e])[..|t|] == t;
  }

  lemma {:induction false} DropNoKeys(t: seq<Entry>)
    ensures DropKeys(t, {}) == t
  {
    if t != [] {
      assert t == t[..|t| - 1] + [t[|t| - 1]];
      DropKeysSnoc(t[..|t| - 1], t[|t| - 1], {});
      hide DropKeys;
      DropNoKeys(t[..|t| - 1]);
    }
  }

  lemma DropFromNothing(ks: set<Key>, k: Key)
    ensures DropKeys([], ks) == [] && Drop([], k) == []
  {
  }

  lemma {:induction false} DropKeysOneMore(t: seq<Entry>, ks: set<Key>, k: Key)
    ensures Drop(DropKeys(t, ks), k) == DropKeys(t, ks + {k})
  {
    hide Drop, DropKeys, Find;
    if t == [] {
      DropFromNothing(ks, k);
      DropFromNothing(ks + {k}, k);
    } else {
      var init, last := t[..|t| - 1], t[|t| - 1];
      assert t == init + [last];
      DropKeysOneMore(init, ks, k);
      DropKeysSnoc(init, last, ks);
      DropKeysSnoc(init, last, ks + {k});
      DropSnoc(DropKeys(init, ks), last, k);
      assert DropKeys(init, ks) + [] == DropKeys(init, ks);
      assert DropKeys(init, ks + {k}) + [] == DropKeys(init, ks + {k});
    }
  }

  /** Removing a client's own and owned keys one by one is removing the client. */
  lemma {:induction false} DropKeysIsDropClient(t: seq<Entry>, c: Id, ks: set<Key>)
    requires forall e :: e in t ==> (e.key in ks <==> e.route.origin == c || e.route.ide == Some(c))
    ensures DropKeys(t, ks) == DropClient(t, c)
  {
    if t != [] {
      assert t[|t| - 1] in t;
      DropKeysIsDropClient(t[..|t| - 1], c, ks);
    }
  }

  /** Writing back a stored route and touching it keeps every index a view of the touched table. */
  lemma WriteKeepsIndices(st: Store, cap: nat, routes: RouteIndex, byClient: map<Id, seq<Key>>,
                          byIde: map<Id, set<Key>>, k: Key, r: Route)
    requires Kept(st, cap) && RoutesAgree(routes, st.table) && ClientsAgree(byClient, st.table)
    requires IdesAgree(byIde, st.table)
    requires Find(st.table, k).Some? && Rewrites(Find(st.table, k).value, r)
    requires Find(st.table, k).value.ide.Some? ==> r.ide == Find(st.table, k).value.ide
    ensures var before := Find(st.table, k).value; var after := Put(st.table, k, r, st.revision);
      && Kept(Touch(st, k, r), cap)
      && RoutesAgree(StoreRoute(routes, k, r), after)
      && ClientsAgree(TouchBucket(byClient, r.origin, k), after)
      && IdesAgree(if before.ide.None? && r.ide.Some? then AddToIde(byIde, r.ide.value, k) else byIde, after)
  {
    hide Find, Drop, Ordered, ClientKeys, IdeKeys, RoutesAgree, ClientsAgree, IdesAgree, Put;
    TouchKeeps(st, cap, k, r);
    TouchRoutes(routes, st.table, k, r, st.revision);
    TouchClients(byClient, st.table, k, r, st.revision);
    TouchIdes(byIde, st.table, k, r, st.revision);
    if Find(st.table, k).value.ide.Some? { OwnerRecorded(byIde, st.table, k); }
  }

  /** The keys a client's removal goes through are those of its own and its owned routes, all of them stored. */
  lemma ClientRemovalKeys(byClient: map<Id, seq<Key>>, byIde: map<Id, set<Key>>, st: Store, cap: nat, c: Id)
    requires Kept(st, cap) && ClientsAgree(byClient, st.table) && IdesAgree(byIde, st.table)
    ensures var all := (set x | x in ClientBucket(byClient, c)) + IdeBucket(byIde, c);
      DropKeys(st.table, all) == DropClient(st.table, c) && forall k :: k in all ==> Find(st.table, k).Some?
  {
    hide Find, Drop, Ordered, ClientKeys, IdeKeys, DropKeys, DropClient;
    var t := st.table;
    var all := (set x | x in ClientBucket(byClient, c)) + IdeBucket(byIde, c);
    assert ClientBucket(byClient, c) == ClientKeys(t, c) && IdeBucket(byIde, c) == IdeKeys(t, c);
    forall e | e in t ensures e.key in all <==> e.route.origin == c || e.route.ide == Some(c) {
      KeysByRoute(t, e.key);
      FindEntry(t, e.key);
    }
    forall k | k in all ensures Find(t, k).Some? { KeysByRoute(t, k); }
    DropKeysIsDropClient(t, c, all);
  }

  /**
   * In every valid registry a key is in a client's or an IDE's bucket exactly when the stored route names that origin or
   * owner, no bucket is empty, and no client exceeds its cap.
   */
  lemma IndicesAgree(routes: RouteIndex, byClient: map<Id, seq<Key>>, byIde: map<Id, set<Key>>, st: Store, cap: nat,
                     k: Key, c: Id)
    requires Kept(st, cap) && RoutesAgree(routes, st.table) && ClientsAgree(byClient, st.table)
    requires IdesAgree(byIde, st.table)
    ensures c in byClient ==> 0 < |byClient[c]| <= cap
    ensures c in byIde ==> byIde[c] != {}
    ensures k.session in routes ==> routes[k.session] != map[]
    ensures c in byClient && k in byClient[c] <==> Lookup(routes, k).Some? && Lookup(routes, k).value.origin == c
    ensures c in byIde && k in byIde[c] <==> Lookup(routes, k).Some? && Lookup(routes, k).value.ide == Some(c)
  {
    hide Find, ClientKeys, IdeKeys, Ordered;
    assert Lookup(routes, k) == Find(st.table, k);
    assert ClientBucket(byClient, c) == ClientKeys(st.table, c) && IdeBucket(byIde, c) == IdeKeys(st.table, c);
    assert |ClientKeys(st.table, c)| <= cap;
    KeysByRoute(st.table, k);
  }

  lemma KeptLater(st: Store, cap: nat)
    requires Kept(st, cap)
    ensures Kept(st.(revision := st.revision + 1), cap)
  {
  }

  lemma DropShortens(st: Store, cap: nat, k: Key)
    requires Kept(st, cap) && Find(st.table, k).Some?
    ensures |Drop(st.table, k)| == |st.table| - 1
  {
    ClientKeysDrop(st.table, k, "");
  }

  lemma RestShrinks(all: set<Key>, keys: set<Key>, k: Key)
    requires keys <= all && k in keys
    ensures all - keys + {k} == all - (keys - {k})
  {
  }

  function RuleRefs(sources: seq<RuleSource>): set<string> {
    set i | 0 <= i < |sources| :: sources[i].ruleRef
  }

  lemma NoSources(expected: set<string>)
    ensures ProperSources([], expected) && RuleRefs([]) == {} && AuthorityIds([]) == {}
  {
  }

  /** A batch stays proper with one more source exactly when that one is expected, named and new; nothing mends it later. */
  lemma OneMoreSource(sources: seq<RuleSource>, i: nat, expected: set<string>)
    requires i < |sources| && ProperSources(sources[..i], expected)
    ensures ProperSources(sources[..i + 1], expected) <==>
      && sources[i].ruleRef in expected && sources[i].ruleRef !in RuleRefs(sources[..i])
      && sources[i].openAuthorityId != "" && sources[i].openAuthorityId !in AuthorityIds(sources[..i])
    ensures ProperSources(sources, expected) ==> ProperSources(sources[..i + 1], expected)
    ensures RuleRefs(sources[..i + 1]) == RuleRefs(sources[..i]) + {sources[i].ruleRef}
    ensures AuthorityIds(sources[..i + 1]) == AuthorityIds(sources[..i]) + {sources[i].openAuthorityId}
  {
    hide ProperSources, RuleRefs, AuthorityIds;
    assert sources[..i + 1] == sources[..i] + [sources[i]];
    SourceSnoc(sources[..i], sources[i], expected);
    RefsSnoc(sources[..i], sources[i]);
    if ProperSources(sources, expected) { ProperPrefix(sources, i + 1, expected); }
  }

  lemma SourceSnoc(now: seq<RuleSource>, s: RuleSource, expected: set<string>)
    requires ProperSources(now, expected)
    ensures ProperSources(now + [s], expected) <==>
      s.ruleRef in expected && s.ruleRef !in RuleRefs(now) && s.openAuthorityId != "" && s.openAuthorityId !in AuthorityIds(now)
  {
    var next := now + [s];
    assert next[|now|] == s && forall j :: 0 <= j < |now| ==> next[j] == now[j];
  }

  lemma RefsSnoc(now: seq<RuleSource>, s: RuleSource)
    ensures RuleRefs(now + [s]) == RuleRefs(now) + {s.ruleRef}
    ensures AuthorityIds(now + [s]) == AuthorityIds(now) + {s.openAuthorityId}
  {
    var next := now + [s];
    assert next[|now|] == s && forall j :: 0 <= j < |now| ==> next[j] == now[j];
  }

  lemma ProperPrefix(sources: seq<RuleSource>, n: nat, expected: set<string>)
    requires n <= |sources| && ProperSources(sources, expected)
    ensures ProperSources(sources[..n], expected)
  {
  }

  // ---- The registry ----

  class ReplyRouteRegistry {
    const maxRoutesPerClient: nat
    var routes: RouteIndex
    var routesByClient: map<Id, seq<Key>>
    var routesByIde: map<Id, set<Key>>
    var revision: nat
    // The number of route objects made so far; the next one's identity.
    var serials: nat
    ghost var table: seq<Entry>

    ghost function View(): Store
      reads this
    {
      Store(table, revision, serials)
    }

    ghost predicate Valid()
      reads this
    {
      && maxRoutesPerClient > 0
      && Kept(View(), maxRoutesPerClient)
      && RoutesAgree(routes, table) && ClientsAgree(routesByClient, table) && IdesAgree(routesByIde, table)
    }

    constructor (maxRoutesPerClient: nat)
      requires maxRoutesPerClient > 0
      ensures Valid() && View() == Start().st && this.maxRoutesPerClient == maxRoutesPerClient
    {
      this.maxRoutesPerClient := maxRoutesPerClient;
      routes, routesByClient, routesByIde := map[], map[], map[];
      revision, serials, table := 0, 0, [];
    }

    /** A stored route, found through the nested index. */
    method StoredRoute(k: Key) returns (r: Option<Route>)
      requires Valid()
      ensures r == Find(table, k)
    {
      r := Lookup(routes, k);
    }

    /** `removeByKey`: every index forgets the route; the inconsistency error of the source cannot be reached. */
    method RemoveByKey(k: Key)
      requires Valid() && Find(table, k).Some?
      modifies this
      ensures Valid() && View() == RemoveKey(old(View()), k)
    {
      hide Find, Drop, Ordered, ClientKeys, IdeKeys, RoutesAgree, ClientsAgree, IdesAgree, Forget, DropFromClient, DropFromIde;
      RemoveRoutes(routes, table, k);
      RemoveFromClients(routesByClient, table, k);
      RemoveFromIdes(routesByIde, table, k);
      RemoveKeyKeeps(View(), maxRoutesPerClient, k);
      var found := StoredRoute(k);
      var route := found.value;
      routes := Forget(routes, k);
      routesByClient := DropFromClient(routesByClient, route.origin, k);
      if route.ide.Some? {
        routesByIde := DropFromIde(routesByIde, route.ide.value, k);
      }
      revision := revision + 1;
      table := Drop(table, k);
    }

    /** Write a stored route back, record a new owner, and touch it. */
    method WriteAndTouch(k: Key, r: Route)
      requires Valid() && Find(table, k).Some?
      requires Rewrites(Find(table, k).value, r)
      requires (Find(table, k).value.ide.Some? ==> r.ide == Find(table, k).value.ide)
      modifies this
      ensures Valid() && View() == Touch(old(View()), k, r)
    {
      hide Kept, Find, Put, RoutesAgree, ClientsAgree, IdesAgree, StoreRoute, TouchBucket, AddToIde;
      WriteKeepsIndices(View(), maxRoutesPerClient, routes, routesByClient, routesByIde, k, r);
      var before := StoredRoute(k);
      if before.value.ide.None? && r.ide.Some? {
        routesByIde := AddToIde(routesByIde, r.ide.value, k);
      }
      routes := StoreRoute(routes, k, r);
      routesByClient := TouchBucket(routesByClient, r.origin, k);
      table := Put(table, k, r, revision);
      revision := revision + 1;
    }

    /** Store a new route and put it at the end of its client's bucket. */
    method AddRoute(k: Key, r: Route)
      requires Valid() && Find(table, k).None? && |ClientKeys(table, r.origin)| < maxRoutesPerClient
      requires r.serial == serials && RouteOk(r) && r.ide.None?
      modifies this
      ensures Valid() && View() == Touch(old(View()), k, r).(serials := old(serials) + 1)
    {
      hide Find, Drop, Ordered, ClientKeys, IdeKeys;
      TouchRoutes(routes, table, k, r, revision);
      TouchClients(routesByClient, table, k, r, revision);
      TouchIdes(routesByIde, table, k, r, revision);
      AddRouteKeeps(View(), maxRoutesPerClient, k, r.origin, r);
      routes := StoreRoute(routes, k, r);
      routesByClient := TouchBucket(routesByClient, r.origin, k);
      table := Put(table, k, r, revision);
      revision, serials := revision + 1, serials + 1;
    }

    method Register(k: Key, connectionId: Id, expectedRuleRefs: set<string>) returns (handle: Handle)
      requires Valid()
      ensures handle == ReplyRouteSpec.Register(View(), maxRoutesPerClient, k, connectionId, expectedRuleRefs)
      ensures HandleKept(View(), maxRoutesPerClient, handle)
    {
      hide Drop, Ordered, ClientKeys;
      var current := StoredRoute(k);
      if current.Some? {
        if current.value.origin != connectionId || current.value.expected != expectedRuleRefs { return Collision; }
        return Refresh(k, connectionId, current.value.serial, revision);
      }
      assert ClientBucket(routesByClient, connectionId) == ClientKeys(table, connectionId);
      var bucket := ClientBucket(routesByClient, connectionId);
      var evicted := if |bucket| >= maxRoutesPerClient then Some(bucket[0]) else None;
      return Create(k, connectionId, expectedRuleRefs, evicted, revision);
    }

    /** The source checks of a batch: known and unrepeated references, non-empty and unrepeated authority ids. */
    method CheckSources(sources: seq<RuleSource>, expected: set<string>) returns (ids: Option<set<string>>)
      ensures ids.Some? <==> ProperSources(sources, expected)
      ensures ids.Some? ==> ids.value == AuthorityIds(sources)
    {
      hide ProperSources, AuthorityIds, RuleRefs;
      var published: set<string>, proposed: set<string> := {}, {};
      NoSources(expected);
      for i := 0 to |sources|
        invariant ProperSources(sources[..i], expected)
        invariant published == RuleRefs(sources[..i]) && proposed == AuthorityIds(sources[..i])
      {
        var source := sources[i];
        OneMoreSource(sources, i, expected);
        if source.ruleRef !in expected || source.ruleRef in published
           || |source.openAuthorityId| == 0 || source.openAuthorityId in proposed {
          return None;
        }
        published := published + {source.ruleRef};
        proposed := proposed + {source.openAuthorityId};
      }
      assert sources[..|sources|] == sources;
      return Some(proposed);
    }

    method PrepareRulesSources(k: Key, ideConnectionId: Id, rulesGeneration: int, sources: seq<RuleSource>,
                               unresolvedRuleCount: int)
      returns (handle: Option<Handle>)
      requires Valid()
      ensures handle == PrepareRules(View(), k, ideConnectionId, rulesGeneration, sources, unresolvedRuleCount)
      ensures handle.Some? ==> HandleKept(View(), maxRoutesPerClient, handle.value)
    {
      hide Find, Drop, Ordered, ClientKeys, ProperSources, AuthorityIds;
      var found := StoredRoute(k);
      if found.None? { return None; }
      var route := found.value;
      if (route.ide.Some? && route.ide != Some(ideConnectionId)) || unresolvedRuleCount < 0
         || (if route.rules.None? then rulesGeneration != 1 else rulesGeneration <= route.rules.value) {
        return None;
      }
      var ids := CheckSources(sources, route.expected);
      if ids.None? || |sources| + unresolvedRuleCount != |route.expected| { return None; }
      return Some(Rules(k, route.serial, ideConnectionId, rulesGeneration, route.rules, ids.value, revision));
    }

    /** `resolve`: the origin of a route, which counts as a use. */
    method ResolveOrigin(k: Key) returns (origin: Option<Id>)
      requires Valid()
      modifies this
      ensures Valid() && (View(), origin) == Resolve(old(View()), k)
    {
      var route := StoredRoute(k);
      if route.None? { return None; }
      FoundRouteOk(View(), maxRoutesPerClient, k);
      WriteAndTouch(k, route.value);
      return Some(route.value.origin);
    }

    method ClaimAuthority(k: Key, ideConnectionId: Id, resolutionGeneration: int, resolutionClaimed: bool)
      returns (r: Option<Route>)
      requires Valid()
      modifies this
      ensures Valid()
      ensures (View(), r) == ReplyRouteSpec.ClaimAuthority(old(View()), k, ideConnectionId, resolutionGeneration, resolutionClaimed)
    {
      var found := StoredRoute(k);
      if found.None? { return None; }
      var route := found.value;
      if route.ide.Some? && route.ide != Some(ideConnectionId) { return None; }
      if route.resolution.Some? && resolutionGeneration < route.resolution.value { return None; }
      FoundRouteOk(View(), maxRoutesPerClient, k);
      var next := route;
      if next.ide.None? { next := next.(ide := Some(ideConnectionId)); }
      if next.resolution != Some(resolutionGeneration) { next := next.(resolution := Some(resolutionGeneration)); }
      next := next.(matchIds := {}, claimed := resolutionClaimed);
      WriteAndTouch(k, next);
      return Some(next);
    }

    method ClaimResolution(k: Key, ideConnectionId: Id, resolutionGeneration: int) returns (r: Option<Route>)
      requires Valid()
      modifies this
      ensures Valid()
      ensures (View(), r) == ReplyRouteSpec.ClaimAuthority(old(View()), k, ideConnectionId, resolutionGeneration, true)
    {
      r := ClaimAuthority(k, ideConnectionId, resolutionGeneration, true);
    }

    method ClaimSourceInvalidation(k: Key, ideConnectionId: Id, resolutionGeneration: int) returns (r: Option<Route>)
      requires Valid()
      modifies this
      ensures Valid()
      ensures (View(), r) == ReplyRouteSpec.ClaimSourceInvalidation(old(View()), k, ideConnectionId, resolutionGeneration)
    {
      var found := StoredRoute(k);
      if found.None? { return None; }
      if found.value.ide.None? {
        FoundRouteOk(View(), maxRoutesPerClient, k);
        var next := found.value.(matchIds := {});
        WriteAndTouch(k, next);
        return Some(next);
      }
      r := ClaimAuthority(k, ideConnectionId, resolutionGeneration, false);
    }

    method ReplaceMatchIds(k: Key, ideConnectionId: Id, resolutionGeneration: int,
                           matchIds: set<string>) returns (r: Option<Route>)
      requires Valid()
      modifies this
      ensures Valid()
      ensures (View(), r) == ReplyRouteSpec.ReplaceMatchIds(old(View()), k, ideConnectionId, resolutionGeneration, matchIds)
    {
      var found := StoredRoute(k);
      if found.None? || found.value.ide != Some(ideConnectionId) || found.value.resolution != Some(resolutionGeneration)
         || !found.value.claimed {
        return None;
      }
      FoundRouteOk(View(), maxRoutesPerClient, k);
      var next := found.value.(matchIds := matchIds);
      WriteAndTouch(k, next);
      return Some(next);
    }

    method AuthorizeRulesOpen(k: Key, originConnectionId: Id, rulesGeneration: int, openAuthorityId: string)
      returns (r: Option<Route>)
      requires Valid()
      modifies this
      ensures Valid()
      ensures (View(), r)
           == ReplyRouteSpec.AuthorizeRulesOpen(old(View()), k, originConnectionId, rulesGeneration, openAuthorityId)
    {
      var found := StoredRoute(k);
      if found.None? || found.value.origin != originConnectionId || found.value.ide.None?
         || found.value.rules != Some(rulesGeneration) || openAuthorityId !in found.value.openIds {
        return None;
      }
      FoundRouteOk(View(), maxRoutesPerClient, k);
      WriteAndTouch(k, found.value);
      return found;
    }

    method Remove(k: Key) returns (removed: bool)
      requires Valid()
      modifies this
      ensures Valid() && View() == RemoveKey(old(View()), k)
      ensures removed <==> Find(old(table), k).Some?
    {
      var found := StoredRoute(k);
      if found.None? { return false; }
      RemoveByKey(k);
      return true;
    }

    /** `removeClient`: the connection's own routes and the routes it owns, in any order. */
    method RemoveClient(connectionId: Id)
      requires Valid()
      modifies this
      ensures Valid() && View() == ReplyRouteSpec.RemoveClient(old(View()), connectionId)
    {
      hide Kept, Find, Drop, DropKeys, DropClient, RoutesAgree, ClientsAgree, IdesAgree;
      KeptLater(View(), maxRoutesPerClient);
      ClientRemovalKeys(routesByClient, routesByIde, View(), maxRoutesPerClient, connectionId);
      DropNoKeys(table);
      var own := ClientBucket(routesByClient, connectionId);
      var keys := (set x | x in own) + IdeBucket(routesByIde, connectionId);
      ghost var all, before := keys, table;
      revision := revision + 1;
      assert all - keys == {};
      while keys != {}
        invariant Valid() && keys <= all
        invariant table == DropKeys(before, all - keys)
        invariant forall k :: k in keys ==> Find(table, k).Some?
        invariant serials == old(serials) && revision == old(revision) + 1 + |before| - |table| && |table| <= |before|
        decreases keys
      {
        var k :| k in keys;
        DropKeysOneMore(before, all - keys, k);
        forall x | x in keys - {k} ensures Find(Drop(table, k), x).Some? { FindOther(table, k, x); }
        DropShortens(View(), maxRoutesPerClient, k);
        RemoveByKey(k);
        RestShrinks(all, keys, k);
        keys := keys - {k};
      }
      assert all - keys == all;
    }

    method Clear()
      requires Valid()
      modifies this
      ensures Valid() && View() == ReplyRouteSpec.Clear(old(View()))
    {
      routes, routesByClient, routesByIde := map[], map[], map[];
      revision := revision + 1;
      table := [];
    }

    /** The three ways a commit applies, with the checks the source repeats. */
    method Apply(h: Handle) returns (ok: bool)
      requires Valid() && HandleKept(View(), maxRoutesPerClient, h)
      modifies this
      ensures Valid() && (View(), ok) == CommitHandle(old(View()), h)
    {
      hide Find, Drop, Ordered, ClientKeys;
      if h.Collision? || revision != h.revision { return false; }
      var found := StoredRoute(h.key);
      match h {
      case Refresh(k, c, serial, _) =>
        if found.None? || found.value.serial != serial { return false; }
        FoundRouteOk(View(), maxRoutesPerClient, k);
        WriteAndTouch(k, found.value);
      case Create(k, c, expected, evicted, _) =>
        if found.Some? { return false; }
        MakeRoomKeeps(View(), maxRoutesPerClient, k, c, expected);
        var route := Route(serials, c, expected, None, None, false, {}, None, {});
        if evicted.Some? {
          EvictedIsStored(View(), maxRoutesPerClient, h);
          RemoveByKey(evicted.value);
        }
        AddRoute(k, route);
      case Rules(k, serial, ide, generation, before, ids, _) =>
        if found.None? || found.value.serial != serial || found.value.rules != before
           || (found.value.ide.Some? && found.value.ide != Some(ide)) {
          return false;
        }
        FoundRouteOk(View(), maxRoutesPerClient, k);
        WriteAndTouch(k, found.value.(ide := Some(ide), rules := Some(generation), openIds := ids));
      }
      return true;
    }
  }

  lemma EvictedIsStored(st: Store, cap: nat, h: Handle)
    requires Kept(st, cap) && HandleKept(st, cap, h) && h.Create? && h.revision == st.revision && h.evicted.Some?
    ensures Find(st.table, h.evicted.value).Some?
  {
    FirstKeyFound(st.table, h.origin);
  }

  /** A registration or a rules-sources preparation: it settles once, and only then may change the registry. */
  class PreparedHandle {
    const registry: ReplyRouteRegistry
    const handle: Handle
    var settled: bool

    constructor (registry: ReplyRouteRegistry, handle: Handle)
      ensures this.registry == registry && this.handle == handle && !settled
    {
      this.registry, this.handle := registry, handle;
      settled := false;
    }

    ghost predicate Valid()
      reads this, registry
    {
      registry.Valid() && HandleKept(registry.View(), registry.maxRoutesPerClient, handle)
    }

    /** Commits exactly when unsettled and nothing was mutated since the handle was prepared. */
    method Commit() returns (ok: bool)
      requires Valid()
      modifies this, registry
      ensures Valid() && (settled || handle.Collision?)
      ensures ok <==> !old(settled) && !handle.Collision? && handle.revision == old(registry.revision)
      ensures registry.View() == if ok then CommitHandle(old(registry.View()), handle).0 else old(registry.View())
      ensures Evolves(old(registry.View()), registry.View())
    {
      hide Kept, Find, Drop, ClientKeys;
      CommitEffect(registry.View(), registry.maxRoutesPerClient, handle);
      EvolvesSame(registry.View());
      if settled { return false; }
      settled := true;
      label applied:
      ok := registry.Apply(handle);
      HandleStays(old@applied(registry.View()), registry.View(), registry.maxRoutesPerClient, handle);
    }

    method Rollback()
      requires Valid()
      modifies this
      ensures Valid() && settled && registry.View() == old(registry.View())
    {
      settled := true;
    }
  }
}
