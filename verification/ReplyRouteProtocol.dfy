/** What every run of the reply-route protocol keeps, and when its two-phase handles commit. */
module ReplyRouteProtocol {
  import opened Options
  import opened ReplyRouteSpec

  // ---- The table in order ----

  function Last(t: seq<Entry>): Entry
    requires t != []
  {
    t[|t| - 1]
  }

  function Init(t: seq<Entry>): seq<Entry>
    requires t != []
  {
    t[..|t| - 1]
  }

  /** Keys and route identities are used once, and stamps rise along the table. */
  ghost predicate Ordered(t: seq<Entry>) {
    t != [] ==>
      && Ordered(Init(t))
      && forall e :: e in Init(t) ==>
           e.key != Last(t).key && e.route.serial != Last(t).route.serial && e.stamp < Last(t).stamp
  }

  /** Match ids stand only on the owner's current claim; open ids only on a committed batch. */
  ghost predicate RouteOk(r: Route) {
    && (r.matchIds != {} ==> r.ide.Some? && r.resolution.Some? && r.claimed)
    && (r.resolution.Some? ==> r.ide.Some?)
    && (r.rules.None? ==> r.openIds == {})
    && (r.rules.Some? ==> r.rules.value >= 1 && r.ide.Some?)
  }

  ghost predicate Kept(st: Store, cap: nat) {
    && Ordered(st.table)
    && (forall e :: e in st.table ==> e.route.serial < st.serials && e.stamp < st.revision && RouteOk(e.route))
    && (forall c :: |ClientKeys(st.table, c)| <= cap)
  }

  lemma {:induction false} FindEntry(t: seq<Entry>, k: Key)
    ensures Find(t, k).Some? ==> exists e :: e in t && e.key == k && e.route == Find(t, k).value
    ensures Ordered(t) ==> forall e :: e in t && e.key == k ==> Find(t, k) == Some(e.route)
  {
    if t != [] {
      FindEntry(Init(t), k);
      assert t == Init(t) + [Last(t)];
      if Last(t).key == k { assert Last(t) in t; }
    }
  }

  lemma {:induction false} DropOrdered(t: seq<Entry>, k: Key)
    requires Ordered(t)
    ensures Ordered(Drop(t, k))
  {
    if t != [] {
      DropOrdered(Init(t), k);
      var d := Drop(t, k);
      if Last(t).key == k { assert d == Drop(Init(t), k); } else { assert Init(d) == Drop(Init(t), k); }
    }
  }

  lemma {:induction false} DropClientOrdered(t: seq<Entry>, c: Id)
    requires Ordered(t)
    ensures Ordered(DropClient(t, c)) && |DropClient(t, c)| <= |t|
  {
    if t != [] {
      DropClientOrdered(Init(t), c);
      var d := DropClient(t, c);
      if Last(t) in d { assert d != [] && Init(d) == DropClient(Init(t), c); } else { assert d == DropClient(Init(t), c); }
    }
  }

  lemma AppendOrdered(t: seq<Entry>, e: Entry)
    requires Ordered(t)
    requires forall x :: x in t ==> x.key != e.key && x.route.serial != e.route.serial && x.stamp < e.stamp
    ensures Ordered(t + [e])
  {
    assert Init(t + [e]) == t;
  }

  // ---- The share of each client ----

  lemma ClientKeysAppend(t: seq<Entry>, e: Entry, c: Id)
    ensures ClientKeys(t + [e], c) == ClientKeys(t, c) + if e.route.origin == c then [e.key] else []
  {
    assert (t + [e])[..|t|] == t;
  }

  lemma {:induction false} DropNothing(t: seq<Entry>, k: Key)
    requires Find(t, k).None?
    ensures Drop(t, k) == t
  {
    if t != [] {
      assert t == Init(t) + [Last(t)];
      DropSnoc(Init(t), Last(t), k);
      hide Drop, Find;
      DropNothing(Init(t), k);
    }
  }

  lemma DropSnoc(t: seq<Entry>, e: Entry, k: Key)
    ensures Drop(t + [e], k) == if e.key == k then Drop(t, k) else Drop(t, k) + [e]
    ensures Find(t + [e], k) == if e.key == k then Some(e.route) else Find(t, k)
  {
    assert (t + [e])[..|t|] == t;
  }

  lemma {:induction false} ClientKeysDrop(t: seq<Entry>, k: Key, c: Id)
    requires Ordered(t)
    ensures |ClientKeys(Drop(t, k), c)|
      == |ClientKeys(t, c)| - if Find(t, k).Some? && Find(t, k).value.origin == c then 1 else 0
    ensures |Drop(t, k)| == |t| - if Find(t, k).Some? then 1 else 0
  {
    if t == [] {
      DropNothing(t, k);
    } else {
      hide Drop, ClientKeys;
      var init, last := Init(t), Last(t);
      assert t == init + [last];
      DropSnoc(init, last, k);
      ClientKeysAppend(init, last, c);
      if last.key == k {
        DropNothing(init, k);
      } else {
        ClientKeysDrop(init, k, c);
        ClientKeysAppend(Drop(init, k), last, c);
      }
    }
  }

  lemma {:induction false} ClientKeysDropClient(t: seq<Entry>, gone: Id, c: Id)
    ensures |ClientKeys(DropClient(t, gone), c)| <= |ClientKeys(t, c)|
  {
    if t != [] {
      ClientKeysDropClient(Init(t), gone, c);
      if Last(t).route.origin == gone || Last(t).route.ide == Some(gone) {
        assert DropClient(t, gone) == DropClient(Init(t), gone);
      } else {
        ClientKeysAppend(DropClient(Init(t), gone), Last(t), c);
      }
    }
  }

  /** The first key of a client names its entry with the smallest stamp. */
  lemma {:induction false} FirstKeyIsLeastRecent(t: seq<Entry>, c: Id)
    requires Ordered(t) && ClientKeys(t, c) != []
    ensures exists e :: e in t && e.key == ClientKeys(t, c)[0] && e.route.origin == c &&
              forall x :: x in t && x.route.origin == c && x != e ==> e.stamp < x.stamp
  {
    assert t == Init(t) + [Last(t)];
    if ClientKeys(Init(t), c) != [] {
      FirstKeyIsLeastRecent(Init(t), c);
      var e :| e in Init(t) && e.key == ClientKeys(Init(t), c)[0] && e.route.origin == c &&
               forall x :: x in Init(t) && x.route.origin == c && x != e ==> e.stamp < x.stamp;
      assert e in t;
    } else {
      NoKeysNoEntries(Init(t), c);
      assert Last(t) in t;
    }
  }

  lemma {:induction false} NoKeysNoEntries(t: seq<Entry>, c: Id)
    ensures ClientKeys(t, c) == [] <==> forall e :: e in t ==> e.route.origin != c
  {
    if t != [] {
      NoKeysNoEntries(Init(t), c);
      assert t == Init(t) + [Last(t)] && Last(t) in t;
    }
  }

  // ---- One operation ----

  /** A route may be written back by a touch. */
  ghost predicate Rewrites(earlier: Route, later: Route) {
    later.serial == earlier.serial && later.origin == earlier.origin && later.expected == earlier.expected && RouteOk(later)
  }

  lemma TouchKeeps(st: Store, cap: nat, k: Key, r: Route)
    requires Kept(st, cap) && Find(st.table, k).Some? && Rewrites(Find(st.table, k).value, r)
    ensures Kept(Touch(st, k, r), cap)
  {
    hide Drop, Find, Ordered, ClientKeys, RouteOk;
    var dropped := Drop(st.table, k);
    DropOrdered(st.table, k);
    FoundRouteOk(st, cap, k);
    forall x | x in dropped ensures x.route.serial != r.serial {
      SerialsAgree(st.table, k, x);
    }
    AppendOrdered(dropped, Entry(k, r, st.revision));
    forall c ensures |ClientKeys(Touch(st, k, r).table, c)| <= cap {
      ClientKeysDrop(st.table, k, c);
      ClientKeysAppend(dropped, Entry(k, r, st.revision), c);
      assert |ClientKeys(st.table, c)| <= cap;
    }
  }

  lemma {:induction false} SerialsAgree(t: seq<Entry>, k: Key, x: Entry)
    requires Ordered(t) && x in t && x.key != k && Find(t, k).Some?
    ensures x.route.serial != Find(t, k).value.serial
  {
    FindEntry(t, k);
    var e :| e in t && e.key == k && e.route == Find(t, k).value;
    DifferentSerials(t, x, e);
  }

  lemma {:induction false} DifferentSerials(t: seq<Entry>, x: Entry, e: Entry)
    requires Ordered(t) && x in t && e in t && x != e
    ensures x.route.serial != e.route.serial && x.key != e.key
  {
    assert t == Init(t) + [Last(t)];
    if x in Init(t) && e in Init(t) { DifferentSerials(Init(t), x, e); }
  }

  lemma RemoveKeyKeeps(st: Store, cap: nat, k: Key)
    requires Kept(st, cap)
    ensures Kept(RemoveKey(st, k), cap)
  {
    DropOrdered(st.table, k);
    forall c ensures |ClientKeys(Drop(st.table, k), c)| <= cap {
      ClientKeysDrop(st.table, k, c);
      assert |ClientKeys(st.table, c)| <= cap;
    }
  }

  lemma RemoveClientKeeps(st: Store, cap: nat, c: Id)
    requires Kept(st, cap)
    ensures Kept(RemoveClient(st, c), cap)
  {
    DropClientOrdered(st.table, c);
    forall x ensures |ClientKeys(DropClient(st.table, c), x)| <= cap {
      ClientKeysDropClient(st.table, c, x);
      assert |ClientKeys(st.table, x)| <= cap;
    }
  }

  /** The table a create appends to: full clients lose their least recently used route. */
  function MakeRoom(st: Store, h: Handle): Store
    requires h.Create?
  {
    if h.evicted.Some? then RemoveKey(st, h.evicted.value) else st
  }

  lemma FirstKeyFound(t: seq<Entry>, c: Id)
    requires Ordered(t) && ClientKeys(t, c) != []
    ensures var found := Find(t, ClientKeys(t, c)[0]); found.Some? && found.value.origin == c
  {
    FirstKeyIsLeastRecent(t, c);
    FindEntry(t, ClientKeys(t, c)[0]);
  }

  lemma FindAfterDrop(t: seq<Entry>, dropped: Key, k: Key)
    requires Find(t, k).None?
    ensures Find(Drop(t, dropped), k).None?
  {
  }

  lemma MakeRoomKeeps(st: Store, cap: nat, k: Key, c: Id, refs: set<string>)
    requires Kept(st, cap) && cap > 0 && Register(st, cap, k, c, refs).Create?
    ensures var roomy := MakeRoom(st, Register(st, cap, k, c, refs));
      Kept(roomy, cap) && |ClientKeys(roomy.table, c)| < cap && Find(roomy.table, k).None? && roomy.serials == st.serials
  {
    hide Ordered, Drop, Find, ClientKeys;
    var h := Register(st, cap, k, c, refs);
    var keys := ClientKeys(st.table, c);
    assert |keys| <= cap;
    if h.evicted.Some? {
      FirstKeyFound(st.table, c);
      RemoveKeyKeeps(st, cap, keys[0]);
      ClientKeysDrop(st.table, keys[0], c);
      FindAfterDrop(st.table, keys[0], k);
    }
  }

  lemma AddRouteKeeps(st: Store, cap: nat, k: Key, c: Id, r: Route)
    requires Kept(st, cap) && Find(st.table, k).None? && |ClientKeys(st.table, c)| < cap
    requires r.origin == c && r.serial == st.serials && RouteOk(r)
    ensures Kept(Touch(st, k, r).(serials := st.serials + 1), cap)
  {
    hide Drop, Find, ClientKeys, Ordered, RouteOk;
    var e := Entry(k, r, st.revision);
    DropNothing(st.table, k);
    NoSuchKey(st.table, k);
    AppendOrdered(st.table, e);
    forall x ensures |ClientKeys(st.table + [e], x)| <= cap {
      ClientKeysAppend(st.table, e, x);
      assert |ClientKeys(st.table, x)| <= cap;
    }
  }

  lemma NoSuchKey(t: seq<Entry>, k: Key)
    requires Find(t, k).None?
    ensures forall e :: e in t ==> e.key != k
  {
  }

  /** A create that was prepared at this revision commits and keeps the cap. */
  lemma CreateKeeps(st: Store, cap: nat, k: Key, c: Id, refs: set<string>)
    requires Kept(st, cap) && cap > 0 && Register(st, cap, k, c, refs).Create?
    ensures var (after, ok) := CommitHandle(st, Register(st, cap, k, c, refs)); ok && Kept(after, cap)
  {
    MakeRoomKeeps(st, cap, k, c, refs);
    AddRouteKeeps(MakeRoom(st, Register(st, cap, k, c, refs)), cap, k, c, NewRoute(st, c, refs));
  }

  // ---- The protocol ----

  /** A registry and the handles prepared on it, each with its settled flag. */
  datatype Machine = Machine(st: Store, handles: seq<(Handle, bool)>)

  datatype Op =
    | ORegister(key: Key, client: Id, refs: set<string>)
    | OPrepareRules(key: Key, ide: Id, generation: int, sources: seq<RuleSource>, unresolved: int)
    | OCommit(handle: nat)
    | ORollback(handle: nat)
    | OResolve(key: Key)
    | OClaimResolution(key: Key, ide: Id, generation: int)
    | OClaimSourceInvalidation(key: Key, ide: Id, generation: int)
    | OReplaceMatchIds(key: Key, ide: Id, generation: int, ids: set<string>)
    | OAuthorizeRulesOpen(key: Key, client: Id, generation: int, id: string)
    | ORemove(key: Key)
    | ORemoveClient(client: Id)
    | OClear

  predicate Commits(m: Machine, i: nat) {
    i < |m.handles| && !m.handles[i].1 && CommitHandle(m.st, m.handles[i].0).1
  }

  function Settle(m: Machine, i: nat): Machine {
    if i < |m.handles| then m.(handles := m.handles[i := (m.handles[i].0, true)]) else m
  }

  ghost function Step(m: Machine, cap: nat, op: Op): Machine {
    match op
    case ORegister(k, c, refs) => m.(handles := m.handles + [(Register(m.st, cap, k, c, refs), false)])
    case OPrepareRules(k, ide, g, sources, unresolved) =>
      var h := PrepareRules(m.st, k, ide, g, sources, unresolved);
      if h.None? then m else m.(handles := m.handles + [(h.value, false)])
    case OCommit(i) =>
      Settle(if i < |m.handles| && !m.handles[i].1 then m.(st := CommitHandle(m.st, m.handles[i].0).0) else m, i)
    case ORollback(i) => Settle(m, i)
    case OResolve(k) => m.(st := Resolve(m.st, k).0)
    case OClaimResolution(k, ide, g) => m.(st := ClaimAuthority(m.st, k, ide, g, true).0)
    case OClaimSourceInvalidation(k, ide, g) => m.(st := ClaimSourceInvalidation(m.st, k, ide, g).0)
    case OReplaceMatchIds(k, ide, g, ids) => m.(st := ReplaceMatchIds(m.st, k, ide, g, ids).0)
    case OAuthorizeRulesOpen(k, c, g, id) => m.(st := AuthorizeRulesOpen(m.st, k, c, g, id).0)
    case ORemove(k) => m.(st := RemoveKey(m.st, k))
    case ORemoveClient(c) => m.(st := RemoveClient(m.st, c))
    case OClear => m.(st := Clear(m.st))
  }

  ghost function Run(m: Machine, cap: nat, ops: seq<Op>): Machine {
    if ops == [] then m else Step(Run(m, cap, ops[..|ops| - 1]), cap, ops[|ops| - 1])
  }

  /** A handle that nothing overtook would be prepared again just as it is. */
  ghost predicate UpToDate(st: Store, cap: nat, h: Handle) {
    match h
    case Collision => true
    case Refresh(k, c, serial, _) => Find(st.table, k).Some? && Find(st.table, k).value.serial == serial
    case Create(k, c, expected, _, _) => h == Register(st, cap, k, c, expected)
    case Rules(k, serial, ide, g, before, ids, _) =>
      && Find(st.table, k).Some? && Find(st.table, k).value.serial == serial && Find(st.table, k).value.rules == before
      && (Find(st.table, k).value.ide.Some? ==> Find(st.table, k).value.ide == Some(ide))
      && (if before.None? then g == 1 else g > before.value)
  }

  ghost predicate HandleKept(st: Store, cap: nat, h: Handle) {
    h.Collision? || (h.revision <= st.revision && (h.revision == st.revision ==> UpToDate(st, cap, h)))
  }

  ghost predicate MachineKept(m: Machine, cap: nat) {
    Kept(m.st, cap) && forall i :: 0 <= i < |m.handles| ==> HandleKept(m.st, cap, m.handles[i].0)
  }

  /** Along one route's life: its owner stays, its generations never fall, and open ids change only with a new batch. */
  ghost predicate Advances(r: Route, s: Route) {
    && s.serial == r.serial && s.origin == r.origin && s.expected == r.expected
    && (r.ide.Some? ==> s.ide == r.ide)
    && (r.resolution.Some? ==> s.resolution.Some? && r.resolution.value <= s.resolution.value)
    && (r.rules.Some? ==> s.rules.Some? && r.rules.value <= s.rules.value)
    && (s.rules == r.rules ==> s.openIds == r.openIds)
  }

  ghost predicate Successor(t: seq<Entry>, e: Entry) {
    exists x :: x in t && x.key == e.key && Advances(x.route, e.route)
  }

  /** Every route afterwards is an advanced earlier one or a new one; a change raises the revision. */
  ghost predicate Evolves(before: Store, after: Store) {
    && before.serials <= after.serials && before.revision <= after.revision
    && (before.revision == after.revision ==> before == after)
    && forall e :: e in after.table ==> Successor(before.table, e) || e.route.serial >= before.serials
  }

  lemma EvolvesSame(st: Store)
    ensures Evolves(st, st)
  {
    forall e | e in st.table ensures Successor(st.table, e) {
      assert Advances(e.route, e.route);
    }
  }

  lemma TouchEvolves(st: Store, k: Key, r: Route)
    requires Find(st.table, k).Some? && Advances(Find(st.table, k).value, r)
    ensures Evolves(st, Touch(st, k, r))
  {
    FindEntry(st.table, k);
    EvolvesSame(st);
    forall e | e in Touch(st, k, r).table ensures Successor(st.table, e) {
      assert e in Drop(st.table, k) || e == Entry(k, r, st.revision);
    }
  }

  lemma RemovalEvolves(st: Store, after: Store)
    requires (forall e :: e in after.table ==> e in st.table) && after.serials == st.serials
    requires st.revision < after.revision || st == after
    ensures Evolves(st, after)
  {
    EvolvesSame(st);
  }

  lemma CreateEvolves(st: Store, cap: nat, k: Key, c: Id, refs: set<string>)
    requires Register(st, cap, k, c, refs).Create?
    ensures Evolves(st, CommitHandle(st, Register(st, cap, k, c, refs)).0)
  {
    var h := Register(st, cap, k, c, refs);
    var after := CommitHandle(st, h).0;
    EvolvesSame(st);
    forall e | e in after.table ensures Successor(st.table, e) || e.route.serial >= st.serials {
      var roomy := MakeRoom(st, h);
      assert e in Drop(roomy.table, k) || e == Entry(k, NewRoute(st, c, refs), roomy.revision);
      assert e in Drop(roomy.table, k) ==> e in st.table;
    }
  }

  /** An up-to-date handle commits; any other leaves the registry as it is. */
  lemma CommitEffect(st: Store, cap: nat, h: Handle)
    requires Kept(st, cap) && cap > 0 && HandleKept(st, cap, h)
    ensures var (after, ok) := CommitHandle(st, h);
      && (ok <==> !h.Collision? && h.revision == st.revision)
      && (ok ==> st.revision < after.revision)
      && Kept(after, cap) && Evolves(st, after)
  {
    hide Drop, Find, ClientKeys, Ordered, Kept, Evolves, CommitHandle;
    EvolvesSame(st);
    if h.Collision? || h.revision != st.revision {
      Overtaken(st, h);
    } else if h.Create? {
      CreateKeeps(st, cap, h.key, h.origin, h.expected);
      CreateEvolves(st, cap, h.key, h.origin, h.expected);
      CreateRaises(st, cap, h.key, h.origin, h.expected);
    } else {
      RewriteCommits(st, cap, h);
    }
  }

  lemma Overtaken(st: Store, h: Handle)
    requires h.Collision? || h.revision != st.revision
    ensures CommitHandle(st, h) == (st, false)
  {
  }

  lemma CreateRaises(st: Store, cap: nat, k: Key, c: Id, refs: set<string>)
    requires Register(st, cap, k, c, refs).Create?
    ensures var (after, ok) := CommitHandle(st, Register(st, cap, k, c, refs)); ok ==> st.revision < after.revision
  {
    hide Find, Drop, ClientKeys;
  }

  /** A refresh and a batch of rules rewrite their route. */
  lemma RewriteCommits(st: Store, cap: nat, h: Handle)
    requires (h.Refresh? || h.Rules?) && Kept(st, cap) && cap > 0 && HandleKept(st, cap, h) && h.revision == st.revision
    ensures var (after, ok) := CommitHandle(st, h);
      ok && st.revision < after.revision && Kept(after, cap) && Evolves(st, after)
  {
    hide Drop, Find, ClientKeys, Ordered, Kept, Evolves;
    var found := Find(st.table, h.key).value;
    FoundRouteOk(st, cap, h.key);
    var next := if h.Refresh? then found else found.(ide := Some(h.ide), rules := Some(h.generation), openIds := h.ids);
    assert Rewrites(found, next) && Advances(found, next);
    TouchKeeps(st, cap, h.key, next);
    TouchEvolves(st, h.key, next);
  }

  lemma FoundRouteOk(st: Store, cap: nat, k: Key)
    requires Kept(st, cap) && Find(st.table, k).Some?
    ensures RouteOk(Find(st.table, k).value) && Find(st.table, k).value.serial < st.serials
  {
    FindEntry(st.table, k);
  }

  lemma RewriteEffect(st: Store, cap: nat, k: Key, next: Route)
    requires Kept(st, cap) && Find(st.table, k).Some?
    requires RouteOk(Find(st.table, k).value) ==> Rewrites(Find(st.table, k).value, next)
    requires Advances(Find(st.table, k).value, next)
    ensures Kept(Touch(st, k, next), cap) && Evolves(st, Touch(st, k, next))
  {
    FoundRouteOk(st, cap, k);
    TouchKeeps(st, cap, k, next);
    TouchEvolves(st, k, next);
  }

  lemma ClaimEffect(st: Store, cap: nat, k: Key, ide: Id, g: int, claimed: bool)
    requires Kept(st, cap)
    ensures var after := ClaimAuthority(st, k, ide, g, claimed).0; Kept(after, cap) && Evolves(st, after)
  {
    hide Kept, Evolves, Drop, Find;
    EvolvesSame(st);
    if ClaimAuthority(st, k, ide, g, claimed).1.Some? {
      RewriteEffect(st, cap, k, ClaimAuthority(st, k, ide, g, claimed).1.value);
    }
  }

  lemma RemoveKeyEffect(st: Store, cap: nat, k: Key)
    requires Kept(st, cap)
    ensures Kept(RemoveKey(st, k), cap) && Evolves(st, RemoveKey(st, k))
  {
    RemoveKeyKeeps(st, cap, k);
    RemovalEvolves(st, RemoveKey(st, k));
  }

  lemma RemoveClientEffect(st: Store, cap: nat, c: Id)
    requires Kept(st, cap)
    ensures Kept(RemoveClient(st, c), cap) && Evolves(st, RemoveClient(st, c))
  {
    hide Kept;
    RemoveClientKeeps(st, cap, c);
    RemovalEvolves(st, RemoveClient(st, c));
  }

  lemma ClearEffect(st: Store, cap: nat)
    requires Kept(st, cap)
    ensures Kept(Clear(st), cap) && Evolves(st, Clear(st))
  {
    RemovalEvolves(st, Clear(st));
  }

  /** One step of the protocol keeps the registry's invariant and only evolves its routes. */
  lemma StepStore(m: Machine, cap: nat, op: Op)
    requires MachineKept(m, cap) && cap > 0
    ensures Kept(Step(m, cap, op).st, cap) && Evolves(m.st, Step(m, cap, op).st)
  {
    hide Kept, Evolves, Drop, ClientKeys, Ordered, DropClient, CommitHandle, PrepareRules, Register;
    EvolvesSame(m.st);
    match op
    case ORegister(_, _, _) =>
    case OPrepareRules(_, _, _, _, _) =>
    case ORollback(_) =>
    case OCommit(i) =>
      if i < |m.handles| && !m.handles[i].1 { CommitEffect(m.st, cap, m.handles[i].0); }
    case OResolve(k) =>
      if Find(m.st.table, k).Some? { RewriteEffect(m.st, cap, k, Find(m.st.table, k).value); }
    case OClaimResolution(k, ide, g) => ClaimEffect(m.st, cap, k, ide, g, true);
    case OClaimSourceInvalidation(k, ide, g) =>
      ClaimEffect(m.st, cap, k, ide, g, false);
      if Find(m.st.table, k).Some? { RewriteEffect(m.st, cap, k, Find(m.st.table, k).value.(matchIds := {})); }
    case OReplaceMatchIds(k, ide, g, ids) =>
      if ReplaceMatchIds(m.st, k, ide, g, ids).1.Some? {
        RewriteEffect(m.st, cap, k, Find(m.st.table, k).value.(matchIds := ids));
      }
    case OAuthorizeRulesOpen(k, c, g, id) =>
      if Find(m.st.table, k).Some? { RewriteEffect(m.st, cap, k, Find(m.st.table, k).value); }
    case ORemove(k) => RemoveKeyEffect(m.st, cap, k);
    case ORemoveClient(c) => RemoveClientEffect(m.st, cap, c);
    case OClear => ClearEffect(m.st, cap);
  }

  /** A handle stays good while nothing is mutated, whatever happens otherwise. */
  lemma HandleStays(before: Store, after: Store, cap: nat, h: Handle)
    requires HandleKept(before, cap, h) && Evolves(before, after)
    ensures HandleKept(after, cap, h)
  {
  }

  lemma PreparedUpToDate(st: Store, cap: nat)
    ensures forall k, c, refs :: HandleKept(st, cap, Register(st, cap, k, c, refs))
    ensures forall k, ide, g, sources, n :: PrepareRules(st, k, ide, g, sources, n).Some? ==>
              HandleKept(st, cap, PrepareRules(st, k, ide, g, sources, n).value)
  {
  }

  lemma StepKeeps(m: Machine, cap: nat, op: Op)
    requires MachineKept(m, cap) && cap > 0
    ensures MachineKept(Step(m, cap, op), cap)
  {
    hide Kept, Evolves, HandleKept, CommitHandle, PrepareRules, Register;
    StepStore(m, cap, op);
    PreparedUpToDate(m.st, cap);
    var after := Step(m, cap, op);
    forall i | 0 <= i < |after.handles| ensures HandleKept(after.st, cap, after.handles[i].0) {
      if i < |m.handles| {
        assert after.handles[i].0 == m.handles[i].0;
        HandleStays(m.st, after.st, cap, m.handles[i].0);
      }
    }
  }

  // ---- Over whole runs ----

  lemma EvolvesTransitive(a: Store, b: Store, c: Store)
    requires Evolves(a, b) && Evolves(b, c)
    ensures Evolves(a, c)
  {
    forall e | e in c.table ensures Successor(a.table, e) || e.route.serial >= a.serials {
      if Successor(b.table, e) {
        var x :| x in b.table && x.key == e.key && Advances(x.route, e.route);
        if Successor(a.table, x) {
          var y :| y in a.table && y.key == x.key && Advances(y.route, x.route);
          assert Advances(y.route, e.route);
        }
      }
    }
  }

  /** Every run keeps the invariant, its handles, and the evolution of its routes. */
  lemma {:induction false} RunKeeps(m: Machine, cap: nat, ops: seq<Op>)
    requires MachineKept(m, cap) && cap > 0
    ensures var after := Run(m, cap, ops);
      && MachineKept(after, cap) && Evolves(m.st, after.st) && |after.handles| >= |m.handles|
      && forall i :: 0 <= i < |m.handles| ==>
           after.handles[i].0 == m.handles[i].0 && (m.handles[i].1 ==> after.handles[i].1)
  {
    hide Kept, Evolves, HandleKept, CommitHandle, PrepareRules, Register, MachineKept;
    EvolvesSame(m.st);
    if ops != [] {
      var mid := Run(m, cap, ops[..|ops| - 1]);
      RunKeeps(m, cap, ops[..|ops| - 1]);
      StepKeeps(mid, cap, ops[|ops| - 1]);
      StepStore(mid, cap, ops[|ops| - 1]);
      EvolvesTransitive(m.st, mid.st, Step(mid, cap, ops[|ops| - 1]).st);
    }
  }

  /** Where every run starts. */
  function Start(): Machine {
    Machine(Store([], 0, 0), [])
  }

  lemma StartKept(cap: nat)
    ensures MachineKept(Start(), cap)
  {
  }

  /**
   * In every reachable state a handle commits exactly when it is unsettled, is no collision, and nothing was mutated
   * since it was prepared: all other checks of the commit are implied. A handle that does not commit changes nothing.
   */
  lemma CommitsExactly(cap: nat, ops: seq<Op>, i: nat)
    requires cap > 0 && i < |Run(Start(), cap, ops).handles|
    ensures var m := Run(Start(), cap, ops); var (h, settled) := m.handles[i];
      && (Commits(m, i) <==> !settled && !h.Collision? && h.revision == m.st.revision)
      && (Commits(m, i) ==> Step(m, cap, OCommit(i)).st.revision > m.st.revision)
      && (!Commits(m, i) ==> Step(m, cap, OCommit(i)).st == m.st)
  {
    StartKept(cap);
    RunKeeps(Start(), cap, ops);
    var m := Run(Start(), cap, ops);
    CommitEffect(m.st, cap, m.handles[i].0);
  }

  /** Of the handles prepared at one revision, at most one ever commits. */
  lemma AtMostOneCommits(cap: nat, ops: seq<Op>, i: nat, later: seq<Op>, j: nat)
    requires cap > 0 && i < |Run(Start(), cap, ops).handles| && j < |Run(Start(), cap, ops).handles|
    requires var m := Run(Start(), cap, ops);
      && Commits(m, i) && !m.handles[j].0.Collision? && m.handles[j].0.revision == m.handles[i].0.revision
    ensures !Commits(Run(Step(Run(Start(), cap, ops), cap, OCommit(i)), cap, later), j)
  {
    hide Kept, HandleKept, CommitHandle, PrepareRules, Register;
    StartKept(cap);
    RunKeeps(Start(), cap, ops);
    CommitsExactly(cap, ops, i);
    var m := Run(Start(), cap, ops);
    var committed := Step(m, cap, OCommit(i));
    StepKeeps(m, cap, OCommit(i));
    RunKeeps(committed, cap, later);
    var end := Run(committed, cap, later);
    assert end.handles[j].0 == m.handles[j].0;
    assert HandleKept(end.st, cap, end.handles[j].0);
    CommitEffect(end.st, cap, end.handles[j].0);
  }

  /** Two entries with one serial are one route, before and after any run. */
  lemma RouteLife(m: Machine, cap: nat, ops: seq<Op>, e: Entry, f: Entry)
    requires MachineKept(m, cap) && cap > 0
    requires e in m.st.table && f in Run(m, cap, ops).st.table && f.route.serial == e.route.serial
    ensures f.key == e.key && Advances(e.route, f.route)
  {
    RunKeeps(m, cap, ops);
    var x :| x in m.st.table && x.key == f.key && Advances(x.route, f.route);
    if x != e { DifferentSerials(m.st.table, x, e); }
  }

  /** A route that is gone never comes back under its identity. */
  lemma GoneRoutesStayGone(m: Machine, cap: nat, ops: seq<Op>, serial: nat)
    requires MachineKept(m, cap) && cap > 0 && serial < m.st.serials
    requires forall e :: e in m.st.table ==> e.route.serial != serial
    ensures forall e :: e in Run(m, cap, ops).st.table ==> e.route.serial != serial
  {
    RunKeeps(m, cap, ops);
  }

  /** A prepared batch names one authority id per resolved rule: with the unresolved ones they are all the expected rules. */
  lemma PreparedBatchSize(st: Store, k: Key, ide: Id, g: int, sources: seq<RuleSource>, unresolved: int)
    requires PrepareRules(st, k, ide, g, sources, unresolved).Some?
    ensures var h := PrepareRules(st, k, ide, g, sources, unresolved).value;
      |h.ids| + unresolved == |Find(st.table, k).value.expected|
  {
    DistinctIds(sources);
  }

  lemma {:induction false} DistinctIds(sources: seq<RuleSource>)
    requires forall i, j :: 0 <= i < j < |sources| ==> sources[i].openAuthorityId != sources[j].openAuthorityId
    ensures |AuthorityIds(sources)| == |sources|
  {
    if sources != [] {
      var init, last := sources[..|sources| - 1], sources[|sources| - 1];
      DistinctIds(init);
      assert AuthorityIds(sources) == AuthorityIds(init) + {last.openAuthorityId};
    }
  }

  /** The entry a committed batch leaves. */
  function BatchEntry(st: Store, h: Handle): Entry
    requires h.Rules? && Find(st.table, h.key).Some?
  {
    Entry(h.key, Find(st.table, h.key).value.(ide := Some(h.ide), rules := Some(h.generation), openIds := h.ids), st.revision)
  }

  lemma BatchCommitted(m: Machine, cap: nat, i: nat)
    requires Commits(m, i) && m.handles[i].0.Rules?
    ensures Find(m.st.table, m.handles[i].0.key).Some?
    ensures BatchEntry(m.st, m.handles[i].0) in Step(m, cap, OCommit(i)).st.table
  {
    hide Find, Drop;
  }

  /** A committed batch stands while its route lives at the batch's generation. */
  lemma BatchStands(m: Machine, cap: nat, ops: seq<Op>, e: Entry, end: Machine, now: Route)
    requires MachineKept(m, cap) && cap > 0 && e in m.st.table && end == Run(m, cap, ops)
    requires Find(end.st.table, e.key) == Some(now) && now.serial == e.route.serial && now.rules == e.route.rules
    ensures now.origin == e.route.origin && now.openIds == e.route.openIds && (e.route.ide.Some? ==> now.ide.Some?)
  {
    hide Find, MachineKept, Run;
    FindEntry(end.st.table, e.key);
    var f :| f in end.st.table && f.key == e.key && f.route == now;
    RouteLife(m, cap, ops, e, f);
  }

  /**
   * After a batch is committed, and for as long as its route lives without a newer batch, a rule may be opened exactly by
   * the route's origin, at the batch's generation, with one of the batch's ids.
   */
  lemma OpenExactlyTheLastBatch(m: Machine, cap: nat, i: nat, ops: seq<Op>, c: Id, g: int, id: string)
    requires MachineKept(m, cap) && cap > 0 && Commits(m, i) && m.handles[i].0.Rules?
    requires Find(m.st.table, m.handles[i].0.key).Some?
    requires var h := m.handles[i].0; var now := Find(Run(Step(m, cap, OCommit(i)), cap, ops).st.table, h.key);
      now.Some? && now.value.serial == Find(m.st.table, h.key).value.serial && now.value.rules == Some(h.generation)
    ensures var h := m.handles[i].0; var end := Run(Step(m, cap, OCommit(i)), cap, ops);
      AuthorizeRulesOpen(end.st, h.key, c, g, id).1.Some? <==>
      c == Find(m.st.table, h.key).value.origin && g == h.generation && id in h.ids
  {
    StepKeeps(m, cap, OCommit(i));
    BatchCommitted(m, cap, i);
    hide Find, MachineKept, Run, Step, Commits;
    var h := m.handles[i].0;
    var end := Run(Step(m, cap, OCommit(i)), cap, ops);
    BatchStands(Step(m, cap, OCommit(i)), cap, ops, BatchEntry(m.st, h), end, Find(end.st.table, h.key).value);
  }

  /** `gone` is the least recently used route of its client. */
  ghost predicate LeastRecent(t: seq<Entry>, gone: Entry) {
    gone in t && forall e :: e in t && e.route.origin == gone.route.origin && e != gone ==> gone.stamp < e.stamp
  }

  ghost predicate Replaces(before: seq<Entry>, after: seq<Entry>, gone: set<Entry>, added: Entry) {
    forall e :: e in after <==> (e in before && e !in gone) || e == added
  }

  /**
   * Creating a route for a full client removes exactly that client's least recently used route and adds the new one;
   * for any other client it removes nothing.
   */
  lemma CreateEvictsLeastRecent(st: Store, cap: nat, k: Key, c: Id,
                                refs: set<string>) returns (added: Entry, gone: set<Entry>)
    requires Kept(st, cap) && cap > 0 && Register(st, cap, k, c, refs).Create?
    ensures added.key == k && added.route == NewRoute(st, c, refs)
    ensures Replaces(st.table, CommitHandle(st, Register(st, cap, k, c, refs)).0.table, gone, added)
    ensures if |ClientKeys(st.table, c)| < cap then gone == {}
            else exists e :: gone == {e} && e.route.origin == c && LeastRecent(st.table, e)
  {
    var h := Register(st, cap, k, c, refs);
    var roomy := MakeRoom(st, h);
    var after := CommitHandle(st, h).0.table;
    added, gone := Entry(k, NewRoute(st, c, refs), roomy.revision), {};
    MakeRoomKeeps(st, cap, k, c, refs);
    NoSuchKey(roomy.table, k);
    assert forall e :: e in after <==> e in roomy.table || e == added;
    assert |ClientKeys(st.table, c)| <= cap;
    if h.evicted.Some? {
      FirstKeyIsLeastRecent(st.table, c);
      FirstKeyFound(st.table, c);
      var least :| least in st.table && least.key == ClientKeys(st.table, c)[0] && least.route.origin == c &&
                   forall x :: x in st.table && x.route.origin == c && x != least ==> least.stamp < x.stamp;
      gone := {least};
      assert LeastRecent(st.table, least);
      forall e ensures e in after <==> (e in st.table && e !in gone) || e == added {
        if e in st.table && e != least { DifferentSerials(st.table, e, least); }
        assert Find(st.table, k).None?;
        NoSuchKey(st.table, k);
      }
    }
  }

  /** One route under one claim of its owner. */
  ghost predicate SameClaim(x: Entry, e: Entry) {
    && x.key == e.key && x.route.serial == e.route.serial && x.route.ide == e.route.ide
    && x.route.resolution == e.route.resolution && x.route.claimed
  }

  ghost predicate Claimed(t: seq<Entry>, e: Entry) {
    exists x :: x in t && SameClaim(x, e)
  }

  /** ... and with the same match ids. */
  ghost predicate Holding(t: seq<Entry>, e: Entry) {
    exists x :: x in t && SameClaim(x, e) && x.route.matchIds == e.route.matchIds
  }

  lemma InTable(t: seq<Entry>, e: Entry)
    requires e in t && e.route.claimed
    ensures Holding(t, e) && Claimed(t, e)
  {
    assert SameClaim(e, e);
  }

  /** Where an entry of a rewritten table comes from. */
  lemma TouchedFrom(st: Store, k: Key, next: Route, e: Entry)
    requires Find(st.table, k).Some? && e in Touch(st, k, next).table
    ensures e in st.table || (e.key == k && e.route == next && exists x :: x in st.table && x.key == k && x.route == Find(st.table, k).value)
  {
    FindEntry(st.table, k);
  }

  /** A claim is made by its step, or stood before it; then the match ids stood too, were emptied, or are set by the step. */
  lemma StepClaim(m: Machine, cap: nat, op: Op, e: Entry)
    requires MachineKept(m, cap) && cap > 0 && e in Step(m, cap, op).st.table && e.route.claimed && e.route.resolution.Some?
    ensures || (e.route.ide.Some? && op == OClaimResolution(e.key, e.route.ide.value, e.route.resolution.value) && e.route.matchIds == {})
            || Holding(m.st.table, e)
            || (Claimed(m.st.table, e) && e.route.matchIds == {})
            || (Claimed(m.st.table, e) && e.route.ide.Some?
                && op == OReplaceMatchIds(e.key, e.route.ide.value, e.route.resolution.value, e.route.matchIds))
  {
    hide Kept, Find, Drop, CommitHandle, PrepareRules, Register, ClientKeys, Claimed, Holding, HandleKept;
    if e in m.st.table {
      InTable(m.st.table, e);
    } else {
      match op
      case OCommit(i) => CommitClaim(m.st, cap, m.handles[i].0, e);
      case OResolve(k) => TouchedClaim(m.st, cap, k, Find(m.st.table, k).value, e);
      case OClaimResolution(k, ide, g) => TouchedFrom(m.st, k, ClaimAuthority(m.st, k, ide, g, true).1.value, e);
      case OClaimSourceInvalidation(k, ide, g) =>
        TouchedClaim(m.st, cap, k, ClaimSourceInvalidation(m.st, k, ide, g).1.value, e);
      case OReplaceMatchIds(k, ide, g, ids) => TouchedClaim(m.st, cap, k, ReplaceMatchIds(m.st, k, ide, g, ids).1.value, e);
      case OAuthorizeRulesOpen(k, _, _, _) => TouchedClaim(m.st, cap, k, Find(m.st.table, k).value, e);
      case ORemove(k) => RemovedFrom(m.st, k);
      case _ =>
    }
  }

  lemma RemovedFrom(st: Store, k: Key)
    ensures forall e :: e in RemoveKey(st, k).table ==> e in st.table
  {
  }

  /** Writing back a route under its claim. */
  lemma TouchedClaim(st: Store, cap: nat, k: Key, next: Route, e: Entry)
    requires Kept(st, cap) && Find(st.table, k).Some? && e in Touch(st, k, next).table && e !in st.table && e.route.claimed
    requires var r := Find(st.table, k).value;
      next.claimed ==> next.serial == r.serial && next.ide == r.ide && next.resolution == r.resolution && r.claimed
    ensures e.key == k && e.route == next && Claimed(st.table, e)
    ensures next.matchIds == Find(st.table, k).value.matchIds ==> Holding(st.table, e)
  {
    hide Find, Drop, Kept;
    TouchedFrom(st, k, next, e);
    var x :| x in st.table && x.key == k && x.route == Find(st.table, k).value;
    assert SameClaim(x, e);
  }

  /** A commit makes no claim, and takes none over: only a route without a claim has no owner. */
  lemma CommitClaim(st: Store, cap: nat, h: Handle, e: Entry)
    requires Kept(st, cap) && e in CommitHandle(st, h).0.table && e !in st.table && e.route.claimed && e.route.resolution.Some?
    ensures Holding(st.table, e)
  {
    hide Find, Drop, Kept, ClientKeys, Holding, Claimed;
    match h
    case Collision =>
    case Refresh(k, _, _, _) => TouchedClaim(st, cap, k, Find(st.table, k).value, e);
    case Create(k, c, expected, evicted, _) =>
      var roomy := if evicted.Some? then RemoveKey(st, evicted.value) else st;
      if evicted.Some? { RemovedFrom(st, evicted.value); }
      AddedTo(roomy, k, NewRoute(st, c, expected), e);
    case Rules(k, _, ide, g, _, ids, _) =>
      FoundRouteOk(st, cap, k);
      TouchedFrom(st, k, Find(st.table, k).value.(ide := Some(ide), rules := Some(g), openIds := ids), e);
      TouchedClaim(st, cap, k, Find(st.table, k).value.(ide := Some(ide), rules := Some(g), openIds := ids), e);
  }

  lemma AddedTo(st: Store, k: Key, r: Route, e: Entry)
    requires e in Touch(st, k, r).table
    ensures e in st.table || e.route == r
  {
  }

  /** A claim that stands was made by the owner at its generation, and stood ever since. */
  lemma {:induction false} ClaimMade(cap: nat, ops: seq<Op>, e: Entry) returns (claim: nat)
    requires cap > 0 && Claimed(Run(Start(), cap, ops).st.table, e) && e.route.resolution.Some?
    ensures claim < |ops| && e.route.ide.Some? && ops[claim] == OClaimResolution(e.key, e.route.ide.value, e.route.resolution.value)
    ensures forall j :: claim < j <= |ops| ==> Claimed(Run(Start(), cap, ops[..j]).st.table, e)
    decreases |ops|
  {
    hide Step, MachineKept, Holding;
    var x :| x in Run(Start(), cap, ops).st.table && SameClaim(x, e);
    var init := ops[..|ops| - 1];
    StartKept(cap);
    RunKeeps(Start(), cap, init);
    StepClaim(Run(Start(), cap, init), cap, ops[|ops| - 1], x);
    assert ops[..|ops|] == ops;
    if Claimed(Run(Start(), cap, init).st.table, x) || Holding(Run(Start(), cap, init).st.table, x) {
      SameClaimed(Run(Start(), cap, init).st.table, x, e);
      claim := ClaimMade(cap, init, e);
      assert forall j :: claim < j <= |init| ==> init[..j] == ops[..j];
    } else {
      claim := |ops| - 1;
    }
  }

  lemma SameClaimed(t: seq<Entry>, x: Entry, e: Entry)
    requires SameClaim(x, e) && (Claimed(t, x) || Holding(t, x))
    ensures Claimed(t, e)
  {
    var y :| y in t && SameClaim(y, x);
    assert SameClaim(y, e);
  }

  lemma SameHolding(t: seq<Entry>, x: Entry, e: Entry)
    requires SameClaim(x, e) && x.route.matchIds == e.route.matchIds && Holding(t, x)
    ensures Holding(t, e)
  {
    var y :| y in t && SameClaim(y, x) && y.route.matchIds == x.route.matchIds;
    assert SameClaim(y, e);
  }

  lemma ReachableRoute(cap: nat, ops: seq<Op>, e: Entry)
    requires cap > 0 && e in Run(Start(), cap, ops).st.table
    ensures RouteOk(e.route)
  {
    StartKept(cap);
    RunKeeps(Start(), cap, ops);
  }

  lemma {:induction false} MatchIdsSet(cap: nat, ops: seq<Op>, e: Entry) returns (claim: nat, replaced: nat)
    requires cap > 0 && Holding(Run(Start(), cap, ops).st.table, e) && e.route.matchIds != {}
    ensures claim < replaced < |ops| && e.route.ide.Some? && e.route.resolution.Some?
    ensures ops[claim] == OClaimResolution(e.key, e.route.ide.value, e.route.resolution.value)
    ensures ops[replaced] == OReplaceMatchIds(e.key, e.route.ide.value, e.route.resolution.value, e.route.matchIds)
    ensures forall j :: claim < j <= replaced ==> Claimed(Run(Start(), cap, ops[..j]).st.table, e)
    ensures forall j :: replaced < j <= |ops| ==> Holding(Run(Start(), cap, ops[..j]).st.table, e)
    decreases |ops|
  {
    hide Step, Claimed, MachineKept, Kept, Evolves;
    var x :| x in Run(Start(), cap, ops).st.table && SameClaim(x, e) && x.route.matchIds == e.route.matchIds;
    var init := ops[..|ops| - 1];
    ReachableRoute(cap, ops, x);
    StartKept(cap);
    RunKeeps(Start(), cap, init);
    StepClaim(Run(Start(), cap, init), cap, ops[|ops| - 1], x);
    assert ops[..|ops|] == ops;
    if Holding(Run(Start(), cap, init).st.table, x) {
      SameHolding(Run(Start(), cap, init).st.table, x, e);
      claim, replaced := MatchIdsSet(cap, init, e);
    } else {
      replaced := |ops| - 1;
      SameClaimed(Run(Start(), cap, init).st.table, x, e);
      claim := ClaimMade(cap, init, e);
    }
    assert forall j :: claim < j <= |init| ==> init[..j] == ops[..j];
  }

  /**
   * In every reachable state the match ids of a route were set by its owner at its generation, under a claim that the owner
   * made before at that generation; the claim stood ever since it was made, and the ids ever since they were set.
   */
  lemma MatchIdsStandOnAClaim(cap: nat, ops: seq<Op>, e: Entry) returns (claim: nat, replaced: nat)
    requires cap > 0 && e in Run(Start(), cap, ops).st.table && e.route.matchIds != {}
    ensures claim < replaced < |ops| && e.route.ide.Some? && e.route.resolution.Some? && e.route.claimed
    ensures ops[claim] == OClaimResolution(e.key, e.route.ide.value, e.route.resolution.value)
    ensures ops[replaced] == OReplaceMatchIds(e.key, e.route.ide.value, e.route.resolution.value, e.route.matchIds)
    ensures forall j :: claim < j <= replaced ==> Claimed(Run(Start(), cap, ops[..j]).st.table, e)
    ensures forall j :: replaced < j <= |ops| ==> Holding(Run(Start(), cap, ops[..j]).st.table, e)
  {
    hide Run, Claimed, Holding;
    ReachableRoute(cap, ops, e);
    InTable(Run(Start(), cap, ops).st.table, e);
    claim, replaced := MatchIdsSet(cap, ops, e);
  }

  /** Committed rules generations start at 1 and rise strictly. */
  lemma RulesGenerationsRise(m: Machine, cap: nat, i: nat)
    requires MachineKept(m, cap) && cap > 0 && Commits(m, i) && m.handles[i].0.Rules?
    ensures var before := Find(m.st.table, m.handles[i].0.key);
      before.Some? && if before.value.rules.None? then m.handles[i].0.generation == 1
                      else m.handles[i].0.generation > before.value.rules.value
  {
    hide Find, Drop, ClientKeys;
    assert HandleKept(m.st, cap, m.handles[i].0);
  }
}
