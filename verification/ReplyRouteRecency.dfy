/** The order of the route table is the order in which its routes were last used, over every run of the protocol. */
module ReplyRouteRecency {
  import opened Options
  import opened LastUses
  import opened ReplyRouteSpec
  import opened ReplyRouteProtocol

  // ---- Uses ----

  ghost function UsedBy(st: Store, k: Key, ok: bool): seq<nat> {
    if ok && Find(st.table, k).Some? then [Find(st.table, k).value.serial] else []
  }

  /** The route an operation uses: one that it creates, refreshes, resolves, claims or opens a rule of, if it succeeds. */
  ghost function Used(m: Machine, cap: nat, op: Op): seq<nat> {
    match op
    case OCommit(i) =>
      if !Commits(m, i) || m.handles[i].0.Collision? then []
      else if m.handles[i].0.Create? then [m.st.serials] else [m.handles[i].0.serial]
    case OResolve(k) => UsedBy(m.st, k, true)
    case OClaimResolution(k, ide, g) => UsedBy(m.st, k, ClaimAuthority(m.st, k, ide, g, true).1.Some?)
    case OClaimSourceInvalidation(k, ide, g) => UsedBy(m.st, k, ClaimSourceInvalidation(m.st, k, ide, g).1.Some?)
    case OReplaceMatchIds(k, ide, g, ids) => UsedBy(m.st, k, ReplaceMatchIds(m.st, k, ide, g, ids).1.Some?)
    case OAuthorizeRulesOpen(k, c, g, id) => UsedBy(m.st, k, AuthorizeRulesOpen(m.st, k, c, g, id).1.Some?)
    case _ => []
  }

  ghost function Uses(cap: nat, ops: seq<Op>): seq<nat> {
    if ops == [] then []
    else Uses(cap, ops[..|ops| - 1]) + Used(Run(Start(), cap, ops[..|ops| - 1]), cap, ops[|ops| - 1])
  }

  /** Along the table the last uses rise. */
  ghost predicate Ranked(t: seq<Entry>, uses: seq<nat>) {
    t != [] ==>
      && Ranked(Init(t), uses) && 0 < LastUse(uses, Last(t).route.serial)
      && forall e :: e in Init(t) ==> LastUse(uses, e.route.serial) < LastUse(uses, Last(t).route.serial)
  }

  lemma NothingRanked(uses: seq<nat>)
    ensures Ranked([], uses)
  {
  }

  lemma {:induction false} RankedPairs(t: seq<Entry>, uses: seq<nat>, i: nat, j: nat)
    requires Ranked(t, uses) && i < j < |t|
    ensures 0 < LastUse(uses, t[i].route.serial) < LastUse(uses, t[j].route.serial)
  {
    if j < |t| - 1 {
      RankedPairs(Init(t), uses, i, j);
    } else {
      assert t[i] == Init(t)[i] && Init(t)[i] in Init(t);
      if i < |Init(t)| - 1 { RankedPairs(Init(t), uses, i, |Init(t)| - 1); }
    }
  }

  // ---- What keeps the order ----

  lemma RankedSnoc(t: seq<Entry>, e: Entry, uses: seq<nat>)
    requires Ranked(t, uses) && 0 < LastUse(uses, e.route.serial)
    requires forall x :: x in t ==> LastUse(uses, x.route.serial) < LastUse(uses, e.route.serial)
    ensures Ranked(t + [e], uses)
  {
    assert Init(t + [e]) == t;
  }

  lemma {:induction false} DropRanked(t: seq<Entry>, k: Key, uses: seq<nat>)
    requires Ranked(t, uses)
    ensures Ranked(Drop(t, k), uses)
  {
    if t != [] {
      DropRanked(Init(t), k, uses);
      if Last(t).key == k { assert Drop(t, k) == Drop(Init(t), k); } else { RankedSnoc(Drop(Init(t), k), Last(t), uses); }
    }
  }

  lemma {:induction false} DropClientRanked(t: seq<Entry>, c: Id, uses: seq<nat>)
    requires Ranked(t, uses)
    ensures Ranked(DropClient(t, c), uses)
  {
    if t != [] {
      DropClientRanked(Init(t), c, uses);
      if Last(t).route.origin == c || Last(t).route.ide == Some(c) {
        assert DropClient(t, c) == DropClient(Init(t), c);
      } else {
        RankedSnoc(DropClient(Init(t), c), Last(t), uses);
      }
    }
  }

  /** A use of another route changes nothing of an order. */
  lemma {:induction false} OtherUsed(t: seq<Entry>, uses: seq<nat>, serial: nat)
    requires Ranked(t, uses) && forall e :: e in t ==> e.route.serial != serial
    ensures Ranked(t, uses + [serial])
  {
    UsedNext(uses, serial);
    if t != [] { OtherUsed(Init(t), uses, serial); }
  }

  /** A route put at the end with its use. */
  lemma PutRanked(t: seq<Entry>, k: Key, r: Route, stamp: nat, uses: seq<nat>)
    requires Ranked(t, uses) && forall e :: e in t && e.key != k ==> e.route.serial != r.serial
    ensures Ranked(Put(t, k, r, stamp), uses + [r.serial])
  {
    hide Ranked, LastUse;
    var left := Drop(t, k);
    DropRanked(t, k, uses);
    OtherUsed(left, uses, r.serial);
    UsedNext(uses, r.serial);
    forall e | e in left ensures LastUse(uses + [r.serial], e.route.serial) < LastUse(uses + [r.serial], r.serial) {
      LastUseBound(uses, e.route.serial);
    }
    RankedSnoc(left, Entry(k, r, stamp), uses + [r.serial]);
  }

  /** Writing back a stored route is a use of it. */
  lemma TouchRanked(st: Store, cap: nat, k: Key, r: Route, uses: seq<nat>)
    requires Kept(st, cap) && Ranked(st.table, uses)
    requires Find(st.table, k).Some? && r.serial == Find(st.table, k).value.serial
    ensures Ranked(Touch(st, k, r).table, uses + [r.serial])
  {
    hide Ranked, Ordered, Find, Drop;
    forall e | e in st.table && e.key != k ensures e.route.serial != r.serial { SerialsAgree(st.table, k, e); }
    PutRanked(st.table, k, r, st.revision, uses);
  }

  lemma CreateRanked(st: Store, cap: nat, k: Key, c: Id, refs: set<string>, uses: seq<nat>)
    requires Kept(st, cap) && cap > 0 && Ranked(st.table, uses) && Register(st, cap, k, c, refs).Create?
    ensures Ranked(CommitHandle(st, Register(st, cap, k, c, refs)).0.table, uses + [st.serials])
  {
    hide Ranked, Ordered, Find, Drop, ClientKeys;
    var h := Register(st, cap, k, c, refs);
    var roomy := MakeRoom(st, h);
    if h.evicted.Some? { DropRanked(st.table, h.evicted.value, uses); }
    assert forall e :: e in roomy.table ==> e in st.table;
    PutRanked(roomy.table, k, NewRoute(st, c, refs), roomy.revision, uses);
  }

  lemma CommitRanked(m: Machine, cap: nat, i: nat, uses: seq<nat>)
    requires MachineKept(m, cap) && cap > 0 && Ranked(m.st.table, uses)
    ensures Ranked(Step(m, cap, OCommit(i)).st.table, uses + Used(m, cap, OCommit(i)))
  {
    hide Ranked, Find, Drop, ClientKeys, Kept, Put, Touch;
    assert uses + [] == uses;
    if Commits(m, i) {
      var h := m.handles[i].0;
      CommitEffect(m.st, cap, h);
      match h
      case Refresh(k, _, _, _) => TouchRanked(m.st, cap, k, Find(m.st.table, k).value, uses);
      case Create(k, c, expected, _, _) => CreateRanked(m.st, cap, k, c, expected, uses);
      case Rules(k, _, ide, g, _, ids, _) =>
        TouchRanked(m.st, cap, k, Find(m.st.table, k).value.(ide := Some(ide), rules := Some(g), openIds := ids), uses);
    }
  }

  lemma ClaimRanked(st: Store, cap: nat, k: Key, ide: Id, g: int, claimed: bool, uses: seq<nat>)
    requires Kept(st, cap) && Ranked(st.table, uses)
    ensures var (after, route) := ClaimAuthority(st, k, ide, g, claimed); Ranked(after.table, uses + UsedBy(st, k, route.Some?))
  {
    hide Ranked, Find, Kept, Touch;
    assert uses + [] == uses;
    var (after, route) := ClaimAuthority(st, k, ide, g, claimed);
    if route.Some? { TouchRanked(st, cap, k, route.value, uses); }
  }

  lemma StepRanked(m: Machine, cap: nat, op: Op, uses: seq<nat>)
    requires MachineKept(m, cap) && cap > 0 && Ranked(m.st.table, uses)
    ensures Ranked(Step(m, cap, op).st.table, uses + Used(m, cap, op))
  {
    hide Ranked, Find, Drop, DropClient, Kept, Touch, HandleKept, CommitHandle, Register, PrepareRules;
    assert uses + [] == uses;
    var st := m.st;
    match op
    case OCommit(i) => CommitRanked(m, cap, i, uses);
    case OResolve(k) => if Find(st.table, k).Some? { TouchRanked(st, cap, k, Find(st.table, k).value, uses); }
    case OClaimResolution(k, ide, g) => ClaimRanked(st, cap, k, ide, g, true, uses);
    case OClaimSourceInvalidation(k, ide, g) =>
      ClaimRanked(st, cap, k, ide, g, false, uses);
      if Find(st.table, k).Some? { TouchRanked(st, cap, k, Find(st.table, k).value.(matchIds := {}), uses); }
    case OReplaceMatchIds(k, ide, g, ids) =>
      if Find(st.table, k).Some? { TouchRanked(st, cap, k, Find(st.table, k).value.(matchIds := ids), uses); }
    case OAuthorizeRulesOpen(k, c, g, id) =>
      if Find(st.table, k).Some? { TouchRanked(st, cap, k, Find(st.table, k).value, uses); }
    case ORemove(k) => DropRanked(st.table, k, uses);
    case ORemoveClient(c) => DropClientRanked(st.table, c, uses);
    case OClear => NothingRanked(uses);
    case _ =>
  }

  // ---- Over whole runs ----

  lemma {:induction false} RunRanked(cap: nat, ops: seq<Op>)
    requires cap > 0
    ensures MachineKept(Run(Start(), cap, ops), cap) && Ranked(Run(Start(), cap, ops).st.table, Uses(cap, ops))
  {
    hide Ranked, Step, Used, MachineKept;
    StartKept(cap);
    RunKeeps(Start(), cap, ops);
    if ops == [] {
      NothingRanked([]);
    } else {
      var init := ops[..|ops| - 1];
      RunRanked(cap, init);
      StepRanked(Run(Start(), cap, init), cap, ops[|ops| - 1], Uses(cap, init));
    }
  }

  /**
   * Over every run, of two stored routes the one that was created, refreshed, resolved, claimed, given matches or a batch,
   * or asked to open a rule by the later operation stands later. Nothing else moves a route.
   */
  lemma OrderOfLastUse(cap: nat, ops: seq<Op>, i: nat, j: nat)
    requires cap > 0 && i < |Run(Start(), cap, ops).st.table| && j < |Run(Start(), cap, ops).st.table|
    ensures var t, uses := Run(Start(), cap, ops).st.table, Uses(cap, ops);
      i < j <==> LastUse(uses, t[i].route.serial) < LastUse(uses, t[j].route.serial)
  {
    hide Run, Uses, Ranked, MachineKept, LastUse;
    RunRanked(cap, ops);
    var t, uses := Run(Start(), cap, ops).st.table, Uses(cap, ops);
    if i < j { RankedPairs(t, uses, i, j); }
    if j < i { RankedPairs(t, uses, j, i); }
  }

  /** Stamps and last uses rise alike. */
  lemma {:induction false} StampsByUse(t: seq<Entry>, uses: seq<nat>, e: Entry, x: Entry)
    requires Ordered(t) && Ranked(t, uses) && e in t && x in t && e.stamp < x.stamp
    ensures LastUse(uses, e.route.serial) < LastUse(uses, x.route.serial)
  {
    hide LastUse;
    assert t == Init(t) + [Last(t)];
    if x != Last(t) && e != Last(t) { StampsByUse(Init(t), uses, e, x); }
  }

  /**
   * What a new route of a client at its cap evicts, over every run: of the client's routes exactly the one whose last use
   * is the earliest. Below the cap nothing goes.
   */
  lemma EvictsEarliestUsed(cap: nat, ops: seq<Op>, k: Key, c: Id, refs: set<string>, gone: Entry)
    requires cap > 0 && Register(Run(Start(), cap, ops).st, cap, k, c, refs).Create?
    requires var st := Run(Start(), cap, ops).st;
      gone in st.table && gone !in CommitHandle(st, Register(st, cap, k, c, refs)).0.table
    ensures var t, uses := Run(Start(), cap, ops).st.table, Uses(cap, ops);
      && gone.route.origin == c && |ClientKeys(t, c)| >= cap
      && forall e :: e in t && e.route.origin == c && e != gone ==> LastUse(uses, gone.route.serial) < LastUse(uses, e.route.serial)
  {
    hide Run, Uses, Ranked, LastUse, Register, CommitHandle, ClientKeys, Ordered;
    RunRanked(cap, ops);
    var st, uses := Run(Start(), cap, ops).st, Uses(cap, ops);
    var added, evicted := CreateEvictsLeastRecent(st, cap, k, c, refs);
    assert gone in evicted;
    forall e | e in st.table && e.route.origin == c && e != gone
      ensures LastUse(uses, gone.route.serial) < LastUse(uses, e.route.serial)
    {
      StampsByUse(st.table, uses, gone, e);
    }
  }

  // ---- What a registration prepares ----

  /**
   * Registering an inspect collides exactly with a stored route of another client or with other rules, refreshes exactly
   * the client's own with the same rules, and otherwise creates one that waits for them.
   */
  lemma RegistersExactly(st: Store, cap: nat, k: Key, c: Id, refs: set<string>, e: Entry)
    requires Kept(st, cap) && cap > 0
    ensures var h := Register(st, cap, k, c, refs); var (after, ok) := CommitHandle(st, h);
      && (e in st.table && e.key == k ==>
            && (h.Collision? <==> e.route.origin != c || e.route.expected != refs) && (ok <==> !h.Collision?)
            && (ok ==> forall x: Entry :: x.key == k ==> (x in after.table <==> x == Entry(k, e.route, st.revision))))
      && ((forall x :: x in st.table ==> x.key != k) ==>
            && h.Create? && ok
            && exists stamp :: Entry(k, Route(st.serials, c, refs, None, None, false, {}, None, {}), stamp) in after.table)
  {
    hide Ordered, Find, Drop, ClientKeys;
    FindEntry(st.table, k);
    if forall x :: x in st.table ==> x.key != k {
      var h := Register(st, cap, k, c, refs);
      CreateKeeps(st, cap, k, c, refs);
      var roomy := MakeRoom(st, h);
      assert Entry(k, NewRoute(st, c, refs), roomy.revision) in CommitHandle(st, h).0.table;
    }
  }
}
