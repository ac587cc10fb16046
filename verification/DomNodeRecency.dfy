/** The order of the registry's table is the order in which its references were last used, over every run. */
module DomNodeRecency {
  import opened Options
  import opened LastUses
  import opened DomNodeTable
  import opened DomNodeLife

  // ---- Uses ----

  /**
   * The references an operation uses: the one that is issued, found again, resolved or retained. A restore that takes effect
   * uses all it brings back, in the order of the snapshot.
   */
  ghost function Used(w: World, cap: nat, op: Op): seq<nat> {
    match op
    case OReference(node, scope) =>
      var ref := Reference(w.reg, w.dead, cap, node, scope).1;
      if node !in w.dead && ref.Some? then [ref.value] else []
    case OResolve(ref, scope) => if Resolve(w.reg, w.dead, ref, scope).1.Some? then [ref] else []
    case ORetain(ref, reason) => if Retain(w.reg, w.dead, ref, reason).1 then [ref] else []
    case ORestore(s) =>
      if s in w.held && Restorable(w.reg, w.dead, cap, s) && w.reg.revision <= MAX_SAFE then Refs(s.entries) else []
    case _ => []
  }

  ghost function Uses(w: World, cap: nat, ops: seq<Op>): seq<nat> {
    if ops == [] then []
    else Uses(w, cap, ops[..|ops| - 1]) + Used(Run(w, cap, ops[..|ops| - 1]), cap, ops[|ops| - 1])
  }

  /** Along the table the last uses rise. */
  ghost predicate Ranked(t: seq<Entry>, uses: seq<nat>) {
    t != [] ==>
      var init, last := t[..|t| - 1], t[|t| - 1];
      Ranked(init, uses) && 0 < LastUse(uses, last.ref) && forall e :: e in init ==> LastUse(uses, e.ref) < LastUse(uses, last.ref)
  }

  lemma {:induction false} RankedPairs(t: seq<Entry>, uses: seq<nat>, i: nat, j: nat)
    requires Ranked(t, uses) && i < j < |t|
    ensures 0 < LastUse(uses, t[i].ref) < LastUse(uses, t[j].ref)
  {
    var init := t[..|t| - 1];
    if j < |t| - 1 {
      RankedPairs(init, uses, i, j);
    } else {
      assert t[i] == init[i] && init[i] in init;
      if i < |init| - 1 { RankedPairs(init, uses, i, |init| - 1); }
    }
  }

  lemma PlacesByUse(t: seq<Entry>, uses: seq<nat>, i: nat, j: nat)
    requires Ranked(t, uses) && i < |t| && j < |t|
    ensures i < j <==> LastUse(uses, t[i].ref) < LastUse(uses, t[j].ref)
  {
    hide Ranked, LastUse;
    if i < j { RankedPairs(t, uses, i, j); }
    if j < i { RankedPairs(t, uses, j, i); }
  }

  /** Leaving entries out keeps the order of the others. */
  lemma {:induction false} FilterRanked(t: seq<Entry>, keep: Entry -> bool, uses: seq<nat>)
    requires Ranked(t, uses)
    ensures Ranked(Filter(t, keep), uses)
  {
    if t == [] {
    } else {
      var init, last := t[..|t| - 1], t[|t| - 1];
      FilterRanked(init, keep, uses);
      var kept := Filter(init, keep);
      if keep(last) { assert (kept + [last])[..|kept|] == kept; } else { assert kept + [] == kept; }
    }
  }

  /** Writing an entry where it stands keeps the order. */
  lemma {:induction false} RewriteRanked(t: seq<Entry>, e: Entry, uses: seq<nat>)
    requires Ranked(t, uses)
    ensures Ranked(Rewrite(t, e), uses)
  {
    if t == [] {
    } else {
      var init, last := t[..|t| - 1], t[|t| - 1];
      RewriteRanked(init, e, uses);
      var after := Rewrite(t, e);
      assert after[..|after| - 1] == Rewrite(init, e);
      forall x | x in Rewrite(init, e) ensures LastUse(uses, x.ref) < LastUse(uses, after[|after| - 1].ref) {
        var i :| 0 <= i < |init| && Rewrite(init, e)[i] == x;
        assert init[i] in init;
      }
    }
  }

  /** A use of another reference changes nothing of an order. */
  lemma {:induction false} OtherUsed(t: seq<Entry>, uses: seq<nat>, ref: nat)
    requires Ranked(t, uses) && forall e :: e in t ==> e.ref != ref
    ensures Ranked(t, uses + [ref])
  {
    UsedNext(uses, ref);
    if t != [] { OtherUsed(t[..|t| - 1], uses, ref); }
  }

  /** An entry put at the end with its use. */
  lemma AppendRanked(t: seq<Entry>, e: Entry, uses: seq<nat>)
    requires Ranked(t, uses) && forall x :: x in t ==> x.ref != e.ref
    ensures Ranked(t + [e], uses + [e.ref])
  {
    OtherUsed(t, uses, e.ref);
    UsedNext(uses, e.ref);
    assert (t + [e])[..|t|] == t;
    forall x | x in t ensures LastUse(uses + [e.ref], x.ref) < LastUse(uses + [e.ref], e.ref) { LastUseBound(uses, x.ref); }
  }

  lemma TouchRanked(t: seq<Entry>, e: Entry, uses: seq<nat>)
    requires Ranked(t, uses)
    ensures Ranked(Touch(t, e), uses + [e.ref])
  {
    FilterRanked(t, (x: Entry) => x.ref != e.ref, uses);
    AppendRanked(DropRef(t, e.ref), e, uses);
  }

  lemma RemovalRanked(r: Registry, ref: nat, uses: seq<nat>)
    requires Ranked(r.entries, uses)
    ensures Ranked(RemoveRef(r, ref).entries, uses)
  {
    hide Ranked, Filter;
    FilterRanked(r.entries, (e: Entry) => e.ref != ref, uses);
  }

  lemma {:induction false} RemovalsRanked(r: Registry, refs: seq<nat>, uses: seq<nat>)
    requires Ranked(r.entries, uses)
    ensures Ranked(RemoveRefs(r, refs).entries, uses)
  {
    if refs != [] {
      var init, last := refs[..|refs| - 1], refs[|refs| - 1];
      RemovalsRanked(r, init, uses);
      RemovalRanked(RemoveRefs(r, init), last, uses);
    }
  }

  lemma RoomRanked(r: Registry, dead: set<NodeId>, cap: nat, uses: seq<nat>)
    requires Ranked(r.entries, uses)
    ensures Ranked(MakeRoom(r, dead, cap).0.entries, uses)
  {
    hide RemoveRefs, DeadRefs, Ranked;
    RemovalsRanked(r, DeadRefs(r.entries, dead), uses);
    var pruned := Prune(r, dead);
    var i := Unretained(pruned.entries);
    if i < |pruned.entries| { RemovalRanked(pruned, pruned.entries[i].ref, uses); }
  }

  /** What a snapshot brings back is used in its order. */
  lemma {:induction false} RestoredRanked(t: seq<Entry>, uses: seq<nat>)
    requires Distinct(t)
    ensures Ranked(t, uses + Refs(t))
  {
    if t == [] {
    } else {
      hide Distinct, Ranked;
      var init, last := t[..|t| - 1], t[|t| - 1];
      DistinctInit(t);
      RestoredRanked(init, uses);
      AppendRanked(init, last, uses + Refs(init));
      assert init + [last] == t && uses + Refs(init) + [last.ref] == uses + Refs(t);
    }
  }

  lemma DistinctInit(t: seq<Entry>)
    requires Distinct(t) && t != []
    ensures Distinct(t[..|t| - 1]) && forall e :: e in t[..|t| - 1] ==> e.ref != t[|t| - 1].ref
  {
  }

  // ---- One operation ----

  lemma ReferenceRanked(w: World, cap: nat, node: NodeId, scope: Scope, uses: seq<nat>)
    requires WorldKept(w, cap) && cap > 0 && Ranked(w.reg.entries, uses)
    ensures var (after, ref) := Reference(w.reg, w.dead, cap, node, scope);
      Ranked(after.entries, uses + if ref.Some? then [ref.value] else [])
  {
    hide Ranked, MakeRoom, Kept, Touch;
    var (after, ref) := Reference(w.reg, w.dead, cap, node, scope);
    assert uses + [] == uses;
    var existing := FindNode(w.reg.entries, node, scope);
    if existing.Some? {
      TouchRanked(w.reg.entries, existing.value, uses);
    } else {
      RoomRanked(w.reg, w.dead, cap, uses);
      if ref.Some? {
        var victim := RoomMade(w.reg, w.dead, cap);
        FreshRef(w, cap);
        var roomy := MakeRoom(w.reg, w.dead, cap).0;
        AppendRanked(roomy.entries, Entry(roomy.nextRef, node, scope, roomy.nextSequence, {}), uses);
      }
    }
  }

  lemma FreshRef(w: World, cap: nat)
    requires WorldKept(w, cap)
    ensures forall e :: e in w.reg.entries ==> e.ref != w.reg.nextRef
  {
  }

  lemma RestoreRanked(w: World, cap: nat, s: Saved, uses: seq<nat>)
    requires Ranked(w.reg.entries, uses)
    ensures Ranked(Restore(w.reg, w.dead, cap, s).0.entries,
                   uses + if Restorable(w.reg, w.dead, cap, s) && w.reg.revision <= MAX_SAFE then Refs(s.entries) else [])
  {
    hide Ranked, Distinct;
    assert uses + [] == uses;
    if Distinct(s.entries) { RestoredRanked(s.entries, uses); }
  }

  lemma StepRanked(w: World, cap: nat, op: Op, uses: seq<nat>)
    requires WorldKept(w, cap) && cap > 0 && Ranked(w.reg.entries, uses)
    ensures Ranked(Step(w, cap, op).reg.entries, uses + Used(w, cap, op))
  {
    hide Ranked, Reference, Restore, Restorable, WorldKept, Touch, Rewrite, RemoveRefs, DropRef;
    assert uses + [] == uses;
    match op
    case OReference(node, scope) => ReferenceRanked(w, cap, node, scope, uses);
    case OResolve(ref, scope) => ResolveRanked(w, ref, scope, uses);
    case ORetain(ref, reason) => RetainRanked(w, ref, reason, uses);
    case ORelease(ref, reason) =>
      var found := FindRef(w.reg.entries, ref);
      if found.Some? { RewriteRanked(w.reg.entries, found.value.(reasons := found.value.reasons - {reason}), uses); }
    case OInvalidate(inside, unreadable) =>
      RemovalsRanked(w.reg, InvalidationRefs(w.reg.entries, w.dead, Relation(inside, unreadable)), uses);
    case OPrune => RemovalsRanked(w.reg, DeadRefs(w.reg.entries, w.dead), uses);
    case OReset(epoch) => NothingRanked(uses);
    case ORestore(s) => RestoreRanked(w, cap, s, uses);
    case _ =>
  }

  lemma NothingRanked(uses: seq<nat>)
    ensures Ranked([], uses)
  {
  }

  lemma ResolveRanked(w: World, ref: nat, scope: Scope, uses: seq<nat>)
    requires Ranked(w.reg.entries, uses)
    ensures var (after, node) := Resolve(w.reg, w.dead, ref, scope);
      Ranked(after.entries, uses + if node.Some? then [ref] else [])
  {
    hide Ranked, Touch, RemoveRef, FindRef;
    assert uses + [] == uses;
    var found := FindRef(w.reg.entries, ref);
    RemovalRanked(w.reg, ref, uses);
    if found.Some? { TouchRanked(w.reg.entries, found.value, uses); }
  }

  lemma RetainRanked(w: World, ref: nat, reason: Reason, uses: seq<nat>)
    requires Ranked(w.reg.entries, uses)
    ensures var (after, ok) := Retain(w.reg, w.dead, ref, reason); Ranked(after.entries, uses + if ok then [ref] else [])
  {
    hide Ranked, Touch, Rewrite, RemoveRef, FindRef;
    assert uses + [] == uses;
    var found := FindRef(w.reg.entries, ref);
    RemovalRanked(w.reg, ref, uses);
    if found.Some? {
      var next := found.value.(reasons := found.value.reasons + {reason});
      TouchRanked(w.reg.entries, next, uses);
      RewriteRanked(w.reg.entries, next, uses);
    }
  }

  // ---- Over whole runs ----

  lemma {:induction false} RunRanked(epoch: nat, cap: nat, ops: seq<Op>)
    requires cap > 0
    ensures WorldKept(Run(StartAt(epoch), cap, ops), cap)
    ensures Ranked(Run(StartAt(epoch), cap, ops).reg.entries, Uses(StartAt(epoch), cap, ops))
  {
    hide Ranked, Step, Used, WorldKept;
    StartKept(epoch, cap);
    RunKeeps(StartAt(epoch), cap, ops);
    if ops == [] {
      NothingRanked([]);
    } else {
      var init := ops[..|ops| - 1];
      RunRanked(epoch, cap, init);
      StepRanked(Run(StartAt(epoch), cap, init), cap, ops[|ops| - 1], Uses(StartAt(epoch), cap, init));
    }
  }

  /**
   * Over every run the table stands in the order of last use: of two entries the one whose reference was issued, found
   * again, resolved, retained or brought back later stands later. Nothing else moves an entry.
   */
  lemma OrderOfLastUse(epoch: nat, cap: nat, ops: seq<Op>, i: nat, j: nat)
    requires cap > 0 && i < |Run(StartAt(epoch), cap, ops).reg.entries| && j < |Run(StartAt(epoch), cap, ops).reg.entries|
    ensures var t, uses := Run(StartAt(epoch), cap, ops).reg.entries, Uses(StartAt(epoch), cap, ops);
      i < j <==> LastUse(uses, t[i].ref) < LastUse(uses, t[j].ref)
  {
    hide Run, Uses, Ranked, WorldKept, LastUse;
    RunRanked(epoch, cap, ops);
    PlacesByUse(Run(StartAt(epoch), cap, ops).reg.entries, Uses(StartAt(epoch), cap, ops), i, j);
  }

  /** The least recent unretained entry of a table in order of use was used the earliest. */
  lemma EarliestUsed(t: seq<Entry>, uses: seq<nat>, gone: Entry)
    requires Ranked(t, uses) && LeastUnretained(t, gone)
    ensures gone.reasons == {}
    ensures forall e :: e in t && e.reasons == {} && e != gone ==> LastUse(uses, gone.ref) < LastUse(uses, e.ref)
  {
    hide Ranked;
    var i :| 0 <= i < |t| && t[i] == gone && gone.reasons == {} && forall j :: 0 <= j < i ==> t[j].reasons != {};
    forall e | e in t && e.reasons == {} && e != gone ensures LastUse(uses, gone.ref) < LastUse(uses, e.ref) {
      var j :| 0 <= j < |t| && t[j] == e;
      RankedPairs(t, uses, i, j);
    }
  }

  lemma WorldTable(w: World, cap: nat)
    requires WorldKept(w, cap)
    ensures Kept(w.reg, w.dead, cap)
  {
  }

  /**
   * What a new reference evicts over any run: of the living entries that nothing retains, the one whose last use is the
   * earliest; and nothing living goes unless the living ones fill the registry.
   */
  lemma EvictsEarliestUsed(epoch: nat, cap: nat, ops: seq<Op>, node: NodeId, scope: Scope, gone: Entry)
    requires cap > 0 && IsCurrentScope(Run(StartAt(epoch), cap, ops).reg.epoch, scope)
    requires var w := Run(StartAt(epoch), cap, ops);
      && w.reg.nextRef <= MAX_SAFE && FindNode(w.reg.entries, node, scope).None?
      && gone in w.reg.entries && gone.node !in w.dead && gone !in Reference(w.reg, w.dead, cap, node, scope).0.entries
    ensures var w, uses := Run(StartAt(epoch), cap, ops), Uses(StartAt(epoch), cap, ops);
      && gone.reasons == {} && |Living(w.reg.entries, w.dead)| >= cap
      && forall e :: e in w.reg.entries && e.node !in w.dead && e.reasons == {} && e != gone ==>
           LastUse(uses, gone.ref) < LastUse(uses, e.ref)
  {
    hide Run, Uses, Reference, Ranked, Kept, WorldKept, IsCurrentScope, FindNode, LeastUnretained, Filter, LastUse, Left;
    RunRanked(epoch, cap, ops);
    var w, uses := Run(StartAt(epoch), cap, ops), Uses(StartAt(epoch), cap, ops);
    WorldTable(w, cap);
    var victim := RoomTakesLeastRecent(w.reg, w.dead, cap, node, scope);
    assert victim == Some(gone);
    FilterRanked(w.reg.entries, (e: Entry) => e.node !in w.dead, uses);
    EarliestUsed(Living(w.reg.entries, w.dead), uses, gone);
  }

  // ---- What a use answers and leaves ----

  /** `after` has the same entries but for one reference, under which it has this one. */
  ghost predicate OnlyNow(before: seq<Entry>, after: seq<Entry>, ref: nat, now: set<Entry>) {
    forall e :: e in after <==> (e in before && e.ref != ref) || e in now
  }

  /** The entry of a reference, if there is one. */
  ghost predicate Stored(t: seq<Entry>, e: Entry, ref: nat) {
    e in t && e.ref == ref
  }

  lemma FoundIfStored(r: Registry, dead: set<NodeId>, cap: nat, e: Entry, ref: nat)
    requires Kept(r, dead, cap) && Stored(r.entries, e, ref)
    ensures FindRef(r.entries, ref) == Some(e) && forall x :: x in r.entries && x.ref == ref ==> x == e
  {
    forall x | x in r.entries && x.ref == ref ensures x == e { SameEntry(r.entries, x, e); }
  }

  /** Resolving answers a stored living node of the asked scope, and takes away exactly a dead one it comes across. */
  lemma ResolvesExactly(r: Registry, dead: set<NodeId>, cap: nat, ref: nat, scope: Scope, e: Entry)
    requires Kept(r, dead, cap) && Stored(r.entries, e, ref)
    ensures var (after, node) := Resolve(r, dead, ref, scope);
      && node == (if IsCurrentScope(r.epoch, scope) && e.scope == scope && e.node !in dead && r.revision <= MAX_SAFE
                  then Some(e.node) else None)
      && OnlyNow(r.entries, after.entries, ref,
                 if IsCurrentScope(r.epoch, scope) && e.scope == scope && e.node in dead && r.revision <= MAX_SAFE then {} else {e})
  {
    hide Kept, FindRef, IsCurrentScope, Distinct;
    FoundIfStored(r, dead, cap, e, ref);
  }

  /** Retaining adds the reason to a stored living node if two changes are left, and takes away a dead one. */
  lemma RetainsExactly(r: Registry, dead: set<NodeId>, cap: nat, ref: nat, reason: Reason, e: Entry)
    requires Kept(r, dead, cap) && Stored(r.entries, e, ref)
    ensures var (after, ok) := Retain(r, dead, ref, reason);
      && (ok <==> e.node !in dead && r.revision < MAX_SAFE)
      && OnlyNow(r.entries, after.entries, ref,
                 if r.revision > MAX_SAFE then {e} else if e.node in dead then {} else {e.(reasons := e.reasons + {reason})})
  {
    hide Kept, FindRef, Distinct, Rewrite;
    FoundIfStored(r, dead, cap, e, ref);
    RewriteOnly(r.entries, e, e.(reasons := e.reasons + {reason}));
  }

  /** Releasing takes the reason away, and nothing else. */
  lemma ReleasesExactly(r: Registry, dead: set<NodeId>, cap: nat, ref: nat, reason: Reason, e: Entry)
    requires Kept(r, dead, cap) && Stored(r.entries, e, ref)
    ensures OnlyNow(r.entries, Release(r, ref, reason).entries, ref,
                    if r.revision > MAX_SAFE then {e} else {e.(reasons := e.reasons - {reason})})
  {
    hide Kept, FindRef, Distinct, Rewrite;
    FoundIfStored(r, dead, cap, e, ref);
    RewriteOnly(r.entries, e, e.(reasons := e.reasons - {reason}));
    assert reason !in e.reasons ==> e.reasons - {reason} == e.reasons;
  }

  lemma RewriteOnly(t: seq<Entry>, e: Entry, next: Entry)
    requires e in t && next.ref == e.ref && forall x :: x in t && x.ref == e.ref ==> x == e
    ensures OnlyNow(t, Rewrite(t, next), e.ref, {next})
  {
    var after := Rewrite(t, next);
    forall x ensures x in after <==> (x in t && x.ref != e.ref) || x == next {
      if x in t && x.ref != e.ref { var i :| 0 <= i < |t| && t[i] == x; assert after[i] == x; }
      if x == next { var i :| 0 <= i < |t| && t[i] == e; assert after[i] == next; }
      if x in after { var i :| 0 <= i < |t| && after[i] == x; assert t[i] in t; }
    }
  }

  /** A node that has a reference in the scope gets it again, whatever else is stored, as long as a change is left. */
  lemma FindsAgainExactly(r: Registry, dead: set<NodeId>, cap: nat, e: Entry)
    requires Kept(r, dead, cap) && e in r.entries && IsCurrentScope(r.epoch, e.scope)
    ensures var (after, ref) := Reference(r, dead, cap, e.node, e.scope);
      && ref == (if r.revision <= MAX_SAFE then Some(e.ref) else None)
      && after.nextRef == r.nextRef && forall x :: x in after.entries <==> x in r.entries
  {
    hide Kept, IsCurrentScope, MakeRoom;
    TableDistinct(r, dead, cap);
    var existing := FindNode(r.entries, e.node, e.scope);
    SameEntry(r.entries, e, existing.value);
    forall x | x in r.entries && x.ref == e.ref ensures x == e { SameEntry(r.entries, x, e); }
  }
}
