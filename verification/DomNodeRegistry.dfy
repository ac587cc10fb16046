/** The node registry's methods, each proved to do to the three maps what its table operation does to the table. */
module DomNodeRegistry {
  import opened Options
  import opened DomNodeTable
  import opened DomNodeLife
  import opened DomNodeIndices

  const RETENTION_ORDER: seq<Reason> := [Selected, Hovered, Expanded]

  function Place(reason: Reason): (i: nat)
    ensures i < 3 && RETENTION_ORDER[i] == reason
  {
    match reason
    case Selected => 0
    case Hovered => 1
    case Expanded => 2
  }

  /** A snapshot remembers whose it is. */
  datatype RegistrySnapshot = RegistrySnapshot(registry: DomNodeRegistry, saved: Saved)

  class DomNodeRegistry {
    const maxReverseEntries: nat
    var forward: ForwardMap
    // A map by reference, in the order in which its entries were last set.
    var reverse: seq<Entry>
    var retained: map<nat, NodeId>
    var documentEpoch: nat
    var nextRef: nat
    var nextSequence: nat
    var authorityRevision: nat
    // The nodes the collector has taken; a weak reference to one of them yields nothing.
    var dead: set<NodeId>

    ghost function View(): Registry
      reads this
    {
      Registry(documentEpoch, nextRef, nextSequence, authorityRevision, reverse)
    }

    ghost predicate Indexed()
      reads this
    {
      Distinct(reverse) && ForwardAgrees(forward, reverse, dead) && RetainedAgrees(retained, reverse)
    }

    ghost predicate Valid()
      reads this
    {
      maxReverseEntries > 0 && Kept(View(), dead, maxReverseEntries) && Indexed()
    }

    constructor (maxReverseEntries: nat, documentEpoch: nat)
      requires maxReverseEntries > 0 && IsSafe(documentEpoch)
      ensures Valid() && View() == StartAt(documentEpoch).reg && dead == {}
      ensures this.maxReverseEntries == maxReverseEntries
    {
      this.maxReverseEntries, this.documentEpoch := maxReverseEntries, documentEpoch;
      forward, reverse, retained, dead := map[], [], map[], {};
      nextRef, nextSequence, authorityRevision := 1, 1, 0;
    }

    /** The collector takes nodes that nothing here retains; weak keys go with them. */
    method Collect(nodes: set<NodeId>)
      requires Valid() && forall ref :: ref in retained ==> retained[ref] !in nodes
      modifies this`dead, this`forward
      ensures Valid() && dead == old(dead) + nodes
    {
      hide Distinct;
      forall e | e in reverse && e.reasons != {} ensures e.node !in nodes { assert retained[e.ref] == e.node; }
      ghost var before := forward;
      forward := forward - nodes;
      forall n, s ensures ForwardRef(forward, n, s) == if n in nodes then None else ForwardRef(before, n, s) {
      }
      dead := dead + nodes;
    }

    /** `bumpAuthorityRevision`: every change is counted before it is made, and past the last safe value it throws. */
    method BumpRevision() returns (ok: bool)
      modifies this`authorityRevision
      ensures ok <==> !old(Spent(View()))
      ensures View() == if ok then Bumped(old(View())) else old(View())
      ensures old(Valid()) ==> Valid()
    {
      if authorityRevision > MAX_SAFE { return false; }
      authorityRevision := authorityRevision + 1;
      return true;
    }

    /** Take an entry out of every map; the forward map of a dead node is gone already. */
    method Remove(e: Entry, node: Option<NodeId>) returns (ok: bool)
      requires Valid() && e in reverse && node == if e.node in dead then None else Some(e.node)
      modifies this`forward, this`reverse, this`retained, this`authorityRevision
      ensures Valid() && View() == RemoveRef(old(View()), e.ref) && (ok <==> !old(Spent(View())))
    {
      hide Kept, Distinct, ForwardAgrees, RetainedAgrees, Filter, FindRef;
      FoundHere(reverse, e);
      ok := BumpRevision();
      if !ok { return; }
      FilterKept(View(), dead, maxReverseEntries, (x: Entry) => x.ref != e.ref);
      ForwardWithout(forward, reverse, dead, e);
      RetainedWithout(retained, reverse, e.ref);
      SizeBound(View().(entries := DropRef(reverse, e.ref)), dead, maxReverseEntries);
      if node.Some? { forward := ForgetForward(forward, node.value, e.scope, e.ref); }
      reverse := DropRef(reverse, e.ref);
      retained := retained - {e.ref};
    }

    /** Delete an entry and set it again: it is now the most recently used. */
    method TouchEntry(e: Entry) returns (ok: bool)
      requires Valid() && e in reverse
      modifies this`reverse, this`authorityRevision
      ensures Valid() && (ok <==> !old(Spent(View())))
      ensures View() == if ok then Bumped(old(View()).(entries := Touch(old(reverse), e))) else old(View())
    {
      hide Kept, Distinct, ForwardAgrees, RetainedAgrees, DropRef, Touch;
      ok := BumpRevision();
      if !ok { return; }
      if e.reasons != {} { RetainedLive(View(), dead, maxReverseEntries, e); }
      TouchKept(View(), dead, maxReverseEntries, e, e);
      TouchMembers(reverse, e, e);
      SizeBound(View().(entries := Touch(reverse, e)), dead, maxReverseEntries);
      ForwardSame(forward, reverse, Touch(reverse, e), dead);
      RetainedSame(retained, reverse, Touch(reverse, e));
      reverse := Touch(reverse, e);
    }

    /** The entry a reference names, found as the map finds it. */
    function EntryOf(ref: nat): Option<Entry>
      reads this
    {
      FindRef(reverse, ref)
    }

    /** A living node's reference in a scope: the one it has, or the next one, for which room is made. */
    method Reference(node: NodeId, scope: Scope) returns (ref: Option<nat>)
      requires Valid() && node !in dead
      modifies this
      ensures Valid() && dead == old(dead)
      ensures (View(), ref) == DomNodeTable.Reference(old(View()), dead, maxReverseEntries, node, scope)
    {
      hide Kept, Distinct, ForwardAgrees, RetainedAgrees, Living, Touch, MakeRoom;
      if !IsCurrentScope(documentEpoch, scope) { return None; }
      ForwardFinds(forward, reverse, dead, node, scope);
      var existingRef := ForwardRef(forward, node, scope);
      if existingRef.Some? {
        var touched := TouchEntry(EntryOf(existingRef.value).value);
        return if touched then existingRef else None;
      }
      if nextRef > MAX_SAFE { return None; }
      var roomy := MakeRoomFor();
      if !roomy { return None; }
      SubsetLacks(old(reverse), reverse, node, scope);
      ref := Add(node, scope);
    }

    /** Store an entry under the next reference, if one more change is possible. */
    method Add(node: NodeId, scope: Scope) returns (ref: Option<nat>)
      requires Valid() && node !in dead && IsCurrentScope(documentEpoch, scope) && nextRef <= MAX_SAFE
      requires |reverse| < maxReverseEntries && forall e :: e in reverse ==> e.node != node || e.scope != scope
      modifies this`forward, this`reverse, this`nextRef, this`nextSequence, this`authorityRevision
      ensures Valid() && ref == if old(Spent(View())) then None else Some(old(nextRef))
      ensures View() == if ref.None? then old(View()) else Issued(old(View()), node, scope)
    {
      hide Distinct, ForwardAgrees, RetainedAgrees, Kept;
      var entry := Entry(nextRef, node, scope, nextSequence, {});
      if !Spent(View()) { IssuedKept(View(), dead, maxReverseEntries, node, scope); }
      ForwardWith(forward, reverse, dead, entry);
      RetainedAppended(retained, reverse, entry);
      var ok := BumpRevision();
      if !ok { return None; }
      ref := Some(nextRef);
      reverse := reverse + [entry];
      forward := SetForward(forward, node, scope, nextRef);
      nextRef, nextSequence := nextRef + 1, nextSequence + 1;
    }

    /** Prune, then evict the least recently used unretained entries while the registry is full. */
    method MakeRoomFor() returns (roomy: bool)
      requires Valid()
      modifies this`forward, this`reverse, this`retained, this`authorityRevision
      ensures Valid() && (View(), roomy) == MakeRoom(old(View()), dead, maxReverseEntries)
      ensures roomy ==> |reverse| < maxReverseEntries
      ensures forall e :: e in reverse ==> e in old(reverse)
    {
      hide Kept, Distinct, ForwardAgrees, RetainedAgrees, Living, MakeRoom, Unretained, DropRef, FindRef, DomNodeTable.Prune;
      ghost var before := View();
      RoomIs(before, dead, maxReverseEntries);
      var removed, ok := PruneEntries();
      if !ok { return false; }
      ghost var pruned := View();
      SizeBound(View(), dead, maxReverseEntries);
      while |reverse| >= maxReverseEntries
        invariant Valid() && forall e :: e in reverse ==> e in pruned.entries
        invariant View() == pruned || (|reverse| < maxReverseEntries && MakeRoom(before, dead, maxReverseEntries) == (View(), true))
        invariant forall e :: e in reverse ==> e.node !in dead
        decreases |reverse|
      {
        var i := 0;
        while i < |reverse| && reverse[i].reasons != {}
          invariant i <= |reverse| && forall j :: 0 <= j < i ==> reverse[j].reasons != {}
        {
          i := i + 1;
        }
        FirstUnretained(reverse, i);
        if i == |reverse| { return false; }
        DropsAt(View(), dead, maxReverseEntries, i);
        FoundHere(reverse, reverse[i]);
        var gone := Remove(reverse[i], Some(reverse[i].node));
        if !gone { return false; }
      }
      return true;
    }

    /** Remove the entries whose nodes are gone, one by one, until the changes run out. */
    method PruneEntries() returns (removed: nat, ok: bool)
      requires Valid()
      modifies this`forward, this`reverse, this`retained, this`authorityRevision
      ensures Valid() && View() == DomNodeTable.Prune(old(View()), dead)
      ensures ok <==> |DeadRefs(old(reverse), dead)| <= Left(old(View()))
      ensures ok ==> removed == |old(reverse)| - |reverse| && forall e :: e in reverse ==> e.node !in dead
      ensures forall e :: e in reverse ==> e in old(reverse)
    {
      hide Kept, Distinct, ForwardAgrees, RetainedAgrees, Living, Filter, DropRef, RemoveRefs, FindRef, DeadRefs;
      var before := reverse;
      ghost var start := View();
      removed, ok := 0, true;
      SizeBound(start, dead, maxReverseEntries);
      NoneDead(dead);
      RemovesNone(start);
      assert before[..0] == [] && before[..|before|] == before;
      PruneTakes(start, dead, maxReverseEntries);
      for i := 0 to |before|
        invariant Valid() && View() == RemoveRefs(start, DeadRefs(before[..i], dead))
        invariant removed == |DeadRefs(before[..i], dead)| && authorityRevision == start.revision + removed
        invariant forall j :: i <= j < |before| ==> before[j] in reverse
      {
        var e := before[i];
        DeadNext(before, dead, i);
        if e.node in dead {
          StaysAfter(reverse, before, i);
          RemovesNext(start, DeadRefs(before[..i], dead), e.ref);
          ok := Remove(e, None);
          if !ok {
            SpentStays(start, before, dead, i);
            return;
          }
          removed := removed + 1;
        }
      }
      LivingLives(before, dead);
      TableDistinct(View(), dead, maxReverseEntries);
    }

    method Prune() returns (removed: Option<nat>)
      requires Valid()
      modifies this`forward, this`reverse, this`retained, this`authorityRevision
      ensures Valid() && View() == DomNodeTable.Prune(old(View()), dead)
      ensures removed == if |DeadRefs(old(reverse), dead)| <= Left(old(View())) then Some(|old(reverse)| - |reverse|) else None
    {
      hide Kept, Distinct, ForwardAgrees, RetainedAgrees, Living, Filter;
      var count, ok := PruneEntries();
      removed := if ok then Some(count) else None;
    }

    method Resolve(ref: nat, scope: Scope) returns (node: Option<NodeId>)
      requires Valid()
      modifies this
      ensures Valid() && dead == old(dead)
      ensures (View(), node) == DomNodeTable.Resolve(old(View()), dead, ref, scope)
    {
      hide Kept, Distinct, ForwardAgrees, RetainedAgrees, DropRef, Touch;
      if !IsCurrentScope(documentEpoch, scope) { return None; }
      var entry := EntryOf(ref);
      if entry.None? || entry.value.scope != scope { return None; }
      if entry.value.node in dead {
        var _ := Remove(entry.value, None);
        return None;
      }
      var touched := TouchEntry(entry.value);
      return if touched then Some(entry.value.node) else None;
    }

    method Retain(ref: nat, reason: Reason) returns (ok: bool)
      requires Valid()
      modifies this
      ensures Valid() && dead == old(dead)
      ensures (View(), ok) == DomNodeTable.Retain(old(View()), dead, ref, reason)
    {
      hide Kept, Distinct, ForwardAgrees, RetainedAgrees, DropRef, Touch, FindRef;
      var found := EntryOf(ref);
      if found.None? { return false; }
      var entry := found.value;
      if entry.node in dead {
        var _ := Remove(entry, None);
        return false;
      }
      ok := BumpRevision();
      if !ok { return; }
      var next := AddReason(entry, reason);
      ok := TouchEntry(next);
      TouchRewritten(old(reverse), next);
    }

    /** One more reason of an entry, which is held from now on. */
    method AddReason(entry: Entry, reason: Reason) returns (next: Entry)
      requires Valid() && entry in reverse && entry.node !in dead
      modifies this`reverse, this`retained
      ensures Valid() && next == entry.(reasons := entry.reasons + {reason}) && next in reverse
      ensures View() == old(View()).(entries := Rewrite(old(reverse), next))
    {
      hide Kept, Distinct, ForwardAgrees, RetainedAgrees, Rewrite, FindRef;
      next := entry.(reasons := entry.reasons + {reason});
      RewriteKept(View(), dead, maxReverseEntries, entry, next);
      SizeBound(View(), dead, maxReverseEntries);
      RewriteMembers(reverse, entry, next);
      SizeBound(View().(entries := Rewrite(reverse, next)), dead, maxReverseEntries);
      ForwardSame(forward, reverse, Rewrite(reverse, next), dead);
      RetainedRewritten(retained, reverse, Rewrite(reverse, next), next);
      retained := retained[entry.ref := entry.node];
      reverse := Rewrite(reverse, next);
    }

    method Release(ref: nat, reason: Reason)
      requires Valid()
      modifies this
      ensures Valid() && dead == old(dead)
      ensures View() == DomNodeTable.Release(old(View()), ref, reason)
    {
      hide Kept, Distinct, ForwardAgrees, RetainedAgrees, Rewrite, FindRef;
      var found := EntryOf(ref);
      if found.None? { return; }
      var entry := found.value;
      if reason !in entry.reasons { return; }
      var next := entry.(reasons := entry.reasons - {reason});
      var ok := BumpRevision();
      if !ok { return; }
      RetainedLive(View(), dead, maxReverseEntries, entry);
      RewriteKept(View(), dead, maxReverseEntries, entry, next);
      RewriteMembers(reverse, entry, next);
      SizeBound(View().(entries := Rewrite(reverse, next)), dead, maxReverseEntries);
      ForwardSame(forward, reverse, Rewrite(reverse, next), dead);
      RetainedRewritten(retained, reverse, Rewrite(reverse, next), next);
      AlreadyRetained(retained, reverse, entry);
      if next.reasons == {} { retained := retained - {ref}; }
      reverse := Rewrite(reverse, next);
    }

    /** The reasons of a reference, in their fixed order. */
    method RetentionReasons(ref: nat) returns (reasons: seq<Reason>)
      ensures forall x :: x in reasons <==> EntryOf(ref).Some? && x in EntryOf(ref).value.reasons
      ensures forall i, j :: 0 <= i < j < |reasons| ==> Place(reasons[i]) < Place(reasons[j])
    {
      var entry := EntryOf(ref);
      if entry.None? { return []; }
      reasons := [];
      for i := 0 to 3
        invariant forall x :: x in reasons <==> x in entry.value.reasons && Place(x) < i
        invariant forall i, j :: 0 <= i < j < |reasons| ==> Place(reasons[i]) < Place(reasons[j])
      {
        var reason := RETENTION_ORDER[i];
        if reason in entry.value.reasons { reasons := reasons + [reason]; }
      }
    }

    /** Remove what some references name, one by one, until the changes run out. */
    method RemoveAll(refs: seq<nat>) returns (ok: bool)
      requires Valid()
      modifies this`forward, this`reverse, this`retained, this`authorityRevision
      ensures Valid() && View() == RemoveRefs(old(View()), refs)
      ensures ok <==> forall ref :: ref in refs ==> FindRef(reverse, ref).None?
    {
      hide Kept, Distinct, ForwardAgrees, RetainedAgrees, Filter, DropRef, RemoveRefs;
      ghost var start := View();
      RemovesNone(start);
      assert refs[..0] == [];
      for i := 0 to |refs|
        invariant Valid() && View() == RemoveRefs(start, refs[..i])
        invariant forall j :: 0 <= j < i ==> FindRef(reverse, refs[j]).None?
      {
        assert refs[..i + 1] == refs[..i] + [refs[i]];
        RemovesNext(start, refs[..i], refs[i]);
        var entry := EntryOf(refs[i]);
        GoneStays(View(), refs[i]);
        if entry.Some? {
          ok := Remove(entry.value, if entry.value.node in dead then None else Some(entry.value.node));
          if !ok {
            SpentRemovesNothing(start, refs, i);
            assert refs[i] in refs && FindRef(reverse, refs[i]).Some?;
            return;
          }
        }
      }
      assert refs[..|refs|] == refs;
      return true;
    }

    /**
     * Remove the dead and everything inside a root, and answer the references removed from inside. A relation to the
     * root that cannot be read calls it off; it throws when the changes run out on the way.
     */
    method InvalidateSubtree(hasContains: bool, within: NodeId -> Option<bool>) returns (invalidated: Option<seq<nat>>)
      requires Valid()
      modifies this`forward, this`reverse, this`retained, this`authorityRevision
      ensures Valid()
      ensures View() == if hasContains then Invalidate(old(View()), dead, within) else old(View())
      ensures invalidated == if !hasContains || !Readable(old(reverse), dead, within) then Some([])
                             else if |InvalidationRefs(old(reverse), dead, within)| > Left(old(View())) then None
                             else Some(Refs(Invalidated(old(reverse), dead, within)))
    {
      hide Kept, Distinct, ForwardAgrees, RetainedAgrees, Filter, RemoveRefs, BySequence, FindRef;
      if !hasContains { return Some([]); }
      var sorted := SortOut(within);
      if sorted.None? { return Some([]); }
      InvalidationCompletes(View(), dead, maxReverseEntries, within);
      var ok := RemoveAll(Refs(sorted.value.0) + Refs(sorted.value.1));
      return if ok then Some(Refs(sorted.value.1)) else None;
    }

    /** Walk the entries as issued: the dead and the inside ones, unless a relation cannot be read. */
    method SortOut(within: NodeId -> Option<bool>) returns (r: Option<(seq<Entry>, seq<Entry>)>)
      ensures r == if Readable(reverse, dead, within)
                   then Some((DeadOnes(reverse, dead), Invalidated(reverse, dead, within))) else None
    {
      hide Filter, BySequence;
      var entries := BySequence(reverse);
      var gone, inside := [], [];
      FilterAll([], IsDead(dead));
      FilterAll([], IsInside(dead, within));
      for i := 0 to |entries|
        invariant gone == Filter(entries[..i], IsDead(dead)) && inside == Filter(entries[..i], IsInside(dead, within))
        invariant Readable(entries[..i], dead, within)
      {
        var e := entries[i];
        assert entries[..i + 1] == entries[..i] + [e];
        FilterSnoc(entries[..i], e, IsDead(dead));
        FilterSnoc(entries[..i], e, IsInside(dead, within));
        if e.node in dead {
          gone := gone + [e];
        } else if within(e.node).None? {
          assert e in reverse;
          return None;
        } else if within(e.node).value {
          inside := inside + [e];
        }
      }
      assert entries[..|entries|] == entries;
      assert forall e :: e in reverse ==> e in entries;
      return Some((gone, inside));
    }

    /** Every entry with its node; none when a node is gone. */
    method Snapshot() returns (snapshot: Option<RegistrySnapshot>)
      ensures var saved := DomNodeTable.Snapshot(View(), dead);
        snapshot == if saved.None? then None else Some(RegistrySnapshot(this, saved.value))
    {
      var entries := [];
      for i := 0 to |reverse|
        invariant entries == reverse[..i] && forall e :: e in entries ==> e.node !in dead
      {
        if reverse[i].node in dead { return None; }
        entries := entries + [reverse[i]];
      }
      assert reverse[..|reverse|] == reverse;
      return Some(RegistrySnapshot(this, Saved(documentEpoch, nextRef, nextSequence, entries)));
    }

    /**
     * Rebuild the three maps from a snapshot, entry by entry, and only then put them in place: a failure on the way
     * changes none of them. A change is counted before the maps are rebuilt and after they are replaced; when only the
     * second one is not possible, the answer is a failure although the maps are replaced.
     */
    method Restore(snapshot: RegistrySnapshot) returns (ok: bool)
      requires Valid()
      modifies this`forward, this`reverse, this`retained, this`nextRef, this`nextSequence, this`authorityRevision
      ensures snapshot.registry == this ==>
        (View(), ok) == DomNodeTable.Restore(old(View()), dead, maxReverseEntries, snapshot.saved)
      ensures snapshot.registry != this ==> !ok && View() == old(View())
      ensures !ok && (snapshot.registry != this || old(authorityRevision) != MAX_SAFE
                      || !Restorable(old(View()), dead, maxReverseEntries, snapshot.saved)) ==>
        forward == old(forward) && reverse == old(reverse) && retained == old(retained)
      ensures Indexed() && (Kept(View(), dead, maxReverseEntries) ==> Valid())
    {
      hide Kept, ForwardAgrees, RetainedAgrees, Distinct;
      var s := snapshot.saved;
      if snapshot.registry != this || s.epoch != documentEpoch || !(1 <= s.nextRef <= MAX_SAFE)
         || !(1 <= s.nextSequence <= MAX_SAFE) || |s.entries| > maxReverseEntries {
        return false;
      }
      ok := BumpRevision();
      if !ok { return; }
      var nextForward, nextRetained;
      ok, nextForward, nextRetained := Rebuild(s.entries);
      if !ok { return; }
      forward, reverse, retained := nextForward, s.entries, nextRetained;
      nextRef, nextSequence := Later(nextRef, s.nextRef), Later(nextSequence, s.nextSequence);
      ok := BumpRevision();
    }

    /** The maps of a list of entries, unless one of them cannot be restored or repeats another. */
    method Rebuild(entries: seq<Entry>) returns (ok: bool, nextForward: ForwardMap, nextRetained: map<nat, NodeId>)
      ensures ok <==> Distinct(entries) && forall e :: e in entries ==> Restores(e, documentEpoch, dead)
      ensures ok ==> ForwardAgrees(nextForward, entries, dead) && RetainedAgrees(nextRetained, entries)
    {
      hide ForwardAgrees, RetainedAgrees, Distinct;
      nextForward, nextRetained := map[], map[];
      var nextReverse := [];
      NothingAgrees(dead);
      for i := 0 to |entries|
        invariant nextReverse == entries[..i] && Distinct(nextReverse)
        invariant ForwardAgrees(nextForward, nextReverse, dead) && RetainedAgrees(nextRetained, nextReverse)
        invariant forall e :: e in nextReverse ==> Restores(e, documentEpoch, dead)
      {
        var e := entries[i];
        assert entries[..i + 1] == entries[..i] + [e];
        if !Restores(e, documentEpoch, dead) { return false, nextForward, nextRetained; }
        if FindRef(nextReverse, e.ref).Some? || ForwardRef(nextForward, e.node, e.scope).Some? {
          Repeats(nextForward, nextReverse, dead, e);
          assert entries == entries[..i] + [e] + entries[i + 1..];
          return false, nextForward, nextRetained;
        }
        AddsTo(nextForward, nextRetained, nextReverse, dead, e);
        nextForward := SetForward(nextForward, e.node, e.scope, e.ref);
        nextReverse := nextReverse + [e];
        if e.reasons != {} { nextRetained := nextRetained[e.ref := e.node]; }
      }
      assert entries[..|entries|] == entries;
      ok := true;
    }

    method ResetDocument(epoch: int) returns (ok: bool)
      requires Valid()
      modifies this
      ensures Valid() && dead == old(dead)
      ensures ok <==> DomNodeTable.ResetDocument(old(View()), epoch).Some?
      ensures View() == if ok then DomNodeTable.ResetDocument(old(View()), epoch).value else old(View())
    {
      if !IsSafe(epoch) || epoch <= documentEpoch { return false; }
      ok := BumpRevision();
      if !ok { return; }
      documentEpoch := epoch;
      forward, reverse, retained := map[], [], map[];
      return true;
    }
  }

  /** What `restore` asks of an entry by itself. */
  predicate Restores(e: Entry, epoch: nat, dead: set<NodeId>) {
    e.node !in dead && IsNodeRef(e.ref) && IsCurrentScope(epoch, e.scope) && 1 <= e.sequence <= MAX_SAFE
  }

  lemma NothingAgrees(dead: set<NodeId>)
    ensures ForwardAgrees(map[], [], dead) && RetainedAgrees(map[], []) && Distinct([])
  {
  }

  lemma Repeats(forward: ForwardMap, t: seq<Entry>, dead: set<NodeId>, e: Entry)
    requires ForwardAgrees(forward, t, dead)
    requires FindRef(t, e.ref).Some? || ForwardRef(forward, e.node, e.scope).Some?
    ensures !Distinct(t + [e])
    ensures forall more :: !Distinct(t + [e] + more)
  {
    var twin: Entry;
    if FindRef(t, e.ref).Some? {
      twin := FindRef(t, e.ref).value;
    } else {
      twin :| twin in t && twin.node == e.node && twin.scope == e.scope;
    }
    var i :| 0 <= i < |t| && t[i] == twin;
    assert (t + [e])[i] == twin && (t + [e])[|t|] == e;
    forall more ensures !Distinct(t + [e] + more) {
      assert (t + [e] + more)[i] == twin && (t + [e] + more)[|t|] == e;
    }
  }

  lemma AddsTo(forward: ForwardMap, retained: map<nat, NodeId>, t: seq<Entry>, dead: set<NodeId>, e: Entry)
    requires ForwardAgrees(forward, t, dead) && RetainedAgrees(retained, t) && Distinct(t) && e.node !in dead
    requires FindRef(t, e.ref).None? && ForwardRef(forward, e.node, e.scope).None?
    ensures Distinct(t + [e]) && ForwardAgrees(SetForward(forward, e.node, e.scope, e.ref), t + [e], dead)
    ensures RetainedAgrees(if e.reasons == {} then retained else retained[e.ref := e.node], t + [e])
  {
    forall x | x in t ensures x.node != e.node || x.scope != e.scope {
      if x.node == e.node { assert ForwardRef(forward, x.node, x.scope) == Some(x.ref); }
    }
    AppendDistinct(t, e);
    ForwardWith(forward, t, dead, e);
    hide ForwardAgrees, Distinct;
    if e.reasons == {} { RetainedAppended(retained, t, e); } else { RetainedRewritten(retained, t, t + [e], e); }
  }

  lemma TouchMembers(t: seq<Entry>, earlier: Entry, e: Entry)
    requires Distinct(t) && earlier in t && SameIssue(earlier, e)
    ensures SameIssues(t, Touch(t, e))
    ensures forall x: Entry :: x.ref != e.ref ==> (x in Touch(t, e) <==> x in t)
    ensures forall x: Entry :: x in Touch(t, e) && x.ref == e.ref ==> x == e
    ensures e in Touch(t, e) && (e == earlier ==> forall x :: x in Touch(t, e) <==> x in t)
  {
    hide Distinct, FindRef, Filter;
    forall x | x in t && x.ref == e.ref ensures x == earlier { FindDistinct(t, x); FindDistinct(t, earlier); }
    assert forall x :: x in Touch(t, e) <==> (x in t && x.ref != e.ref) || x == e;
    forall x | x in t ensures Older(Touch(t, e), x) {
      if x.ref == e.ref { assert SameIssue(e, x); } else { assert x in Touch(t, e) && SameIssue(x, x); }
    }
    forall x | x in Touch(t, e) ensures Older(t, x) {
      if x == e { assert SameIssue(earlier, x); } else { assert x in t && SameIssue(x, x); }
    }
  }

  lemma RewriteMembers(t: seq<Entry>, earlier: Entry, e: Entry)
    requires Distinct(t) && earlier in t && SameIssue(earlier, e)
    ensures SameIssues(t, Rewrite(t, e))
    ensures forall x: Entry :: x.ref != e.ref ==> (x in Rewrite(t, e) <==> x in t)
    ensures forall x: Entry :: x in Rewrite(t, e) && x.ref == e.ref ==> x == e
    ensures e in Rewrite(t, e)
  {
    forall i | 0 <= i < |t| ensures SameIssue(t[i], Rewrite(t, e)[i]) {
      if t[i].ref == e.ref { FindDistinct(t, t[i]); FindDistinct(t, earlier); }
    }
    PointwiseIssues(t, Rewrite(t, e));
    RewriteFinds(t, earlier, e);
  }

  lemma RewriteFinds(t: seq<Entry>, earlier: Entry, e: Entry)
    requires earlier in t && earlier.ref == e.ref
    ensures e in Rewrite(t, e)
    ensures forall x: Entry :: x in Rewrite(t, e) && x.ref == e.ref ==> x == e
    ensures forall x: Entry :: x.ref != e.ref ==> (x in Rewrite(t, e) <==> x in t)
  {
    hide Rewrite;
    var after := Rewrite(t, e);
    var k :| 0 <= k < |t| && t[k] == earlier;
    assert after[k] == e;
    forall x: Entry | x.ref != e.ref && x in t ensures x in after {
      var i :| 0 <= i < |t| && t[i] == x;
      assert after[i] == x;
    }
  }

  lemma PointwiseIssues(t: seq<Entry>, after: seq<Entry>)
    requires |t| == |after| && forall i :: 0 <= i < |t| ==> SameIssue(t[i], after[i])
    ensures SameIssues(t, after)
  {
    forall x | x in t ensures Older(after, x) {
      var i :| 0 <= i < |t| && t[i] == x;
      assert SameIssue(after[i], x);
    }
    forall x | x in after ensures Older(t, x) {
      var i :| 0 <= i < |after| && after[i] == x;
      assert SameIssue(t[i], x);
    }
  }

  lemma SubsetLacks(t: seq<Entry>, less: seq<Entry>, node: NodeId, scope: Scope)
    requires FindNode(t, node, scope).None? && forall e :: e in less ==> e in t
    ensures forall e :: e in less ==> e.node != node || e.scope != scope
  {
  }

  lemma AlreadyRetained(retained: map<nat, NodeId>, t: seq<Entry>, e: Entry)
    requires RetainedAgrees(retained, t) && e in t && e.reasons != {}
    ensures retained[e.ref := e.node] == retained
  {
  }

  lemma RetainedAppended(retained: map<nat, NodeId>, t: seq<Entry>, e: Entry)
    requires RetainedAgrees(retained, t) && e.reasons == {}
    ensures RetainedAgrees(retained, t + [e])
  {
    forall ref | ref in retained ensures HeldFor(t + [e], ref, retained[ref]) {
      var x :| x in t && x.ref == ref && x.node == retained[ref] && x.reasons != {};
      assert x in t + [e];
    }
  }

  lemma SizeBound(r: Registry, dead: set<NodeId>, cap: nat)
    requires Kept(r, dead, cap)
    ensures |r.entries| <= cap && Distinct(r.entries)
  {
  }

  lemma RetainedLive(r: Registry, dead: set<NodeId>, cap: nat, e: Entry)
    requires Kept(r, dead, cap) && e in r.entries && e.reasons != {}
    ensures e.node !in dead
  {
  }

  lemma FirstUnretained(t: seq<Entry>, i: nat)
    requires i <= |t| && (i < |t| ==> t[i].reasons == {}) && forall j :: 0 <= j < i ==> t[j].reasons != {}
    ensures Unretained(t) == i
  {
  }

  lemma FoundHere(t: seq<Entry>, e: Entry)
    requires Distinct(t) && e in t
    ensures FindRef(t, e.ref) == Some(e)
  {
    FindDistinct(t, e);
  }

  lemma RoomIs(r: Registry, dead: set<NodeId>, cap: nat)
    ensures var pruned := DomNodeTable.Prune(r, dead); var i := Unretained(pruned.entries);
      MakeRoom(r, dead, cap)
      == if |DeadRefs(r.entries, dead)| > Left(r) then (pruned, false)
         else if |pruned.entries| < cap then (pruned, true)
         else if i == |pruned.entries| || Spent(pruned) then (pruned, false)
         else (RemoveRef(pruned, pruned.entries[i].ref), true)
  {
  }

  /** A removal brings no entry back, and if it is possible its own is gone. */
  lemma GoneStays(r: Registry, ref: nat)
    ensures forall x :: FindRef(r.entries, x).None? ==> FindRef(RemoveRef(r, ref).entries, x).None?
    ensures FindRef(r.entries, ref).Some? && !Spent(r) ==> FindRef(RemoveRef(r, ref).entries, ref).None?
  {
    forall x | FindRef(r.entries, x).None? ensures FindRef(RemoveRef(r, ref).entries, x).None? {
      NotFound(RemoveRef(r, ref).entries, x);
    }
    if FindRef(r.entries, ref).Some? && !Spent(r) { NotFound(RemoveRef(r, ref).entries, ref); }
  }

  lemma RemovesNone(r: Registry)
    ensures RemoveRefs(r, []) == r
  {
  }

  lemma RemovesNext(r: Registry, refs: seq<nat>, ref: nat)
    ensures RemoveRefs(r, refs + [ref]) == RemoveRef(RemoveRefs(r, refs), ref)
  {
    assert (refs + [ref])[..|refs|] == refs;
  }

  /** Once the changes have run out no further reference is removed. */
  lemma {:induction false} SpentRemovesNothing(r: Registry, refs: seq<nat>, i: nat)
    requires i <= |refs| && Spent(RemoveRefs(r, refs[..i]))
    ensures RemoveRefs(r, refs) == RemoveRefs(r, refs[..i])
    decreases |refs|
  {
    if i == |refs| {
      assert refs[..i] == refs;
    } else {
      assert refs[..|refs| - 1][..i] == refs[..i];
      SpentRemovesNothing(r, refs[..|refs| - 1], i);
    }
  }

  lemma NoneDead(dead: set<NodeId>)
    ensures DeadRefs([], dead) == []
  {
  }

  lemma DeadNext(t: seq<Entry>, dead: set<NodeId>, i: nat)
    requires i < |t|
    ensures DeadRefs(t[..i + 1], dead) == if t[i].node in dead then DeadRefs(t[..i], dead) + [t[i].ref] else DeadRefs(t[..i], dead)
  {
    assert t[..i + 1] == t[..i] + [t[i]];
    FilterSnoc(t[..i], t[i], IsDead(dead));
  }

  /** Removing one entry leaves the ones after it. */
  lemma StaysAfter(t: seq<Entry>, before: seq<Entry>, i: nat)
    requires Distinct(before) && i < |before| && forall j :: i <= j < |before| ==> before[j] in t
    ensures forall j :: i < j < |before| ==> before[j] in DropRef(t, before[i].ref)
  {
  }

  lemma SpentStays(start: Registry, before: seq<Entry>, dead: set<NodeId>, i: nat)
    requires i < |before| && before[i].node in dead && Spent(RemoveRefs(start, DeadRefs(before[..i], dead)))
    requires start.revision + |DeadRefs(before[..i], dead)| > MAX_SAFE
    ensures RemoveRefs(start, DeadRefs(before, dead)) == RemoveRefs(start, DeadRefs(before[..i], dead))
    ensures |DeadRefs(before, dead)| > Left(start)
  {
    hide DeadRefs, RemoveRefs;
    DeadPrefix(before, dead, i);
    var refs := DeadRefs(before, dead);
    SpentRemovesNothing(start, refs, |DeadRefs(before[..i], dead)|);
  }

  lemma {:induction false} DeadPrefix(t: seq<Entry>, dead: set<NodeId>, i: nat)
    requires i <= |t|
    ensures var k := |DeadRefs(t[..i], dead)|; k <= |DeadRefs(t, dead)| && DeadRefs(t, dead)[..k] == DeadRefs(t[..i], dead)
    ensures i < |t| && t[i].node in dead ==> |DeadRefs(t[..i], dead)| < |DeadRefs(t, dead)|
    decreases |t|
  {
    hide DeadRefs;
    if i == |t| {
      assert t[..i] == t;
    } else {
      DeadNext(t, dead, |t| - 1);
      assert t[..|t|] == t && t[..|t| - 1][..i] == t[..i];
      DeadPrefix(t[..|t| - 1], dead, i);
    }
  }

  /** An invalidation completes exactly if there are enough changes left for all it removes. */
  lemma InvalidationCompletes(r: Registry, dead: set<NodeId>, cap: nat, within: NodeId -> Option<bool>)
    requires Kept(r, dead, cap)
    ensures var refs := InvalidationRefs(r.entries, dead, within); var after := RemoveRefs(r, refs);
      (forall ref :: ref in refs ==> FindRef(after.entries, ref).None?) <==> |refs| <= Left(r)
  {
    hide Kept, FindRef, Filter, RemoveRefs, BySequence;
    var refs := InvalidationRefs(r.entries, dead, within);
    SizeBound(r, dead, cap);
    TableDistinct(r, dead, cap);
    InvalidationOnce(r, dead, cap, within);
    RemovesFirst(r, refs);
    var k := AtMost(|refs|, Left(r));
    var after := RemoveRefs(r, refs);
    if |refs| <= Left(r) {
      assert refs[..k] == refs;
      forall ref | ref in refs ensures FindRef(after.entries, ref).None? { NotFound(after.entries, ref); }
    } else {
      assert refs[k] in refs;
      var e :| e in r.entries && e.ref == refs[k];
      assert refs[k] !in refs[..k];
      assert e in after.entries;
    }
  }

  lemma NotFound(t: seq<Entry>, ref: nat)
    requires forall e :: e in t ==> e.ref != ref
    ensures FindRef(t, ref).None?
  {
  }

  /** Rewriting an entry and then touching it is touching it as rewritten. */
  lemma TouchRewritten(t: seq<Entry>, e: Entry)
    ensures Touch(Rewrite(t, e), e) == Touch(t, e)
  {
    DropRewritten(t, e);
  }

  lemma {:induction false} DropRewritten(t: seq<Entry>, e: Entry)
    ensures DropRef(Rewrite(t, e), e.ref) == DropRef(t, e.ref)
  {
    if t == [] {
      assert Rewrite(t, e) == t;
    } else {
      hide Filter;
      var init, last := t[..|t| - 1], t[|t| - 1];
      var now := if last.ref == e.ref then e else last;
      assert t == init + [last] && Rewrite(t, e) == Rewrite(init, e) + [now];
      DropRefSnoc(init, last, e.ref);
      DropRefSnoc(Rewrite(init, e), now, e.ref);
      DropRewritten(init, e);
    }
  }

  lemma DropsAt(r: Registry, dead: set<NodeId>, cap: nat, i: nat)
    requires Kept(r, dead, cap) && i < |r.entries|
    ensures DropRef(r.entries, r.entries[i].ref) == r.entries[..i] + r.entries[i + 1..]
  {
    DropInPlace(r.entries, i);
  }

  lemma LivingLives(t: seq<Entry>, dead: set<NodeId>)
    ensures forall e :: e in Living(t, dead) ==> e.node !in dead && e in t
  {
  }
}
