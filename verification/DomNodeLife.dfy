/** What every run of the node registry keeps, with nodes dying in between, and what its snapshots bring back. */
module DomNodeLife {
  import opened Options
  import opened DomNodeTable

  // ---- One table ----

  lemma FilterSnoc(t: seq<Entry>, e: Entry, keep: Entry -> bool)
    ensures Filter(t + [e], keep) == Filter(t, keep) + if keep(e) then [e] else []
  {
    assert (t + [e])[..|t|] == t;
  }

  lemma {:induction false} FilterDistinct(t: seq<Entry>, keep: Entry -> bool)
    requires Distinct(t)
    ensures Distinct(Filter(t, keep))
  {
    if t != [] {
      var init, last := t[..|t| - 1], t[|t| - 1];
      FilterDistinct(init, keep);
      assert forall e :: e in init ==> e.ref != last.ref && (e.node != last.node || e.scope != last.scope);
      AppendDistinct(Filter(init, keep), last);
      assert t == init + [last];
      FilterSnoc(init, last, keep);
    }
  }

  lemma AppendDistinct(t: seq<Entry>, e: Entry)
    requires Distinct(t) && forall x :: x in t ==> x.ref != e.ref && (x.node != e.node || x.scope != e.scope)
    ensures Distinct(t + [e])
  {
  }

  lemma FilterNothing(keep: Entry -> bool)
    ensures Filter([], keep) == []
  {
  }

  lemma {:induction false} FilterAll(t: seq<Entry>, keep: Entry -> bool)
    requires forall e :: e in t ==> keep(e)
    ensures Filter(t, keep) == t
  {
    hide Filter;
    if t == [] {
      FilterNothing(keep);
    } else {
      var init, last := t[..|t| - 1], t[|t| - 1];
      assert t == init + [last];
      FilterAll(init, keep);
      FilterSnoc(init, last, keep);
    }
  }

  lemma DropRefSnoc(t: seq<Entry>, last: Entry, ref: nat)
    ensures DropRef(t + [last], ref) == DropRef(t, ref) + if last.ref == ref then [] else [last]
  {
    FilterSnoc(t, last, (e: Entry) => e.ref != ref);
  }

  lemma DropAbsent(t: seq<Entry>, ref: nat)
    requires forall e :: e in t ==> e.ref != ref
    ensures DropRef(t, ref) == t
  {
    FilterAll(t, (e: Entry) => e.ref != ref);
  }

  lemma {:induction false} FilterSame(t: seq<Entry>, p: Entry -> bool, q: Entry -> bool)
    requires forall e :: e in t ==> p(e) == q(e)
    ensures Filter(t, p) == Filter(t, q)
  {
    if t != [] { FilterSame(t[..|t| - 1], p, q); assert t[|t| - 1] in t; }
  }

  lemma {:induction false} FilterTwice(t: seq<Entry>, p: Entry -> bool, q: Entry -> bool)
    ensures Filter(Filter(t, p), q) == Filter(t, (e: Entry) => p(e) && q(e))
  {
    hide Filter;
    var both := (e: Entry) => p(e) && q(e);
    if t != [] {
      var init, last := t[..|t| - 1], t[|t| - 1];
      assert t == init + [last];
      FilterTwice(init, p, q);
      FilterSnoc(init, last, p);
      FilterSnoc(init, last, both);
      if p(last) { FilterSnoc(Filter(init, p), last, q); }
      assert Filter(init, p) + [] == Filter(init, p);
      assert Filter(init, both) + [] == Filter(init, both);
      assert Filter(Filter(init, p), q) + [] == Filter(Filter(init, p), q);
    }
  }

  /** Without the entries of some references. */
  ghost function WithoutRefs(t: seq<Entry>, refs: set<nat>): seq<Entry> {
    Filter(t, (e: Entry) => e.ref !in refs)
  }

  lemma WithoutOneMore(t: seq<Entry>, refs: set<nat>, ref: nat)
    ensures DropRef(WithoutRefs(t, refs), ref) == WithoutRefs(t, refs + {ref})
  {
    var p, q := (e: Entry) => e.ref !in refs, (e: Entry) => e.ref != ref;
    FilterTwice(t, p, q);
    FilterSame(t, (e: Entry) => p(e) && q(e), (e: Entry) => e.ref !in refs + {ref});
  }

  lemma WithoutNone(t: seq<Entry>)
    ensures WithoutRefs(t, {}) == t
  {
    var none: set<nat> := {};
    FilterAll(t, (e: Entry) => e.ref !in none);
  }

  ghost function Elements(s: seq<nat>): (r: set<nat>)
    ensures forall x :: x in r <==> x in s
  {
    set x | x in s
  }

  lemma ElementsSnoc(s: seq<nat>, i: nat)
    requires i < |s|
    ensures Elements(s[..i + 1]) == Elements(s[..i]) + {s[i]}
  {
    assert s[..i + 1] == s[..i] + [s[i]];
  }

  lemma SameEntry(t: seq<Entry>, e: Entry, f: Entry)
    requires Distinct(t) && e in t && f in t && (e.ref == f.ref || (e.node == f.node && e.scope == f.scope))
    ensures e == f
  {
    var i :| 0 <= i < |t| && t[i] == e;
    var j :| 0 <= j < |t| && t[j] == f;
    assert i == j;
  }

  lemma {:induction false} FindDistinct(t: seq<Entry>, e: Entry)
    requires Distinct(t) && e in t
    ensures FindRef(t, e.ref) == Some(e) && FindNode(t, e.node, e.scope) == Some(e)
  {
    SameEntry(t, e, FindRef(t, e.ref).value);
    SameEntry(t, e, FindNode(t, e.node, e.scope).value);
  }

  /** Among entries of one table, a reference is listed exactly when its entry is. */
  lemma RefIn(listed: seq<Entry>, t: seq<Entry>, e: Entry)
    requires Distinct(t) && e in t && forall x :: x in listed ==> x in t
    ensures e.ref in Refs(listed) <==> e in listed
  {
    if e in listed {
      var i :| 0 <= i < |listed| && listed[i] == e;
      assert Refs(listed)[i] == e.ref;
    }
    if e.ref in Refs(listed) {
      var i :| 0 <= i < |listed| && Refs(listed)[i] == e.ref;
      FindDistinct(t, listed[i]);
      FindDistinct(t, e);
    }
  }

  /** The registry's invariant. A retained node is alive, since the registry holds it; every new reference is a change. */
  ghost predicate EntryOk(e: Entry, epoch: int, nextRef: int) {
    1 <= e.ref < nextRef && e.ref <= MAX_SAFE && e.sequence == e.ref && IsNodeScope(e.scope) && e.scope.documentEpoch == epoch
  }

  ghost predicate TableOk(t: seq<Entry>, epoch: int, nextRef: int, cap: nat) {
    Distinct(t) && |t| <= cap && forall e :: e in t ==> EntryOk(e, epoch, nextRef)
  }

  ghost predicate Kept(r: Registry, dead: set<NodeId>, cap: nat) {
    && TableOk(r.entries, r.epoch, r.nextRef, cap)
    && 1 <= r.nextRef == r.nextSequence <= MAX_SAFE + 1
    && r.nextRef <= r.revision + 1 && r.revision <= MAX_SAFE + 1
    && forall e :: e in r.entries && e.reasons != {} ==> e.node !in dead
  }

  /** What an entry stands for, which no operation ever changes. */
  ghost predicate SameIssue(a: Entry, b: Entry) {
    a.ref == b.ref && a.node == b.node && a.scope == b.scope && a.sequence == b.sequence
  }

  ghost predicate Older(t: seq<Entry>, e: Entry) {
    exists x :: x in t && SameIssue(x, e)
  }

  /** A table of entries that were there before. */
  ghost predicate Shrinks(before: seq<Entry>, after: seq<Entry>) {
    forall e :: e in after ==> Older(before, e)
  }

  lemma SubsetShrinks(before: seq<Entry>, after: seq<Entry>)
    requires forall e :: e in after ==> e in before
    ensures Shrinks(before, after)
  {
    forall e | e in after ensures Older(before, e) { assert SameIssue(e, e); }
  }

  lemma FilterKept(r: Registry, dead: set<NodeId>, cap: nat, keep: Entry -> bool)
    requires Kept(r, dead, cap)
    ensures Kept(r.(entries := Filter(r.entries, keep)), dead, cap) && Shrinks(r.entries, Filter(r.entries, keep))
  {
    FilterDistinct(r.entries, keep);
    SubsetShrinks(r.entries, Filter(r.entries, keep));
  }

  lemma TouchKept(r: Registry, dead: set<NodeId>, cap: nat, earlier: Entry, e: Entry)
    requires Kept(r, dead, cap) && earlier in r.entries && SameIssue(earlier, e)
    requires e.reasons != {} ==> e.node !in dead
    ensures Kept(r.(entries := Touch(r.entries, e)), dead, cap) && Shrinks(r.entries, Touch(r.entries, e))
  {
    var keep := (x: Entry) => x.ref != e.ref;
    FilterKept(r, dead, cap, keep);
    var rest := DropRef(r.entries, e.ref);
    FindDistinct(r.entries, earlier);
    forall x | x in rest ensures x.ref != e.ref && (x.node != e.node || x.scope != e.scope) {
      FindDistinct(r.entries, x);
    }
    AppendDistinct(rest, e);
    DropShortens(r.entries, earlier);
    forall x | x in Touch(r.entries, e) ensures Older(r.entries, x) {
      if x in rest { assert Older(r.entries, x); } else { assert x == e && SameIssue(earlier, e); }
    }
  }

  lemma {:induction false} DropShortens(t: seq<Entry>, e: Entry)
    requires e in t
    ensures |DropRef(t, e.ref)| < |t|
  {
    var init, last := t[..|t| - 1], t[|t| - 1];
    assert t == init + [last];
    if last.ref != e.ref { DropShortens(init, e); }
  }

  lemma RewriteKept(r: Registry, dead: set<NodeId>, cap: nat, earlier: Entry, e: Entry)
    requires Kept(r, dead, cap) && earlier in r.entries && SameIssue(earlier, e) && (e.reasons != {} ==> e.node !in dead)
    ensures Kept(r.(entries := Rewrite(r.entries, e)), dead, cap) && Shrinks(r.entries, Rewrite(r.entries, e))
  {
    var after := Rewrite(r.entries, e);
    forall i | 0 <= i < |after| ensures SameIssue(r.entries[i], after[i]) && (after[i].reasons != {} ==> after[i].node !in dead) {
      if r.entries[i].ref == e.ref { FindDistinct(r.entries, r.entries[i]); FindDistinct(r.entries, earlier); }
    }
  }

  // ---- One operation ----

  /** Entries only leave. */
  ghost predicate Shrunk(r: Registry, after: Registry) {
    r.epoch <= after.epoch && after.nextRef == r.nextRef && r.revision <= after.revision && Shrinks(r.entries, after.entries)
  }

  /** Entries only leave, except one new entry for the node under the next reference. */
  ghost predicate Grown(r: Registry, after: Registry, node: NodeId, scope: Scope) {
    && r.epoch == after.epoch && after.nextRef == r.nextRef + 1 && r.revision < after.revision
    && forall e :: e in after.entries ==> e in r.entries || e == Entry(r.nextRef, node, scope, r.nextSequence, {})
  }

  /** A change that is possible is counted. */
  lemma BumpKept(r: Registry, dead: set<NodeId>, cap: nat)
    requires Kept(r, dead, cap) && !Spent(r)
    ensures Kept(Bumped(r), dead, cap)
  {
  }

  lemma RemoveRefKept(r: Registry, dead: set<NodeId>, cap: nat, ref: nat)
    requires Kept(r, dead, cap)
    ensures Kept(RemoveRef(r, ref), dead, cap) && Shrunk(r, RemoveRef(r, ref)) && RemoveRef(r, ref).epoch == r.epoch
    ensures forall e :: e in RemoveRef(r, ref).entries ==> e in r.entries
  {
    hide Kept, Filter, FindRef;
    SubsetShrinks(r.entries, r.entries);
    FilterKept(r, dead, cap, (e: Entry) => e.ref != ref);
    assert forall e :: e in DropRef(r.entries, ref) ==> e in r.entries;
    if !Spent(r) { BumpKept(r.(entries := DropRef(r.entries, ref)), dead, cap); }
  }

  lemma ShrunkTwice(a: Registry, b: Registry, c: Registry)
    requires Shrunk(a, b) && Shrunk(b, c)
    ensures Shrunk(a, c)
  {
    forall e | e in c.entries ensures Older(a.entries, e) {
      var x :| x in b.entries && SameIssue(x, e);
      var y :| y in a.entries && SameIssue(y, x);
      assert SameIssue(y, e);
    }
  }

  lemma {:induction false} RemoveRefsKept(r: Registry, dead: set<NodeId>, cap: nat, refs: seq<nat>)
    requires Kept(r, dead, cap)
    ensures Kept(RemoveRefs(r, refs), dead, cap) && Shrunk(r, RemoveRefs(r, refs)) && RemoveRefs(r, refs).epoch == r.epoch
    ensures forall e :: e in RemoveRefs(r, refs).entries ==> e in r.entries
  {
    hide Kept, RemoveRef, Shrunk;
    if refs == [] {
      SameShrunk(r);
    } else {
      var init := refs[..|refs| - 1];
      RemoveRefsKept(r, dead, cap, init);
      RemoveRefKept(RemoveRefs(r, init), dead, cap, refs[|refs| - 1]);
      ShrunkTwice(r, RemoveRefs(r, init), RemoveRefs(r, refs));
    }
  }

  ghost predicate Once(refs: seq<nat>) {
    forall i, j :: 0 <= i < j < |refs| ==> refs[i] != refs[j]
  }

  ghost predicate Listed(t: seq<Entry>, refs: seq<nat>) {
    forall ref :: ref in refs ==> exists e :: e in t && e.ref == ref
  }

  function AtMost(n: nat, bound: nat): nat {
    if n <= bound then n else bound
  }

  /** Of some entries to remove the first ones go, as many as changes are possible. */
  lemma {:induction false} RemovesFirst(r: Registry, refs: seq<nat>)
    requires Once(refs) && Listed(r.entries, refs) && r.revision <= MAX_SAFE + 1
    ensures var k := AtMost(|refs|, Left(r)); var after := RemoveRefs(r, refs);
      && after.entries == WithoutRefs(r.entries, Elements(refs[..k])) && after.revision == r.revision + k
      && after.epoch == r.epoch && after.nextRef == r.nextRef && after.nextSequence == r.nextSequence
  {
    hide WithoutRefs, DropRef, FindRef;
    if refs == [] {
      assert Elements(refs[..0]) == {};
      WithoutNone(r.entries);
    } else {
      var init, last := refs[..|refs| - 1], refs[|refs| - 1];
      assert Listed(r.entries, init) by { assert forall ref :: ref in init ==> ref in refs; }
      RemovesFirst(r, init);
      var before := RemoveRefs(r, init);
      if |refs| <= Left(r) {
        assert init[..|init|] == init && refs[..|refs|] == refs;
        WithoutOneMore(r.entries, Elements(init), last);
        assert Elements(refs) == Elements(init) + {last};
        StillListed(r.entries, init, last);
      } else {
        assert init[..Left(r)] == refs[..Left(r)];
      }
    }
  }

  lemma StillListed(t: seq<Entry>, refs: seq<nat>, ref: nat)
    requires ref !in refs && exists e :: e in t && e.ref == ref
    ensures FindRef(WithoutRefs(t, Elements(refs)), ref).Some?
  {
    hide FindRef;
    var e :| e in t && e.ref == ref;
    assert e in WithoutRefs(t, Elements(refs));
  }

  lemma {:induction false} RefsOnce(t: seq<Entry>, keep: Entry -> bool)
    requires Distinct(t)
    ensures Once(Refs(Filter(t, keep))) && Listed(t, Refs(Filter(t, keep)))
  {
    FilterDistinct(t, keep);
    var some := Filter(t, keep);
    forall ref | ref in Refs(some) ensures exists e :: e in t && e.ref == ref {
      var i :| 0 <= i < |some| && Refs(some)[i] == ref;
      assert some[i] in some;
    }
  }

  lemma {:induction false} DeadAndLiving(t: seq<Entry>, dead: set<NodeId>)
    ensures |DeadRefs(t, dead)| + |Living(t, dead)| == |t|
  {
    if t != [] {
      var init, last := t[..|t| - 1], t[|t| - 1];
      assert t == init + [last];
      DeadAndLiving(init, dead);
      hide Filter;
      FilterSnoc(init, last, IsDead(dead));
      FilterSnoc(init, last, (e: Entry) => e.node !in dead);
    }
  }

  lemma WithoutDead(t: seq<Entry>, dead: set<NodeId>)
    requires Distinct(t)
    ensures WithoutRefs(t, Elements(DeadRefs(t, dead))) == Living(t, dead)
  {
    hide Filter;
    var gone := Elements(DeadRefs(t, dead));
    forall e | e in t ensures e.ref !in gone <==> e.node !in dead { RefIn(Filter(t, IsDead(dead)), t, e); }
    FilterSame(t, (e: Entry) => e.ref !in gone, (e: Entry) => e.node !in dead);
  }

  /** Pruning takes all the dead if that many changes are possible, and none but the dead in any case. */
  lemma PruneTakes(r: Registry, dead: set<NodeId>, cap: nat)
    requires Kept(r, dead, cap)
    ensures var after := Prune(r, dead); var gone := |DeadRefs(r.entries, dead)|;
      && Kept(after, dead, cap) && Shrunk(r, after) && after.epoch == r.epoch && after.nextSequence == r.nextSequence
      && (forall e :: e in after.entries ==> e in r.entries)
      && (forall e :: e in r.entries && e !in after.entries ==> e.node in dead)
      && gone + |Living(r.entries, dead)| == |r.entries|
      && (gone <= Left(r) ==> after.entries == Living(r.entries, dead) && after.revision == r.revision + gone)
      && (gone > Left(r) ==> Spent(after))
  {
    hide Filter, RemoveRefs, WithoutRefs, Living;
    var refs := DeadRefs(r.entries, dead);
    RemoveRefsKept(r, dead, cap, refs);
    TableDistinct(r, dead, cap);
    RefsOnce(r.entries, IsDead(dead));
    RemovesFirst(r, refs);
    DeadAndLiving(r.entries, dead);
    WithoutDead(r.entries, dead);
    assert refs[..|refs|] == refs;
    OnlyTheDead(r.entries, dead, AtMost(|refs|, Left(r)));
  }

  lemma TableDistinct(r: Registry, dead: set<NodeId>, cap: nat)
    requires Kept(r, dead, cap)
    ensures Distinct(r.entries) && |r.entries| <= cap && r.revision <= MAX_SAFE + 1
  {
  }

  lemma OnlyTheDead(t: seq<Entry>, dead: set<NodeId>, k: nat)
    requires Distinct(t) && k <= |DeadRefs(t, dead)|
    ensures forall e :: e in t && e !in WithoutRefs(t, Elements(DeadRefs(t, dead)[..k])) ==> e.node in dead
  {
    hide Filter;
    var refs := DeadRefs(t, dead);
    forall e | e in t && e !in WithoutRefs(t, Elements(refs[..k])) ensures e.node in dead {
      assert e.ref in refs[..k] && e.ref in refs;
      RefIn(Filter(t, IsDead(dead)), t, e);
    }
  }

  /** The least recently used entry that nothing retains. */
  ghost predicate LeastUnretained(t: seq<Entry>, e: Entry) {
    exists i :: 0 <= i < |t| && t[i] == e && e.reasons == {} && forall j :: 0 <= j < i ==> t[j].reasons != {}
  }

  /**
   * Making room removes dead entries and, only when the living ones fill the registry, the least recently used one that
   * nothing retains. It fails exactly when every living entry of a full registry is retained or the changes run out.
   */
  lemma RoomMade(r: Registry, dead: set<NodeId>, cap: nat) returns (victim: Option<Entry>)
    requires Kept(r, dead, cap) && cap > 0
    ensures var (after, ok) := MakeRoom(r, dead, cap); var living := Living(r.entries, dead);
      var gone := |r.entries| - |living|; var full := |living| >= cap;
      && Kept(after, dead, cap) && Shrunk(r, after) && after.epoch == r.epoch && after.nextSequence == r.nextSequence
      && (ok <==> !(full && forall e :: e in living ==> e.reasons != {}) && Left(r) >= gone + if full then 1 else 0)
      && (victim.Some? ==> full && LeastUnretained(living, victim.value))
      && (forall e :: e in after.entries ==> e in r.entries)
      && (forall e :: e in r.entries && e !in after.entries ==> e.node in dead || Some(e) == victim)
      && (ok ==> |after.entries| < cap && Left(after) == Left(r) - gone - (if full then 1 else 0) && (victim.Some? <==> full)
                 && forall e :: e in after.entries <==> e in living && Some(e) != victim)
      && (!ok && Left(r) >= gone ==> after.entries == living)
  {
    hide Kept, Filter, Prune, Living, DropRef, FindRef, Shrunk, LeastUnretained, Distinct, DeadRefs;
    PruneTakes(r, dead, cap);
    ShrunkRises(r, Prune(r, dead));
    TableDistinct(r, dead, cap);
    victim := None;
    var pruned := Prune(r, dead);
    TableDistinct(pruned, dead, cap);
    var i := Unretained(pruned.entries);
    if |DeadRefs(r.entries, dead)| <= Left(r) && |pruned.entries| >= cap && i < |pruned.entries| {
      victim := Evicts(pruned, dead, cap);
      ShrunkTwice(r, pruned, RemoveRef(pruned, pruned.entries[i].ref));
    } else if |DeadRefs(r.entries, dead)| <= Left(r) && |pruned.entries| >= cap {
      assert forall e :: e in pruned.entries ==> e.reasons != {};
    }
  }

  lemma ShrunkRises(r: Registry, after: Registry)
    requires Shrunk(r, after)
    ensures r.revision <= after.revision && r.nextRef == after.nextRef
  {
  }

  /** One eviction from a full table, if a change is possible. */
  lemma Evicts(r: Registry, dead: set<NodeId>, cap: nat) returns (victim: Option<Entry>)
    requires Kept(r, dead, cap) && cap > 0 && |r.entries| >= cap && Unretained(r.entries) < |r.entries|
    ensures var e := r.entries[Unretained(r.entries)]; var after := RemoveRef(r, e.ref);
      && victim == Some(e) && LeastUnretained(r.entries, e) && e.reasons == {} && e in r.entries
      && Kept(after, dead, cap) && Shrunk(r, after) && after.epoch == r.epoch && after.nextSequence == r.nextSequence
      && (Spent(r) ==> after == r)
      && (!Spent(r) ==> |after.entries| < cap && after.revision == r.revision + 1
                        && forall x :: x in after.entries <==> x in r.entries && Some(x) != victim)
  {
    hide Kept, Filter, DropRef, Shrunk, FindRef, Distinct;
    var i := Unretained(r.entries);
    var e := r.entries[i];
    victim := Some(e);
    TableDistinct(r, dead, cap);
    RemoveRefKept(r, dead, cap, e.ref);
    DropShortens(r.entries, e);
    assert e in r.entries;
    FindDistinct(r.entries, e);
    DropsOnly(r.entries, e);
  }

  lemma DropsOnly(t: seq<Entry>, e: Entry)
    requires Distinct(t) && e in t
    ensures forall x :: x in DropRef(t, e.ref) <==> x in t && x != e
  {
    hide Filter, Distinct;
    forall x | x in t && x.ref == e.ref ensures x == e { SameEntry(t, x, e); }
    assert forall x :: x in DropRef(t, e.ref) <==> x in t && x.ref != e.ref;
  }

  lemma IssuedKept(r: Registry, dead: set<NodeId>, cap: nat, node: NodeId, scope: Scope)
    requires Kept(r, dead, cap) && |r.entries| < cap && IsCurrentScope(r.epoch, scope) && r.nextRef <= MAX_SAFE && !Spent(r)
    requires forall e :: e in r.entries ==> e.node != node || e.scope != scope
    ensures Kept(Issued(r, node, scope), dead, cap)
      && Distinct(Issued(r, node, scope).entries) && forall x :: x in r.entries ==> x.ref != r.nextRef
  {
    hide Distinct;
    AppendDistinct(r.entries, Entry(r.nextRef, node, scope, r.nextSequence, {}));
  }

  lemma CreationKept(r: Registry, dead: set<NodeId>, cap: nat, node: NodeId, scope: Scope)
    requires Kept(r, dead, cap) && cap > 0 && IsCurrentScope(r.epoch, scope) && r.nextRef <= MAX_SAFE
    requires FindNode(r.entries, node, scope).None?
    ensures var after := Reference(r, dead, cap, node, scope).0;
      Kept(after, dead, cap) && (Shrunk(r, after) || Grown(r, after, node, scope))
  {
    hide Distinct, FindNode, Filter, MakeRoom, Kept, Shrinks;
    var victim := RoomMade(r, dead, cap);
    var (roomy, ok) := MakeRoom(r, dead, cap);
    assert forall e :: e in r.entries ==> e.node != node || e.scope != scope;
    if ok && !Spent(roomy) { IssuedKept(roomy, dead, cap, node, scope); }
  }

  lemma ReferenceKept(r: Registry, dead: set<NodeId>, cap: nat, node: NodeId, scope: Scope)
    requires Kept(r, dead, cap) && cap > 0
    ensures var after := Reference(r, dead, cap, node, scope).0;
      Kept(after, dead, cap) && (Shrunk(r, after) || Grown(r, after, node, scope))
  {
    hide Kept, MakeRoom, Shrinks;
    SameShrunk(r);
    var existing := FindNode(r.entries, node, scope);
    if existing.Some? {
      TouchedKept(r, dead, cap, existing.value);
    } else if IsCurrentScope(r.epoch, scope) && r.nextRef <= MAX_SAFE {
      CreationKept(r, dead, cap, node, scope);
    }
  }

  /** Touching an entry as it is. */
  lemma TouchedKept(r: Registry, dead: set<NodeId>, cap: nat, e: Entry)
    requires Kept(r, dead, cap) && e in r.entries
    ensures var after := Bumped(r.(entries := Touch(r.entries, e))); !Spent(r) ==> Kept(after, dead, cap) && Shrunk(r, after)
  {
    TouchKept(r, dead, cap, e, e);
    if !Spent(r) { BumpKept(r.(entries := Touch(r.entries, e)), dead, cap); }
  }

  lemma ResolveKept(r: Registry, dead: set<NodeId>, cap: nat, ref: nat, scope: Scope)
    requires Kept(r, dead, cap)
    ensures var after := Resolve(r, dead, ref, scope).0; Kept(after, dead, cap) && Shrunk(r, after)
  {
    hide Kept, Shrinks, RemoveRef;
    SameShrunk(r);
    RemoveRefKept(r, dead, cap, ref);
    var found := FindRef(r.entries, ref);
    if found.Some? { TouchedKept(r, dead, cap, found.value); }
  }

  lemma RetainKept(r: Registry, dead: set<NodeId>, cap: nat, ref: nat, reason: Reason)
    requires Kept(r, dead, cap)
    ensures var after := Retain(r, dead, ref, reason).0; Kept(after, dead, cap) && Shrunk(r, after)
  {
    hide Kept, Shrinks, RemoveRef, Touch, Rewrite;
    SameShrunk(r);
    RemoveRefKept(r, dead, cap, ref);
    var found := FindRef(r.entries, ref);
    if found.Some? && found.value.node !in dead && !Spent(r) {
      var next := found.value.(reasons := found.value.reasons + {reason});
      TouchKept(r, dead, cap, found.value, next);
      RewriteKept(r, dead, cap, found.value, next);
      BumpKept(r.(entries := Rewrite(r.entries, next)), dead, cap);
      BumpKept(r.(entries := Touch(r.entries, next)), dead, cap);
      if !Spent(Bumped(r)) { BumpKept(Bumped(r.(entries := Touch(r.entries, next))), dead, cap); }
    }
  }

  lemma ReleaseKept(r: Registry, dead: set<NodeId>, cap: nat, ref: nat, reason: Reason)
    requires Kept(r, dead, cap)
    ensures var after := Release(r, ref, reason); Kept(after, dead, cap) && Shrunk(r, after)
  {
    hide Kept, Shrinks, Rewrite;
    SameShrunk(r);
    var found := FindRef(r.entries, ref);
    if found.Some? && !Spent(r) {
      var next := found.value.(reasons := found.value.reasons - {reason});
      if found.value.reasons != {} { RetainedAlive(r, dead, cap, found.value); }
      RewriteKept(r, dead, cap, found.value, next);
      BumpKept(r.(entries := Rewrite(r.entries, next)), dead, cap);
    }
  }

  lemma RetainedAlive(r: Registry, dead: set<NodeId>, cap: nat, e: Entry)
    requires Kept(r, dead, cap) && e in r.entries && e.reasons != {}
    ensures e.node !in dead
  {
  }

  lemma InvalidateKept(r: Registry, dead: set<NodeId>, cap: nat, within: NodeId -> Option<bool>)
    requires Kept(r, dead, cap)
    ensures var after := Invalidate(r, dead, within); Kept(after, dead, cap) && Shrunk(r, after)
  {
    hide Kept, Shrinks, RemoveRefs;
    SameShrunk(r);
    RemoveRefsKept(r, dead, cap, InvalidationRefs(r.entries, dead, within));
  }

  // ---- The registry among dying nodes and held snapshots ----

  /** `issued` remembers what every reference was given out for. */
  datatype World = World(reg: Registry, dead: set<NodeId>, held: set<Saved>, issued: map<nat, (NodeId, Scope)>)

  datatype Op =
    | OReference(node: NodeId, scope: Scope)
    | OResolve(ref: nat, scope: Scope)
    | ORetain(ref: nat, reason: Reason)
    | ORelease(ref: nat, reason: Reason)
    | OInvalidate(inside: set<NodeId>, unreadable: set<NodeId>)
    | OPrune
    | OReset(epoch: int)
    | OSnapshot
    | ORestore(saved: Saved)
    | OForget(saved: Saved)
    | OCollect(nodes: set<NodeId>)

  /** The nodes that cannot be collected: the retained ones and those a snapshot holds. */
  ghost function Strong(w: World): set<NodeId> {
    (set e | e in w.reg.entries && e.reasons != {} :: e.node) + (set s, e | s in w.held && e in s.entries :: e.node)
  }

  function Relation(inside: set<NodeId>, unreadable: set<NodeId>): NodeId -> Option<bool> {
    n => if n in inside then Some(true) else if n in unreadable then None else Some(false)
  }

  ghost function Issuing(w: World, node: NodeId, scope: Scope, after: Registry): World {
    w.(reg := after, issued := if after.nextRef > w.reg.nextRef then w.issued[w.reg.nextRef := (node, scope)] else w.issued)
  }

  /** A caller that names a node holds it, so a collected node is never named; only a held snapshot can be restored. */
  ghost function Step(w: World, cap: nat, op: Op): World {
    match op
    case OReference(node, scope) =>
      if node in w.dead then w else Issuing(w, node, scope, Reference(w.reg, w.dead, cap, node, scope).0)
    case OResolve(ref, scope) => w.(reg := Resolve(w.reg, w.dead, ref, scope).0)
    case ORetain(ref, reason) => w.(reg := Retain(w.reg, w.dead, ref, reason).0)
    case ORelease(ref, reason) => w.(reg := Release(w.reg, ref, reason))
    case OInvalidate(inside, unreadable) => w.(reg := Invalidate(w.reg, w.dead, Relation(inside, unreadable)))
    case OPrune => w.(reg := Prune(w.reg, w.dead))
    case OReset(epoch) =>
      var next := ResetDocument(w.reg, epoch);
      if next.None? then w else w.(reg := next.value)
    case OSnapshot =>
      var s := Snapshot(w.reg, w.dead);
      if s.None? then w else w.(held := w.held + {s.value})
    case ORestore(s) => if s in w.held then w.(reg := Restore(w.reg, w.dead, cap, s).0) else w
    case OForget(s) => w.(held := w.held - {s})
    case OCollect(nodes) => w.(dead := w.dead + (nodes - Strong(w)))
  }

  ghost function Run(w: World, cap: nat, ops: seq<Op>): World {
    if ops == [] then w else Step(Run(w, cap, ops[..|ops| - 1]), cap, ops[|ops| - 1])
  }

  ghost predicate HeldOk(s: Saved, w: World, cap: nat) {
    && TableOk(s.entries, s.epoch, s.nextRef, cap)
    && 1 <= s.nextRef == s.nextSequence <= MAX_SAFE + 1 && s.nextRef <= w.reg.nextRef
    && forall e :: e in s.entries ==> e.node !in w.dead
  }

  ghost predicate IssuedAs(issued: map<nat, (NodeId, Scope)>, t: seq<Entry>) {
    forall e :: e in t ==> e.ref in issued && issued[e.ref] == (e.node, e.scope)
  }

  ghost predicate WorldKept(w: World, cap: nat) {
    && Kept(w.reg, w.dead, cap)
    && (forall s :: s in w.held ==> HeldOk(s, w, cap) && IssuedAs(w.issued, s.entries))
    && IssuedAs(w.issued, w.reg.entries)
    && (forall k :: k in w.issued ==> k < w.reg.nextRef)
  }

  function StartAt(epoch: nat): World {
    World(Registry(epoch, 1, 1, 0, []), {}, {}, map[])
  }

  lemma StartKept(epoch: nat, cap: nat)
    ensures WorldKept(StartAt(epoch), cap)
  {
  }

  /** A restored snapshot is a table like any other. */
  lemma RestoreKept(w: World, cap: nat, s: Saved)
    requires WorldKept(w, cap) && s in w.held
    ensures var after := Restore(w.reg, w.dead, cap, s).0;
      && Kept(after, w.dead, cap) && after.nextRef == w.reg.nextRef && after.epoch == w.reg.epoch
      && w.reg.revision <= after.revision && (after.entries == w.reg.entries || after.entries == s.entries)
  {
    assert HeldOk(s, w, cap);
  }

  /** An operation on the table, as against one on the snapshots or on the nodes. */
  predicate IsTableOp(op: Op) {
    !op.ORestore? && !op.OCollect? && !op.OSnapshot? && !op.OForget?
  }

  lemma TableStep(w: World, cap: nat, op: Op)
    requires WorldKept(w, cap) && cap > 0 && IsTableOp(op)
    ensures var after := Step(w, cap, op);
      && Kept(after.reg, w.dead, cap) && after.dead == w.dead && after.held == w.held
      && (Shrunk(w.reg, after.reg) || (op.OReference? && Grown(w.reg, after.reg, op.node, op.scope)))
  {
    hide Kept, Shrunk, Grown, Reference, Resolve, Retain, Release, Invalidate, Living, Filter;
    SameShrunk(w.reg);
    match op
    case OReference(node, scope) => ReferenceKept(w.reg, w.dead, cap, node, scope);
    case OResolve(ref, scope) => ResolveKept(w.reg, w.dead, cap, ref, scope);
    case ORetain(ref, reason) => RetainKept(w.reg, w.dead, cap, ref, reason);
    case ORelease(ref, reason) => ReleaseKept(w.reg, w.dead, cap, ref, reason);
    case OInvalidate(inside, unreadable) => InvalidateKept(w.reg, w.dead, cap, Relation(inside, unreadable));
    case OPrune => PruneKept(w.reg, w.dead, cap);
    case OReset(epoch) => if ResetDocument(w.reg, epoch).Some? { ResetKept(w.reg, w.dead, cap, epoch); }
  }

  lemma SameShrunk(r: Registry)
    ensures Shrunk(r, r)
  {
    SubsetShrinks(r.entries, r.entries);
  }

  lemma PruneKept(r: Registry, dead: set<NodeId>, cap: nat)
    requires Kept(r, dead, cap)
    ensures Kept(Prune(r, dead), dead, cap) && Shrunk(r, Prune(r, dead))
  {
    RemoveRefsKept(r, dead, cap, DeadRefs(r.entries, dead));
  }

  lemma ResetKept(r: Registry, dead: set<NodeId>, cap: nat, epoch: int)
    requires Kept(r, dead, cap) && ResetDocument(r, epoch).Some?
    ensures Kept(ResetDocument(r, epoch).value, dead, cap) && Shrunk(r, ResetDocument(r, epoch).value)
  {
  }

  lemma OlderIssued(w: World, t: seq<Entry>, e: Entry)
    requires IssuedAs(w.issued, t) && Older(t, e)
    ensures e.ref in w.issued && w.issued[e.ref] == (e.node, e.scope)
  {
  }

  /** One step keeps the world: its table, its snapshots, and what every reference stands for. */
  lemma StepKeeps(w: World, cap: nat, op: Op)
    requires WorldKept(w, cap) && cap > 0
    ensures var after := Step(w, cap, op);
      && WorldKept(after, cap) && w.reg.nextRef <= after.reg.nextRef && w.reg.epoch <= after.reg.epoch
      && w.reg.revision <= after.reg.revision
      && forall k :: k in w.issued ==> k in after.issued && after.issued[k] == w.issued[k]
  {
    hide Reference, Resolve, Retain, Release, Invalidate, Prune, ResetDocument, Distinct, Filter;
    var after := Step(w, cap, op);
    match op
    case ORestore(s) =>
      if s in w.held { RestoreKept(w, cap, s); }
    case OCollect(_) =>
    case OSnapshot =>
    case OForget(_) =>
    case _ =>
      TableStep(w, cap, op);
      IssuesFollow(w, cap, op);
  }

  lemma IssuesFollow(w: World, cap: nat, op: Op)
    requires WorldKept(w, cap) && IsTableOp(op)
    requires var after := Step(w, cap, op);
      && after.dead == w.dead && after.held == w.held && Kept(after.reg, w.dead, cap)
      && (Shrunk(w.reg, after.reg) || (op.OReference? && Grown(w.reg, after.reg, op.node, op.scope)))
    ensures var after := Step(w, cap, op);
      && WorldKept(after, cap) && w.reg.nextRef <= after.reg.nextRef && w.reg.epoch <= after.reg.epoch
      && w.reg.revision <= after.reg.revision
      && forall k :: k in w.issued ==> k in after.issued && after.issued[k] == w.issued[k]
  {
    hide Reference, Resolve, Retain, Release, Invalidate, Prune, ResetDocument, Distinct, Filter, Kept;
    var after := Step(w, cap, op);
    assert after.issued == if after.reg.nextRef > w.reg.nextRef then w.issued[w.reg.nextRef := (op.node, op.scope)] else w.issued;
    forall e | e in after.reg.entries ensures e.ref in after.issued && after.issued[e.ref] == (e.node, e.scope) {
      if Older(w.reg.entries, e) { OlderIssued(w, w.reg.entries, e); }
    }
    forall s | s in w.held ensures HeldOk(s, after, cap) && IssuedAs(after.issued, s.entries) {
      assert HeldOk(s, w, cap) && IssuedAs(w.issued, s.entries);
    }
  }

  // ---- Over whole runs ----

  /** Every run keeps the world, never takes back a reference number and never changes what a reference stands for. */
  lemma {:induction false} RunKeeps(w: World, cap: nat, ops: seq<Op>)
    requires WorldKept(w, cap) && cap > 0
    ensures var end := Run(w, cap, ops);
      && WorldKept(end, cap) && w.reg.nextRef <= end.reg.nextRef && w.reg.epoch <= end.reg.epoch
      && w.reg.revision <= end.reg.revision
      && forall k :: k in w.issued ==> k in end.issued && end.issued[k] == w.issued[k]
  {
    hide WorldKept, Step;
    if ops != [] {
      RunKeeps(w, cap, ops[..|ops| - 1]);
      StepKeeps(Run(w, cap, ops[..|ops| - 1]), cap, ops[|ops| - 1]);
    }
  }

  /**
   * Whatever happens in between (evictions, collections, resets, restored snapshots), a reference that is found again
   * stands for the same node in the same scope.
   */
  lemma RefsNameOneNode(w: World, cap: nat, ops: seq<Op>, e: Entry, f: Entry)
    requires WorldKept(w, cap) && cap > 0
    requires e in w.reg.entries && f in Run(w, cap, ops).reg.entries && e.ref == f.ref
    ensures e.node == f.node && e.scope == f.scope && e.sequence == f.sequence
  {
    RunKeeps(w, cap, ops);
    assert EntryOk(e, w.reg.epoch, w.reg.nextRef);
  }

  /** A reference in no table: neither the registry's nor that of a held snapshot. */
  ghost predicate Gone(w: World, ref: nat) {
    && ref < w.reg.nextRef && (forall e :: e in w.reg.entries ==> e.ref != ref)
    && forall s, e :: s in w.held && e in s.entries ==> e.ref != ref
  }

  lemma StepGone(w: World, cap: nat, op: Op, ref: nat)
    requires WorldKept(w, cap) && cap > 0 && Gone(w, ref)
    ensures Gone(Step(w, cap, op), ref)
  {
    hide Reference, Resolve, Retain, Release, Invalidate, Prune, ResetDocument, Distinct, Filter, Kept;
    StepKeeps(w, cap, op);
    if IsTableOp(op) {
      TableStep(w, cap, op);
      hide Step;
    }
  }

  /** A reference that is gone is never issued again and never resolves again. */
  lemma {:induction false} NeverReissued(w: World, cap: nat, ops: seq<Op>, ref: nat, scope: Scope)
    requires WorldKept(w, cap) && cap > 0 && Gone(w, ref)
    ensures var end := Run(w, cap, ops); Gone(end, ref) && Resolve(end.reg, end.dead, ref, scope).1.None?
  {
    hide WorldKept, Step;
    if ops != [] {
      NeverReissued(w, cap, ops[..|ops| - 1], ref, scope);
      RunKeeps(w, cap, ops[..|ops| - 1]);
      StepGone(Run(w, cap, ops[..|ops| - 1]), cap, ops[|ops| - 1], ref);
    }
  }

  /** The document is not reset and the snapshot is not dropped. */
  ghost predicate Holds(ops: seq<Op>, s: Saved) {
    forall i :: 0 <= i < |ops| ==> !ops[i].OReset? && ops[i] != OForget(s)
  }

  lemma {:induction false} RemovedInEpoch(r: Registry, refs: seq<nat>)
    ensures RemoveRefs(r, refs).epoch == r.epoch
  {
    if refs != [] { RemovedInEpoch(r, refs[..|refs| - 1]); }
  }

  lemma StepHolds(w: World, cap: nat, op: Op, s: Saved)
    requires s in w.held && !op.OReset? && op != OForget(s)
    ensures s in Step(w, cap, op).held && Step(w, cap, op).reg.epoch == w.reg.epoch
  {
    hide RemoveRefs, Filter, FindRef, FindNode, Unretained;
    RemovedInEpoch(w.reg, DeadRefs(w.reg.entries, w.dead));
    if op.OInvalidate? {
      RemovedInEpoch(w.reg, InvalidationRefs(w.reg.entries, w.dead, Relation(op.inside, op.unreadable)));
    }
  }

  lemma {:induction false} StillHeld(w: World, cap: nat, ops: seq<Op>, s: Saved)
    requires WorldKept(w, cap) && cap > 0 && s in w.held && Holds(ops, s)
    ensures s in Run(w, cap, ops).held && Run(w, cap, ops).reg.epoch == w.reg.epoch
  {
    hide WorldKept, Step;
    if ops != [] {
      assert Holds(ops[..|ops| - 1], s) by { assert forall i :: 0 <= i < |ops| - 1 ==> ops[..|ops| - 1][i] == ops[i]; }
      StillHeld(w, cap, ops[..|ops| - 1], s);
      StepHolds(Run(w, cap, ops[..|ops| - 1]), cap, ops[|ops| - 1], s);
    }
  }

  /**
   * What a snapshot restores to after anything that happens in its document while it is held. It holds its nodes, so none
   * of them can be gone, and it restores exactly while the registry has more than one change left; then the table is the
   * snapshot's: the same references, nodes, order and retention. With just one change left the table is replaced just the
   * same, unless no reference number was left either, and the answer is that nothing was restored.
   */
  lemma SnapshotRestores(w: World, cap: nat, ops: seq<Op>)
    requires WorldKept(w, cap) && cap > 0 && Snapshot(w.reg, w.dead).Some? && Holds(ops, Snapshot(w.reg, w.dead).value)
    ensures var s := Snapshot(w.reg, w.dead).value; var end := Run(Step(w, cap, OSnapshot), cap, ops);
      var (after, ok) := Restore(end.reg, end.dead, cap, s);
      && (ok <==> end.reg.revision < MAX_SAFE)
      && (ok <==> w.reg.nextRef <= MAX_SAFE && end.reg.revision < MAX_SAFE)
      && after == if ok then end.reg.(entries := w.reg.entries, revision := end.reg.revision + 2)
                  else if end.reg.revision == MAX_SAFE && w.reg.nextRef <= MAX_SAFE
                  then end.reg.(entries := w.reg.entries, revision := MAX_SAFE + 1)
                  else end.reg
  {
    var s := Snapshot(w.reg, w.dead).value;
    var start := Step(w, cap, OSnapshot);
    var end := Run(start, cap, ops);
    StepKeeps(w, cap, OSnapshot);
    RunKeeps(start, cap, ops);
    StillHeld(start, cap, ops, s);
    hide Run, Step;
    assert HeldOk(s, end, cap);
    assert w.reg.nextRef <= w.reg.revision + 1;
  }

  /**
   * A restore that fails leaves the table alone exactly when more or less than one change was left, when one of its checks
   * fails, or when the table is the snapshot's already.
   */
  lemma FailedRestoreLeaves(r: Registry, dead: set<NodeId>, cap: nat, s: Saved)
    requires r.revision <= MAX_SAFE + 1 && !Restore(r, dead, cap, s).1
    ensures Restore(r, dead, cap, s).0.entries == r.entries
      <==> r.revision != MAX_SAFE || !Restorable(r, dead, cap, s) || s.entries == r.entries
    ensures Restore(r, dead, cap, s).0.entries == r.entries || Restore(r, dead, cap, s).0.entries == s.entries
  {
  }

  // ---- The last changes of a registry ----

  /** A reference, a snapshot and a retention, and then the reference resolved again and again. */
  function Resolving(scope: Scope, n: nat): (ops: seq<Op>)
    ensures |ops| == n
  {
    if n == 0 then [] else Resolving(scope, n - 1) + [OResolve(1, scope)]
  }

  function FirstEntry(scope: Scope, reasons: set<Reason>): Entry {
    Entry(1, 1, scope, 1, reasons)
  }

  lemma FirstTable(e: Entry)
    ensures FindRef([e], e.ref) == Some(e) && FindNode([e], e.node, e.scope) == Some(e) && Touch([e], e) == [e]
    ensures DropRef([e], e.ref) == [] && Filter([], IsDead({})) == []
  {
    assert [e][..0] == [];
    assert DropRef([e], e.ref) == [];
  }

  /** What every resolving step does to the one retained entry. */
  lemma {:induction false} ResolvedAgain(w: World, cap: nat, scope: Scope, n: nat)
    requires w.reg.entries == [FirstEntry(scope, {Selected})] && w.dead == {} && IsCurrentScope(w.reg.epoch, scope)
    requires w.reg.revision + n <= MAX_SAFE + 1
    ensures Run(w, cap, Resolving(scope, n)) == w.(reg := w.reg.(revision := w.reg.revision + n))
    ensures Holds(Resolving(scope, n), Saved(w.reg.epoch, 2, 2, [FirstEntry(scope, {})]))
  {
    hide Resolve;
    if n > 0 {
      ResolvedAgain(w, cap, scope, n - 1);
      assert Resolving(scope, n)[..n - 1] == Resolving(scope, n - 1);
      ResolvesFirst(w.reg.(revision := w.reg.revision + n - 1), scope);
    }
  }

  lemma ResolvesFirst(r: Registry, scope: Scope)
    requires r.entries == [FirstEntry(scope, {Selected})] && IsCurrentScope(r.epoch, scope) && !Spent(r)
    ensures Resolve(r, {}, 1, scope).0 == Bumped(r)
  {
    hide FindRef, Touch;
    FirstTable(FirstEntry(scope, {Selected}));
  }

  /** Where the resolving starts: one node, referenced, then snapshotted without a reason and then selected. */
  function SelectedAfterSnapshot(epoch: nat, scope: Scope): World {
    World(Registry(epoch, 2, 2, 3, [FirstEntry(scope, {Selected})]), {},
          {Saved(epoch, 2, 2, [FirstEntry(scope, {})])}, map[1 := (1, scope)])
  }

  lemma SelectedIsReached(epoch: nat, cap: nat, scope: Scope)
    requires cap > 0 && IsCurrentScope(epoch, scope)
    ensures Run(StartAt(epoch), cap, [OReference(1, scope), OSnapshot, ORetain(1, Selected)]) == SelectedAfterSnapshot(epoch, scope)
  {
    hide Reference, Prune, MakeRoom, Kept;
    var ops := [OReference(1, scope), OSnapshot, ORetain(1, Selected)];
    assert ops[..2] == [OReference(1, scope), OSnapshot] && ops[..2][..1] == [OReference(1, scope)] && ops[..1][..0] == [];
    FirstTable(FirstEntry(scope, {}));
    FirstTable(FirstEntry(scope, {Selected}));
    ReferenceFirst(epoch, cap, scope);
    var one := Step(StartAt(epoch), cap, OReference(1, scope));
    assert one == World(Registry(epoch, 2, 2, 1, [FirstEntry(scope, {})]), {}, {}, map[1 := (1, scope)]);
    assert Run(StartAt(epoch), cap, ops[..1]) == one;
    var two := Step(one, cap, OSnapshot);
    assert two == one.(held := {Saved(epoch, 2, 2, [FirstEntry(scope, {})])});
    assert Run(StartAt(epoch), cap, ops[..2]) == two;
    RetainFirst(two.reg, scope);
    assert Step(two, cap, ORetain(1, Selected)) == SelectedAfterSnapshot(epoch, scope);
  }

  lemma ReferenceFirst(epoch: nat, cap: nat, scope: Scope)
    requires cap > 0 && IsCurrentScope(epoch, scope)
    ensures Reference(StartAt(epoch).reg, {}, cap, 1, scope).0 == Registry(epoch, 2, 2, 1, [FirstEntry(scope, {})])
  {
    var start := StartAt(epoch).reg;
    assert DeadRefs([], {}) == [] && Prune(start, {}) == start;
    assert MakeRoom(start, {}, cap) == (start, true);
  }

  lemma RetainFirst(r: Registry, scope: Scope)
    requires r.entries == [FirstEntry(scope, {})] && r.revision < MAX_SAFE
    ensures Retain(r, {}, 1, Selected) == (r.(entries := [FirstEntry(scope, {Selected})], revision := r.revision + 2), true)
  {
    FirstTable(FirstEntry(scope, {}));
    assert {} + {Selected} == {Selected};
    assert DropRef([FirstEntry(scope, {})], 1) == [];
    assert Touch(r.entries, FirstEntry(scope, {Selected})) == [FirstEntry(scope, {Selected})];
  }

  /**
   * At the last change that is possible, with reference numbers left in plenty, a restore answers that it failed although
   * it put the snapshot in place: the node that was selected since is not selected any more.
   */
  lemma FailedRestoreReplaces(epoch: nat, cap: nat, scope: Scope)
    requires cap > 0 && IsCurrentScope(epoch, scope)
    ensures var w := Run(Run(StartAt(epoch), cap, [OReference(1, scope), OSnapshot, ORetain(1, Selected)]), cap,
                         Resolving(scope, MAX_SAFE - 3));
      var s := Saved(epoch, 2, 2, [FirstEntry(scope, {})]);
      && s in w.held && w.reg.nextRef == 2 && w.reg.revision == MAX_SAFE
      && w.reg.entries == [FirstEntry(scope, {Selected})]
      && Restore(w.reg, w.dead, cap, s) == (w.reg.(entries := [FirstEntry(scope, {})], revision := MAX_SAFE + 1), false)
  {
    hide Run, Resolving;
    SelectedIsReached(epoch, cap, scope);
    ResolvedAgain(SelectedAfterSnapshot(epoch, scope), cap, scope, MAX_SAFE - 3);
  }

  /** One reference after another, each to a new node. */
  function Referencing(scope: Scope, n: nat): (ops: seq<Op>)
    ensures |ops| == n
  {
    if n == 0 then [] else Referencing(scope, n - 1) + [OReference(n, scope)]
  }

  /** One change for each reference, every node known is one of the first, and nothing is dead or held. */
  ghost predicate OnlyReferenced(w: World, n: nat) {
    && w.dead == {} && w.held == {} && w.reg.nextRef == n + 1 && w.reg.revision == n && |w.reg.entries| == n
    && forall e :: e in w.reg.entries ==> e.node <= n
  }

  lemma OneMoreReference(w: World, cap: nat, scope: Scope, n: nat)
    requires WorldKept(w, cap) && cap >= MAX_SAFE && OnlyReferenced(w, n) && IsCurrentScope(w.reg.epoch, scope) && n < MAX_SAFE
    ensures var after := Step(w, cap, OReference(n + 1, scope)); OnlyReferenced(after, n + 1) && after.reg.epoch == w.reg.epoch
  {
    hide Kept, Filter, FindNode, Prune;
    if FindNode(w.reg.entries, n + 1, scope).Some? { assert false; }
    assert Kept(w.reg, w.dead, cap);
    NothingToPrune(w.reg);
  }

  lemma NothingToPrune(r: Registry)
    ensures Prune(r, {}) == r && DeadRefs(r.entries, {}) == []
  {
    var none: set<NodeId> := {};
    DeadAndLiving(r.entries, none);
    FilterAll(r.entries, (e: Entry) => e.node !in none);
  }

  lemma {:induction false} ReferencingCounts(epoch: nat, cap: nat, scope: Scope, n: nat)
    requires cap >= MAX_SAFE && IsCurrentScope(epoch, scope) && n <= MAX_SAFE
    ensures var w := Run(StartAt(epoch), cap, Referencing(scope, n));
      WorldKept(w, cap) && OnlyReferenced(w, n) && w.reg.epoch == epoch
  {
    hide WorldKept, Step, OnlyReferenced;
    StartKept(epoch, cap);
    RunKeeps(StartAt(epoch), cap, Referencing(scope, n));
    if n == 0 {
      StartReferenced(epoch);
    } else {
      ReferencingCounts(epoch, cap, scope, n - 1);
      OneMoreReference(Run(StartAt(epoch), cap, Referencing(scope, n - 1)), cap, scope, n - 1);
    }
  }

  lemma StartReferenced(epoch: nat)
    ensures OnlyReferenced(StartAt(epoch), 0)
  {
  }

  /**
   * A registry of the greatest size that gave out its last reference can be snapshotted; the snapshot does not restore even
   * at once, and though one change is left the table stays as it is.
   */
  lemma ExhaustedSnapshotFails(epoch: nat, cap: nat, scope: Scope)
    requires cap >= MAX_SAFE && IsCurrentScope(epoch, scope)
    ensures var w := Run(StartAt(epoch), cap, Referencing(scope, MAX_SAFE));
      && WorldKept(w, cap) && w.reg.nextRef == MAX_SAFE + 1 && w.reg.revision == MAX_SAFE
      && var s := Snapshot(w.reg, w.dead); s.Some? && Restore(w.reg, w.dead, cap, s.value) == (w.reg, false)
  {
    hide Run, Referencing, WorldKept;
    ReferencingCounts(epoch, cap, scope, MAX_SAFE);
    var w := Run(StartAt(epoch), cap, Referencing(scope, MAX_SAFE));
    assert OnlyReferenced(w, MAX_SAFE);
  }

  /**
   * The references issued between a snapshot and its restoring are gone, unless a later snapshot still holds them. While a
   * change is left the restoring takes effect, whatever it answers.
   */
  lemma IssuedSinceAreGone(w: World, cap: nat, ops: seq<Op>, ref: nat, later: seq<Op>, scope: Scope)
    requires WorldKept(w, cap) && cap > 0 && Snapshot(w.reg, w.dead).Some? && Holds(ops, Snapshot(w.reg, w.dead).value)
    requires var end := Run(Step(w, cap, OSnapshot), cap, ops);
      && w.reg.nextRef <= ref < end.reg.nextRef && w.reg.nextRef <= MAX_SAFE && end.reg.revision <= MAX_SAFE
      && forall s, e :: s in end.held && e in s.entries ==> e.ref != ref
    ensures var end := Run(Step(w, cap, OSnapshot), cap, ops);
      var after := Run(Step(end, cap, ORestore(Snapshot(w.reg, w.dead).value)), cap, later);
      Resolve(after.reg, after.dead, ref, scope).1.None? && Gone(after, ref)
  {
    hide Run, Snapshot, Restore, Kept;
    var s := Snapshot(w.reg, w.dead).value;
    var start := Step(w, cap, OSnapshot);
    var end := Run(start, cap, ops);
    StepKeeps(w, cap, OSnapshot);
    StillHeld(start, cap, ops, s);
    SnapshotRestores(w, cap, ops);
    RunKeeps(start, cap, ops);
    StepKeeps(end, cap, ORestore(s));
    RefsBelow(w, cap);
    NeverReissued(Step(end, cap, ORestore(s)), cap, later, ref, scope);
  }

  lemma RefsBelow(w: World, cap: nat)
    requires WorldKept(w, cap)
    ensures forall e :: e in w.reg.entries ==> e.ref < w.reg.nextRef
  {
    assert forall e :: e in w.reg.entries ==> EntryOk(e, w.reg.epoch, w.reg.nextRef);
  }

  /**
   * Making room for a new entry removes the dead entries and, only when the living ones fill the registry, the least
   * recently used one that nothing retains. The new entry is made exactly unless every living entry of a full registry is
   * retained or the changes run out on the way; what goes in that case is dead or the least recently used one, too.
   */
  lemma RoomTakesLeastRecent(r: Registry, dead: set<NodeId>, cap: nat, node: NodeId,
                             scope: Scope) returns (victim: Option<Entry>)
    requires Kept(r, dead, cap) && cap > 0 && IsCurrentScope(r.epoch, scope) && r.nextRef <= MAX_SAFE
    requires FindNode(r.entries, node, scope).None?
    ensures var (after, ref) := Reference(r, dead, cap, node, scope); var living := Living(r.entries, dead);
      var gone := |r.entries| - |living|; var full := |living| >= cap;
      && (ref.Some? <==> !(full && forall e :: e in living ==> e.reasons != {}) && Left(r) >= gone + if full then 2 else 1)
      && (victim.Some? ==> full && LeastUnretained(living, victim.value))
      && (ref.Some? ==>
            && ref.value == r.nextRef && (victim.Some? <==> full)
            && forall e :: e in after.entries <==>
                 (e in r.entries && e.node !in dead && Some(e) != victim) || e == Entry(r.nextRef, node, scope, r.nextSequence, {}))
      && (ref.None? ==>
            && (forall e :: e in after.entries ==> e in r.entries)
            && forall e :: e in r.entries && e !in after.entries ==> e.node in dead || Some(e) == victim)
  {
    hide MakeRoom, Distinct, FindNode, LeastUnretained, Kept, Filter, Shrinks;
    victim := RoomMade(r, dead, cap);
    assert forall e :: e in Living(r.entries, dead) <==> e in r.entries && e.node !in dead;
    var (roomy, ok) := MakeRoom(r, dead, cap);
    TableDistinct(r, dead, cap);
    var (after, ref) := Reference(r, dead, cap, node, scope);
    if ref.Some? {
      var added := Entry(r.nextRef, node, scope, r.nextSequence, {});
      assert after.entries == roomy.entries + [added];
      forall e ensures e in after.entries <==> e in roomy.entries || e == added {
      }
    }
  }
}
