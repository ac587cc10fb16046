/** The node registry: a weak forward map, a reverse map in order of use and a strong retained map, kept in step. */
module DomNodeIndices {
  import opened Options
  import opened DomNodeTable
  import opened DomNodeLife

  /** Per node, the reference given out in each scope. The collector empties it of nodes that are gone. */
  type ForwardMap = map<NodeId, map<Scope, nat>>

  function ForwardRef(forward: ForwardMap, node: NodeId, scope: Scope): Option<nat> {
    if node in forward && scope in forward[node] then Some(forward[node][scope]) else None
  }

  function SetForward(forward: ForwardMap, node: NodeId, scope: Scope, ref: nat): ForwardMap {
    forward[node := (if node in forward then forward[node] else map[])[scope := ref]]
  }

  /** Delete a scope's reference, and the node with its last scope; another reference there stays. */
  function ForgetForward(forward: ForwardMap, node: NodeId, scope: Scope, ref: nat): ForwardMap {
    if ForwardRef(forward, node, scope) != Some(ref) then forward
    else if forward[node] - {scope} == map[] then forward - {node}
    else forward[node := forward[node] - {scope}]
  }

  ghost predicate Names(t: seq<Entry>, ref: nat, node: NodeId, scope: Scope) {
    exists e :: e in t && e.ref == ref && e.node == node && e.scope == scope
  }

  ghost predicate HeldFor(t: seq<Entry>, ref: nat, node: NodeId) {
    exists e :: e in t && e.ref == ref && e.node == node && e.reasons != {}
  }

  /** On living nodes, forward and reverse are inverse of each other. */
  ghost predicate ForwardAgrees(forward: ForwardMap, t: seq<Entry>, dead: set<NodeId>) {
    && (forall n, s :: ForwardRef(forward, n, s).Some? ==> n !in dead && Names(t, ForwardRef(forward, n, s).value, n, s))
    && (forall e :: e in t && e.node !in dead ==> ForwardRef(forward, e.node, e.scope) == Some(e.ref))
    && (forall n :: n in forward ==> forward[n] != map[])
  }

  /** Exactly the entries with a reason are retained, each with its node. */
  ghost predicate RetainedAgrees(retained: map<nat, NodeId>, t: seq<Entry>) {
    && (forall ref :: ref in retained ==> HeldFor(t, ref, retained[ref]))
    && (forall e :: e in t && e.reasons != {} ==> e.ref in retained && retained[e.ref] == e.node)
  }

  /** The same entries but for their order and their reasons. */
  ghost predicate SameIssues(t: seq<Entry>, after: seq<Entry>) {
    Shrinks(t, after) && Shrinks(after, t)
  }

  lemma ForwardSame(forward: ForwardMap, t: seq<Entry>, after: seq<Entry>, dead: set<NodeId>)
    requires ForwardAgrees(forward, t, dead) && SameIssues(t, after)
    ensures ForwardAgrees(forward, after, dead)
  {
    forall n, s | ForwardRef(forward, n, s).Some? ensures Names(after, ForwardRef(forward, n, s).value, n, s) {
      var e :| e in t && e.ref == ForwardRef(forward, n, s).value && e.node == n && e.scope == s;
      assert Older(after, e);
    }
    forall e | e in after && e.node !in dead ensures ForwardRef(forward, e.node, e.scope) == Some(e.ref) {
      assert Older(t, e);
    }
  }

  lemma ForwardWithout(forward: ForwardMap, t: seq<Entry>, dead: set<NodeId>, e: Entry)
    requires ForwardAgrees(forward, t, dead) && Distinct(t) && e in t
    ensures ForwardAgrees(if e.node in dead then forward else ForgetForward(forward, e.node, e.scope, e.ref), DropRef(t, e.ref), dead)
  {
    hide Filter, FindRef, FindNode, Distinct;
    var after := if e.node in dead then forward else ForgetForward(forward, e.node, e.scope, e.ref);
    var rest := DropRef(t, e.ref);
    FindDistinct(t, e);
    forall x | x in t && x.ref == e.ref ensures x == e { FindDistinct(t, x); }
    forall x | x in t && x != e ensures x.node != e.node || x.scope != e.scope { FindDistinct(t, x); }
    assert forall x :: x in rest <==> x in t && x.ref != e.ref;
    forall n, s | ForwardRef(after, n, s).Some? ensures n !in dead && Names(rest, ForwardRef(after, n, s).value, n, s) {
      assert ForwardRef(after, n, s) == ForwardRef(forward, n, s);
      var x :| x in t && x.ref == ForwardRef(forward, n, s).value && x.node == n && x.scope == s;
      assert x != e;
    }
    forall x | x in rest && x.node !in dead ensures ForwardRef(after, x.node, x.scope) == Some(x.ref) {
      assert ForwardRef(forward, x.node, x.scope) == Some(x.ref);
      if x.node == e.node { assert x.scope in forward[e.node] - {e.scope}; }
    }
  }

  lemma ForwardWith(forward: ForwardMap, t: seq<Entry>, dead: set<NodeId>, e: Entry)
    requires ForwardAgrees(forward, t, dead) && e.node !in dead
    requires forall x :: x in t ==> x.node != e.node || x.scope != e.scope
    ensures ForwardAgrees(SetForward(forward, e.node, e.scope, e.ref), t + [e], dead)
  {
    var after := SetForward(forward, e.node, e.scope, e.ref);
    assert e in t + [e];
    forall n, s | ForwardRef(after, n, s).Some? ensures n !in dead && Names(t + [e], ForwardRef(after, n, s).value, n, s) {
      if n != e.node || s != e.scope {
        assert ForwardRef(after, n, s) == ForwardRef(forward, n, s);
        var x :| x in t && x.ref == ForwardRef(forward, n, s).value && x.node == n && x.scope == s;
        assert x in t + [e];
      }
    }
    forall x | x in t + [e] && x.node !in dead ensures ForwardRef(after, x.node, x.scope) == Some(x.ref) {
      if x in t { assert ForwardRef(forward, x.node, x.scope) == Some(x.ref); }
    }
  }

  /** A living node's reference is the one its entry has. */
  lemma ForwardFinds(forward: ForwardMap, t: seq<Entry>, dead: set<NodeId>, node: NodeId, scope: Scope)
    requires ForwardAgrees(forward, t, dead) && Distinct(t) && node !in dead
    ensures match FindNode(t, node, scope)
            case None => ForwardRef(forward, node, scope).None?
            case Some(e) => ForwardRef(forward, node, scope) == Some(e.ref) && FindRef(t, e.ref) == Some(e)
  {
    if FindNode(t, node, scope).Some? { FindDistinct(t, FindNode(t, node, scope).value); }
  }

  lemma RetainedSame(retained: map<nat, NodeId>, t: seq<Entry>, after: seq<Entry>)
    requires RetainedAgrees(retained, t) && forall e :: e in after <==> e in t
    ensures RetainedAgrees(retained, after)
  {
    forall ref | ref in retained ensures HeldFor(after, ref, retained[ref]) {
      var e :| e in t && e.ref == ref && e.node == retained[ref] && e.reasons != {};
      assert e in after;
    }
  }

  lemma RetainedWithout(retained: map<nat, NodeId>, t: seq<Entry>, ref: nat)
    requires RetainedAgrees(retained, t)
    ensures RetainedAgrees(retained - {ref}, DropRef(t, ref))
  {
    forall k | k in retained - {ref} ensures HeldFor(DropRef(t, ref), k, retained[k]) {
      var e :| e in t && e.ref == k && e.node == retained[k] && e.reasons != {};
      assert e in DropRef(t, ref);
    }
  }

  /** One entry is rewritten: it is retained exactly when it has a reason now. */
  lemma RetainedRewritten(retained: map<nat, NodeId>, t: seq<Entry>, after: seq<Entry>, e: Entry)
    requires RetainedAgrees(retained, t) && e in after
    requires forall x: Entry :: x in after && x.ref == e.ref ==> x == e
    requires forall x: Entry :: x.ref != e.ref ==> (x in after <==> x in t)
    ensures RetainedAgrees(if e.reasons == {} then retained - {e.ref} else retained[e.ref := e.node], after)
  {
    var next := if e.reasons == {} then retained - {e.ref} else retained[e.ref := e.node];
    forall k | k in next ensures HeldFor(after, k, next[k]) {
      if k != e.ref {
        var x :| x in t && x.ref == k && x.node == retained[k] && x.reasons != {};
        assert x in after;
      }
    }
  }

  // ---- How the table follows single steps ----

  /** Dropping an entry of a table without repeated references takes out its place. */
  lemma {:induction false} DropInPlace(t: seq<Entry>, i: nat)
    requires Distinct(t) && i < |t|
    ensures DropRef(t, t[i].ref) == t[..i] + t[i + 1..]
    decreases |t|
  {
    hide Filter, DropRef;
    var init, last := t[..|t| - 1], t[|t| - 1];
    assert t == init + [last];
    DropRefSnoc(init, last, t[i].ref);
    if i == |t| - 1 {
      DropAbsent(init, last.ref);
    } else {
      assert Distinct(init);
      DropInPlace(init, i);
      assert init[i] == t[i] && init[..i] == t[..i] && t[i + 1..] == init[i + 1..] + [last];
    }
  }

  ghost predicate Rising(t: seq<Entry>) {
    forall i, j :: 0 <= i < j < |t| ==> t[i].sequence < t[j].sequence
  }

  lemma {:induction false} InsertRises(t: seq<Entry>, e: Entry)
    requires Rising(t) && forall x :: x in t ==> x.sequence != e.sequence
    ensures Rising(InsertBySequence(t, e))
  {
    if t != [] && t[|t| - 1].sequence > e.sequence {
      InsertRises(t[..|t| - 1], e);
      var init := InsertBySequence(t[..|t| - 1], e);
      assert forall i :: 0 <= i < |init| ==> init[i] in init;
    }
  }

  lemma {:induction false} SortedRises(t: seq<Entry>)
    requires forall i, j :: 0 <= i < j < |t| ==> t[i].sequence != t[j].sequence
    ensures Rising(BySequence(t))
  {
    if t != [] {
      SortedRises(t[..|t| - 1]);
      InsertRises(BySequence(t[..|t| - 1]), t[|t| - 1]);
    }
  }

  lemma FilterMembers(t: seq<Entry>, keep: Entry -> bool)
    ensures forall e :: e in t ==> (e in Filter(BySequence(t), keep) <==> keep(e))
  {
  }

  /** Taking out the dead and the invalidated is taking out everything that is not outside. */
  lemma OutsideIsTheRest(t: seq<Entry>, dead: set<NodeId>, within: NodeId -> Option<bool>)
    requires Distinct(t) && Readable(t, dead, within)
    ensures WithoutRefs(t, Elements(InvalidationRefs(t, dead, within))) == Outside(t, dead, within)
  {
    var d, i := Refs(DeadOnes(t, dead)), Refs(Invalidated(t, dead, within));
    var gone := Elements(d + i);
    FilterMembers(t, IsDead(dead));
    FilterMembers(t, IsInside(dead, within));
    forall e | e in t ensures e.ref !in gone <==> e.node !in dead && within(e.node) != Some(true) {
      RefIn(DeadOnes(t, dead), t, e);
      RefIn(Invalidated(t, dead, within), t, e);
      assert e.ref in d <==> e.node in dead;
      assert e.ref in i <==> e.node !in dead && within(e.node) == Some(true);
      assert e.ref in gone <==> e.ref in d || e.ref in i;
    }
    FilterSame(t, (e: Entry) => e.ref !in gone, (e: Entry) => e.node !in dead && within(e.node) != Some(true));
  }

  lemma {:induction false} FilterRises(t: seq<Entry>, keep: Entry -> bool)
    requires Rising(t)
    ensures Rising(Filter(t, keep))
  {
    if t != [] {
      FilterRises(t[..|t| - 1], keep);
      var init := Filter(t[..|t| - 1], keep);
      assert forall i :: 0 <= i < |init| ==> init[i] in init;
    }
  }

  /** Some entries in the order of issue: their references are listed once each and rise. */
  lemma FilteredRise(r: Registry, dead: set<NodeId>, cap: nat, keep: Entry -> bool)
    requires Kept(r, dead, cap)
    ensures var refs := Refs(Filter(BySequence(r.entries), keep));
      && (forall i, j :: 0 <= i < j < |refs| ==> refs[i] < refs[j])
      && forall e :: e in r.entries ==> (e.ref in refs <==> keep(e))
  {
    var t := r.entries;
    forall i, j | 0 <= i < j < |t| ensures t[i].sequence != t[j].sequence {
      assert EntryOk(t[i], r.epoch, r.nextRef) && EntryOk(t[j], r.epoch, r.nextRef);
    }
    SortedRises(t);
    FilterRises(BySequence(t), keep);
    var some := Filter(BySequence(t), keep);
    forall i | 0 <= i < |some| ensures some[i].sequence == some[i].ref {
      assert some[i] in t;
      assert EntryOk(some[i], r.epoch, r.nextRef);
    }
    forall e | e in t ensures e.ref in Refs(some) <==> keep(e) { RefIn(some, t, e); }
  }

  /** The answer of an invalidation: exactly the inside references, each once and rising. */
  lemma InvalidatedRise(r: Registry, dead: set<NodeId>, cap: nat, within: NodeId -> Option<bool>)
    requires Kept(r, dead, cap)
    ensures var refs := Refs(Invalidated(r.entries, dead, within));
      && (forall i, j :: 0 <= i < j < |refs| ==> refs[i] < refs[j])
      && forall e :: e in r.entries ==> (e.ref in refs <==> e.node !in dead && within(e.node) == Some(true))
  {
    FilteredRise(r, dead, cap, IsInside(dead, within));
  }

  /** Everything an invalidation removes is listed once. */
  lemma InvalidationOnce(r: Registry, dead: set<NodeId>, cap: nat, within: NodeId -> Option<bool>)
    requires Kept(r, dead, cap)
    ensures Once(InvalidationRefs(r.entries, dead, within)) && Listed(r.entries, InvalidationRefs(r.entries, dead, within))
  {
    hide Kept, Filter, BySequence;
    FilteredRise(r, dead, cap, IsDead(dead));
    FilteredRise(r, dead, cap, IsInside(dead, within));
    var d, i := Refs(DeadOnes(r.entries, dead)), Refs(Invalidated(r.entries, dead, within));
    RefsListed(DeadOnes(r.entries, dead), r.entries);
    RefsListed(Invalidated(r.entries, dead, within), r.entries);
    forall x, y | 0 <= x < |d| && 0 <= y < |i| ensures d[x] != i[y] {
      assert d[x] in d && i[y] in i;
      var e :| e in r.entries && e.ref == d[x];
    }
  }

  lemma RefsListed(some: seq<Entry>, t: seq<Entry>)
    requires forall e :: e in some ==> e in t
    ensures Listed(t, Refs(some))
  {
    forall ref | ref in Refs(some) ensures exists e :: e in t && e.ref == ref {
      var i :| 0 <= i < |some| && Refs(some)[i] == ref;
      assert some[i] in some;
    }
  }

  // ---- What the remaining operations leave ----

  /**
   * An invalidation that cannot tell where some living node stands takes nothing. Otherwise exactly the dead and the
   * inside entries go, or as many of them as changes are possible.
   */
  lemma InvalidatesExactly(r: Registry, dead: set<NodeId>, cap: nat, within: NodeId -> Option<bool>)
    requires Kept(r, dead, cap)
    ensures var after := Invalidate(r, dead, within);
      var blind := exists e :: e in r.entries && e.node !in dead && within(e.node).None?;
      && (blind ==> after == r)
      && (forall e :: e in after.entries ==> e in r.entries)
      && (forall e :: e in r.entries && e.node !in dead && within(e.node) != Some(true) ==> e in after.entries)
      && (!blind && |InvalidationRefs(r.entries, dead, within)| <= Left(r) ==>
            forall e :: e in after.entries ==> e.node !in dead && within(e.node) == Some(false))
  {
    hide Kept, Filter, RemoveRefs, InvalidationRefs, Distinct, Elements;
    if Readable(r.entries, dead, within) {
      var refs := InvalidationRefs(r.entries, dead, within);
      TableDistinct(r, dead, cap);
      InvalidationOnce(r, dead, cap, within);
      RemovesFirst(r, refs);
      OutsideIsTheRest(r.entries, dead, within);
      OutsideMembers(r.entries, dead, within);
      var k := AtMost(|refs|, Left(r));
      assert refs[..|refs|] == refs;
      forall e | e in r.entries && e.node !in dead && within(e.node) != Some(true)
        ensures e in WithoutRefs(r.entries, Elements(refs[..k]))
      {
        assert e in WithoutRefs(r.entries, Elements(refs));
        StillWithout(r.entries, refs, k, e);
      }
      if |refs| <= Left(r) {
        forall e | e in Outside(r.entries, dead, within) ensures e.node !in dead && within(e.node) == Some(false) {
          var answer := within(e.node);
          assert answer.Some? && (answer.value == true ==> answer == Some(true));
          assert answer == Some(answer.value);
        }
      }
    }
  }

  lemma StillWithout(t: seq<Entry>, refs: seq<nat>, k: nat, e: Entry)
    requires k <= |refs| && e in WithoutRefs(t, Elements(refs))
    ensures e in WithoutRefs(t, Elements(refs[..k]))
  {
    assert e in t && e.ref !in Elements(refs);
  }

  lemma OutsideMembers(t: seq<Entry>, dead: set<NodeId>, within: NodeId -> Option<bool>)
    ensures forall e :: e in Outside(t, dead, within) <==> e in t && e.node !in dead && within(e.node) != Some(true)
  {
  }

  /** A document is reset exactly to a later epoch, and then nothing is stored, and no number is given out again. */
  lemma ResetsExactly(r: Registry, epoch: int)
    ensures var after := ResetDocument(r, epoch);
      && (after.Some? <==> r.epoch < epoch <= MAX_SAFE && r.revision <= MAX_SAFE)
      && (after.Some? ==> after.value == Registry(epoch, r.nextRef, r.nextSequence, r.revision + 1, []))
  {
  }

  /** Under a scope of another document, or none at all, nothing is given out, nothing resolves, and nothing changes. */
  lemma OtherScopesRefused(r: Registry, dead: set<NodeId>, cap: nat, node: NodeId, ref: nat, scope: Scope)
    requires scope.documentEpoch != r.epoch || scope.documentEpoch > MAX_SAFE || scope.frame < 1
      || scope.frameEpoch < 0 || scope.frameEpoch > MAX_SAFE
    ensures Reference(r, dead, cap, node, scope) == (r, None) && Resolve(r, dead, ref, scope) == (r, None)
  {
  }
}
