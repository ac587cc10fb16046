/**
 * The node registry as one table of entries in order of use. `DomNodeIndices` proves that the registry's weak forward map and
 * its strong retained map are views of this table.
 */
module DomNodeTable {
  import opened Options

  type NodeId = nat

  const MAX_SAFE: nat := 9007199254740991

  datatype Scope = Scope(documentEpoch: int, frame: int, frameEpoch: int)

  datatype Reason = Selected | Hovered | Expanded

  /** `node` is what the entry's weak reference was made for, whether or not it is still there. */
  datatype Entry = Entry(ref: nat, node: NodeId, scope: Scope, sequence: nat, reasons: set<Reason>)

  /** `revision` counts every change: past the last safe value the next change throws before it is made. */
  datatype Registry = Registry(epoch: nat, nextRef: nat, nextSequence: nat, revision: nat, entries: seq<Entry>)

  /** A snapshot holds its nodes strongly. */
  datatype Saved = Saved(epoch: int, nextRef: int, nextSequence: int, entries: seq<Entry>)

  predicate IsSafe(n: int) {
    0 <= n <= MAX_SAFE
  }

  /** The reference `node-N` as its number: no leading zero and at most 24 characters. */
  predicate IsNodeRef(ref: nat) {
    1 <= ref < 10000000000000000000
  }

  predicate IsNodeScope(s: Scope) {
    IsSafe(s.documentEpoch) && s.frame >= 1 && IsSafe(s.frameEpoch)
  }

  predicate IsCurrentScope(epoch: nat, s: Scope) {
    IsNodeScope(s) && s.documentEpoch == epoch
  }

  // ---- The table ----

  function Filter(t: seq<Entry>, keep: Entry -> bool): (r: seq<Entry>)
    ensures |r| <= |t|
    ensures forall e :: e in r <==> e in t && keep(e)
  {
    if t == [] then []
    else Filter(t[..|t| - 1], keep) + (if keep(t[|t| - 1]) then [t[|t| - 1]] else [])
  }

  function FindRef(t: seq<Entry>, ref: nat): (r: Option<Entry>)
    ensures r.Some? ==> r.value in t && r.value.ref == ref
    ensures r.None? ==> forall e :: e in t ==> e.ref != ref
  {
    if t == [] then None else if t[|t| - 1].ref == ref then Some(t[|t| - 1]) else FindRef(t[..|t| - 1], ref)
  }

  function FindNode(t: seq<Entry>, node: NodeId, scope: Scope): (r: Option<Entry>)
    ensures r.Some? ==> r.value in t && r.value.node == node && r.value.scope == scope
    ensures r.None? ==> forall e :: e in t ==> e.node != node || e.scope != scope
  {
    if t == [] then None
    else if t[|t| - 1].node == node && t[|t| - 1].scope == scope then Some(t[|t| - 1])
    else FindNode(t[..|t| - 1], node, scope)
  }

  function DropRef(t: seq<Entry>, ref: nat): seq<Entry> {
    Filter(t, (e: Entry) => e.ref != ref)
  }

  /** Write an entry and make it the most recently used one. */
  function Touch(t: seq<Entry>, e: Entry): seq<Entry> {
    DropRef(t, e.ref) + [e]
  }

  function Living(t: seq<Entry>, dead: set<NodeId>): seq<Entry> {
    Filter(t, (e: Entry) => e.node !in dead)
  }

  /** The position of the least recently used entry that nothing retains. */
  function Unretained(t: seq<Entry>): (i: nat)
    ensures i <= |t| && (i < |t| ==> t[i].reasons == {}) && forall j :: 0 <= j < i ==> t[j].reasons != {}
    decreases |t|
  {
    if t == [] then 0
    else
      var i := Unretained(t[..|t| - 1]);
      if i < |t| - 1 || t[|t| - 1].reasons == {} then i else |t|
  }

  /** The references of some entries, in their order. */
  function Refs(t: seq<Entry>): (r: seq<nat>)
    ensures |r| == |t| && forall i :: 0 <= i < |t| ==> r[i] == t[i].ref
  {
    seq(|t|, i requires 0 <= i < |t| => t[i].ref)
  }

  function IsDead(dead: set<NodeId>): Entry -> bool {
    (e: Entry) => e.node in dead
  }

  function IsInside(dead: set<NodeId>, within: NodeId -> Option<bool>): Entry -> bool {
    (e: Entry) => e.node !in dead && within(e.node) == Some(true)
  }

  /** The entries in the order in which they were issued. */
  function BySequence(t: seq<Entry>): (r: seq<Entry>)
    ensures |r| == |t| && forall e :: e in r <==> e in t
  {
    if t == [] then [] else InsertBySequence(BySequence(t[..|t| - 1]), t[|t| - 1])
  }

  function InsertBySequence(t: seq<Entry>, e: Entry): (r: seq<Entry>)
    ensures |r| == |t| + 1 && forall x :: x in r <==> x in t || x == e
  {
    if t == [] then [e]
    else if t[|t| - 1].sequence <= e.sequence then t + [e]
    else InsertBySequence(t[..|t| - 1], e) + [t[|t| - 1]]
  }

  /** What an invalidation answers: the living entries inside the root, in the order in which they were issued. */
  function Invalidated(t: seq<Entry>, dead: set<NodeId>, within: NodeId -> Option<bool>): seq<Entry> {
    Filter(BySequence(t), IsInside(dead, within))
  }

  function DeadOnes(t: seq<Entry>, dead: set<NodeId>): seq<Entry> {
    Filter(BySequence(t), IsDead(dead))
  }

  // ---- Changes ----

  /** No change is possible any more. */
  predicate Spent(r: Registry) {
    r.revision > MAX_SAFE
  }

  /** How many changes are possible. */
  function Left(r: Registry): nat {
    if Spent(r) then 0 else MAX_SAFE + 1 - r.revision
  }

  function Bumped(r: Registry): Registry {
    r.(revision := r.revision + 1)
  }

  function RemoveRef(r: Registry, ref: nat): Registry {
    if FindRef(r.entries, ref).None? || Spent(r) then r else Bumped(r.(entries := DropRef(r.entries, ref)))
  }

  /** One removal after the other, as long as changes are possible. */
  function RemoveRefs(r: Registry, refs: seq<nat>): Registry {
    if refs == [] then r else RemoveRef(RemoveRefs(r, refs[..|refs| - 1]), refs[|refs| - 1])
  }

  function DeadRefs(t: seq<Entry>, dead: set<NodeId>): seq<nat> {
    Refs(Filter(t, IsDead(dead)))
  }

  function Prune(r: Registry, dead: set<NodeId>): Registry {
    RemoveRefs(r, DeadRefs(r.entries, dead))
  }

  /** Prune, and evict one entry if that does not leave room for one more; not when everything left is retained. */
  function MakeRoom(r: Registry, dead: set<NodeId>, cap: nat): (Registry, bool) {
    var pruned := Prune(r, dead);
    var i := Unretained(pruned.entries);
    if |DeadRefs(r.entries, dead)| > Left(r) then (pruned, false)
    else if |pruned.entries| < cap then (pruned, true)
    else if i == |pruned.entries| || Spent(pruned) then (pruned, false)
    else (RemoveRef(pruned, pruned.entries[i].ref), true)
  }

  // ---- Operations; an absent result stands for a call that throws or answers `undefined` ----

  function Reference(r: Registry, dead: set<NodeId>, cap: nat, node: NodeId, scope: Scope): (Registry, Option<nat>) {
    if !IsCurrentScope(r.epoch, scope) then (r, None)
    else
      var existing := FindNode(r.entries, node, scope);
      if existing.Some? then
        if Spent(r) then (r, None)
        else (Bumped(r.(entries := Touch(r.entries, existing.value))), Some(existing.value.ref))
      else if r.nextRef > MAX_SAFE then (r, None)
      else
        var (roomy, ok) := MakeRoom(r, dead, cap);
        if !ok || Spent(roomy) then (roomy, None) else (Issued(roomy, node, scope), Some(r.nextRef))
  }

  /** The next reference given out. */
  function Issued(r: Registry, node: NodeId, scope: Scope): Registry {
    Registry(r.epoch, r.nextRef + 1, r.nextSequence + 1, r.revision + 1,
             r.entries + [Entry(r.nextRef, node, scope, r.nextSequence, {})])
  }

  function Resolve(r: Registry, dead: set<NodeId>, ref: nat, scope: Scope): (Registry, Option<NodeId>) {
    var found := FindRef(r.entries, ref);
    if !IsCurrentScope(r.epoch, scope) || found.None? || found.value.scope != scope then (r, None)
    else if found.value.node in dead then (RemoveRef(r, ref), None)
    else if Spent(r) then (r, None)
    else (Bumped(r.(entries := Touch(r.entries, found.value))), Some(found.value.node))
  }

  /** Write an entry where it stands. */
  function Rewrite(t: seq<Entry>, e: Entry): (r: seq<Entry>)
    ensures |r| == |t|
    ensures forall i :: 0 <= i < |t| ==> r[i] == if t[i].ref == e.ref then e else t[i]
  {
    seq(|t|, i requires 0 <= i < |t| => if t[i].ref == e.ref then e else t[i])
  }

  /** Two changes, the reason and the touch: at the last one that is possible the reason is there and the touch throws. */
  function Retain(r: Registry, dead: set<NodeId>, ref: nat, reason: Reason): (Registry, bool) {
    var found := FindRef(r.entries, ref);
    if found.None? then (r, false)
    else if found.value.node in dead then (RemoveRef(r, ref), false)
    else
      var next := found.value.(reasons := found.value.reasons + {reason});
      if Spent(r) then (r, false)
      else if Spent(Bumped(r)) then (Bumped(r.(entries := Rewrite(r.entries, next))), false)
      else (Bumped(Bumped(r.(entries := Touch(r.entries, next)))), true)
  }

  function Release(r: Registry, ref: nat, reason: Reason): Registry {
    var found := FindRef(r.entries, ref);
    if found.None? || reason !in found.value.reasons || Spent(r) then r
    else Bumped(r.(entries := Rewrite(r.entries, found.value.(reasons := found.value.reasons - {reason}))))
  }

  /** What an invalidation takes out: the dead, and what is inside the root. */
  function Outside(t: seq<Entry>, dead: set<NodeId>, within: NodeId -> Option<bool>): seq<Entry> {
    Filter(t, (e: Entry) => e.node !in dead && within(e.node) != Some(true))
  }

  /** An unreadable relation to the root calls the whole invalidation off. */
  predicate Readable(t: seq<Entry>, dead: set<NodeId>, within: NodeId -> Option<bool>) {
    forall e :: e in t && e.node !in dead ==> within(e.node).Some?
  }

  /** The dead go first, then the inside, each as issued. */
  function InvalidationRefs(t: seq<Entry>, dead: set<NodeId>, within: NodeId -> Option<bool>): seq<nat> {
    Refs(DeadOnes(t, dead)) + Refs(Invalidated(t, dead, within))
  }

  function Invalidate(r: Registry, dead: set<NodeId>, within: NodeId -> Option<bool>): Registry {
    if Readable(r.entries, dead, within) then RemoveRefs(r, InvalidationRefs(r.entries, dead, within)) else r
  }

  function ResetDocument(r: Registry, epoch: int): Option<Registry> {
    if !IsSafe(epoch) || epoch <= r.epoch || Spent(r) then None else Some(Bumped(r.(epoch := epoch, entries := [])))
  }

  /** A snapshot exists exactly while no entry is dead. */
  function Snapshot(r: Registry, dead: set<NodeId>): Option<Saved> {
    if forall e :: e in r.entries ==> e.node !in dead then Some(Saved(r.epoch, r.nextRef, r.nextSequence, r.entries)) else None
  }

  /** No reference and no node-in-scope twice. */
  predicate Distinct(t: seq<Entry>) {
    forall i, j :: 0 <= i < j < |t| ==> t[i].ref != t[j].ref && (t[i].node != t[j].node || t[i].scope != t[j].scope)
  }

  /** What `restore` looks at before it changes anything. */
  predicate Admits(r: Registry, cap: nat, s: Saved) {
    s.epoch == r.epoch && 1 <= s.nextRef <= MAX_SAFE && 1 <= s.nextSequence <= MAX_SAFE && |s.entries| <= cap
  }

  /** ... and what it finds while it rebuilds the maps. */
  predicate Rebuilds(r: Registry, dead: set<NodeId>, s: Saved) {
    && Distinct(s.entries)
    && forall e :: e in s.entries ==>
         e.node !in dead && IsNodeRef(e.ref) && IsCurrentScope(r.epoch, e.scope) && 1 <= e.sequence <= MAX_SAFE
  }

  /** Everything `restore` checks. */
  predicate Restorable(r: Registry, dead: set<NodeId>, cap: nat, s: Saved) {
    Admits(r, cap, s) && Rebuilds(r, dead, s)
  }

  function Later(a: nat, b: int): nat {
    if b > a then b else a
  }

  /** The maps of a snapshot in place; references that were given out since are not given out again. */
  function Placed(r: Registry, s: Saved): Registry {
    Registry(r.epoch, Later(r.nextRef, s.nextRef), Later(r.nextSequence, s.nextSequence), r.revision, s.entries)
  }

  /** Two changes, one before the maps are rebuilt and one after they are replaced. */
  function Restore(r: Registry, dead: set<NodeId>, cap: nat, s: Saved): (Registry, bool) {
    if !Admits(r, cap, s) || Spent(r) then (r, false)
    else if !Rebuilds(r, dead, s) then (Bumped(r), false)
    else
      var placed := Placed(Bumped(r), s);
      if Spent(placed) then (placed, false) else (Bumped(placed), true)
  }
}
