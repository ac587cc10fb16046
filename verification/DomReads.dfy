/** Budgeted reads of a fixed page: snapshots of child lists and the sibling walk. */
module DomReads {
  import opened Options
  import opened DomTree

  const MAX_LOCATOR_VISITED_NODES: nat := 65_536

  /** The visits one capture or resolution may still make. */
  class VisitBudget {
    var remaining: nat
    // Whether a visit was ever refused.
    ghost var refused: bool

    /** A visit was refused, and every further one is. */
    ghost predicate Exhausted()
      reads this
    {
      refused && remaining == 0
    }

    /** With so many visits left before, none was refused since, and no more than those were made. */
    twostate predicate Spends(visits: nat)
      reads this
    {
      old(remaining) >= visits ==> refused == old(refused) && remaining >= old(remaining) - visits
    }

    constructor ()
      ensures remaining == MAX_LOCATOR_VISITED_NODES && !refused
    {
      remaining, refused := MAX_LOCATOR_VISITED_NODES, false;
    }

    method Visit() returns (ok: bool)
      modifies this
      ensures ok == (old(remaining) > 0)
      ensures remaining == if ok then old(remaining) - 1 else old(remaining)
      ensures refused == (old(refused) || !ok)
    {
      if remaining <= 0 {
        refused := true;
        return false;
      }
      remaining := remaining - 1;
      return true;
    }
  }

  lemma ChildrenIn(d: Dom, parent: NodeId)
    requires WellFormed(d) && Has(d, parent)
    ensures AllIn(d, d.nodes[parent].children)
  {
    assert NodeOk(d, parent);
  }

  /** `snapshotChildNodes`: the author children, or nothing past a limit or without budget. */
  method SnapshotChildNodes(d: Dom, parent: NodeId, budget: VisitBudget) returns (r: Option<seq<NodeId>>)
    requires WellFormed(d) && Has(d, parent)
    modifies budget
    ensures old(budget.Exhausted()) ==> budget.Exhausted()
    ensures r.Some? ==> ChildLimits(d, parent) && AllIn(d, d.nodes[parent].children)
                        && r.value == Author(d, d.nodes[parent].children)
    ensures r.None? ==> budget.Exhausted() || !ChildLimits(d, parent)
    ensures budget.Spends(|d.nodes[parent].children|)
  {
    hide AuthorElements, WellFormed;
    ChildrenIn(d, parent);
    var kids := d.nodes[parent].children;
    if |kids| > MAX_CHILD_SCAN + MAX_ARTIFACT_SCAN { return None; }
    var snapshot: seq<NodeId> := [];
    var artifacts := 0;
    assert kids[..|kids|] == kids;
    for i := 0 to |kids|
      invariant old(budget.Exhausted()) ==> budget.Exhausted()
      invariant budget.Spends(i)
      invariant snapshot == Author(d, kids[..i]) && artifacts == i - |snapshot|
      invariant |snapshot| <= MAX_CHILD_SCAN && artifacts <= MAX_ARTIFACT_SCAN
    {
      PrefixCounts(d, kids, i + 1);
      assert kids[..i + 1][..i] == kids[..i];
      var child := kids[i];
      if d.nodes[child].artifact {
        artifacts := artifacts + 1;
        if artifacts > MAX_ARTIFACT_SCAN { return None; }
      } else {
        if |snapshot| >= MAX_CHILD_SCAN { return None; }
        var ok := budget.Visit();
        if !ok { return None; }
        snapshot := snapshot + [child];
      }
    }
    return Some(snapshot);
  }

  /** A prefix holds at most the author nodes and the artifacts of the whole list. */
  lemma {:induction false} PrefixCounts(d: Dom, ids: seq<NodeId>, at: nat)
    requires AllIn(d, ids) && at <= |ids|
    ensures |Author(d, ids[..at])| <= |Author(d, ids)|
    ensures at - |Author(d, ids[..at])| <= |ids| - |Author(d, ids)|
    ensures |AuthorElements(d, ids[..at])| <= |AuthorElements(d, ids)|
  {
    if at < |ids| {
      var init := ids[..|ids| - 1];
      PrefixCounts(d, init, at);
      assert init[..at] == ids[..at];
    } else {
      assert ids[..at] == ids;
    }
  }

  lemma {:induction false} ElementsOfAuthor(d: Dom, ids: seq<NodeId>)
    requires AllIn(d, ids)
    ensures AllIn(d, Author(d, ids)) && AuthorElements(d, Author(d, ids)) == AuthorElements(d, ids)
  {
    if ids != [] {
      var init, last := ids[..|ids| - 1], ids[|ids| - 1];
      ElementsOfAuthor(d, init);
      var author := Author(d, ids);
      if !d.nodes[last].artifact {
        assert author[|author| - 1] == last && author[..|author| - 1] == Author(d, init);
        assert AuthorElements(d, author)
            == AuthorElements(d, Author(d, init)) + (if IsAuthorElement(d, last) then [last] else []);
      } else {
        assert author == Author(d, init);
      }
    }
  }

  /** `elementChildAtSnapshot`: count elements until the index is reached. */
  method ElementChildAtSnapshot(d: Dom, children: seq<NodeId>, index: nat) returns (r: Option<NodeId>)
    requires AllIn(d, children) && forall i :: 0 <= i < |children| ==> !d.nodes[children[i]].artifact
    ensures r == if index < |AuthorElements(d, children)| then Some(AuthorElements(d, children)[index]) else None
  {
    var count := 0;
    assert children[..|children|] == children;
    for i := 0 to |children|
      invariant count == |AuthorElements(d, children[..i])| <= index
    {
      assert children[..i + 1][..i] == children[..i];
      if d.nodes[children[i]].kind.Element? {
        if count == index {
          ElementAtItsIndex(d, children, i);
          return Some(children[i]);
        }
        count := count + 1;
      }
    }
    return None;
  }

  lemma {:induction false} AuthorIsAuthor(d: Dom, ids: seq<NodeId>)
    requires AllIn(d, ids)
    ensures AllIn(d, Author(d, ids))
    ensures forall i :: 0 <= i < |Author(d, ids)| ==> !d.nodes[Author(d, ids)[i]].artifact
  {
    if ids != [] { AuthorIsAuthor(d, ids[..|ids| - 1]); }
  }

  /** `elementChildAt`: two equal snapshots that agree on the indexed element. */
  method ReadElementChildAt(d: Dom, parent: NodeId, index: nat, budget: VisitBudget) returns (r: Option<NodeId>)
    requires WellFormed(d) && Has(d, parent)
    modifies budget
    ensures old(budget.Exhausted()) ==> budget.Exhausted()
    ensures r == ElementChildAt(d, parent, index) || (r.None? && budget.Exhausted())
    ensures budget.Spends(2 * |d.nodes[parent].children|)
  {
    assert NodeOk(d, parent);
    ElementsOfAuthor(d, d.nodes[parent].children);
    AuthorIsAuthor(d, d.nodes[parent].children);
    var children := SnapshotChildNodes(d, parent, budget);
    if children.None? { return None; }
    var candidate := ElementChildAtSnapshot(d, children.value, index);
    var verified := SnapshotChildNodes(d, parent, budget);
    if candidate.None? || verified.None? || children != verified { return None; }
    var again := ElementChildAtSnapshot(d, verified.value, index);
    if again != candidate { return None; }
    return candidate;
  }

  /** The nearest element of a child list, from its end. */
  function LastElement(d: Dom, ids: seq<NodeId>): (r: Option<NodeId>)
    requires AllIn(d, ids)
    ensures r.Some? ==> r.value in ids && Has(d, r.value) && d.nodes[r.value].kind.Element?
  {
    if ids == [] then None
    else if d.nodes[ids[|ids| - 1]].kind.Element? then Some(ids[|ids| - 1])
    else LastElement(d, ids[..|ids| - 1])
  }

  /** What `previousElementSibling` reads. */
  function PreviousElementSibling(d: Dom, n: NodeId): Option<NodeId>
    requires WellFormed(d) && Has(d, n) && d.nodes[n].parent.Some?
  {
    assert NodeOk(d, n) && NodeOk(d, d.nodes[n].parent.value);
    var kids := d.nodes[d.nodes[n].parent.value].children;
    LastElement(d, kids[..Position(kids, n)])
  }

  ghost function ArtifactsBefore(d: Dom, ids: seq<NodeId>, at: nat): int
    requires AllIn(d, ids) && at <= |ids|
  {
    at - |Author(d, ids[..at])|
  }

  /** One step of the sibling walk: what lies between the nearest element and here is not counted. */
  lemma {:induction false} PreviousStep(d: Dom, ids: seq<NodeId>, upTo: nat)
    requires AllIn(d, ids) && upTo <= |ids|
    requires forall i, j :: 0 <= i < j < |ids| ==> ids[i] != ids[j]
    ensures var e := LastElement(d, ids[..upTo]);
      if e.None? then ElementsBefore(d, ids, upTo) == 0
      else
        && e.value in ids && Position(ids, e.value) < upTo
        && var at := Position(ids, e.value);
        && ElementsBefore(d, ids, upTo) == ElementsBefore(d, ids, at) + (if d.nodes[e.value].artifact then 0 else 1)
        && ArtifactsBefore(d, ids, upTo) >= ArtifactsBefore(d, ids, at) + (if d.nodes[e.value].artifact then 1 else 0)
        && 0 <= ArtifactsBefore(d, ids, at)
  {
    hide LastElement, ElementsBefore, ArtifactsBefore, Position;
    if upTo == 0 {
      NothingBefore(d, ids);
    } else {
      OneMoreBefore(d, ids, upTo - 1);
      if d.nodes[ids[upTo - 1]].kind.Element? {
        assert Position(ids, ids[upTo - 1]) == upTo - 1;
      } else {
        PreviousStep(d, ids, upTo - 1);
      }
    }
  }

  lemma NothingBefore(d: Dom, ids: seq<NodeId>)
    requires AllIn(d, ids)
    ensures LastElement(d, ids[..0]) == None && ElementsBefore(d, ids, 0) == 0
  {
  }

  /** What one more node of a child list adds to the counts. */
  lemma OneMoreBefore(d: Dom, ids: seq<NodeId>, n: nat)
    requires AllIn(d, ids) && n < |ids|
    ensures LastElement(d, ids[..n + 1]) == if d.nodes[ids[n]].kind.Element? then Some(ids[n]) else LastElement(d, ids[..n])
    ensures ElementsBefore(d, ids, n + 1) == ElementsBefore(d, ids, n) + if IsAuthorElement(d, ids[n]) then 1 else 0
    ensures ArtifactsBefore(d, ids, n + 1) == ArtifactsBefore(d, ids, n) + if d.nodes[ids[n]].artifact then 1 else 0
    ensures 0 <= ArtifactsBefore(d, ids, n)
  {
    assert ids[..n + 1][..n] == ids[..n];
  }

  /** Up to a position, and one further: the author elements grow by the node there, if it is one. */
  lemma ElementsSnoc(d: Dom, ids: seq<NodeId>, k: nat)
    requires AllIn(d, ids) && k <= |ids|
    ensures k == 0 ==> AuthorElements(d, ids[..k]) == []
    ensures |AuthorElements(d, ids[..k])| <= |AuthorElements(d, ids)|
    ensures k < |ids| ==>
      var n := |AuthorElements(d, ids[..k])|;
      && |AuthorElements(d, ids[..k + 1])| == n + (if IsAuthorElement(d, ids[k]) then 1 else 0) <= |AuthorElements(d, ids)|
      && (IsAuthorElement(d, ids[k]) ==> AuthorElements(d, ids)[n] == ids[k])
  {
    hide AuthorElements, Author;
    NoElements(d);
    assert ids[..0] == [];
    ElementsPrefix(d, ids, k);
    if k < |ids| {
      ElementsPrefix(d, ids, k + 1);
      ElementsGrow(d, ids, k);
    }
  }

  lemma NoElements(d: Dom)
    ensures AuthorElements(d, []) == []
  {
  }

  lemma ElementsGrow(d: Dom, ids: seq<NodeId>, k: nat)
    requires AllIn(d, ids) && k < |ids|
    ensures AuthorElements(d, ids[..k + 1])
         == AuthorElements(d, ids[..k]) + if IsAuthorElement(d, ids[k]) then [ids[k]] else []
  {
    assert ids[..k + 1][..k] == ids[..k];
  }

  /** `hasExactElementSiblingIndex`: the target is the one element at the index and nowhere else. */
  method HasExactElementSiblingIndex(d: Dom, children: seq<NodeId>, target: NodeId, expected: nat) returns (r: bool)
    requires AllIn(d, children) && forall i :: 0 <= i < |children| ==> !d.nodes[children[i]].artifact
    ensures r <==> expected < |AuthorElements(d, children)|
                   && forall i :: 0 <= i < |AuthorElements(d, children)| ==>
                        (AuthorElements(d, children)[i] == target <==> i == expected)
  {
    hide AuthorElements;
    var index, targets := 0, 0;
    ghost var elements := AuthorElements(d, children);
    assert children[..|children|] == children;
    ElementsSnoc(d, children, 0);
    for k := 0 to |children|
      invariant index == |AuthorElements(d, children[..k])| && index <= |elements|
      invariant forall i :: 0 <= i < index ==> (elements[i] == target <==> i == expected)
      invariant targets == if expected < index then 1 else 0
    {
      ElementsSnoc(d, children, k);
      if d.nodes[children[k]].kind.Element? {
        if children[k] == target {
          targets := targets + 1;
          if index != expected { return false; }
        } else if index == expected {
          return false;
        }
        index := index + 1;
      }
    }
    return targets == 1;
  }

  /** The sibling index is the one place of an author element, and no place of any other node. */
  lemma PlacesTarget(d: Dom, target: NodeId)
    requires WellFormed(d) && Has(d, target) && d.nodes[target].parent.Some?
    requires Has(d, d.nodes[target].parent.value) && ChildLimits(d, d.nodes[target].parent.value)
    ensures AllIn(d, d.nodes[d.nodes[target].parent.value].children)
    ensures var elements := AuthorElements(d, d.nodes[d.nodes[target].parent.value].children);
      && (IsAuthorElement(d, target) ==> SiblingIndex(d, target) < |elements|)
      && forall i :: 0 <= i < |elements| ==>
           (elements[i] == target <==> IsAuthorElement(d, target) && i == SiblingIndex(d, target))
  {
    var parent := d.nodes[target].parent.value;
    assert NodeOk(d, parent);
    var elements := AuthorElements(d, d.nodes[parent].children);
    if IsAuthorElement(d, target) { ChildAtSiblingIndex(d, target); }
    forall i | 0 <= i < |elements| && elements[i] == target ensures i == SiblingIndex(d, target) {
      SiblingIndexOfChildAt(d, parent, i);
    }
  }

  /** `confirmElementSiblingIndex`: two further snapshots agree with the first and place the target. */
  method ConfirmElementSiblingIndex(d: Dom, parent: NodeId, target: NodeId, initial: seq<NodeId>, expected: nat,
                                    budget: VisitBudget) returns (r: Option<nat>)
    requires WellFormed(d) && Has(d, target) && d.nodes[target].parent == Some(parent) && Has(d, parent)
    requires AllIn(d, d.nodes[parent].children) && initial == Author(d, d.nodes[parent].children)
    requires ChildLimits(d, parent) && expected == SiblingIndex(d, target)
    modifies budget
    ensures old(budget.Exhausted()) ==> budget.Exhausted()
    ensures r == (if IsAuthorElement(d, target) then Some(expected) else None) || (r.None? && budget.Exhausted())
    ensures budget.Spends(2 * |d.nodes[parent].children|)
  {
    hide AuthorElements, Author, SiblingIndex, ChildLimits, WellFormed;
    var verified := SnapshotChildNodes(d, parent, budget);
    if verified.None? || initial != verified.value { return None; }
    var final := SnapshotChildNodes(d, parent, budget);
    if final.None? || verified != final { return None; }
    AuthorIsAuthor(d, d.nodes[parent].children);
    ElementsOfAuthor(d, d.nodes[parent].children);
    PlacesTarget(d, target);
    var exact := HasExactElementSiblingIndex(d, final.value, target, expected);
    ghost var elements := AuthorElements(d, d.nodes[parent].children);
    assert exact ==> elements[expected] == target;
    return if exact then Some(expected) else None;
  }

  /** One step back among the children of a node: the nearest element before a position, and what is left before it. */
  lemma SiblingBack(d: Dom, parent: NodeId, rest: nat)
    requires WellFormed(d) && Has(d, parent) && rest <= |d.nodes[parent].children|
    ensures AllIn(d, d.nodes[parent].children)
    ensures var kids := d.nodes[parent].children; var e := LastElement(d, kids[..rest]);
      if e.None? then ElementsBefore(d, kids, rest) == 0
      else
        && Has(d, e.value) && d.nodes[e.value].parent == Some(parent) && e.value in kids && Position(kids, e.value) < rest
        && var at := Position(kids, e.value);
        && PreviousElementSibling(d, e.value) == LastElement(d, kids[..at])
        && ElementsBefore(d, kids, rest) == ElementsBefore(d, kids, at) + (if d.nodes[e.value].artifact then 0 else 1)
        && ArtifactsBefore(d, kids, rest) >= ArtifactsBefore(d, kids, at) + (if d.nodes[e.value].artifact then 1 else 0)
        && 0 <= ArtifactsBefore(d, kids, at)
  {
    hide AuthorElements, Author, ElementsBefore, ArtifactsBefore;
    assert NodeOk(d, parent);
    PreviousStep(d, d.nodes[parent].children, rest);
  }

  /** Where a node is among its siblings, with no more before it than one child list may hold. */
  lemma PlaceOf(d: Dom, target: NodeId)
    requires WellFormed(d) && Has(d, target) && d.nodes[target].parent.Some? && Has(d, d.nodes[target].parent.value)
    requires ChildLimits(d, d.nodes[target].parent.value)
    ensures var kids := d.nodes[d.nodes[target].parent.value].children;
      && AllIn(d, kids) && target in kids
      && var place := Position(kids, target);
      && PreviousElementSibling(d, target) == LastElement(d, kids[..place])
      && SiblingIndex(d, target) == ElementsBefore(d, kids, place) <= MAX_CHILD_SCAN && SiblingIndex(d, target) <= |kids|
      && ArtifactsBefore(d, kids, place) <= MAX_ARTIFACT_SCAN
  {
    hide AuthorElements, Author;
    assert NodeOk(d, target) && NodeOk(d, d.nodes[target].parent.value);
    var kids := d.nodes[d.nodes[target].parent.value].children;
    PrefixCounts(d, kids, Position(kids, target));
  }

  /** The walk over `previousElementSibling`, counting author elements and artifacts apart. */
  method CountPreviousSiblings(d: Dom, parent: NodeId, target: NodeId, budget: VisitBudget) returns (r: Option<nat>)
    requires WellFormed(d) && Has(d, target) && d.nodes[target].parent == Some(parent) && Has(d, parent)
    requires ChildLimits(d, parent)
    modifies budget
    ensures old(budget.Exhausted()) ==> budget.Exhausted()
    ensures r == Some(SiblingIndex(d, target)) || (r.None? && budget.Exhausted())
    ensures budget.Spends(|d.nodes[parent].children|)
  {
    hide AuthorElements, Author, LastElement, WellFormed, Position, ElementsBefore, ArtifactsBefore,
      PreviousElementSibling, SiblingIndex, ChildLimits;
    PlaceOf(d, target);
    ghost var kids := d.nodes[parent].children;
    ghost var place := Position(kids, target);
    ghost var rest := place;
    var previous := PreviousElementSibling(d, target);
    var siblingIndex, artifacts := 0, 0;
    var seen := {target};
    while previous.Some?
      invariant old(budget.Exhausted()) ==> budget.Exhausted()
      invariant 0 <= rest <= place && previous == LastElement(d, kids[..rest])
      invariant budget.Spends(siblingIndex)
      invariant siblingIndex + ElementsBefore(d, kids, rest) == SiblingIndex(d, target)
      invariant artifacts + ArtifactsBefore(d, kids, rest) <= ArtifactsBefore(d, kids, place)
      invariant forall x :: x in seen ==> x in kids && Position(kids, x) >= rest
      decreases rest
    {
      var sibling := previous.value;
      SiblingBack(d, parent, rest);
      ghost var at := Position(kids, sibling);
      if sibling in seen { return None; }
      seen := seen + {sibling};
      if d.nodes[sibling].artifact {
        artifacts := artifacts + 1;
        if artifacts > MAX_ARTIFACT_SCAN { return None; }
      } else {
        siblingIndex := siblingIndex + 1;
        if siblingIndex > MAX_CHILD_SCAN { return None; }
        var more := budget.Visit();
        if !more { return None; }
      }
      if d.nodes[sibling].parent != Some(parent) { return None; }
      previous := PreviousElementSibling(d, sibling);
      rest := at;
    }
    SiblingBack(d, parent, rest);
    return Some(siblingIndex);
  }

  /** `elementSiblingIndex`: walk the previous element siblings, then confirm against the child list. */
  method ElementSiblingIndex(d: Dom, parent: NodeId, target: NodeId, budget: VisitBudget) returns (r: Option<nat>)
    requires WellFormed(d) && Has(d, target) && d.nodes[target].parent == Some(parent) && Has(d, parent)
    modifies budget
    ensures old(budget.Exhausted()) ==> budget.Exhausted()
    ensures r == (if ChildLimits(d, parent) && IsAuthorElement(d, target) then Some(SiblingIndex(d, target)) else None)
            || (r.None? && budget.Exhausted())
    ensures budget.Spends(4 * |d.nodes[parent].children| + 1)
  {
    var children := SnapshotChildNodes(d, parent, budget);
    if children.None? { return None; }
    var ok := budget.Visit();
    if !ok { return None; }
    var siblingIndex := CountPreviousSiblings(d, parent, target, budget);
    if siblingIndex.None? { return None; }
    r := ConfirmElementSiblingIndex(d, parent, target, children.value, siblingIndex.value, budget);
  }
}
