/** The unique-id scan: an explicit-stack traversal of one tree that skips artifacts and stops at its limits. */
module IdScan {
  import opened JsText
  import opened Options
  import opened DomTree
  import opened DomReads

  const MAX_ID_SCAN_NODES: nat := 4096

  // ---- What is scanned ----

  /** The nodes the scan visits, in order: artifacts are visited but not entered. */
  ghost function ScanOrder(d: Dom, n: NodeId): seq<NodeId>
    requires WellFormed(d) && Has(d, n)
    decreases |d.nodes| - n, 0, 0
  {
    [n] + if d.nodes[n].artifact then [] else ScanOrderFrom(d, n, 0)
  }

  ghost function ScanOrderFrom(d: Dom, p: NodeId, i: nat): seq<NodeId>
    requires WellFormed(d) && Has(d, p) && i <= |d.nodes[p].children|
    decreases |d.nodes| - p - 1, 1, |d.nodes[p].children| - i
  {
    assert NodeOk(d, p);
    if i == |d.nodes[p].children| then []
    else ScanOrder(d, d.nodes[p].children[i]) + ScanOrderFrom(d, p, i + 1)
  }

  /** `n` is below `root` with no artifact strictly between. */
  ghost predicate InScan(d: Dom, root: NodeId, n: NodeId)
    requires WellFormed(d) && Has(d, root) && Has(d, n)
  {
    assert NodeOk(d, n);
    n == root || (d.nodes[n].parent.Some? && !d.nodes[d.nodes[n].parent.value].artifact && InScan(d, root, d.nodes[n].parent.value))
  }

  /** An author element of the scanned tree that carries the id. */
  ghost predicate HoldsId(d: Dom, root: NodeId, id: JsString, n: NodeId)
    requires WellFormed(d) && Has(d, root)
  {
    Has(d, n) && InScan(d, root, n) && IsAuthorElement(d, n) && d.nodes[n].id == id
  }

  ghost function Authors(d: Dom, order: seq<NodeId>): nat
    requires AllIn(d, order)
  {
    if order == [] then 0 else (if d.nodes[order[0]].artifact then 0 else 1) + Authors(d, order[1..])
  }

  ghost function Holders(d: Dom, order: seq<NodeId>, id: JsString): nat
    requires AllIn(d, order)
  {
    if order == [] then 0
    else (if IsAuthorElement(d, order[0]) && d.nodes[order[0]].id == id then 1 else 0) + Holders(d, order[1..], id)
  }

  ghost predicate ChildLimitsIn(d: Dom, order: seq<NodeId>)
    requires WellFormed(d) && AllIn(d, order)
  {
    forall i :: 0 <= i < |order| && !d.nodes[order[i]].artifact ==> ChildLimits(d, order[i])
  }

  /** The page stays within every limit of the scan. */
  ghost predicate WithinScanLimits(d: Dom, root: NodeId)
    requires WellFormed(d) && Has(d, root)
  {
    var order := ScanOrder(d, root);
    && AllIn(d, order)
    && Authors(d, order) <= MAX_ID_SCAN_NODES
    && |order| - Authors(d, order) <= MAX_ARTIFACT_SCAN
    && ChildLimitsIn(d, order)
  }

  // ---- The recursive form ----

  /** Counters of a running scan, or its early end: a second holder, or a limit. */
  datatype Scan = Scanning(authors: nat, artifacts: nat, matches: nat) | Duplicate | Failed

  function ScanNode(d: Dom, id: JsString, n: NodeId, st: Scan): Scan
    requires WellFormed(d) && Has(d, n)
    decreases |d.nodes| - n, 0, 0
  {
    if !st.Scanning? then st
    else
      var entered := Enter(d, id, n, st);
      if !entered.Scanning? || d.nodes[n].artifact then entered else ScanChildren(d, id, n, 0, entered)
  }

  /** The first visit of a node, up to reading its child list. */
  function Enter(d: Dom, id: JsString, n: NodeId, st: Scan): Scan
    requires Has(d, n) && st.Scanning?
  {
    var v := d.nodes[n];
    if v.artifact then
      if st.artifacts + 1 > MAX_ARTIFACT_SCAN then Failed else st.(artifacts := st.artifacts + 1)
    else if st.authors + 1 > MAX_ID_SCAN_NODES then Failed
    else
      var holds := v.kind.Element? && v.id == id;
      if holds && st.matches + 1 > 1 then Duplicate
      else if |v.children| > MAX_CHILD_SCAN + MAX_ARTIFACT_SCAN then Failed
      else st.(authors := st.authors + 1, matches := st.matches + if holds then 1 else 0)
  }

  /** The first `upTo` children stay within the child limits. */
  predicate ChildCountsOk(d: Dom, p: NodeId, upTo: nat)
    requires WellFormed(d) && Has(d, p) && upTo <= |d.nodes[p].children|
  {
    assert NodeOk(d, p);
    var authors := |Author(d, d.nodes[p].children[..upTo])|;
    authors <= MAX_CHILD_SCAN && upTo - authors <= MAX_ARTIFACT_SCAN
  }

  function ScanChildren(d: Dom, id: JsString, p: NodeId, i: nat, st: Scan): Scan
    requires WellFormed(d) && Has(d, p) && i <= |d.nodes[p].children|
    decreases |d.nodes| - p - 1, 1, |d.nodes[p].children| - i
  {
    assert NodeOk(d, p);
    if !st.Scanning? || i == |d.nodes[p].children| then st
    else if !ChildCountsOk(d, p, i + 1) then Failed
    else ScanChildren(d, id, p, i + 1, ScanNode(d, id, d.nodes[p].children[i], st))
  }

  function Outcome(st: Scan): Option<bool> {
    match st
    case Failed => None
    case Duplicate => Some(false)
    case Scanning(_, _, matches) => Some(matches == 1)
  }

  /** `uniqueIdStatus` without a budget: nothing when a limit is hit first. */
  function UniqueIdStatus(d: Dom, root: NodeId, id: JsString): Option<bool>
    requires WellFormed(d) && Has(d, root)
  {
    Outcome(ScanNode(d, id, root, Scanning(0, 0, 0)))
  }

  // ---- The scan order visits the tree once ----

  lemma {:induction false} OrderMembers(d: Dom, n: NodeId)
    requires WellFormed(d) && Has(d, n)
    ensures AllIn(d, ScanOrder(d, n))
    ensures forall x :: x in ScanOrder(d, n) ==> x >= n && Has(d, x) && InScan(d, n, x)
    decreases |d.nodes| - n, 0, 0
  {
    if !d.nodes[n].artifact { OrderMembersFrom(d, n, 0); }
  }

  lemma {:induction false} OrderMembersFrom(d: Dom, p: NodeId, i: nat)
    requires WellFormed(d) && Has(d, p) && i <= |d.nodes[p].children| && !d.nodes[p].artifact
    ensures AllIn(d, ScanOrderFrom(d, p, i))
    ensures forall x :: x in ScanOrderFrom(d, p, i) ==> x > p && Has(d, x) && InScan(d, p, x)
    ensures forall x :: x in ScanOrderFrom(d, p, i) ==>
      exists j :: i <= j < |d.nodes[p].children| && Has(d, d.nodes[p].children[j]) && InScan(d, d.nodes[p].children[j], x)
    decreases |d.nodes| - p - 1, 1, |d.nodes[p].children| - i
  {
    assert NodeOk(d, p);
    if i < |d.nodes[p].children| {
      var child := d.nodes[p].children[i];
      OrderMembers(d, child);
      OrderMembersFrom(d, p, i + 1);
      forall x | x in ScanOrder(d, child) ensures InScan(d, p, x) && x > p {
        InScanTransitive(d, p, child, x);
      }
    }
  }

  lemma {:induction false} InScanTransitive(d: Dom, root: NodeId, middle: NodeId, n: NodeId)
    requires WellFormed(d) && Has(d, root) && Has(d, middle) && Has(d, n)
    requires InScan(d, root, middle) && InScan(d, middle, n)
    ensures InScan(d, root, n)
  {
    assert NodeOk(d, n);
    if n != middle { InScanTransitive(d, root, middle, d.nodes[n].parent.value); }
  }

  lemma {:induction false} InScanAbove(d: Dom, root: NodeId, n: NodeId)
    requires WellFormed(d) && Has(d, root) && Has(d, n) && InScan(d, root, n)
    ensures n >= root
  {
    assert NodeOk(d, n);
    if n != root { InScanAbove(d, root, d.nodes[n].parent.value); }
  }

  /** Every node of the scanned tree is visited. */
  lemma {:induction false} OrderComplete(d: Dom, root: NodeId, n: NodeId)
    requires WellFormed(d) && Has(d, root) && Has(d, n) && InScan(d, root, n)
    ensures n in ScanOrder(d, root)
  {
    assert NodeOk(d, n);
    if n != root {
      var p := d.nodes[n].parent.value;
      OrderComplete(d, root, p);
      assert NodeOk(d, p);
      var i := Position(d.nodes[p].children, n);
      ChildInOrder(d, root, p, i);
    }
  }

  lemma {:induction false} ChildInOrder(d: Dom, root: NodeId, p: NodeId, i: nat)
    requires WellFormed(d) && Has(d, root) && Has(d, p) && i < |d.nodes[p].children| && !d.nodes[p].artifact
    requires p in ScanOrder(d, root)
    ensures d.nodes[p].children[i] in ScanOrder(d, root)
    decreases |d.nodes| - root, 0, 0
  {
    if p == root {
      SkipTo(d, root, 0, i);
    } else {
      ChildInOrderFrom(d, root, 0, p, i);
    }
  }

  lemma {:induction false} ChildInOrderFrom(d: Dom, root: NodeId, k: nat, p: NodeId, i: nat)
    requires WellFormed(d) && Has(d, root) && Has(d, p) && i < |d.nodes[p].children| && !d.nodes[p].artifact
    requires k <= |d.nodes[root].children| && p in ScanOrderFrom(d, root, k)
    ensures d.nodes[p].children[i] in ScanOrderFrom(d, root, k)
    decreases |d.nodes| - root - 1, 1, |d.nodes[root].children| - k
  {
    assert NodeOk(d, root);
    if p in ScanOrder(d, d.nodes[root].children[k]) {
      ChildInOrder(d, d.nodes[root].children[k], p, i);
    } else {
      ChildInOrderFrom(d, root, k + 1, p, i);
    }
  }

  lemma {:induction false} SkipTo(d: Dom, p: NodeId, k: nat, i: nat)
    requires WellFormed(d) && Has(d, p) && k <= i < |d.nodes[p].children|
    ensures d.nodes[p].children[i] in ScanOrderFrom(d, p, k)
    decreases i - k
  {
    assert NodeOk(d, p);
    if k < i {
      SkipTo(d, p, k + 1, i);
    } else {
      assert ScanOrder(d, d.nodes[p].children[k])[0] == d.nodes[p].children[k];
    }
  }

  ghost predicate NoRepeat(s: seq<NodeId>) {
    forall i, j :: 0 <= i < j < |s| ==> s[i] != s[j]
  }

  lemma {:induction false} OrderNoRepeat(d: Dom, n: NodeId)
    requires WellFormed(d) && Has(d, n)
    ensures NoRepeat(ScanOrder(d, n))
    decreases |d.nodes| - n, 0, 0
  {
    if !d.nodes[n].artifact {
      OrderNoRepeatFrom(d, n, 0);
      OrderMembersFrom(d, n, 0);
    }
  }

  lemma {:induction false} OrderNoRepeatFrom(d: Dom, p: NodeId, i: nat)
    requires WellFormed(d) && Has(d, p) && i <= |d.nodes[p].children| && !d.nodes[p].artifact
    ensures NoRepeat(ScanOrderFrom(d, p, i))
    decreases |d.nodes| - p - 1, 1, |d.nodes[p].children| - i
  {
    assert NodeOk(d, p);
    if i < |d.nodes[p].children| {
      var child := d.nodes[p].children[i];
      OrderNoRepeat(d, child);
      OrderNoRepeatFrom(d, p, i + 1);
      var a, b := ScanOrder(d, child), ScanOrderFrom(d, p, i + 1);
      forall k, l | 0 <= k < |a| && 0 <= l < |b| ensures a[k] != b[l] {
        if a[k] == b[l] { CommonNode(d, p, i, a[k]); }
      }
    }
  }

  lemma CommonNode(d: Dom, p: NodeId, i: nat, x: NodeId)
    requires WellFormed(d) && Has(d, p) && i < |d.nodes[p].children| && !d.nodes[p].artifact
    requires Has(d, d.nodes[p].children[i])
    requires x in ScanOrder(d, d.nodes[p].children[i]) && x in ScanOrderFrom(d, p, i + 1)
    ensures false
  {
    OrderMembers(d, d.nodes[p].children[i]);
    OrderMembersFrom(d, p, i + 1);
    var j :| i + 1 <= j < |d.nodes[p].children| && Has(d, d.nodes[p].children[j]) && InScan(d, d.nodes[p].children[j], x);
    SiblingsDisjoint(d, p, i, j, x);
  }

  /** No node is below two different children of one parent. */
  lemma {:induction false} SiblingsDisjoint(d: Dom, p: NodeId, i: nat, j: nat, x: NodeId)
    requires WellFormed(d) && Has(d, p) && Has(d, x) && i < j < |d.nodes[p].children|
    requires Has(d, d.nodes[p].children[i]) && Has(d, d.nodes[p].children[j])
    requires InScan(d, d.nodes[p].children[i], x) && InScan(d, d.nodes[p].children[j], x)
    ensures false
  {
    assert NodeOk(d, p) && NodeOk(d, x);
    var a, b := d.nodes[p].children[i], d.nodes[p].children[j];
    if x == a {
      InScanAbove(d, b, p);
    } else if x == b {
      InScanAbove(d, a, p);
    } else {
      SiblingsDisjoint(d, p, i, j, d.nodes[x].parent.value);
    }
  }

  // ---- What the recursive form decides ----

  lemma {:induction false} CountsSplit(d: Dom, a: seq<NodeId>, b: seq<NodeId>, id: JsString)
    requires AllIn(d, a) && AllIn(d, b)
    ensures AllIn(d, a + b)
    ensures Authors(d, a + b) == Authors(d, a) + Authors(d, b)
    ensures Holders(d, a + b, id) == Holders(d, a, id) + Holders(d, b, id)
    ensures Authors(d, a) <= |a|
  {
    if a == [] {
      assert a + b == b;
    } else {
      assert (a + b)[1..] == a[1..] + b;
      CountsSplit(d, a[1..], b, id);
    }
  }

  lemma LimitsSplit(d: Dom, a: seq<NodeId>, b: seq<NodeId>)
    requires WellFormed(d) && AllIn(d, a) && AllIn(d, b)
    ensures AllIn(d, a + b) && (ChildLimitsIn(d, a + b) <==> ChildLimitsIn(d, a) && ChildLimitsIn(d, b))
  {
    if ChildLimitsIn(d, a + b) {
      forall i | 0 <= i < |a| && !d.nodes[a[i]].artifact ensures ChildLimits(d, a[i]) { assert (a + b)[i] == a[i]; }
      forall i | 0 <= i < |b| && !d.nodes[b[i]].artifact ensures ChildLimits(d, b[i]) { assert (a + b)[|a| + i] == b[i]; }
    }
  }

  /** What a stretch of the scan order holds. */
  datatype Tally = Tally(authors: nat, artifacts: nat, holders: nat, limits: bool)

  ghost function Plus(a: Tally, b: Tally): Tally {
    Tally(a.authors + b.authors, a.artifacts + b.artifacts, a.holders + b.holders, a.limits && b.limits)
  }

  ghost function TallyOf(d: Dom, id: JsString, order: seq<NodeId>): Tally
    requires WellFormed(d) && AllIn(d, order)
  {
    CountsSplit(d, order, [], id);
    Tally(Authors(d, order), |order| - Authors(d, order), Holders(d, order, id), ChildLimitsIn(d, order))
  }

  ghost function TallyNode(d: Dom, id: JsString, n: NodeId): Tally
    requires WellFormed(d) && Has(d, n)
  {
    OrderMembers(d, n);
    TallyOf(d, id, ScanOrder(d, n))
  }

  ghost function TallyFrom(d: Dom, id: JsString, p: NodeId, i: nat): Tally
    requires WellFormed(d) && Has(d, p) && i <= |d.nodes[p].children| && !d.nodes[p].artifact
  {
    OrderMembersFrom(d, p, i);
    TallyOf(d, id, ScanOrderFrom(d, p, i))
  }

  lemma TallyUnfolds(d: Dom, id: JsString, n: NodeId)
    requires WellFormed(d) && Has(d, n)
    ensures TallyNode(d, id, n) == if d.nodes[n].artifact then Tally(0, 1, 0, true)
      else Plus(Tally(1, 0, if d.nodes[n].kind.Element? && d.nodes[n].id == id then 1 else 0, ChildLimits(d, n)), TallyFrom(d, id, n, 0))
  {
    OrderMembers(d, n);
    var order := ScanOrder(d, n);
    assert order[0] == n;
    if d.nodes[n].artifact {
      assert order == [n];
    } else {
      OrderMembersFrom(d, n, 0);
      CountsSplit(d, [n], ScanOrderFrom(d, n, 0), id);
      LimitsSplit(d, [n], ScanOrderFrom(d, n, 0));
      assert ChildLimitsIn(d, [n]) <==> ChildLimits(d, n) by { assert [n][0] == n; }
    }
  }

  lemma TallyNothing(d: Dom, id: JsString)
    requires WellFormed(d)
    ensures TallyOf(d, id, []) == Tally(0, 0, 0, true)
  {
  }

  lemma TallyFromUnfolds(d: Dom, id: JsString, p: NodeId, i: nat)
    requires WellFormed(d) && Has(d, p) && i <= |d.nodes[p].children| && !d.nodes[p].artifact
    ensures AllIn(d, d.nodes[p].children)
    ensures TallyFrom(d, id, p, i) == if i == |d.nodes[p].children| then Tally(0, 0, 0, true)
      else Plus(TallyNode(d, id, d.nodes[p].children[i]), TallyFrom(d, id, p, i + 1))
  {
    hide Authors, Holders, ChildLimitsIn, ScanOrder;
    assert NodeOk(d, p);
    TallyNothing(d, id);
    OrderMembersFrom(d, p, i);
    if i < |d.nodes[p].children| {
      OrderMembers(d, d.nodes[p].children[i]);
      OrderMembersFrom(d, p, i + 1);
      CountsSplit(d, ScanOrder(d, d.nodes[p].children[i]), ScanOrderFrom(d, p, i + 1), id);
      LimitsSplit(d, ScanOrder(d, d.nodes[p].children[i]), ScanOrderFrom(d, p, i + 1));
    }
  }

  /** The result of scanning from `st`, told by counting and without the traversal. */
  ghost predicate Tells(t: Tally, st: Scan, r: Scan)
    requires st.Scanning?
  {
    match r
    case Scanning(authors, artifacts, matches) =>
      && authors == st.authors + t.authors && artifacts == st.artifacts + t.artifacts
      && matches == st.matches + t.holders && InBounds(r) && t.limits
    case Duplicate => st.matches + t.holders >= 2
    case Failed => st.authors + t.authors > MAX_ID_SCAN_NODES || st.artifacts + t.artifacts > MAX_ARTIFACT_SCAN || !t.limits
  }

  ghost predicate InBounds(st: Scan) {
    st.Scanning? && st.authors <= MAX_ID_SCAN_NODES && st.artifacts <= MAX_ARTIFACT_SCAN && st.matches <= 1
  }

  /** Scanning one part and then another tells of both; an ended scan stays ended. */
  lemma TellsThen(a: Tally, b: Tally, st: Scan, mid: Scan, r: Scan)
    requires InBounds(st) && Tells(a, st, mid)
    requires if mid.Scanning? then Tells(b, mid, r) else r == mid
    ensures Tells(Plus(a, b), st, r)
  {
  }

  lemma {:induction false} ScanNodeTells(d: Dom, id: JsString, n: NodeId, st: Scan)
    requires WellFormed(d) && Has(d, n) && InBounds(st)
    ensures Tells(TallyNode(d, id, n), st, ScanNode(d, id, n, st))
    decreases |d.nodes| - n, 0, 0
  {
    hide TallyNode, TallyFrom, AuthorElements, ScanOrder, ScanOrderFrom, ScanChildren;
    TallyUnfolds(d, id, n);
    if !d.nodes[n].artifact {
      TallyFromUnfolds(d, id, n, 0);
      var entered := Enter(d, id, n, st);
      if entered.Scanning? {
        ScanChildrenTells(d, id, n, 0, entered);
      }
    }
  }

  lemma KidFollows(d: Dom, p: NodeId, i: nat)
    requires WellFormed(d) && Has(d, p) && i < |d.nodes[p].children|
    ensures p < d.nodes[p].children[i] && Has(d, d.nodes[p].children[i])
  {
    assert NodeOk(d, p);
  }

  lemma {:induction false} ScanChildrenTells(d: Dom, id: JsString, p: NodeId, i: nat, st: Scan)
    requires WellFormed(d) && Has(d, p) && i <= |d.nodes[p].children| && !d.nodes[p].artifact && InBounds(st)
    requires |d.nodes[p].children| <= MAX_CHILD_SCAN + MAX_ARTIFACT_SCAN && ChildCountsOk(d, p, i)
    ensures Tells(TallyFrom(d, id, p, i).(limits := ChildLimits(d, p) && TallyFrom(d, id, p, i).limits), st,
                  ScanChildren(d, id, p, i, st))
    decreases |d.nodes| - p - 1, 1, |d.nodes[p].children| - i
  {
    hide ScanNode, TallyNode, TallyFrom, AuthorElements, Author, WellFormed;
    var kids := d.nodes[p].children;
    TallyFromUnfolds(d, id, p, i);
    if i == |kids| {
      assert kids[..i] == kids;
    } else {
      KidFollows(d, p, i);
      PrefixCounts(d, kids, i + 1);
      if ChildCountsOk(d, p, i + 1) {
        ScanNodeTells(d, id, kids[i], st);
        var next := ScanNode(d, id, kids[i], st);
        var rest := TallyFrom(d, id, p, i + 1);
        if next.Scanning? { ScanChildrenTells(d, id, p, i + 1, next); }
        TellsThen(TallyNode(d, id, kids[i]), rest.(limits := ChildLimits(d, p) && rest.limits), st, next,
                  ScanChildren(d, id, p, i + 1, next));
      }
    }
  }

  ghost predicate OneHolder(d: Dom, root: NodeId, id: JsString)
    requires WellFormed(d) && Has(d, root)
  {
    exists n :: HoldsId(d, root, id, n) && forall m :: HoldsId(d, root, id, m) ==> m == n
  }

  ghost function HolderSet(d: Dom, order: seq<NodeId>, id: JsString): set<NodeId>
    requires AllIn(d, order)
  {
    set n | n in order && IsAuthorElement(d, n) && d.nodes[n].id == id
  }

  lemma {:induction false} HoldersCount(d: Dom, order: seq<NodeId>, id: JsString)
    requires AllIn(d, order) && NoRepeat(order)
    ensures Holders(d, order, id) == |HolderSet(d, order, id)|
  {
    if order != [] {
      var rest := order[1..];
      HoldersCount(d, rest, id);
      if IsAuthorElement(d, order[0]) && d.nodes[order[0]].id == id {
        assert HolderSet(d, order, id) == HolderSet(d, rest, id) + {order[0]};
      } else {
        assert HolderSet(d, order, id) == HolderSet(d, rest, id);
      }
    }
  }

  lemma OneHolderCount(d: Dom, root: NodeId, id: JsString)
    requires WellFormed(d) && Has(d, root)
    ensures AllIn(d, ScanOrder(d, root))
    ensures Holders(d, ScanOrder(d, root), id) == 1 <==> OneHolder(d, root, id)
  {
    hide Holders, HolderSet, HoldsId, ScanOrder, WellFormed;
    OrderMembers(d, root);
    var holders := HolderSet(d, ScanOrder(d, root), id);
    OrderNoRepeat(d, root);
    HoldersCount(d, ScanOrder(d, root), id);
    forall n: NodeId ensures n in holders <==> HoldsId(d, root, id, n) { HolderMembers(d, root, id, n); }
    if holders != {} {
      var n :| n in holders;
      OneMember(holders, n);
      assert HoldsId(d, root, id, n);
      if OneHolder(d, root, id) {
        var only: NodeId :| HoldsId(d, root, id, only) && forall m :: HoldsId(d, root, id, m) ==> m == only;
        assert n == only;
        forall m | m in holders ensures m == n { assert HoldsId(d, root, id, m); }
        assert holders == {n};
      }
      if holders == {n} {
        forall m | HoldsId(d, root, id, m) ensures m == n { assert m in holders; }
      }
    }
  }

  lemma OneMember(s: set<NodeId>, n: NodeId)
    requires n in s
    ensures |s| == 1 <==> s == {n}
  {
    var others := s - {n};
    assert s == {n} + others && |s| == 1 + |others|;
    if |others| == 0 { assert others == {}; }
  }

  lemma HolderMembers(d: Dom, root: NodeId, id: JsString, n: NodeId)
    requires WellFormed(d) && Has(d, root) && AllIn(d, ScanOrder(d, root))
    ensures n in HolderSet(d, ScanOrder(d, root), id) <==> HoldsId(d, root, id, n)
  {
    hide ScanOrder, WellFormed;
    OrderMembers(d, root);
    if HoldsId(d, root, id, n) { OrderComplete(d, root, n); }
  }

  /**
   * The scan says "unique" exactly when the page is within its limits and one author element holds the id; it
   * answers every page within the limits, and past them it can still only answer "not unique" truthfully.
   */
  lemma UniqueIdDecides(d: Dom, root: NodeId, id: JsString)
    requires WellFormed(d) && Has(d, root)
    ensures UniqueIdStatus(d, root, id) == Some(true) <==> WithinScanLimits(d, root) && OneHolder(d, root, id)
    ensures WithinScanLimits(d, root) ==> UniqueIdStatus(d, root, id) == Some(OneHolder(d, root, id))
    ensures UniqueIdStatus(d, root, id) == Some(false) ==> !OneHolder(d, root, id)
  {
    OrderMembers(d, root);
    ScanNodeTells(d, id, root, Scanning(0, 0, 0));
    OneHolderCount(d, root, id);
  }

  // ---- The explicit stack ----

  datatype Entry = Entry(node: NodeId, loaded: bool, next: nat, authorChildren: nat, artifactChildren: nat)

  ghost predicate EntryOk(d: Dom, e: Entry) {
    && WellFormed(d) && Has(d, e.node)
    && (e.loaded ==>
          && !d.nodes[e.node].artifact && e.next <= |d.nodes[e.node].children| && AllIn(d, d.nodes[e.node].children)
          && e.authorChildren == |Author(d, d.nodes[e.node].children[..e.next])|
          && e.artifactChildren == e.next - e.authorChildren && ChildCountsOk(d, e.node, e.next))
  }

  /** What an entry still has to scan. */
  ghost function Resume(d: Dom, id: JsString, e: Entry, st: Scan): Scan
    requires EntryOk(d, e)
  {
    if e.loaded then ScanChildren(d, id, e.node, e.next, st) else ScanNode(d, id, e.node, st)
  }

  ghost function Todo(d: Dom, e: Entry): seq<NodeId>
    requires EntryOk(d, e)
  {
    if e.loaded then ScanOrderFrom(d, e.node, e.next) else ScanOrder(d, e.node)
  }

  lemma ResumeChild(d: Dom, id: JsString, top: Entry, parent: Entry, child: Entry, st: Scan)
    requires EntryOk(d, top) && EntryOk(d, parent) && EntryOk(d, child) && st.Scanning? && !child.loaded
    requires top.loaded && parent.loaded && parent.node == top.node && parent.next == top.next + 1
    requires child.node == d.nodes[top.node].children[top.next]
    ensures Resume(d, id, top, st) == Resume(d, id, parent, Resume(d, id, child, st))
  {
  }

  lemma TodoChild(d: Dom, top: Entry, parent: Entry, child: Entry)
    requires EntryOk(d, top) && EntryOk(d, parent) && EntryOk(d, child) && !child.loaded
    requires top.loaded && parent.loaded && parent.node == top.node && parent.next == top.next + 1
    requires child.node == d.nodes[top.node].children[top.next]
    ensures Todo(d, top) == Todo(d, child) + Todo(d, parent)
  {
  }

  /** The traversal stack, its top first. */
  datatype Stack = Empty | Push(top: Entry, rest: Stack)

  ghost predicate StackOk(d: Dom, pending: Stack) {
    pending.Push? ==> EntryOk(d, pending.top) && StackOk(d, pending.rest)
  }

  /** What the recursion still has to do for a stack. */
  ghost function Finish(d: Dom, id: JsString, pending: Stack, st: Scan): Scan
    requires StackOk(d, pending)
  {
    match pending
    case Empty => st
    case Push(top, rest) => Finish(d, id, rest, Resume(d, id, top, st))
  }

  lemma {:induction false} FinishEnded(d: Dom, id: JsString, pending: Stack, st: Scan)
    requires StackOk(d, pending) && !st.Scanning?
    ensures Finish(d, id, pending, st) == st
  {
    if pending.Push? { FinishEnded(d, id, pending.rest, st); }
  }

  /** The nodes a stack still has to visit. */
  ghost function Remaining(d: Dom, pending: Stack): seq<NodeId>
    requires StackOk(d, pending)
  {
    match pending
    case Empty => []
    case Push(top, rest) => Todo(d, top) + Remaining(d, rest)
  }

  ghost function Height(pending: Stack): nat {
    match pending case Empty => 0 case Push(_, rest) => 1 + Height(rest)
  }

  /** The next node was not visited before, so the `seen` test of the scan never stops it. */
  lemma NextIsNew(d: Dom, root: NodeId, visited: seq<NodeId>, remaining: seq<NodeId>)
    requires WellFormed(d) && Has(d, root) && remaining != [] && visited + remaining == ScanOrder(d, root)
    ensures remaining[0] !in visited
  {
    OrderNoRepeat(d, root);
    var order := ScanOrder(d, root);
    assert order[|visited|] == remaining[0];
    assert forall k :: 0 <= k < |visited| ==> order[k] == visited[k];
  }

  /** Reading the next child replaces the entry by the entry past it with the child on top: same result ... */
  lemma PushChildFinish(d: Dom, id: JsString, rest: Stack, top: Entry, parent: Entry, child: Entry, st: Scan)
    requires StackOk(d, rest) && EntryOk(d, top) && EntryOk(d, parent) && EntryOk(d, child) && st.Scanning?
    requires top.loaded && parent.loaded && parent.node == top.node && parent.next == top.next + 1
    requires !child.loaded && child.node == d.nodes[top.node].children[top.next]
    ensures Finish(d, id, Push(child, Push(parent, rest)), st) == Finish(d, id, Push(top, rest), st)
  {
    ResumeChild(d, id, top, parent, child, st);
  }

  /** ... same nodes to visit ... */
  lemma PushChildRemaining(d: Dom, rest: Stack, top: Entry, parent: Entry, child: Entry)
    requires StackOk(d, rest) && EntryOk(d, top) && EntryOk(d, parent) && EntryOk(d, child)
    requires top.loaded && parent.loaded && parent.node == top.node && parent.next == top.next + 1
    requires !child.loaded && child.node == d.nodes[top.node].children[top.next]
    ensures Remaining(d, Push(child, Push(parent, rest))) == Remaining(d, Push(top, rest))
  {
    TodoChild(d, top, parent, child);
    Associates(Todo(d, child), Todo(d, parent), Remaining(d, rest));
  }

  lemma Associates(a: seq<NodeId>, b: seq<NodeId>, c: seq<NodeId>)
    ensures a + b + c == a + (b + c)
  {
  }

  /** ... and opening a node moves it from the nodes to visit to the visited ones. */
  lemma OpenRemaining(d: Dom, visited: seq<NodeId>, rest: Stack, top: Entry, open: Entry)
    requires StackOk(d, rest) && EntryOk(d, top) && !top.loaded
    requires !d.nodes[top.node].artifact ==> EntryOk(d, open) && open == Entry(top.node, true, 0, 0, 0)
    ensures visited + Remaining(d, Push(top, rest))
      == visited + [top.node] + if d.nodes[top.node].artifact then Remaining(d, rest) else Remaining(d, Push(open, rest))
    ensures |Remaining(d, Push(top, rest))|
      == 1 + |if d.nodes[top.node].artifact then Remaining(d, rest) else Remaining(d, Push(open, rest))|
  {
    hide Todo, WellFormed;
    TodoOpen(d, top, open);
    MoveFirst(visited, top.node, if d.nodes[top.node].artifact then [] else Todo(d, open), Remaining(d, rest));
  }

  lemma TodoOpen(d: Dom, top: Entry, open: Entry)
    requires EntryOk(d, top) && !top.loaded
    requires !d.nodes[top.node].artifact ==> EntryOk(d, open) && open == Entry(top.node, true, 0, 0, 0)
    ensures Todo(d, top) == [top.node] + if d.nodes[top.node].artifact then [] else Todo(d, open)
  {
  }

  lemma MoveFirst(visited: seq<NodeId>, n: NodeId, todo: seq<NodeId>, rest: seq<NodeId>)
    ensures visited + ([n] + todo + rest) == visited + [n] + (todo + rest)
    ensures |[n] + todo + rest| == 1 + |todo + rest| && [] + rest == rest
  {
  }

  /** Counting the next child of an opened node against the limits of its list. */
  method AdvanceEntry(d: Dom, top: Entry) returns (r: Option<Entry>)
    requires EntryOk(d, top) && top.loaded && top.next < |d.nodes[top.node].children|
    ensures Has(d, d.nodes[top.node].children[top.next])
    ensures r.Some? <==> ChildCountsOk(d, top.node, top.next + 1)
    ensures r.Some? ==>
      EntryOk(d, r.value) && r.value.loaded && r.value.node == top.node && r.value.next == top.next + 1
  {
    var kids := d.nodes[top.node].children;
    assert kids[..top.next + 1][..top.next] == kids[..top.next];
    var parent := top.(next := top.next + 1);
    if d.nodes[kids[top.next]].artifact {
      parent := parent.(artifactChildren := parent.artifactChildren + 1);
      if parent.artifactChildren > MAX_ARTIFACT_SCAN { return None; }
    } else {
      parent := parent.(authorChildren := parent.authorChildren + 1);
      if parent.authorChildren > MAX_CHILD_SCAN { return None; }
    }
    return Some(parent);
  }

  /** Opening a node: the tests before its child list is read. */
  method EnterNode(d: Dom, id: JsString, n: NodeId, st: Scan, budget: VisitBudget) returns (r: Scan)
    requires Has(d, n) && InBounds(st)
    modifies budget
    ensures old(budget.Exhausted()) ==> budget.Exhausted()
    ensures r == Enter(d, id, n, st) || (r.Failed? && budget.Exhausted())
    ensures r.Scanning? ==> InBounds(r)
    ensures budget.Spends(1)
  {
    var v := d.nodes[n];
    if v.artifact {
      return if st.artifacts + 1 > MAX_ARTIFACT_SCAN then Failed else st.(artifacts := st.artifacts + 1);
    }
    if st.authors + 1 > MAX_ID_SCAN_NODES { return Failed; }
    var ok := budget.Visit();
    if !ok { return Failed; }
    var matches := st.matches;
    if v.kind.Element? && v.id == id {
      matches := matches + 1;
      if matches > 1 { return Duplicate; }
    }
    if |v.children| > MAX_CHILD_SCAN + MAX_ARTIFACT_SCAN { return Failed; }
    return st.(authors := st.authors + 1, matches := matches);
  }

  /** The stack and the counters account for the whole recursion. */
  ghost predicate Running(d: Dom, id: JsString, root: NodeId, pending: Stack, st: Scan, visited: seq<NodeId>) {
    && WellFormed(d) && Has(d, root) && StackOk(d, pending) && InBounds(st)
    && Finish(d, id, pending, st) == ScanNode(d, id, root, Scanning(0, 0, 0))
    && visited + Remaining(d, pending) == ScanOrder(d, root)
  }

  /** Opening the top entry. */
  lemma OpenTop(d: Dom, id: JsString, root: NodeId, pending: Stack, st: Scan, visited: seq<NodeId>, entered: Scan)
    requires Running(d, id, root, pending, st, visited) && pending.Push? && !pending.top.loaded
    requires entered == Enter(d, id, pending.top.node, st)
    ensures pending.top.node !in visited && |visited| < |ScanOrder(d, root)|
    ensures var next := if d.nodes[pending.top.node].artifact then pending.rest
                        else Push(Entry(pending.top.node, true, 0, 0, 0), pending.rest);
      if entered.Scanning? && InBounds(entered) then
        && Running(d, id, root, next, entered, visited + [pending.top.node])
        && |Remaining(d, next)| < |Remaining(d, pending)|
      else if !entered.Scanning? then UniqueIdStatus(d, root, id) == Outcome(entered)
      else true
  {
    var top, rest := pending.top, pending.rest;
    assert NodeOk(d, top.node);
    var open := Entry(top.node, true, 0, 0, 0);
    NextIsNew(d, root, visited, Remaining(d, pending));
    OpenRemaining(d, visited, rest, top, open);
    if !entered.Scanning? { FinishEnded(d, id, rest, entered); }
  }

  /** A step left the scan running on a smaller rest, or ended it with its final answer. */
  ghost predicate Stepped(d: Dom, id: JsString, root: NodeId, pending: Stack, next: Stack, st: Scan,
                          visited: seq<NodeId>,
                          exhausted: bool)
    requires WellFormed(d) && Has(d, root) && StackOk(d, pending)
  {
    if st.Scanning? then
      && Running(d, id, root, next, st, visited)
      && (|| |Remaining(d, next)| < |Remaining(d, pending)|
          || (|Remaining(d, next)| == |Remaining(d, pending)| && Shape(next) < Shape(pending)))
    else UniqueIdStatus(d, root, id) == Outcome(st) || (st.Failed? && exhausted)
  }

  ghost function Shape(pending: Stack): nat {
    if pending.Push? && pending.top.loaded then Height(pending) + 1 else 0
  }

  /** A child list past its limits fails the whole scan. */
  lemma ChildListFails(d: Dom, id: JsString, root: NodeId, pending: Stack, st: Scan, visited: seq<NodeId>)
    requires Running(d, id, root, pending, st, visited) && pending.Push? && pending.top.loaded
    requires pending.top.next < |d.nodes[pending.top.node].children|
    requires !ChildCountsOk(d, pending.top.node, pending.top.next + 1)
    ensures UniqueIdStatus(d, root, id) == None
    ensures Stepped(d, id, root, pending, pending.rest, Failed, visited, false)
  {
    FinishEnded(d, id, pending.rest, Failed);
  }

  method OpenEntry(d: Dom, id: JsString, root: NodeId, pending: Stack, st: Scan, seen: set<NodeId>,
                   ghost visited: seq<NodeId>,
                   budget: VisitBudget) returns (next: Stack, st': Scan)
    requires Running(d, id, root, pending, st, visited) && pending.Push? && !pending.top.loaded
    requires (forall x :: x in seen ==> x in visited) && |seen| <= st.authors + st.artifacts
    modifies budget
    ensures old(budget.Exhausted()) ==> budget.Exhausted()
    ensures Stepped(d, id, root, pending, next, st', visited + [pending.top.node], budget.Exhausted())
    ensures st'.Scanning? ==> st'.authors + st'.artifacts == st.authors + st.artifacts + 1
    ensures budget.Spends(1) && |visited| < |ScanOrder(d, root)|
  {
    var n := pending.top.node;
    OpenTop(d, id, root, pending, st, visited, Enter(d, id, n, st));
    next := if d.nodes[n].artifact then pending.rest else Push(Entry(n, true, 0, 0, 0), pending.rest);
    if |seen| >= MAX_ID_SCAN_NODES + MAX_ARTIFACT_SCAN || n in seen {
      st' := Failed;
    } else {
      st' := EnterNode(d, id, n, st, budget);
    }
  }

  /** An opened node without further children leaves the stack. */
  lemma PopTop(d: Dom, id: JsString, root: NodeId, pending: Stack, st: Scan, visited: seq<NodeId>)
    requires Running(d, id, root, pending, st, visited) && pending.Push? && pending.top.loaded
    requires pending.top.next >= |d.nodes[pending.top.node].children|
    ensures Stepped(d, id, root, pending, pending.rest, st, visited, false)
  {
    assert Todo(d, pending.top) == [];
    assert Remaining(d, pending) == Remaining(d, pending.rest);
  }

  /** Reading the next child keeps the scan running. */
  lemma PushTop(d: Dom, id: JsString, root: NodeId, pending: Stack, st: Scan, visited: seq<NodeId>, parent: Entry,
                child: Entry)
    requires Running(d, id, root, pending, st, visited) && pending.Push? && pending.top.loaded
    requires EntryOk(d, parent) && EntryOk(d, child) && parent.loaded && !child.loaded
    requires parent.node == pending.top.node && parent.next == pending.top.next + 1
    requires child.node == d.nodes[pending.top.node].children[pending.top.next]
    ensures Stepped(d, id, root, pending, Push(child, Push(parent, pending.rest)), st, visited, false)
  {
    hide Finish, Remaining, ScanNode, ScanOrder;
    assert StackOk(d, Push(parent, pending.rest));
    PushChildFinish(d, id, pending.rest, pending.top, parent, child, st);
    PushChildRemaining(d, pending.rest, pending.top, parent, child);
  }

  method ReadChild(d: Dom, id: JsString, root: NodeId, pending: Stack, st: Scan, ghost visited: seq<NodeId>)
    returns (next: Stack, st': Scan)
    requires Running(d, id, root, pending, st, visited) && pending.Push? && pending.top.loaded
    ensures Stepped(d, id, root, pending, next, st', visited, false)
    ensures st'.Scanning? ==> st' == st
  {
    hide Stepped, Finish, Remaining, ScanNode, ScanChildren, ScanOrder, ScanOrderFrom, UniqueIdStatus;
    var top, rest := pending.top, pending.rest;
    if top.next >= |d.nodes[top.node].children| {
      PopTop(d, id, root, pending, st, visited);
      return rest, st;
    }
    var advanced := AdvanceEntry(d, top);
    if advanced.None? {
      ChildListFails(d, id, root, pending, st, visited);
      return rest, Failed;
    }
    var child := Entry(d.nodes[top.node].children[top.next], false, 0, 0, 0);
    PushTop(d, id, root, pending, st, visited, advanced.value, child);
    return Push(child, Push(advanced.value, rest)), st;
  }

  /** `uniqueIdStatus`: the stack answers what the recursion answers, unless the visit budget runs out first. */
  method ScanUniqueId(d: Dom, root: NodeId, id: JsString, budget: VisitBudget) returns (r: Option<bool>)
    requires WellFormed(d) && Has(d, root)
    modifies budget
    ensures old(budget.Exhausted()) ==> budget.Exhausted()
    ensures r == UniqueIdStatus(d, root, id) || (r.None? && budget.Exhausted())
    ensures budget.Spends(|ScanOrder(d, root)|)
  {
    var pending := Push(Entry(root, false, 0, 0, 0), Empty);
    var seen: set<NodeId> := {};
    var st := Scanning(0, 0, 0);
    ghost var visited: seq<NodeId> := [];
    while pending.Push? && st.Scanning?
      invariant old(budget.Exhausted()) ==> budget.Exhausted()
      invariant budget.Spends(|visited|) && |visited| <= |ScanOrder(d, root)|
      invariant StackOk(d, pending)
      invariant if st.Scanning? then Running(d, id, root, pending, st, visited)
                else UniqueIdStatus(d, root, id) == Outcome(st) || (st.Failed? && budget.Exhausted())
      invariant st.Scanning? ==> (forall x :: x in seen ==> x in visited) && |seen| <= st.authors + st.artifacts
      decreases st.Scanning?, |Remaining(d, pending)|, Shape(pending)
    {
      if pending.top.loaded {
        var next, after := ReadChild(d, id, root, pending, st, visited);
        if after.Scanning? { pending := next; }
        st := after;
      } else {
        var n := pending.top.node;
        var next, after := OpenEntry(d, id, root, pending, st, seen, visited, budget);
        seen, visited := seen + {n}, visited + [n];
        if after.Scanning? { pending := next; }
        st := after;
      }
    }
    return Outcome(st);
  }
}
