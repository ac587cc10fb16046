/**
 * A fixed page: nodes numbered so that a node follows its parent and its host, with runtime artifacts and
 * excluded nodes marked, open shadow roots and authorized frame documents as boundaries.
 */
module DomTree {
  import opened JsText
  import opened Options

  const MAX_DEPTH: nat := 64
  const MAX_CHILD_SCAN: nat := 256
  const MAX_ARTIFACT_SCAN: nat := 4096
  const IFRAME: JsString := Ascii("iframe")

  type NodeId = nat

  /** `ShadowRoot` is an open shadow root; a closed one is an `Other` node without a parent. */
  datatype Kind = Element | Document | ShadowRoot | Other

  datatype Attribute = Attribute(name: JsString, value: JsString)

  datatype Node = Node(
    kind: Kind,
    parent: Option<NodeId>,
    children: seq<NodeId>,
    host: Option<NodeId>,
    shadow: Option<NodeId>,
    frame: Option<NodeId>,
    tagName: JsString,
    id: JsString,
    classList: seq<JsString>,
    attributes: seq<Attribute>,
    artifact: bool,
    excludedByPolicy: bool
  )

  datatype Dom = Dom(nodes: seq<Node>, top: NodeId, artifactNames: set<JsString>)

  predicate Has(d: Dom, n: NodeId) {
    n < |d.nodes|
  }

  predicate Excluded(d: Dom, n: NodeId)
    requires Has(d, n)
  {
    d.nodes[n].excludedByPolicy || d.nodes[n].artifact
  }

  ghost predicate ChildrenOk(d: Dom, n: NodeId)
    requires Has(d, n)
  {
    var kids := d.nodes[n].children;
    && (forall i :: 0 <= i < |kids| ==> n < kids[i] < |d.nodes| && d.nodes[kids[i]].parent == Some(n))
    && (forall i, j :: 0 <= i < j < |kids| ==> kids[i] != kids[j])
  }

  ghost predicate ParentOk(d: Dom, n: NodeId)
    requires Has(d, n)
  {
    var v := d.nodes[n];
    && (v.parent.Some? ==> v.parent.value < n && n in d.nodes[v.parent.value].children)
    && (v.kind.Document? || v.kind.ShadowRoot? ==> v.parent.None?)
  }

  ghost predicate BoundaryOk(d: Dom, n: NodeId)
    requires Has(d, n)
  {
    var v := d.nodes[n];
    && (v.shadow.Some? ==>
          && v.kind.Element? && n < v.shadow.value < |d.nodes|
          && d.nodes[v.shadow.value].kind.ShadowRoot? && d.nodes[v.shadow.value].host == Some(n))
    && (v.frame.Some? ==>
          && v.kind.Element? && n < v.frame.value < |d.nodes|
          && d.nodes[v.frame.value].kind.Document? && d.nodes[v.frame.value].host == Some(n)
          && v.tagName == IFRAME)
    && (v.host.Some? ==>
          && v.host.value < n
          && (v.kind.ShadowRoot? || v.kind.Document?)
          && (v.kind.ShadowRoot? ==> d.nodes[v.host.value].shadow == Some(n))
          && (v.kind.Document? ==> d.nodes[v.host.value].frame == Some(n)))
    && (v.kind.ShadowRoot? ==> v.host.Some?)
  }

  ghost predicate NodeOk(d: Dom, n: NodeId)
    requires Has(d, n)
  {
    ChildrenOk(d, n) && ParentOk(d, n) && BoundaryOk(d, n)
  }

  ghost predicate WellFormed(d: Dom) {
    && Has(d, d.top) && d.nodes[d.top].kind.Document? && d.nodes[d.top].host.None?
    && forall n :: 0 <= n < |d.nodes| ==> NodeOk(d, n)
  }

  /** The nodes from the parentless root down to `n`. */
  function Chain(d: Dom, n: NodeId): (r: seq<NodeId>)
    requires WellFormed(d) && Has(d, n)
    ensures |r| > 0 && r[|r| - 1] == n
    ensures Has(d, r[0]) && d.nodes[r[0]].parent.None?
    ensures |r| == 1 <==> d.nodes[n].parent.None?
  {
    assert NodeOk(d, n);
    if d.nodes[n].parent.None? then [n] else Chain(d, d.nodes[n].parent.value) + [n]
  }

  function Root(d: Dom, n: NodeId): NodeId
    requires WellFormed(d) && Has(d, n)
  {
    Chain(d, n)[0]
  }

  function Depth(d: Dom, n: NodeId): nat
    requires WellFormed(d) && Has(d, n)
  {
    |Chain(d, n)| - 1
  }

  ghost predicate AllIn(d: Dom, ids: seq<NodeId>) {
    forall i :: 0 <= i < |ids| ==> Has(d, ids[i])
  }

  /** The nodes of a child list that are not runtime artifacts. */
  function Author(d: Dom, ids: seq<NodeId>): (r: seq<NodeId>)
    requires AllIn(d, ids)
    ensures |r| <= |ids|
  {
    if ids == [] then []
    else
      var last := ids[|ids| - 1];
      Author(d, ids[..|ids| - 1]) + (if d.nodes[last].artifact then [] else [last])
  }

  predicate IsAuthorElement(d: Dom, n: NodeId)
    requires Has(d, n)
  {
    !d.nodes[n].artifact && d.nodes[n].kind.Element?
  }

  /** The elements of a child list that are not runtime artifacts, in order. */
  function AuthorElements(d: Dom, ids: seq<NodeId>): (r: seq<NodeId>)
    requires AllIn(d, ids)
    ensures |r| <= |Author(d, ids)|
    ensures forall i :: 0 <= i < |r| ==> r[i] in ids && Has(d, r[i]) && IsAuthorElement(d, r[i])
  {
    if ids == [] then []
    else
      var last := ids[|ids| - 1];
      AuthorElements(d, ids[..|ids| - 1]) + (if IsAuthorElement(d, last) then [last] else [])
  }

  /** What one snapshot of a child list may hold. */
  predicate ChildLimits(d: Dom, p: NodeId)
    requires WellFormed(d) && Has(d, p)
  {
    assert NodeOk(d, p);
    var kids := d.nodes[p].children;
    && |kids| <= MAX_CHILD_SCAN + MAX_ARTIFACT_SCAN
    && |Author(d, kids)| <= MAX_CHILD_SCAN
    && |kids| - |Author(d, kids)| <= MAX_ARTIFACT_SCAN
  }

  /** The author element with a given sibling index. */
  function ElementChildAt(d: Dom, p: NodeId, index: nat): (r: Option<NodeId>)
    requires WellFormed(d) && Has(d, p)
    ensures r.Some? ==> Has(d, r.value) && IsAuthorElement(d, r.value) && d.nodes[r.value].parent == Some(p)
  {
    assert NodeOk(d, p);
    var elements := AuthorElements(d, d.nodes[p].children);
    if ChildLimits(d, p) && index < |elements| then Some(elements[index]) else None
  }

  /** The number of author elements before position `at` of a child list. */
  function ElementsBefore(d: Dom, ids: seq<NodeId>, at: nat): nat
    requires AllIn(d, ids) && at <= |ids|
  {
    |AuthorElements(d, ids[..at])|
  }

  function Position(ids: seq<NodeId>, n: NodeId): (r: nat)
    requires n in ids
    ensures r < |ids| && ids[r] == n && n !in ids[..r]
  {
    if ids[0] == n then 0 else 1 + Position(ids[1..], n)
  }

  /** How many author elements precede `n` under its parent. */
  function SiblingIndex(d: Dom, n: NodeId): nat
    requires WellFormed(d) && Has(d, n) && d.nodes[n].parent.Some?
  {
    assert NodeOk(d, n) && NodeOk(d, d.nodes[n].parent.value);
    var kids := d.nodes[d.nodes[n].parent.value].children;
    ElementsBefore(d, kids, Position(kids, n))
  }

  lemma {:induction false} ElementsPrefix(d: Dom, ids: seq<NodeId>, at: nat)
    requires AllIn(d, ids) && at <= |ids|
    ensures AuthorElements(d, ids[..at]) <= AuthorElements(d, ids)
    ensures Author(d, ids[..at]) <= Author(d, ids)
  {
    if at == |ids| {
      assert ids[..at] == ids;
    } else {
      var init := ids[..|ids| - 1];
      ElementsPrefix(d, init, at);
      assert init[..at] == ids[..at];
    }
  }

  lemma ElementAtItsIndex(d: Dom, ids: seq<NodeId>, at: nat)
    requires AllIn(d, ids) && at < |ids| && IsAuthorElement(d, ids[at])
    ensures ElementsBefore(d, ids, at) < |AuthorElements(d, ids)|
    ensures AuthorElements(d, ids)[ElementsBefore(d, ids, at)] == ids[at]
  {
    ElementsPrefix(d, ids, at + 1);
    assert ids[..at + 1][..at] == ids[..at];
  }

  /** Two positions with the same sibling index hold the same author element. */
  lemma {:induction false} IndexOfElement(d: Dom, ids: seq<NodeId>, index: nat)
    requires AllIn(d, ids) && index < |AuthorElements(d, ids)|
    ensures exists at :: 0 <= at < |ids| && ids[at] == AuthorElements(d, ids)[index] && ElementsBefore(d, ids, at) == index
  {
    var init := ids[..|ids| - 1];
    if index < |AuthorElements(d, init)| {
      IndexOfElement(d, init, index);
      var at :| 0 <= at < |init| && init[at] == AuthorElements(d, init)[index] && ElementsBefore(d, init, at) == index;
      assert init[..at] == ids[..at];
      assert ids[at] == init[at];
    } else {
      assert ids[..|ids| - 1] == init;
    }
  }

  /** `elementChildAt` undoes `elementSiblingIndex`. */
  lemma ChildAtSiblingIndex(d: Dom, n: NodeId)
    requires WellFormed(d) && Has(d, n) && d.nodes[n].parent.Some? && IsAuthorElement(d, n)
    requires Has(d, d.nodes[n].parent.value) && ChildLimits(d, d.nodes[n].parent.value)
    ensures ElementChildAt(d, d.nodes[n].parent.value, SiblingIndex(d, n)) == Some(n)
  {
    assert NodeOk(d, n) && NodeOk(d, d.nodes[n].parent.value);
    var kids := d.nodes[d.nodes[n].parent.value].children;
    ElementAtItsIndex(d, kids, Position(kids, n));
  }

  /** ... and `elementSiblingIndex` undoes `elementChildAt`. */
  lemma SiblingIndexOfChildAt(d: Dom, p: NodeId, index: nat)
    requires WellFormed(d) && Has(d, p) && ElementChildAt(d, p, index).Some?
    ensures SiblingIndex(d, ElementChildAt(d, p, index).value) == index
  {
    assert NodeOk(d, p);
    var kids := d.nodes[p].children;
    IndexOfElement(d, kids, index);
    var n := ElementChildAt(d, p, index).value;
    assert Position(kids, n) < |kids|;
  }
}
