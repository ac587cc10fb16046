/** Stable DOM locators: capture as a printer of paths, resolution as the parser that walks them back. */
module StableLocator {
  import opened JsText
  import opened Options
  import opened DomTree
  import opened DomReads
  import opened PathSegments

  const MAX_BOUNDARIES: nat := 16

  datatype TargetKind = ElementTarget | ShadowRootTarget | FrameDocumentTarget

  datatype BoundaryKind = ShadowRootBoundary | FrameDocumentBoundary

  datatype Boundary = Boundary(kind: BoundaryKind, hostPath: seq<Segment>)

  datatype Locator = Locator(targetKind: TargetKind, boundaries: seq<Boundary>, path: seq<Segment>)

  // ---- The locator parser ----

  predicate ValidPath(path: seq<Segment>) {
    |path| <= MAX_DEPTH && forall i :: 0 <= i < |path| ==> ValidSegment(path[i])
  }

  function HostSegments(boundaries: seq<Boundary>): nat {
    if boundaries == [] then 0
    else HostSegments(boundaries[..|boundaries| - 1]) + |boundaries[|boundaries| - 1].hostPath|
  }

  predicate ValidLocator(l: Locator) {
    && |l.boundaries| <= MAX_BOUNDARIES
    && (forall i :: 0 <= i < |l.boundaries| ==> ValidPath(l.boundaries[i].hostPath))
    && ValidPath(l.path)
    && HostSegments(l.boundaries) + |l.path| <= MAX_DEPTH
  }

  // ---- Capture ----

  /** The segments from below the root down to `n`; nothing when some node on the way cannot be captured. */
  function SegmentsDown(d: Dom, n: NodeId): (r: Option<seq<Segment>>)
    requires WellFormed(d) && Has(d, n)
    ensures r.Some? ==> |r.value| == Depth(d, n)
  {
    assert NodeOk(d, n);
    if Excluded(d, n) then None
    else if d.nodes[n].parent.None? then Some([])
    else if !d.nodes[n].kind.Element? then None
    else
      match SegmentsDown(d, d.nodes[n].parent.value)
      case None => None
      case Some(above) => match SegmentOf(d, n) case None => None case Some(s) => Some(above + [s])
  }

  datatype Captured = Captured(boundaries: seq<Boundary>, path: seq<Segment>, depth: nat)

  function BoundaryKindOf(k: Kind): BoundaryKind {
    if k.ShadowRoot? then ShadowRootBoundary else FrameDocumentBoundary
  }

  /** A path under a boundary, below the capture of the boundary's host. */
  function BelowHost(host: Option<Captured>, kind: BoundaryKind, path: seq<Segment>): Option<Captured> {
    if host.None? || host.value.depth + |path| > MAX_DEPTH then None
    else Some(Captured(host.value.boundaries + [Boundary(kind, host.value.path)], path, host.value.depth + |path|))
  }

  /** `captureElement`: the path inside its own root, below the capture of the root's host. */
  function CaptureElement(d: Dom, n: NodeId): (r: Option<Captured>)
    requires WellFormed(d) && Has(d, n)
    ensures r.Some? ==> 0 < |r.value.path| <= r.value.depth <= MAX_DEPTH
    decreases n
  {
    var root := Root(d, n);
    RootBelow(d, n);
    assert NodeOk(d, root);
    if Depth(d, n) == 0 || Depth(d, n) > MAX_DEPTH then None
    else if !(d.nodes[root].kind.Document? || d.nodes[root].kind.ShadowRoot?) then None
    else
      match SegmentsDown(d, n)
      case None => None
      case Some(path) =>
        if d.nodes[root].host.None? then
          if root == d.top then Some(Captured([], path, |path|)) else None
        else
          BelowHost(CaptureElement(d, d.nodes[root].host.value), BoundaryKindOf(d.nodes[root].kind), path)
  }

  /** The element whose path names a target: itself, a shadow host, or a frame element. */
  function TargetElement(d: Dom, n: NodeId, kind: TargetKind): Option<NodeId>
    requires WellFormed(d) && Has(d, n)
  {
    match kind
    case ElementTarget => if d.nodes[n].kind.Element? then Some(n) else None
    case ShadowRootTarget => if d.nodes[n].kind.ShadowRoot? then d.nodes[n].host else None
    case FrameDocumentTarget => if d.nodes[n].kind.Document? then d.nodes[n].host else None
  }

  /** `capture`, with nothing where the source throws. */
  function Capture(d: Dom, n: NodeId, kind: TargetKind): Option<Locator>
    requires WellFormed(d) && Has(d, n)
  {
    assert NodeOk(d, n);
    match TargetElement(d, n, kind)
    case None => None
    case Some(target) =>
      if Excluded(d, target) then None
      else
        match CaptureElement(d, target)
        case None => None
        case Some(c) =>
          var l := Locator(kind, c.boundaries, c.path);
          if ValidLocator(l) then Some(l) else None
  }

  // ---- Resolution ----

  /** The child a segment names, when every piece of its evidence agrees. */
  function StepDown(d: Dom, parent: NodeId, segment: Segment): (r: Option<NodeId>)
    requires WellFormed(d) && Has(d, parent)
    ensures r.Some? ==> Has(d, r.value) && d.nodes[r.value].parent == Some(parent) && d.nodes[r.value].kind.Element?
  {
    match ElementChildAt(d, parent, segment.siblingIndex)
    case None => None
    case Some(child) =>
      if !Excluded(d, child) && SegmentOf(d, child) == Some(Normalize(segment)) then Some(child) else None
  }

  /** Walk a path down from a root, checking every segment. */
  function Descend(d: Dom, root: NodeId, path: seq<Segment>): (r: Option<NodeId>)
    requires WellFormed(d) && Has(d, root)
    ensures r.Some? ==> Has(d, r.value)
    ensures r.Some? && path != [] ==> d.nodes[r.value].parent.Some? && d.nodes[r.value].kind.Element?
  {
    if path == [] then Some(root)
    else
      match Descend(d, root, path[..|path| - 1])
      case None => None
      case Some(parent) => StepDown(d, parent, path[|path| - 1])
  }

  /** `resolvePath`: a non-empty path within the total depth. */
  function ResolvePath(d: Dom, root: NodeId, path: seq<Segment>, traversed: nat): (r: Option<NodeId>)
    requires WellFormed(d) && Has(d, root)
    ensures r.Some? ==> Has(d, r.value) && d.nodes[r.value].parent.Some? && d.nodes[r.value].kind.Element?
  {
    if path == [] || traversed + |path| > MAX_DEPTH then None else Descend(d, root, path)
  }

  /** The boundary root an element hosts, when it may be entered. */
  function HostedRoot(d: Dom, n: NodeId, kind: BoundaryKind): (r: Option<NodeId>)
    requires WellFormed(d) && Has(d, n)
    ensures r.Some? ==> Has(d, r.value) && !Excluded(d, r.value) && d.nodes[r.value].host == Some(n) && r.value > n
    ensures r.Some? ==> d.nodes[r.value].parent.None? && BoundaryKindOf(d.nodes[r.value].kind) == kind
  {
    assert NodeOk(d, n);
    var hosted := if kind.ShadowRootBoundary? then d.nodes[n].shadow else d.nodes[n].frame;
    if hosted.None? then None
    else
      assert NodeOk(d, hosted.value);
      if Excluded(d, hosted.value) then None else hosted
  }

  /** Cross one boundary: resolve its host and enter what it hosts. */
  function CrossStep(d: Dom, root: NodeId, traversed: nat, b: Boundary): (r: Option<(NodeId, nat)>)
    requires WellFormed(d) && Has(d, root)
    ensures r.Some? ==> Has(d, r.value.0) && d.nodes[r.value.0].parent.None? && !Excluded(d, r.value.0)
    ensures r.Some? ==> d.nodes[r.value.0].kind.Document? || d.nodes[r.value.0].kind.ShadowRoot?
    ensures r.Some? ==> r.value.1 == traversed + |b.hostPath| <= MAX_DEPTH
  {
    match ResolvePath(d, root, b.hostPath, traversed)
    case None => None
    case Some(host) =>
      match HostedRoot(d, host, b.kind)
      case None => None
      case Some(next) =>
        assert NodeOk(d, next);
        Some((next, traversed + |b.hostPath|))
  }

  /** Cross boundaries from the top document: the root reached and the segments used. */
  function Cross(d: Dom, boundaries: seq<Boundary>): (r: Option<(NodeId, nat)>)
    requires WellFormed(d)
    ensures r.Some? ==> Has(d, r.value.0) && d.nodes[r.value.0].parent.None? && !Excluded(d, r.value.0)
    ensures r.Some? ==> d.nodes[r.value.0].kind.Document? || d.nodes[r.value.0].kind.ShadowRoot?
    ensures r.Some? ==> r.value.1 == HostSegments(boundaries) <= MAX_DEPTH
  {
    if boundaries == [] then
      assert NodeOk(d, d.top);
      if Excluded(d, d.top) then None else Some((d.top, 0))
    else
      var last := boundaries[|boundaries| - 1];
      match Cross(d, boundaries[..|boundaries| - 1])
      case None => None
      case Some((root, traversed)) => CrossStep(d, root, traversed, last)
  }

  function TargetOf(d: Dom, n: NodeId, kind: TargetKind): (r: Option<NodeId>)
    requires WellFormed(d) && Has(d, n)
    ensures r.Some? ==> Has(d, r.value)
  {
    match kind
    case ElementTarget => Some(n)
    case ShadowRootTarget => HostedRoot(d, n, ShadowRootBoundary)
    case FrameDocumentTarget => HostedRoot(d, n, FrameDocumentBoundary)
  }

  /** `resolve`. */
  function Resolve(d: Dom, l: Locator): (r: Option<NodeId>)
    requires WellFormed(d)
    ensures r.Some? ==> Has(d, r.value)
  {
    if !ValidLocator(l) then None
    else
      match Cross(d, l.boundaries)
      case None => None
      case Some((root, traversed)) =>
        match ResolvePath(d, root, l.path, traversed)
        case None => None
        case Some(n) => TargetOf(d, n, l.targetKind)
  }

  // ---- Capture then resolve ----

  lemma {:induction false} RootBelow(d: Dom, n: NodeId)
    requires WellFormed(d) && Has(d, n)
    ensures Root(d, n) <= n && (Depth(d, n) > 0 ==> Root(d, n) < n)
  {
    assert NodeOk(d, n);
    if d.nodes[n].parent.Some? { RootBelow(d, d.nodes[n].parent.value); }
  }

  /** Printing a path and walking it down from its root ends at the same node. */
  lemma {:induction false} DescendRetraces(d: Dom, n: NodeId)
    requires WellFormed(d) && Has(d, n) && SegmentsDown(d, n).Some?
    ensures Descend(d, Root(d, n), SegmentsDown(d, n).value) == Some(n)
  {
    assert NodeOk(d, n);
    if d.nodes[n].parent.Some? {
      var parent := d.nodes[n].parent.value;
      var path := SegmentsDown(d, n).value;
      DescendRetraces(d, parent);
      CapturedSegmentValid(d, n);
      ChildAtSiblingIndex(d, n);
      assert path[..|path| - 1] == SegmentsDown(d, parent).value;
    }
  }

  /** One more boundary is crossed through its host. */
  lemma CrossOne(d: Dom, boundaries: seq<Boundary>, b: Boundary, root: NodeId, traversed: nat, host: NodeId,
                 next: NodeId)
    requires WellFormed(d) && Has(d, root) && Has(d, host) && Cross(d, boundaries) == Some((root, traversed))
    requires ResolvePath(d, root, b.hostPath, traversed) == Some(host)
    requires HostedRoot(d, host, b.kind) == Some(next)
    ensures Cross(d, boundaries + [b]) == Some((next, traversed + |b.hostPath|))
    ensures HostSegments(boundaries + [b]) == HostSegments(boundaries) + |b.hostPath|
  {
    hide Descend, SegmentOf;
    assert (boundaries + [b])[..|boundaries|] == boundaries;
  }

  /** What a captured element is made of. */
  lemma CapturedParts(d: Dom, n: NodeId)
    requires WellFormed(d) && Has(d, n) && CaptureElement(d, n).Some?
    ensures SegmentsDown(d, n) == Some(CaptureElement(d, n).value.path)
    ensures Has(d, Root(d, n))
    ensures var c := CaptureElement(d, n).value; var root := d.nodes[Root(d, n)];
      if root.host.None? then Root(d, n) == d.top && c.boundaries == [] && c.depth == |c.path|
      else
        && root.host.value < n && Has(d, root.host.value) && CaptureElement(d, root.host.value).Some?
        && var above := CaptureElement(d, root.host.value).value;
        && c.boundaries == above.boundaries + [Boundary(BoundaryKindOf(root.kind), above.path)]
        && c.depth == above.depth + |c.path|
  {
    RootBelow(d, n);
    assert NodeOk(d, Root(d, n));
  }

  /** A captured path resolves at its root as long as the depth bound is kept. */
  lemma PathRetraces(d: Dom, n: NodeId, traversed: nat)
    requires WellFormed(d) && Has(d, n) && CaptureElement(d, n).Some? && Has(d, Root(d, n))
    requires traversed + |CaptureElement(d, n).value.path| <= MAX_DEPTH
    ensures ResolvePath(d, Root(d, n), CaptureElement(d, n).value.path, traversed) == Some(n)
  {
    CapturedParts(d, n);
    DescendRetraces(d, n);
  }

  lemma HostLeadsBack(d: Dom, root: NodeId)
    requires WellFormed(d) && Has(d, root) && !Excluded(d, root) && d.nodes[root].host.Some?
    ensures Has(d, d.nodes[root].host.value)
    ensures HostedRoot(d, d.nodes[root].host.value, BoundaryKindOf(d.nodes[root].kind)) == Some(root)
  {
    assert NodeOk(d, root);
  }

  /** The captured boundaries lead to the root of the captured element, having used the host segments. */
  lemma {:induction false} CrossRetraces(d: Dom, n: NodeId)
    requires WellFormed(d) && Has(d, n) && CaptureElement(d, n).Some?
    ensures var c := CaptureElement(d, n).value;
      && c.depth == HostSegments(c.boundaries) + |c.path|
      && Cross(d, c.boundaries) == Some((Root(d, n), HostSegments(c.boundaries)))
    decreases n
  {
    var root := Root(d, n);
    CapturedParts(d, n);
    SegmentsReachRoot(d, n);
    if d.nodes[root].host.Some? {
      var host := d.nodes[root].host.value;
      var above := CaptureElement(d, host).value;
      CrossRetraces(d, host);
      PathRetraces(d, host, HostSegments(above.boundaries));
      HostLeadsBack(d, root);
      CrossOne(d, above.boundaries, Boundary(BoundaryKindOf(d.nodes[root].kind), above.path), Root(d, host),
               HostSegments(above.boundaries), host, root);
    }
  }

  lemma {:induction false} SegmentsReachRoot(d: Dom, n: NodeId)
    requires WellFormed(d) && Has(d, n) && SegmentsDown(d, n).Some?
    ensures !Excluded(d, Root(d, n))
    ensures Depth(d, n) > 0 ==> d.nodes[n].kind.Element? && !Excluded(d, n)
  {
    assert NodeOk(d, n);
    if d.nodes[n].parent.Some? { SegmentsReachRoot(d, d.nodes[n].parent.value); }
  }

  /**
   * Resolving a captured locator returns the captured node, except that capture never looks at the exclusion of a
   * shadow root or frame document it is asked for, and resolution does.
   */
  lemma ResolveCaptured(d: Dom, n: NodeId, kind: TargetKind)
    requires WellFormed(d) && Has(d, n) && Capture(d, n, kind).Some?
    ensures Resolve(d, Capture(d, n, kind).value) == if kind.ElementTarget? || !Excluded(d, n) then Some(n) else None
  {
    assert NodeOk(d, n);
    var target := TargetElement(d, n, kind).value;
    var c := CaptureElement(d, target).value;
    CapturedParts(d, target);
    CrossRetraces(d, target);
    PathRetraces(d, target, HostSegments(c.boundaries));
    TargetLeadsBack(d, n, kind);
  }

  lemma TargetLeadsBack(d: Dom, n: NodeId, kind: TargetKind)
    requires WellFormed(d) && Has(d, n) && TargetElement(d, n, kind).Some?
    ensures Has(d, TargetElement(d, n, kind).value)
    ensures TargetOf(d, TargetElement(d, n, kind).value, kind) == if kind.ElementTarget? || !Excluded(d, n) then Some(n) else None
  {
    assert NodeOk(d, n);
    if !kind.ElementTarget? { assert NodeOk(d, d.nodes[n].host.value); }
  }

  // ---- Resolve then capture ----

  /** A walked path is the printed path of its end, up to empty lists. */
  lemma {:induction false} SegmentsOfDescent(d: Dom, root: NodeId, path: seq<Segment>)
    requires WellFormed(d) && Has(d, root) && d.nodes[root].parent.None? && !Excluded(d, root)
    requires Descend(d, root, path).Some?
    ensures var n := Descend(d, root, path).value;
      Root(d, n) == root && SegmentsDown(d, n) == Some(NormalizePath(path)) && Depth(d, n) == |path|
  {
    if path != [] {
      var above := path[..|path| - 1];
      SegmentsOfDescent(d, root, above);
      var parent := Descend(d, root, above).value;
      var n := Descend(d, root, path).value;
      assert d.nodes[n].parent == Some(parent);
    }
  }

  function NormalizeBoundaries(boundaries: seq<Boundary>): (r: seq<Boundary>)
    ensures |r| == |boundaries|
  {
    if boundaries == [] then []
    else
      var last := boundaries[|boundaries| - 1];
      NormalizeBoundaries(boundaries[..|boundaries| - 1]) + [Boundary(last.kind, NormalizePath(last.hostPath))]
  }

  /** The same locator with empty lists left out. */
  function NormalizeLocator(l: Locator): Locator {
    Locator(l.targetKind, NormalizeBoundaries(l.boundaries), NormalizePath(l.path))
  }

  lemma {:induction false} NormalPathValid(path: seq<Segment>)
    requires forall i :: 0 <= i < |path| ==> ValidSegment(path[i])
    ensures forall i :: 0 <= i < |path| ==> ValidSegment(NormalizePath(path)[i])
  {
    if path != [] { NormalPathValid(path[..|path| - 1]); }
  }

  lemma {:induction false} NormalBoundariesValid(boundaries: seq<Boundary>)
    requires forall i :: 0 <= i < |boundaries| ==> ValidPath(boundaries[i].hostPath)
    ensures forall i :: 0 <= i < |boundaries| ==> ValidPath(NormalizeBoundaries(boundaries)[i].hostPath)
    ensures HostSegments(NormalizeBoundaries(boundaries)) == HostSegments(boundaries)
  {
    if boundaries != [] {
      var init, last := boundaries[..|boundaries| - 1], boundaries[|boundaries| - 1];
      NormalBoundariesValid(init);
      NormalPathValid(last.hostPath);
      var normal := NormalizeBoundaries(boundaries);
      assert normal[..|normal| - 1] == NormalizeBoundaries(init);
    }
  }

  /** What a crossing is made of. */
  lemma CrossParts(d: Dom, boundaries: seq<Boundary>)
    requires WellFormed(d) && Cross(d, boundaries).Some?
    ensures var root := Cross(d, boundaries).value.0;
      if boundaries == [] then root == d.top && d.nodes[root].host.None?
      else
        && Cross(d, boundaries[..|boundaries| - 1]).Some?
        && var (above, traversed) := Cross(d, boundaries[..|boundaries| - 1]).value;
        && var last := boundaries[|boundaries| - 1];
        && ResolvePath(d, above, last.hostPath, traversed).Some?
        && d.nodes[root].host == ResolvePath(d, above, last.hostPath, traversed)
        && BoundaryKindOf(d.nodes[root].kind) == last.kind
  {
  }

  /** An element on a path walked from the top document is captured without boundaries. */
  lemma CaptureBelowTop(d: Dom, path: seq<Segment>, n: NodeId)
    requires WellFormed(d) && !Excluded(d, d.top) && d.nodes[d.top].parent.None?
    requires path != [] && |path| <= MAX_DEPTH && Descend(d, d.top, path) == Some(n)
    ensures CaptureElement(d, n) == Some(Captured([], NormalizePath(path), |path|))
  {
    hide SegmentOf, Descend, SegmentsDown;
    SegmentsOfDescent(d, d.top, path);
  }

  /** An element whose segments can be captured is captured below the capture of its root's host. */
  lemma CaptureUnderHost(d: Dom, n: NodeId, path: seq<Segment>, root: NodeId, host: NodeId)
    requires WellFormed(d) && Has(d, n) && Has(d, root) && Has(d, host) && SegmentsDown(d, n) == Some(path)
    requires root == Root(d, n) && d.nodes[root].host == Some(host) && path != []
    requires d.nodes[root].kind.Document? || d.nodes[root].kind.ShadowRoot?
    requires |path| <= MAX_DEPTH
    ensures CaptureElement(d, n) == BelowHost(CaptureElement(d, host), BoundaryKindOf(d.nodes[root].kind), path)
  {
    hide SegmentsDown, Chain, Root, Depth, WellFormed, Excluded;
    assert Depth(d, n) == |path|;
  }

  /** An element on a path walked from a hosted root is captured below the capture of the host. */
  lemma CaptureBelowHost(d: Dom, root: NodeId, path: seq<Segment>, n: NodeId, host: Captured)
    requires WellFormed(d) && Has(d, root) && d.nodes[root].parent.None? && !Excluded(d, root)
    requires d.nodes[root].kind.Document? || d.nodes[root].kind.ShadowRoot?
    requires path != [] && Has(d, n) && Descend(d, root, path) == Some(n)
    requires d.nodes[root].host.Some? && Has(d, d.nodes[root].host.value)
    requires CaptureElement(d, d.nodes[root].host.value) == Some(host) && host.depth + |path| <= MAX_DEPTH
    ensures CaptureElement(d, n) == Some(Captured(host.boundaries + [Boundary(BoundaryKindOf(d.nodes[root].kind), host.path)],
                                                  NormalizePath(path), host.depth + |path|))
  {
    hide SegmentOf, CaptureElement, Descend, SegmentsDown, Chain, WellFormed, Root, Depth, NormalizePath;
    SegmentsOfDescent(d, root, path);
    CaptureUnderHost(d, n, NormalizePath(path), root, d.nodes[root].host.value);
  }

  /** An element resolved below crossed boundaries is captured with those boundaries. */
  lemma {:induction false} CaptureOfCrossing(d: Dom, boundaries: seq<Boundary>, path: seq<Segment>, root: NodeId,
                                             traversed: nat, n: NodeId)
    requires WellFormed(d) && Cross(d, boundaries) == Some((root, traversed)) && Has(d, root)
    requires ResolvePath(d, root, path, traversed) == Some(n)
    ensures CaptureElement(d, n) == Some(Captured(NormalizeBoundaries(boundaries), NormalizePath(path), traversed + |path|))
    decreases |boundaries|
  {
    hide Descend, SegmentOf, SegmentsDown, CaptureElement;
    CrossParts(d, boundaries);
    if boundaries == [] {
      CaptureBelowTop(d, path, n);
    } else {
      var init, last := boundaries[..|boundaries| - 1], boundaries[|boundaries| - 1];
      var (above, before) := Cross(d, init).value;
      var host := ResolvePath(d, above, last.hostPath, before).value;
      CaptureOfCrossing(d, init, last.hostPath, above, before, host);
      CaptureBelowHost(d, root, path, n, CaptureElement(d, host).value);
    }
  }

  lemma NormalLocatorValid(l: Locator)
    requires ValidLocator(l)
    ensures ValidLocator(NormalizeLocator(l))
  {
    NormalBoundariesValid(l.boundaries);
    NormalPathValid(l.path);
  }

  /** The element a resolution ends at names the resolved target again. */
  lemma TargetNamesElement(d: Dom, n: NodeId, kind: TargetKind)
    requires WellFormed(d) && Has(d, n) && d.nodes[n].kind.Element? && TargetOf(d, n, kind).Some?
    ensures TargetElement(d, TargetOf(d, n, kind).value, kind) == Some(n)
  {
    assert NodeOk(d, n);
  }

  /** A locator that resolves is the captured locator of what it resolves to, up to empty lists. */
  lemma CaptureResolved(d: Dom, l: Locator)
    requires WellFormed(d) && Resolve(d, l).Some?
    ensures Capture(d, Resolve(d, l).value, l.targetKind) == Some(NormalizeLocator(l))
  {
    var (root, traversed) := Cross(d, l.boundaries).value;
    var n := ResolvePath(d, root, l.path, traversed).value;
    CaptureOfCrossing(d, l.boundaries, l.path, root, traversed, n);
    TargetNamesElement(d, n, l.targetKind);
    NormalLocatorValid(l);
    CapturedParts(d, n);
    SegmentsReachRoot(d, n);
  }

  /** No two targets share a locator, and no target answers to two locators. */
  lemma LocatorsAreUnique(d: Dom, a: Locator, b: Locator)
    requires WellFormed(d) && Resolve(d, a).Some? && Resolve(d, b).Some? && a.targetKind == b.targetKind
    ensures Resolve(d, a) == Resolve(d, b) <==> NormalizeLocator(a) == NormalizeLocator(b)
  {
    CaptureResolved(d, a);
    CaptureResolved(d, b);
    if NormalizeLocator(a) == NormalizeLocator(b) {
      var x, y := Resolve(d, a).value, Resolve(d, b).value;
      NotExcludedTarget(d, a);
      NotExcludedTarget(d, b);
      ResolveCaptured(d, x, a.targetKind);
      ResolveCaptured(d, y, b.targetKind);
    }
  }

  lemma NotExcludedTarget(d: Dom, l: Locator)
    requires WellFormed(d) && Resolve(d, l).Some?
    ensures l.targetKind.ElementTarget? || !Excluded(d, Resolve(d, l).value)
  {
  }

  // ---- The exclusion capture does not see ----

  const HTML: JsString := Ascii("html")

  /** A page whose only element hosts an open shadow root that the exclusion policy hides. */
  function HiddenShadowPage(): Dom {
    var blank := Node(Other, None, [], None, None, None, [], [], [], [], false, false);
    Dom([
      blank.(kind := Document, children := [1]),
      blank.(kind := Element, parent := Some(0), shadow := Some(2), tagName := HTML),
      blank.(kind := ShadowRoot, host := Some(1), excludedByPolicy := true)
    ], 0, {})
  }

  lemma HiddenShadowPageWellFormed()
    ensures WellFormed(HiddenShadowPage()) && |HiddenShadowPage().nodes| == 3
  {
    var d := HiddenShadowPage();
    assert forall n :: 0 <= n < 3 ==> NodeOk(d, n);
  }

  lemma HiddenShadowPageSegment()
    ensures var d := HiddenShadowPage();
      WellFormed(d) && |d.nodes| == 3 && SegmentOf(d, 1) == Some(Segment(HTML, 0, None, None, None)) && Root(d, 1) == 0
  {
    HiddenShadowPageWellFormed();
    var d := HiddenShadowPage();
    var kids := d.nodes[0].children;
    assert kids == [1] && kids[..0] == [];
    assert Author(d, kids) == [1] && AuthorElements(d, kids) == [1];
    assert Position(kids, 1) == 0;
  }

  /** The hidden shadow root is captured, and its locator does not resolve. */
  lemma HiddenShadowRootDoesNotResolve()
    ensures var d := HiddenShadowPage();
      WellFormed(d) && Has(d, 2) && Capture(d, 2, ShadowRootTarget).Some?
      && Resolve(d, Capture(d, 2, ShadowRootTarget).value) == None
  {
    hide SegmentOf, StepDown, CrossStep, Descend;
    HiddenShadowPageSegment();
    var d := HiddenShadowPage();
    var path := [Segment(HTML, 0, None, None, None)];
    SegmentsUnfold(d, 0);
    SegmentsUnfold(d, 1);
    JoinNothing(Some([]), path);
    assert CaptureElement(d, 1) == Some(Captured([], path, 1));
    assert ValidLocator(Locator(ShadowRootTarget, [], path));
    ResolveCaptured(d, 2, ShadowRootTarget);
  }

  // ---- The service ----

  /** A path below the segments of an ancestor. */
  ghost function Joined(above: Option<seq<Segment>>, path: seq<Segment>): Option<seq<Segment>> {
    if above.None? then None else Some(above.value + path)
  }

  lemma JoinNothing(above: Option<seq<Segment>>, path: seq<Segment>)
    ensures Joined(above, []) == above && Joined(Some([]), path) == Some(path)
  {
    if above.Some? { assert above.value + [] == above.value; }
    assert [] + path == path;
  }

  lemma JoinOne(above: Option<seq<Segment>>, s: Segment, path: seq<Segment>)
    ensures Joined(Joined(above, [s]), path) == Joined(above, [s] + path)
  {
    if above.Some? { assert above.value + [s] + path == above.value + ([s] + path); }
  }

  /** The segments of a node from those of its parent. */
  lemma SegmentsUnfold(d: Dom, n: NodeId)
    requires WellFormed(d) && Has(d, n)
    ensures d.nodes[n].parent.None? ==>
      && Root(d, n) == n && Depth(d, n) == 0
      && SegmentsDown(d, n) == if Excluded(d, n) then None else Some([])
    ensures d.nodes[n].parent.Some? ==> var parent := d.nodes[n].parent.value;
      && parent < n && Root(d, parent) == Root(d, n) && Depth(d, parent) + 1 == Depth(d, n)
      && (Excluded(d, parent) ==> SegmentsDown(d, parent).None?)
      && SegmentsDown(d, n) == if Excluded(d, n) || !d.nodes[n].kind.Element? || SegmentOf(d, n).None? then None
                               else Joined(SegmentsDown(d, parent), [SegmentOf(d, n).value])
  {
    hide SegmentOf;
    assert NodeOk(d, n);
  }

  datatype CapturedSegment = CapturedSegment(parent: NodeId, root: NodeId, segment: Segment)

  /** The nesting depth stops capture before the total depth would. */
  ghost predicate TooDeep(c: Option<Captured>, depth: nat) {
    c.Some? && depth + c.value.depth > MAX_DEPTH
  }

  lemma ExcludedRoot(d: Dom, n: NodeId)
    requires WellFormed(d) && Has(d, n)
    ensures Has(d, Root(d, n)) && (Excluded(d, Root(d, n)) ==> SegmentsDown(d, n).None?)
  {
    if SegmentsDown(d, n).Some? { SegmentsReachRoot(d, n); }
  }

  /** The next segment of a path decides whether the walk goes on. */
  lemma DescendOne(d: Dom, root: NodeId, path: seq<Segment>, index: nat, parent: NodeId)
    requires WellFormed(d) && Has(d, root) && Has(d, parent) && index < |path|
    requires Descend(d, root, path[..index]) == Some(parent)
    ensures Descend(d, root, path[..index + 1]) == StepDown(d, parent, path[index])
    ensures StepDown(d, parent, path[index]).None? ==> Descend(d, root, path).None?
  {
    hide StepDown;
    assert path[..index + 1][..index] == path[..index];
    if StepDown(d, parent, path[index]).None? { DescendPrefix(d, root, path, index + 1); }
  }

  lemma DescendNothing(d: Dom, root: NodeId)
    requires WellFormed(d) && Has(d, root)
    ensures Descend(d, root, []) == Some(root)
  {
  }

  lemma {:induction false} DescendPrefix(d: Dom, root: NodeId, path: seq<Segment>, n: nat)
    requires WellFormed(d) && Has(d, root) && n <= |path| && Descend(d, root, path[..n]).None?
    ensures Descend(d, root, path).None?
  {
    hide StepDown;
    if n == |path| {
      assert path[..n] == path;
    } else {
      assert path[..|path| - 1][..n] == path[..n];
      DescendPrefix(d, root, path[..|path| - 1], n);
    }
  }

  /** Boundaries after one that cannot be crossed are not reached. */
  lemma {:induction false} CrossNothing(d: Dom, boundaries: seq<Boundary>, n: nat)
    requires WellFormed(d) && n <= |boundaries| && Cross(d, boundaries[..n]).None?
    ensures Cross(d, boundaries).None?
  {
    hide CrossStep;
    if n == |boundaries| {
      assert boundaries[..n] == boundaries;
    } else {
      assert boundaries[..|boundaries| - 1][..n] == boundaries[..n];
      CrossNothing(d, boundaries[..|boundaries| - 1], n);
    }
  }

  /** The next boundary decides whether the crossing goes on. */
  lemma CrossNext(d: Dom, boundaries: seq<Boundary>, i: nat, root: NodeId, traversed: nat)
    requires WellFormed(d) && Has(d, root) && i < |boundaries| && Cross(d, boundaries[..i]) == Some((root, traversed))
    ensures Cross(d, boundaries[..i + 1]) == CrossStep(d, root, traversed, boundaries[i])
    ensures CrossStep(d, root, traversed, boundaries[i]).None? ==> Cross(d, boundaries).None?
  {
    hide CrossStep;
    assert boundaries[..i + 1][..i] == boundaries[..i];
    if CrossStep(d, root, traversed, boundaries[i]).None? { CrossNothing(d, boundaries, i + 1); }
  }

  // ---- How many visits a capture or a resolution takes ----

  ghost function PathVisits(d: Dom, n: NodeId): nat
    requires WellFormed(d) && Has(d, n)
  {
    if d.nodes[n].parent.None? then 0
    else
      assert NodeOk(d, n);
      SegmentVisits(d, n) + PathVisits(d, d.nodes[n].parent.value)
  }

  lemma PathVisitsUnfold(d: Dom, n: NodeId)
    requires WellFormed(d) && Has(d, n)
    ensures d.nodes[n].parent.Some? ==> Has(d, d.nodes[n].parent.value)
    ensures PathVisits(d, n) == if d.nodes[n].parent.None? then 0 else SegmentVisits(d, n) + PathVisits(d, d.nodes[n].parent.value)
  {
    assert NodeOk(d, n);
  }

  /** The climb to the root, the path below it, and the same for the host of the root. */
  ghost function ElementVisits(d: Dom, n: NodeId): nat
    requires WellFormed(d) && Has(d, n)
    decreases n
  {
    RootBelow(d, n);
    var root := Root(d, n);
    assert NodeOk(d, root);
    Depth(d, n) + 1 + PathVisits(d, n) + if d.nodes[root].host.None? then 0 else ElementVisits(d, d.nodes[root].host.value)
  }

  ghost function CaptureVisits(d: Dom, n: NodeId, kind: TargetKind): nat
    requires WellFormed(d) && Has(d, n)
  {
    var target := TargetElement(d, n, kind);
    assert NodeOk(d, n);
    if target.None? then 0 else ElementVisits(d, target.value)
  }

  /** One step down: the child list twice, and the segment of the child at the index. */
  ghost function StepVisits(d: Dom, parent: NodeId, segment: Segment): nat
    requires WellFormed(d) && Has(d, parent)
  {
    var child := ElementChildAt(d, parent, segment.siblingIndex);
    assert NodeOk(d, parent);
    2 * |d.nodes[parent].children| + if child.None? then 0 else SegmentVisits(d, child.value)
  }

  ghost function DescentVisits(d: Dom, root: NodeId, path: seq<Segment>): nat
    requires WellFormed(d) && Has(d, root)
  {
    if path == [] then 0
    else
      var init := path[..|path| - 1];
      var parent := Descend(d, root, init);
      DescentVisits(d, root, init) + if parent.None? then 0 else StepVisits(d, parent.value, path[|path| - 1])
  }

  lemma DescentGoesOn(d: Dom, root: NodeId, path: seq<Segment>, index: nat, parent: NodeId)
    requires WellFormed(d) && Has(d, root) && index < |path| && Descend(d, root, path[..index]) == Some(parent)
    ensures DescentVisits(d, root, path[..index]) + StepVisits(d, parent, path[index]) <= DescentVisits(d, root, path)
    ensures DescentVisits(d, root, path[..index + 1]) == DescentVisits(d, root, path[..index]) + StepVisits(d, parent, path[index])
  {
    hide StepVisits, Descend;
    assert path[..index + 1][..index] == path[..index];
    DescentGrows(d, root, path, index + 1);
  }

  lemma {:induction false} DescentGrows(d: Dom, root: NodeId, path: seq<Segment>, n: nat)
    requires WellFormed(d) && Has(d, root) && n <= |path|
    ensures DescentVisits(d, root, path[..n]) <= DescentVisits(d, root, path)
  {
    hide StepVisits, Descend;
    if n == |path| {
      assert path[..n] == path;
    } else {
      assert path[..|path| - 1][..n] == path[..n];
      DescentGrows(d, root, path[..|path| - 1], n);
    }
  }

  lemma NoDescent(d: Dom, root: NodeId, path: seq<Segment>)
    requires WellFormed(d) && Has(d, root)
    ensures DescentVisits(d, root, []) == 0 && path[..|path|] == path
  {
  }

  ghost function CrossingVisits(d: Dom, boundaries: seq<Boundary>): nat
    requires WellFormed(d)
  {
    if boundaries == [] then 0
    else
      var init := boundaries[..|boundaries| - 1];
      var root := Cross(d, init);
      CrossingVisits(d, init) + if root.None? then 0 else DescentVisits(d, root.value.0, boundaries[|boundaries| - 1].hostPath)
  }

  lemma CrossingGoesOn(d: Dom, boundaries: seq<Boundary>, i: nat, root: NodeId, traversed: nat)
    requires WellFormed(d) && i < |boundaries| && Cross(d, boundaries[..i]) == Some((root, traversed))
    ensures CrossingVisits(d, boundaries[..i]) + DescentVisits(d, root, boundaries[i].hostPath) <= CrossingVisits(d, boundaries)
    ensures CrossingVisits(d, boundaries[..i + 1])
         == CrossingVisits(d, boundaries[..i]) + DescentVisits(d, root, boundaries[i].hostPath)
  {
    hide DescentVisits, Cross;
    assert boundaries[..i + 1][..i] == boundaries[..i];
    CrossingGrows(d, boundaries, i + 1);
  }

  lemma {:induction false} CrossingGrows(d: Dom, boundaries: seq<Boundary>, n: nat)
    requires WellFormed(d) && n <= |boundaries|
    ensures CrossingVisits(d, boundaries[..n]) <= CrossingVisits(d, boundaries)
  {
    hide DescentVisits, Cross;
    if n == |boundaries| {
      assert boundaries[..n] == boundaries;
    } else {
      assert boundaries[..|boundaries| - 1][..n] == boundaries[..n];
      CrossingGrows(d, boundaries[..|boundaries| - 1], n);
    }
  }

  lemma NoCrossing(d: Dom, boundaries: seq<Boundary>)
    requires WellFormed(d)
    ensures CrossingVisits(d, []) == 0 && boundaries[..0] == [] && boundaries[..|boundaries|] == boundaries
  {
  }

  ghost function ResolveVisits(d: Dom, l: Locator): nat
    requires WellFormed(d)
  {
    var root := Cross(d, l.boundaries);
    CrossingVisits(d, l.boundaries) + if root.None? then 0 else DescentVisits(d, root.value.0, l.path)
  }

  class DomStableLocatorService {
    const dom: Dom
    // Segments captured since the page last changed.
    var segments: map<NodeId, CapturedSegment>

    ghost predicate Remembered(n: NodeId, c: CapturedSegment)
      requires WellFormed(dom)
    {
      Has(dom, n) && dom.nodes[n].parent == Some(c.parent) && c.root == Root(dom, n) && SegmentOf(dom, n) == Some(c.segment)
    }

    ghost predicate Valid()
      reads this
    {
      WellFormed(dom) && forall n :: n in segments ==> Remembered(n, segments[n])
    }

    constructor (dom: Dom)
      requires WellFormed(dom)
      ensures Valid() && this.dom == dom && segments == map[]
    {
      this.dom := dom;
      segments := map[];
    }

    method ForgetCapturedSegments()
      requires Valid()
      modifies this
      ensures Valid() && segments == map[]
    {
      segments := map[];
    }

    /** `containingRoot`: climb to the document or open shadow root. */
    method ContainingRoot(target: NodeId, seen: set<NodeId>, budget: VisitBudget) returns (r: Option<NodeId>)
      requires Valid() && Has(dom, target) && forall x :: x in seen ==> x >= target
      modifies budget
      ensures old(budget.Exhausted()) ==> budget.Exhausted()
      ensures r.Some? ==> r.value == Root(dom, target) && 0 < Depth(dom, target) <= MAX_DEPTH && Has(dom, r.value)
                          && (dom.nodes[r.value].kind.Document? || dom.nodes[r.value].kind.ShadowRoot?)
      ensures r.None? ==> budget.Exhausted() || !(0 < Depth(dom, target) <= MAX_DEPTH)
                          || !(Has(dom, Root(dom, target)) && (dom.nodes[Root(dom, target)].kind.Document?
                                                               || dom.nodes[Root(dom, target)].kind.ShadowRoot?))
      ensures budget.Spends(Depth(dom, target) + 1)
    {
      var current := target;
      var path := seen;
      for depth := 0 to MAX_DEPTH
        invariant old(budget.Exhausted()) ==> budget.Exhausted()
        invariant Has(dom, current) && Root(dom, current) == Root(dom, target)
        invariant Depth(dom, current) + depth == Depth(dom, target) && budget.Spends(depth)
        invariant depth > 0 ==> !dom.nodes[current].kind.Document? && !dom.nodes[current].kind.ShadowRoot?
        invariant forall x :: x in path ==> x >= current
      {
        assert NodeOk(dom, current);
        var ok := budget.Visit();
        if !ok { return None; }
        if dom.nodes[current].parent.None? { return None; }
        var parent := dom.nodes[current].parent.value;
        assert NodeOk(dom, parent);
        if dom.nodes[parent].kind.Document? || (dom.nodes[parent].kind.ShadowRoot? && parent !in path) {
          return Some(parent);
        }
        if parent in path { return None; }
        path := path + {parent};
        current := parent;
      }
      return None;
    }

    /** `capturePath`: from the target up to its root, remembering every captured segment. */
    method CapturePath(root: NodeId, target: NodeId, budget: VisitBudget) returns (r: Option<seq<Segment>>)
      requires Valid() && Has(dom, target) && Root(dom, target) == root && 0 < Depth(dom, target) <= MAX_DEPTH
      modifies this, budget
      ensures Valid()
      ensures old(budget.Exhausted()) ==> budget.Exhausted()
      ensures r == SegmentsDown(dom, target) || (r.None? && budget.Exhausted())
      ensures budget.Spends(PathVisits(dom, target))
    {
      hide SegmentOf, SegmentsDown, PathVisits, SegmentVisits;
      var path: seq<Segment> := [];
      var seen: set<NodeId> := {};
      var current := target;
      JoinNothing(SegmentsDown(dom, target), path);
      while current != root
        invariant Valid() && (old(budget.Exhausted()) ==> budget.Exhausted())
        invariant Has(dom, current) && Root(dom, current) == root
        invariant |path| + Depth(dom, current) == Depth(dom, target) && |seen| <= |path|
        invariant forall x :: x in seen ==> x > current
        invariant SegmentsDown(dom, target) == Joined(SegmentsDown(dom, current), path)
        invariant path != [] ==> !Excluded(dom, current)
        invariant PathVisits(dom, current) <= PathVisits(dom, target)
        invariant budget.Spends(PathVisits(dom, target) - PathVisits(dom, current))
        decreases Depth(dom, current)
      {
        SegmentsUnfold(dom, current);
        PathVisitsUnfold(dom, current);
        if |seen| >= MAX_DEPTH || current in seen || !dom.nodes[current].kind.Element? { return None; }
        seen := seen + {current};
        if Excluded(dom, current) || dom.nodes[current].parent.None? { return None; }
        var parent := dom.nodes[current].parent.value;
        SegmentsUnfold(dom, parent);
        if parent == current || Excluded(dom, parent) { return None; }
        var segment := RememberSegment(current, parent, root, budget);
        if segment.None? { return None; }
        JoinOne(SegmentsDown(dom, parent), segment.value, path);
        path := [segment.value] + path;
        current := parent;
      }
      SegmentsUnfold(dom, root);
      JoinNothing(SegmentsDown(dom, root), path);
      return if path == [] then None else Some(path);
    }

    /** One segment, from memory when its parent and root are the same. */
    method RememberSegment(n: NodeId, parent: NodeId, root: NodeId, budget: VisitBudget) returns (r: Option<Segment>)
      requires Valid() && Placed(dom, n, parent, root)
      modifies this, budget
      ensures Valid()
      ensures old(budget.Exhausted()) ==> budget.Exhausted()
      ensures r == SegmentOf(dom, n) || (r.None? && budget.Exhausted())
      ensures budget.Spends(SegmentVisits(dom, n))
    {
      if n in segments && segments[n].parent == parent && segments[n].root == root {
        return Some(segments[n].segment);
      }
      r := CaptureSegment(dom, n, parent, root, budget);
      if r.Some? {
        segments := segments[n := CapturedSegment(parent, root, r.value)];
      }
    }

    /** `captureElement`: the host of the containing root first, then the path below that root. */
    method CaptureElementAt(target: NodeId, seen: set<NodeId>, depth: nat,
                            budget: VisitBudget) returns (r: Option<Captured>)
      requires Valid() && Has(dom, target) && forall x :: x in seen ==> x > target
      modifies this, budget
      ensures Valid()
      ensures old(budget.Exhausted()) ==> budget.Exhausted()
      ensures r == CaptureElement(dom, target)
              || (r.None? && (budget.Exhausted() || TooDeep(CaptureElement(dom, target), depth)))
      ensures budget.Spends(ElementVisits(dom, target))
      decreases target
    {
      hide SegmentOf, SegmentsDown, Chain;
      if depth >= MAX_DEPTH || target in seen { return None; }
      var root := ContainingRoot(target, seen + {target}, budget);
      RootBelow(dom, target);
      ExcludedRoot(dom, target);
      if root.None? { return None; }
      assert NodeOk(dom, root.value);
      if Excluded(dom, root.value) { return None; }
      var host := dom.nodes[root.value].host;
      if host.None? {
        if root.value != dom.top { return None; }
        var path := CapturePath(root.value, target, budget);
        return if path.None? then None else Some(Captured([], path.value, |path.value|));
      }
      var above := CaptureElementAt(host.value, seen + {target, root.value}, depth + 1, budget);
      if above.None? { return None; }
      var path := CapturePath(root.value, target, budget);
      if path.None? { return None; }
      return BelowHost(above, BoundaryKindOf(dom.nodes[root.value].kind), path.value);
    }

    /** `capture`; it captures exactly what can be captured unless a visit it needed was refused. */
    method CaptureLocator(n: NodeId, kind: TargetKind)
      returns (r: Option<Locator>, remaining: nat, ghost refused: bool)
      requires Valid() && Has(dom, n)
      modifies this
      ensures Valid()
      ensures r == Capture(dom, n, kind) || (r.None? && refused && remaining == 0)
      ensures CaptureVisits(dom, n, kind) <= MAX_LOCATOR_VISITED_NODES ==> r == Capture(dom, n, kind) && !refused
    {
      hide SegmentOf, SegmentsDown, CaptureElement;
      assert NodeOk(dom, n);
      var budget := new VisitBudget();
      var target := TargetElement(dom, n, kind);
      if target.None? || Excluded(dom, target.value) { return None, budget.remaining, false; }
      var captured := CaptureElementAt(target.value, {}, 0, budget);
      remaining, refused := budget.remaining, budget.refused;
      if captured.None? { return None, remaining, refused; }
      var l := Locator(kind, captured.value.boundaries, captured.value.path);
      r := if ValidLocator(l) then Some(l) else None;
    }

    /** `resolvePath`: step from parent to child, matching every segment. */
    method ResolvePathFrom(root: NodeId, path: seq<Segment>, seen: set<NodeId>, traversed: nat, budget: VisitBudget)
      returns (r: Option<NodeId>, seen': set<NodeId>)
      requires Valid() && Has(dom, root) && dom.nodes[root].parent.None? && forall x :: x in seen ==> x <= root
      requires forall i :: 0 <= i < |path| ==> ValidSegment(path[i])
      modifies budget
      ensures old(budget.Exhausted()) ==> budget.Exhausted()
      ensures r == ResolvePath(dom, root, path, traversed) || (r.None? && budget.Exhausted())
      ensures r.Some? ==> forall x :: x in seen' ==> x <= r.value
      ensures budget.Spends(DescentVisits(dom, root, path))
    {
      hide StepDown, SegmentOf, Descend, DescentVisits, StepVisits;
      seen' := seen;
      NoDescent(dom, root, path);
      if path == [] || traversed + |path| > MAX_DEPTH { return None, seen'; }
      var parent := root;
      assert path[..0] == [];
      DescendNothing(dom, root);
      for index := 0 to |path|
        invariant old(budget.Exhausted()) ==> budget.Exhausted()
        invariant Descend(dom, root, path[..index]) == Some(parent) && Has(dom, parent)
        invariant Root(dom, parent) == root && Depth(dom, parent) == index
        invariant budget.Spends(DescentVisits(dom, root, path[..index]))
        invariant forall x :: x in seen' ==> x <= parent
      {
        DescendOne(dom, root, path, index, parent);
        DescentGoesOn(dom, root, path, index, parent);
        var child := StepInto(root, parent, path[index], seen', budget);
        if child.None? { return None, seen'; }
        SegmentsUnfold(dom, child.value);
        seen' := seen' + {child.value};
        parent := child.value;
      }
      assert path[..|path|] == path;
      return Some(parent), seen';
    }

    /** One step of a path: the indexed child, not seen and not excluded, matching its segment. */
    method StepInto(root: NodeId, parent: NodeId, segment: Segment, seen: set<NodeId>, budget: VisitBudget)
      returns (r: Option<NodeId>)
      requires Valid() && Has(dom, parent) && Root(dom, parent) == root && Depth(dom, parent) < MAX_DEPTH
      requires Has(dom, root)
      requires IsTagName(segment.tagName) && forall x :: x in seen ==> x <= parent
      modifies budget
      ensures old(budget.Exhausted()) ==> budget.Exhausted()
      ensures r == StepDown(dom, parent, segment) || (r.None? && budget.Exhausted())
      ensures budget.Spends(StepVisits(dom, parent, segment))
    {
      hide SegmentOf;
      var candidate := ReadElementChildAt(dom, parent, segment.siblingIndex, budget);
      if candidate.None? { return None; }
      assert NodeOk(dom, candidate.value);
      if candidate.value in seen || Excluded(dom, candidate.value) { return None; }
      var ok := MatchesSegment(dom, candidate.value, segment, parent, root, budget);
      return if ok then candidate else None;
    }

    /** One boundary: its host is resolved and what it hosts is entered. */
    method CrossBoundary(root: NodeId, traversed: nat, b: Boundary, seen: set<NodeId>, budget: VisitBudget)
      returns (r: Option<(NodeId, nat)>, seen': set<NodeId>)
      requires Valid() && Has(dom, root) && dom.nodes[root].parent.None? && forall x :: x in seen ==> x <= root
      requires ValidPath(b.hostPath)
      modifies budget
      ensures old(budget.Exhausted()) ==> budget.Exhausted()
      ensures r == CrossStep(dom, root, traversed, b) || (r.None? && budget.Exhausted())
      ensures r.Some? ==> forall x :: x in seen' ==> x <= r.value.0
      ensures budget.Spends(DescentVisits(dom, root, b.hostPath))
    {
      hide Descend;
      var host, path := ResolvePathFrom(root, b.hostPath, seen, traversed, budget);
      if host.None? { return None, path; }
      var next := HostedRoot(dom, host.value, b.kind);
      if next.None? || next.value in path || traversed + |b.hostPath| > MAX_DEPTH { return None, path; }
      return Some((next.value, traversed + |b.hostPath|)), path + {next.value};
    }

    /** `resolve`: cross every boundary, then walk the final path; it finds what is there unless a visit was refused. */
    method ResolveLocator(l: Locator) returns (r: Option<NodeId>, remaining: nat, ghost refused: bool)
      requires Valid()
      ensures r == Resolve(dom, l) || (r.None? && refused && remaining == 0)
      ensures ResolveVisits(dom, l) <= MAX_LOCATOR_VISITED_NODES ==> r == Resolve(dom, l) && !refused
    {
      hide StepDown, Descend, CrossStep, SegmentOf, ValidSegment, CrossingVisits, DescentVisits;
      NoCrossing(dom, l.boundaries);
      if !ValidLocator(l) { return None, MAX_LOCATOR_VISITED_NODES, false; }
      assert NodeOk(dom, dom.top);
      if Excluded(dom, dom.top) {
        CrossNothing(dom, l.boundaries, 0);
        return None, MAX_LOCATOR_VISITED_NODES, false;
      }
      var budget := new VisitBudget();
      var root, traversed, seen := dom.top, 0, {dom.top};
      for i := 0 to |l.boundaries|
        invariant fresh(budget)
        invariant Has(dom, root) && dom.nodes[root].parent.None?
        invariant Cross(dom, l.boundaries[..i]) == Some((root, traversed))
        invariant forall x :: x in seen ==> x <= root
        invariant CrossingVisits(dom, l.boundaries[..i]) <= MAX_LOCATOR_VISITED_NODES ==>
                    !budget.refused && budget.remaining >= MAX_LOCATOR_VISITED_NODES - CrossingVisits(dom, l.boundaries[..i])
      {
        CrossNext(dom, l.boundaries, i, root, traversed);
        CrossingGoesOn(dom, l.boundaries, i, root, traversed);
        var next, path := CrossBoundary(root, traversed, l.boundaries[i], seen, budget);
        if next.None? { return None, budget.remaining, budget.refused; }
        root, traversed, seen := next.value.0, next.value.1, path;
      }
      assert l.boundaries[..|l.boundaries|] == l.boundaries;
      var target, _ := ResolvePathFrom(root, l.path, seen, traversed, budget);
      remaining, refused := budget.remaining, budget.refused;
      if target.None? { return None, remaining, refused; }
      r := TargetOf(dom, target.value, l.targetKind);
    }
  }
}
