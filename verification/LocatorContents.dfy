/** What a captured locator says of the elements on its way, and when there is one, told without the capture itself. */
module LocatorContents {
  import opened JsText
  import opened Options
  import opened BoundedCanonical
  import opened DomTree
  import opened IdScan
  import opened PathSegments
  import opened StableLocator

  // ---- One segment ----

  /** `n` is the only author element of its tree with this id. */
  ghost predicate AloneWithId(d: Dom, n: NodeId, id: JsString)
    requires WellFormed(d) && Has(d, n)
  {
    forall m :: HoldsId(d, Root(d, n), id, m) <==> m == n
  }

  /** As many author elements as this come before `n` under its parent. */
  ghost predicate HasPlace(d: Dom, n: NodeId, index: nat)
    requires WellFormed(d) && Has(d, n) && d.nodes[n].parent.Some?
  {
    assert NodeOk(d, n);
    var kids := d.nodes[d.nodes[n].parent.value].children;
    exists at :: 0 <= at < |kids| && kids[at] == n && index == |set m | m in kids[..at] && Has(d, m) && IsAuthorElement(d, m)|
  }

  /** The class tokens of an element in order; when there are more than may be kept, the smallest of them. */
  ghost predicate ListsClasses(kept: seq<JsString>, list: seq<JsString>) {
    && |kept| <= MAX_CLASSES && StrictlySorted(kept, ClassKey)
    && (forall c :: c in kept ==> c in list && IsClassToken(c))
    && (forall c :: c in list && IsClassToken(c) && c !in kept ==>
          |kept| == MAX_CLASSES && forall k :: k in kept ==> Less(k, c))
  }

  /** An attribute that may be kept, the first one of its name. */
  ghost predicate Offered(d: Dom, list: seq<Attribute>, a: Attribute) {
    && a.name !in d.artifactNames && IsApprovedName(a.name) && |a.value| <= MAX_TOKEN_LENGTH
    && exists i :: 0 <= i < |list| && list[i] == a
         && forall j :: 0 <= j < i && |list[j].value| <= MAX_TOKEN_LENGTH ==> list[j].name != a.name
  }

  /** The approved attributes of an element by name; when there are more than may be kept, those with the smallest names. */
  ghost predicate ListsAttributes(d: Dom, kept: seq<Attribute>, list: seq<Attribute>) {
    && |kept| <= MAX_ATTRIBUTES && StrictlySorted(kept, AttributeKey)
    && (forall a :: a in kept ==> Offered(d, list, a))
    && (forall a :: Offered(d, list, a) && a !in kept ==>
          |kept| == MAX_ATTRIBUTES && forall k :: k in kept ==> Less(k.name, a.name))
  }

  /** A segment tells its element: its tag, its place, its id exactly if nothing else has it, its classes and attributes. */
  ghost predicate Tells(d: Dom, s: Segment, n: NodeId)
    requires WellFormed(d) && Has(d, n) && d.nodes[n].parent.Some?
  {
    var v := d.nodes[n];
    && s.tagName == v.tagName && HasPlace(d, n, s.siblingIndex)
    && (forall id :: s.id == Some(id) <==> v.id == id && 0 < |id| <= MAX_TOKEN_LENGTH && AloneWithId(d, n, id))
    && s.classes != Some([]) && ListsClasses(OrEmpty(s.classes), v.classList)
    && s.attributes != Some([]) && ListsAttributes(d, OrEmpty(s.attributes), v.attributes)
  }

  lemma {:induction false} NoArtifactAbove(d: Dom, n: NodeId)
    requires WellFormed(d) && Has(d, n) && SegmentsDown(d, n).Some?
    ensures Has(d, Root(d, n)) && InScan(d, Root(d, n), n)
  {
    hide SegmentOf;
    assert NodeOk(d, n);
    if d.nodes[n].parent.Some? {
      NoArtifactAbove(d, d.nodes[n].parent.value);
      ParentCaptured(d, n);
    }
  }

  /** An element with a path: it is not excluded, its segment comes last, and its parent has the path before it. */
  lemma ParentCaptured(d: Dom, n: NodeId)
    requires WellFormed(d) && Has(d, n) && SegmentsDown(d, n).Some? && d.nodes[n].parent.Some?
    ensures !Excluded(d, n) && d.nodes[n].kind.Element? && Has(d, d.nodes[n].parent.value)
    ensures var p := d.nodes[n].parent.value;
      && Root(d, p) == Root(d, n) && !Excluded(d, p) && SegmentsDown(d, p).Some? && SegmentOf(d, n).Some?
      && SegmentsDown(d, n).value == SegmentsDown(d, p).value + [SegmentOf(d, n).value]
  {
    hide SegmentOf;
    assert NodeOk(d, n);
  }

  lemma OneHolderIsAlone(d: Dom, n: NodeId)
    requires WellFormed(d) && Has(d, n) && IsAuthorElement(d, n) && Has(d, Root(d, n)) && InScan(d, Root(d, n), n)
    ensures OneHolder(d, Root(d, n), d.nodes[n].id) <==> AloneWithId(d, n, d.nodes[n].id)
  {
    hide InScan, Root;
    var id, root := d.nodes[n].id, Root(d, n);
    assert HoldsId(d, root, id, n);
  }

  /** The id of a captured segment: the element's own, exactly if it may be used and no other author element has it. */
  lemma CapturedIdExactly(d: Dom, n: NodeId, id: JsString)
    requires WellFormed(d) && Has(d, n) && d.nodes[n].parent.Some? && SegmentsDown(d, n).Some?
    ensures SegmentOf(d, n).Some?
    ensures SegmentOf(d, n).value.id == Some(id)
      <==> d.nodes[n].id == id && 0 < |id| <= MAX_TOKEN_LENGTH && AloneWithId(d, n, id)
  {
    hide SiblingIndex, ChildLimits, Canonical, UniqueIdStatus, HoldsId, SegmentsDown, InScan, OneHolder, AloneWithId, Root;
    NoArtifactAbove(d, n);
    ParentCaptured(d, n);
    UniqueIdDecides(d, Root(d, n), d.nodes[n].id);
    OneHolderIsAlone(d, n);
  }

  lemma {:induction false} ElementsAsSet(d: Dom, ids: seq<NodeId>)
    requires AllIn(d, ids) && NoRepeat(ids)
    ensures |AuthorElements(d, ids)| == |set m | m in ids && Has(d, m) && IsAuthorElement(d, m)|
  {
    var all := set m | m in ids && Has(d, m) && IsAuthorElement(d, m);
    if ids == [] {
      assert all == {};
    } else {
      var init, last := ids[..|ids| - 1], ids[|ids| - 1];
      ElementsAsSet(d, init);
      assert last !in init;
      assert all == (set m | m in init && Has(d, m) && IsAuthorElement(d, m)) + if IsAuthorElement(d, last) then {last} else {};
    }
  }

  lemma SiblingIndexIsPlace(d: Dom, n: NodeId)
    requires WellFormed(d) && Has(d, n) && d.nodes[n].parent.Some?
    ensures HasPlace(d, n, SiblingIndex(d, n))
  {
    assert NodeOk(d, n);
    var p := d.nodes[n].parent.value;
    assert NodeOk(d, p);
    var kids := d.nodes[p].children;
    ElementsAsSet(d, kids[..Position(kids, n)]);
  }

  lemma {:induction false} KeptClassesAre(list: seq<JsString>, upTo: nat)
    requires upTo <= |list|
    ensures forall c :: c in KeptClasses(list, upTo) <==> c in list[..upTo] && IsClassToken(c)
  {
    if upTo > 0 {
      KeptClassesAre(list, upTo - 1);
      assert list[..upTo] == list[..upTo - 1] + [list[upTo - 1]];
    }
  }

  lemma ClassesListed(list: seq<JsString>)
    ensures ListsClasses(CanonicalClasses(list, |list|), list)
  {
    hide Canonical, KeptClasses, IsClassToken, Less;
    var source, kept := KeptClasses(list, |list|), CanonicalClasses(list, |list|);
    KeptClassesAre(list, |list|);
    assert list[..|list|] == list;
    CanonicalClassesValid(list);
    CanonicalKeepsSmallest(source, MAX_CLASSES, ClassKey);
    forall c | c in kept ensures c in source {
      var i :| 0 <= i < |kept| && kept[i] == c;
      assert IsFirst(source, kept[i], ClassKey);
    }
    forall c | c in source && c !in kept ensures |kept| == MAX_CLASSES && forall k :: k in kept ==> Less(k, c) {
      var i :| 0 <= i < |source| && source[i] == c;
      assert Kept(kept, ClassKey(source[i]), MAX_CLASSES, ClassKey);
      forall k | k in kept ensures Less(k, c) { var j :| 0 <= j < |kept| && kept[j] == k; }
    }
  }

  lemma FirstSnoc(t: seq<Attribute>, last: Attribute, a: Attribute)
    ensures IsFirst(t + [last], a, AttributeKey)
      <==> IsFirst(t, a, AttributeKey) || (a == last && forall x :: x in t ==> x.name != a.name)
  {
    var longer := t + [last];
    assert longer[|t|] == last && forall i :: 0 <= i < |t| ==> longer[i] == t[i];
    if IsFirst(t, a, AttributeKey) {
      var i :| 0 <= i < |t| && t[i] == a && forall j :: 0 <= j < i ==> AttributeKey(t[j]) != AttributeKey(a);
      assert longer[i] == a;
    }
    if a == last && forall x :: x in t ==> x.name != a.name {
      assert forall j :: 0 <= j < |t| ==> AttributeKey(longer[j]) != AttributeKey(a);
    }
    if IsFirst(longer, a, AttributeKey) {
      var i :| 0 <= i < |longer| && longer[i] == a && forall j :: 0 <= j < i ==> AttributeKey(longer[j]) != AttributeKey(a);
      if i == |t| {
        forall x | x in t ensures x.name != a.name { var j :| 0 <= j < |t| && t[j] == x; assert longer[j] == x; }
      }
    }
  }

  lemma OfferedSnoc(d: Dom, t: seq<Attribute>, last: Attribute, a: Attribute)
    ensures Offered(d, t + [last], a)
      <==> Offered(d, t, a) || (a == last && a.name !in d.artifactNames && IsKeptAttribute(a)
                                && forall x :: x in t && |x.value| <= MAX_TOKEN_LENGTH ==> x.name != a.name)
  {
    hide IsApprovedName;
    var longer := t + [last];
    assert longer[|t|] == last && forall i :: 0 <= i < |t| ==> longer[i] == t[i];
    if Offered(d, t, a) {
      var i :| 0 <= i < |t| && t[i] == a && forall j :: 0 <= j < i && |t[j].value| <= MAX_TOKEN_LENGTH ==> t[j].name != a.name;
      assert longer[i] == a;
    }
    if Offered(d, longer, a) {
      var i :| 0 <= i < |longer| && longer[i] == a
               && forall j :: 0 <= j < i && |longer[j].value| <= MAX_TOKEN_LENGTH ==> longer[j].name != a.name;
      if i == |t| {
        forall x | x in t && |x.value| <= MAX_TOKEN_LENGTH ensures x.name != a.name {
          var j :| 0 <= j < |t| && t[j] == x;
          assert longer[j] == x;
        }
      }
    }
  }

  /** The first attribute of its name among those that may be kept is the first of the element's that may be kept. */
  lemma {:induction false} FirstOffered(d: Dom, list: seq<Attribute>, upTo: nat, a: Attribute)
    requires upTo <= |list|
    ensures IsFirst(KeptAttributes(d, list, upTo), a, AttributeKey) <==> Offered(d, list[..upTo], a)
  {
    hide IsFirst, Offered, IsApprovedName;
    if upTo == 0 {
      NoneOffered(d, a);
    } else {
      var last := list[upTo - 1];
      FirstOffered(d, list, upTo - 1, a);
      KeptAttributesAreKept(d, list, upTo - 1);
      var before := KeptAttributes(d, list, upTo - 1);
      assert list[..upTo] == list[..upTo - 1] + [last];
      OfferedSnoc(d, list[..upTo - 1], last, a);
      FirstSnoc(before, last, a);
      assert before + [] == before;
    }
  }

  lemma NoneOffered(d: Dom, a: Attribute)
    ensures !Offered(d, [], a) && !IsFirst([], a, AttributeKey)
  {
  }

  lemma AttributesListed(d: Dom, list: seq<Attribute>)
    ensures ListsAttributes(d, CanonicalAttributes(d, list, |list|), list)
  {
    hide Canonical, KeptAttributes, IsApprovedName, Less, Offered;
    var source, kept := KeptAttributes(d, list, |list|), CanonicalAttributes(d, list, |list|);
    assert list[..|list|] == list;
    CanonicalAttributesValid(d, list);
    CanonicalKeepsSmallest(source, MAX_ATTRIBUTES, AttributeKey);
    forall a | a in kept ensures Offered(d, list, a) {
      var i :| 0 <= i < |kept| && kept[i] == a;
      assert IsFirst(source, kept[i], AttributeKey);
      FirstOffered(d, list, |list|, a);
    }
    forall a | Offered(d, list, a) && a !in kept
      ensures |kept| == MAX_ATTRIBUTES && forall k :: k in kept ==> Less(k.name, a.name)
    {
      FirstOffered(d, list, |list|, a);
      FirstOrCrowded(source, kept, a);
    }
  }

  lemma FirstOrCrowded(source: seq<Attribute>, kept: seq<Attribute>, a: Attribute)
    requires KeepsSmallest(source, kept, MAX_ATTRIBUTES, AttributeKey) && IsFirst(source, a, AttributeKey) && a !in kept
    ensures |kept| == MAX_ATTRIBUTES && forall k :: k in kept ==> Less(k.name, a.name)
  {
    hide Less;
    var i :| 0 <= i < |source| && source[i] == a && forall j :: 0 <= j < i ==> AttributeKey(source[j]) != AttributeKey(a);
    assert Kept(kept, AttributeKey(source[i]), MAX_ATTRIBUTES, AttributeKey);
    if !HasKey(kept, a.name, AttributeKey) {
      forall k | k in kept ensures Less(k.name, a.name) {
        var j :| 0 <= j < |kept| && kept[j] == k;
        assert Less(AttributeKey(kept[j]), AttributeKey(source[i]));
      }
    }
  }

  /** The last segment of a path tells the element the path was captured for. */
  lemma SegmentTells(d: Dom, n: NodeId)
    requires WellFormed(d) && Has(d, n) && d.nodes[n].parent.Some? && SegmentsDown(d, n).Some?
    ensures SegmentOf(d, n).Some? && Tells(d, SegmentOf(d, n).value, n)
  {
    hide Canonical, ListsClasses, ListsAttributes, AloneWithId, UniqueIdStatus, ChildLimits, AttributeLimits, SegmentsDown,
      Root, HasPlace, SiblingIndex;
    ParentCaptured(d, n);
    SiblingIndexIsPlace(d, n);
    ClassesListed(d.nodes[n].classList);
    AttributesListed(d, d.nodes[n].attributes);
    var s := SegmentOf(d, n).value;
    forall id ensures s.id == Some(id) <==> d.nodes[n].id == id && 0 < |id| <= MAX_TOKEN_LENGTH && AloneWithId(d, n, id) {
      CapturedIdExactly(d, n, id);
    }
  }

  // ---- A whole path and a whole locator ----

  /** Segment by segment the elements from below the root down to `n`. */
  ghost predicate PathTells(d: Dom, path: seq<Segment>, n: NodeId)
    requires WellFormed(d) && Has(d, n)
  {
    var chain := Chain(d, n);
    && |chain| == |path| + 1
    && forall i :: 0 <= i < |path| ==> TellsBelow(d, path[i], chain[i], chain[i + 1])
  }

  ghost predicate TellsBelow(d: Dom, s: Segment, above: NodeId, n: NodeId)
    requires WellFormed(d)
  {
    Has(d, n) && d.nodes[n].parent == Some(above) && Tells(d, s, n)
  }

  lemma {:induction false} PathIsTold(d: Dom, n: NodeId)
    requires WellFormed(d) && Has(d, n) && SegmentsDown(d, n).Some?
    ensures PathTells(d, SegmentsDown(d, n).value, n)
  {
    hide Tells, SegmentOf;
    assert NodeOk(d, n);
    if d.nodes[n].parent.Some? {
      var p := d.nodes[n].parent.value;
      ParentCaptured(d, n);
      PathIsTold(d, p);
      SegmentTells(d, n);
    }
  }

  /** The boundaries name the hosts on the way in, outermost first, each by a path in its own tree. */
  ghost predicate BoundariesTell(d: Dom, boundaries: seq<Boundary>, n: NodeId)
    requires WellFormed(d) && Has(d, n)
    decreases n
  {
    RootBelow(d, n);
    var root := Root(d, n);
    assert NodeOk(d, root);
    if d.nodes[root].host.None? then boundaries == [] && root == d.top
    else
      && boundaries != []
      && var host, last := d.nodes[root].host.value, boundaries[|boundaries| - 1];
      && last.kind == (if d.nodes[root].kind.ShadowRoot? then ShadowRootBoundary else FrameDocumentBoundary)
      && PathTells(d, last.hostPath, host) && BoundariesTell(d, boundaries[..|boundaries| - 1], host)
  }

  lemma {:induction false} ElementIsTold(d: Dom, n: NodeId)
    requires WellFormed(d) && Has(d, n) && CaptureElement(d, n).Some?
    ensures PathTells(d, CaptureElement(d, n).value.path, n) && BoundariesTell(d, CaptureElement(d, n).value.boundaries, n)
    decreases n
  {
    hide PathTells, SegmentsDown;
    CapturedParts(d, n);
    PathIsTold(d, n);
    RootBelow(d, n);
    var root := Root(d, n);
    if d.nodes[root].host.Some? {
      var host := d.nodes[root].host.value;
      ElementIsTold(d, host);
      var c := CaptureElement(d, n).value;
      assert c.boundaries[..|c.boundaries| - 1] == CaptureElement(d, host).value.boundaries;
    }
  }

  /** Every captured locator tells the element it goes to and the hosts on the way, whatever the page. */
  lemma LocatorTells(d: Dom, n: NodeId, kind: TargetKind)
    requires WellFormed(d) && Has(d, n) && Capture(d, n, kind).Some?
    ensures var l, target := Capture(d, n, kind).value, if kind.ElementTarget? then Some(n) else d.nodes[n].host;
      && target.Some? && Has(d, target.value) && l.targetKind == kind
      && PathTells(d, l.path, target.value) && BoundariesTell(d, l.boundaries, target.value)
  {
    hide PathTells, BoundariesTell, CaptureElement;
    assert NodeOk(d, n);
    ElementIsTold(d, TargetElement(d, n, kind).value);
  }

  // ---- When there is a locator ----

  /** What capture asks of an element on the way: not excluded, named, and within every limit on what is read of it. */
  ghost predicate Readable(d: Dom, n: NodeId)
    requires WellFormed(d) && Has(d, n) && d.nodes[n].parent.Some?
  {
    assert NodeOk(d, n);
    var v := d.nodes[n];
    var own := |set i | 0 <= i < |v.attributes| && v.attributes[i].name !in d.artifactNames|;
    && v.kind.Element? && !v.artifact && !v.excludedByPolicy && IsTagName(v.tagName) && ChildLimits(d, v.parent.value)
    && |v.classList| <= MAX_EVIDENCE_SCAN && own <= MAX_EVIDENCE_SCAN && |v.attributes| - own <= MAX_ARTIFACT_SCAN
    && (0 < |v.id| <= MAX_TOKEN_LENGTH ==> UniqueIdStatus(d, Root(d, n), v.id).Some?)
  }

  lemma {:induction false} OwnAttributes(d: Dom, list: seq<Attribute>, upTo: nat)
    requires upTo <= |list|
    ensures AuthorCount(d, list, upTo) == |set i | 0 <= i < upTo && list[i].name !in d.artifactNames|
  {
    var all := set i | 0 <= i < upTo && list[i].name !in d.artifactNames;
    if upTo == 0 {
      assert all == {};
    } else {
      OwnAttributes(d, list, upTo - 1);
      var before := set i | 0 <= i < upTo - 1 && list[i].name !in d.artifactNames;
      assert all == before + if list[upTo - 1].name !in d.artifactNames then {upTo - 1} else {};
    }
  }

  lemma SegmentExactly(d: Dom, n: NodeId)
    requires WellFormed(d) && Has(d, n) && d.nodes[n].parent.Some?
    ensures Readable(d, n) <==> SegmentOf(d, n).Some? && !Excluded(d, n) && d.nodes[n].kind.Element?
  {
    hide Canonical, UniqueIdStatus, ChildLimits, SiblingIndex, Root, AuthorCount;
    OwnAttributes(d, d.nodes[n].attributes, |d.nodes[n].attributes|);
  }

  /** Every element from below the root down to `n` can be read, and neither root nor any of them is excluded. */
  ghost predicate WayReadable(d: Dom, n: NodeId)
    requires WellFormed(d) && Has(d, n)
  {
    assert NodeOk(d, n);
    && !d.nodes[n].artifact && !d.nodes[n].excludedByPolicy
    && (d.nodes[n].parent.Some? ==> Readable(d, n) && WayReadable(d, d.nodes[n].parent.value))
  }

  /** ... and no approved attribute with an over-long name is kept on the way. */
  ghost predicate WayNamed(d: Dom, n: NodeId)
    requires WellFormed(d) && Has(d, n)
  {
    assert NodeOk(d, n);
    d.nodes[n].parent.Some? ==> LongNamesLeftOut(d, d.nodes[n].attributes) && WayNamed(d, d.nodes[n].parent.value)
  }

  lemma {:induction false} PathExactly(d: Dom, n: NodeId)
    requires WellFormed(d) && Has(d, n)
    ensures SegmentsDown(d, n).Some? <==> WayReadable(d, n)
    ensures SegmentsDown(d, n).Some? ==>
      (WayNamed(d, n) <==> forall i :: 0 <= i < |SegmentsDown(d, n).value| ==> ValidSegment(SegmentsDown(d, n).value[i]))
  {
    hide SegmentOf, Readable, LongNamesLeftOut, ValidSegment;
    assert NodeOk(d, n);
    if d.nodes[n].parent.Some? {
      var p := d.nodes[n].parent.value;
      PathExactly(d, p);
      SegmentExactly(d, n);
      if SegmentsDown(d, n).Some? {
        ParentCaptured(d, n);
        CapturedSegmentValid(d, n);
        var above, path := SegmentsDown(d, p).value, SegmentsDown(d, n).value;
        assert path[|above|] == SegmentOf(d, n).value && forall i :: 0 <= i < |above| ==> path[i] == above[i];
      }
    }
  }

  /** The way in: through every host down to an element below the root of its tree. */
  ghost predicate InReach(d: Dom, n: NodeId)
    requires WellFormed(d) && Has(d, n)
    decreases n
  {
    RootBelow(d, n);
    var root := Root(d, n);
    assert NodeOk(d, root);
    && Depth(d, n) > 0 && WayReadable(d, n) && (d.nodes[root].kind.Document? || d.nodes[root].kind.ShadowRoot?)
    && if d.nodes[root].host.None? then root == d.top else InReach(d, d.nodes[root].host.value)
  }

  /** The elements on the way in, and the roots entered through a host. */
  ghost function Steps(d: Dom, n: NodeId): (nat, nat)
    requires WellFormed(d) && Has(d, n)
    decreases n
  {
    RootBelow(d, n);
    var root := Root(d, n);
    assert NodeOk(d, root);
    if d.nodes[root].host.None? then (Depth(d, n), 0)
    else var (elements, roots) := Steps(d, d.nodes[root].host.value); (elements + Depth(d, n), roots + 1)
  }

  ghost predicate AllNamed(d: Dom, n: NodeId)
    requires WellFormed(d) && Has(d, n)
    decreases n
  {
    RootBelow(d, n);
    var root := Root(d, n);
    assert NodeOk(d, root);
    WayNamed(d, n) && (d.nodes[root].host.Some? ==> AllNamed(d, d.nodes[root].host.value))
  }

  ghost predicate ValidParts(c: Captured) {
    && (forall i :: 0 <= i < |c.boundaries| ==> ValidPath(c.boundaries[i].hostPath)) && ValidPath(c.path)
  }

  lemma ValidPartsSplit(above: Captured, kind: BoundaryKind, c: Captured)
    requires c.boundaries == above.boundaries + [Boundary(kind, above.path)]
    ensures ValidParts(c) <==> ValidParts(above) && ValidPath(c.path)
  {
    hide ValidPath;
    assert c.boundaries[|above.boundaries|].hostPath == above.path;
    assert forall i :: 0 <= i < |above.boundaries| ==> c.boundaries[i] == above.boundaries[i];
  }

  lemma ValidAtTheTop(c: Captured)
    requires c.boundaries == []
    ensures ValidParts(c) <==> ValidPath(c.path)
  {
  }

  lemma {:induction false} ElementExactly(d: Dom, n: NodeId)
    requires WellFormed(d) && Has(d, n)
    ensures CaptureElement(d, n).Some? <==> InReach(d, n) && Steps(d, n).0 <= MAX_DEPTH
    ensures CaptureElement(d, n).Some? ==>
      var c := CaptureElement(d, n).value;
      c.depth == Steps(d, n).0 && |c.boundaries| == Steps(d, n).1 && (ValidParts(c) <==> AllNamed(d, n))
    decreases n
  {
    hide SegmentsDown, WayReadable, WayNamed, ValidParts, ValidSegment;
    RootBelow(d, n);
    var root := Root(d, n);
    assert NodeOk(d, root);
    PathExactly(d, n);
    if d.nodes[root].host.Some? {
      ElementExactly(d, d.nodes[root].host.value);
      if CaptureElement(d, n).Some? {
        CapturedParts(d, n);
        ValidPartsSplit(CaptureElement(d, d.nodes[root].host.value).value, BoundaryKindOf(d.nodes[root].kind),
                        CaptureElement(d, n).value);
      }
    } else if CaptureElement(d, n).Some? {
      ValidAtTheTop(CaptureElement(d, n).value);
    }
  }

  /**
   * There is a locator exactly for an element, shadow root or frame document whose element can be reached through
   * readable elements, within the bounds on their number and on the boundaries, with no over-long name kept on the way.
   */
  lemma CapturedExactly(d: Dom, n: NodeId, kind: TargetKind)
    requires WellFormed(d) && Has(d, n)
    ensures Capture(d, n, kind).Some? <==>
      var v := d.nodes[n]; var target := if kind.ElementTarget? then Some(n) else v.host;
      && (match kind case ElementTarget => v.kind.Element?
                     case ShadowRootTarget => v.kind.ShadowRoot?
                     case FrameDocumentTarget => v.kind.Document?)
      && target.Some? && Has(d, target.value) && InReach(d, target.value) && AllNamed(d, target.value)
      && Steps(d, target.value).0 <= MAX_DEPTH && Steps(d, target.value).1 <= MAX_BOUNDARIES
  {
    hide CaptureElement, InReach, AllNamed, Steps, ValidPath;
    assert NodeOk(d, n);
    var target := TargetElement(d, n, kind);
    if target.Some? {
      ElementExactly(d, target.value);
      if InReach(d, target.value) { NotExcluded(d, target.value); }
      if CaptureElement(d, target.value).Some? { CrossRetraces(d, target.value); }
    }
  }

  lemma NotExcluded(d: Dom, n: NodeId)
    requires WellFormed(d) && Has(d, n) && InReach(d, n)
    ensures !Excluded(d, n)
  {
  }
}
