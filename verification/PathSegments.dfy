/** Path segments: the evidence read from one element, its capture and its check. */
module PathSegments {
  import opened JsText
  import opened Options
  import opened BoundedCanonical
  import opened DomTree
  import opened DomReads
  import opened IdScan

  const MAX_TOKEN_LENGTH: nat := 128
  const MAX_CLASSES: nat := 8
  const MAX_ATTRIBUTES: nat := 8
  const MAX_EVIDENCE_SCAN: nat := 256

  /** Absent lists and empty lists are different values of a locator; capture writes the absent form. */
  datatype Segment = Segment(
    tagName: JsString,
    siblingIndex: nat,
    id: Option<JsString>,
    classes: Option<seq<JsString>>,
    attributes: Option<seq<Attribute>>
  )

  datatype Evidence = Evidence(id: Option<JsString>, classes: seq<JsString>, attributes: seq<Attribute>)

  function ClassKey(c: JsString): JsString { c }

  function AttributeKey(a: Attribute): JsString { a.name }

  predicate IsNameUnit(u: CodeUnit) {
    IsLowerOrDigit(u) || IsOneOf(u, "._:-")
  }

  /** A canonical tag name: a lower-case letter, then name characters, of bounded length. */
  predicate IsTagName(s: JsString) {
    && 0 < |s| <= MAX_TOKEN_LENGTH && InRange(s[0], 'a', 'z')
    && forall i :: 0 < i < |s| ==> IsNameUnit(s[i])
  }

  predicate IsClassToken(s: JsString) {
    0 < |s| <= MAX_TOKEN_LENGTH && !HasWhitespace(s)
  }

  /** `role`, or an `aria-` or `data-` name; no length bound here. */
  predicate IsApprovedName(s: JsString) {
    || s == Ascii("role")
    || (&& |s| > 5 && (s[..5] == Ascii("aria-") || s[..5] == Ascii("data-"))
        && forall i :: 5 <= i < |s| ==> IsNameUnit(s[i]))
  }

  /** The class tokens that may be kept, among the first `upTo`. */
  function KeptClasses(list: seq<JsString>, upTo: nat): seq<JsString>
    requires upTo <= |list|
  {
    if upTo == 0 then []
    else KeptClasses(list, upTo - 1) + (if IsClassToken(list[upTo - 1]) then [list[upTo - 1]] else [])
  }

  /** How many of the first `upTo` attributes are not runtime artifacts. */
  function AuthorCount(d: Dom, list: seq<Attribute>, upTo: nat): (r: nat)
    requires upTo <= |list|
    ensures r <= upTo
  {
    if upTo == 0 then 0
    else AuthorCount(d, list, upTo - 1) + (if list[upTo - 1].name in d.artifactNames then 0 else 1)
  }

  predicate IsKeptAttribute(a: Attribute) {
    IsApprovedName(a.name) && |a.value| <= MAX_TOKEN_LENGTH
  }

  function KeptAttributes(d: Dom, list: seq<Attribute>, upTo: nat): seq<Attribute>
    requires upTo <= |list|
  {
    if upTo == 0 then []
    else
      var last := list[upTo - 1];
      KeptAttributes(d, list, upTo - 1) + (if last.name !in d.artifactNames && IsKeptAttribute(last) then [last] else [])
  }

  predicate AttributeLimits(d: Dom, list: seq<Attribute>) {
    && |list| <= MAX_EVIDENCE_SCAN + MAX_ARTIFACT_SCAN
    && AuthorCount(d, list, |list|) <= MAX_EVIDENCE_SCAN
    && |list| - AuthorCount(d, list, |list|) <= MAX_ARTIFACT_SCAN
  }

  function CanonicalClasses(list: seq<JsString>, upTo: nat): seq<JsString>
    requires upTo <= |list|
  {
    Canonical(KeptClasses(list, upTo), MAX_CLASSES, ClassKey)
  }

  function CanonicalAttributes(d: Dom, list: seq<Attribute>, upTo: nat): seq<Attribute>
    requires upTo <= |list|
  {
    Canonical(KeptAttributes(d, list, upTo), MAX_ATTRIBUTES, AttributeKey)
  }

  /** The evidence of an element, or nothing past a limit. */
  function EvidenceOf(d: Dom, n: NodeId): Option<Evidence>
    requires Has(d, n)
  {
    var v := d.nodes[n];
    if |v.classList| > MAX_EVIDENCE_SCAN || !AttributeLimits(d, v.attributes) then None
    else Some(Evidence(
      if 0 < |v.id| <= MAX_TOKEN_LENGTH then Some(v.id) else None,
      CanonicalClasses(v.classList, |v.classList|),
      CanonicalAttributes(d, v.attributes, |v.attributes|)))
  }

  /** The id a segment commits: only one that is unique in the tree under `root`. */
  function CommittedId(d: Dom, root: NodeId, id: Option<JsString>): Option<Option<JsString>>
    requires WellFormed(d) && Has(d, root)
  {
    if id.None? then Some(None)
    else
      match UniqueIdStatus(d, root, id.value)
      case None => None
      case Some(unique) => Some(if unique then id else None)
  }

  function Present<T>(values: seq<T>): Option<seq<T>> {
    if values == [] then None else Some(values)
  }

  /** The segment captured for an element, or nothing when capture would throw. */
  function SegmentOf(d: Dom, n: NodeId): Option<Segment>
    requires WellFormed(d) && Has(d, n) && d.nodes[n].parent.Some?
  {
    assert NodeOk(d, n);
    if !IsTagName(d.nodes[n].tagName) || !ChildLimits(d, d.nodes[n].parent.value) || !IsAuthorElement(d, n) then None
    else
      match EvidenceOf(d, n)
      case None => None
      case Some(evidence) =>
        match CommittedId(d, Root(d, n), evidence.id)
        case None => None
        case Some(id) =>
          Some(Segment(d.nodes[n].tagName, SiblingIndex(d, n), id, Present(evidence.classes), Present(evidence.attributes)))
  }

  function OrEmpty<T>(values: Option<seq<T>>): seq<T> {
    if values.None? then [] else values.value
  }

  /** The same segment with empty lists left out. */
  function Normalize(s: Segment): Segment {
    s.(classes := Present(OrEmpty(s.classes)), attributes := Present(OrEmpty(s.attributes)))
  }

  function NormalizePath(path: seq<Segment>): (r: seq<Segment>)
    ensures |r| == |path|
  {
    if path == [] then [] else NormalizePath(path[..|path| - 1]) + [Normalize(path[|path| - 1])]
  }

  predicate StrictlySorted<T>(values: seq<T>, keyOf: T -> JsString) {
    forall i :: 0 < i < |values| ==> Less(keyOf(values[i - 1]), keyOf(values[i]))
  }

  predicate ValidAttribute(a: Attribute) {
    IsApprovedName(a.name) && |a.name| <= MAX_TOKEN_LENGTH && |a.value| <= MAX_TOKEN_LENGTH
  }

  /** What the locator parser accepts of one segment. */
  predicate ValidSegment(s: Segment) {
    && IsTagName(s.tagName)
    && (s.id.Some? ==> 0 < |s.id.value| <= MAX_TOKEN_LENGTH)
    && (s.classes.Some? ==>
          && |s.classes.value| <= MAX_CLASSES && StrictlySorted(s.classes.value, ClassKey)
          && forall i :: 0 <= i < |s.classes.value| ==> IsClassToken(s.classes.value[i]))
    && (s.attributes.Some? ==>
          && |s.attributes.value| <= MAX_ATTRIBUTES && StrictlySorted(s.attributes.value, AttributeKey)
          && forall i :: 0 <= i < |s.attributes.value| ==> ValidAttribute(s.attributes.value[i]))
  }

  /** The distinct names before another that an element's attributes offer for its segment. */
  function SmallerNames(d: Dom, list: seq<Attribute>, name: JsString): set<JsString> {
    set a | a in list && a.name !in d.artifactNames && IsKeptAttribute(a) && Less(a.name, name) :: a.name
  }

  /**
   * Every approved attribute whose name exceeds the parser's bound, the one bound capture does not apply, has enough
   * smaller names before it to be left out.
   */
  predicate LongNamesLeftOut(d: Dom, list: seq<Attribute>) {
    forall a :: a in list && a.name !in d.artifactNames && IsKeptAttribute(a) && |a.name| > MAX_TOKEN_LENGTH ==>
      |SmallerNames(d, list, a.name)| >= MAX_ATTRIBUTES
  }

  lemma {:induction false} KeptClassesAreTokens(list: seq<JsString>, upTo: nat)
    requires upTo <= |list|
    ensures forall c :: c in KeptClasses(list, upTo) ==> IsClassToken(c)
  {
    if upTo > 0 { KeptClassesAreTokens(list, upTo - 1); }
  }

  lemma {:induction false} KeptAttributesAreKept(d: Dom, list: seq<Attribute>, upTo: nat)
    requires upTo <= |list|
    ensures forall a :: a in KeptAttributes(d, list, upTo) <==> a in list[..upTo] && a.name !in d.artifactNames && IsKeptAttribute(a)
  {
    if upTo > 0 {
      KeptAttributesAreKept(d, list, upTo - 1);
      assert list[..upTo] == list[..upTo - 1] + [list[upTo - 1]];
    }
  }

  lemma CanonicalClassesValid(list: seq<JsString>)
    ensures var kept := CanonicalClasses(list, |list|);
      |kept| <= MAX_CLASSES && StrictlySorted(kept, ClassKey) && forall i :: 0 <= i < |kept| ==> IsClassToken(kept[i])
  {
    var source := KeptClasses(list, |list|);
    var kept := CanonicalClasses(list, |list|);
    KeptClassesAreTokens(list, |list|);
    CanonicalKeepsSmallest(source, MAX_CLASSES, ClassKey);
    forall i | 0 <= i < |kept| ensures IsClassToken(kept[i]) {
      assert IsFirst(source, kept[i], ClassKey);
    }
  }

  lemma CanonicalAttributesValid(d: Dom, list: seq<Attribute>)
    ensures var kept := CanonicalAttributes(d, list, |list|);
      |kept| <= MAX_ATTRIBUTES && StrictlySorted(kept, AttributeKey) && forall i :: 0 <= i < |kept| ==> IsKeptAttribute(kept[i])
  {
    var source := KeptAttributes(d, list, |list|);
    var kept := CanonicalAttributes(d, list, |list|);
    KeptAttributesAreKept(d, list, |list|);
    CanonicalKeepsSmallest(source, MAX_ATTRIBUTES, AttributeKey);
    forall i | 0 <= i < |kept| ensures IsKeptAttribute(kept[i]) {
      assert IsFirst(source, kept[i], AttributeKey);
    }
  }

  function NamesOf(values: seq<Attribute>): (r: set<JsString>)
    ensures |r| <= |values|
    ensures forall x :: x in r <==> exists i :: 0 <= i < |values| && values[i].name == x
  {
    if values == [] then {} else NamesOf(values[..|values| - 1]) + {values[|values| - 1].name}
  }

  lemma {:induction false} NamesOfSorted(values: seq<Attribute>)
    requires Sorted(values, AttributeKey)
    ensures |NamesOf(values)| == |values|
  {
    if values != [] {
      var init, last := values[..|values| - 1], values[|values| - 1];
      NamesOfSorted(init);
      if last.name in NamesOf(init) {
        var i :| 0 <= i < |init| && init[i].name == last.name;
        assert Less(AttributeKey(values[i]), AttributeKey(values[|values| - 1]));
        LessIrreflexive(last.name);
      }
    }
  }

  /** A name that is kept has fewer smaller names than are kept. */
  lemma KeptHasRoom(d: Dom, list: seq<Attribute>, i: nat)
    requires i < |CanonicalAttributes(d, list, |list|)|
    ensures |SmallerNames(d, list, CanonicalAttributes(d, list, |list|)[i].name)| < MAX_ATTRIBUTES
  {
    hide Canonical, KeptAttributes, IsKeptAttribute, Less;
    var source, kept := KeptAttributes(d, list, |list|), CanonicalAttributes(d, list, |list|);
    KeptAttributesAreKept(d, list, |list|);
    assert list[..|list|] == list;
    CanonicalKeepsSmallest(source, MAX_ATTRIBUTES, AttributeKey);
    var smaller := SmallerNames(d, list, kept[i].name);
    forall x | x in smaller ensures x in NamesOf(kept[..i]) {
      var a :| a in source && a.name == x && Less(x, kept[i].name);
      var k :| 0 <= k < |source| && source[k] == a;
      assert Kept(kept, AttributeKey(source[k]), MAX_ATTRIBUTES, AttributeKey);
      SmallerIsBefore(kept, x, i);
    }
    SubsetSize(smaller, NamesOf(kept[..i]));
  }

  lemma SmallerIsBefore(kept: seq<Attribute>, x: JsString, i: nat)
    requires Sorted(kept, AttributeKey) && i < |kept| && Less(x, kept[i].name)
    requires Kept(kept, x, MAX_ATTRIBUTES, AttributeKey)
    ensures x in NamesOf(kept[..i])
  {
    if HasKey(kept, x, AttributeKey) {
      var j :| 0 <= j < |kept| && AttributeKey(kept[j]) == x;
      if j >= i {
        if j > i { LessTransitive(x, kept[i].name, kept[j].name); }
        LessIrreflexive(x);
        assert false;
      }
      assert kept[..i][j].name == x;
    } else {
      LessTransitive(x, AttributeKey(kept[i]), x);
      LessIrreflexive(x);
      assert false;
    }
  }

  /** A name that is left out has as many smaller names as can be kept. */
  lemma LeftOutIsCrowded(d: Dom, list: seq<Attribute>, a: Attribute)
    requires a in list && a.name !in d.artifactNames && IsKeptAttribute(a)
    requires !HasKey(CanonicalAttributes(d, list, |list|), a.name, AttributeKey)
    ensures |SmallerNames(d, list, a.name)| >= MAX_ATTRIBUTES
  {
    hide Canonical, KeptAttributes, IsKeptAttribute, Less;
    var source, kept := KeptAttributes(d, list, |list|), CanonicalAttributes(d, list, |list|);
    KeptAttributesAreKept(d, list, |list|);
    assert list[..|list|] == list;
    CanonicalKeepsSmallest(source, MAX_ATTRIBUTES, AttributeKey);
    var k :| 0 <= k < |source| && source[k] == a;
    assert Kept(kept, AttributeKey(source[k]), MAX_ATTRIBUTES, AttributeKey);
    NamesOfSorted(kept);
    forall x | x in NamesOf(kept) ensures x in SmallerNames(d, list, a.name) {
      var i :| 0 <= i < |kept| && kept[i].name == x;
      assert IsFirst(source, kept[i], AttributeKey);
      assert kept[i] in source && Less(AttributeKey(kept[i]), a.name);
    }
    SubsetSize(NamesOf(kept), SmallerNames(d, list, a.name));
  }

  /** The names an element keeps are all short exactly when its long ones are left out. */
  lemma LongNamesExactly(d: Dom, list: seq<Attribute>)
    ensures LongNamesLeftOut(d, list) <==> forall a :: a in CanonicalAttributes(d, list, |list|) ==> |a.name| <= MAX_TOKEN_LENGTH
  {
    hide Canonical, KeptAttributes, IsKeptAttribute, SmallerNames;
    var source, kept := KeptAttributes(d, list, |list|), CanonicalAttributes(d, list, |list|);
    KeptAttributesAreKept(d, list, |list|);
    assert list[..|list|] == list;
    CanonicalKeepsSmallest(source, MAX_ATTRIBUTES, AttributeKey);
    if LongNamesLeftOut(d, list) {
      forall a | a in kept ensures |a.name| <= MAX_TOKEN_LENGTH {
        var i :| 0 <= i < |kept| && kept[i] == a;
        assert IsFirst(source, kept[i], AttributeKey);
        KeptHasRoom(d, list, i);
      }
    } else {
      var a :| a in list && a.name !in d.artifactNames && IsKeptAttribute(a) && |a.name| > MAX_TOKEN_LENGTH
        && |SmallerNames(d, list, a.name)| < MAX_ATTRIBUTES;
      if !HasKey(kept, a.name, AttributeKey) { LeftOutIsCrowded(d, list, a); }
      var i :| 0 <= i < |kept| && AttributeKey(kept[i]) == a.name;
      assert kept[i] in kept;
    }
  }

  /**
   * The parser accepts a captured segment exactly when every approved attribute of the element with an over-long name is
   * left out for smaller ones.
   */
  lemma CapturedSegmentValid(d: Dom, n: NodeId)
    requires WellFormed(d) && Has(d, n) && d.nodes[n].parent.Some? && SegmentOf(d, n).Some?
    ensures ValidSegment(SegmentOf(d, n).value) <==> LongNamesLeftOut(d, d.nodes[n].attributes)
    ensures Normalize(SegmentOf(d, n).value) == SegmentOf(d, n).value
  {
    hide Canonical, KeptAttributes, LongNamesLeftOut, UniqueIdStatus, KeptClasses, ChildLimits, AttributeLimits,
      SiblingIndex, Root;
    CanonicalClassesValid(d.nodes[n].classList);
    CanonicalAttributesValid(d, d.nodes[n].attributes);
    LongNamesExactly(d, d.nodes[n].attributes);
    var kept := CanonicalAttributes(d, d.nodes[n].attributes, |d.nodes[n].attributes|);
    assert (forall a :: a in kept ==> |a.name| <= MAX_TOKEN_LENGTH)
      <==> forall i :: 0 <= i < |kept| ==> |kept[i].name| <= MAX_TOKEN_LENGTH;
  }

  /** `data-` and 124 letters. */
  function LongName(): JsString {
    Ascii("data-") + seq(124, _ => 97)
  }

  /** A document with one element, which has one attribute with a long name. */
  function LongNamedPage(): Dom {
    var document := Node(Document, None, [1], None, None, None, [], [], [], [], false, false);
    var element := Node(Element, Some(0), [], None, None, None, [97], [], [], [Attribute(LongName(), [])], false, false);
    Dom([document, element], 0, {})
  }

  lemma LongNameApproved()
    ensures |LongName()| > MAX_TOKEN_LENGTH && IsApprovedName(LongName())
  {
    assert LongName()[..5] == Ascii("data-");
    assert forall i :: 5 <= i < |LongName()| ==> LongName()[i] == 97;
  }

  /** Its segment is captured, and no parser accepts it. */
  lemma LongNameIsRefused()
    ensures WellFormed(LongNamedPage()) && SegmentOf(LongNamedPage(), 1).Some?
    ensures !ValidSegment(SegmentOf(LongNamedPage(), 1).value)
  {
    hide LongName, Canonical;
    LongNameApproved();
    var d := LongNamedPage();
    var attributes := d.nodes[1].attributes;
    forall n | 0 <= n < |d.nodes| ensures NodeOk(d, n) { assert n == 0 || n == 1; }
    LongNamedPageReads(d);
    CapturedSegmentValid(d, 1);
    var a := attributes[0];
    assert a in attributes && IsKeptAttribute(a);
    assert SmallerNames(d, attributes, a.name) == {} by { LessIrreflexive(a.name); }
  }

  lemma LongNamedPageReads(d: Dom)
    requires d == LongNamedPage() && WellFormed(d)
    ensures SegmentOf(d, 1).Some?
  {
    hide LongName, Canonical;
    var kids := d.nodes[0].children;
    assert kids[..0] == [] && Author(d, kids[..0]) == [];
    assert d.nodes[1].attributes[..0] == [];
  }

  // ---- How many visits a segment takes ----

  /** Reading an element's classes and attributes, and climbing to its root before and after. */
  ghost function EvidenceVisits(d: Dom, n: NodeId): nat
    requires WellFormed(d) && Has(d, n)
  {
    2 * Depth(d, n) + |d.nodes[n].classList| + 2 * |d.nodes[n].attributes| + 4
  }

  /** The evidence three times, three id scans below the root, and the reads of the parent's children. */
  ghost function SegmentVisits(d: Dom, n: NodeId): nat
    requires WellFormed(d) && Has(d, n) && d.nodes[n].parent.Some?
  {
    assert NodeOk(d, n);
    4 * |d.nodes[d.nodes[n].parent.value].children| + 1 + 3 * EvidenceVisits(d, n) + 3 * |ScanOrder(d, Root(d, n))|
  }

  // ---- The budgeted reads ----

  /** `hasExpectedRoot`: climb parents to the root within the depth bound. */
  method HasExpectedRoot(d: Dom, n: NodeId, root: NodeId, budget: VisitBudget) returns (r: bool)
    requires WellFormed(d) && Has(d, n) && Root(d, n) == root && Depth(d, n) <= MAX_DEPTH
    modifies budget
    ensures old(budget.Exhausted()) ==> budget.Exhausted()
    ensures r || budget.Exhausted()
    ensures budget.Spends(Depth(d, n))
  {
    var current: Option<NodeId> := Some(n);
    var seen: set<NodeId> := {};
    while current.Some? && current.value != root
      invariant old(budget.Exhausted()) ==> budget.Exhausted()
      invariant current.Some? && Has(d, current.value) && Root(d, current.value) == root
      invariant |seen| + Depth(d, current.value) == Depth(d, n) && budget.Spends(|seen|)
      invariant forall x :: x in seen ==> x > current.value
      decreases Depth(d, current.value)
    {
      assert NodeOk(d, current.value);
      if |seen| >= MAX_DEPTH { return false; }
      var ok := budget.Visit();
      if !ok || current.value in seen { return false; }
      seen := seen + {current.value};
      current := d.nodes[current.value].parent;
    }
    return true;
  }

  method ReadCanonicalClasses(d: Dom, n: NodeId, budget: VisitBudget) returns (r: Option<seq<JsString>>)
    requires Has(d, n)
    modifies budget
    ensures old(budget.Exhausted()) ==> budget.Exhausted()
    ensures r.Some? ==> var list := d.nodes[n].classList;
      |list| <= MAX_EVIDENCE_SCAN && r.value == CanonicalClasses(list, |list|)
    ensures r.None? ==> budget.Exhausted() || |d.nodes[n].classList| > MAX_EVIDENCE_SCAN
    ensures budget.Spends(|d.nodes[n].classList| + 2)
  {
    var refused := VisitTwice(budget);
    var list := d.nodes[n].classList;
    if refused || |list| > MAX_EVIDENCE_SCAN { return None; }
    var selected := new EvidenceList(MAX_CLASSES, ClassKey);
    for i := 0 to |list|
      invariant fresh(selected) && selected.Valid() && selected.offered == KeptClasses(list, i)
      invariant budget.Spends(i + 2)
    {
      var ok := budget.Visit();
      if !ok { return None; }
      if IsClassToken(list[i]) {
        selected.InsertBoundedCanonical(list[i]);
      }
    }
    return Some(selected.values);
  }

  lemma {:induction false} AuthorCountGrows(d: Dom, list: seq<Attribute>, i: nat, j: nat)
    requires i <= j <= |list|
    ensures AuthorCount(d, list, i) <= AuthorCount(d, list, j)
    ensures i - AuthorCount(d, list, i) <= j - AuthorCount(d, list, j)
    decreases j
  {
    if i < j { AuthorCountGrows(d, list, i, j - 1); }
  }

  method ReadCanonicalAttributes(d: Dom, n: NodeId, budget: VisitBudget) returns (r: Option<seq<Attribute>>)
    requires Has(d, n)
    modifies budget
    ensures old(budget.Exhausted()) ==> budget.Exhausted()
    ensures r.Some? ==> var list := d.nodes[n].attributes;
      AttributeLimits(d, list) && r.value == CanonicalAttributes(d, list, |list|)
    ensures r.None? ==> budget.Exhausted() || !AttributeLimits(d, d.nodes[n].attributes)
    ensures budget.Spends(2 * |d.nodes[n].attributes| + 2)
  {
    hide IsKeptAttribute, Canonical, AttributeKey;
    var refused := VisitTwice(budget);
    var list := d.nodes[n].attributes;
    if refused || |list| > MAX_EVIDENCE_SCAN + MAX_ARTIFACT_SCAN { return None; }
    var selected := new EvidenceList(MAX_ATTRIBUTES, AttributeKey);
    var authors, artifacts := 0, 0;
    for i := 0 to |list|
      invariant fresh(selected) && selected.Valid() && selected.offered == KeptAttributes(d, list, i)
      invariant budget.Spends(2 * i + 2)
      invariant authors == AuthorCount(d, list, i) <= MAX_EVIDENCE_SCAN
      invariant artifacts == i - authors <= MAX_ARTIFACT_SCAN
    {
      AuthorCountGrows(d, list, i + 1, |list|);
      if list[i].name in d.artifactNames {
        artifacts := artifacts + 1;
        if artifacts > MAX_ARTIFACT_SCAN { return None; }
      } else {
        authors := authors + 1;
        if authors > MAX_EVIDENCE_SCAN { return None; }
        refused := VisitTwice(budget);
        if refused { return None; }
        if IsKeptAttribute(list[i]) {
          selected.InsertBoundedCanonical(list[i]);
        }
      }
    }
    return Some(selected.values);
  }

  /** Two visits in a row. */
  method VisitTwice(budget: VisitBudget) returns (refused: bool)
    modifies budget
    ensures refused <==> old(budget.remaining) < 2
    ensures budget.remaining == if refused then 0 else old(budget.remaining) - 2
    ensures budget.refused == (old(budget.refused) || refused)
  {
    var one := budget.Visit();
    if !one { return true; }
    var two := budget.Visit();
    return !two;
  }

  /** An element under a root within the depth bound, the setting of every segment read. */
  ghost predicate Placed(d: Dom, n: NodeId, parent: NodeId, root: NodeId) {
    && WellFormed(d) && Has(d, n) && Has(d, parent) && Has(d, root)
    && d.nodes[n].parent == Some(parent) && Root(d, n) == root && Depth(d, n) <= MAX_DEPTH
  }

  method ReadCanonicalEvidence(d: Dom, n: NodeId, parent: NodeId, root: NodeId, budget: VisitBudget)
    returns (r: Option<Evidence>)
    requires Placed(d, n, parent, root)
    modifies budget
    ensures old(budget.Exhausted()) ==> budget.Exhausted()
    ensures r == EvidenceOf(d, n) || (r.None? && budget.Exhausted())
    ensures budget.Spends(EvidenceVisits(d, n))
  {
    var before := HasExpectedRoot(d, n, root, budget);
    if d.nodes[n].parent != Some(parent) || !before { return None; }
    var classes := ReadCanonicalClasses(d, n, budget);
    if classes.None? { return None; }
    var attributes := ReadCanonicalAttributes(d, n, budget);
    if attributes.None? { return None; }
    var after := HasExpectedRoot(d, n, root, budget);
    if d.nodes[n].parent != Some(parent) || !after { return None; }
    var id := d.nodes[n].id;
    return Some(Evidence(if 0 < |id| <= MAX_TOKEN_LENGTH then Some(id) else None, classes.value, attributes.value));
  }

  /** One id scan, when there is an id to scan for. */
  method ScanCommittedId(d: Dom, root: NodeId, id: Option<JsString>, budget: VisitBudget)
    returns (r: Option<Option<JsString>>)
    requires WellFormed(d) && Has(d, root)
    modifies budget
    ensures old(budget.Exhausted()) ==> budget.Exhausted()
    ensures r == CommittedId(d, root, id) || (r.None? && budget.Exhausted())
    ensures budget.Spends(|ScanOrder(d, root)|)
  {
    if id.None? { return Some(None); }
    var unique := ScanUniqueId(d, root, id.value, budget);
    return match unique case None => None case Some(u) => Some(if u then id else None);
  }

  /** `stabilizeSegmentIdentity`: three id scans with the evidence read again between them. */
  method StabilizeSegmentIdentity(d: Dom, n: NodeId, parent: NodeId, root: NodeId, evidence: Evidence,
                                  budget: VisitBudget)
    returns (r: Option<Option<JsString>>)
    requires Placed(d, n, parent, root) && EvidenceOf(d, n) == Some(evidence)
    modifies budget
    ensures old(budget.Exhausted()) ==> budget.Exhausted()
    ensures r == CommittedId(d, root, evidence.id) || (r.None? && budget.Exhausted())
    ensures budget.Spends(2 * EvidenceVisits(d, n) + 3 * |ScanOrder(d, root)|)
  {
    var first := ScanCommittedId(d, root, evidence.id, budget);
    if first.None? { return None; }
    var verified := ReadCanonicalEvidence(d, n, parent, root, budget);
    if verified != Some(evidence) { return None; }
    var second := ScanCommittedId(d, root, evidence.id, budget);
    if second.None? { return None; }
    var final := ReadCanonicalEvidence(d, n, parent, root, budget);
    if final != Some(evidence) { return None; }
    var third := ScanCommittedId(d, root, evidence.id, budget);
    if third.None? { return None; }
    return Some(if first.value == evidence.id && second.value == evidence.id && third.value == evidence.id
                then evidence.id else None);
  }

  /** `captureSegment`. */
  method CaptureSegment(d: Dom, n: NodeId, parent: NodeId, root: NodeId,
                        budget: VisitBudget) returns (r: Option<Segment>)
    requires Placed(d, n, parent, root)
    modifies budget
    ensures old(budget.Exhausted()) ==> budget.Exhausted()
    ensures r == SegmentOf(d, n) || (r.None? && budget.Exhausted())
    ensures budget.Spends(SegmentVisits(d, n))
  {
    if !IsTagName(d.nodes[n].tagName) { return None; }
    var index := ElementSiblingIndex(d, parent, n, budget);
    if index.None? { return None; }
    var evidence := ReadCanonicalEvidence(d, n, parent, root, budget);
    if evidence.None? { return None; }
    var id := StabilizeSegmentIdentity(d, n, parent, root, evidence.value, budget);
    if id.None? { return None; }
    return Some(Segment(d.nodes[n].tagName, index.value, id.value,
                        Present(evidence.value.classes), Present(evidence.value.attributes)));
  }

  /** `matchesSegment`: every piece of evidence is read and compared; the id scan comes last. */
  method MatchesSegment(d: Dom, n: NodeId, segment: Segment, parent: NodeId, root: NodeId, budget: VisitBudget)
    returns (r: bool)
    requires Placed(d, n, parent, root) && IsTagName(segment.tagName)
    modifies budget
    ensures old(budget.Exhausted()) ==> budget.Exhausted()
    ensures r ==> SegmentOf(d, n) == Some(Normalize(segment))
    ensures !r ==> budget.Exhausted() || SegmentOf(d, n) != Some(Normalize(segment))
    ensures budget.Spends(SegmentVisits(d, n))
  {
    if d.nodes[n].tagName != segment.tagName { return false; }
    var index := ElementSiblingIndex(d, parent, n, budget);
    if index != Some(segment.siblingIndex) { return false; }
    var evidence := ReadCanonicalEvidence(d, n, parent, root, budget);
    if evidence.None? { return false; }
    var id := StabilizeSegmentIdentity(d, n, parent, root, evidence.value, budget);
    if id.None? || id.value != segment.id { return false; }
    return evidence.value.classes == OrEmpty(segment.classes) && evidence.value.attributes == OrEmpty(segment.attributes);
  }
}
