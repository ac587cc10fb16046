/** Selection events of one content session: the order in which they count, and the buffers that keep the greatest one. */
module SelectionOrder {
  import opened Options

  /** A selection event, and just as well the authority it leaves: a node selected, or its selection cleared. */
  datatype Selection = Selection(documentEpoch: int, nodeRef: string, selectionRevision: int, selected: bool)

  /** `canObserveStylesSelectionEvent` */
  predicate CanObserve(current: Option<Selection>, e: Selection) {
    current.None? ||
    var c := current.value;
    e.documentEpoch > c.documentEpoch
    || (e.documentEpoch == c.documentEpoch
        && (e.selectionRevision > c.selectionRevision
            || (e.selectionRevision == c.selectionRevision && c.selected && !e.selected && e.nodeRef == c.nodeRef)))
  }

  /** By document epoch, then by revision, then selected before cleared. */
  predicate Precedes(a: Selection, b: Selection) {
    a.documentEpoch < b.documentEpoch
    || (a.documentEpoch == b.documentEpoch
        && (a.selectionRevision < b.selectionRevision
            || (a.selectionRevision == b.selectionRevision && a.selected && !b.selected)))
  }

  /** One revision of one document selects one node. */
  predicate Consistent(a: Selection, b: Selection) {
    a.documentEpoch == b.documentEpoch && a.selectionRevision == b.selectionRevision ==> a.nodeRef == b.nodeRef
  }

  ghost predicate AllConsistent(es: set<Selection>) {
    forall a, b :: a in es && b in es ==> Consistent(a, b)
  }

  /** Observing is a strict order whatever the events are. */
  lemma ObservesStrictly(a: Selection, b: Selection, c: Selection)
    ensures !CanObserve(Some(a), a)
    ensures CanObserve(Some(a), b) ==> !CanObserve(Some(b), a)
    ensures CanObserve(Some(a), b) && CanObserve(Some(b), c) ==> CanObserve(Some(a), c)
    ensures CanObserve(Some(a), b) ==> Precedes(a, b)
  {
  }

  /** Between consistent events it is the order of epoch, revision and clearing, and it is total. */
  lemma ObservesInOrder(a: Selection, b: Selection)
    requires Consistent(a, b)
    ensures CanObserve(Some(a), b) <==> Precedes(a, b)
    ensures a == b || Precedes(a, b) || Precedes(b, a)
  {
  }

  // ---- Buffers ----

  /** A buffered inspect payload, with the selection it was made for when the content said so. */
  datatype Inspect = Inspect(payload: string, selectionRevision: int, contentSessionId: string, event: Option<Selection>)

  datatype Holder = Holder(event: Option<Selection>, inspect: Option<Inspect>)

  function Embedded(h: Holder): Option<Selection> {
    if h.inspect.Some? then h.inspect.value.event else None
  }

  /** `latestBufferedSelectionEvent` */
  function Latest(h: Holder): Option<Selection> {
    if h.event.None? then Embedded(h)
    else if Embedded(h).Some? && CanObserve(h.event, Embedded(h).value) then Embedded(h) else h.event
  }

  /** What a buffer that has nothing yet takes: the record's own authority again, or anything after it. */
  predicate Acceptable(current: Option<Selection>, e: Selection) {
    CanObserve(current, e) || current == Some(e)
  }

  function MergeEvent(authority: Option<Selection>, h: Holder, e: Selection): (Holder, bool) {
    var latest := Latest(h);
    if !Acceptable(if latest.Some? then latest else authority, e) then (h, false)
    else (if latest == Some(e) then h else h.(event := Some(e)), true)
  }

  /** Whether a candidate takes the place of the buffered payload. */
  predicate Replaces(current: Option<Inspect>, candidate: Inspect, preferOnTie: bool) {
    current.None? ||
    match (candidate.event, current.value.event)
    case (Some(c), Some(e)) => CanObserve(Some(e), c) || (preferOnTie && e == c)
    case (Some(_), None) => true
    case (None, Some(_)) => false
    case (None, None) =>
      candidate.selectionRevision > current.value.selectionRevision
      || (preferOnTie && candidate.selectionRevision == current.value.selectionRevision)
  }

  function MergeInspect(authority: Option<Selection>, h: Holder, candidate: Inspect, preferOnTie: bool): Holder {
    if candidate.event.None? then
      if Replaces(h.inspect, candidate, preferOnTie) then h.(inspect := Some(candidate)) else h
    else
      var (merged, accepted) := MergeEvent(authority, h, candidate.event.value);
      if !accepted || Latest(merged) != candidate.event || !Replaces(merged.inspect, candidate, preferOnTie) then merged
      else merged.(inspect := Some(candidate))
  }

  function MergeHolders(authority: Option<Selection>, source: Holder, target: Holder): Holder {
    var event := Latest(source);
    var merged := if event.Some? then MergeEvent(authority, target, event.value).0 else target;
    if source.inspect.Some? then MergeInspect(authority, merged, source.inspect.value, false) else merged
  }

  /** The greater of two buffered events; one that the record would not take counts as none. */
  function Join(authority: Option<Selection>, a: Option<Selection>, b: Option<Selection>): Option<Selection> {
    if b.None? then a
    else if a.None? then if Acceptable(authority, b.value) then b else None
    else if Precedes(a.value, b.value) then b else a
  }

  /** The events a merge may meet. */
  ghost function EventsOf(h: Holder): set<Selection> {
    (if h.event.Some? then {h.event.value} else {}) + if Embedded(h).Some? then {Embedded(h).value} else {}
  }

  /** The latest event is the greatest of a buffer's. */
  lemma LatestIsGreatest(h: Holder)
    requires AllConsistent(EventsOf(h))
    ensures Latest(h).Some? <==> EventsOf(h) != {}
    ensures Latest(h).Some? ==> Latest(h).value in EventsOf(h) && forall e :: e in EventsOf(h) ==> e == Latest(h).value || Precedes(e, Latest(h).value)
  {
    if h.event.Some? && Embedded(h).Some? {
      assert h.event.value in EventsOf(h) && Embedded(h).value in EventsOf(h);
      ObservesInOrder(h.event.value, Embedded(h).value);
    }
  }

  lemma MergeEventJoins(authority: Option<Selection>, h: Holder, e: Selection)
    requires AllConsistent(EventsOf(h) + {e})
    ensures Latest(MergeEvent(authority, h, e).0) == Join(authority, Latest(h), Some(e))
    ensures MergeEvent(authority, h, e).1 ==> Latest(MergeEvent(authority, h, e).0) == Some(e)
    ensures EventsOf(MergeEvent(authority, h, e).0) <= EventsOf(h) + {e}
    ensures MergeEvent(authority, h, e).0.inspect == h.inspect
  {
    assert EventsOf(h) <= EventsOf(h) + {e};
    LatestIsGreatest(h);
    var merged := MergeEvent(authority, h, e).0;
    LatestIsGreatest(merged);
    if Latest(h).Some? {
      ObservesInOrder(Latest(h).value, e);
      ObservesStrictly(Latest(h).value, e, e);
    }
    if Embedded(h).Some? {
      ObservesInOrder(Embedded(h).value, e);
      ObservesInOrder(e, Embedded(h).value);
      if Latest(h).Some? { ObservesStrictly(Embedded(h).value, Latest(h).value, e); }
    }
  }

  /** Buffering a payload moves the latest event exactly as its own event does. */
  lemma MergeInspectJoins(authority: Option<Selection>, h: Holder, candidate: Inspect, preferOnTie: bool)
    requires AllConsistent(EventsOf(h) + if candidate.event.Some? then {candidate.event.value} else {})
    ensures Latest(MergeInspect(authority, h, candidate, preferOnTie)) == Join(authority, Latest(h), candidate.event)
  {
    if candidate.event.Some? {
      MergeEventJoins(authority, h, candidate.event.value);
      var (merged, accepted) := MergeEvent(authority, h, candidate.event.value);
      ObservesStrictly(candidate.event.value, candidate.event.value, candidate.event.value);
    }
  }

  /** Merging one buffer into another keeps the greater of their latest events. */
  lemma MergeHoldersJoins(authority: Option<Selection>, source: Holder, target: Holder)
    requires AllConsistent(EventsOf(source) + EventsOf(target))
    ensures Latest(MergeHolders(authority, source, target)) == Join(authority, Latest(target), Latest(source))
  {
    var event := Latest(source);
    assert EventsOf(source) <= EventsOf(source) + EventsOf(target);
    LatestIsGreatest(source);
    if event.Some? {
      assert EventsOf(target) + {event.value} <= EventsOf(source) + EventsOf(target);
      MergeEventJoins(authority, target, event.value);
      var merged := MergeEvent(authority, target, event.value).0;
      if source.inspect.Some? {
        MergeInspectJoins(authority, merged, source.inspect.value, false);
        JoinAbsorbs(authority, Latest(target), event.value, source.inspect.value.event);
      }
    } else if source.inspect.Some? {
      MergeInspectJoins(authority, target, source.inspect.value, false);
    }
  }

  /** An event that a joined one already covers changes nothing. */
  lemma JoinAbsorbs(authority: Option<Selection>, a: Option<Selection>, b: Selection, c: Option<Selection>)
    requires c.Some? ==> c.value == b || (Precedes(c.value, b) && (Acceptable(authority, c.value) ==> Acceptable(authority, b)))
    ensures Join(authority, Join(authority, a, Some(b)), c) == Join(authority, a, Some(b))
  {
  }

  // ---- Anything merged, in any order ----

  /** What may be merged into a buffer: an event, a payload or another buffer. */
  datatype Merging = AnEvent(e: Selection) | APayload(candidate: Inspect, preferOnTie: bool) | ABuffer(source: Holder)

  function Merge(authority: Option<Selection>, h: Holder, m: Merging): Holder {
    match m
    case AnEvent(e) => MergeEvent(authority, h, e).0
    case APayload(candidate, preferOnTie) => MergeInspect(authority, h, candidate, preferOnTie)
    case ABuffer(source) => MergeHolders(authority, source, h)
  }

  /** The event that counts of what is merged. */
  function Offer(m: Merging): Option<Selection> {
    match m
    case AnEvent(e) => Some(e)
    case APayload(candidate, _) => candidate.event
    case ABuffer(source) => Latest(source)
  }

  /** Every event that comes with it. */
  ghost function Carried(m: Merging): set<Selection> {
    if m.ABuffer? then EventsOf(m.source) else if Offer(m).Some? then {Offer(m).value} else {}
  }

  function MergeAll(authority: Option<Selection>, ms: seq<Merging>): Holder {
    if ms == [] then Holder(None, None) else Merge(authority, MergeAll(authority, ms[..|ms| - 1]), ms[|ms| - 1])
  }

  ghost function Offers(ms: seq<Merging>): set<Selection> {
    if ms == [] then {} else Offers(ms[..|ms| - 1]) + if Offer(ms[|ms| - 1]).Some? then {Offer(ms[|ms| - 1]).value} else {}
  }

  ghost function AllCarried(ms: seq<Merging>): set<Selection> {
    if ms == [] then {} else AllCarried(ms[..|ms| - 1]) + Carried(ms[|ms| - 1])
  }

  /** The greatest of the events the record would take. */
  ghost predicate IsGreatest(authority: Option<Selection>, es: set<Selection>, r: Option<Selection>) {
    && (r.None? ==> forall e :: e in es ==> !Acceptable(authority, e))
    && (r.Some? ==> r.value in es && Acceptable(authority, r.value)
                    && forall e :: e in es && Acceptable(authority, e) ==> e == r.value || Precedes(e, r.value))
  }

  lemma SomeConsistent(es: set<Selection>, fs: set<Selection>)
    requires AllConsistent(es) && fs <= es
    ensures AllConsistent(fs)
  {
  }

  ghost function Own(authority: Option<Selection>): set<Selection> {
    if authority.Some? then {authority.value} else {}
  }

  /** Whatever is merged, the latest event moves by what it offers, and no event appears that was not carried. */
  lemma MergeJoins(authority: Option<Selection>, h: Holder, m: Merging)
    requires AllConsistent(EventsOf(h) + Carried(m))
    ensures Latest(Merge(authority, h, m)) == Join(authority, Latest(h), Offer(m))
    ensures EventsOf(Merge(authority, h, m)) <= EventsOf(h) + Carried(m)
  {
    match m
    case AnEvent(e) => MergeEventJoins(authority, h, e);
    case APayload(candidate, preferOnTie) =>
      MergeInspectJoins(authority, h, candidate, preferOnTie);
      InspectCarries(authority, h, candidate, preferOnTie);
    case ABuffer(source) =>
      assert EventsOf(source) + EventsOf(h) == EventsOf(h) + Carried(m);
      MergeHoldersJoins(authority, source, h);
      HolderCarries(authority, source, h);
  }

  lemma EventCarries(authority: Option<Selection>, h: Holder, e: Selection)
    ensures EventsOf(MergeEvent(authority, h, e).0) <= EventsOf(h) + {e} && MergeEvent(authority, h, e).0.inspect == h.inspect
  {
  }

  lemma InspectCarries(authority: Option<Selection>, h: Holder, candidate: Inspect, preferOnTie: bool)
    ensures EventsOf(MergeInspect(authority, h, candidate, preferOnTie))
         <= EventsOf(h) + if candidate.event.Some? then {candidate.event.value} else {}
  {
    hide MergeEvent;
    if candidate.event.Some? { EventCarries(authority, h, candidate.event.value); }
  }

  lemma HolderCarries(authority: Option<Selection>, source: Holder, target: Holder)
    ensures EventsOf(MergeHolders(authority, source, target)) <= EventsOf(target) + EventsOf(source)
  {
    hide MergeEvent, MergeInspect;
    var event := Latest(source);
    if event.Some? { EventCarries(authority, target, event.value); }
    var merged := if event.Some? then MergeEvent(authority, target, event.value).0 else target;
    if source.inspect.Some? { InspectCarries(authority, merged, source.inspect.value, false); }
  }

  lemma {:induction false} OffersAreCarried(ms: seq<Merging>)
    ensures Offers(ms) <= AllCarried(ms)
  {
    if ms != [] {
      OffersAreCarried(ms[..|ms| - 1]);
      var m := ms[|ms| - 1];
      if m.ABuffer? && Offer(m).Some? { assert Offer(m).value in EventsOf(m.source); }
    }
  }

  lemma {:induction false} MergedIsGreatest(authority: Option<Selection>, ms: seq<Merging>)
    requires AllConsistent(AllCarried(ms) + Own(authority))
    ensures IsGreatest(authority, Offers(ms), Latest(MergeAll(authority, ms)))
    ensures EventsOf(MergeAll(authority, ms)) <= AllCarried(ms)
  {
    hide Latest, Merge, Carried, Offer, EventsOf, AllConsistent, IsGreatest;
    if ms == [] {
      NothingMerged(authority);
    } else {
      var init, m := ms[..|ms| - 1], ms[|ms| - 1];
      var own := Own(authority);
      SomeConsistent(AllCarried(ms) + own, AllCarried(init) + own);
      MergedIsGreatest(authority, init);
      var h := MergeAll(authority, init);
      SomeConsistent(AllCarried(ms) + own, EventsOf(h) + Carried(m));
      MergeJoins(authority, h, m);
      OffersAreCarried(ms);
      SomeConsistent(AllCarried(ms) + own, Offers(ms) + own);
      GreatestStep(authority, Offers(init), Offer(m), Latest(h));
    }
  }

  lemma NothingMerged(authority: Option<Selection>)
    ensures IsGreatest(authority, {}, Latest(MergeAll(authority, []))) && EventsOf(MergeAll(authority, [])) == {}
    ensures MergeAll(authority, []).inspect.None?
  {
  }

  lemma GreatestStep(authority: Option<Selection>, es: set<Selection>, e: Option<Selection>, r: Option<Selection>)
    requires AllConsistent(es + (if e.Some? then {e.value} else {}) + Own(authority))
    requires IsGreatest(authority, es, r)
    ensures IsGreatest(authority, es + (if e.Some? then {e.value} else {}), Join(authority, r, e))
  {
    if r.Some? && e.Some? {
      ObservesInOrder(r.value, e.value);
      if authority.Some? {
        ObservesInOrder(authority.value, r.value);
        ObservesInOrder(authority.value, e.value);
      }
    }
  }

  /**
   * Buffering is an order-independent join. However events, payloads and whole buffers are mixed, only which events they
   * offer matters, not when or how they come, and the greatest one the record would take stays.
   */
  lemma OrderIndependent(authority: Option<Selection>, ms: seq<Merging>, ns: seq<Merging>)
    requires Offers(ms) == Offers(ns)
    requires AllConsistent(AllCarried(ms) + AllCarried(ns) + Own(authority))
    ensures Latest(MergeAll(authority, ms)) == Latest(MergeAll(authority, ns))
  {
    hide Latest, MergeAll, AllConsistent, IsGreatest;
    var own := Own(authority);
    SomeConsistent(AllCarried(ms) + AllCarried(ns) + own, AllCarried(ms) + own);
    SomeConsistent(AllCarried(ms) + AllCarried(ns) + own, AllCarried(ns) + own);
    MergedIsGreatest(authority, ms);
    MergedIsGreatest(authority, ns);
    GreatestIsOne(authority, Offers(ms), Latest(MergeAll(authority, ms)), Latest(MergeAll(authority, ns)));
  }

  lemma GreatestIsOne(authority: Option<Selection>, es: set<Selection>, a: Option<Selection>, b: Option<Selection>)
    requires IsGreatest(authority, es, a) && IsGreatest(authority, es, b)
    ensures a == b
  {
  }

  // ---- Which payload is held ----

  /** The payload that comes with it. */
  ghost function PayloadOf(m: Merging): Option<Inspect> {
    match m
    case AnEvent(_) => None
    case APayload(candidate, _) => Some(candidate)
    case ABuffer(source) => source.inspect
  }

  ghost predicate Prefers(m: Merging) {
    m.APayload? && m.preferOnTie
  }

  /** A payload counts in its turn if it names no event, or the one that is the latest then. */
  ghost predicate Counts(authority: Option<Selection>, ms: seq<Merging>, j: nat)
    requires j < |ms|
  {
    var p := PayloadOf(ms[j]);
    p.Some? && (p.value.event.Some? ==> Latest(MergeAll(authority, ms[..j + 1])) == p.value.event)
  }

  /** A payload without an event is below one with, and within each kind the event or the revision decides. */
  ghost predicate Below(p: Inspect, q: Inspect) {
    match (p.event, q.event)
    case (Some(e), Some(f)) => Precedes(e, f)
    case (None, Some(_)) => true
    case (Some(_), None) => false
    case (None, None) => p.selectionRevision < q.selectionRevision
  }

  ghost predicate Level(p: Inspect, q: Inspect) {
    if p.event.None? && q.event.None? then p.selectionRevision == q.selectionRevision else p.event == q.event
  }

  /** What counted at `j` gives way to what counted at `k`: it is below, or level and only one that asks to wins a tie. */
  ghost predicate Yields(ms: seq<Merging>, j: nat, k: nat)
    requires j < |ms| && k < |ms| && PayloadOf(ms[j]).Some? && PayloadOf(ms[k]).Some?
  {
    var p, q := PayloadOf(ms[j]).value, PayloadOf(ms[k]).value;
    Below(p, q) || (Level(p, q) && if j < k then Prefers(ms[k]) else !Prefers(ms[j]))
  }

  /** The payload at `k` counts, and every other one that does gives way to it. */
  ghost predicate Wins(authority: Option<Selection>, ms: seq<Merging>, k: nat) {
    k < |ms| && Counts(authority, ms, k) && forall j :: 0 <= j < |ms| && j != k && Counts(authority, ms, j) ==> Yields(ms, j, k)
  }

  /** A payload that counts takes the place of the held one if that is below it, or level and it asks for ties. */
  ghost predicate Takes(held: Option<Inspect>, p: Inspect, prefers: bool) {
    held.None? || Below(held.value, p) || (Level(held.value, p) && prefers)
  }

  ghost function Held(held: Option<Inspect>, p: Option<Inspect>, counts: bool, prefers: bool): Option<Inspect> {
    if counts && p.Some? && Takes(held, p.value, prefers) then p else held
  }

  lemma HeldInspect(authority: Option<Selection>, h: Holder, candidate: Inspect, preferOnTie: bool)
    requires AllConsistent(EventsOf(h) + if candidate.event.Some? then {candidate.event.value} else {})
    ensures var after := MergeInspect(authority, h, candidate, preferOnTie);
      var counts := candidate.event.Some? ==> Latest(after) == candidate.event;
      && after.inspect == Held(h.inspect, Some(candidate), counts, preferOnTie)
      && (counts && candidate.event.Some? && h.inspect.Some? ==>
            Below(h.inspect.value, candidate) || Level(h.inspect.value, candidate))
  {
    if candidate.event.Some? {
      var e := candidate.event.value;
      var (merged, accepted) := MergeEvent(authority, h, e);
      MergeEventJoins(authority, h, e);
      MergeInspectJoins(authority, h, candidate, preferOnTie);
      if Embedded(h).Some? { ObservesInOrder(Embedded(h).value, e); }
    }
  }

  /** What one more merge does to the held payload; one that names the latest event is never below it. */
  lemma HeldNext(authority: Option<Selection>, h: Holder, m: Merging)
    requires AllConsistent(EventsOf(h) + Carried(m))
    ensures var after := Merge(authority, h, m); var p := PayloadOf(m);
      var counts := p.Some? && (p.value.event.Some? ==> Latest(after) == p.value.event);
      && after.inspect == Held(h.inspect, p, counts, Prefers(m))
      && (counts && p.value.event.Some? && h.inspect.Some? ==> Below(h.inspect.value, p.value) || Level(h.inspect.value, p.value))
  {
    hide MergeInspect, Latest, AllConsistent, MergeEvent, Held, Below, Level;
    match m
    case AnEvent(e) =>
      EventCarries(authority, h, e);
      NothingHeld(h.inspect, Prefers(m));
    case APayload(candidate, preferOnTie) => HeldInspect(authority, h, candidate, preferOnTie);
    case ABuffer(source) =>
      var event := Latest(source);
      var merged := if event.Some? then MergeEvent(authority, h, event.value).0 else h;
      if event.Some? { EventCarries(authority, h, event.value); }
      SourceCarried(source);
      if source.inspect.Some? {
        SomeConsistent(EventsOf(h) + Carried(m), EventsOf(merged) + if source.inspect.value.event.Some? then {source.inspect.value.event.value} else {});
        HeldInspect(authority, merged, source.inspect.value, false);
      }
      NothingHeld(h.inspect, Prefers(m));
  }

  lemma NothingHeld(held: Option<Inspect>, prefers: bool)
    ensures Held(held, None, false, prefers) == held
  {
  }

  lemma SourceCarried(source: Holder)
    ensures Latest(source).Some? ==> Latest(source).value in EventsOf(source)
    ensures source.inspect.Some? && source.inspect.value.event.Some? ==> source.inspect.value.event.value in EventsOf(source)
  {
  }

  lemma HeldFrom(authority: Option<Selection>, ms: seq<Merging>)
    requires ms != [] && AllConsistent(AllCarried(ms) + Own(authority))
    ensures var n := |ms| - 1; var held, p := MergeAll(authority, ms[..n]).inspect, PayloadOf(ms[n]);
      && MergeAll(authority, ms).inspect == Held(held, p, Counts(authority, ms, n), Prefers(ms[n]))
      && (Counts(authority, ms, n) && p.value.event.Some? && held.Some? ==> Below(held.value, p.value) || Level(held.value, p.value))
  {
    hide Latest, Merge, Carried, EventsOf, AllConsistent, IsGreatest, Held, Takes, Below, Level, Prefers;
    var init, m := ms[..|ms| - 1], ms[|ms| - 1];
    var own := Own(authority);
    assert ms[..|ms| - 1 + 1] == ms;
    SomeConsistent(AllCarried(ms) + own, AllCarried(init) + own);
    MergedIsGreatest(authority, init);
    SomeConsistent(AllCarried(ms) + own, EventsOf(MergeAll(authority, init)) + Carried(m));
    HeldNext(authority, MergeAll(authority, init), m);
  }

  /**
   * The held payload. There is one exactly if some payload counted in its turn, and it is the one that all others give way
   * to: that of the greatest event, or without any event that of the greatest revision, and ties go to the first unless a
   * later one asks for them.
   */
  lemma {:induction false} HeldWins(authority: Option<Selection>, ms: seq<Merging>) returns (k: nat)
    requires AllConsistent(AllCarried(ms) + Own(authority))
    ensures MergeAll(authority, ms).inspect.None? <==> forall j :: 0 <= j < |ms| ==> !Counts(authority, ms, j)
    ensures MergeAll(authority, ms).inspect.Some? ==>
      Wins(authority, ms, k) && PayloadOf(ms[k]) == MergeAll(authority, ms).inspect
  {
    hide Counts, Yields, AllConsistent, Merge, MergeAll, PayloadOf, Below, Level, Prefers;
    k := 0;
    if ms == [] {
      NothingMerged(authority);
    } else {
      var n := |ms| - 1;
      var init := ms[..n];
      var own := Own(authority);
      SomeConsistent(AllCarried(ms) + own, AllCarried(init) + own);
      k := HeldWins(authority, init);
      HeldFrom(authority, ms);
      CountsAlike(authority, ms);
      if MergeAll(authority, init).inspect.Some? { WonBefore(authority, ms, k); }
      var held, p := MergeAll(authority, init).inspect, PayloadOf(ms[n]);
      if Counts(authority, ms, n) {
        if Takes(held, p.value, Prefers(ms[n])) {
          forall j | 0 <= j < n && Counts(authority, ms, j) ensures Yields(ms, j, n) { YieldsNow(ms, j, k, n); }
          k := n;
        } else {
          StaysAhead(ms, k, n);
        }
      }
    }
  }

  lemma YieldsNow(ms: seq<Merging>, j: nat, k: nat, n: nat)
    requires j < n && k < n < |ms| && PayloadOf(ms[j]).Some? && PayloadOf(ms[k]).Some? && PayloadOf(ms[n]).Some?
    requires j == k || Yields(ms, j, k)
    requires Takes(PayloadOf(ms[k]), PayloadOf(ms[n]).value, Prefers(ms[n]))
    ensures Yields(ms, j, n)
  {
  }

  lemma StaysAhead(ms: seq<Merging>, k: nat, n: nat)
    requires k < n < |ms| && PayloadOf(ms[k]).Some? && PayloadOf(ms[n]).Some?
    requires !Takes(PayloadOf(ms[k]), PayloadOf(ms[n]).value, Prefers(ms[n]))
    requires var held, p := PayloadOf(ms[k]).value, PayloadOf(ms[n]).value; p.event.Some? ==> Below(held, p) || Level(held, p)
    ensures Yields(ms, n, k)
  {
  }

  lemma CountsAlike(authority: Option<Selection>, ms: seq<Merging>)
    requires ms != []
    ensures var init := ms[..|ms| - 1]; forall j :: 0 <= j < |init| ==> Counts(authority, ms, j) == Counts(authority, init, j)
    ensures forall j :: 0 <= j < |ms| && Counts(authority, ms, j) ==> PayloadOf(ms[j]).Some?
  {
    var init := ms[..|ms| - 1];
    forall j | 0 <= j < |init| ensures Counts(authority, ms, j) == Counts(authority, init, j) {
      assert init[..j + 1] == ms[..j + 1] && init[j] == ms[j];
    }
  }

  lemma WonBefore(authority: Option<Selection>, ms: seq<Merging>, k: nat)
    requires ms != [] && Wins(authority, ms[..|ms| - 1], k)
    ensures k < |ms| - 1 && Counts(authority, ms, k) && PayloadOf(ms[k]).Some? && PayloadOf(ms[k]) == PayloadOf(ms[..|ms| - 1][k])
    ensures forall j :: 0 <= j < |ms| - 1 && j != k && Counts(authority, ms, j) ==> Yields(ms, j, k)
  {
    hide Counts, PayloadOf, Below, Level, Prefers;
    var init := ms[..|ms| - 1];
    CountsAlike(authority, ms);
    forall j | 0 <= j < |init| && j != k && Counts(authority, ms, j) ensures Yields(ms, j, k) {
      assert init[j] == ms[j] && init[k] == ms[k] && Yields(init, j, k);
    }
  }

  lemma {:induction false} FewerMerged(ms: seq<Merging>, n: nat)
    requires n <= |ms|
    ensures Offers(ms[..n]) <= Offers(ms) && AllCarried(ms[..n]) <= AllCarried(ms)
  {
    if n == |ms| {
      assert ms[..n] == ms;
    } else {
      FewerMerged(ms[..|ms| - 1], n);
      assert ms[..|ms| - 1][..n] == ms[..n];
    }
  }

  /** The latest event only ever rises while more is merged. */
  lemma LatestRises(authority: Option<Selection>, ms: seq<Merging>, n: nat)
    requires n <= |ms| && AllConsistent(AllCarried(ms) + Own(authority)) && Latest(MergeAll(authority, ms[..n])).Some?
    ensures var before, now := Latest(MergeAll(authority, ms[..n])), Latest(MergeAll(authority, ms));
      now.Some? && (before == now || Precedes(before.value, now.value))
  {
    hide Latest, MergeAll, AllConsistent, Acceptable;
    FewerMerged(ms, n);
    SomeConsistent(AllCarried(ms) + Own(authority), AllCarried(ms[..n]) + Own(authority));
    MergedIsGreatest(authority, ms);
    MergedIsGreatest(authority, ms[..n]);
  }

  /** What the record would take, it would take in favour of anything later as well. */
  lemma LaterIsAcceptable(authority: Option<Selection>, e: Selection, f: Selection)
    requires AllConsistent({e, f} + Own(authority)) && Acceptable(authority, e) && Precedes(e, f)
    ensures Acceptable(authority, f)
  {
    if authority.Some? {
      assert authority.value in {e, f} + Own(authority) && e in {e, f} + Own(authority) && f in {e, f} + Own(authority);
      ObservesInOrder(authority.value, e);
      ObservesInOrder(authority.value, f);
    }
  }

  /** A payload that names the latest event counted in its turn. */
  lemma NamesLatestCounts(authority: Option<Selection>, ms: seq<Merging>, j: nat)
    requires j < |ms| && AllConsistent(AllCarried(ms) + Own(authority))
    requires PayloadOf(ms[j]).Some? && PayloadOf(ms[j]).value.event.Some?
    requires Latest(MergeAll(authority, ms)) == PayloadOf(ms[j]).value.event
    ensures Counts(authority, ms, j)
  {
    hide MergeAll, Acceptable, AllConsistent, EventsOf, Latest, Embedded;
    var e, upTo := PayloadOf(ms[j]).value.event.value, ms[..j + 1];
    FewerMerged(ms, j + 1);
    SomeConsistent(AllCarried(ms) + Own(authority), AllCarried(upTo) + Own(authority));
    MergedIsGreatest(authority, ms);
    MergedIsGreatest(authority, upTo);
    OffersAreCarried(ms);
    assert upTo[..|upTo| - 1] == ms[..j] && upTo[j] == ms[j];
    SomeConsistent(AllCarried(ms) + Own(authority), Carried(ms[j]));
    OfferCovers(ms[j]);
    var f := Offer(ms[j]).value;
    if f != e {
      SomeConsistent(AllCarried(ms) + Own(authority), {e, f} + Own(authority));
      LaterIsAcceptable(authority, e, f);
    }
  }

  /** What a merge offers is at least the event its payload names. */
  lemma OfferCovers(m: Merging)
    requires AllConsistent(Carried(m)) && PayloadOf(m).Some? && PayloadOf(m).value.event.Some?
    ensures var e := PayloadOf(m).value.event.value;
      Offer(m).Some? && {e, Offer(m).value} <= Carried(m) && (e == Offer(m).value || Precedes(e, Offer(m).value))
  {
    if m.ABuffer? { LatestIsGreatest(m.source); }
  }

  /** While any payload that names the latest event was offered, the held one names it too, and was offered. */
  lemma LatestKeepsItsPayload(authority: Option<Selection>, ms: seq<Merging>, j: nat)
    requires j < |ms| && AllConsistent(AllCarried(ms) + Own(authority))
    requires PayloadOf(ms[j]).Some? && PayloadOf(ms[j]).value.event.Some?
    requires Latest(MergeAll(authority, ms)) == PayloadOf(ms[j]).value.event
    ensures var held := MergeAll(authority, ms).inspect;
      held.Some? && held.value.event == PayloadOf(ms[j]).value.event && exists k :: 0 <= k < |ms| && PayloadOf(ms[k]) == held
  {
    hide MergeAll, AllConsistent, Latest;
    NamesLatestCounts(authority, ms, j);
    var k := HeldWins(authority, ms);
    if k != j {
      assert Yields(ms, j, k);
      if PayloadOf(ms[k]).value.event.Some? { LatestRises(authority, ms, k + 1); }
    }
  }

  /** Two events buffer alike in both orders exactly when they are consistent. */
  lemma OrderMattersExactly(a: Selection, b: Selection)
    ensures Latest(MergeAll(None, [AnEvent(a), AnEvent(b)])) == Latest(MergeAll(None, [AnEvent(b), AnEvent(a)])) <==> Consistent(a, b)
  {
    var x, y := AnEvent(a), AnEvent(b);
    assert [x, y][..1] == [x] && [y, x][..1] == [y] && [x][..0] == [] && [y][..0] == [];
    assert MergeAll(None, [x]) == Holder(Some(a), None) && MergeAll(None, [y]) == Holder(Some(b), None);
    if Consistent(a, b) {
      ObservesInOrder(a, b);
      ObservesInOrder(b, a);
      ObservesStrictly(a, b, a);
    }
  }

  /** One revision of one document that selects two nodes: the buffer keeps the one that came first. */
  lemma TwoNodesAtOnce()
    ensures var a, b := Selection(1, "node-1", 1, true), Selection(1, "node-2", 1, true);
      Latest(MergeAll(None, [AnEvent(a), AnEvent(b)])) == Some(a) && Latest(MergeAll(None, [AnEvent(b), AnEvent(a)])) == Some(b)
  {
    var a, b := AnEvent(Selection(1, "node-1", 1, true)), AnEvent(Selection(1, "node-2", 1, true));
    assert [a, b][..1] == [a] && [b, a][..1] == [b] && [a][..0] == [] && [b][..0] == [];
    assert MergeAll(None, [a]) == Holder(Some(a.e), None) && MergeAll(None, [b]) == Holder(Some(b.e), None);
    assert a.e.nodeRef[5] != b.e.nodeRef[5];
  }

  // ---- The panel's record and its buffers ----

  /** `bufferedInspectMatchesEvent` */
  predicate BelongsTo(inspect: Inspect, e: Selection, contentSessionId: string) {
    e.selected && inspect.contentSessionId == contentSessionId && inspect.selectionRevision == e.selectionRevision
    && (inspect.event.Some? ==> inspect.event == Some(e))
  }

  ghost predicate Names(m: Merging, e: Selection) {
    PayloadOf(m).Some? && PayloadOf(m).value.event == Some(e)
  }

  /** If payloads were offered for a selection, and each belongs to it, then one of them is replayed with it. */
  ghost predicate ReplaysItsPayload(ms: seq<Merging>, e: Selection, contentSessionId: string, replay: Option<Inspect>) {
    && (replay.Some? ==> exists k :: 0 <= k < |ms| && PayloadOf(ms[k]) == replay)
    && ((exists j :: 0 <= j < |ms| && Names(ms[j], e))
        && (forall j :: 0 <= j < |ms| && Names(ms[j], e) ==> BelongsTo(PayloadOf(ms[j]).value, e, contentSessionId)) ==>
          replay.Some? && replay.value.event == Some(e))
  }

  /** What a commit replays when its buffer was filled by merging. */
  lemma MergedIsReplayed(authority: Option<Selection>, ms: seq<Merging>, contentSessionId: string, replay: Option<Inspect>)
    requires AllConsistent(AllCarried(ms) + Own(authority)) && Latest(MergeAll(authority, ms)).Some?
    requires var held, e := MergeAll(authority, ms).inspect, Latest(MergeAll(authority, ms)).value;
      replay == if held.Some? && BelongsTo(held.value, e, contentSessionId) then held else None
    ensures ReplaysItsPayload(ms, Latest(MergeAll(authority, ms)).value, contentSessionId, replay)
  {
    hide MergeAll, AllConsistent, Latest;
    var e := Latest(MergeAll(authority, ms)).value;
    var _ := HeldWins(authority, ms);
    if j :| 0 <= j < |ms| && Names(ms[j], e) { LatestKeepsItsPayload(authority, ms, j); }
  }

  class BufferedSelectionHolder {
    var bufferedSelectionEvent: Option<Selection>
    var bufferedInspectSelection: Option<Inspect>
    const contentSessionId: string

    constructor (contentSessionId: string)
      ensures View() == Holder(None, None) && this.contentSessionId == contentSessionId
    {
      this.contentSessionId := contentSessionId;
      bufferedSelectionEvent, bufferedInspectSelection := None, None;
    }

    function View(): Holder
      reads this
    {
      Holder(bufferedSelectionEvent, bufferedInspectSelection)
    }

    method MergeSelectionEvent(authority: Option<Selection>, e: Selection) returns (accepted: bool)
      modifies this
      ensures (View(), accepted) == MergeEvent(authority, old(View()), e)
    {
      var latest := Latest(View());
      var current := if latest.Some? then latest else authority;
      if !CanObserve(current, e) && current != Some(e) { return false; }
      if latest != Some(e) { bufferedSelectionEvent := Some(e); }
      return true;
    }

    method MergeInspectSelection(authority: Option<Selection>, candidate: Inspect, preferOnTie: bool)
      modifies this
      ensures View() == MergeInspect(authority, old(View()), candidate, preferOnTie)
    {
      if candidate.event.Some? {
        var accepted := MergeSelectionEvent(authority, candidate.event.value);
        if !accepted { return; }
        var latest := Latest(View());
        if latest.Some? && candidate.event != latest { return; }
      }
      if bufferedInspectSelection.None? {
        bufferedInspectSelection := Some(candidate);
        return;
      }
      var current := bufferedInspectSelection.value;
      if candidate.event.Some? && current.event.Some? {
        if CanObserve(current.event, candidate.event.value) || (preferOnTie && current.event == candidate.event) {
          bufferedInspectSelection := Some(candidate);
        }
      } else if candidate.event.Some? {
        bufferedInspectSelection := Some(candidate);
      } else if current.event.None?
                && (candidate.selectionRevision > current.selectionRevision
                    || (preferOnTie && candidate.selectionRevision == current.selectionRevision)) {
        bufferedInspectSelection := Some(candidate);
      }
    }

    /** `mergeBufferedSelections`: another buffer's selection goes into this one. */
    method MergeFrom(authority: Option<Selection>, source: BufferedSelectionHolder)
      requires source != this
      modifies this
      ensures View() == MergeHolders(authority, source.View(), old(View()))
    {
      var event := Latest(source.View());
      if event.Some? { var _ := MergeSelectionEvent(authority, event.value); }
      if source.bufferedInspectSelection.Some? { MergeInspectSelection(authority, source.bufferedInspectSelection.value, false); }
    }
  }

  /** A publication under way, for the epoch it learns from the selection it is made for. */
  datatype PublicationToken = PublicationToken(documentEpoch: Option<int>, selectionRevision: int)

  class PanelSelection {
    var authority: Option<Selection>
    var publication: Option<PublicationToken>
    // The selection events published to the panel since the record's authority was last cleared.
    ghost var published: seq<Selection>

    /** What was published rises strictly, and the authority is the last of it. */
    ghost predicate Valid()
      reads this
    {
      && (forall i, j :: 0 <= i < j < |published| ==> CanObserve(Some(published[i]), published[j]))
      && authority == (if published == [] then None else Some(published[|published| - 1]))
    }

    constructor ()
      ensures Valid() && published == []
    {
      authority, publication, published := None, None, [];
    }

    /** Until the authority is cleared the published events rise in epoch, revision and clearing. */
    lemma PublishedInOrder(i: nat, j: nat)
      requires Valid() && i < j < |published|
      ensures Precedes(published[i], published[j])
    {
      ObservesStrictly(published[i], published[j], published[j]);
    }

    /** A new content session, a closed panel or a panel that is activated again: the authority is cleared. */
    method Reset()
      modifies this
      ensures Valid() && published == []
    {
      authority, publication, published := None, None, [];
    }

    /** `observeStylesSelectionAuthority` and the publication that follows it: only what comes after everything published. */
    method ObserveAndPublish(e: Selection) returns (ok: bool)
      requires Valid()
      modifies this
      ensures Valid() && ok == CanObserve(old(authority), e)
      ensures published == if ok then old(published) + [e] else old(published)
      ensures publication == if !ok then old(publication)
        else if e.selected && old(publication).Some? && old(publication).value in {PublicationToken(None, e.selectionRevision),
                                                                                   PublicationToken(Some(e.documentEpoch), e.selectionRevision)}
        then Some(PublicationToken(Some(e.documentEpoch), e.selectionRevision)) else None
    {
      if !CanObserve(authority, e) { return false; }
      forall i | 0 <= i < |published| ensures CanObserve(Some(published[i]), e) {
        if i < |published| - 1 { ObservesStrictly(published[i], published[|published| - 1], e); }
      }
      if e.selected && publication.Some? && publication.value.selectionRevision == e.selectionRevision
         && (publication.value.documentEpoch.None? || publication.value.documentEpoch == Some(e.documentEpoch)) {
        publication := Some(publication.value.(documentEpoch := Some(e.documentEpoch)));
      } else {
        publication := None;
      }
      authority := Some(e);
      published := published + [e];
      return true;
    }

    /**
     * `commitBufferedSelectionEvent`: the buffer is emptied, its latest event is published if the record takes it, and a
     * payload is replayed only with the event it belongs to.
     */
    method CommitBuffered(holder: BufferedSelectionHolder, current: bool) returns (replay: Option<Inspect>)
      requires Valid()
      modifies this, holder
      ensures Valid() && holder.View() == Holder(None, None)
      ensures var latest := Latest(old(holder.View()));
        && published == (if latest.Some? && current && CanObserve(old(authority), latest.value) then old(published) + [latest.value]
                         else old(published))
        && (replay.Some? ==>
              && |published| > |old(published)| && replay == old(holder.bufferedInspectSelection)
              && latest.value.selected && replay.value.selectionRevision == latest.value.selectionRevision
              && replay.value.contentSessionId == holder.contentSessionId
              && (replay.value.event.Some? ==> replay.value.event == latest))
        && (replay.Some? <==>
              && |published| > |old(published)| && old(holder.bufferedInspectSelection).Some?
              && BelongsTo(old(holder.bufferedInspectSelection).value, latest.value, holder.contentSessionId))
      ensures forall a, ms {:trigger MergeAll(a, ms)} ::
        |published| > |old(published)| && old(holder.View()) == MergeAll(a, ms) && AllConsistent(AllCarried(ms) + Own(a)) ==>
          ReplaysItsPayload(ms, published[|published| - 1], holder.contentSessionId, replay)
    {
      var inspect := holder.bufferedInspectSelection;
      var event := Latest(holder.View());
      holder.bufferedSelectionEvent, holder.bufferedInspectSelection := None, None;
      if event.None? || !current { return None; }
      var observed := ObserveAndPublish(event.value);
      if !observed { return None; }
      replay := if inspect.Some? && BelongsTo(inspect.value, event.value, holder.contentSessionId) then inspect else None;
      forall a, ms | old(holder.View()) == MergeAll(a, ms) && AllConsistent(AllCarried(ms) + Own(a))
        ensures ReplaysItsPayload(ms, event.value, holder.contentSessionId, replay)
      {
        MergedIsReplayed(a, ms, holder.contentSessionId, replay);
      }
    }
  }
}
