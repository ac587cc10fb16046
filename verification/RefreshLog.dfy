/** What the content refresh coordinator did, in order, and why each step of it was due. */
module RefreshLog {

  /** A lease is named by its number; `accepted` is its completion. */
  datatype Event =
    | Joined(tab: nat, window: nat)
    | Left(tab: nat)
    | Opened(window: nat)
    | Closed(window: nat)
    | AllClosed
    | Granted(lease: nat, tab: nat, epoch: nat, window: nat, reload: bool)
    | Dropped(lease: nat)
    | Invalidated(tab: nat)
    | Reloaded(lease: nat, tab: nat)
    | Settled(lease: nat, accepted: bool)
    | Succeeded(lease: nat)

  /** How often a tab's lifecycle was invalidated. */
  ghost function Epoch(log: seq<Event>, tab: nat): nat {
    if log == [] then 0 else Epoch(log[..|log| - 1], tab) + if log[|log| - 1] == Invalidated(tab) then 1 else 0
  }

  /** The tab takes part: it joined and has not left since. */
  ghost predicate TakesPart(log: seq<Event>, tab: nat) {
    log != [] &&
    var ev := log[|log| - 1];
    if ev.Joined? && ev.tab == tab then true else ev != Left(tab) && TakesPart(log[..|log| - 1], tab)
  }

  /** The window is eligible: it was opened and has not been closed since. */
  ghost predicate Open(log: seq<Event>, window: nat) {
    log != [] &&
    var ev := log[|log| - 1];
    ev == Opened(window) || (ev != Closed(window) && ev != AllClosed && Open(log[..|log| - 1], window))
  }

  /** The same tabs take part and the same windows are open. */
  ghost predicate SameParts(log: seq<Event>, after: seq<Event>) {
    && (forall tab :: TakesPart(after, tab) == TakesPart(log, tab))
    && forall window :: Open(after, window) == Open(log, window)
  }

  /** The lease was granted, is not dropped, and its tab was not invalidated since. */
  ghost predicate Standing(log: seq<Event>, lease: nat, tab: nat, reload: bool) {
    && Dropped(lease) !in log && TakesPart(log, tab)
    && exists e, w :: Granted(lease, tab, e, w, reload) in log && e == Epoch(log, tab) && Open(log, w)
  }

  /** What makes an event due after the events before it. */
  ghost predicate DueNext(log: seq<Event>, ev: Event) {
    match ev
    case Granted(lease, tab, epoch, window, _) =>
      && epoch == Epoch(log, tab) && TakesPart(log, tab) && Open(log, window)
      && (forall t, e, w, r :: Granted(lease, t, e, w, r) !in log)
      && forall l, e, w, r :: Granted(l, tab, e, w, r) in log ==> Dropped(l) in log
    case Reloaded(lease, tab) => Standing(log, lease, tab, true) && forall t :: Reloaded(lease, t) !in log
    case Settled(lease, accepted) =>
      && (forall a :: Settled(lease, a) !in log)
      && (accepted ==> exists t :: Reloaded(lease, t) in log)
    case Succeeded(lease) =>
      && (exists t, e, w, r :: Granted(lease, t, e, w, r) in log)
      && forall t, e, w :: Granted(lease, t, e, w, true) in log ==> Settled(lease, true) in log
    case _ => true
  }

  ghost predicate AllDue(log: seq<Event>) {
    log == [] || (AllDue(log[..|log| - 1]) && DueNext(log[..|log| - 1], log[|log| - 1]))
  }

  lemma Appended(log: seq<Event>, ev: Event)
    ensures AllDue(log + [ev]) == (AllDue(log) && DueNext(log, ev))
    ensures forall tab :: Epoch(log + [ev], tab) == Epoch(log, tab) + if ev == Invalidated(tab) then 1 else 0
    ensures forall x :: x in log + [ev] <==> x in log || x == ev
    ensures forall tab :: TakesPart(log + [ev], tab) == ((ev.Joined? && ev.tab == tab) || (ev != Left(tab) && TakesPart(log, tab)))
    ensures forall w :: Open(log + [ev], w) == (ev == Opened(w) || (ev != Closed(w) && ev != AllClosed && Open(log, w)))
  {
    assert (log + [ev])[..|log|] == log;
  }

  lemma {:induction false} DueAt(log: seq<Event>, i: nat)
    requires AllDue(log) && i < |log|
    ensures AllDue(log[..i]) && DueNext(log[..i], log[i])
  {
    if i < |log| - 1 {
      DueAt(log[..|log| - 1], i);
      assert log[..|log| - 1][..i] == log[..i];
    }
  }

  lemma {:induction false} EpochRises(log: seq<Event>, i: nat, tab: nat)
    requires i <= |log|
    ensures Epoch(log[..i], tab) <= Epoch(log, tab)
    ensures Epoch(log[..i], tab) == Epoch(log, tab) ==> forall k :: i <= k < |log| ==> log[k] != Invalidated(tab)
  {
    if i < |log| {
      EpochRises(log[..|log| - 1], i, tab);
      assert log[..|log| - 1][..i] == log[..i];
    } else {
      assert log[..i] == log;
    }
  }

  /** A tab is reloaded at most once on the authority of a lease. */
  lemma {:induction false} ReloadedAtMostOnce(log: seq<Event>, i: nat, j: nat)
    requires AllDue(log) && i < j < |log| && log[i].Reloaded? && log[j].Reloaded?
    ensures log[i].lease != log[j].lease
  {
    DueAt(log, j);
    assert log[i] in log[..j];
  }

  /**
   * A tab is reloaded only for a reload lease that was granted to it before, with no navigation, revocation or removal
   * of the tab since, and with the lease neither dropped nor replaced.
   */
  lemma ReloadedWhileCurrent(log: seq<Event>, j: nat) returns (i: nat)
    requires AllDue(log) && j < |log| && log[j].Reloaded?
    ensures i < j && log[i].Granted? && log[i].lease == log[j].lease && log[i].tab == log[j].tab && log[i].reload
    ensures forall k :: i < k < j ==>
      log[k] != Invalidated(log[j].tab) && log[k] != Dropped(log[j].lease) && !(log[k].Granted? && log[k].tab == log[j].tab)
  {
    DueAt(log, j);
    var lease, tab, past := log[j].lease, log[j].tab, log[..j];
    var e, w :| Granted(lease, tab, e, w, true) in past && e == Epoch(past, tab) && Open(past, w);
    i :| 0 <= i < j && past[i] == Granted(lease, tab, e, w, true);
    DueAt(log, i);
    assert past[..i] == log[..i];
    EpochRises(past, i, tab);
    forall k | i < k < j
      ensures log[k] != Invalidated(tab) && log[k] != Dropped(lease) && !(log[k].Granted? && log[k].tab == tab)
    {
      assert log[k] == past[k] && past[k] in past;
      DueAt(log, k);
      var before := log[..k];
      assert log[i] in before;
      assert forall x :: x in before ==> x in past;
      assert log[k].Granted? && log[k].tab == tab ==> Dropped(lease) in before;
    }
  }

  lemma {:induction false} JoinedBefore(log: seq<Event>, tab: nat) returns (i: nat)
    requires TakesPart(log, tab)
    ensures i < |log| && log[i].Joined? && log[i].tab == tab && forall k :: i < k < |log| ==> log[k] != Left(tab)
  {
    i := |log| - 1;
    if !log[i].Joined? || log[i].tab != tab { i := JoinedBefore(log[..i], tab); }
  }

  lemma {:induction false} OpenedBefore(log: seq<Event>, window: nat) returns (i: nat)
    requires Open(log, window)
    ensures i < |log| && log[i] == Opened(window) && forall k :: i < k < |log| ==> log[k] != Closed(window) && log[k] != AllClosed
  {
    i := |log| - 1;
    if log[i] != Opened(window) { i := OpenedBefore(log[..i], window); }
  }

  /**
   * A tab is reloaded only while it takes part and the window its lease was granted for is eligible: it joined before and
   * has not left since, and the window was opened before and not closed since.
   */
  lemma ReloadedWhileTakingPart(log: seq<Event>, j: nat) returns (g: nat, joined: nat, opening: nat)
    requires AllDue(log) && j < |log| && log[j].Reloaded?
    ensures g < j && log[g].Granted? && log[g].lease == log[j].lease && log[g].tab == log[j].tab
    ensures joined < j && log[joined].Joined? && log[joined].tab == log[j].tab
    ensures opening < j && log[opening] == Opened(log[g].window)
    ensures forall k :: joined < k < j ==> log[k] != Left(log[j].tab)
    ensures forall k :: opening < k < j ==> log[k] != Closed(log[g].window) && log[k] != AllClosed
  {
    DueAt(log, j);
    var lease, tab, past := log[j].lease, log[j].tab, log[..j];
    var e, w :| Granted(lease, tab, e, w, true) in past && e == Epoch(past, tab) && Open(past, w);
    g :| 0 <= g < j && past[g] == Granted(lease, tab, e, w, true);
    joined := JoinedBefore(past, tab);
    opening := OpenedBefore(past, w);
  }

  /** A reload that succeeds was accepted before, and accepted only after the tab was reloaded for it. */
  lemma SucceededAfterAccepted(log: seq<Event>, j: nat, g: nat) returns (i: nat, r: nat)
    requires AllDue(log) && j < |log| && log[j].Succeeded?
    requires g < j && log[g].Granted? && log[g].lease == log[j].lease && log[g].reload
    ensures r < i < j && log[i] == Settled(log[j].lease, true) && log[r].Reloaded? && log[r].lease == log[j].lease
  {
    DueAt(log, j);
    assert log[g] in log[..j];
    i :| 0 <= i < j && log[..j][i] == Settled(log[j].lease, true);
    DueAt(log, i);
    var t :| Reloaded(log[j].lease, t) in log[..i];
    r :| 0 <= r < i && log[..i][r] == Reloaded(log[j].lease, t);
  }

  /** A lease is completed at most once: an accepted one is never rejected and the other way round. */
  lemma {:induction false} SettledOnce(log: seq<Event>, i: nat, j: nat)
    requires AllDue(log) && i < j < |log| && log[i].Settled? && log[j].Settled?
    ensures log[i].lease != log[j].lease
  {
    DueAt(log, j);
    assert log[i] in log[..j];
  }
}
