/**
 * The content refresh coordinator. Every `await` ends a method and leaves a suspension; any other method may run before
 * the suspension is resumed, with whatever the awaited call answered.
 */
module ContentRefresh {
  import opened Options
  import opened RefreshLog

  datatype Lifecycle = Lifecycle(
    lifecycleEpoch: nat,
    windowId: Option<nat>,
    pageUrl: Option<string>,
    participant: bool,
    detached: bool,
    blockedRuntimeId: Option<string>,
    preserveSnapshot: bool
  )

  /** A content runtime of a tab's top frame, owned by a window in one lifecycle of the tab. */
  datatype Binding = Binding(tabId: nat, pageUrl: string, contentRuntimeId: string, windowId: nat, lifecycleEpoch: nat)

  datatype Mode = Styles | Reload

  datatype Command = Command(refreshGeneration: int, mode: Mode)

  datatype Completion = Accepted | Rejected

  datatype Lease = Lease(
    binding: Binding,
    refreshCommandId: string,
    refreshGeneration: int,
    mode: Mode,
    consumed: bool,
    completion: Option<Completion>
  )

  /** Made from a lease when its reload is issued. */
  datatype Transition = Transition(binding: Binding, refreshCommandId: string, refreshGeneration: int, navigationObserved: bool)

  /** What a content runtime says of itself. */
  datatype Claim = Claim(tabId: nat, pageUrl: string, contentRuntimeId: string)

  datatype Response = Response(claim: Claim, refreshCommandId: string, refreshGeneration: int, mode: Mode, accepted: bool)

  datatype ReloadRequest = ReloadRequest(claim: Claim, refreshCommandId: string, refreshGeneration: int)

  /** A message's sender with its page address normalized. */
  datatype Sender = Sender(topFrame: bool, tabId: Option<nat>, windowId: Option<nat>, url: Option<string>)

  datatype TabUpdate = TabUpdate(loading: bool, pageUrl: Option<string>, windowId: Option<nat>)

  datatype Suspension =
    | EnsuringReady(tab: nat, epoch: nat, command: Command)
    | Preparing(binding: Binding, command: Command)
    | Responding(lease: nat, command: Command)
    | QueuedReady(owned: Binding)
    | ReadingSnapshot(owned: Binding)
    | ClaimingSnapshot(owned: Binding)
    | QueuedReload(lease: nat)
    | Persisting(lease: nat)
    | Reloading(lease: nat)

  function Public(b: Binding): (c: Claim)
    ensures c.tabId == b.tabId && c.pageUrl == b.pageUrl && c.contentRuntimeId == b.contentRuntimeId
  {
    Claim(b.tabId, b.pageUrl, b.contentRuntimeId)
  }

  /** `trustedTopSender` */
  predicate TrustedSender(s: Sender, tab: nat, window: nat, url: string): (trusted: bool)
    ensures trusted <==> s == Sender(true, Some(tab), Some(window), Some(url))
  {
    s.topFrame && s.tabId == Some(tab) && s.windowId == Some(window) && s.url == Some(url)
  }

  function Value<K, V>(m: map<K, V>, k: K): (r: Option<V>)
    ensures r.Some? <==> k in m
    ensures r.Some? ==> r.value == m[k]
  {
    if k in m then Some(m[k]) else None
  }

  function RuntimeOf(b: Option<Binding>): (r: Option<string>)
    ensures b.None? ==> r.None?
    ensures b.Some? ==> r == Some(b.value.contentRuntimeId)
  {
    if b.Some? then Some(b.value.contentRuntimeId) else None
  }

  function OrElse<T>(a: Option<T>, b: Option<T>): (r: Option<T>)
    ensures a.Some? ==> r == a
    ensures a.None? ==> r == b
  {
    if a.Some? then a else b
  }

  const FRESH: Lifecycle := Lifecycle(0, None, None, false, false, None, false)

  function LifecycleOf(lifecycle: map<nat, Lifecycle>, tab: nat): (l: Lifecycle)
    ensures tab in lifecycle ==> l == lifecycle[tab]
    ensures tab !in lifecycle ==> l.lifecycleEpoch == 0 && l.windowId.None? && l.pageUrl.None? && !l.participant && !l.detached
  {
    if tab in lifecycle then lifecycle[tab] else FRESH
  }

  function NextEpoch(l: Lifecycle): (next: Lifecycle)
    ensures next.lifecycleEpoch == l.lifecycleEpoch + 1 && !next.preserveSnapshot
    ensures next.windowId == l.windowId && next.pageUrl == l.pageUrl && next.blockedRuntimeId == l.blockedRuntimeId
    ensures next.participant == l.participant && next.detached == l.detached
  {
    l.(lifecycleEpoch := l.lifecycleEpoch + 1, preserveSnapshot := false)
  }

  /** A tab's lifecycle once a window says whether the tab takes part; another window's tab ends its lifecycle first. */
  function Participating(l: Lifecycle, window: nat, participant: bool): (r: Lifecycle)
    ensures r.pageUrl == l.pageUrl && r.blockedRuntimeId == l.blockedRuntimeId
    ensures participant ==> r.participant && !r.detached && r.windowId == Some(window)
    ensures participant ==>
      r.lifecycleEpoch == l.lifecycleEpoch + if l.detached || (l.windowId.Some? && l.windowId.value != window) then 1 else 0
    ensures !participant && (l.windowId.None? || l.windowId.value == window) ==>
      !r.participant && r.windowId == Some(window) && r.lifecycleEpoch == l.lifecycleEpoch + 1 && r.detached == l.detached
    ensures !participant && l.windowId.Some? && l.windowId.value != window ==> r == l
    ensures r.preserveSnapshot == (l.preserveSnapshot && r.lifecycleEpoch == l.lifecycleEpoch)
  {
    var elsewhere := l.windowId.Some? && l.windowId != Some(window);
    if participant then
      (if l.detached || elsewhere then NextEpoch(l) else l).(windowId := Some(window), participant := true, detached := false)
    else if elsewhere then l
    else NextEpoch(l).(windowId := Some(window), participant := false)
  }

  predicate MovesWindow(l: Lifecycle, update: TabUpdate): (moves: bool)
    ensures moves <==> exists a, b :: l.windowId == Some(a) && update.windowId == Some(b) && a != b
  {
    update.windowId.Some? && l.windowId.Some? && l.windowId != update.windowId
  }

  /** A tab's lifecycle after an update in its own window. */
  function Observed(l: Lifecycle, runtime: Option<string>, expected: bool, urlChanged: bool,
                    update: TabUpdate): (r: Lifecycle)
    ensures r.participant == l.participant && r.detached == l.detached
    ensures r.windowId == if update.windowId.Some? then update.windowId else l.windowId
    ensures r.lifecycleEpoch == l.lifecycleEpoch + if update.loading || urlChanged then 1 else 0
    ensures r.pageUrl == if update.loading || urlChanged || update.pageUrl.Some? then update.pageUrl else l.pageUrl
    ensures r.preserveSnapshot == if update.loading || urlChanged then expected && !urlChanged else l.preserveSnapshot
    ensures r.blockedRuntimeId == if update.loading && runtime.Some? then runtime
                                  else if !update.loading && urlChanged then None else l.blockedRuntimeId
  {
    var placed := if update.windowId.Some? then l.(windowId := update.windowId) else l;
    if update.loading || urlChanged then
      NextEpoch(placed).(pageUrl := update.pageUrl,
                         blockedRuntimeId := if update.loading then OrElse(runtime, l.blockedRuntimeId) else None,
                         preserveSnapshot := expected && !urlChanged)
    else if update.pageUrl.Some? then placed.(pageUrl := update.pageUrl)
    else placed
  }

  function EpochOf(lifecycle: map<nat, Lifecycle>, tab: nat): nat {
    if tab in lifecycle then lifecycle[tab].lifecycleEpoch else 0
  }

  function Authorized(lifecycle: map<nat, Lifecycle>, eligible: set<nat>, tab: nat,
                      expected: Option<nat>): (r: Option<Lifecycle>)
    ensures r.Some? <==>
      && tab in lifecycle && lifecycle[tab].participant && !lifecycle[tab].detached
      && exists w :: w in eligible && lifecycle[tab].windowId == Some(w) && (expected.None? || expected.value == w)
    ensures r.Some? ==> r.value == lifecycle[tab]
  {
    if tab in lifecycle && lifecycle[tab].participant && !lifecycle[tab].detached && lifecycle[tab].windowId.Some?
       && lifecycle[tab].windowId.value in eligible && (expected.Some? ==> lifecycle[tab].windowId == expected)
    then Some(lifecycle[tab]) else None
  }

  lemma OneMoreGone<V>(m: map<nat, V>, all: set<nat>, left: set<nat>, t: nat)
    requires t in left && left <= all
    ensures m - (all - left) - {t} == m - (all - (left - {t}))
  {
  }

  /** After a failed reload the runtime that asked for it is no longer blocked, if the tab is still where it was. */
  ghost function Unblocked(lifecycle: map<nat, Lifecycle>, tab: nat, b: Binding): (r: map<nat, Lifecycle>)
    ensures r.Keys == lifecycle.Keys && forall t :: t in r && t != tab ==> r[t] == lifecycle[t]
    ensures tab in r && r[tab] != lifecycle[tab] ==> r[tab].blockedRuntimeId.None? && !r[tab].preserveSnapshot
  {
    if tab in lifecycle && lifecycle[tab].windowId == Some(b.windowId) && lifecycle[tab].pageUrl == Some(b.pageUrl)
       && lifecycle[tab].blockedRuntimeId == Some(b.contentRuntimeId)
    then lifecycle[tab := lifecycle[tab].(preserveSnapshot := false, blockedRuntimeId := None)] else lifecycle
  }

  /** The tab's transition is one to this page, with the refresh generation of the claimed snapshot. */
  predicate TakenFor(transitions: map<nat, Transition>, byTab: map<nat, nat>, b: Binding, generation: int): (taken: bool)
    ensures taken <==>
      exists id :: (id in transitions && b.tabId in byTab && byTab[b.tabId] == id
                    && transitions[id].refreshGeneration == generation && transitions[id].binding.pageUrl == b.pageUrl)
  {
    && b.tabId in byTab && byTab[b.tabId] in transitions
    && transitions[byTab[b.tabId]].binding.pageUrl == b.pageUrl && transitions[byTab[b.tabId]].refreshGeneration == generation
  }

  // ---- What holds between any two steps ----

  /** A binding carries its tab's current lifecycle epoch, window and page address. */
  ghost predicate Carries(lifecycle: map<nat, Lifecycle>, tab: nat, b: Binding) {
    && tab in lifecycle && b.tabId == tab && b.lifecycleEpoch == lifecycle[tab].lifecycleEpoch
    && lifecycle[tab].windowId == Some(b.windowId) && lifecycle[tab].pageUrl == Some(b.pageUrl)
  }

  ghost predicate Bound(lifecycle: map<nat, Lifecycle>, bindings: map<nat, Binding>) {
    forall t :: t in bindings ==> Carries(lifecycle, t, bindings[t])
  }

  ghost predicate Leased(lifecycle: map<nat, Lifecycle>, leases: seq<Lease>, current: map<nat, nat>) {
    forall t :: t in current ==> current[t] < |leases| && Carries(lifecycle, t, leases[current[t]].binding)
  }

  ghost predicate EpochsLogged(log: seq<Event>, lifecycle: map<nat, Lifecycle>) {
    forall t :: Epoch(log, t) == EpochOf(lifecycle, t)
  }

  /** The log tells which tabs take part and which windows are eligible. */
  ghost predicate PartsLogged(log: seq<Event>, lifecycle: map<nat, Lifecycle>, eligible: set<nat>) {
    && (forall t :: TakesPart(log, t) <==> t in lifecycle && lifecycle[t].participant)
    && forall w :: Open(log, w) <==> w in eligible
  }

  lemma SamePartsLogged(log: seq<Event>, after: seq<Event>, lifecycle: map<nat, Lifecycle>, eligible: set<nat>)
    requires PartsLogged(log, lifecycle, eligible) && SameParts(log, after)
    ensures PartsLogged(after, lifecycle, eligible)
  {
    hide TakesPart, Open;
  }

  /** Only the tab's own participation changes with its record, and only by its event. */
  lemma PartsAfter(log: seq<Event>, after: seq<Event>, lifecycle: map<nat, Lifecycle>, eligible: set<nat>, tab: nat, l: Lifecycle)
    requires PartsLogged(log, lifecycle, eligible) && forall w :: Open(after, w) == Open(log, w)
    requires forall t :: TakesPart(after, t) == if t == tab then l.participant else TakesPart(log, t)
    ensures PartsLogged(after, lifecycle[tab := l], eligible)
  {
    hide TakesPart, Open;
  }

  lemma PartsKept(log: seq<Event>, lifecycle: map<nat, Lifecycle>, eligible: set<nat>, tab: nat, l: Lifecycle)
    requires PartsLogged(log, lifecycle, eligible) && l.participant == LifecycleOf(lifecycle, tab).participant
    ensures PartsLogged(log, lifecycle[tab := l], eligible)
  {
    hide TakesPart, Open;
    assert TakesPart(log, tab) == l.participant;
    PartsAfter(log, log, lifecycle, eligible, tab, l);
  }

  function GrantOf(leases: seq<Lease>, id: nat): Event
    requires id < |leases|
  {
    Granted(id, leases[id].binding.tabId, leases[id].binding.lifecycleEpoch, leases[id].binding.windowId, leases[id].mode.Reload?)
  }

  ghost predicate IsCurrent(leases: seq<Lease>, current: map<nat, nat>, id: nat)
    requires id < |leases|
  {
    leases[id].binding.tabId in current && current[leases[id].binding.tabId] == id
  }

  ghost predicate EventKept(leases: seq<Lease>, current: map<nat, nat>, ev: Event) {
    match ev
    case Granted(id, _, _, _, _) => id < |leases| && ev == GrantOf(leases, id)
    case Dropped(id) => id < |leases| && !IsCurrent(leases, current, id)
    case Reloaded(id, tab) => id < |leases| && leases[id].consumed && tab == leases[id].binding.tabId
    case Settled(id, accepted) =>
      id < |leases| && leases[id].consumed && leases[id].completion == Some(if accepted then Accepted else Rejected)
    case _ => true
  }

  ghost predicate LeaseKept(log: seq<Event>, leases: seq<Lease>, current: map<nat, nat>, id: nat)
    requires id < |leases|
  {
    && GrantOf(leases, id) in log
    && (!IsCurrent(leases, current, id) ==> Dropped(id) in log)
    && (leases[id].completion.Some? ==> Settled(id, leases[id].completion.value.Accepted?) in log)
  }

  /** The log and the leases tell the same story. */
  ghost predicate LeasesLogged(log: seq<Event>, leases: seq<Lease>, current: map<nat, nat>) {
    && (forall ev :: ev in log ==> EventKept(leases, current, ev))
    && (forall id :: 0 <= id < |leases| ==> LeaseKept(log, leases, current, id))
  }

  /** A reload that is under way: consumed, not completed, and the tab reloaded exactly when it says so. */
  ghost predicate StageKept(log: seq<Event>, leases: seq<Lease>, s: Suspension) {
    match s
    case Persisting(id) =>
      id < |leases| && leases[id].consumed && leases[id].mode.Reload? && leases[id].completion.None?
      && Reloaded(id, leases[id].binding.tabId) !in log
    case Reloading(id) =>
      id < |leases| && leases[id].consumed && leases[id].mode.Reload? && leases[id].completion.None?
      && Reloaded(id, leases[id].binding.tabId) in log
    case QueuedReload(id) => id < |leases| && leases[id].mode.Reload?
    case Responding(id, command) => id < |leases| && leases[id].mode == command.mode
    case _ => true
  }

  predicate InReload(s: Suspension, id: nat) {
    s == Persisting(id) || s == Reloading(id)
  }

  /** No lease is in two reloads, and an unconsumed one is in none. */
  ghost predicate Staged(log: seq<Event>, leases: seq<Lease>, suspended: map<nat, Suspension>) {
    && (forall op :: op in suspended ==> StageKept(log, leases, suspended[op]))
    && (forall a, b, id :: a in suspended && b in suspended && a != b && InReload(suspended[a], id) ==> !InReload(suspended[b], id))
  }

  ghost predicate TransitionsKept(leases: seq<Lease>, transitions: map<nat, Transition>, byTab: map<nat, nat>) {
    forall t :: t in byTab ==>
      byTab[t] < |leases| && byTab[t] in transitions && leases[byTab[t]].binding.tabId == t
      && transitions[byTab[t]].binding == leases[byTab[t]].binding
      && transitions[byTab[t]].refreshCommandId == leases[byTab[t]].refreshCommandId
      && transitions[byTab[t]].refreshGeneration == leases[byTab[t]].refreshGeneration
  }

  // ---- How the log follows ----

  lemma DropLogged(log: seq<Event>, leases: seq<Lease>, current: map<nat, nat>, suspended: map<nat, Suspension>,
                   tab: nat)
    requires AllDue(log) && LeasesLogged(log, leases, current) && Staged(log, leases, suspended)
    requires tab in current && current[tab] < |leases| && leases[current[tab]].binding.tabId == tab
    ensures SameParts(log, log + [Dropped(current[tab])])
    ensures var after := log + [Dropped(current[tab])];
      && AllDue(after) && LeasesLogged(after, leases, current - {tab}) && Staged(after, leases, suspended)
      && forall t :: Epoch(after, t) == Epoch(log, t)
  {
    hide AllDue, Epoch, TakesPart, Open;
    var after := log + [Dropped(current[tab])];
    Appended(log, Dropped(current[tab]));
    forall ev | ev in after ensures EventKept(leases, current - {tab}, ev) {
      assert ev in log ==> EventKept(leases, current, ev);
    }
    forall id | 0 <= id < |leases| ensures LeaseKept(after, leases, current - {tab}, id) {
      assert LeaseKept(log, leases, current, id);
    }
    forall op | op in suspended ensures StageKept(after, leases, suspended[op]) {
      assert StageKept(log, leases, suspended[op]);
    }
  }

  lemma InvalidationLogged(log: seq<Event>, leases: seq<Lease>, current: map<nat, nat>, suspended: map<nat, Suspension>,
                           tab: nat)
    requires AllDue(log) && LeasesLogged(log, leases, current) && Staged(log, leases, suspended)
    ensures SameParts(log, log + [Invalidated(tab)])
    ensures var after := log + [Invalidated(tab)];
      && AllDue(after) && LeasesLogged(after, leases, current) && Staged(after, leases, suspended)
      && forall t :: Epoch(after, t) == Epoch(log, t) + if t == tab then 1 else 0
  {
    hide AllDue, Epoch, TakesPart, Open;
    var after := log + [Invalidated(tab)];
    Appended(log, Invalidated(tab));
    forall id | 0 <= id < |leases| ensures LeaseKept(after, leases, current, id) {
      assert LeaseKept(log, leases, current, id);
    }
    forall op | op in suspended ensures StageKept(after, leases, suspended[op]) {
      assert StageKept(log, leases, suspended[op]);
    }
  }

  function GrantedTo(id: nat, lease: Lease): Event {
    Granted(id, lease.binding.tabId, lease.binding.lifecycleEpoch, lease.binding.windowId, lease.mode.Reload?)
  }

  lemma GrantLogged(log: seq<Event>, leases: seq<Lease>, current: map<nat, nat>, suspended: map<nat, Suspension>,
                    lease: Lease)
    requires AllDue(log) && LeasesLogged(log, leases, current) && Staged(log, leases, suspended)
    requires !lease.consumed && lease.completion.None?
    requires lease.binding.tabId !in current && lease.binding.lifecycleEpoch == Epoch(log, lease.binding.tabId)
    requires TakesPart(log, lease.binding.tabId) && Open(log, lease.binding.windowId)
    ensures SameParts(log, log + [GrantedTo(|leases|, lease)])
    ensures var ev := GrantedTo(|leases|, lease);
      var after := log + [ev]; var more := leases + [lease];
      && AllDue(after) && LeasesLogged(after, more, current[lease.binding.tabId := |leases|]) && Staged(after, more, suspended)
      && forall t :: Epoch(after, t) == Epoch(log, t)
  {
    hide AllDue, Epoch, TakesPart, Open;
    var tab := lease.binding.tabId;
    var ev := GrantedTo(|leases|, lease);
    var after, more, now := log + [ev], leases + [lease], current[tab := |leases|];
    Appended(log, ev);
    forall l, e, w, r | Granted(l, tab, e, w, r) in log ensures Dropped(l) in log {
      assert EventKept(leases, current, Granted(l, tab, e, w, r));
      assert LeaseKept(log, leases, current, l);
    }
    forall x | x in log && x.Granted? ensures x.lease != |leases| { assert EventKept(leases, current, x); }
    forall x | x in after ensures EventKept(more, now, x) {
      assert x in log ==> EventKept(leases, current, x);
    }
    forall id | 0 <= id < |more| ensures LeaseKept(after, more, now, id) {
      if id < |leases| { assert LeaseKept(log, leases, current, id); }
    }
    forall op | op in suspended ensures StageKept(after, more, suspended[op]) {
      assert StageKept(log, leases, suspended[op]);
    }
  }

  lemma ReloadLogged(log: seq<Event>, leases: seq<Lease>, current: map<nat, nat>, suspended: map<nat, Suspension>,
                     id: nat)
    requires AllDue(log) && LeasesLogged(log, leases, current) && Staged(log, leases, suspended)
    requires StageKept(log, leases, Persisting(id)) && forall op :: op in suspended ==> !InReload(suspended[op], id)
    requires IsCurrent(leases, current, id) && leases[id].binding.lifecycleEpoch == Epoch(log, leases[id].binding.tabId)
    requires TakesPart(log, leases[id].binding.tabId) && Open(log, leases[id].binding.windowId)
    ensures SameParts(log, log + [Reloaded(id, leases[id].binding.tabId)])
    ensures var after := log + [Reloaded(id, leases[id].binding.tabId)];
      && AllDue(after) && LeasesLogged(after, leases, current) && Staged(after, leases, suspended)
      && StageKept(after, leases, Reloading(id)) && forall t :: Epoch(after, t) == Epoch(log, t)
  {
    hide AllDue, Epoch, TakesPart, Open;
    var tab := leases[id].binding.tabId;
    var after := log + [Reloaded(id, tab)];
    Appended(log, Reloaded(id, tab));
    assert LeaseKept(log, leases, current, id);
    forall t ensures Reloaded(id, t) !in log {
      assert Reloaded(id, t) in log ==> EventKept(leases, current, Reloaded(id, t));
    }
    assert Dropped(id) in log ==> EventKept(leases, current, Dropped(id));
    assert Standing(log, id, tab, true);
    forall x | x in after ensures EventKept(leases, current, x) {
      assert x in log ==> EventKept(leases, current, x);
    }
    forall l | 0 <= l < |leases| ensures LeaseKept(after, leases, current, l) {
      assert LeaseKept(log, leases, current, l);
    }
    forall op | op in suspended ensures StageKept(after, leases, suspended[op]) {
      assert StageKept(log, leases, suspended[op]);
    }
  }

  lemma SettlementLogged(log: seq<Event>, leases: seq<Lease>, current: map<nat, nat>, suspended: map<nat, Suspension>,
                         id: nat,
                         completion: Completion)
    requires AllDue(log) && LeasesLogged(log, leases, current) && Staged(log, leases, suspended)
    requires id < |leases| && leases[id].consumed && leases[id].completion.None?
    requires forall op :: op in suspended ==> !InReload(suspended[op], id)
    requires completion.Accepted? ==> Reloaded(id, leases[id].binding.tabId) in log
    ensures SameParts(log, log + [Settled(id, completion.Accepted?)])
    ensures var after := log + [Settled(id, completion.Accepted?)]; var done := leases[id := leases[id].(completion := Some(completion))];
      && AllDue(after) && LeasesLogged(after, done, current) && Staged(after, done, suspended)
      && forall t :: Epoch(after, t) == Epoch(log, t)
  {
    hide AllDue, Epoch, TakesPart, Open;
    var ev := Settled(id, completion.Accepted?);
    var after, done := log + [ev], leases[id := leases[id].(completion := Some(completion))];
    Appended(log, ev);
    forall a ensures Settled(id, a) !in log {
      assert Settled(id, a) in log ==> EventKept(leases, current, Settled(id, a));
    }
    forall x | x in after ensures EventKept(done, current, x) {
      assert x in log ==> EventKept(leases, current, x);
    }
    forall l | 0 <= l < |done| ensures LeaseKept(after, done, current, l) {
      assert LeaseKept(log, leases, current, l);
    }
    forall op | op in suspended ensures StageKept(after, done, suspended[op]) {
      assert StageKept(log, leases, suspended[op]);
    }
  }

  lemma SuccessLogged(log: seq<Event>, leases: seq<Lease>, current: map<nat, nat>, suspended: map<nat, Suspension>,
                      id: nat)
    requires AllDue(log) && LeasesLogged(log, leases, current) && Staged(log, leases, suspended) && id < |leases|
    requires leases[id].mode.Reload? ==> leases[id].completion == Some(Accepted)
    ensures SameParts(log, log + [Succeeded(id)])
    ensures var after := log + [Succeeded(id)];
      && AllDue(after) && LeasesLogged(after, leases, current) && Staged(after, leases, suspended)
      && forall t :: Epoch(after, t) == Epoch(log, t)
  {
    hide AllDue, Epoch, TakesPart, Open;
    var after := log + [Succeeded(id)];
    Appended(log, Succeeded(id));
    assert LeaseKept(log, leases, current, id);
    forall t, e, w | Granted(id, t, e, w, true) in log ensures Settled(id, true) in log {
      assert EventKept(leases, current, Granted(id, t, e, w, true));
    }
    forall l | 0 <= l < |leases| ensures LeaseKept(after, leases, current, l) {
      assert LeaseKept(log, leases, current, l);
    }
    forall op | op in suspended ensures StageKept(after, leases, suspended[op]) {
      assert StageKept(log, leases, suspended[op]);
    }
  }

  /** A tab that joins or leaves, or a window that opens or closes, makes nothing undue. */
  lemma PartLogged(log: seq<Event>, leases: seq<Lease>, current: map<nat, nat>, suspended: map<nat, Suspension>, ev: Event)
    requires AllDue(log) && LeasesLogged(log, leases, current) && Staged(log, leases, suspended)
    requires ev.Joined? || ev.Left? || ev.Opened? || ev.Closed? || ev.AllClosed?
    ensures var after := log + [ev];
      && AllDue(after) && LeasesLogged(after, leases, current) && Staged(after, leases, suspended)
      && (forall t :: Epoch(after, t) == Epoch(log, t))
      && (forall t :: TakesPart(after, t) == ((ev.Joined? && ev.tab == t) || (ev != Left(t) && TakesPart(log, t))))
      && forall w :: Open(after, w) == (ev == Opened(w) || (ev != Closed(w) && ev != AllClosed && Open(log, w)))
  {
    hide AllDue, Epoch, TakesPart, Open;
    var after := log + [ev];
    Appended(log, ev);
    forall id | 0 <= id < |leases| ensures LeaseKept(after, leases, current, id) {
      assert LeaseKept(log, leases, current, id);
    }
    forall op | op in suspended ensures StageKept(after, leases, suspended[op]) {
      assert StageKept(log, leases, suspended[op]);
    }
  }

  /** A new epoch leaves nothing of the tab behind and everything of the other tabs alone. */
  lemma InvalidationBinds(lifecycle: map<nat, Lifecycle>, bindings: map<nat, Binding>, tab: nat, l: Lifecycle)
    requires Bound(lifecycle, bindings)
    ensures Bound(lifecycle[tab := l], bindings - {tab})
  {
  }

  lemma InvalidationLeases(lifecycle: map<nat, Lifecycle>, leases: seq<Lease>, current: map<nat, nat>, tab: nat,
                           l: Lifecycle)
    requires Leased(lifecycle, leases, current)
    ensures Leased(lifecycle[tab := l], leases, current - {tab})
  {
  }

  lemma InvalidationEpochs(log: seq<Event>, after: seq<Event>, lifecycle: map<nat, Lifecycle>, tab: nat, l: Lifecycle)
    requires EpochsLogged(log, lifecycle) && l.lifecycleEpoch == EpochOf(lifecycle, tab) + 1
    requires forall t :: Epoch(after, t) == Epoch(log, t) + if t == tab then 1 else 0
    ensures EpochsLogged(after, lifecycle[tab := l])
  {
  }

  lemma FewerTransitions(leases: seq<Lease>, transitions: map<nat, Transition>, byTab: map<nat, nat>, tab: nat)
    requires TransitionsKept(leases, transitions, byTab)
    ensures TransitionsKept(leases, transitions, byTab - {tab})
  {
  }

  lemma GrantLeases(lifecycle: map<nat, Lifecycle>, leases: seq<Lease>, current: map<nat, nat>, lease: Lease)
    requires Leased(lifecycle, leases, current) && Carries(lifecycle, lease.binding.tabId, lease.binding)
    ensures Leased(lifecycle, leases + [lease], current[lease.binding.tabId := |leases|])
  {
  }

  lemma MoreLeases(leases: seq<Lease>, transitions: map<nat, Transition>, byTab: map<nat, nat>, lease: Lease)
    requires TransitionsKept(leases, transitions, byTab)
    ensures TransitionsKept(leases + [lease], transitions, byTab)
  {
  }

  /** A lease's progress changes nothing that a binding or a transition depends on. */
  lemma SameAuthority(lifecycle: map<nat, Lifecycle>, leases: seq<Lease>, current: map<nat, nat>,
                      transitions: map<nat, Transition>,
                      byTab: map<nat, nat>, id: nat, lease: Lease)
    requires id < |leases| && lease.(consumed := leases[id].consumed, completion := leases[id].completion) == leases[id]
    requires Leased(lifecycle, leases, current) && TransitionsKept(leases, transitions, byTab)
    ensures Leased(lifecycle, leases[id := lease], current) && TransitionsKept(leases[id := lease], transitions, byTab)
  {
  }

  lemma NewTransition(leases: seq<Lease>, transitions: map<nat, Transition>, byTab: map<nat, nat>, id: nat)
    requires id < |leases| && TransitionsKept(leases, transitions, byTab)
    ensures var lease := leases[id];
      TransitionsKept(leases, transitions[id := Transition(lease.binding, lease.refreshCommandId, lease.refreshGeneration, false)],
                      byTab[lease.binding.tabId := id])
  {
  }

  /** What an unchanged epoch count means for the log. */
  lemma SameEpochs(log: seq<Event>, after: seq<Event>, lifecycle: map<nat, Lifecycle>)
    requires EpochsLogged(log, lifecycle) && forall t :: Epoch(after, t) == Epoch(log, t)
    ensures EpochsLogged(after, lifecycle)
  {
  }

  /** Consuming a lease starts its one reload. */
  lemma ConsumptionStaged(log: seq<Event>, leases: seq<Lease>, current: map<nat, nat>, suspended: map<nat, Suspension>,
                          id: nat, op: nat)
    requires LeasesLogged(log, leases, current) && Staged(log, leases, suspended) && op !in suspended
    requires id < |leases| && !leases[id].consumed && leases[id].mode.Reload?
    ensures var taken := leases[id := leases[id].(consumed := true)];
      LeasesLogged(log, taken, current) && Staged(log, taken, suspended[op := Persisting(id)])
  {
    var taken := leases[id := leases[id].(consumed := true)];
    var after := suspended[op := Persisting(id)];
    assert LeaseKept(log, leases, current, id);
    assert forall a :: Settled(id, a) in log ==> EventKept(leases, current, Settled(id, a));
    var reloaded := Reloaded(id, leases[id].binding.tabId);
    assert reloaded in log ==> EventKept(leases, current, reloaded);
    forall ev | ev in log ensures EventKept(taken, current, ev) { assert EventKept(leases, current, ev); }
    forall l | 0 <= l < |taken| ensures LeaseKept(log, taken, current, l) { assert LeaseKept(log, leases, current, l); }
    forall o | o in after ensures StageKept(log, taken, after[o]) {
      if o != op { assert StageKept(log, leases, suspended[o]); }
    }
    forall o | o in suspended ensures !InReload(suspended[o], id) { assert StageKept(log, leases, suspended[o]); }
  }

  /** A suspension may join the others if no lease it reloads is in a reload already. */
  lemma StagedMore(log: seq<Event>, leases: seq<Lease>, suspended: map<nat, Suspension>, op: nat, s: Suspension)
    requires Staged(log, leases, suspended) && op !in suspended && StageKept(log, leases, s)
    requires forall id, o :: InReload(s, id) && o in suspended ==> !InReload(suspended[o], id)
    ensures Staged(log, leases, suspended[op := s])
  {
  }

  lemma Rebound(lifecycle: map<nat, Lifecycle>, bindings: map<nat, Binding>, tab: nat, b: Binding)
    requires Bound(lifecycle, bindings) && Carries(lifecycle, tab, b)
    ensures Bound(lifecycle, bindings[tab := b]) && Bound(lifecycle, bindings - {tab})
  {
  }

  // ---- The coordinator ----

  class BackgroundContentRefreshCoordinator {
    var disposed: bool
    var lifecycle: map<nat, Lifecycle>
    var eligibleWindows: set<nat>
    var provisional: map<nat, Binding>
    var ready: map<nat, Binding>
    // Every lease object there ever was, by number, and each tab's current one.
    var leases: seq<Lease>
    var commandLeases: map<nat, nat>
    // Each tab's transition, by the number of the lease it was made from.
    var transitions: map<nat, Transition>
    var reloadTransitions: map<nat, nat>
    var suspended: map<nat, Suspension>
    var nextOp: nat
    ghost var log: seq<Event>

    ghost predicate Told()
      reads this
    {
      && AllDue(log) && EpochsLogged(log, lifecycle) && LeasesLogged(log, leases, commandLeases) && Staged(log, leases, suspended)
      && PartsLogged(log, lifecycle, eligibleWindows)
    }

    /** Every stored binding and lease carries its tab's current lifecycle, and every logged event was due. */
    ghost predicate Valid()
      reads this
    {
      && Bound(lifecycle, provisional) && Bound(lifecycle, ready) && Leased(lifecycle, leases, commandLeases)
      && TransitionsKept(leases, transitions, reloadTransitions)
      && Told() && forall op :: op in suspended ==> op < nextOp
    }

    constructor ()
      ensures Valid() && log == [] && !disposed && suspended == map[]
    {
      disposed, lifecycle, eligibleWindows := false, map[], {};
      provisional, ready, leases, commandLeases := map[], map[], [], map[];
      transitions, reloadTransitions := map[], map[];
      suspended, nextOp, log := map[], 0, [];
    }

    predicate IsCurrentLifecycle(tab: nat, epoch: nat)
      reads this
      ensures IsCurrentLifecycle(tab, epoch) <==>
        && tab in lifecycle && lifecycle[tab].lifecycleEpoch == epoch && lifecycle[tab].participant && !lifecycle[tab].detached
        && exists w :: w in eligibleWindows && lifecycle[tab].windowId == Some(w)
    {
      var l := Authorized(lifecycle, eligibleWindows, tab, None);
      l.Some? && l.value.lifecycleEpoch == epoch
    }

    predicate IsCurrentBinding(b: Binding)
      reads this
      ensures IsCurrentBinding(b) <==>
        && IsCurrentLifecycle(b.tabId, b.lifecycleEpoch) && lifecycle[b.tabId].windowId == Some(b.windowId)
        && lifecycle[b.tabId].pageUrl == Some(b.pageUrl)
        && if b.tabId in ready then ready[b.tabId] == b else b.tabId in provisional && provisional[b.tabId] == b
    {
      var l := Authorized(lifecycle, eligibleWindows, b.tabId, Some(b.windowId));
      && l.Some? && l.value.lifecycleEpoch == b.lifecycleEpoch && l.value.pageUrl == Some(b.pageUrl)
      && OrElse(Value(ready, b.tabId), Value(provisional, b.tabId)) == Some(b)
    }

    predicate IsLeaseCurrent(id: nat)
      requires id < |leases|
      reads this
      ensures IsLeaseCurrent(id) <==>
        var b := leases[id].binding;
        && IsCurrentLifecycle(b.tabId, b.lifecycleEpoch)
        && ((b.tabId in ready && ready[b.tabId] == b)
            || (leases[id].mode == Reload && leases[id].consumed && lifecycle[b.tabId].blockedRuntimeId == Some(b.contentRuntimeId)))
    {
      var lease := leases[id];
      && IsCurrentLifecycle(lease.binding.tabId, lease.binding.lifecycleEpoch)
      && (Value(ready, lease.binding.tabId) == Some(lease.binding)
          || (lease.mode.Reload? && lease.consumed && lease.binding.tabId in lifecycle
              && lifecycle[lease.binding.tabId].blockedRuntimeId == Some(lease.binding.contentRuntimeId)))
    }

    // ---- Small steps ----

    method LifecycleFor(tab: nat)
      requires Valid()
      modifies this`lifecycle
      ensures Valid() && tab in lifecycle
      ensures lifecycle == old(lifecycle)[tab := LifecycleOf(old(lifecycle), tab)]
    {
      hide AllDue, Epoch, TakesPart, Open, LeasesLogged, Staged, TransitionsKept, PartsLogged;
      PartsKept(log, lifecycle, eligibleWindows, tab, LifecycleOf(lifecycle, tab));
      if tab !in lifecycle { lifecycle := lifecycle[tab := FRESH]; }
    }

    /** `commandLeases.delete` */
    method DropLease(tab: nat)
      requires Valid()
      modifies this`commandLeases, this`log
      ensures Valid() && old(log) <= log && commandLeases == old(commandLeases) - {tab}
    {
      hide AllDue, Epoch, TakesPart, Open, LeasesLogged, Staged, TransitionsKept;
      if tab in commandLeases {
        DropLogged(log, leases, commandLeases, suspended, tab);
        SamePartsLogged(log, log + [Dropped(commandLeases[tab])], lifecycle, eligibleWindows);
        log := log + [Dropped(commandLeases[tab])];
        commandLeases := commandLeases - {tab};
      } else {
        assert commandLeases - {tab} == commandLeases;
      }
    }

    /** Nothing stored belongs to the tab. */
    predicate Unbound(tab: nat)
      reads this
    {
      tab !in provisional && tab !in ready && tab !in commandLeases
    }

    /** Everything stored of the tab is gone, and nothing of any other tab. */
    twostate predicate Revoked(tab: nat)
      reads this
    {
      && provisional == old(provisional) - {tab} && ready == old(ready) - {tab}
      && commandLeases == old(commandLeases) - {tab} && reloadTransitions == old(reloadTransitions) - {tab}
    }

    /** Everything stored of some tabs is gone, and nothing of any other. */
    twostate predicate AllRevoked(tabs: set<nat>)
      reads this
    {
      && provisional == old(provisional) - tabs && ready == old(ready) - tabs
      && commandLeases == old(commandLeases) - tabs && reloadTransitions == old(reloadTransitions) - tabs
    }

    twostate predicate Untouched()
      reads this
    {
      && provisional == old(provisional) && ready == old(ready)
      && commandLeases == old(commandLeases) && reloadTransitions == old(reloadTransitions)
    }

    /** `invalidateLifecycle`: a new epoch, in which nothing stored belongs to the tab. */
    method InvalidateLifecycle(tab: nat, preserveReloadTransition: bool)
      requires Valid() && tab in lifecycle
      modifies this`lifecycle, this`provisional, this`ready, this`commandLeases, this`reloadTransitions, this`log
      ensures Valid() && old(log) <= log && Unbound(tab)
      ensures lifecycle == old(lifecycle)[tab := NextEpoch(old(lifecycle)[tab])]
      ensures provisional == old(provisional) - {tab} && ready == old(ready) - {tab}
      ensures commandLeases == old(commandLeases) - {tab}
      ensures reloadTransitions == if preserveReloadTransition then old(reloadTransitions) else old(reloadTransitions) - {tab}
    {
      hide AllDue, Epoch, TakesPart, Open, LeasesLogged, Staged, Bound, Leased, EpochsLogged, TransitionsKept, PartsLogged;
      DropLease(tab);
      InvalidationLogged(log, leases, commandLeases, suspended, tab);
      ghost var next := lifecycle[tab].(lifecycleEpoch := lifecycle[tab].lifecycleEpoch + 1, preserveSnapshot := false);
      InvalidationBinds(lifecycle, provisional, tab, next);
      InvalidationBinds(lifecycle, ready, tab, next);
      InvalidationLeases(lifecycle, leases, commandLeases, tab, next);
      InvalidationEpochs(log, log + [Invalidated(tab)], lifecycle, tab, next);
      FewerTransitions(leases, transitions, reloadTransitions, tab);
      SamePartsLogged(log, log + [Invalidated(tab)], lifecycle, eligibleWindows);
      PartsKept(log + [Invalidated(tab)], lifecycle, eligibleWindows, tab, next);
      assert commandLeases - {tab} == commandLeases;
      log := log + [Invalidated(tab)];
      lifecycle := lifecycle[tab := lifecycle[tab].(lifecycleEpoch := lifecycle[tab].lifecycleEpoch + 1, preserveSnapshot := false)];
      if !preserveReloadTransition { reloadTransitions := reloadTransitions - {tab}; }
      provisional := provisional - {tab};
      ready := ready - {tab};
    }

    /** Change a lifecycle record within its epoch. */
    method Amend(tab: nat, l: Lifecycle)
      requires Valid() && tab in lifecycle && l.lifecycleEpoch == lifecycle[tab].lifecycleEpoch
      requires l.participant == lifecycle[tab].participant
      requires Unbound(tab) || (l.windowId == lifecycle[tab].windowId && l.pageUrl == lifecycle[tab].pageUrl)
      modifies this`lifecycle
      ensures Valid() && lifecycle == old(lifecycle)[tab := l]
    {
      hide AllDue, Epoch, TakesPart, Open, LeasesLogged, Staged, TransitionsKept, PartsLogged;
      PartsKept(log, lifecycle, eligibleWindows, tab, l);
      lifecycle := lifecycle[tab := l];
    }

    /** A tab joins from a window, or leaves: it has nothing stored, or stays where it is. */
    method Enlist(tab: nat, l: Lifecycle)
      requires Valid() && tab in lifecycle && l.lifecycleEpoch == lifecycle[tab].lifecycleEpoch
      requires Unbound(tab) || (l.windowId == lifecycle[tab].windowId && l.pageUrl == lifecycle[tab].pageUrl)
      modifies this`lifecycle, this`log
      ensures Valid() && lifecycle == old(lifecycle)[tab := l]
      ensures log == old(log) + [if l.participant then Joined(tab, if l.windowId.Some? then l.windowId.value else 0) else Left(tab)]
    {
      hide AllDue, Epoch, TakesPart, Open, LeasesLogged, Staged, TransitionsKept, TakesPart, Open, PartsLogged;
      ghost var ev := if l.participant then Joined(tab, if l.windowId.Some? then l.windowId.value else 0) else Left(tab);
      PartLogged(log, leases, commandLeases, suspended, ev);
      PartsAfter(log, log + [ev], lifecycle, eligibleWindows, tab, l);
      lifecycle := lifecycle[tab := l];
      log := log + [ev];
    }

    /** A window becomes eligible or no longer is, or none is any more. */
    method Mark(windows: set<nat>, ghost ev: Event)
      requires Valid() && (ev.Opened? || ev.Closed? || ev.AllClosed?)
      requires forall w :: w in windows <==> ev == Opened(w) || (ev != Closed(w) && ev != AllClosed && w in eligibleWindows)
      modifies this`eligibleWindows, this`log
      ensures Valid() && eligibleWindows == windows && log == old(log) + [ev]
    {
      hide AllDue, Epoch, TakesPart, Open, LeasesLogged, Staged, TransitionsKept, TakesPart, Open;
      PartLogged(log, leases, commandLeases, suspended, ev);
      eligibleWindows := windows;
      log := log + [ev];
    }

    method Suspend(s: Suspension) returns (op: nat)
      requires Valid() && StageKept(log, leases, s) && forall id :: !InReload(s, id)
      modifies this`suspended, this`nextOp
      ensures Valid() && suspended == old(suspended)[op := s] && op !in old(suspended)
    {
      hide AllDue, Epoch, TakesPart, Open, LeasesLogged, TransitionsKept;
      op := nextOp;
      suspended := suspended[op := s];
      nextOp := nextOp + 1;
    }

    /** Take a suspension up again; a reload that is taken up is in no other. */
    method Resume(op: nat) returns (s: Suspension)
      requires Valid() && op in suspended
      modifies this`suspended
      ensures Valid() && s == old(suspended)[op] && suspended == old(suspended) - {op}
      ensures StageKept(log, leases, s)
      ensures forall id, o :: InReload(s, id) && o in suspended ==> !InReload(suspended[o], id)
    {
      hide AllDue, Epoch, TakesPart, Open, LeasesLogged, TransitionsKept;
      s := suspended[op];
      suspended := suspended - {op};
    }

    // ---- dispatch ----

    /** Up to the wait for a ready content runtime. */
    method Dispatch(tab: nat, command: Command) returns (op: Option<nat>)
      requires Valid()
      modifies this
      ensures Valid() && old(log) <= log
      ensures op.Some? <==> !disposed && Authorized(lifecycle, eligibleWindows, tab, None).Some?
      ensures op.Some? ==> op.value in suspended && suspended[op.value] == EnsuringReady(tab, EpochOf(lifecycle, tab), command)
      ensures commandLeases == if disposed then old(commandLeases) else old(commandLeases) - {tab}
      ensures leases == old(leases) && provisional == old(provisional) && ready == old(ready)
      ensures lifecycle == old(lifecycle) && reloadTransitions == old(reloadTransitions)
    {
      hide AllDue, Epoch, TakesPart, Open, LeasesLogged, Staged, TransitionsKept;
      if disposed { return None; }
      DropLease(tab);
      var authorized := Authorized(lifecycle, eligibleWindows, tab, None);
      if authorized.None? { return None; }
      var waiting := Suspend(EnsuringReady(tab, authorized.value.lifecycleEpoch, command));
      op := Some(waiting);
    }

    /** A binding is ready, or waiting for one failed; a revoked one ends the dispatch. */
    method DispatchReady(op: nat, binding: Option<Binding>) returns (next: Option<nat>)
      requires Valid() && op in suspended && suspended[op].EnsuringReady?
      requires binding.Some? ==> binding.value.tabId == suspended[op].tab && binding.value.lifecycleEpoch == suspended[op].epoch
      modifies this`suspended, this`nextOp
      ensures Valid()
      ensures next.Some? <==> binding.Some? && IsCurrentBinding(binding.value)
      ensures next.Some? ==> next.value in suspended && suspended[next.value] == Preparing(binding.value, old(suspended)[op].command)
    {
      hide AllDue, Epoch, TakesPart, Open, LeasesLogged, Staged, TransitionsKept;
      var s := Resume(op);
      if binding.None? || !IsCurrentBinding(binding.value) { return None; }
      var waiting := Suspend(Preparing(binding.value, s.command));
      next := Some(waiting);
    }

    /** The page is prepared: when the binding still stands, it becomes a lease and the command is sent. */
    method DispatchPrepared(op: nat, refreshCommandId: string, sendable: bool) returns (next: Option<nat>)
      requires Valid() && op in suspended && suspended[op].Preparing?
      modifies this
      ensures Valid() && old(log) <= log
      ensures var b := old(suspended)[op].binding; var command := old(suspended)[op].command;
        && (next.Some? <==> old(IsCurrentBinding(suspended[op].binding)) && sendable)
        && (old(IsCurrentBinding(suspended[op].binding)) ==>
              && leases == old(leases) + [Lease(b, refreshCommandId, command.refreshGeneration, command.mode, false, None)]
              && commandLeases == old(commandLeases)[b.tabId := |old(leases)|])
        && (next.Some? ==> next.value in suspended && suspended[next.value] == Responding(|old(leases)|, command))
        && (!old(IsCurrentBinding(suspended[op].binding)) ==> leases == old(leases) && commandLeases == old(commandLeases))
      ensures provisional == old(provisional) && ready == old(ready)
      ensures lifecycle == old(lifecycle) && reloadTransitions == old(reloadTransitions)
    {
      hide AllDue, Epoch, TakesPart, Open, LeasesLogged, Staged, TransitionsKept;
      var s := Resume(op);
      if !IsCurrentBinding(s.binding) { return None; }
      Grant(s.binding, Lease(s.binding, refreshCommandId, s.command.refreshGeneration, s.command.mode, false, None));
      if !sendable { return None; }
      var waiting := Suspend(Responding(|leases| - 1, s.command));
      next := Some(waiting);
    }

    /** A current binding carries its tab's lifecycle. */
    lemma CurrentCarries(b: Binding)
      requires Valid() && IsCurrentBinding(b)
      ensures Carries(lifecycle, b.tabId, b) && TakesPart(log, b.tabId) && Open(log, b.windowId)
    {
    }

    /** `commandLeases.set`: the tab's lease, if it has one, is replaced. */
    method Grant(b: Binding, lease: Lease)
      requires Valid() && IsCurrentBinding(b) && lease.binding == b && !lease.consumed && lease.completion.None?
      modifies this`leases, this`commandLeases, this`log
      ensures Valid() && old(log) <= log
      ensures leases == old(leases) + [lease] && commandLeases == old(commandLeases)[b.tabId := |old(leases)|]
    {
      hide AllDue, Epoch, TakesPart, Open, LeasesLogged, Staged, Bound, Leased, TransitionsKept;
      CurrentCarries(b);
      DropLease(b.tabId);
      GrantLogged(log, leases, commandLeases, suspended, lease);
      GrantLeases(lifecycle, leases, commandLeases, lease);
      MoreLeases(leases, transitions, reloadTransitions, lease);
      SamePartsLogged(log, log + [GrantedTo(|leases|, lease)], lifecycle, eligibleWindows);
      log := log + [GrantedTo(|leases|, lease)];
      commandLeases := commandLeases[b.tabId := |leases|];
      leases := leases + [lease];
    }

    /** `hasAcceptedReloadSnapshotAuthority` */
    predicate HasAcceptedReload(id: nat)
      requires id < |leases|
      reads this
      ensures HasAcceptedReload(id) <==>
        var lease := leases[id]; var b := lease.binding;
        && lease.completion == Some(Accepted) && lease.mode == Reload && b.tabId in lifecycle
        && lifecycle[b.tabId].participant && !lifecycle[b.tabId].detached && lifecycle[b.tabId].preserveSnapshot
        && lifecycle[b.tabId].windowId == Some(b.windowId) && b.windowId in eligibleWindows
        && lifecycle[b.tabId].pageUrl == Some(b.pageUrl) && lifecycle[b.tabId].blockedRuntimeId == Some(b.contentRuntimeId)
        && (b.tabId !in commandLeases || commandLeases[b.tabId] == id)
        && b.tabId in reloadTransitions && reloadTransitions[b.tabId] in transitions
        && exists noted :: transitions[reloadTransitions[b.tabId]]
                           == Transition(b, lease.refreshCommandId, lease.refreshGeneration, noted)
    {
      var lease := leases[id];
      var tab := lease.binding.tabId;
      var l := Authorized(lifecycle, eligibleWindows, tab, Some(lease.binding.windowId));
      && lease.mode.Reload? && lease.completion == Some(Accepted)
      && tab in reloadTransitions && reloadTransitions[tab] in transitions
      && transitions[reloadTransitions[tab]].binding == lease.binding
      && transitions[reloadTransitions[tab]].refreshCommandId == lease.refreshCommandId
      && transitions[reloadTransitions[tab]].refreshGeneration == lease.refreshGeneration
      && l.Some? && l.value.pageUrl == Some(lease.binding.pageUrl) && l.value.preserveSnapshot
      && l.value.blockedRuntimeId == Some(lease.binding.contentRuntimeId)
      && (tab in commandLeases ==> commandLeases[tab] == id)
    }

    /** The checks on a result: for a completed reload, its lease need not stand any more. */
    predicate Succeeds(id: nat, command: Command, response: Option<Response>)
      requires id < |leases|
      reads this
      ensures Succeeds(id, command, response) <==>
        var lease := leases[id]; var b := lease.binding;
        && response == Some(Response(Claim(b.tabId, b.pageUrl, b.contentRuntimeId), lease.refreshCommandId,
                                     command.refreshGeneration, command.mode, true))
        && (command.mode == Reload ==> lease.completion == Some(Accepted))
        && ((command.mode == Reload && lease.completion.Some?)
            || (b.tabId in commandLeases && commandLeases[b.tabId] == id && IsLeaseCurrent(id)))
    {
      var lease := leases[id];
      && ((command.mode.Reload? && lease.completion.Some?)
          || (Value(commandLeases, lease.binding.tabId) == Some(id) && IsLeaseCurrent(id)))
      && response.Some? && response.value.claim == Public(lease.binding)
      && response.value.refreshCommandId == lease.refreshCommandId
      && response.value.refreshGeneration == command.refreshGeneration && response.value.mode == command.mode
      && (command.mode.Reload? ==> lease.completion == Some(Accepted))
      && response.value.accepted
    }

    /** The content runtime answered, or sending failed: success, and the end of the lease if it is still there. */
    method DispatchResponded(op: nat, sent: bool, response: Option<Response>) returns (ok: bool)
      requires Valid() && op in suspended && suspended[op].Responding?
      modifies this`suspended, this`commandLeases, this`log
      ensures Valid() && old(log) <= log
      ensures var id := old(suspended)[op].lease;
        && id < |leases|
        && (ok <==> if sent then old(Succeeds(suspended[op].lease, suspended[op].command, response))
                    else old(HasAcceptedReload(suspended[op].lease)))
        && (ok ==> |old(log)| < |log| && log[|old(log)|] == Succeeded(id)
                   && (leases[id].mode.Reload? ==> leases[id].completion == Some(Accepted)))
        && commandLeases == if Value(old(commandLeases), leases[id].binding.tabId) == Some(id)
                            then old(commandLeases) - {leases[id].binding.tabId} else old(commandLeases)
    {
      hide AllDue, Epoch, TakesPart, Open, LeasesLogged, Staged, TransitionsKept, Bound, Leased, EpochsLogged, PartsLogged;
      var s := Resume(op);
      var id := s.lease;
      ok := if sent then Succeeds(id, s.command, response) else HasAcceptedReload(id);
      if ok { Succeed(id); }
      var tab := leases[id].binding.tabId;
      if Value(commandLeases, tab) == Some(id) { DropLease(tab); }
    }

    ghost method Succeed(id: nat)
      requires Valid() && id < |leases| && (leases[id].mode.Reload? ==> leases[id].completion == Some(Accepted))
      modifies this`log
      ensures Valid() && log == old(log) + [Succeeded(id)]
    {
      hide AllDue, Epoch, TakesPart, Open, LeasesLogged, Staged, TransitionsKept, Bound, Leased;
      SuccessLogged(log, leases, commandLeases, suspended, id);
      SameEpochs(log, log + [Succeeded(id)], lifecycle);
      SamePartsLogged(log, log + [Succeeded(id)], lifecycle, eligibleWindows);
      log := log + [Succeeded(id)];
    }

    // ---- Tabs and windows come and go ----

    method SetTabParticipation(tab: nat, window: nat, participant: bool)
      requires Valid()
      modifies this
      ensures Valid() && old(log) <= log
      ensures lifecycle == if disposed then old(lifecycle)
        else old(lifecycle)[tab := Participating(LifecycleOf(old(lifecycle), tab), window, participant)]
      ensures if EpochOf(lifecycle, tab) == EpochOf(old(lifecycle), tab) then Untouched() else Revoked(tab)
    {
      hide AllDue, Epoch, TakesPart, Open, LeasesLogged, Staged, TransitionsKept, Bound, Leased, EpochsLogged, PartsLogged;
      if disposed { return; }
      LifecycleFor(tab);
      var before := lifecycle[tab];
      if !participant {
        if before.windowId.None? || before.windowId == Some(window) {
          InvalidateLifecycle(tab, false);
          Enlist(tab, lifecycle[tab].(windowId := Some(window), participant := false));
        }
        return;
      }
      if before.detached || (before.windowId.Some? && before.windowId != Some(window)) { InvalidateLifecycle(tab, false); }
      UnplacedIsUnbound(tab);
      Enlist(tab, lifecycle[tab].(windowId := Some(window), participant := true, detached := false));
    }

    /** A tab without a window or without a page address has nothing stored. */
    lemma UnplacedIsUnbound(tab: nat)
      requires Valid()
      ensures tab in lifecycle && (lifecycle[tab].windowId.None? || lifecycle[tab].pageUrl.None?) ==> Unbound(tab)
    {
    }

    method SetWindowEligibility(window: nat, eligible: bool)
      requires Valid()
      modifies this
      ensures Valid() && old(log) <= log
      ensures !disposed ==> eligibleWindows == if eligible then old(eligibleWindows) + {window} else old(eligibleWindows) - {window}
      ensures !disposed && !eligible ==>
        forall t :: t in lifecycle && lifecycle[t].windowId == Some(window) ==> Unbound(t) && t !in reloadTransitions
      ensures AllRevoked(if disposed || eligible then {} else set t | t in old(lifecycle) && old(lifecycle)[t].windowId == Some(window))
      ensures lifecycle.Keys == old(lifecycle).Keys
      ensures forall t :: t in lifecycle ==>
        lifecycle[t] == if !disposed && !eligible && old(lifecycle)[t].windowId == Some(window)
                        then NextEpoch(old(lifecycle)[t]) else old(lifecycle)[t]
    {
      hide AllDue, Epoch, TakesPart, Open, LeasesLogged, Staged, TransitionsKept, Bound, Leased, EpochsLogged, PartsLogged;
      if disposed { return; }
      if eligible { Mark(eligibleWindows + {window}, Opened(window)); } else { RevokeWindow(window); }
    }

    method RevokeTab(tab: nat)
      requires Valid()
      modifies this
      ensures Valid() && old(log) <= log
      ensures !disposed ==> Revoked(tab)
      ensures !disposed ==> lifecycle == old(lifecycle)[tab := NextEpoch(LifecycleOf(old(lifecycle), tab)).(participant := false)]
    {
      hide AllDue, Epoch, TakesPart, Open, LeasesLogged, Staged, TransitionsKept, Bound, Leased, EpochsLogged, PartsLogged;
      if disposed { return; }
      LifecycleFor(tab);
      InvalidateLifecycle(tab, false);
      Enlist(tab, lifecycle[tab].(participant := false));
    }

    /** Invalidate one tab after another. */
    method InvalidateAll(tabs: set<nat>)
      requires Valid() && tabs <= lifecycle.Keys
      modifies this`lifecycle, this`provisional, this`ready, this`commandLeases, this`reloadTransitions, this`log
      ensures Valid() && old(log) <= log && lifecycle.Keys == old(lifecycle).Keys
      ensures forall t :: t in tabs ==> Unbound(t) && t !in reloadTransitions
      ensures forall t :: t in lifecycle ==>
        lifecycle[t] == if t in tabs then NextEpoch(old(lifecycle)[t]) else old(lifecycle)[t]
      ensures AllRevoked(tabs)
    {
      hide AllDue, Epoch, TakesPart, Open, LeasesLogged, Staged, TransitionsKept, Bound, Leased, EpochsLogged, PartsLogged;
      var left := tabs;
      while left != {}
        invariant Valid() && left <= tabs && old(log) <= log && lifecycle.Keys == old(lifecycle).Keys
        invariant AllRevoked(tabs - left)
        invariant forall t :: t in lifecycle ==>
                    lifecycle[t] == if t in tabs - left then NextEpoch(old(lifecycle)[t]) else old(lifecycle)[t]
        decreases left
      {
        var t :| t in left;
        OneMoreGone(old(provisional), tabs, left, t);
        OneMoreGone(old(ready), tabs, left, t);
        OneMoreGone(old(commandLeases), tabs, left, t);
        OneMoreGone(old(reloadTransitions), tabs, left, t);
        InvalidateLifecycle(t, false);
        left := left - {t};
      }
    }

    /** Every tab of the window starts a new lifecycle. */
    method RevokeWindow(window: nat)
      requires Valid()
      modifies this
      ensures Valid() && old(log) <= log
      ensures disposed == old(disposed) && lifecycle.Keys == old(lifecycle).Keys
      ensures eligibleWindows == if disposed then old(eligibleWindows) else old(eligibleWindows) - {window}
      ensures forall t :: t in lifecycle ==>
        if !disposed && old(lifecycle)[t].windowId == Some(window)
        then lifecycle[t] == NextEpoch(old(lifecycle)[t]) && Unbound(t) && t !in reloadTransitions
        else lifecycle[t] == old(lifecycle)[t]
      ensures AllRevoked(if disposed then {} else set t | t in old(lifecycle) && old(lifecycle)[t].windowId == Some(window))
    {
      hide AllDue, Epoch, TakesPart, Open, LeasesLogged, Staged, TransitionsKept, Bound, Leased, EpochsLogged, PartsLogged;
      if disposed { return; }
      Mark(eligibleWindows - {window}, Closed(window));
      InvalidateAll(set t | t in lifecycle && lifecycle[t].windowId == Some(window));
    }

    /** The reload that a loading event belongs to: the same page, in the window the tab is in after the update. */
    predicate ExpectsLoading(tab: nat, update: TabUpdate)
      reads this
      ensures ExpectsLoading(tab, update) ==> update.loading && tab in reloadTransitions && reloadTransitions[tab] in transitions
      ensures update.loading && tab in reloadTransitions && reloadTransitions[tab] in transitions ==>
        var b := transitions[reloadTransitions[tab]].binding;
        ExpectsLoading(tab, update) <==>
          && update.pageUrl == Some(b.pageUrl)
          && if update.windowId.Some? then update.windowId.value == b.windowId
             else tab in lifecycle && lifecycle[tab].windowId == Some(b.windowId)
    {
      && update.loading && tab in reloadTransitions && reloadTransitions[tab] in transitions
      && update.pageUrl == Some(transitions[reloadTransitions[tab]].binding.pageUrl)
      && OrElse(update.windowId, LifecycleOf(lifecycle, tab).windowId) == Some(transitions[reloadTransitions[tab]].binding.windowId)
    }

    /**
     * A tab update: another window, a navigation or another address ends the tab's lifecycle; the loading of an issued
     * reload is noted on its transition, which then survives.
     */
    method ObserveTabUpdate(tab: nat, update: TabUpdate) returns (navigated: bool)
      requires Valid()
      modifies this
      ensures Valid() && old(log) <= log
      ensures var l := LifecycleOf(old(lifecycle), tab); var urlChanged := old(ChangesUrl(tab, update));
        && (navigated <==> !disposed && !l.detached && (MovesWindow(l, update) || update.loading || urlChanged))
        && lifecycle == (if disposed then old(lifecycle)
                         else if l.detached then old(lifecycle)[tab := l]
                         else if MovesWindow(l, update)
                         then old(lifecycle)[tab := NextEpoch(l).(participant := false, detached := true)]
                         else old(lifecycle)[tab := Observed(l, RuntimeOf(old(BoundRuntime(tab))), old(ExpectsLoading(tab, update)),
                                                             urlChanged, update)])
        && (!navigated ==> Untouched())
        && (navigated ==> if MovesWindow(l, update) then Revoked(tab) else Navigated(tab, old(ExpectsLoading(tab, update)) && !urlChanged))
      ensures tab in reloadTransitions && navigated ==> ExpectsLoading(tab, update)
    {
      hide AllDue, Epoch, TakesPart, Open, LeasesLogged, Staged, TransitionsKept, Bound, Leased, EpochsLogged, Told, PartsLogged;
      if disposed { return false; }
      LifecycleFor(tab);
      if lifecycle[tab].detached { return false; }
      if MovesWindow(lifecycle[tab], update) {
        InvalidateLifecycle(tab, false);
        Enlist(tab, lifecycle[tab].(participant := false, detached := true));
        return true;
      }
      navigated := ObserveInWindow(tab, update);
    }

    /** An update of a tab that stays in its window, or has none yet. */
    method ObserveInWindow(tab: nat, update: TabUpdate) returns (navigated: bool)
      requires Valid() && tab in lifecycle && !MovesWindow(lifecycle[tab], update)
      modifies this`lifecycle, this`provisional, this`ready, this`commandLeases, this`transitions, this`reloadTransitions, this`log
      ensures Valid() && old(log) <= log
      ensures navigated <==> update.loading || old(ChangesUrl(tab, update))
      ensures lifecycle == old(lifecycle)[tab := Observed(old(lifecycle)[tab], RuntimeOf(old(BoundRuntime(tab))),
                                                          old(ExpectsLoading(tab, update)), old(ChangesUrl(tab, update)), update)]
      ensures if navigated then Navigated(tab, old(ExpectsLoading(tab, update)) && !old(ChangesUrl(tab, update))) else Untouched()
      ensures tab in reloadTransitions && navigated ==> ExpectsLoading(tab, update)
    {
      hide AllDue, Epoch, TakesPart, Open, LeasesLogged, Staged, TransitionsKept, Bound, Leased, EpochsLogged, Told, PartsLogged;
      if update.windowId.Some? {
        UnplacedIsUnbound(tab);
        Amend(tab, lifecycle[tab].(windowId := update.windowId));
      }
      navigated := ObservePage(tab, update);
    }

    function BoundRuntime(tab: nat): (b: Option<Binding>)
      reads this
      ensures tab in ready ==> b == Some(ready[tab])
      ensures tab !in ready && tab in provisional ==> b == Some(provisional[tab])
      ensures tab !in ready && tab !in provisional ==> b.None?
    {
      OrElse(Value(ready, tab), Value(provisional, tab))
    }

    /** The update names an address other than the tab's known one. */
    predicate ChangesUrl(tab: nat, update: TabUpdate)
      reads this
      ensures tab in lifecycle && lifecycle[tab].pageUrl.Some? ==>
        (ChangesUrl(tab, update) <==> update.pageUrl.Some? && update.pageUrl != lifecycle[tab].pageUrl)
      ensures (tab !in lifecycle || lifecycle[tab].pageUrl.None?) && tab in ready ==>
        (ChangesUrl(tab, update) <==> update.pageUrl.Some? && update.pageUrl.value != ready[tab].pageUrl)
      ensures (tab !in lifecycle || lifecycle[tab].pageUrl.None?) && tab !in ready && tab in provisional ==>
        (ChangesUrl(tab, update) <==> update.pageUrl.Some? && update.pageUrl.value != provisional[tab].pageUrl)
      ensures (tab !in lifecycle || lifecycle[tab].pageUrl.None?) && tab !in ready && tab !in provisional ==> !ChangesUrl(tab, update)
    {
      var known := OrElse(LifecycleOf(lifecycle, tab).pageUrl,
                          if BoundRuntime(tab).Some? then Some(BoundRuntime(tab).value.pageUrl) else None);
      update.pageUrl.Some? && known.Some? && update.pageUrl != known
    }

    /** Nothing stored of the tab is left but the transition of the reload that is loading, which is noted on it. */
    twostate predicate Navigated(tab: nat, preserve: bool)
      reads this
    {
      && Unbound(tab) && provisional == old(provisional) - {tab} && ready == old(ready) - {tab}
      && commandLeases == old(commandLeases) - {tab}
      && reloadTransitions == (if preserve then old(reloadTransitions) else old(reloadTransitions) - {tab})
      && (preserve && tab in reloadTransitions ==>
            reloadTransitions[tab] in transitions && transitions[reloadTransitions[tab]].navigationObserved)
    }

    method ObservePage(tab: nat, update: TabUpdate) returns (navigated: bool)
      requires Valid() && tab in lifecycle && (update.windowId.Some? ==> lifecycle[tab].windowId == update.windowId)
      modifies this`lifecycle, this`provisional, this`ready, this`commandLeases, this`transitions, this`reloadTransitions, this`log
      ensures Valid() && old(log) <= log
      ensures navigated <==> update.loading || old(ChangesUrl(tab, update))
      ensures lifecycle == old(lifecycle)[tab := Observed(old(lifecycle)[tab], RuntimeOf(old(BoundRuntime(tab))),
                                                          old(ExpectsLoading(tab, update)), old(ChangesUrl(tab, update)), update)]
      ensures if navigated then Navigated(tab, old(ExpectsLoading(tab, update)) && !old(ChangesUrl(tab, update))) else Untouched()
      ensures tab in reloadTransitions && navigated ==> ExpectsLoading(tab, update)
    {
      hide AllDue, Epoch, TakesPart, Open, LeasesLogged, Staged, TransitionsKept, Bound, Leased, EpochsLogged, PartsLogged;
      var bound := BoundRuntime(tab);
      var urlChanged := ChangesUrl(tab, update);
      var expected := ExpectsLoading(tab, update);
      if update.loading || urlChanged {
        var blocked := if update.loading then OrElse(RuntimeOf(bound), lifecycle[tab].blockedRuntimeId) else None;
        if expected { NoteNavigation(tab); }
        Navigate(tab, update.pageUrl, blocked, expected && !urlChanged);
        return true;
      }
      if update.pageUrl.Some? {
        UnplacedIsUnbound(tab);
        Amend(tab, lifecycle[tab].(pageUrl := update.pageUrl));
      }
      return false;
    }

    /** Another document: a new lifecycle, at the new address, with the old runtime blocked. */
    method Navigate(tab: nat, pageUrl: Option<string>, blocked: Option<string>, preserve: bool)
      requires Valid() && tab in lifecycle
      modifies this`lifecycle, this`provisional, this`ready, this`commandLeases, this`reloadTransitions, this`log
      ensures Valid() && old(log) <= log && Unbound(tab)
      ensures lifecycle == old(lifecycle)[tab := NextEpoch(old(lifecycle)[tab]).(pageUrl := pageUrl, blockedRuntimeId := blocked,
                                                                                preserveSnapshot := preserve)]
      ensures provisional == old(provisional) - {tab} && ready == old(ready) - {tab}
      ensures commandLeases == old(commandLeases) - {tab}
      ensures reloadTransitions == if preserve then old(reloadTransitions) else old(reloadTransitions) - {tab}
    {
      hide AllDue, Epoch, TakesPart, Open, LeasesLogged, Staged, TransitionsKept, Bound, Leased, EpochsLogged, PartsLogged;
      InvalidateLifecycle(tab, preserve);
      Amend(tab, lifecycle[tab].(pageUrl := pageUrl, blockedRuntimeId := blocked, preserveSnapshot := preserve));
    }

    lemma TransitionStored(tab: nat)
      requires Valid()
      ensures tab in reloadTransitions ==> reloadTransitions[tab] in transitions && reloadTransitions[tab] < |leases|
    {
    }

    method NoteNavigation(tab: nat)
      requires Valid() && tab in reloadTransitions && reloadTransitions[tab] in transitions
      modifies this`transitions
      ensures Valid()
      ensures transitions == old(transitions)[reloadTransitions[tab] := old(transitions)[reloadTransitions[tab]].(navigationObserved := true)]
    {
      hide AllDue, Epoch, TakesPart, Open, LeasesLogged, Staged, Bound, Leased, EpochsLogged;
      var id := reloadTransitions[tab];
      transitions := transitions[id := transitions[id].(navigationObserved := true)];
    }

    method RemoveTab(tab: nat)
      requires Valid()
      modifies this
      ensures Valid() && old(log) <= log
      ensures Revoked(tab)
      ensures lifecycle == old(lifecycle)[tab := NextEpoch(LifecycleOf(old(lifecycle), tab)).(participant := false, detached := true)]
    {
      hide AllDue, Epoch, TakesPart, Open, LeasesLogged, Staged, TransitionsKept, Bound, Leased, EpochsLogged, PartsLogged;
      LifecycleFor(tab);
      InvalidateLifecycle(tab, false);
      Enlist(tab, lifecycle[tab].(participant := false, detached := true));
    }

    method Dispose()
      requires Valid()
      modifies this
      ensures Valid() && old(log) <= log && disposed
      ensures !old(disposed) ==> eligibleWindows == {} && forall t :: t in lifecycle ==> Unbound(t)
      ensures AllRevoked(if old(disposed) then {} else old(lifecycle).Keys)
    {
      hide AllDue, Epoch, TakesPart, Open, LeasesLogged, Staged, TransitionsKept, Bound, Leased, EpochsLogged, PartsLogged;
      if disposed { return; }
      disposed := true;
      InvalidateAll(lifecycle.Keys);
      Mark({}, AllClosed);
    }

    // ---- Messages of the content runtime ----

    /** A runtime that starts is bound provisionally; any other binding and the lease of its tab go. */
    method RouteBootstrap(sender: Sender, tab: nat, window: nat, pageUrl: string,
                          contentRuntimeId: string) returns (accepted: Option<Binding>)
      requires Valid()
      modifies this
      ensures Valid() && old(log) <= log
      ensures accepted.Some? <==>
        && !disposed && TrustedSender(sender, tab, window, pageUrl)
        && Authorized(old(lifecycle), eligibleWindows, tab, Some(window)).Some?
        && (old(lifecycle)[tab].pageUrl.Some? ==> old(lifecycle)[tab].pageUrl == Some(pageUrl))
        && old(lifecycle)[tab].blockedRuntimeId != Some(contentRuntimeId)
      ensures accepted.Some? ==> IsCurrentBinding(accepted.value) && Public(accepted.value) == Claim(tab, pageUrl, contentRuntimeId)
      ensures if accepted.None? then Untouched() && lifecycle == old(lifecycle)
        else
          && lifecycle == old(lifecycle)[tab := old(lifecycle)[tab].(pageUrl := Some(pageUrl), blockedRuntimeId := None)]
          && provisional == old(provisional)[tab := accepted.value]
          && ready == (if Value(old(ready), tab) == accepted then old(ready) else old(ready) - {tab})
          && commandLeases == old(commandLeases) - {tab}
      ensures reloadTransitions == old(reloadTransitions)
    {
      hide AllDue, Epoch, TakesPart, Open, LeasesLogged, Staged, TransitionsKept, Bound, Leased, EpochsLogged, PartsLogged;
      if disposed || !TrustedSender(sender, tab, window, pageUrl) { return None; }
      var l := Authorized(lifecycle, eligibleWindows, tab, Some(window));
      if l.None? || (l.value.pageUrl.Some? && l.value.pageUrl != Some(pageUrl)) || l.value.blockedRuntimeId == Some(contentRuntimeId) {
        return None;
      }
      UnplacedIsUnbound(tab);
      Amend(tab, l.value.(pageUrl := Some(pageUrl), blockedRuntimeId := None));
      var binding := Binding(tab, pageUrl, contentRuntimeId, window, l.value.lifecycleEpoch);
      Rebound(lifecycle, provisional, tab, binding);
      Rebound(lifecycle, ready, tab, binding);
      provisional := provisional[tab := binding];
      if Value(ready, tab) != Some(binding) { ready := ready - {tab}; }
      DropLease(tab);
      accepted := Some(binding);
    }

    /** `trustedCurrentBinding` */
    function TrustedBinding(sender: Sender, window: nat, claim: Claim): (owned: Option<Binding>)
      reads this
      ensures owned.Some? ==>
        && sender == Sender(true, Some(claim.tabId), Some(window), Some(claim.pageUrl)) && IsCurrentBinding(owned.value)
        && owned.value == Binding(claim.tabId, claim.pageUrl, claim.contentRuntimeId, window, owned.value.lifecycleEpoch)
      ensures claim.tabId in provisional && Public(provisional[claim.tabId]) == claim ==>
        (owned == Some(provisional[claim.tabId]) <==>
          && sender == Sender(true, Some(claim.tabId), Some(window), Some(claim.pageUrl))
          && provisional[claim.tabId].windowId == window && IsCurrentBinding(provisional[claim.tabId]))
      ensures claim.tabId in ready && (claim.tabId in provisional ==> Public(provisional[claim.tabId]) != claim) ==>
        (owned == Some(ready[claim.tabId]) <==>
          && sender == Sender(true, Some(claim.tabId), Some(window), Some(claim.pageUrl)) && Public(ready[claim.tabId]) == claim
          && ready[claim.tabId].windowId == window && IsCurrentBinding(ready[claim.tabId]))
    {
      var p, r := Value(provisional, claim.tabId), Value(ready, claim.tabId);
      var owned := if p.Some? && Public(p.value) == claim then p else if r.Some? && Public(r.value) == claim then r else None;
      if TrustedSender(sender, claim.tabId, window, claim.pageUrl) && owned.Some? && owned.value.windowId == window
         && IsCurrentBinding(owned.value)
      then owned else None
    }

    method RouteReady(sender: Sender, window: nat, claim: Claim) returns (op: Option<nat>)
      requires Valid()
      modifies this`suspended, this`nextOp
      ensures Valid()
      ensures op.Some? <==> !disposed && TrustedBinding(sender, window, claim).Some?
      ensures op.Some? ==> op.value in suspended && suspended[op.value] == QueuedReady(TrustedBinding(sender, window, claim).value)
    {
      hide AllDue, Epoch, TakesPart, Open, LeasesLogged, Staged, TransitionsKept, Bound, Leased, EpochsLogged;
      if disposed { return None; }
      var owned := TrustedBinding(sender, window, claim);
      if owned.None? { return None; }
      var queued := Suspend(QueuedReady(owned.value));
      op := Some(queued);
    }

    /** The runtime is ready: it is bound for good if it still stands. */
    method ReadyStarts(op: nat) returns (next: Option<nat>)
      requires Valid() && op in suspended && suspended[op].QueuedReady?
      modifies this`suspended, this`nextOp, this`provisional, this`ready
      ensures Valid()
      ensures next.Some? <==> old(IsCurrentBinding(suspended[op].owned))
      ensures var owned := old(suspended)[op].owned;
        if next.None? then provisional == old(provisional) && ready == old(ready)
        else
          && provisional == old(provisional)[owned.tabId := owned] && ready == old(ready)[owned.tabId := owned]
          && next.value in suspended && suspended[next.value] == ReadingSnapshot(owned)
    {
      hide AllDue, Epoch, TakesPart, Open, LeasesLogged, Staged, TransitionsKept, Leased, EpochsLogged;
      var s := Resume(op);
      if !IsCurrentBinding(s.owned) { return None; }
      var tab := s.owned.tabId;
      if Value(provisional, tab) != Some(s.owned) && Value(ready, tab) != Some(s.owned) { return None; }
      CurrentCarries(s.owned);
      provisional, ready := provisional[tab := s.owned], ready[tab := s.owned];
      var reading := Suspend(ReadingSnapshot(s.owned));
      next := Some(reading);
    }

    /** `stored` is whether there is a snapshot, and whether it is one for this page. */
    method ReadyRead(op: nat, stored: Option<bool>) returns (next: Option<nat>)
      requires Valid() && op in suspended && suspended[op].ReadingSnapshot?
      modifies this`suspended, this`nextOp
      ensures Valid()
      ensures next.Some? <==> old(IsCurrentBinding(suspended[op].owned)) && stored == Some(true)
      ensures next.Some? ==> next.value in suspended && suspended[next.value] == ClaimingSnapshot(old(suspended)[op].owned)
    {
      hide AllDue, Epoch, TakesPart, Open, LeasesLogged, Staged, TransitionsKept, Bound, Leased, EpochsLogged;
      var s := Resume(op);
      if !IsCurrentBinding(s.owned) || stored.None? || !stored.value { return None; }
      var claiming := Suspend(ClaimingSnapshot(s.owned));
      next := Some(claiming);
    }

    /** The claimed snapshot, if any, by its refresh generation: it ends the reload it was taken for. */
    method ReadyClaimed(op: nat, snapshot: Option<int>) returns (restores: bool)
      requires Valid() && op in suspended && suspended[op].ClaimingSnapshot?
      modifies this`suspended, this`lifecycle, this`reloadTransitions
      ensures Valid()
      ensures restores <==> snapshot.Some? && old(IsCurrentBinding(suspended[op].owned))
      ensures if !restores then lifecycle == old(lifecycle) && reloadTransitions == old(reloadTransitions)
        else
          var owned := old(suspended)[op].owned; var tab := owned.tabId;
          && tab in old(lifecycle) && lifecycle == old(lifecycle)[tab := old(lifecycle)[tab].(preserveSnapshot := false)]
          && reloadTransitions == (if TakenFor(transitions, old(reloadTransitions), owned, snapshot.value)
                                   then old(reloadTransitions) - {tab} else old(reloadTransitions))
    {
      hide AllDue, Epoch, TakesPart, Open, LeasesLogged, Staged, TransitionsKept, Bound, Leased, EpochsLogged, PartsLogged;
      var s := Resume(op);
      if !IsCurrentBinding(s.owned) || snapshot.None? { return false; }
      var tab := s.owned.tabId;
      Amend(tab, lifecycle[tab].(preserveSnapshot := false));
      TransitionStored(tab);
      if TakenFor(transitions, reloadTransitions, s.owned, snapshot.value) {
        FewerTransitions(leases, transitions, reloadTransitions, tab);
        reloadTransitions := reloadTransitions - {tab};
      }
      return true;
    }

    // ---- The reload a content runtime asks for ----

    /** `trustedCurrentLease` */
    predicate TrustedLease(sender: Sender, window: nat, request: ReloadRequest)
      reads this
      ensures TrustedLease(sender, window, request) <==>
        exists id :: (0 <= id < |leases| && request.claim.tabId in commandLeases && commandLeases[request.claim.tabId] == id
          && IsLeaseCurrent(id)
          && leases[id] == Lease(Binding(request.claim.tabId, request.claim.pageUrl, request.claim.contentRuntimeId, window,
                                         leases[id].binding.lifecycleEpoch),
                                 request.refreshCommandId, request.refreshGeneration, Reload, false, leases[id].completion)
          && sender == Sender(true, Some(request.claim.tabId), Some(window), Some(request.claim.pageUrl)))
    {
      var tab := request.claim.tabId;
      && TrustedSender(sender, tab, window, request.claim.pageUrl)
      && tab in commandLeases && commandLeases[tab] < |leases|
      && var lease := leases[commandLeases[tab]];
         && lease.binding.windowId == window && !lease.consumed && lease.mode.Reload?
         && lease.refreshCommandId == request.refreshCommandId && lease.refreshGeneration == request.refreshGeneration
         && Public(lease.binding) == request.claim && IsLeaseCurrent(commandLeases[tab])
    }

    method RouteReload(sender: Sender, window: nat, request: ReloadRequest) returns (op: Option<nat>)
      requires Valid()
      modifies this`suspended, this`nextOp
      ensures Valid()
      ensures op.Some? <==> !disposed && TrustedLease(sender, window, request)
      ensures op.Some? ==> op.value in suspended && suspended[op.value] == QueuedReload(commandLeases[request.claim.tabId])
    {
      hide AllDue, Epoch, TakesPart, Open, LeasesLogged, Staged, TransitionsKept, Bound, Leased, EpochsLogged;
      if disposed || !TrustedLease(sender, window, request) { return None; }
      var queued := Suspend(QueuedReload(commandLeases[request.claim.tabId]));
      op := Some(queued);
    }

    predicate LeaseStands(id: nat)
      requires id < |leases|
      reads this
      ensures LeaseStands(id) <==>
        IsLeaseCurrent(id) && leases[id].binding.tabId in commandLeases && commandLeases[leases[id].binding.tabId] == id
    {
      Value(commandLeases, leases[id].binding.tabId) == Some(id) && IsLeaseCurrent(id)
    }

    /** The first request consumes the lease; every later one ends here. */
    method ReloadStarts(op: nat) returns (next: Option<nat>)
      requires Valid() && op in suspended && suspended[op].QueuedReload? && suspended[op].lease < |leases|
      modifies this`suspended, this`nextOp, this`leases
      ensures Valid()
      ensures next.Some? <==> old(LeaseStands(suspended[op].lease) && !leases[suspended[op].lease].consumed)
      ensures var id := old(suspended)[op].lease;
        next.Some? ==> leases == old(leases)[id := old(leases)[id].(consumed := true)]
                       && next.value in suspended && suspended[next.value] == Persisting(id)
      ensures next.None? ==> leases == old(leases)
    {
      hide AllDue, Epoch, TakesPart, Open, LeasesLogged, Staged, TransitionsKept, Bound, Leased, EpochsLogged;
      var s := Resume(op);
      var id := s.lease;
      if !LeaseStands(id) || leases[id].consumed { return None; }
      ConsumptionStaged(log, leases, commandLeases, suspended, id, nextOp);
      SameAuthority(lifecycle, leases, commandLeases, transitions, reloadTransitions, id, leases[id].(consumed := true));
      next := Some(nextOp);
      suspended := suspended[nextOp := Persisting(id)];
      nextOp := nextOp + 1;
      leases := leases[id := leases[id].(consumed := true)];
    }

    /** Complete a lease. */
    method Settle(id: nat, completion: Completion)
      requires Valid() && id < |leases| && leases[id].consumed && leases[id].completion.None?
      requires forall op :: op in suspended ==> !InReload(suspended[op], id)
      requires completion.Accepted? ==> Reloaded(id, leases[id].binding.tabId) in log
      modifies this`leases, this`log
      ensures Valid() && log == old(log) + [Settled(id, completion.Accepted?)]
      ensures leases == old(leases)[id := old(leases)[id].(completion := Some(completion))]
    {
      hide AllDue, Epoch, TakesPart, Open, LeasesLogged, Staged, TransitionsKept, Bound, Leased, EpochsLogged;
      SettlementLogged(log, leases, commandLeases, suspended, id, completion);
      SameEpochs(log, log + [Settled(id, completion.Accepted?)], lifecycle);
      SamePartsLogged(log, log + [Settled(id, completion.Accepted?)], lifecycle, eligibleWindows);
      SameAuthority(lifecycle, leases, commandLeases, transitions, reloadTransitions, id, leases[id].(completion := Some(completion)));
      leases := leases[id := leases[id].(completion := Some(completion))];
      log := log + [Settled(id, completion.Accepted?)];
    }

    /** The snapshot is stored, or not: the tab is reloaded only for a lease that still stands. */
    method ReloadPersisted(op: nat, stored: bool) returns (next: Option<nat>)
      requires Valid() && op in suspended && suspended[op].Persisting? && suspended[op].lease < |leases|
      modifies this
      ensures Valid() && old(log) <= log
      ensures next.Some? <==> stored && old(LeaseStands(suspended[op].lease))
      ensures var id := old(suspended)[op].lease; var tab := old(leases)[id].binding.tabId;
        && (next.Some? ==> log == old(log) + [Reloaded(id, tab)] && next.value in suspended && suspended[next.value] == Reloading(id)
                           && tab in reloadTransitions && reloadTransitions[tab] == id)
        && (next.Some? ==> Issued(id, tab) && leases == old(leases))
        && (next.None? ==> lifecycle == old(lifecycle) && reloadTransitions == old(reloadTransitions))
        && (next.None? ==> if old(LeaseStands(suspended[op].lease))
                           then log == old(log) + [Settled(id, false)]
                                && leases == old(leases)[id := old(leases)[id].(completion := Some(Rejected))]
                           else log == old(log) && leases == old(leases))
    {
      hide AllDue, Epoch, TakesPart, Open, LeasesLogged, Staged, TransitionsKept, Bound, Leased, EpochsLogged;
      var s := Resume(op);
      var id := s.lease;
      assert InReload(s, id);
      if stored && LeaseStands(id) {
        var issued := IssueReload(id);
        return Some(issued);
      }
      if LeaseStands(id) { Settle(id, Rejected); }
      return None;
    }

    /** The reload of a lease is on its way: its transition is the tab's, and the runtime that asked for it is blocked. */
    twostate predicate Issued(id: nat, tab: nat)
      requires id < |old(leases)|
      reads this
    {
      var lease := old(leases)[id];
      && tab in old(lifecycle) && reloadTransitions == old(reloadTransitions)[tab := id]
      && transitions == old(transitions)[id := Transition(lease.binding, lease.refreshCommandId, lease.refreshGeneration, false)]
      && lifecycle == old(lifecycle)[tab := old(lifecycle)[tab].(preserveSnapshot := true,
                                                                 blockedRuntimeId := Some(lease.binding.contentRuntimeId))]
    }

    lemma LeasedEpoch(id: nat)
      requires Valid() && id < |leases| && LeaseStands(id)
      ensures leases[id].binding.tabId in lifecycle
      ensures leases[id].binding.lifecycleEpoch == Epoch(log, leases[id].binding.tabId)
      ensures IsCurrent(leases, commandLeases, id)
      ensures TakesPart(log, leases[id].binding.tabId) && Open(log, leases[id].binding.windowId)
    {
      hide AllDue, Epoch, TakesPart, Open, LeasesLogged, TransitionsKept, Staged;
    }

    /** Note the transition, block the old runtime and reload the tab. */
    method IssueReload(id: nat) returns (op: nat)
      requires Valid() && id < |leases| && LeaseStands(id) && StageKept(log, leases, Persisting(id))
      requires forall o :: o in suspended ==> !InReload(suspended[o], id)
      modifies this`suspended, this`nextOp, this`lifecycle, this`transitions, this`reloadTransitions, this`log
      ensures Valid() && log == old(log) + [Reloaded(id, leases[id].binding.tabId)]
      ensures op in suspended && suspended[op] == Reloading(id)
      ensures Issued(id, leases[id].binding.tabId)
    {
      hide AllDue, Epoch, TakesPart, Open, LeasesLogged, TransitionsKept, Bound, Leased, Staged, EpochsLogged;
      LeasedEpoch(id);
      var lease := leases[id];
      var tab := lease.binding.tabId;
      ReloadLogged(log, leases, commandLeases, suspended, id);
      SameEpochs(log, log + [Reloaded(id, tab)], lifecycle);
      SamePartsLogged(log, log + [Reloaded(id, tab)], lifecycle, eligibleWindows);
      StagedMore(log + [Reloaded(id, tab)], leases, suspended, nextOp, Reloading(id));
      NewTransition(leases, transitions, reloadTransitions, id);
      transitions := transitions[id := Transition(lease.binding, lease.refreshCommandId, lease.refreshGeneration, false)];
      reloadTransitions := reloadTransitions[tab := id];
      log := log + [Reloaded(id, tab)];
      op := nextOp;
      suspended := suspended[op := Reloading(id)];
      nextOp := nextOp + 1;
      Amend(tab, lifecycle[tab].(preserveSnapshot := true, blockedRuntimeId := Some(lease.binding.contentRuntimeId)));
    }

    /** The bindings of a runtime are gone. */
    twostate predicate Cleared(claim: Claim)
      reads this
    {
      && provisional == (if claim.tabId in old(provisional) && Public(old(provisional)[claim.tabId]) == claim
                         then old(provisional) - {claim.tabId} else old(provisional))
      && ready == (if claim.tabId in old(ready) && Public(old(ready)[claim.tabId]) == claim
                   then old(ready) - {claim.tabId} else old(ready))
    }

    /** `clearBinding` */
    method ClearBinding(claim: Claim)
      requires Valid()
      modifies this`provisional, this`ready
      ensures Valid() && Cleared(claim)
    {
      hide AllDue, Epoch, TakesPart, Open, LeasesLogged, Staged, TransitionsKept, Leased, EpochsLogged;
      if claim.tabId in provisional && Public(provisional[claim.tabId]) == claim { provisional := provisional - {claim.tabId}; }
      if claim.tabId in ready && Public(ready[claim.tabId]) == claim { ready := ready - {claim.tabId}; }
    }

    /**
     * The browser answered the reload. It counts as accepted when its transition is still there and the browser agreed
     * or the page was seen to load; a failed one whose transition is still there is rejected.
     */
    method ReloadReturned(op: nat, reloaded: bool) returns (accepted: bool)
      requires Valid() && op in suspended && suspended[op].Reloading? && suspended[op].lease < |leases|
      modifies this
      ensures Valid() && old(log) <= log
      ensures var id := old(suspended)[op].lease; var tab := old(leases)[id].binding.tabId;
        var there := Value(old(reloadTransitions), tab) == Some(id);
        && |leases| == |old(leases)| && leases[id].binding.tabId == tab
        && (accepted <==> there && (reloaded || (id in old(transitions) && old(transitions)[id].navigationObserved)))
        && leases[id].completion == (if accepted then Some(Accepted) else if there then Some(Rejected) else None)
        && reloadTransitions == (if there && !accepted then old(reloadTransitions) - {tab} else old(reloadTransitions))
        && lifecycle == (if there && !accepted then Unblocked(old(lifecycle), tab, old(leases)[id].binding) else old(lifecycle))
        && (if accepted && !(id in old(transitions) && old(transitions)[id].navigationObserved)
            then Cleared(Public(old(leases)[id].binding)) else provisional == old(provisional) && ready == old(ready))
      ensures commandLeases == old(commandLeases)
    {
      hide AllDue, Epoch, TakesPart, Open, LeasesLogged, Staged, TransitionsKept, Bound, Leased, EpochsLogged;
      var s := Resume(op);
      var id := s.lease;
      assert InReload(s, id);
      var lease := leases[id];
      var tab := lease.binding.tabId;
      if Value(reloadTransitions, tab) != Some(id) { return false; }
      TransitionStored(tab);
      accepted := reloaded || transitions[id].navigationObserved;
      if accepted {
        Settle(id, Accepted);
        if reloaded && !transitions[id].navigationObserved { ClearBinding(Public(lease.binding)); }
      } else {
        UndoTransition(tab, lease);
        Settle(id, Rejected);
      }
    }

    /** Forget a failed reload and unblock the runtime that asked for it, if it is still the tab's. */
    method UndoTransition(tab: nat, lease: Lease)
      requires Valid()
      modifies this`reloadTransitions, this`lifecycle
      ensures Valid() && reloadTransitions == old(reloadTransitions) - {tab}
      ensures lifecycle == Unblocked(old(lifecycle), tab, lease.binding)
    {
      hide AllDue, Epoch, TakesPart, Open, LeasesLogged, Staged, TransitionsKept, Bound, Leased, EpochsLogged, PartsLogged;
      FewerTransitions(leases, transitions, reloadTransitions, tab);
      reloadTransitions := reloadTransitions - {tab};
      if tab in lifecycle && lifecycle[tab].windowId == Some(lease.binding.windowId)
         && lifecycle[tab].pageUrl == Some(lease.binding.pageUrl)
         && lifecycle[tab].blockedRuntimeId == Some(lease.binding.contentRuntimeId) {
        Amend(tab, lifecycle[tab].(preserveSnapshot := false, blockedRuntimeId := None));
      }
    }

    // ---- Whatever happened so far, in any order ----

    /** A tab was reloaded at most once on the authority of a lease. */
    lemma {:induction false} ReloadedAtMostOnce(i: nat, j: nat)
      requires Valid() && i < j < |log| && log[i].Reloaded? && log[j].Reloaded?
      ensures log[i].lease != log[j].lease
    {
      hide AllDue, LeasesLogged, Staged, TransitionsKept, Bound, Leased, EpochsLogged;
      RefreshLog.ReloadedAtMostOnce(log, i, j);
    }

    /**
     * Every reload was on a reload lease granted to the tab before, with no navigation, revocation or removal of the tab
     * since, and with the lease neither dropped nor replaced.
     */
    lemma {:induction false} ReloadedWhileCurrent(j: nat) returns (i: nat)
      requires Valid() && j < |log| && log[j].Reloaded?
      ensures i < j && log[i].Granted? && log[i].lease == log[j].lease && log[i].tab == log[j].tab && log[i].reload
      ensures forall k :: i < k < j ==>
        log[k] != Invalidated(log[j].tab) && log[k] != Dropped(log[j].lease) && !(log[k].Granted? && log[k].tab == log[j].tab)
    {
      hide AllDue, LeasesLogged, Staged, TransitionsKept, Bound, Leased, EpochsLogged;
      i := RefreshLog.ReloadedWhileCurrent(log, j);
    }

    /** Every reload was of a tab that had joined and not left since, in an eligible window, the one of its lease. */
    lemma {:induction false} ReloadedWhileTakingPart(j: nat) returns (g: nat, joined: nat, opening: nat)
      requires Valid() && j < |log| && log[j].Reloaded?
      ensures g < j && log[g].Granted? && log[g].lease == log[j].lease && log[g].tab == log[j].tab
      ensures joined < j && log[joined].Joined? && log[joined].tab == log[j].tab
      ensures opening < j && log[opening] == Opened(log[g].window)
      ensures forall k :: joined < k < j ==> log[k] != Left(log[j].tab)
      ensures forall k :: opening < k < j ==> log[k] != Closed(log[g].window) && log[k] != AllClosed
    {
      hide AllDue, LeasesLogged, Staged, TransitionsKept, Bound, Leased, EpochsLogged, PartsLogged;
      g, joined, opening := RefreshLog.ReloadedWhileTakingPart(log, j);
    }

    /** A reload that succeeded was accepted before, and accepted only after the tab was reloaded for it. */
    lemma {:induction false} SucceededAfterAccepted(j: nat, g: nat) returns (i: nat, r: nat)
      requires Valid() && j < |log| && log[j].Succeeded?
      requires g < j && log[g].Granted? && log[g].lease == log[j].lease && log[g].reload
      ensures r < i < j && log[i] == Settled(log[j].lease, true) && log[r].Reloaded? && log[r].lease == log[j].lease
    {
      hide AllDue, LeasesLogged, Staged, TransitionsKept, Bound, Leased, EpochsLogged;
      i, r := RefreshLog.SucceededAfterAccepted(log, j, g);
    }

    /** A lease was completed at most once, and what its completion says now is what the log says. */
    lemma {:induction false} SettledOnce(j: nat, lease: nat, accepted: bool)
      requires Valid() && j < |log| && log[j] == Settled(lease, accepted)
      ensures lease < |leases| && leases[lease].completion == Some(if accepted then Accepted else Rejected)
      ensures forall i :: 0 <= i < |log| && i != j && log[i].Settled? ==> log[i].lease != lease
    {
      hide AllDue, Staged, TransitionsKept, Bound, Leased, EpochsLogged;
      assert EventKept(leases, commandLeases, log[j]);
      forall i | 0 <= i < |log| && i != j && log[i].Settled? ensures log[i].lease != lease {
        if i < j { RefreshLog.SettledOnce(log, i, j); } else { RefreshLog.SettledOnce(log, j, i); }
      }
    }
  }
}
