/**
 * The background router's channel bindings: which channel a tab and a source are bound to, while registrations, moves,
 * removals and teardowns overtake one another at every `await`.
 */
module ChannelBindings {
  import opened Options

  /** What a panel registers: its channel, its tab and its source. */
  datatype Identity = Identity(channel: string, tabId: nat, sourceId: string)

  /** `serial` stands for the identity of the binding object. */
  datatype Binding = Binding(identity: Identity, windowId: nat, generation: nat, suspended: bool, serial: nat)

  /** A registration object, named by its generation. */
  datatype Registration = Registration(
    identity: Identity,
    disposeGeneration: nat,
    bindingGeneration: Option<nat>,
    detachedWindowId: Option<nat>,
    panelClosed: bool
  )

  datatype Suspension =
    | LookingUpTab(registration: nat)
    | AwaitingTeardown(registration: nat, tab: Option<nat>)
    | Superseding(registration: nat, superseded: Binding, window: nat)
    | MovingAfterTeardown(binding: Binding, window: nat)
    | MovingAfterLookup(binding: Binding, window: nat)
    | AttachingPending(registration: nat, window: nat)
    | Refreshing(binding: Binding)
    | MovingQuietly(binding: Binding)

  // ---- The three maps ----

  /** Every binding is its tab's and its source's, and every tab and source in the indices has its binding. */
  ghost predicate Inverse(bindings: map<string, Binding>, byTab: map<nat, string>, bySource: map<string, string>) {
    && (forall c :: c in bindings ==>
          && bindings[c].identity.channel == c
          && bindings[c].identity.tabId in byTab && byTab[bindings[c].identity.tabId] == c
          && bindings[c].identity.sourceId in bySource && bySource[bindings[c].identity.sourceId] == c)
    && (forall t :: t in byTab ==> byTab[t] in bindings && bindings[byTab[t]].identity.tabId == t)
    && (forall s :: s in bySource ==> bySource[s] in bindings && bindings[bySource[s]].identity.sourceId == s)
  }

  /** Inverse indices find every binding exactly once. */
  lemma FoundOnce(bindings: map<string, Binding>, byTab: map<nat, string>, bySource: map<string, string>, c: string,
                  d: string)
    requires Inverse(bindings, byTab, bySource) && c in bindings && d in bindings
    ensures bindings[c].identity.tabId == bindings[d].identity.tabId ==> c == d
    ensures bindings[c].identity.sourceId == bindings[d].identity.sourceId ==> c == d
    ensures forall t :: t in byTab && byTab[t] == c <==> bindings[c].identity.tabId == t
    ensures forall s :: s in bySource && bySource[s] == c <==> bindings[c].identity.sourceId == s
  {
  }

  /** There are as many tabs and as many sources in the indices as there are bindings. */
  lemma {:induction false} CountedOnce(bindings: map<string, Binding>, byTab: map<nat, string>, bySource: map<string, string>)
    requires Inverse(bindings, byTab, bySource)
    ensures |byTab| == |bindings| == |bySource|
    decreases |bindings|
  {
    if bindings == map[] {
      assert byTab == map[] && bySource == map[];
    } else {
      var c :| c in bindings;
      var tab, source := bindings[c].identity.tabId, bindings[c].identity.sourceId;
      RemoveKeeps(bindings, byTab, bySource, c);
      assert (bindings - {c}).Keys == bindings.Keys - {c};
      assert (byTab - {tab}).Keys == byTab.Keys - {tab} && (bySource - {source}).Keys == bySource.Keys - {source};
      assert |(bindings - {c}).Keys| == |bindings.Keys| - 1;
      CountedOnce(bindings - {c}, byTab - {tab}, bySource - {source});
    }
  }

  lemma ReplaceKeeps(bindings: map<string, Binding>, byTab: map<nat, string>, bySource: map<string, string>, b: Binding)
    requires Inverse(bindings, byTab, bySource)
    requires b.identity.channel in bindings && bindings[b.identity.channel].identity == b.identity
    ensures Inverse(bindings[b.identity.channel := b], byTab, bySource)
  {
  }

  lemma AddKeeps(bindings: map<string, Binding>, byTab: map<nat, string>, bySource: map<string, string>, b: Binding)
    requires Inverse(bindings, byTab, bySource)
    requires b.identity.channel !in bindings && b.identity.tabId !in byTab && b.identity.sourceId !in bySource
    ensures Inverse(bindings[b.identity.channel := b], byTab[b.identity.tabId := b.identity.channel],
                    bySource[b.identity.sourceId := b.identity.channel])
  {
  }

  lemma RemoveKeeps(bindings: map<string, Binding>, byTab: map<nat, string>, bySource: map<string, string>, c: string)
    requires Inverse(bindings, byTab, bySource) && c in bindings
    ensures Inverse(bindings - {c}, byTab - {bindings[c].identity.tabId}, bySource - {bindings[c].identity.sourceId})
  {
  }

  /** A pending registration and the binding of its channel are of one identity. */
  ghost predicate PendingAgree(bindings: map<string, Binding>, pending: map<string, nat>,
                               registrations: map<nat, Registration>) {
    forall c :: c in pending ==>
      && pending[c] in registrations && registrations[pending[c]].identity.channel == c
      && (c in bindings ==> bindings[c].identity == registrations[pending[c]].identity)
  }

  /** What a suspended step remembers and nothing can change. */
  ghost predicate Remembers(registrations: map<nat, Registration>, s: Suspension) {
    match s
    case LookingUpTab(r) => r in registrations
    case AwaitingTeardown(r, _) => r in registrations
    case Superseding(r, superseded, _) =>
      && r in registrations
      && superseded.identity.tabId == registrations[r].identity.tabId
      && superseded.identity.channel != registrations[r].identity.channel
      && superseded.generation <= r
    case AttachingPending(r, _) => r in registrations
    case _ => true
  }

  /** The binding a registration saw is older than the registration. */
  ghost predicate SawOlder(registration: Registration, r: nat) {
    registration.bindingGeneration.Some? ==> registration.bindingGeneration.value < r
  }

  class BackgroundRouterBindings {
    var bindings: map<string, Binding>
    var channelByTab: map<nat, string>
    var channelBySource: map<string, string>
    var pendingRegistrations: map<string, nat>
    var registrations: map<nat, Registration>
    var removedWindows: set<nat>
    var nextGeneration: nat
    var serials: nat
    var disposeGeneration: nat
    var disposed: bool
    var suspended: map<nat, Suspension>
    var nextOp: nat

    ghost predicate Valid()
      reads this
    {
      && Inverse(bindings, channelByTab, channelBySource)
      && PendingAgree(bindings, pendingRegistrations, registrations)
      && (forall op :: op in suspended ==> op < nextOp && Remembers(registrations, suspended[op]))
      && (forall r :: r in registrations ==> r < nextGeneration && SawOlder(registrations[r], r))
      && forall c :: c in bindings ==> bindings[c].generation < nextGeneration
    }

    /** A binding that takes another's place in its channel has a greater generation. */
    twostate predicate Rises()
      reads this
    {
      forall c :: c in old(bindings) && c in bindings && bindings[c] != old(bindings)[c] ==>
        bindings[c].generation > old(bindings)[c].generation
    }

    /** In every reachable state no tab and no source is bound to two channels, and either index finds exactly the binding. */
    lemma {:induction false} BoundOnce(c: string, d: string)
      requires Valid() && c in bindings && d in bindings
      ensures bindings[c].identity.tabId == bindings[d].identity.tabId ==> c == d
      ensures bindings[c].identity.sourceId == bindings[d].identity.sourceId ==> c == d
      ensures forall t :: t in channelByTab && channelByTab[t] == c <==> bindings[c].identity.tabId == t
      ensures forall s :: s in channelBySource && channelBySource[s] == c <==> bindings[c].identity.sourceId == s
      ensures |channelByTab| == |bindings| == |channelBySource|
    {
      FoundOnce(bindings, channelByTab, channelBySource, c, d);
      CountedOnce(bindings, channelByTab, channelBySource);
    }

    constructor ()
      ensures Valid() && bindings == map[] && !disposed
    {
      bindings, channelByTab, channelBySource := map[], map[], map[];
      pendingRegistrations, registrations, removedWindows := map[], map[], {};
      nextGeneration, serials, disposeGeneration, disposed := 1, 0, 0, false;
      suspended, nextOp := map[], 0;
    }

    /** `isCurrentPending` */
    predicate IsCurrentPending(r: nat)
      reads this
      ensures IsCurrentPending(r) <==>
        && !disposed && r in registrations && registrations[r].disposeGeneration == disposeGeneration
        && exists c :: c in pendingRegistrations && pendingRegistrations[c] == r && registrations[r].identity.channel == c
    {
      && !disposed && r in registrations && registrations[r].disposeGeneration == disposeGeneration
      && registrations[r].identity.channel in pendingRegistrations
      && pendingRegistrations[registrations[r].identity.channel] == r
    }

    function BindingOfTab(tab: nat): (b: Option<Binding>)
      reads this
      ensures Valid() ==>
        forall x: Binding ::
          b == Some(x) <==> x.identity.channel in bindings && bindings[x.identity.channel] == x && x.identity.tabId == tab
    {
      if tab in channelByTab && channelByTab[tab] in bindings then Some(bindings[channelByTab[tab]]) else None
    }

    predicate IsBound(b: Binding)
      reads this
      ensures Valid() ==> (IsBound(b) <==> b in bindings.Values)
    {
      b.identity.channel in bindings && bindings[b.identity.channel] == b
    }

    // ---- Small steps ----

    method AllocateGeneration() returns (g: nat)
      requires Valid()
      modifies this`nextGeneration
      ensures Valid() && g == old(nextGeneration) && nextGeneration == g + 1
    {
      g := nextGeneration;
      nextGeneration := nextGeneration + 1;
    }

    /** A binding of the same identity takes the place of a channel's binding. */
    method Replace(identity: Identity, window: nat, generation: nat, isSuspended: bool) returns (b: Binding)
      requires Valid() && identity.channel in bindings && bindings[identity.channel].identity == identity
      requires bindings[identity.channel].generation < generation < nextGeneration
      modifies this`bindings, this`serials
      ensures Valid() && b == Binding(identity, window, generation, isSuspended, old(serials))
      ensures bindings == old(bindings)[identity.channel := b]
    {
      b := Binding(identity, window, generation, isSuspended, serials);
      serials := serials + 1;
      ReplaceKeeps(bindings, channelByTab, channelBySource, b);
      bindings := bindings[identity.channel := b];
    }

    /** `replaceBindingWindow` */
    method ReplaceBindingWindow(b: Binding, window: nat) returns (replacement: Binding)
      requires Valid() && IsBound(b)
      modifies this`bindings, this`serials, this`nextGeneration
      ensures Valid() && replacement == Binding(b.identity, window, old(nextGeneration), false, old(serials))
      ensures bindings == old(bindings)[b.identity.channel := replacement]
    {
      BoundIdentity(b);
      var g := AllocateGeneration();
      replacement := Replace(b.identity, window, g, false);
    }

    lemma BoundIdentity(b: Binding)
      requires Valid() && IsBound(b)
      ensures b.identity.tabId in channelByTab && channelByTab[b.identity.tabId] == b.identity.channel
      ensures b.identity.sourceId in channelBySource && channelBySource[b.identity.sourceId] == b.identity.channel
    {
    }

    /** `removeBinding`: the indices forget the binding if they still name its channel. */
    method RemoveBinding(b: Binding)
      requires Valid()
      modifies this`bindings, this`channelByTab, this`channelBySource
      ensures Valid()
      ensures if old(IsBound(b))
        then bindings == old(bindings) - {b.identity.channel} && channelByTab == old(channelByTab) - {b.identity.tabId}
             && channelBySource == old(channelBySource) - {b.identity.sourceId}
        else bindings == old(bindings) && channelByTab == old(channelByTab) && channelBySource == old(channelBySource)
    {
      if !IsBound(b) { return; }
      BoundIdentity(b);
      RemoveKeeps(bindings, channelByTab, channelBySource, b.identity.channel);
      bindings := bindings - {b.identity.channel};
      if channelByTab[b.identity.tabId] == b.identity.channel { channelByTab := channelByTab - {b.identity.tabId}; }
      if channelBySource[b.identity.sourceId] == b.identity.channel { channelBySource := channelBySource - {b.identity.sourceId}; }
    }

    /** Bind a channel that has no binding, for a current registration whose tab and source are free. */
    method Bind(r: nat, window: nat, generation: nat) returns (b: Binding)
      requires Valid() && IsCurrentPending(r) && generation < nextGeneration
      requires var identity := registrations[r].identity;
        identity.channel !in bindings && identity.tabId !in channelByTab && identity.sourceId !in channelBySource
      modifies this`bindings, this`channelByTab, this`channelBySource, this`serials
      ensures Valid() && b == Binding(registrations[r].identity, window, generation, false, old(serials)) && IsBound(b)
      ensures bindings == old(bindings)[b.identity.channel := b]
      ensures channelByTab == old(channelByTab)[b.identity.tabId := b.identity.channel]
      ensures channelBySource == old(channelBySource)[b.identity.sourceId := b.identity.channel]
    {
      b := Binding(registrations[r].identity, window, generation, false, serials);
      serials := serials + 1;
      AddKeeps(bindings, channelByTab, channelBySource, b);
      bindings := bindings[b.identity.channel := b];
      channelByTab := channelByTab[b.identity.tabId := b.identity.channel];
      channelBySource := channelBySource[b.identity.sourceId := b.identity.channel];
    }

    method Suspend(s: Suspension) returns (op: nat)
      requires Valid() && Remembers(registrations, s)
      modifies this`suspended, this`nextOp
      ensures Valid() && suspended == old(suspended)[op := s] && op !in old(suspended) && Waits(s)
    {
      op := nextOp;
      suspended := suspended[op := s];
      nextOp := nextOp + 1;
      assert suspended[op] == s;
    }

    method Resume(op: nat) returns (s: Suspension)
      requires Valid() && op in suspended
      modifies this`suspended
      ensures Valid() && s == old(suspended)[op] && suspended == old(suspended) - {op} && Remembers(registrations, s)
    {
      s := suspended[op];
      suspended := suspended - {op};
    }

    /** Change what a registration remembers besides its identity. */
    method Amend(r: nat, registration: Registration)
      requires Valid() && r in registrations && registration.identity == registrations[r].identity
      requires registration.bindingGeneration == registrations[r].bindingGeneration
      modifies this`registrations
      ensures Valid() && registrations == old(registrations)[r := registration]
    {
      hide Inverse;
      registrations := registrations[r := registration];
    }

    /** The registration's `finally`. */
    method Finish(r: nat)
      requires Valid() && r in registrations
      modifies this`pendingRegistrations
      ensures Valid() && !IsCurrentPending(r)
      ensures forall c :: c in pendingRegistrations ==>
        c in old(pendingRegistrations) && pendingRegistrations[c] == old(pendingRegistrations)[c]
      ensures forall o :: o != r && o in registrations ==> IsCurrentPending(o) == old(IsCurrentPending(o))
    {
      var channel := registrations[r].identity.channel;
      if channel in pendingRegistrations && pendingRegistrations[channel] == r { pendingRegistrations := pendingRegistrations - {channel}; }
    }

    // ---- Registration ----

    /** Refused when the channel is bound or pending under another identity; joined when it is pending under this one. */
    method RegisterDevtools(identity: Identity) returns (op: Option<nat>)
      requires Valid()
      modifies this`registrations, this`pendingRegistrations, this`nextGeneration, this`suspended, this`nextOp
      ensures Valid()
      ensures op.Some? <==>
        && identity.channel !in old(pendingRegistrations)
        && (identity.channel in bindings ==> bindings[identity.channel].identity == identity)
      ensures op.Some? ==>
        && op.value in suspended && suspended[op.value] == LookingUpTab(old(nextGeneration))
        && old(nextGeneration) in registrations && registrations[old(nextGeneration)].identity == identity
        && registrations[old(nextGeneration)].bindingGeneration
             == (if identity.channel in bindings then Some(bindings[identity.channel].generation) else None)
    {
      hide Inverse;
      if identity.channel in bindings && bindings[identity.channel].identity != identity { return None; }
      if identity.channel in pendingRegistrations { return None; }
      var r := AllocateGeneration();
      var bound := if identity.channel in bindings then Some(bindings[identity.channel].generation) else None;
      registrations := registrations[r := Registration(identity, disposeGeneration, bound, None, false)];
      pendingRegistrations := pendingRegistrations[identity.channel := r];
      var waiting := Suspend(LookingUpTab(r));
      op := Some(waiting);
    }

    /** Some step waits like this. */
    predicate Waits(s: Suspension)
      reads this
    {
      s in suspended.Values
    }

    /** Nothing is bound differently. */
    twostate predicate SameBindings()
      reads this
    {
      bindings == old(bindings) && channelByTab == old(channelByTab) && channelBySource == old(channelBySource)
    }

    /** A window that is still there. */
    predicate Stands(window: Option<nat>)
      reads this
      ensures Stands(window) <==> exists w :: window == Some(w) && w !in removedWindows
    {
      window.Some? && window.value !in removedWindows
    }

    /**
     * How a registration ends whose channel is bound already. When the binding is the one the registration saw, it
     * follows the tab and answers wherever the tab stands; when it is a newer one, it answers if it is not suspended, and
     * a suspended one first follows the tab to another window.
     */
    twostate predicate Answered(r: nat, window: Option<nat>, new bound: Option<Binding>)
      requires r in registrations && registrations[r].identity.channel in old(bindings)
      reads this
    {
      var identity := registrations[r].identity;
      var current := old(bindings)[identity.channel];
      var seen := registrations[r].bindingGeneration == Some(current.generation);
      var moves := Stands(window) && current.windowId != window.value && (seen || current.suspended);
      && channelByTab == old(channelByTab) && channelBySource == old(channelBySource)
      && (bound.Some? <==> if seen then Stands(window) else moves || !current.suspended)
      && (bound.Some? ==> IsBound(bound.value) && bound.value.identity == identity)
      && bindings == if !moves then old(bindings)
                     else old(bindings)[identity.channel :=
                       Binding(identity, window.value, if seen then r else old(nextGeneration), false, old(serials))]
    }

    /** A binding for the channel of a registration whose tab and source are free. */
    twostate predicate Claimed(r: nat, window: Option<nat>, new bound: Option<Binding>)
      requires r in registrations
      reads this
    {
      var identity := registrations[r].identity;
      && (bound.Some? <==>
            && Stands(window) && registrations[r].bindingGeneration.None? && registrations[r].detachedWindowId != window
            && identity.tabId !in old(channelByTab) && identity.sourceId !in old(channelBySource))
      && (bound.None? ==> SameBindings())
      && (bound.Some? ==>
            && bound.value == Binding(identity, window.value, r, false, old(serials)) && IsBound(bound.value)
            && bindings == old(bindings)[identity.channel := bound.value]
            && channelByTab == old(channelByTab)[identity.tabId := identity.channel]
            && channelBySource == old(channelBySource)[identity.sourceId := identity.channel])
    }

    /** The older binding that a registration may replace: it holds the tab, and the source if anything does. */
    predicate Supersedes(r: nat, window: Option<nat>)
      requires r in registrations
      reads this
      ensures Valid() ==>
        (Supersedes(r, window) <==>
          && Stands(window) && registrations[r].bindingGeneration.None? && registrations[r].detachedWindowId != window
          && exists c :: c in bindings && bindings[c].identity.tabId == registrations[r].identity.tabId && bindings[c].generation <= r
                         && forall d :: d in bindings && bindings[d].identity.sourceId == registrations[r].identity.sourceId ==> d == c)
    {
      var identity := registrations[r].identity;
      var b := BindingOfTab(identity.tabId);
      && Stands(window) && registrations[r].bindingGeneration.None? && registrations[r].detachedWindowId != window
      && b.Some? && b.value.generation <= r
      && (identity.sourceId in channelBySource ==> channelBySource[identity.sourceId] == b.value.identity.channel)
    }

    /** What resolving a registration does: `Answered` for a bound channel, and `Claimed` or the start of a supersession. */
    twostate predicate Resolved(r: nat, window: Option<nat>, new bound: Option<Binding>)
      requires r in registrations && r in old(registrations)
      reads this
    {
      var channel := registrations[r].identity.channel;
      if channel in old(bindings) then Answered(r, window, bound) && !IsCurrentPending(r)
      else
        && Claimed(r, window, bound)
        && (IsCurrentPending(r) <==> old(Supersedes(r, window)))
        && (IsCurrentPending(r) ==>
              Waits(Superseding(r, old(BindingOfTab(registrations[r].identity.tabId)).value, window.value)))
    }

    /** The tab was looked up: no answer, or the window it is in, if it could be resolved. */
    method RegistrationLookedUp(op: nat, tab: Option<Option<nat>>,
                                teardownRequired: bool) returns (r: nat, bound: Option<Binding>)
      requires Valid() && op in suspended && suspended[op].LookingUpTab?
      modifies this
      ensures Valid() && Rises() && r == old(suspended)[op].registration && r in registrations
      ensures registrations == old(registrations)
      ensures var goesOn := tab.Some? && old(IsCurrentPending(suspended[op].registration)) && !registrations[r].panelClosed;
        && (!goesOn ==> bound.None? && SameBindings() && !IsCurrentPending(r))
        && (goesOn && teardownRequired ==>
              bound.None? && SameBindings() && IsCurrentPending(r) && Waits(AwaitingTeardown(r, tab.value)))
        && (goesOn && !teardownRequired ==> Resolved(r, tab.value, bound))
    {
      hide Inverse, PendingAgree;
      var s := Resume(op);
      r := s.registration;
      bound := None;
      if tab.None? || !IsCurrentPending(r) || registrations[r].panelClosed {
        Finish(r);
      } else if teardownRequired {
        var _ := Suspend(AwaitingTeardown(r, tab.value));
      } else {
        bound := Resolve(r, tab.value);
      }
    }

    method RegistrationTornDown(op: nat, completed: bool) returns (r: nat, bound: Option<Binding>)
      requires Valid() && op in suspended && suspended[op].AwaitingTeardown?
      modifies this
      ensures Valid() && Rises() && r == old(suspended)[op].registration && r in registrations
      ensures registrations == old(registrations)
      ensures var goesOn := completed && old(IsCurrentPending(suspended[op].registration)) && !registrations[r].panelClosed;
        && (!goesOn ==> bound.None? && SameBindings() && !IsCurrentPending(r))
        && (goesOn ==> Resolved(r, old(suspended)[op].tab, bound))
    {
      hide Inverse, PendingAgree;
      var s := Resume(op);
      r := s.registration;
      bound := None;
      if !completed || !IsCurrentPending(r) || registrations[r].panelClosed {
        Finish(r);
      } else {
        bound := Resolve(r, s.tab);
      }
    }

    /** The channel's binding, if it has one, answers the registration; otherwise its tab and source are claimed. */
    method Resolve(r: nat, window: Option<nat>) returns (bound: Option<Binding>)
      requires Valid() && IsCurrentPending(r)
      modifies this
      ensures Valid() && Rises() && registrations == old(registrations) && removedWindows == old(removedWindows)
      ensures Resolved(r, window, bound)
    {
      hide Inverse, PendingAgree;
      if registrations[r].identity.channel in bindings {
        bound := Answer(r, window);
      } else {
        bound := Claim(r, window);
      }
    }

    method Answer(r: nat, window: Option<nat>) returns (bound: Option<Binding>)
      requires Valid() && IsCurrentPending(r) && registrations[r].identity.channel in bindings
      modifies this`bindings, this`serials, this`nextGeneration, this`pendingRegistrations
      ensures Valid() && Rises() && Answered(r, window, bound) && !IsCurrentPending(r)
    {
      hide Inverse;
      var registration := registrations[r];
      var current := bindings[registration.identity.channel];
      bound := None;
      if registration.bindingGeneration != Some(current.generation) {
        var active := current;
        if current.suspended && Stands(window) && current.windowId != window.value {
          active := ReplaceBindingWindow(current, window.value);
        }
        if !active.suspended { bound := Some(active); }
      } else if Stands(window) {
        var active := current;
        if current.windowId != window.value { active := Replace(registration.identity, window.value, r, false); }
        bound := Some(active);
      }
      Finish(r);
    }

    /**
     * Bind the channel at once when its tab and its source are free; wait when both are held by one older binding, which
     * is then superseded; give up otherwise.
     */
    method Claim(r: nat, window: Option<nat>) returns (bound: Option<Binding>)
      requires Valid() && IsCurrentPending(r) && registrations[r].identity.channel !in bindings
      modifies this`bindings, this`channelByTab, this`channelBySource, this`serials, this`pendingRegistrations, this`suspended, this`nextOp
      ensures Valid() && Rises() && Claimed(r, window, bound)
      ensures IsCurrentPending(r) <==> old(Supersedes(r, window))
      ensures IsCurrentPending(r) ==>
        Waits(Superseding(r, old(BindingOfTab(registrations[r].identity.tabId)).value, window.value))
    {
      hide Inverse, PendingAgree;
      bound := None;
      var registration := registrations[r];
      var identity := registration.identity;
      OwnSourceBound(identity);
      var superseded := BindingOfTab(identity.tabId);
      if !Stands(window) || registration.bindingGeneration.Some? || registration.detachedWindowId == window
         || (superseded.Some? && superseded.value.generation > r)
         || (identity.sourceId in channelBySource
             && (superseded.None? || channelBySource[identity.sourceId] != superseded.value.identity.channel)) {
        Finish(r);
      } else if superseded.Some? {
        var _ := Suspend(Superseding(r, superseded.value, window.value));
      } else {
        var b := Bind(r, window.value, r);
        bound := Some(b);
        Finish(r);
      }
    }

    /** A channel without a binding is in neither index. */
    lemma OwnSourceBound(identity: Identity)
      requires Valid() && identity.channel !in bindings
      ensures identity.sourceId in channelBySource ==> channelBySource[identity.sourceId] != identity.channel
      ensures identity.tabId in channelByTab ==> channelByTab[identity.tabId] != identity.channel && BindingOfTab(identity.tabId).Some?
      ensures BindingOfTab(identity.tabId).Some? ==>
        var b := BindingOfTab(identity.tabId).value;
        b.identity.tabId == identity.tabId && b.identity.channel == channelByTab[identity.tabId] && b.identity.channel != identity.channel
    {
    }

    predicate SourceAvailable(r: nat, superseded: Binding)
      reads this
      ensures Valid() && r in registrations ==>
        (SourceAvailable(r, superseded) <==>
          forall c :: c in bindings && bindings[c].identity.sourceId == registrations[r].identity.sourceId ==>
            c in {registrations[r].identity.channel, superseded.identity.channel})
      ensures r !in registrations ==> !SourceAvailable(r, superseded)
    {
      r in registrations &&
      var identity := registrations[r].identity;
      identity.sourceId in channelBySource ==>
        channelBySource[identity.sourceId] == identity.channel || channelBySource[identity.sourceId] == superseded.identity.channel
    }

    /**
     * The superseded binding's teardown is done. When everything is still as it was, the old binding goes and the new
     * one takes over its tab, and its source if that was the one.
     */
    method RegistrationSupersedes(op: nat, completed: bool) returns (r: nat, bound: Option<Binding>)
      requires Valid() && op in suspended && suspended[op].Superseding?
      modifies this
      ensures Valid() && Rises() && r == old(suspended)[op].registration && r in registrations && !IsCurrentPending(r)
      ensures var s := old(suspended)[op]; var identity := registrations[r].identity;
        && (bound.Some? <==>
              && completed && old(IsCurrentPending(suspended[op].registration)) && !registrations[r].panelClosed
              && old(IsBound(suspended[op].superseded)) && old(SourceAvailable(suspended[op].registration, suspended[op].superseded)))
        && (bound.Some? ==>
              && bound.value == Binding(identity, s.window, r, false, old(serials)) && IsBound(bound.value)
              && s.superseded.generation <= r && !IsBound(s.superseded)
              && bindings == (old(bindings) - {s.superseded.identity.channel})[identity.channel := bound.value])
        && (bound.None? ==> bindings == old(bindings) && channelByTab == old(channelByTab) && channelBySource == old(channelBySource))
    {
      hide Inverse, PendingAgree, Remembers, SawOlder;
      var s := Resume(op);
      r := s.registration;
      bound := None;
      var earlier := s.superseded;
      if IsBound(earlier) { BoundIdentity(earlier); }
      if completed && IsCurrentPending(r) && !registrations[r].panelClosed && IsBound(earlier)
         && Value(channelByTab, registrations[r].identity.tabId) == Some(earlier.identity.channel) && SourceAvailable(r, earlier) {
        var b := TakeOver(r, earlier, s.window);
        bound := Some(b);
      }
      Finish(r);
    }

    /** A registration is bound in the place of the binding it supersedes. */
    method TakeOver(r: nat, earlier: Binding, window: nat) returns (b: Binding)
      requires Valid() && IsCurrentPending(r) && IsBound(earlier) && SourceAvailable(r, earlier)
      requires earlier.identity.tabId == registrations[r].identity.tabId
      requires earlier.identity.channel != registrations[r].identity.channel && earlier.generation <= r
      modifies this`bindings, this`channelByTab, this`channelBySource, this`serials
      ensures Valid() && Rises() && b == Binding(registrations[r].identity, window, r, false, old(serials)) && IsBound(b)
      ensures !IsBound(earlier) && bindings == (old(bindings) - {earlier.identity.channel})[b.identity.channel := b]
    {
      hide Inverse, PendingAgree, Remembers, SawOlder;
      BoundIdentity(earlier);
      FreeWithout(r, earlier);
      RemoveBinding(earlier);
      b := Bind(r, window, r);
    }

    /** Without the superseded binding, the registration's channel, tab and source are free. */
    lemma FreeWithout(r: nat, earlier: Binding)
      requires Valid() && IsCurrentPending(r) && IsBound(earlier) && SourceAvailable(r, earlier)
      requires earlier.identity.channel != registrations[r].identity.channel
      requires earlier.identity.tabId == registrations[r].identity.tabId
      ensures registrations[r].identity.channel !in bindings
      ensures registrations[r].identity.sourceId in channelBySource ==> registrations[r].identity.sourceId == earlier.identity.sourceId
    {
    }

    // ---- Moves between windows ----

    /** Every current registration of a tab remembers the window the tab left. */
    method NoteDetached(tab: nat, window: nat)
      requires Valid()
      modifies this`registrations
      ensures Valid() && registrations.Keys == old(registrations).Keys
      ensures forall r :: r in registrations ==>
        registrations[r] == if registrations[r].identity.tabId == tab && old(IsCurrentPending(r))
                            then old(registrations)[r].(detachedWindowId := Some(window)) else old(registrations)[r]
    {
      hide Inverse;
      registrations := map r | r in registrations ::
        if registrations[r].identity.tabId == tab && IsCurrentPending(r)
        then registrations[r].(detachedWindowId := Some(window)) else registrations[r];
    }

    /** `suspendDetachedTab`: the tab's binding is suspended, under a new generation. */
    method SuspendDetachedTab(tab: nat, oldWindow: nat, teardownRequired: bool)
      requires Valid()
      modifies this`bindings, this`serials, this`nextGeneration, this`registrations
      ensures Valid() && Rises()
      ensures var b := old(BindingOfTab(tab));
        bindings == if disposed || b.None? || (if b.value.suspended then !teardownRequired else b.value.windowId != oldWindow)
          then old(bindings)
          else old(bindings)[b.value.identity.channel :=
            Binding(b.value.identity, b.value.windowId, old(nextGeneration), true, old(serials))]
      ensures registrations.Keys == old(registrations).Keys
      ensures forall r :: r in registrations ==>
        registrations[r] == if !disposed && old(registrations)[r].identity.tabId == tab && old(IsCurrentPending(r))
                            then old(registrations)[r].(detachedWindowId := Some(oldWindow)) else old(registrations)[r]
    {
      hide Inverse, PendingAgree, Remembers;
      if disposed { return; }
      var binding := BindingOfTab(tab);
      TabBinding(tab);
      NoteDetached(tab, oldWindow);
      if binding.None? { return; }
      if binding.value.windowId != oldWindow || binding.value.suspended {
        if teardownRequired && binding.value.suspended {
          var g := AllocateGeneration();
          var _ := Replace(binding.value.identity, binding.value.windowId, g, true);
        }
        return;
      }
      var g := AllocateGeneration();
      var _ := Replace(binding.value.identity, binding.value.windowId, g, true);
    }

    lemma TabBinding(tab: nat)
      requires Valid()
      ensures BindingOfTab(tab).Some? <==> tab in channelByTab
      ensures BindingOfTab(tab).Some? ==> IsBound(BindingOfTab(tab).value) && BindingOfTab(tab).value.identity.tabId == tab
                                          && channelByTab[tab] == BindingOfTab(tab).value.identity.channel
    {
    }

    lemma OnlyTabBinding(tab: nat)
      requires Valid()
      ensures forall c :: c in bindings && bindings[c].identity.tabId == tab ==>
        BindingOfTab(tab) == Some(bindings[c]) && bindings[c].identity.channel == c
    {
    }

    /** `attachMovedTab`: a suspended binding moves on; without one, the newest registration that saw the tab leave is bound. */
    method AttachMovedTab(tab: nat, newWindow: nat, teardownRequired: bool) returns (ghost newest: Option<nat>)
      requires Valid()
      modifies this
      ensures Valid() && Rises() && registrations == old(registrations)
      ensures newest.Some? ==> old(WaitsFor(newest.value, tab)) && forall r: nat :: old(WaitsFor(r, tab)) ==> r <= newest.value
      ensures newest.None? && !disposed && old(BindingOfTab(tab)).None? ==> forall r: nat :: !old(WaitsFor(r, tab))
      ensures if disposed then SameBindings()
        else if old(BindingOfTab(tab)).Some? then MovedOn(old(BindingOfTab(tab)).value, newWindow, teardownRequired)
        else if newest.None? || registrations[newest.value].identity.sourceId in old(channelBySource) then SameBindings()
        else if teardownRequired then SameBindings() && Waits(AttachingPending(newest.value, newWindow))
        else Bound(Binding(registrations[newest.value].identity, newWindow, old(nextGeneration), false, old(serials)))
    {
      hide Inverse, PendingAgree, Remembers;
      newest := None;
      if disposed { return; }
      TabBinding(tab);
      var binding := BindingOfTab(tab);
      if binding.Some? {
        MoveOn(binding.value, newWindow, teardownRequired);
        return;
      }
      var pending := NewestDetached(tab);
      newest := pending;
      forall w: nat ensures WaitsFor(w, tab) == old(WaitsFor(w, tab)) {
      }
      if pending.None? { return; }
      var r := pending.value;
      SourceOfFreeTab(r);
      var identity := registrations[r].identity;
      if identity.sourceId in channelBySource && channelBySource[identity.sourceId] != identity.channel { return; }
      PendingIsFree(r);
      if teardownRequired {
        var _ := Suspend(AttachingPending(r, newWindow));
        return;
      }
      var g := AllocateGeneration();
      var _ := Bind(r, newWindow, g);
    }

    /** The tab's own binding, where it has one. */
    method MoveOn(binding: Binding, newWindow: nat, teardownRequired: bool)
      requires Valid() && IsBound(binding)
      modifies this`bindings, this`serials, this`nextGeneration, this`suspended, this`nextOp
      ensures Valid() && Rises() && MovedOn(binding, newWindow, teardownRequired)
    {
      hide Inverse, PendingAgree, Remembers;
      if !binding.suspended { return; }
      if teardownRequired {
        var g := AllocateGeneration();
        var pending := Replace(binding.identity, newWindow, g, true);
        var _ := Suspend(MovingAfterTeardown(pending, newWindow));
      } else {
        var _ := ReplaceBindingWindow(binding, newWindow);
      }
    }

    /** A suspended binding is in the new window, awake or waiting there for its teardown; any other stays. */
    twostate predicate MovedOn(b: Binding, newWindow: nat, teardownRequired: bool)
      reads this
    {
      var moved := Binding(b.identity, newWindow, old(nextGeneration), teardownRequired, old(serials));
      && channelByTab == old(channelByTab) && channelBySource == old(channelBySource)
      && bindings == (if b.suspended then old(bindings)[b.identity.channel := moved] else old(bindings))
      && (b.suspended && teardownRequired ==> Waits(MovingAfterTeardown(moved, newWindow)))
    }

    /** One more channel is bound, and found by its tab and its source. */
    twostate predicate Bound(b: Binding)
      reads this
    {
      && bindings == old(bindings)[b.identity.channel := b]
      && channelByTab == old(channelByTab)[b.identity.tabId := b.identity.channel]
      && channelBySource == old(channelBySource)[b.identity.sourceId := b.identity.channel]
    }

    /** A registration whose tab is bound to no channel does not have its source bound to its own channel. */
    lemma SourceOfFreeTab(r: nat)
      requires Valid() && IsCurrentPending(r) && registrations[r].identity.tabId !in channelByTab
      ensures registrations[r].identity.sourceId in channelBySource ==>
        channelBySource[registrations[r].identity.sourceId] != registrations[r].identity.channel
    {
    }

    /** The current registrations of a tab that saw it leave a window: the one with the highest generation. */
    method NewestDetached(tab: nat) returns (newest: Option<nat>)
      ensures newest.Some? ==> WaitsFor(newest.value, tab) && forall r: nat :: WaitsFor(r, tab) ==> r <= newest.value
      ensures newest.None? ==> forall r: nat :: !WaitsFor(r, tab)
    {
      newest := None;
      var left := registrations.Keys;
      while left != {}
        invariant left <= registrations.Keys
        invariant newest.Some? ==> WaitsFor(newest.value, tab)
        invariant forall r: nat :: WaitsFor(r, tab) && r !in left ==> newest.Some? && r <= newest.value
        decreases left
      {
        var r :| r in left;
        if WaitsFor(r, tab) && (newest.None? || newest.value < r) { newest := Some(r); }
        left := left - {r};
      }
    }

    predicate WaitsFor(r: nat, tab: nat)
      reads this
      ensures WaitsFor(r, tab) <==>
        IsCurrentPending(r) && registrations[r].identity.tabId == tab && registrations[r].detachedWindowId != None
    {
      IsCurrentPending(r) && registrations[r].identity.tabId == tab && registrations[r].detachedWindowId.Some?
    }

    /** A registration whose tab is bound to no channel and whose source is not another's has nothing bound yet. */
    lemma PendingIsFree(r: nat)
      requires Valid() && IsCurrentPending(r) && registrations[r].identity.tabId !in channelByTab
      requires var identity := registrations[r].identity;
        identity.sourceId in channelBySource ==> channelBySource[identity.sourceId] == identity.channel
      ensures registrations[r].identity.channel !in bindings && registrations[r].identity.sourceId !in channelBySource
    {
    }

    /** `attachMovedBindingAfterTeardown`, up to the lookup of the tab. */
    method MovedTornDown(op: nat, completed: bool, hasPort: bool) returns (next: Option<nat>)
      requires Valid() && op in suspended && suspended[op].MovingAfterTeardown?
      modifies this`suspended, this`nextOp
      ensures Valid()
      ensures var s := old(suspended)[op];
        && (next.Some? <==> completed && !disposed && IsBound(s.binding) && s.binding.suspended && hasPort)
        && (next.Some? ==> next.value in suspended && suspended[next.value] == MovingAfterLookup(s.binding, s.window))
    {
      var s := Resume(op);
      if !completed || disposed || !IsBound(s.binding) || !s.binding.suspended || !hasPort { return None; }
      var waiting := Suspend(MovingAfterLookup(s.binding, s.window));
      next := Some(waiting);
    }

    /** A binding that is still the one a step remembers is replaced by one in another window, and nothing else changes. */
    twostate predicate Replaced(b: Binding, window: nat, replacement: Binding)
      reads this
    {
      && channelByTab == old(channelByTab) && channelBySource == old(channelBySource)
      && replacement == Binding(b.identity, window, old(nextGeneration), false, old(serials))
      && bindings == old(bindings)[b.identity.channel := replacement]
    }

    /** The tab is where the lookup found it, or where it was said to go when the lookup failed. */
    method MovedLookedUp(op: nat, lookup: Option<Option<nat>>, hasPort: bool) returns (moved: Option<Binding>)
      requires Valid() && op in suspended && suspended[op].MovingAfterLookup?
      modifies this
      ensures Valid() && Rises()
      ensures var s := old(suspended)[op]; var window := if lookup.None? then Some(s.window) else lookup.value;
        && (moved.Some? <==> !disposed && hasPort && old(IsBound(suspended[op].binding)) && s.binding.suspended && Stands(window))
        && if moved.Some? then Replaced(s.binding, window.value, moved.value) else SameBindings()
    {
      hide Inverse, PendingAgree;
      var s := Resume(op);
      var window := if lookup.None? then Some(s.window) else lookup.value;
      if disposed || !hasPort || !IsBound(s.binding) || !s.binding.suspended || !Stands(window) { return None; }
      var replacement := ReplaceBindingWindow(s.binding, window.value);
      moved := Some(replacement);
    }

    /** Tab and source of a registration are free or its channel's own, and so is the channel unless it is on the move. */
    predicate MayAttach(r: nat)
      requires r in registrations
      reads this
      ensures Valid() ==>
        (MayAttach(r) <==>
          forall c :: c in bindings && (c == registrations[r].identity.channel
                                        || bindings[c].identity.tabId == registrations[r].identity.tabId
                                        || bindings[c].identity.sourceId == registrations[r].identity.sourceId) ==>
            bindings[c].identity == registrations[r].identity && bindings[c].suspended)
    {
      var identity := registrations[r].identity;
      && (identity.sourceId in channelBySource ==> channelBySource[identity.sourceId] == identity.channel)
      && (identity.tabId in channelByTab ==> channelByTab[identity.tabId] == identity.channel)
      && (identity.channel in bindings ==> bindings[identity.channel].identity == identity && bindings[identity.channel].suspended)
    }

    /** `attachPendingAfterTeardown` */
    method PendingTornDown(op: nat, completed: bool) returns (bound: Option<Binding>)
      requires Valid() && op in suspended && suspended[op].AttachingPending?
      modifies this
      ensures Valid() && Rises() && old(suspended)[op].registration in registrations && registrations == old(registrations)
      ensures var s := old(suspended)[op]; var r := s.registration;
        && (bound.Some? <==> completed && old(IsCurrentPending(suspended[op].registration)) && !registrations[r].panelClosed
                             && old(MayAttach(suspended[op].registration)))
        && if bound.None? then SameBindings()
           else
             && bound.value == Binding(registrations[r].identity, s.window, old(nextGeneration), false, old(serials))
             && Bound(bound.value)
    {
      hide Inverse, PendingAgree;
      var s := Resume(op);
      var r := s.registration;
      var identity := registrations[r].identity;
      if !completed || !IsCurrentPending(r) || registrations[r].panelClosed
         || (identity.sourceId in channelBySource && channelBySource[identity.sourceId] != identity.channel)
         || (identity.tabId in channelByTab && channelByTab[identity.tabId] != identity.channel) {
        return None;
      }
      PendingOwns(r);
      if identity.channel in bindings {
        if bindings[identity.channel].identity != identity || !bindings[identity.channel].suspended { return None; }
        BoundIdentity(bindings[identity.channel]);
        var moved := ReplaceBindingWindow(bindings[identity.channel], s.window);
        return Some(moved);
      }
      var g := AllocateGeneration();
      var b := Bind(r, s.window, g);
      bound := Some(b);
    }

    /** A registration's channel is bound exactly when its tab and its source are in the indices under that channel. */
    lemma PendingOwns(r: nat)
      requires Valid() && IsCurrentPending(r)
      ensures var identity := registrations[r].identity;
        && (identity.channel in bindings <==> identity.tabId in channelByTab && channelByTab[identity.tabId] == identity.channel)
        && (identity.channel in bindings <==> identity.sourceId in channelBySource && channelBySource[identity.sourceId] == identity.channel)
    {
    }

    /** `refreshPanelBinding`, up to the lookup of the tab. */
    method StartRefresh(b: Binding, active: bool, teardownRequired: bool) returns (next: Option<nat>)
      requires Valid()
      modifies this`suspended, this`nextOp
      ensures Valid()
      ensures next.Some? <==> CurrentActivation(b, active) && !teardownRequired
      ensures next.Some? ==> next.value in suspended && suspended[next.value] == Refreshing(b)
    {
      if !CurrentActivation(b, active) || teardownRequired { return None; }
      var waiting := Suspend(Refreshing(b));
      next := Some(waiting);
    }

    /** `active` is what the panel's port says of its activation. */
    predicate CurrentActivation(b: Binding, active: bool)
      reads this
      ensures CurrentActivation(b, active) <==> active && !b.suspended && !disposed && IsBound(b)
    {
      !disposed && active && IsBound(b) && !b.suspended
    }

    /** The tab was looked up: the binding follows it to another window, unless its inspection must be retired first. */
    method RefreshLookedUp(op: nat, active: bool, teardownRequired: bool, window: Option<nat>, inspecting: bool)
      returns (b: Option<Binding>)
      requires Valid() && op in suspended && suspended[op].Refreshing?
      modifies this
      ensures Valid() && Rises()
      ensures var from := old(suspended)[op].binding;
        var goesOn := old(CurrentActivation(suspended[op].binding, active)) && !teardownRequired && Stands(window);
        && (b.Some? <==> goesOn && (window == Some(from.windowId) || !inspecting))
        && (goesOn && b.None? ==> Waits(MovingQuietly(from)))
        && if b.None? then SameBindings()
           else if window == Some(from.windowId) then b.value == from && SameBindings()
           else Replaced(from, window.value, b.value)
    {
      hide Inverse, PendingAgree, Remembers;
      var s := Resume(op);
      var from := s.binding;
      if !CurrentActivation(from, active) || teardownRequired || !Stands(window) { return None; }
      if from.windowId == window.value { return Some(from); }
      if inspecting {
        RemembersQuietly(from);
        var _ := Suspend(MovingQuietly(from));
        return None;
      }
      var replacement := ReplaceBindingWindow(from, window.value);
      b := Some(replacement);
    }

    lemma RemembersQuietly(b: Binding)
      ensures Remembers(registrations, MovingQuietly(b))
    {
    }

    /** `finishQuietBindingMoveAfterRetirement`: the retirement and the second lookup are over. */
    method QuietMoveLookedUp(op: nat, retired: bool, hasPort: bool, window: Option<nat>) returns (b: Option<Binding>)
      requires Valid() && op in suspended && suspended[op].MovingQuietly?
      modifies this
      ensures Valid() && Rises()
      ensures var from := old(suspended)[op].binding;
        && (b.Some? <==> retired && !disposed && hasPort && old(IsBound(suspended[op].binding)) && Stands(window))
        && if b.None? then SameBindings()
           else if window == Some(from.windowId) then b.value == from && SameBindings()
           else Replaced(from, window.value, b.value)
    {
      hide Inverse, PendingAgree;
      var s := Resume(op);
      if !retired || disposed || !hasPort || !IsBound(s.binding) || !Stands(window) { return None; }
      if window.value == s.binding.windowId { return Some(s.binding); }
      var replacement := ReplaceBindingWindow(s.binding, window.value);
      b := Some(replacement);
    }

    // ---- Removal ----

    /** A completed teardown that invalidates: whatever binding of the torn-down identity the channel has now goes. */
    method TearDown(identity: Identity)
      requires Valid()
      modifies this`bindings, this`channelByTab, this`channelBySource
      ensures Valid() && Rises() && (identity.channel in bindings ==> bindings[identity.channel].identity != identity)
      ensures bindings == if identity.channel in old(bindings) && old(bindings)[identity.channel].identity == identity
                          then old(bindings) - {identity.channel} else old(bindings)
    {
      if identity.channel in bindings && bindings[identity.channel].identity == identity { RemoveBinding(bindings[identity.channel]); }
    }

    /** `removeTab`: the tab's current registrations are cancelled and its binding goes. */
    method RemoveTab(tab: nat)
      requires Valid()
      modifies this`bindings, this`channelByTab, this`channelBySource, this`pendingRegistrations, this`registrations
      ensures Valid() && Rises()
      ensures (!disposed ==> tab !in channelByTab && forall r: nat :: IsCurrentPending(r) ==> registrations[r].identity.tabId != tab)
      ensures forall c :: c in bindings <==> c in old(bindings) && (disposed || old(bindings)[c].identity.tabId != tab)
    {
      hide Inverse, PendingAgree, Remembers;
      if disposed { return; }
      CancelPending(tab);
      label cancelled:
      TabBinding(tab);
      OnlyTabBinding(tab);
      var binding := BindingOfTab(tab);
      if binding.Some? {
        BoundIdentity(binding.value);
        RemoveBinding(binding.value);
      }
      forall r: nat ensures IsCurrentPending(r) == old@cancelled(IsCurrentPending(r)) {
      }
    }

    method CancelPending(tab: nat)
      requires Valid()
      modifies this`pendingRegistrations, this`registrations
      ensures Valid() && registrations.Keys == old(registrations).Keys
      ensures forall r: nat :: r in registrations ==> registrations[r].identity == old(registrations)[r].identity
      ensures forall r: nat :: IsCurrentPending(r) <==> old(IsCurrentPending(r)) && old(registrations)[r].identity.tabId != tab
    {
      hide Inverse;
      var cancelled := set r | r in registrations && registrations[r].identity.tabId == tab && IsCurrentPending(r);
      registrations := map r | r in registrations :: if r in cancelled then registrations[r].(panelClosed := true) else registrations[r];
      pendingRegistrations := map c | c in pendingRegistrations && pendingRegistrations[c] !in cancelled :: pendingRegistrations[c];
    }

    /** `removeWindow`: every binding that is not on its way elsewhere goes. */
    method RemoveWindow(window: nat)
      requires Valid()
      modifies this`bindings, this`channelByTab, this`channelBySource, this`removedWindows
      ensures Valid() && Rises()
      ensures !disposed && window !in old(removedWindows) ==>
        && window in removedWindows
        && (forall c :: c in bindings <==> c in old(bindings) && (old(bindings)[c].suspended || old(bindings)[c].windowId != window))
        && (forall c :: c in bindings ==> bindings[c] == old(bindings)[c])
    {
      hide Inverse, PendingAgree, Remembers;
      if disposed || window in removedWindows { return; }
      removedWindows := removedWindows + {window};
      var left := set c | c in bindings && !bindings[c].suspended && bindings[c].windowId == window;
      ghost var all, before := left, bindings;
      while left != {}
        invariant Valid() && left <= all && window in removedWindows
        invariant forall c :: c in bindings <==> c in before && c !in all - left
        invariant forall c :: c in bindings ==> bindings[c] == before[c]
        decreases left
      {
        var c :| c in left;
        ChannelIsOwn(c);
        RemoveBinding(bindings[c]);
        left := left - {c};
      }
    }

    lemma ChannelIsOwn(c: string)
      requires Valid() && c in bindings
      ensures bindings[c].identity.channel == c && IsBound(bindings[c])
    {
    }

    /** `dispose`: no registration is current any more. */
    method Dispose()
      requires Valid()
      modifies this`disposed, this`disposeGeneration
      ensures Valid() && disposed && forall r: nat :: !IsCurrentPending(r)
    {
      disposeGeneration := disposeGeneration + 1;
      disposed := true;
    }

    method FinishDisposal()
      requires Valid() && disposed
      modifies this`bindings, this`channelByTab, this`channelBySource, this`pendingRegistrations, this`removedWindows
      ensures Valid() && bindings == map[] && channelByTab == map[] && channelBySource == map[]
      ensures pendingRegistrations == map[]
    {
      pendingRegistrations := map[];
      bindings, channelByTab, channelBySource := map[], map[], map[];
      removedWindows := {};
    }
  }

  function Value<K, V>(m: map<K, V>, k: K): Option<V> {
    if k in m then Some(m[k]) else None
  }
}
