/** Whether a session has an IDE, and how often that changed. */
module PeerStates {
  import opened ReplyRouteSpec

  datatype PeerState = PeerState(connected: bool, generation: nat)

  datatype Transition = Rejected | Unchanged | Changed(state: PeerState)

  function StateOf(states: map<Id, PeerState>, session: Id): PeerState {
    if session in states then states[session] else PeerState(false, 0)
  }

  class PeerStateRegistry {
    var states: map<Id, PeerState>

    /** A generation is odd exactly while the session has an IDE. */
    ghost predicate Valid()
      reads this
    {
      forall s :: StateOf(states, s).generation % 2 == 1 <==> StateOf(states, s).connected
    }

    constructor ()
      ensures Valid() && states == map[]
    {
      states := map[];
    }

    /** The flag follows the count; the generation counts the changes. A negative count is rejected. */
    method UpdateIdeCount(session: Id, count: int) returns (t: Transition)
      requires Valid()
      modifies this
      ensures Valid()
      ensures t.Rejected? <==> count < 0
      ensures t.Changed? <==> count >= 0 && (count > 0) != StateOf(old(states), session).connected
      ensures t.Changed? ==> t.state == StateOf(states, session)
      ensures count >= 0 ==> StateOf(states, session).connected == (count > 0)
      ensures StateOf(states, session).generation == StateOf(old(states), session).generation + if t.Changed? then 1 else 0
      ensures !t.Changed? ==> states == old(states)
      ensures forall s :: s != session ==> StateOf(states, s) == StateOf(old(states), s)
    {
      if count < 0 { return Rejected; }
      var previous := StateOf(states, session);
      var connected := count > 0;
      if connected == previous.connected { return Unchanged; }
      var next := PeerState(connected, previous.generation + 1);
      assert previous.generation % 2 == 1 <==> previous.connected;
      ghost var before := states;
      states := states[session := next];
      forall s ensures StateOf(states, s).generation % 2 == 1 <==> StateOf(states, s).connected {
        assert StateOf(before, s).generation % 2 == 1 <==> StateOf(before, s).connected;
        assert StateOf(states, s) == if s == session then next else StateOf(before, s);
      }
      return Changed(next);
    }

    method Clear()
      modifies this
      ensures Valid() && states == map[]
    {
      states := map[];
    }
  }
}
