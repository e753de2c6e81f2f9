/** Session states and the transitions between them (src/core/lifecycle.cpp). */
module Lifecycle {

  datatype SessionState = Created | Starting | Running | Exited | Failed | Cancelled

  predicate IsTerminal(s: SessionState) {
    s.Exited? || s.Failed? || s.Cancelled?
  }

  predicate CanTransition(from: SessionState, to: SessionState) {
    match from
    case Created => to.Starting? || to.Cancelled?
    case Starting => to.Running? || to.Failed? || to.Cancelled?
    case Running => to.Exited? || to.Cancelled? || to.Failed?
    case Exited => false
    case Failed => false
    case Cancelled => false
  }

  /** How far a session has come. */
  function Rank(s: SessionState): nat {
    match s
    case Created => 0
    case Starting => 1
    case Running => 2
    case _ => 3
  }

  /** Every transition leads forward, and only a terminal state has none. */
  lemma TransitionsLeadForward(from: SessionState, to: SessionState)
    ensures CanTransition(from, to) ==> Rank(from) < Rank(to)
    ensures IsTerminal(from) <==> forall s :: !CanTransition(from, s)
  {
    if !IsTerminal(from) {
      assert CanTransition(from, Cancelled);
    }
  }

  /** A history: every state follows from the one before by a transition. */
  predicate IsHistory(h: seq<SessionState>) {
    h != [] && h[0] == Created && forall i :: 0 <= i < |h| - 1 ==> CanTransition(h[i], h[i + 1])
  }

  /** The whole of what a session can go through: it is cancelled before it starts, starts and fails or is
      cancelled, or runs and exits, fails or is cancelled; and any such history may stop early. */
  lemma HistoriesExactly(h: seq<SessionState>)
    ensures IsHistory(h) <==>
              h in {[Created], [Created, Cancelled], [Created, Starting],
                    [Created, Starting, Failed], [Created, Starting, Cancelled], [Created, Starting, Running],
                    [Created, Starting, Running, Exited], [Created, Starting, Running, Failed],
                    [Created, Starting, Running, Cancelled]}
  {
    if IsHistory(h) {
      RankGrows(h, |h| - 1);
      SpelledOut(h);
    }
  }

  lemma {:induction false} RankGrows(h: seq<SessionState>, i: nat)
    requires IsHistory(h) && i < |h|
    ensures Rank(h[i]) >= i && Rank(h[i]) <= 3
  {
    if i > 0 {
      RankGrows(h, i - 1);
      TransitionsLeadForward(h[i - 1], h[i]);
    }
  }

  lemma SpelledOut(h: seq<SessionState>)
    requires 0 < |h| <= 4
    ensures h == if |h| == 1 then [h[0]] else if |h| == 2 then [h[0], h[1]]
                 else if |h| == 3 then [h[0], h[1], h[2]] else [h[0], h[1], h[2], h[3]]
  {
  }

  class StateMachine {
    var state: SessionState

    constructor ()
      ensures state == Created
    {
      state := Created;
    }

    /** Refused transitions leave the state as it is. */
    method Transition(to: SessionState) returns (ok: bool)
      modifies this
      ensures ok == CanTransition(old(state), to)
      ensures state == if ok then to else old(state)
    {
      if !CanTransition(state, to) {
        return false;
      }
      state := to;
      return true;
    }
  }
}
