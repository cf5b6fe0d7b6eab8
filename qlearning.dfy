/** The tabular Q-learning agent. Each stored state is a frame abstraction
    with 256 Q values, one per action (an action is a byte of pad buttons).
    A visit looks for an equivalent stored state, revisits it or stores a new
    one, and applies the temporal-difference update to the previous
    (state, action) pair. Q values and the MSE are exact reals; the random
    action is an input. */
module QLearning {
  import opened Common
  import opened Vision

  /** Number of actions, and so of Q values per state. */
  const ActionCount: nat := 256

  /** Starting value of `min_mse` in `search_state`: the largest MSE two
      frames can have. */
  const MaxSearchMse: real := 65025.0

  datatype State = State(frameAbstraction: FrameAbstraction, q: seq<real>)

  /** `State::new`: a frame abstraction with all Q values zero. */
  function NewState(fa: FrameAbstraction): (s: State)
    ensures s.frameAbstraction == fa
    ensures |s.q| == ActionCount && forall a :: 0 <= a < |s.q| ==> s.q[a] == 0.0
  {
    State(fa, seq(ActionCount, _ => 0.0))
  }

  // ---------------------------------------------------------------------
  // Searching for an equivalent state
  // ---------------------------------------------------------------------

  function Abs(x: int): nat {
    if x < 0 then -x else x
  }

  /** Manhattan distance between two centroids. */
  function Distance(p: Point, q: Point): nat {
    Abs(p.0 - q.0) + Abs(p.1 - q.1)
  }

  /** Both centroids of `candidate` lie strictly within `radius` of those of `fa`. */
  predicate WithinRadius(candidate: FrameAbstraction, fa: FrameAbstraction, radius: nat) {
    Distance(candidate.char1Centroid, fa.char1Centroid) < radius &&
    Distance(candidate.char2Centroid, fa.char2Centroid) < radius
  }

  /** Every stored state close enough to be compared with `fa` has a frame
      of the same dimensions (otherwise `compute_mse` panics). */
  ghost predicate Comparable(states: seq<State>, fa: FrameAbstraction, radius: nat) {
    fa.frame.Valid() &&
    forall i :: 0 <= i < |states| && WithinRadius(states[i].frameAbstraction, fa, radius) ==>
      var other := states[i].frameAbstraction.frame;
      other.Valid() && other.width == fa.frame.width && other.height == fa.frame.height
  }

  /** The MSE between `fa` and stored state `i`, or `None` when the state is
      out of radius or the MSE is NaN; `None` never wins the comparison. */
  function CandidateMse(states: seq<State>, fa: FrameAbstraction, radius: nat, i: nat): Option<real>
    requires Comparable(states, fa, radius) && i < |states|
  {
    if WithinRadius(states[i].frameAbstraction, fa, radius)
    then MeanSquaredError(fa.frame, states[i].frameAbstraction.frame)
    else None
  }

  /** `(best_index, min_mse)` after the first `n` stored states. */
  function ScanStates(states: seq<State>, fa: FrameAbstraction, radius: nat, n: nat): (r: (nat, real))
    requires Comparable(states, fa, radius) && n <= |states|
    ensures r.1 <= MaxSearchMse
    ensures r.0 < n || r.0 == 0
    ensures r.1 < MaxSearchMse ==> r.0 < n
  {
    if n == 0 then (0, MaxSearchMse)
    else
      var (best, minMse) := ScanStates(states, fa, radius, n - 1);
      var mse := CandidateMse(states, fa, radius, n - 1);
      if mse.Some? && mse.value < minMse then (n - 1, mse.value) else (best, minMse)
  }

  /** `search_state`. */
  function Search(states: seq<State>, fa: FrameAbstraction, radius: nat, maxMse: real): (r: Option<nat>)
    requires Comparable(states, fa, radius)
    ensures r.Some? && (|states| > 0 || maxMse <= MaxSearchMse) ==> r.value < |states|
  {
    var (best, minMse) := ScanStates(states, fa, radius, |states|);
    if minMse < maxMse then Some(best) else None
  }

  /** The scan keeps the first state with the smallest MSE under the
      starting bound; with none, it keeps index 0 and the bound. */
  lemma {:induction false} ScanStatesFindsFirstMinimum(states: seq<State>, fa: FrameAbstraction, radius: nat, n: nat)
    requires Comparable(states, fa, radius) && n <= |states|
    ensures var (best, minMse) := ScanStates(states, fa, radius, n);
            && minMse <= MaxSearchMse
            && (forall j :: 0 <= j < n && CandidateMse(states, fa, radius, j).Some? ==>
                  minMse <= CandidateMse(states, fa, radius, j).value)
            && (minMse < MaxSearchMse ==>
                  best < n && CandidateMse(states, fa, radius, best) == Some(minMse) &&
                  forall j :: 0 <= j < best && CandidateMse(states, fa, radius, j).Some? ==>
                    minMse < CandidateMse(states, fa, radius, j).value)
            && (minMse == MaxSearchMse ==> best == 0)
    decreases n
  {
    if n > 0 {
      ScanStatesFindsFirstMinimum(states, fa, radius, n - 1);
    }
  }

  /** `search_state` succeeds exactly when the scan's minimum is under
      `max_mse`. Then it names the first closest state in radius, or index 0
      when no state in radius beat the starting bound (possible only when
      `max_mse` exceeds it). */
  lemma SearchResult(states: seq<State>, fa: FrameAbstraction, radius: nat, maxMse: real)
    requires Comparable(states, fa, radius)
    ensures Search(states, fa, radius, maxMse).Some? <==> ScanStates(states, fa, radius, |states|).1 < maxMse
    ensures Search(states, fa, radius, maxMse).Some? && maxMse <= MaxSearchMse ==>
              var i := Search(states, fa, radius, maxMse).value;
              i < |states| && WithinRadius(states[i].frameAbstraction, fa, radius) &&
              CandidateMse(states, fa, radius, i).Some? && CandidateMse(states, fa, radius, i).value < maxMse &&
              (forall j :: 0 <= j < |states| && CandidateMse(states, fa, radius, j).Some? ==>
                 CandidateMse(states, fa, radius, i).value <= CandidateMse(states, fa, radius, j).value) &&
              (forall j :: 0 <= j < i && CandidateMse(states, fa, radius, j).Some? ==>
                 CandidateMse(states, fa, radius, i).value < CandidateMse(states, fa, radius, j).value)
    ensures Search(states, fa, radius, maxMse) == Some(0) || Search(states, fa, radius, maxMse).None? ||
            Search(states, fa, radius, maxMse).value < |states|
  {
    ScanStatesFindsFirstMinimum(states, fa, radius, |states|);
  }

  // ---------------------------------------------------------------------
  // Choosing an action
  // ---------------------------------------------------------------------

  /** `(best_action, max_q)` after the first `n` Q values, from `(None, -1.0)`. */
  function ScanActions(q: seq<real>, n: nat): (r: (Option<nat>, real))
    requires n <= |q|
    ensures r.0.Some? ==> r.0.value < n
  {
    if n == 0 then (None, -1.0)
    else
      var (best, maxQ) := ScanActions(q, n - 1);
      if q[n - 1] > maxQ then (Some(n - 1), q[n - 1]) else (best, maxQ)
  }

  /** `choose_best_action`, with `random` the action drawn when no Q value
      exceeds -1. */
  function BestAction(q: seq<real>, random: Byte): (r: (Byte, real))
    requires |q| == ActionCount
    ensures r.1 >= -1.0
    ensures r.1 > -1.0 ==> r.0 as nat < |q| && q[r.0] == r.1
  {
    ScanActionsFindsFirstMaximum(q, |q|);
    var (best, maxQ) := ScanActions(q, |q|);
    if best.Some? then (best.value, maxQ) else (random, maxQ)
  }

  lemma {:induction false} ScanActionsFindsFirstMaximum(q: seq<real>, n: nat)
    requires n <= |q|
    ensures var (best, maxQ) := ScanActions(q, n);
            && (best.None? <==> forall a :: 0 <= a < n ==> q[a] <= -1.0)
            && (best.None? ==> maxQ == -1.0)
            && (best.Some? ==>
                  best.value < n && q[best.value] == maxQ && maxQ > -1.0 &&
                  (forall a :: 0 <= a < n ==> q[a] <= maxQ) &&
                  (forall a :: 0 <= a < best.value ==> q[a] < maxQ))
    decreases n
  {
    if n > 0 {
      ScanActionsFindsFirstMaximum(q, n - 1);
    }
  }

  /** When some Q value exceeds -1, the chosen action is the lowest one
      with the largest Q value, returned with it; otherwise the random
      action is returned with -1. */
  lemma BestActionIsFirstMaximum(q: seq<real>, random: Byte)
    requires |q| == ActionCount
    ensures var (action, maxQ) := BestAction(q, random);
            && ((exists a :: 0 <= a < |q| && q[a] > -1.0) ==>
                  q[action] == maxQ && (forall a :: 0 <= a < |q| ==> q[a] <= maxQ) &&
                  (forall a :: 0 <= a < action ==> q[a] < maxQ))
            && ((forall a :: 0 <= a < |q| ==> q[a] <= -1.0) ==> action == random && maxQ == -1.0)
  {
    ScanActionsFindsFirstMaximum(q, |q|);
  }

  /** The loop of `choose_best_action`. */
  method ChooseBestAction(state: State, random: Byte) returns (action: Byte, maxQ: real)
    requires |state.q| == ActionCount
    ensures (action, maxQ) == BestAction(state.q, random)
  {
    maxQ := -1.0;
    var best: Option<nat> := None;
    var a := 0;
    while a < |state.q|
      invariant 0 <= a <= |state.q|
      invariant (best, maxQ) == ScanActions(state.q, a)
    {
      if state.q[a] > maxQ {
        best := Some(a);
        maxQ := state.q[a];
      }
      a := a + 1;
    }
    if best.Some? {
      action := best.value;
    } else {
      action := random;
    }
  }

  // ---------------------------------------------------------------------
  // The agent
  // ---------------------------------------------------------------------

  /** The agent's fields as a value. `trainingTime` is a `Duration` in
      abstract clock units. */
  datatype AgentState = AgentState(
    states: seq<State>,
    numberOfStates: nat,
    radius: nat,
    revisited: bool,
    previousIndex: Option<nat>,
    previousAction: Option<Byte>,
    previousQ: Option<real>,
    discountFactor: real,
    learningRate: real,
    iterationNumber: nat,
    statesPerIteration: seq<(real, real)>,
    maxQPerIteration: seq<(real, real)>,
    trainingTime: nat)

  /** `Agent::new`. */
  const InitialAgent: AgentState :=
    AgentState([], 0, 30, false, None, None, None, 0.9, 0.5, 0, [], [], 0)

  /** What every agent keeps true between visits. */
  predicate AgentInvariant(s: AgentState) {
    && s.numberOfStates == |s.states|
    && (forall i :: 0 <= i < |s.states| ==> |s.states[i].q| == ActionCount)
    && (s.previousIndex.Some? <==> s.previousAction.Some?)
    && (s.previousIndex.Some? <==> s.previousQ.Some?)
    && (s.previousIndex.Some? ==> s.previousIndex.value < |s.states|)
    && |s.statesPerIteration| == s.iterationNumber
    && |s.maxQPerIteration| == s.iterationNumber
  }

  /** What `visit_state` needs in order not to panic: the stored states it
      compares have frames of `fa`'s size, and the search cannot report
      index 0 of an empty table (the `states.len() - 1` underflow). */
  ghost predicate CanVisit(s: AgentState, fa: FrameAbstraction, maxMse: real) {
    AgentInvariant(s) && Comparable(s.states, fa, s.radius) && (|s.states| > 0 || maxMse <= MaxSearchMse)
  }

  /** The temporal-difference update of Q value `act` of stored state `i`. */
  function UpdateQ(states: seq<State>, i: nat, act: nat, newQ: real): seq<State>
    requires i < |states| && act < |states[i].q|
  {
    states[i := states[i].(q := states[i].q[act := newQ])]
  }

  /** Where a visit that does not return early arrives: the agent with the
      state table (the new state pushed when none matched), the state count
      and the `revisited` flag updated, and the index of the current state,
      the action taken and the largest Q value. */
  function Arrive(s: AgentState, fa: FrameAbstraction, found: Option<nat>, random: Byte): (AgentState, nat, Byte, real)
    requires AgentInvariant(s) && (found.Some? ==> found.value < |s.states|)
  {
    if found.Some? then
      var (action, maxQ) := BestAction(s.states[found.value].q, random);
      (s.(revisited := true), found.value, action, maxQ)
    else
      (s.(states := s.states + [NewState(fa)], numberOfStates := |s.states| + 1, revisited := false),
       |s.states|, random, 0.0)
  }

  /** The bookkeeping that ends a visit: the two plots, the iteration count
      and the previous (state, action, max Q). */
  function Record(s: AgentState, index: nat, action: Byte, maxQ: real): AgentState {
    var iteration := s.iterationNumber as real;
    s.(previousIndex := Some(index), previousAction := Some(action), previousQ := Some(maxQ),
       iterationNumber := s.iterationNumber + 1,
       statesPerIteration := s.statesPerIteration + [(iteration, |s.states| as real)],
       maxQPerIteration := s.maxQPerIteration + [(iteration, maxQ)])
  }

  /** How far `reward + discount * maxQ` lies from the current estimate `q`. */
  function TemporalDifference(reward: real, discount: real, maxQ: real, q: real): real {
    reward + discount * maxQ - q
  }

  /** The estimate `q` moved by `learningRate` times the difference. */
  function Learned(q: real, learningRate: real, difference: real): real {
    q + learningRate * difference
  }

  /** The previous (state, action) pair, if any, names a stored Q value. */
  predicate LearnReady(s: AgentState) {
    && (forall i :: 0 <= i < |s.states| ==> |s.states[i].q| == ActionCount)
    && (s.previousIndex.Some? ==> s.previousAction.Some? && s.previousIndex.value < |s.states|)
  }

  /** The temporal-difference update of the previous (state, action) pair,
      if there is one, towards `reward + discount * maxQ`. */
  function Learn(s: AgentState, reward: real, maxQ: real): seq<State>
    requires LearnReady(s)
  {
    if s.previousIndex.Some? then
      var prev, act := s.previousIndex.value, s.previousAction.value as nat;
      var oldQ := s.states[prev].q[act];
      UpdateQ(s.states, prev, act, Learned(oldQ, s.learningRate, TemporalDifference(reward, s.discountFactor, maxQ, oldQ)))
    else s.states
  }

  /** `visit_state` as a function of the agent's fields: the new fields and
      the returned action. */
  function Visit(s: AgentState, fa: FrameAbstraction, reward: real, maxMse: real, random: Byte): (r: (AgentState, Byte))
    requires CanVisit(s, fa, maxMse)
    ensures |s.states| <= |r.0.states| <= |s.states| + 1
    ensures r.0.radius == s.radius && r.0.learningRate == s.learningRate && r.0.discountFactor == s.discountFactor
    ensures r.0.trainingTime == s.trainingTime
  {
    var found := Search(s.states, fa, s.radius, maxMse);
    if found.Some? && found.value == |s.states| - 1 then (s, 0)
    else
      var (arrived, index, action, maxQ) := Arrive(s, fa, found, random);
      var learned := arrived.(states := Learn(arrived, reward, maxQ));
      (Record(learned, index, action, maxQ), action)
  }

  /** The agent invariant holds initially and after every visit. */
  lemma VisitKeepsInvariant(s: AgentState, fa: FrameAbstraction, reward: real, maxMse: real, random: Byte)
    requires CanVisit(s, fa, maxMse)
    ensures AgentInvariant(InitialAgent)
    ensures AgentInvariant(Visit(s, fa, reward, maxMse, random).0)
  {
    SearchResult(s.states, fa, s.radius, maxMse);
  }

  /** Meeting the most recently stored state again changes nothing and
      returns action 0. */
  lemma VisitSameStateIsNoop(s: AgentState, fa: FrameAbstraction, reward: real, maxMse: real, random: Byte)
    requires CanVisit(s, fa, maxMse)
    requires Search(s.states, fa, s.radius, maxMse) == Some(|s.states| - 1)
    ensures Visit(s, fa, reward, maxMse, random) == (s, 0)
  {
  }

  /** What a visit that does not return early changes: states are only ever
      added, the new one last and with zero Q values; only the previous
      (state, action) Q value moves, by the temporal-difference rule; the
      plots and the iteration count grow by one; the previous fields record
      this step. */
  lemma VisitEffect(s: AgentState, fa: FrameAbstraction, reward: real, maxMse: real, random: Byte)
    requires CanVisit(s, fa, maxMse)
    requires Search(s.states, fa, s.radius, maxMse) != Some(|s.states| - 1)
    ensures var (s', action) := Visit(s, fa, reward, maxMse, random);
            var found := Search(s.states, fa, s.radius, maxMse);
            var maxQ := s'.previousQ.value;
            && (found.None? ==>
                  |s'.states| == |s.states| + 1 && s'.states[|s.states|].frameAbstraction == fa &&
                  s'.states[|s.states|].q == NewState(fa).q &&
                  !s'.revisited && maxQ == 0.0 && action == random && s'.previousIndex == Some(|s.states|))
            && (found.Some? ==>
                  |s'.states| == |s.states| && s'.revisited && s'.previousIndex == found &&
                  (action, maxQ) == BestAction(s.states[found.value].q, random))
            && (forall i :: 0 <= i < |s.states| ==>
                  s'.states[i].frameAbstraction == s.states[i].frameAbstraction &&
                  |s'.states[i].q| == |s.states[i].q| &&
                  forall a :: 0 <= a < |s.states[i].q| ==>
                    s'.states[i].q[a] ==
                      if s.previousIndex == Some(i) && s.previousAction == Some(a as Byte)
                      then Learned(s.states[i].q[a], s.learningRate, TemporalDifference(reward, s.discountFactor, maxQ, s.states[i].q[a]))
                      else s.states[i].q[a])
            && s'.iterationNumber == s.iterationNumber + 1
            && s'.statesPerIteration == s.statesPerIteration + [(s.iterationNumber as real, |s'.states| as real)]
            && s'.maxQPerIteration == s.maxQPerIteration + [(s.iterationNumber as real, maxQ)]
            && s'.previousAction == Some(action)
            && s'.radius == s.radius && s'.learningRate == s.learningRate
            && s'.discountFactor == s.discountFactor && s'.trainingTime == s.trainingTime
  {
    SearchResult(s.states, fa, s.radius, maxMse);
  }

  /** A frame abstraction that was just stored as a new state is recognised
      at once: visiting it again (with a positive radius and `max_mse`, and
      a non-empty frame) matches that last state and changes nothing. */
  lemma NewStateIsRecognised(s: AgentState, fa: FrameAbstraction, reward: real, maxMse: real,
                              random: Byte, reward': real, random': Byte)
    requires CanVisit(s, fa, maxMse)
    requires Search(s.states, fa, s.radius, maxMse).None?
    requires s.radius > 0 && 0.0 < maxMse && fa.frame.width * fa.frame.height > 0
    ensures var s' := Visit(s, fa, reward, maxMse, random).0;
            CanVisit(s', fa, maxMse) && Visit(s', fa, reward', maxMse, random') == (s', 0)
  {
    var s' := Visit(s, fa, reward, maxMse, random).0;
    VisitKeepsInvariant(s, fa, reward, maxMse, random);
    VisitEffect(s, fa, reward, maxMse, random);
    PushedStateIsFound(s.states, s'.states, fa, s.radius, maxMse);
    VisitSameStateIsNoop(s', fa, reward', maxMse, random');
  }

  /** Pushing a state for `fa` onto a table where the search found nothing
      makes the search find that state. */
  lemma {:induction false} PushedStateIsFound(states: seq<State>, states': seq<State>, fa: FrameAbstraction,
                                              radius: nat, maxMse: real)
    requires Comparable(states, fa, radius) && Search(states, fa, radius, maxMse).None?
    requires |states'| == |states| + 1 && states'[|states|].frameAbstraction == fa
    requires forall i :: 0 <= i < |states| ==> states'[i].frameAbstraction == states[i].frameAbstraction
    requires radius > 0 && 0.0 < maxMse && fa.frame.width * fa.frame.height > 0
    ensures Comparable(states', fa, radius) && Search(states', fa, radius, maxMse) == Some(|states|)
  {
    var n := |states|;
    assert Comparable(states', fa, radius) by {
      forall i | 0 <= i < |states'| && WithinRadius(states'[i].frameAbstraction, fa, radius)
        ensures var other := states'[i].frameAbstraction.frame;
                other.Valid() && other.width == fa.frame.width && other.height == fa.frame.height
      {
        if i < n {
          assert states'[i].frameAbstraction == states[i].frameAbstraction;
        }
      }
    }
    // the scan over the old states is unchanged ...
    assert forall i :: 0 <= i < n ==> CandidateMse(states', fa, radius, i) == CandidateMse(states, fa, radius, i);
    ScanStatesAgree(states, states', fa, radius, n);
    // ... and the new state is at distance 0
    assert Distance(fa.char1Centroid, fa.char1Centroid) == 0;
    assert Distance(fa.char2Centroid, fa.char2Centroid) == 0;
    MeanSquaredErrorOfSelf(fa.frame);
    assert CandidateMse(states', fa, radius, n) == Some(0.0);
  }

  /** Two tables whose first `n` states give the same MSE candidates scan alike. */
  lemma {:induction false} ScanStatesAgree(states1: seq<State>, states2: seq<State>, fa: FrameAbstraction, radius: nat, n: nat)
    requires Comparable(states1, fa, radius) && Comparable(states2, fa, radius)
    requires n <= |states1| && n <= |states2|
    requires forall i :: 0 <= i < n ==> CandidateMse(states1, fa, radius, i) == CandidateMse(states2, fa, radius, i)
    ensures ScanStates(states1, fa, radius, n) == ScanStates(states2, fa, radius, n)
    decreases n
  {
    if n > 0 {
      ScanStatesAgree(states1, states2, fa, radius, n - 1);
    }
  }

  /** The agent: a growing table of states with their Q values, the
      bookkeeping of the previous step, and the data of the two plots. */
  class Agent {
    var states: seq<State>
    var numberOfStates: nat
    var radius: nat
    var revisited: bool
    var previousIndex: Option<nat>
    var previousAction: Option<Byte>
    var previousQ: Option<real>
    var discountFactor: real
    var learningRate: real
    var iterationNumber: nat
    var statesPerIteration: seq<(real, real)>
    var maxQPerIteration: seq<(real, real)>
    var trainingTime: nat

    function View(): AgentState
      reads this
    {
      AgentState(states, numberOfStates, radius, revisited, previousIndex, previousAction, previousQ,
                 discountFactor, learningRate, iterationNumber, statesPerIteration, maxQPerIteration, trainingTime)
    }

    predicate Valid()
      reads this
    {
      AgentInvariant(View())
    }

    /** `Agent::new`: no states, radius 30, discount 0.9, learning rate 0.5. */
    constructor ()
      ensures View() == InitialAgent && Valid()
    {
      states := [];
      numberOfStates := 0;
      radius := 30;
      revisited := false;
      previousIndex := None;
      previousAction := None;
      previousQ := None;
      discountFactor := 0.9;
      learningRate := 0.5;
      iterationNumber := 0;
      statesPerIteration := [];
      maxQPerIteration := [];
      trainingTime := 0;
    }

    /** The loop of `search_state`. */
    method SearchState(fa: FrameAbstraction, maxMse: real) returns (found: Option<nat>)
      requires Comparable(states, fa, radius)
      ensures found == Search(states, fa, radius, maxMse)
    {
      var bestIndex := 0;
      var minMse := MaxSearchMse;
      var i := 0;
      while i < |states|
        invariant 0 <= i <= |states|
        invariant (bestIndex, minMse) == ScanStates(states, fa, radius, i)
      {
        var candidate := states[i].frameAbstraction;
        var distance1 := Distance(candidate.char1Centroid, fa.char1Centroid);
        var distance2 := Distance(candidate.char2Centroid, fa.char2Centroid);
        if distance1 < radius && distance2 < radius {
          var _, mse := ComputeMse(fa.frame, candidate.frame);
          if mse.Some? && mse.value < minMse {
            bestIndex := i;
            minMse := mse.value;
          }
        }
        i := i + 1;
      }
      if minMse < maxMse {
        found := Some(bestIndex);
      } else {
        found := None;
      }
    }

    /** `visit_state`: with `random` the action the random number generator
        would draw in this step. */
    method VisitState(fa: FrameAbstraction, reward: real, maxMse: real, random: Byte) returns (action: Byte)
      requires CanVisit(View(), fa, maxMse)
      modifies this
      ensures (View(), action) == Visit(old(View()), fa, reward, maxMse, random)
      ensures Valid()
    {
      ghost var s := View();
      var found := SearchState(fa, maxMse);
      if found.Some? && found.value == |states| - 1 {
        return 0;
      }
      var currentIndex, maxQ;
      currentIndex, action, maxQ := MoveTo(fa, found, random);
      LearnFrom(reward, maxQ);
      RecordStep(currentIndex, action, maxQ);
      VisitKeepsInvariant(s, fa, reward, maxMse, random);
    }

    /** The bookkeeping at the end of `visit_state`. */
    method RecordStep(currentIndex: nat, action: Byte, maxQ: real)
      modifies this
      ensures View() == Record(old(View()), currentIndex, action, maxQ)
    {
      var iteration := iterationNumber as real;
      statesPerIteration := statesPerIteration + [(iteration, |states| as real)];
      maxQPerIteration := maxQPerIteration + [(iteration, maxQ)];
      iterationNumber := iterationNumber + 1;
      previousIndex := Some(currentIndex);
      previousAction := Some(action);
      previousQ := Some(maxQ);
    }

    /** The "search or add" half of `visit_state`, once the search is done. */
    method MoveTo(fa: FrameAbstraction, found: Option<nat>, random: Byte) returns (currentIndex: nat, action: Byte, maxQ: real)
      requires Valid() && (found.Some? ==> found.value < |states|)
      modifies this
      ensures (View(), currentIndex, action, maxQ) == Arrive(old(View()), fa, found, random)
    {
      if found.Some? {
        currentIndex := found.value;
        action, maxQ := ChooseBestAction(states[currentIndex], random);
        revisited := true;
      } else {
        currentIndex := |states|;
        states := states + [NewState(fa)];
        action := random;
        maxQ := 0.0;
        numberOfStates := |states|;
        revisited := false;
      }
    }

    /** The temporal-difference half of `visit_state`. */
    method LearnFrom(reward: real, maxQ: real)
      requires LearnReady(View())
      modifies this
      ensures View() == old(View()).(states := Learn(old(View()), reward, maxQ))
    {
      if previousIndex.Some? {
        var prev := previousIndex.value;
        var act := previousAction.value as nat;
        var temporalDifference := TemporalDifference(reward, discountFactor, maxQ, states[prev].q[act]);
        states := UpdateQ(states, prev, act, Learned(states[prev].q[act], learningRate, temporalDifference));
      }
    }

    method GetIterationNumber() returns (n: nat)
      ensures n == iterationNumber
    {
      n := iterationNumber;
    }

    method GetNumberOfStates() returns (n: nat)
      requires Valid()
      ensures n == |states| && n == numberOfStates
    {
      n := |states|;
    }

    method SetRadius(r: nat)
      modifies this
      ensures View() == old(View()).(radius := r)
    {
      radius := r;
    }

    method GetStatesPerIteration() returns (points: seq<(real, real)>)
      requires Valid()
      ensures points == statesPerIteration && |points| == iterationNumber
    {
      points := statesPerIteration;
    }

    method GetMaxQPerIteration() returns (points: seq<(real, real)>)
      requires Valid()
      ensures points == maxQPerIteration && |points| == iterationNumber
    {
      points := maxQPerIteration;
    }

    method AddTrainingTime(t: nat)
      modifies this
      ensures View() == old(View()).(trainingTime := old(trainingTime) + t)
    {
      trainingTime := trainingTime + t;
    }

    method GetTrainingTime() returns (t: nat)
      ensures t == trainingTime
    {
      t := trainingTime;
    }
  }
}
