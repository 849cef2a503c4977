/**
 The equiplet state machine (rexos_statemachine): changing state through goals sent to the transition
 servers, rolling back, and forcing the machine into a state that its mode allows.
 */
module StateMachine {
  import opened Wrappers

  datatype State = Safe | Setup | Shutdown | Standby | Start | Stop | Normal | NoState
  datatype Mode = ModeNormal | Service | Error | CriticalError | EStop | Lock | Step

  predicate IsTransitionState(s: State) {
    s in {Setup, Shutdown, Start, Stop}
  }

  predicate Stable(s: State) {
    s in {Safe, Standby, Normal}
  }

  function PossibleStates(m: Mode): seq<State> {
    match m
    case ModeNormal => [Normal, Standby, Safe, Setup, Shutdown, Start, Stop]
    case Service => [Normal, Standby, Safe, Setup, Shutdown, Start, Stop]
    case Error => [Standby, Safe, Setup, Shutdown, Stop]
    case CriticalError => [Safe, Stop, Shutdown]
    case EStop => [Safe]
    case Lock => [Normal, Standby, Safe, Stop]
    case Step => [Normal, Standby, Safe, Setup, Shutdown, Start, Stop]
  }

  predicate Allowed(s: State, m: Mode) {
    s in PossibleStates(m)
  }

  /** An entry of transitionMap: the transition state to go through and the one of the rollback. */
  datatype Entry = Entry(transition: State, abort: Option<State>)

  function TransitionMap(from: State, to: State): Option<Entry> {
    match (from, to)
    case (Safe, Standby) => Some(Entry(Setup, Some(Shutdown)))
    case (Standby, Safe) => Some(Entry(Shutdown, None))
    case (Standby, Normal) => Some(Entry(Start, Some(Stop)))
    case (Normal, Standby) => Some(Entry(Stop, None))
    case _ => None
  }

  /** Safe is the lowest stable state, Normal the highest. */
  function Rank(s: State): nat {
    match s
    case Normal => 2
    case Standby => 1
    case _ => 0
  }

  /** What a goal reports: the number of the goal, whether it belongs to a rollback, and the transition. */
  type Oracle = (nat, bool, State) -> bool

  /** Ordinary stop and shutdown goals succeed, as the servers report. */
  ghost predicate LoweringSucceeds(report: Oracle) {
    forall n :: report(n, false, Stop) && report(n, false, Shutdown)
  }

  // ------------------------------------------------------------ one change of state

  /** Where the loop of changeState ends: the target, or the source after a rollback. */
  function Landing(report: Oracle, n: nat, from: State, to: State): State
    requires TransitionMap(from, to).Some?
  {
    if report(n, false, TransitionMap(from, to).value.transition) then to else from
  }

  /** The states the loop of changeState passes through, the last one included. */
  function Passage(report: Oracle, n: nat, from: State, to: State): seq<State>
    requires TransitionMap(from, to).Some?
  {
    var e := TransitionMap(from, to).value;
    if report(n, false, e.transition) then [e.transition, to]
    else if e.abort.Some? then [e.transition, e.abort.value, from]
    else [e.transition, from]
  }

  /** The highest stable state that the mode allows and that is not above s. */
  function Canonical(s: State, m: Mode): State
    requires Stable(s)
  {
    if Allowed(s, m) then s
    else if Rank(s) == 2 && Allowed(Standby, m) then Standby
    else Safe
  }

  lemma CanonicalIsHighest(s: State, m: Mode)
    requires Stable(s)
    ensures var c := Canonical(s, m);
      && Stable(c) && Allowed(c, m) && Rank(c) <= Rank(s)
      && forall t :: Stable(t) && Allowed(t, m) && Rank(t) <= Rank(s) ==> Rank(t) <= Rank(c)
  {
    assert Allowed(Safe, m);
  }

  /** How many goals the loop of changeState sends. */
  function Sent(report: Oracle, n: nat, from: State, to: State): nat
    requires TransitionMap(from, to).Some?
  {
    var e := TransitionMap(from, to).value;
    if report(n, false, e.transition) || e.abort.None? then 1 else 2
  }

  /** The transition exists and its transition state is allowed in the mode. */
  predicate Possible(from: State, to: State, m: Mode) {
    TransitionMap(from, to).Some? && Allowed(TransitionMap(from, to).value.transition, m)
  }

  /** The states entered while forcing s down to an allowed state: two for each goal. */
  function Forced(s: State, m: Mode): seq<State>
    decreases Rank(s)
  {
    if Allowed(s, m) then []
    else if s == Normal then [Stop, Standby] + Forced(Standby, m)
    else if s == Standby then [Shutdown, Safe] + Forced(Safe, m)
    else []
  }

  // ------------------------------------------------------------ the machine as a value

  datatype Machine = Machine(state: State, mode: Mode, goals: nat, history: seq<State>)

  datatype Command = GoTo(to: State) | SetMode(mode: Mode)

  function ForceDown(st: Machine): Machine
    requires Stable(st.state)
  {
    var entered := Forced(st.state, st.mode);
    Machine(Canonical(st.state, st.mode), st.mode, st.goals + |entered| / 2, st.history + entered)
  }

  /** changeState and changeMode, on a machine in a stable state. */
  function Exec(report: Oracle, modes: seq<Mode>, st: Machine, cmd: Command): Machine
    requires Stable(st.state)
  {
    match cmd
    case GoTo(to) =>
      if Possible(st.state, to, st.mode) then
        ForceDown(Machine(Landing(report, st.goals, st.state, to), st.mode,
                          st.goals + Sent(report, st.goals, st.state, to),
                          st.history + Passage(report, st.goals, st.state, to)))
      else st
    case SetMode(m) => if m in modes then ForceDown(st.(mode := m)) else st
  }

  class StateMachine {
    var currentState: State
    var currentMode: Mode
    var modes: seq<Mode>
    var goals: nat                 // how many goals have been sent
    var history: seq<State>        // the states entered, as the listener sees them
    const report: Oracle

    constructor (modes: seq<Mode>, report: Oracle)
      ensures currentState == Safe && currentMode == ModeNormal && this.modes == modes
      ensures goals == 0 && history == [] && this.report == report
    {
      currentState, currentMode, this.modes, goals, history := Safe, ModeNormal, modes, 0, [];
      this.report := report;
    }

    method StatePossibleInMode(s: State, m: Mode) returns (possible: bool)
      ensures possible == Allowed(s, m)
    {
      var states := PossibleStates(m);
      for i := 0 to |states|
        invariant s !in states[..i]
      {
        if states[i] == s {
          return true;
        }
        assert states[..i + 1] == states[..i] + [states[i]];
      }
      assert states[..|states|] == states;
      return false;
    }

    method SetState(s: State)
      modifies `currentState, `history
      ensures currentState == s && history == old(history) + [s]
    {
      currentState := s;
      history := history + [s];
    }

    method SendGoal(rollback: bool, t: State) returns (succeeded: bool)
      modifies `goals
      ensures goals == old(goals) + 1 && succeeded == report(old(goals), rollback, t)
    {
      succeeded := report(goals, rollback, t);
      goals := goals + 1;
    }

    function Snapshot(): Machine
      reads this
    {
      Machine(currentState, currentMode, goals, history)
    }

    /** The loop of changeState, from a found entry. Only a transition with a rollback may fail. It sends one
        or two goals. */
    method RunTransition(to: State, e: Entry)
      requires TransitionMap(currentState, to) == Some(e)
      requires e.abort.None? ==> report(goals, false, e.transition)
      modifies `currentState, `history, `goals
      ensures history == old(history) + Passage(report, old(goals), old(currentState), to)
      ensures currentState == Landing(report, old(goals), old(currentState), to)
      ensures goals == old(goals) + Sent(report, old(goals), old(currentState), to)
    {
      var from := currentState;
      SetState(e.transition);
      var client := e.transition;
      ghost var phase := 0;
      while IsTransitionState(currentState)
        invariant phase == 0 ==>
          && currentState == client == e.transition && goals == old(goals)
          && history == old(history) + [e.transition]
        invariant phase == 1 ==>
          && e.abort == Some(client) && currentState == client && goals == old(goals) + 1
          && history == old(history) + [e.transition, client] && !report(old(goals), false, e.transition)
        invariant phase == 2 ==>
          && currentState == Landing(report, old(goals), from, to)
          && goals == old(goals) + Sent(report, old(goals), from, to)
          && history == old(history) + Passage(report, old(goals), from, to)
        invariant 0 <= phase <= 2
        decreases 2 - phase
      {
        var succeeded := SendGoal(currentState != e.transition, client);
        if currentState == e.transition {
          if succeeded {
            SetState(to);
            phase := 2;
          } else {
            SetState(e.abort.value);
            client := e.abort.value;
            phase := 1;
          }
        } else {
          // the rollback goal: the source returns to the first state whatever it reports
          SetState(from);
          phase := 2;
        }
      }
    }

    method ChangeState(newState: State) returns (r: bool)
      requires LoweringSucceeds(report) && Stable(currentState)
      modifies `currentState, `history, `goals
      ensures Snapshot() == Exec(report, modes, old(Snapshot()), GoTo(newState))
      ensures r == (Possible(old(currentState), newState, currentMode) && currentState == newState)
      decreases if Rank(newState) < Rank(currentState) then 2 * Rank(currentState) - 1 else 2 * Rank(newState) + 1
    {
      var e := TransitionMap(currentState, newState);
      if e.None? {
        return false;
      }
      var possible := StatePossibleInMode(e.value.transition, currentMode);
      if !possible {
        return false;
      }
      RunTransition(newState, e.value);
      ForceToAllowedState();
      return currentState == newState;
    }

    /** In E_STOP the loop does not terminate from above Safe (EStopForcingIsStuck). */
    method ForceToAllowedState()
      requires LoweringSucceeds(report)
      requires Stable(currentState) && (currentMode == EStop ==> currentState == Safe)
      modifies `currentState, `history, `goals
      ensures Snapshot() == ForceDown(old(Snapshot()))
      decreases 2 * Rank(currentState)
    {
      while true
        invariant Stable(currentState) && (currentMode == EStop ==> currentState == Safe)
        invariant Rank(currentState) <= Rank(old(currentState))
        invariant ForceDown(Snapshot()) == ForceDown(old(Snapshot()))
        decreases Rank(currentState)
      {
        var possible := StatePossibleInMode(currentState, currentMode);
        if possible {
          assert history + [] == history;
          break;
        }
        ghost var was := Snapshot();
        match currentState
        case Normal =>
          var r := ChangeState(Standby);
          LoweredOnce(report, modes, was, Standby);
        case Standby =>
          var r := ChangeState(Safe);
          LoweredOnce(report, modes, was, Safe);
        case _ =>
      }
    }

    method ChangeMode(newMode: Mode) returns (r: bool)
      requires LoweringSucceeds(report) && Stable(currentState)
      requires newMode == EStop && newMode in modes ==> currentState == Safe
      modifies this
      ensures modes == old(modes) && Snapshot() == Exec(report, modes, old(Snapshot()), SetMode(newMode))
      ensures r == (newMode in modes)
    {
      r := false;
      for i := 0 to |modes|
        invariant modes == old(modes) && Snapshot() == old(Snapshot())
        invariant r == (newMode in modes[..i])
      {
        if modes[i] == newMode {
          r := true;
        }
        assert modes[..i + 1] == modes[..i] + [modes[i]];
      }
      assert modes[..|modes|] == modes;
      if !r {
        return;
      }
      currentMode := newMode;
      ForceToAllowedState();
    }
  }

  /** One round of the forcing loop, and what the recursive call does inside it, leave the same to do. */
  lemma LoweredOnce(report: Oracle, modes: seq<Mode>, st: Machine, lower: State)
    requires LoweringSucceeds(report) && st.mode != EStop && !Allowed(st.state, st.mode)
    requires (st.state, lower) in {(Normal, Standby), (Standby, Safe)}
    ensures ForceDown(Exec(report, modes, st, GoTo(lower))) == ForceDown(st)
    ensures Rank(Exec(report, modes, st, GoTo(lower)).state) < Rank(st.state)
  {
    var t := TransitionMap(st.state, lower).value.transition;
    assert report(st.goals, false, t);
    assert Allowed(t, st.mode);
    var next := Exec(report, modes, st, GoTo(lower));
    var f := Forced(lower, st.mode);
    assert Forced(st.state, st.mode) == [t, lower] + f;
    assert next.history == st.history + [t, lower] + f;
    assert st.history + ([t, lower] + f) == st.history + [t, lower] + f;
    assert Allowed(next.state, st.mode);
    assert next.history + [] == next.history;
    assert |f| % 2 == 0 by {
      ForcedInPairs(lower, st.mode);
    }
  }

  lemma {:induction false} ForcedInPairs(s: State, m: Mode)
    ensures |Forced(s, m)| % 2 == 0
    decreases Rank(s)
  {
    if !Allowed(s, m) && s == Normal {
      ForcedInPairs(Standby, m);
    } else if !Allowed(s, m) && s == Standby {
      ForcedInPairs(Safe, m);
    }
  }

  // ------------------------------------------------------------ properties of one call

  /** From a stable state that the mode allows, changeState sends at most two goals, enters only states that the
      mode allows, comes back to its source when the transition fails, ends stable and allowed, and reaches
      the requested state exactly when the transition succeeds. */
  lemma ChangeStateIsLegal(report: Oracle, modes: seq<Mode>, st: Machine, to: State)
    requires LoweringSucceeds(report) && Stable(st.state) && Allowed(st.state, st.mode)
    ensures var after := Exec(report, modes, st, GoTo(to));
      && Stable(after.state) && Allowed(after.state, after.mode) && after.mode == st.mode
      && st.history <= after.history
      && (forall i | |st.history| <= i < |after.history| :: Allowed(after.history[i], st.mode))
      && after.goals <= st.goals + 2
      && (if Possible(st.state, to, st.mode) && report(st.goals, false, TransitionMap(st.state, to).value.transition)
          then after.state == to && to != st.state
          else after.state == st.state)
  {
    if Possible(st.state, to, st.mode) {
      var p := Passage(report, st.goals, st.state, to);
      var l := Landing(report, st.goals, st.state, to);
      assert Allowed(l, st.mode);
      assert st.history + p + [] == st.history + p;
      assert forall s | s in p :: Allowed(s, st.mode);
    }
  }

  /** The states entered on the way down. */
  function Descent(from: State, to: State): seq<State> {
    (if Rank(to) < 2 <= Rank(from) then [Stop, Standby] else []) +
    (if Rank(to) < 1 <= Rank(from) then [Shutdown, Safe] else [])
  }

  /** changeMode leaves the highest stable state that the new mode allows and that is not above the old one. It gets
      there one step down after the other, with one goal for each. A mode that is not among the supported ones
      changes nothing. */
  lemma ChangeModeIsCanonical(report: Oracle, modes: seq<Mode>, st: Machine, m: Mode)
    requires Stable(st.state) && (m in modes && m == EStop ==> st.state == Safe)
    ensures var after := Exec(report, modes, st, SetMode(m));
      if m !in modes then after == st
      else
        && after.mode == m && Stable(after.state) && Allowed(after.state, m) && Rank(after.state) <= Rank(st.state)
        && (forall t :: Stable(t) && Allowed(t, m) && Rank(t) <= Rank(st.state) ==> Rank(t) <= Rank(after.state))
        && after.history == st.history + Descent(st.state, after.state)
        && after.goals == st.goals + Rank(st.state) - Rank(after.state)
        && (forall t | t in Descent(st.state, after.state) :: IsTransitionState(t) ==> Allowed(t, m))
  {
    if m in modes {
      CanonicalIsHighest(st.state, m);
      ForcedIsDescent(st.state, m);
    }
  }

  lemma ForcedIsDescent(s: State, m: Mode)
    requires Stable(s) && (m == EStop ==> s == Safe)
    ensures var d := Descent(s, Canonical(s, m));
      && Forced(s, m) == d && |d| / 2 == Rank(s) - Rank(Canonical(s, m))
      && forall t | t in d :: IsTransitionState(t) ==> Allowed(t, m)
  {
    AllowedIff(Safe, m);
    AllowedIff(Standby, m);
    AllowedIff(Normal, m);
    var c := Canonical(s, m);
    DescentIs(s, c);
    if s == Normal && c != Normal {
      assert Forced(Standby, m) == Descent(Standby, c) by {
        DescentIs(Standby, c);
        assert c == Safe ==> Forced(Safe, m) == [];
      }
    }
  }

  lemma DescentIs(s: State, c: State)
    requires Stable(s) && Stable(c) && Rank(c) <= Rank(s)
    ensures Descent(s, c) ==
            if s == c then [] else if c == Standby then [Stop, Standby]
            else if s == Standby then [Shutdown, Safe] else [Stop, Standby] + [Shutdown, Safe]
  {
    assert [Stop, Standby] + [] == [Stop, Standby] && [] + [Shutdown, Safe] == [Shutdown, Safe];
  }

  // ------------------------------------------------------------ the transitions

  /** The transition from one stable state to the next. */
  function Through(from: State, to: State): State {
    if Rank(to) > Rank(from) then (if from == Safe then Setup else Start)
    else if from == Normal then Stop
    else Shutdown
  }

  predicate Adjacent(from: State, to: State) {
    Stable(from) && Stable(to) && (Rank(to) == Rank(from) + 1 || Rank(from) == Rank(to) + 1)
  }

  /** changeState goes from a stable state to the next one above or below, when the mode allows the transition
      state between them, and makes no other change at all. It gets there if and only if the goal succeeds; a
      failed setup or start is undone by the shutdown or stop that leads back. */
  lemma ChangeStateSteps(report: Oracle, modes: seq<Mode>, st: Machine, to: State)
    requires LoweringSucceeds(report) && Legal(st)
    ensures var after := Exec(report, modes, st, GoTo(to));
      var t := Through(st.state, to);
      if !Adjacent(st.state, to) || !Allowed(t, st.mode) then after == st
      else if report(st.goals, false, t) then
        after == Machine(to, st.mode, st.goals + 1, st.history + [t, to])
      else
        && Rank(to) > Rank(st.state)
        && after == Machine(st.state, st.mode, st.goals + 2, st.history + [t, Through(to, st.state), st.state])
  {
    var t := Through(st.state, to);
    if Adjacent(st.state, to) && Allowed(t, st.mode) {
      var p := if report(st.goals, false, t) then [t, to] else [t, Through(to, st.state), st.state];
      assert st.history + p + [] == st.history + p;
    }
  }

  /** The answer of changeState. */
  lemma PossibleIff(from: State, to: State, m: Mode)
    ensures Possible(from, to, m) <==> Adjacent(from, to) && Allowed(Through(from, to), m)
  {
  }

  /** The highest stable state of a mode. */
  function Top(m: Mode): nat {
    if m in {ModeNormal, Service, Step, Lock} then 2 else if m == Error then 1 else 0
  }

  /** In which modes each stable and each transition state is allowed. */
  lemma AllowedIff(s: State, m: Mode)
    ensures Stable(s) ==> (Allowed(s, m) <==> Rank(s) <= Top(m))
    ensures Allowed(Setup, m) <==> m in {ModeNormal, Service, Step, Error}
    ensures Allowed(Start, m) <==> m in {ModeNormal, Service, Step}
    ensures Allowed(Shutdown, m) <==> m !in {EStop, Lock}
    ensures Allowed(Stop, m) <==> m != EStop
    ensures !Allowed(NoState, m)
  {
  }

  function Commanded(report: Oracle, modes: seq<Mode>, st: Machine, targets: seq<State>): Machine
    requires LoweringSucceeds(report) && Legal(st)
    decreases |targets|
  {
    if targets == [] then st
    else
      ChangeStateIsLegal(report, modes, st, targets[0]);
      Commanded(report, modes, Exec(report, modes, st, GoTo(targets[0])), targets[1..])
  }

  ghost predicate Reaches(report: Oracle, modes: seq<Mode>, st: Machine, to: State)
    requires LoweringSucceeds(report) && Legal(st)
  {
    exists targets :: Commanded(report, modes, st, targets).state == to
  }

  /** Where the machine can go without changing the mode: up to the top of the mode and back down, except that
      Lock only leads from Normal to Standby. */
  predicate Reachable(from: State, to: State, m: Mode) {
    to == from || (Stable(to) && if m == Lock then from == Normal && to == Standby else Rank(to) <= Top(m))
  }

  /** With goals that succeed, commands lead exactly there: in the modes normal, service and step every stable
      state is reached from every other, in error Safe and Standby from each other. */
  lemma ReachesIff(report: Oracle, modes: seq<Mode>, st: Machine, to: State)
    requires Legal(st) && forall n, r, t :: report(n, r, t)
    ensures Reaches(report, modes, st, to) <==> Reachable(st.state, to, st.mode)
  {
    if Reachable(st.state, to, st.mode) {
      var targets := Route(st.state, to);
      RouteLeads(report, modes, st, to);
      assert Commanded(report, modes, st, targets).state == to;
    }
    forall targets
      ensures Reachable(st.state, Commanded(report, modes, st, targets).state, st.mode)
    {
      StaysReachable(report, modes, st, targets);
    }
  }

  function Route(from: State, to: State): seq<State> {
    if from == to then [] else if Adjacent(from, to) then [to] else [Standby, to]
  }

  lemma RouteLeads(report: Oracle, modes: seq<Mode>, st: Machine, to: State)
    requires Legal(st) && (forall n, r, t :: report(n, r, t)) && Reachable(st.state, to, st.mode)
    ensures Commanded(report, modes, st, Route(st.state, to)).state == to
  {
    if Adjacent(st.state, to) {
      var next := Upwards(report, modes, st, to);
      CommandedOneMore(report, modes, st, to, []);
    } else if st.state != to {
      var next := Upwards(report, modes, st, Standby);
      var last := Upwards(report, modes, next, to);
      CommandedOneMore(report, modes, st, Standby, [to]);
      CommandedOneMore(report, modes, next, to, []);
    }
  }

  /** One step on the way. */
  lemma Upwards(report: Oracle, modes: seq<Mode>, st: Machine, to: State) returns (next: Machine)
    requires Legal(st) && (forall n, r, t :: report(n, r, t))
    requires Adjacent(st.state, to) && Reachable(st.state, to, st.mode)
    ensures next == Exec(report, modes, st, GoTo(to)) && next.state == to && next.mode == st.mode && Legal(next)
  {
    next := Exec(report, modes, st, GoTo(to));
    AllowedIff(st.state, st.mode);
    ChangeStateSteps(report, modes, st, to);
    ChangeStateIsLegal(report, modes, st, to);
  }

  lemma CommandedOneMore(report: Oracle, modes: seq<Mode>, st: Machine, to: State, targets: seq<State>)
    requires LoweringSucceeds(report) && Legal(st) && Legal(Exec(report, modes, st, GoTo(to)))
    ensures Commanded(report, modes, st, [to] + targets) ==
            Commanded(report, modes, Exec(report, modes, st, GoTo(to)), targets)
  {
    assert ([to] + targets)[1..] == targets;
  }

  lemma {:induction false} StaysReachable(report: Oracle, modes: seq<Mode>, st: Machine, targets: seq<State>)
    requires Legal(st) && forall n, r, t :: report(n, r, t)
    ensures Reachable(st.state, Commanded(report, modes, st, targets).state, st.mode)
    decreases |targets|
  {
    if targets != [] {
      var next := Exec(report, modes, st, GoTo(targets[0]));
      ChangeStateIsLegal(report, modes, st, targets[0]);
      ChangeStateSteps(report, modes, st, targets[0]);
      AllowedIff(st.state, st.mode);
      AllowedIff(next.state, st.mode);
      StaysReachable(report, modes, next, targets[1..]);
    }
  }

  // ------------------------------------------------------------ termination of the forcing loop

  /** What one round of the forcing loop makes of the state (RoundIsChangeState). */
  function ForcingRound(s: State, m: Mode): State {
    match s
    case Normal => if Allowed(Stop, m) then Canonical(Standby, m) else s
    case Standby => if Allowed(Shutdown, m) then Canonical(Safe, m) else s
    case _ => s
  }

  /** One round of the loop is the call of changeState that its switch makes; another state has no case. */
  lemma RoundIsChangeState(report: Oracle, modes: seq<Mode>, st: Machine, lower: State)
    requires LoweringSucceeds(report) && (st.state, lower) in {(Normal, Standby), (Standby, Safe)}
    ensures ForcingRound(st.state, st.mode) == Exec(report, modes, st, GoTo(lower)).state
  {
    var t := TransitionMap(st.state, lower).value.transition;
    assert report(st.goals, false, t);
  }

  function Rounds(s: State, m: Mode, n: nat): State
    decreases n
  {
    if n == 0 then s else Rounds(ForcingRound(s, m), m, n - 1)
  }

  predicate EndsAfter(s: State, m: Mode, n: nat) {
    Allowed(Rounds(s, m, n), m)
  }

  /** The loop comes to an end for every stable state and every mode, except above Safe in E_STOP, where stop
      and shutdown are refused and nothing changes from one round to the next. */
  lemma ForcingTerminates(s: State, m: Mode)
    requires Stable(s)
    ensures (exists n: nat :: EndsAfter(s, m, n)) <==> (m == EStop ==> s == Safe)
  {
    if m == EStop && s != Safe {
      forall n: nat
        ensures !EndsAfter(s, m, n)
      {
        EStopForcingIsStuck(s, n);
      }
    } else if Allowed(s, m) {
      assert EndsAfter(s, m, 0);
    } else {
      assert Rounds(s, m, 1) == Rounds(ForcingRound(s, m), m, 0);
      assert EndsAfter(s, m, 1);
    }
  }

  lemma {:induction false} EStopForcingIsStuck(s: State, n: nat)
    requires s == Normal || s == Standby
    ensures Rounds(s, EStop, n) == s && !Allowed(s, EStop)
  {
    if n > 0 {
      EStopForcingIsStuck(s, n - 1);
    }
  }

  // ------------------------------------------------------------ whole runs

  /** E_STOP is only entered from Safe. */
  ghost predicate Calm(report: Oracle, modes: seq<Mode>, st: Machine, cmd: Command)
    requires Stable(st.state)
  {
    cmd == SetMode(EStop) && EStop in modes ==> st.state == Safe
  }

  ghost predicate Legal(st: Machine) {
    Stable(st.state) && Allowed(st.state, st.mode)
  }

  /** The machines of a run: sts[i + 1] is what the i-th command makes of sts[i]. */
  ghost predicate IsRun(report: Oracle, modes: seq<Mode>, sts: seq<Machine>, cmds: seq<Command>) {
    && |sts| == |cmds| + 1
    && sts[0] == Machine(Safe, ModeNormal, 0, [])
    && forall i | 0 <= i < |cmds| ::
         Stable(sts[i].state) ==>
            Calm(report, modes, sts[i], cmds[i]) && sts[i + 1] == Exec(report, modes, sts[i], cmds[i])
  }

  /** In every run of state and mode changes the machine rests in a stable state that its mode allows. */
  lemma {:induction false} RunStaysLegal(report: Oracle, modes: seq<Mode>, sts: seq<Machine>,
                                         cmds: seq<Command>, k: nat)
    requires LoweringSucceeds(report) && IsRun(report, modes, sts, cmds) && k < |sts|
    ensures Legal(sts[k])
  {
    if k > 0 {
      RunStaysLegal(report, modes, sts, cmds, k - 1);
      match cmds[k - 1]
      case GoTo(to) => ChangeStateIsLegal(report, modes, sts[k - 1], to);
      case SetMode(m) =>
        ChangeModeIsCanonical(report, modes, sts[k - 1], m);
    }
  }
}
