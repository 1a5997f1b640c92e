/** Every schedule of the smokers: no signal is lost, the right smoker is woken in each round,
    nobody is ever stuck, and the agent's final assertions hold. */
module SmokersProofs {
  import opened Bits
  import opened Smokers

  /** How far the current round is. "Both", "One", "Due" and "Back" are the moments at which nobody holds the mutex. */
  datatype Phase =
    | AgentAt(pc: Pc)               // Loop, Next or Unlock; everybody else is parked
    | Offering(r: Resource)         // the agent is about to signal r, if r belongs to its choice
    | Offered                       // the agent is about to wait
    | Both                          // both listeners are woken
    | First(r: Resource, pc: Pc)    // the listener of r runs first
    | One(r: Resource)              // the listener of r still has to run
    | Second(r: Resource, pc: Pc)   // it runs
    | Due                           // the smoker is woken
    | Smoking(pc: Pc)               // the smoker runs
    | Back                          // the agent is woken
    | Over                          // the agent has returned

  ghost predicate LegalPhase(ph: Phase, z: Resource)
  {
    match ph
    case AgentAt(pc) => pc in {Loop, Next, Unlock}
    case First(r, pc) => r != z && pc in {Add, Test, AwaitResource}
    case One(r) => r != z
    case Second(r, pc) => r != z && pc in {Add, Test, SignalSmoker(z), Reset, AwaitResource}
    case Smoking(pc) => pc in {SignalAgent, CountSmoke, AwaitPair}
    case _ => true
  }

  /** The smoker whose resource completes the agent's choice. */
  function DueSmoker(s: State): Resource
    requires s.choice < 3
  {
    MATCHING_SMOKER[s.choice]
  }

  function AgentStatus(ph: Phase): Status
  {
    match ph
    case AgentAt(pc) => Running(pc)
    case Offering(r) => Running(SignalResource(r))
    case Offered => Running(AwaitSmoke)
    case Smoking(pc) => if pc == SignalAgent then Waiting(Smoke) else Woken
    case Back => Woken
    case Over => Exited
    case _ => Waiting(Smoke)
  }

  function ListenerStatus(ph: Phase, z: Resource, q: Resource): Status
  {
    var parked := Waiting(Available(q));
    if q == z then parked else
    match ph
    case Offering(r) => if Value(q) < Value(r) then Woken else parked
    case Offered => Woken
    case Both => Woken
    case First(r, pc) => if q == r then Running(pc) else Woken
    case One(r) => if q == r then Woken else parked
    case Second(r, pc) => if q == r then Running(pc) else parked
    case _ => parked
  }

  function SmokerStatus(ph: Phase, z: Resource, q: Resource): Status
  {
    var parked := Waiting(PairFor(q));
    if q != z then parked else
    match ph
    case Second(_, pc) => if pc in {Reset, AwaitResource} then Woken else parked
    case Due => Woken
    case Smoking(pc) => Running(pc)
    case _ => parked
  }

  function Holder(ph: Phase, z: Resource): set<Thread>
  {
    match ph
    case AgentAt(_) => {Agent}
    case Offering(_) => {Agent}
    case Offered => {Agent}
    case First(r, _) => {Listener(r)}
    case Second(r, _) => {Listener(r)}
    case Smoking(_) => {Smoker(z)}
    case _ => {}
  }

  /** What the listeners have collected. */
  function Table(ph: Phase, z: Resource): int
  {
    match ph
    case First(r, pc) => if pc == Add then 0 else Value(r)
    case One(r) => 7 - Value(z) - Value(r)
    case Second(r, pc) =>
      if pc == Add then 7 - Value(z) - Value(r) else if pc == AwaitResource then 0 else 7 - Value(z)
    case _ => 0
  }

  /** Whether the agent has announced a smoke that is not counted yet. */
  predicate Announced(ph: Phase)
  {
    match ph
    case AgentAt(_) => false
    case Smoking(pc) => pc != AwaitPair
    case Back => false
    case Over => false
    case _ => true
  }

  function Rounds(s: State): int
    requires WellFormed(s)
  {
    s.smokes[Match] + s.smokes[Paper] + s.smokes[Tobacco]
  }

  /** The state is at this point of the protocol: every thread, the mutex, the table and the counters. */
  ghost predicate At(n: nat, s: State, ph: Phase)
  {
    && WellFormed(s) && LegalPhase(ph, DueSmoker(s))
    && var z := DueSmoker(s);
       && s.st[Agent] == AgentStatus(ph)
       && (forall q: Resource :: s.st[Listener(q)] == ListenerStatus(ph, z, q))
       && (forall q: Resource :: s.st[Smoker(q)] == SmokerStatus(ph, z, q))
       && s.owner == Holder(ph, z)
       && s.sum == Table(ph, z)
       && (forall q: Resource :: s.signals[q] == s.smokes[q] + if Announced(ph) && q == z then 1 else 0)
       && Rounds(s) == s.i + (if ph == AgentAt(Next) || ph == Back || ph == Smoking(AwaitPair) then 1 else 0)
       && (if ph in {AgentAt(Unlock), Over} then s.i == n else if ph == AgentAt(Loop) then s.i <= n else s.i < n)
  }

  /** Steps left in this round. */
  function StepsLeft(ph: Phase): nat
  {
    match ph
    case AgentAt(pc) => if pc == Next then 1 else if pc == Loop then 2 else 1
    case Offering(r) => (match r case Match => 20 case Paper => 19 case Tobacco => 18)
    case Offered => 17
    case Both => 16
    case First(_, pc) => if pc == Add then 15 else if pc == Test then 14 else 13
    case One(_) => 12
    case Second(_, pc) =>
      (match pc case Add => 11 case Test => 10 case SignalSmoker(_) => 9 case Reset => 8 case _ => 7)
    case Due => 6
    case Smoking(pc) => (match pc case SignalAgent => 5 case CountSmoke => 4 case _ => 3)
    case Back => 2
    case Over => 0
  }

  /** Steps left in the whole run. */
  function Rank(n: nat, s: State, ph: Phase): int
  {
    if ph == AgentAt(Loop) then 21 * (n - s.i) + 2
    else if ph == AgentAt(Unlock) then 1
    else if ph == Over then 0
    else 21 * (n - s.i - 1) + 2 + StepsLeft(ph)
  }

  // ---- signals ----

  /** A signal on a condition variable at which its only possible waiter waits wakes that waiter. */
  lemma SignalWakes(s: State, t: Thread, s': State)
    requires WellFormed(s) && (forall u: Thread, c | s.st[u] == Waiting(c) :: c == Home(u))
    requires s.st[t] == Waiting(Home(t)) && Signal(s, Home(t), s')
    ensures s' == s.(st := s.st[t := Woken])
  {
    assert exists u :: s.st[u] == Waiting(Home(t));
    var u :| s.st[u] == Waiting(Home(t)) && s' == s.(st := s.st[u := Woken]);
    assert Home(u) == Home(t);
  }

  // ---- one step ----

  function Third(r: Resource, z: Resource): Resource
  {
    if r != Match && z != Match then Match else if r != Paper && z != Paper then Paper else Tobacco
  }

  /** The protocol's own order of events: the phase after thread t's step. Only "Both" leaves a choice. */
  function NextPhase(n: nat, s: State, ph: Phase, t: Thread): Phase
    requires WellFormed(s)
  {
    match ph
    case AgentAt(Loop) => if s.i < n then Offering(Match) else AgentAt(Unlock)
    case AgentAt(Next) => AgentAt(Loop)
    case AgentAt(_) => Over
    case Offering(Match) => Offering(Paper)
    case Offering(Paper) => Offering(Tobacco)
    case Offering(Tobacco) => Offered
    case Offered => Both
    case Both => if t.Listener? then First(t.r, Add) else ph
    case First(r, Add) => First(r, Test)
    case First(r, Test) => First(r, AwaitResource)
    case First(r, _) => One(Third(r, DueSmoker(s)))
    case One(r) => Second(r, Add)
    case Second(r, Add) => Second(r, Test)
    case Second(r, Test) => Second(r, SignalSmoker(DueSmoker(s)))
    case Second(r, SignalSmoker(_)) => Second(r, Reset)
    case Second(r, Reset) => Second(r, AwaitResource)
    case Second(_, _) => Due
    case Due => Smoking(SignalAgent)
    case Smoking(SignalAgent) => Smoking(CountSmoke)
    case Smoking(CountSmoke) => Smoking(AwaitPair)
    case Smoking(_) => Back
    case Back => AgentAt(Next)
    case Over => Over
  }

  ghost predicate Advances(n: nat, s: State, ph: Phase, t: Thread, s': State)
    requires WellFormed(s)
  {
    && At(n, s', NextPhase(n, s, ph, t))
    && s'.i == s.i + if ph == AgentAt(Next) then 1 else 0
  }

  lemma WaitersAreAtHome(n: nat, s: State, ph: Phase)
    requires At(n, s, ph)
    ensures forall u: Thread, c | s.st[u] == Waiting(c) :: c == Home(u)
  {
    forall u: Thread, c | s.st[u] == Waiting(c) ensures c == Home(u) {
      match u case Agent => case Listener(q) => case Smoker(q) =>
    }
  }

  /** The agent's bit tests pick exactly the two resources that the due smoker lacks. */
  lemma ChoiceBits(x: nat, r: Resource)
    requires x < 3
    ensures And(CHOICES[x], Value(r)) != 0 <==> r != MATCHING_SMOKER[x]
  {
    ResourceBits();
    hide And;
  }

  lemma ResourceBits()
    ensures And(3, 1) == 1 && And(3, 2) == 2 && And(3, 4) == 0
    ensures And(5, 1) == 1 && And(5, 2) == 0 && And(5, 4) == 4
    ensures And(6, 1) == 0 && And(6, 2) == 2 && And(6, 4) == 4
  {
    assert And(1, 1) == 1 && And(1, 2) == 0 && And(2, 1) == 0;
  }

  /** Only the holder of the mutex, or a woken thread while the mutex is free, can step. */
  lemma WhoSteps(n: nat, s: State, ph: Phase, t: Thread, s': State)
    requires At(n, s, ph) && Step(n, s, t, s')
    ensures match ph
            case Both => t.Listener? && t.r != DueSmoker(s)
            case One(r) => t == Listener(r)
            case Due => t == Smoker(DueSmoker(s))
            case Back => t == Agent
            case Over => false
            case _ => Holder(ph, DueSmoker(s)) == {t}
  {
    hide And, Signal, AgentStep, ListenerStep, SmokerStep;
    match t {
      case Agent =>
      case Listener(q) => assert s.st[t] == ListenerStatus(ph, DueSmoker(s), q);
      case Smoker(q) => assert s.st[t] == SmokerStatus(ph, DueSmoker(s), q);
    }
  }

  lemma FromLoop(n: nat, s: State, s': State)
    requires At(n, s, AgentAt(Loop)) && Step(n, s, Agent, s')
    ensures Advances(n, s, AgentAt(Loop), Agent, s')
  {
    hide And, Signal, ListenerStep, SmokerStep;
  }

  lemma FromNext(n: nat, s: State, s': State)
    requires At(n, s, AgentAt(Next)) && Step(n, s, Agent, s')
    ensures Advances(n, s, AgentAt(Next), Agent, s')
  {
    hide And, Signal, ListenerStep, SmokerStep;
  }

  lemma FromUnlock(n: nat, s: State, s': State)
    requires At(n, s, AgentAt(Unlock)) && Step(n, s, Agent, s')
    ensures Advances(n, s, AgentAt(Unlock), Agent, s')
  {
    hide And, Signal, ListenerStep, SmokerStep;
  }

  lemma FromOffering(n: nat, s: State, r: Resource, s': State)
    requires At(n, s, Offering(r)) && Step(n, s, Agent, s')
    ensures Advances(n, s, Offering(r), Agent, s')
  {
    var moved := Goto(s, Agent, AfterResource(r));
    assert s' == if r == DueSmoker(s) then moved else moved.(st := moved.st[Listener(r) := Woken]) by {
      ChoiceBits(s.choice, r);
      if r != DueSmoker(s) {
        WaitersAreAtHome(n, s, Offering(r));
        SignalWakes(moved, Listener(r), s');
      }
    }
    Offers(n, s, r, s');
  }

  lemma Offers(n: nat, s: State, r: Resource, s': State)
    requires At(n, s, Offering(r))
    requires var moved := s.st[Agent := Running(AfterResource(r))];
             s' == s.(st := if r == DueSmoker(s) then moved else moved[Listener(r) := Woken])
    ensures Advances(n, s, Offering(r), Agent, s')
  {
    hide And, Signal, Step;
  }

  /** A woken thread gets the mutex. */
  lemma FromBoth(n: nat, s: State, q: Resource, s': State)
    requires At(n, s, Both) && Step(n, s, Listener(q), s') && q != DueSmoker(s)
    ensures Advances(n, s, Both, Listener(q), s')
  {
    hide And, Signal, AgentStep, ListenerStep, SmokerStep;
  }

  lemma FromOne(n: nat, s: State, r: Resource, s': State)
    requires At(n, s, One(r)) && Step(n, s, Listener(r), s')
    ensures Advances(n, s, One(r), Listener(r), s')
  {
    hide And, Signal, AgentStep, ListenerStep, SmokerStep, Advances;
    assert s.st[Listener(r)] == Woken;
    ListenerResumes(n, s, r, s');
  }

  lemma ListenerResumes(n: nat, s: State, r: Resource, s': State)
    requires At(n, s, One(r)) && s' == s.(st := s.st[Listener(r) := Running(Add)], owner := {Listener(r)})
    ensures Advances(n, s, One(r), Listener(r), s')
  {
    hide And, Signal, Step;
  }

  lemma FromDue(n: nat, s: State, s': State)
    requires At(n, s, Due) && Step(n, s, Smoker(DueSmoker(s)), s')
    ensures Advances(n, s, Due, Smoker(DueSmoker(s)), s')
  {
    hide And, Signal, AgentStep, ListenerStep, SmokerStep;
  }

  lemma FromBack(n: nat, s: State, s': State)
    requires At(n, s, Back) && Step(n, s, Agent, s')
    ensures Advances(n, s, Back, Agent, s')
  {
    hide And, Signal, AgentStep, ListenerStep, SmokerStep;
  }

  lemma FromOffered(n: nat, s: State, s': State)
    requires At(n, s, Offered) && Step(n, s, Agent, s')
    ensures Advances(n, s, Offered, Agent, s')
  {
    hide And, Signal, ListenerStep, SmokerStep;
  }

  lemma FromFirstAdd(n: nat, s: State, r: Resource, s': State)
    requires At(n, s, First(r, Add)) && Step(n, s, Listener(r), s')
    ensures Advances(n, s, First(r, Add), Listener(r), s')
  {
    hide And, Signal, AgentStep, SmokerStep;
    assert s.st[Listener(r)] == Running(Add);
  }

  lemma FromFirstTest(n: nat, s: State, r: Resource, s': State)
    requires At(n, s, First(r, Test)) && Step(n, s, Listener(r), s')
    ensures Advances(n, s, First(r, Test), Listener(r), s')
  {
    hide And, Signal, AgentStep, SmokerStep;
    assert s.st[Listener(r)] == Running(Test);
  }

  lemma FromAdd(n: nat, s: State, r: Resource, s': State)
    requires At(n, s, Second(r, Add)) && Step(n, s, Listener(r), s')
    ensures Advances(n, s, Second(r, Add), Listener(r), s')
  {
    hide And, Signal, AgentStep, SmokerStep;
    assert s.st[Listener(r)] == Running(Add);
  }

  /** The second listener finds the pair complete and turns to the smoker that lacks it. */
  lemma FromTest(n: nat, s: State, r: Resource, s': State)
    requires At(n, s, Second(r, Test)) && Step(n, s, Listener(r), s')
    ensures Advances(n, s, Second(r, Test), Listener(r), s')
  {
    hide And, Signal, AgentStep, SmokerStep;
    assert s' == Goto(s, Listener(r), SignalSmoker(DueSmoker(s))) by {
      assert s.st[Listener(r)] == Running(Test);
      assert s.sum == 7 - Value(DueSmoker(s));
    }
  }

  lemma FromSignalSmoker(n: nat, s: State, r: Resource, pc: Pc, s': State)
    requires At(n, s, Second(r, pc)) && pc.SignalSmoker? && Step(n, s, Listener(r), s')
    ensures Advances(n, s, Second(r, pc), Listener(r), s')
  {
    hide And, Signal, AgentStep, SmokerStep, Advances;
    assert s.st[Listener(r)] == Running(pc);
    WaitersAreAtHome(n, s, Second(r, pc));
    SignalWakes(Goto(s, Listener(r), Reset), Smoker(DueSmoker(s)), s');
    SmokerWoken(n, s, r, pc, s');
  }

  lemma SmokerWoken(n: nat, s: State, r: Resource, pc: Pc, s': State)
    requires At(n, s, Second(r, pc)) && pc.SignalSmoker?
    requires s' == s.(st := s.st[Listener(r) := Running(Reset)][Smoker(DueSmoker(s)) := Woken])
    ensures Advances(n, s, Second(r, pc), Listener(r), s')
  {
    hide And, Signal, Step;
  }

  lemma FromReset(n: nat, s: State, r: Resource, s': State)
    requires At(n, s, Second(r, Reset)) && Step(n, s, Listener(r), s')
    ensures Advances(n, s, Second(r, Reset), Listener(r), s')
  {
    hide And, Signal, AgentStep, SmokerStep;
    assert s.st[Listener(r)] == Running(Reset);
  }

  lemma FromFirstAwait(n: nat, s: State, r: Resource, s': State)
    requires At(n, s, First(r, AwaitResource)) && Step(n, s, Listener(r), s')
    ensures Advances(n, s, First(r, AwaitResource), Listener(r), s')
  {
    hide And, Signal, AgentStep, SmokerStep;
    assert s.st[Listener(r)] == Running(AwaitResource);
  }

  lemma FromSecondAwait(n: nat, s: State, r: Resource, s': State)
    requires At(n, s, Second(r, AwaitResource)) && Step(n, s, Listener(r), s')
    ensures Advances(n, s, Second(r, AwaitResource), Listener(r), s')
  {
    hide And, Signal, AgentStep, SmokerStep;
    assert s.st[Listener(r)] == Running(AwaitResource);
  }

  lemma FromSignalAgent(n: nat, s: State, s': State)
    requires At(n, s, Smoking(SignalAgent)) && Step(n, s, Smoker(DueSmoker(s)), s')
    ensures Advances(n, s, Smoking(SignalAgent), Smoker(DueSmoker(s)), s')
  {
    hide And, Signal, AgentStep, ListenerStep, Advances;
    var t := Smoker(DueSmoker(s));
    assert s.st[t] == Running(SignalAgent);
    WaitersAreAtHome(n, s, Smoking(SignalAgent));
    SignalWakes(Goto(s, t, CountSmoke), Agent, s');
    AgentWoken(n, s, s');
  }

  lemma AgentWoken(n: nat, s: State, s': State)
    requires At(n, s, Smoking(SignalAgent))
    requires s' == s.(st := s.st[Smoker(DueSmoker(s)) := Running(CountSmoke)][Agent := Woken])
    ensures Advances(n, s, Smoking(SignalAgent), Smoker(DueSmoker(s)), s')
  {
    hide And, Signal, Step;
  }

  lemma FromCountSmoke(n: nat, s: State, s': State)
    requires At(n, s, Smoking(CountSmoke)) && Step(n, s, Smoker(DueSmoker(s)), s')
    ensures Advances(n, s, Smoking(CountSmoke), Smoker(DueSmoker(s)), s')
  {
    hide And, Signal, AgentStep, ListenerStep;
    assert s.st[Smoker(DueSmoker(s))] == Running(CountSmoke);
  }

  lemma FromAwaitPair(n: nat, s: State, s': State)
    requires At(n, s, Smoking(AwaitPair)) && Step(n, s, Smoker(DueSmoker(s)), s')
    ensures Advances(n, s, Smoking(AwaitPair), Smoker(DueSmoker(s)), s')
  {
    hide And, Signal, AgentStep, ListenerStep;
    assert s.st[Smoker(DueSmoker(s))] == Running(AwaitPair);
  }

  lemma ListenerAdvances(n: nat, s: State, ph: Phase, s': State)
    requires (ph.First? || ph.Second?) && At(n, s, ph) && Step(n, s, Listener(ph.r), s')
    ensures Advances(n, s, ph, Listener(ph.r), s')
  {
    hide Step, Advances;
    match ph
    case First(r, Add) => FromFirstAdd(n, s, r, s');
    case First(r, Test) => FromFirstTest(n, s, r, s');
    case First(r, _) => FromFirstAwait(n, s, r, s');
    case Second(r, Add) => FromAdd(n, s, r, s');
    case Second(r, Test) => FromTest(n, s, r, s');
    case Second(r, SignalSmoker(_)) => FromSignalSmoker(n, s, r, ph.pc, s');
    case Second(r, Reset) => FromReset(n, s, r, s');
    case Second(r, _) => FromSecondAwait(n, s, r, s');
    case _ =>
  }

  lemma SmokerAdvances(n: nat, s: State, pc: Pc, s': State)
    requires At(n, s, Smoking(pc)) && Step(n, s, Smoker(DueSmoker(s)), s')
    ensures Advances(n, s, Smoking(pc), Smoker(DueSmoker(s)), s')
  {
    if pc == SignalAgent { FromSignalAgent(n, s, s'); }
    else if pc == CountSmoke { FromCountSmoke(n, s, s'); }
    else { FromAwaitPair(n, s, s'); }
  }

  /** Whatever thread steps, the protocol moves on by one phase and one step of the run is used up. */
  lemma StepAdvances(n: nat, s: State, ph: Phase, t: Thread, s': State)
    requires At(n, s, ph) && Step(n, s, t, s')
    ensures At(n, s', NextPhase(n, s, ph, t))
    ensures Rank(n, s', NextPhase(n, s, ph, t)) == Rank(n, s, ph) - 1
  {
    WhoSteps(n, s, ph, t, s');
    StepAdvancesPhase(n, s, ph, t, s');
    RankDrops(n, s, ph, t, s');
  }

  lemma RankDrops(n: nat, s: State, ph: Phase, t: Thread, s': State)
    requires WellFormed(s) && LegalPhase(ph, DueSmoker(s)) && ph != Over && (ph == Both ==> t.Listener?)
    requires s'.i == s.i + if ph == AgentAt(Next) then 1 else 0
    ensures s.i <= n && (ph == AgentAt(Loop) || ph == AgentAt(Unlock) || s.i < n)
            && (ph == AgentAt(Unlock) ==> s.i == n) ==>
            Rank(n, s', NextPhase(n, s, ph, t)) == Rank(n, s, ph) - 1
  {
  }

  lemma AgentAdvances(n: nat, s: State, pc: Pc, s': State)
    requires At(n, s, AgentAt(pc)) && Step(n, s, Agent, s')
    ensures Advances(n, s, AgentAt(pc), Agent, s')
  {
    hide Step, Advances;
    if pc == Loop { FromLoop(n, s, s'); }
    else if pc == Next { FromNext(n, s, s'); }
    else { FromUnlock(n, s, s'); }
  }

  lemma StepAdvancesPhase(n: nat, s: State, ph: Phase, t: Thread, s': State)
    requires At(n, s, ph) && Step(n, s, t, s')
    ensures Advances(n, s, ph, t, s')
  {
    hide Step, Advances;
    WhoSteps(n, s, ph, t, s');
    match ph
    case AgentAt(pc) => AgentAdvances(n, s, pc, s');
    case Offering(r) => FromOffering(n, s, r, s');
    case Offered => FromOffered(n, s, s');
    case Both => FromBoth(n, s, t.r, s');
    case First(r, pc) => ListenerAdvances(n, s, ph, s');
    case One(r) => FromOne(n, s, r, s');
    case Second(r, pc) => ListenerAdvances(n, s, ph, s');
    case Due => FromDue(n, s, s');
    case Smoking(pc) => SmokerAdvances(n, s, pc, s');
    case Back => FromBack(n, s, s');
    case Over =>
  }
}
