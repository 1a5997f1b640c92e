/** What holds in every run of the smokers, under every schedule and for every number of rounds. */
module SmokersTheorems {
  import opened Bits
  import opened Smokers
  import opened SmokersProofs

  ghost predicate IsRun(n: nat, ss: seq<State>, ts: seq<Thread>)
  {
    && |ss| == |ts| + 1
    && Init(ss[0])
    && forall k, l | 0 <= k < |ts| && l == k + 1 :: Step(n, ss[k], ts[k], ss[l])
  }

  const STEPS_PER_ROUND := 21

  /** After k steps, a run of n rounds is k steps closer to its end. */
  lemma {:induction false} PhaseOf(n: nat, ss: seq<State>, ts: seq<Thread>, k: nat) returns (ph: Phase)
    requires IsRun(n, ss, ts) && k < |ss|
    ensures At(n, ss[k], ph) && Rank(n, ss[k], ph) == STEPS_PER_ROUND * n + 2 - k
  {
    if k == 0 {
      ph := AgentAt(Loop);
    } else {
      var before := PhaseOf(n, ss, ts, k - 1);
      assert Step(n, ss[k - 1], ts[k - 1], ss[k]);
      StepAdvances(n, ss[k - 1], before, ts[k - 1], ss[k]);
      ph := NextPhase(n, ss[k - 1], before, ts[k - 1]);
    }
  }

  /** At most one thread runs, and it is the one that holds the mutex. */
  lemma MutualExclusion(n: nat, ss: seq<State>, ts: seq<Thread>, k: nat)
    requires IsRun(n, ss, ts) && k < |ss|
    ensures forall t :: t in ss[k].st && (ss[k].st[t].Running? <==> t in ss[k].owner)
    ensures |ss[k].owner| <= 1
  {
    var ph := PhaseOf(n, ss, ts, k);
    forall t ensures t in ss[k].st && (ss[k].st[t].Running? <==> t in ss[k].owner) {
      match t case Agent => case Listener(q) => case Smoker(q) =>
    }
  }

  // ---- no signal is lost ----

  datatype Option<+T> = None | Some(value: T)

  /** The condition variable that t's next statement signals. */
  function Signalled(s: State, t: Thread): Option<Cond>
    requires WellFormed(s)
  {
    match s.st[t]
    case Running(SignalResource(r)) => if And(CHOICES[s.choice], Value(r)) != 0 then Some(Available(r)) else None
    case Running(SignalSmoker(r)) => Some(PairFor(r))
    case Running(SignalAgent) => Some(Smoke)
    case _ => None
  }

  /** A condition variable never has two waiters. */
  lemma OneWaiter(n: nat, ss: seq<State>, ts: seq<Thread>, k: nat, t: Thread, u: Thread)
    requires IsRun(n, ss, ts) && k < |ss|
    requires t in ss[k].st && u in ss[k].st && ss[k].st[t].Waiting? && ss[k].st[t] == ss[k].st[u]
    ensures t == u
  {
    var ph := PhaseOf(n, ss, ts, k);
    WaitersAreAtHome(n, ss[k], ph);
  }

  /** The choice changes only when all smokers are parked. */
  lemma StepKeepsChoice(n: nat, s: State, ph: Phase, t: Thread, s': State)
    requires At(n, s, ph) && Step(n, s, t, s') && WellFormed(s')
    ensures ph == AgentAt(Loop) || DueSmoker(s') == DueSmoker(s)
  {
    hide And, Rank, Table, ListenerStatus, SmokerStatus, Holder, Rounds;
    match t {
      case Agent =>
      case Listener(q) => assert s'.choice == s.choice;
      case Smoker(q) => assert s'.choice == s.choice;
    }
  }

  /** A thread can only signal in one of three places, and then the waiter it means is known. */
  lemma SignalFinds(n: nat, s: State, ph: Phase, t: Thread, s': State) returns (u: Thread)
    requires At(n, s, ph) && Step(n, s, t, s') && Signalled(s, t) != None
    ensures WellFormed(s') && s.st[u] == Waiting(Signalled(s, t).value) && s'.st[u] == Woken
  {
    hide Step, And, Rank, Table, Rounds;
    WhoSteps(n, s, ph, t, s');
    StepAdvances(n, s, ph, t, s');
    ChoiceBits(s.choice, if ph.Offering? then ph.r else Match);
    var z := DueSmoker(s);
    SignalPlaces(s, ph, t, z);
    StepKeepsChoice(n, s, ph, t, s');
    u := if ph.Offering? then Listener(ph.r) else if ph.Second? then Smoker(z) else Agent;
    NextAwake(n, s, ph, t, z, if ph.Offering? then ph.r else Match);
  }

  lemma SignalPlaces(s: State, ph: Phase, t: Thread, z: Resource)
    requires WellFormed(s) && z == DueSmoker(s) && LegalPhase(ph, z) && Signalled(s, t) != None
    requires s.st[Agent] == AgentStatus(ph)
    requires forall q: Resource ::
               s.st[Listener(q)] == ListenerStatus(ph, z, q) && s.st[Smoker(q)] == SmokerStatus(ph, z, q)
    ensures (ph.Offering? && t == Agent) || (ph == Second(t.r, SignalSmoker(z)) && t == Listener(t.r))
            || (ph == Smoking(SignalAgent) && t == Smoker(z))
  {
    hide And;
    match t case Agent => case Listener(q) => case Smoker(q) =>
  }

  lemma NextAwake(n: nat, s: State, ph: Phase, t: Thread, z: Resource, r: Resource)
    requires WellFormed(s) && z == DueSmoker(s)
    ensures ph == Offering(r) && r != z ==> ListenerStatus(NextPhase(n, s, ph, t), z, r) == Woken
    ensures ph.Second? && ph.pc == SignalSmoker(z) ==> SmokerStatus(NextPhase(n, s, ph, t), z, z) == Woken
    ensures ph == Smoking(SignalAgent) ==> AgentStatus(NextPhase(n, s, ph, t)) == Woken
  {
  }

  /** Whenever a thread signals, the one thread that the signal is for is already waiting. */
  lemma NoSignalIsLost(n: nat, ss: seq<State>, ts: seq<Thread>, k: nat, t: Thread)
    requires IsRun(n, ss, ts) && k < |ts| && t == ts[k]
    requires WellFormed(ss[k]) && Signalled(ss[k], t) != None
    ensures exists u :: u in ss[k].st && ss[k].st[u] == Waiting(Signalled(ss[k], t).value) && ss[k + 1].st[u] == Woken
  {
    hide Step, Signalled, AgentStatus, ListenerStatus, SmokerStatus, Table, Rank;
    var ph := PhaseOf(n, ss, ts, k);
    assert Step(n, ss[k], ts[k], ss[k + 1]);
    var u := SignalFinds(n, ss[k], ph, t, ss[k + 1]);
  }

  // ---- the right smoker ----

  /** A smoker is woken only when the agent has announced exactly one smoke of its kind that is still to come. */
  lemma OnlyTheDueSmokerIsWoken(n: nat, ss: seq<State>, ts: seq<Thread>, k: nat, q: Resource)
    requires IsRun(n, ss, ts) && k < |ts|
    requires WellFormed(ss[k]) && WellFormed(ss[k + 1])
    requires ss[k].st[Smoker(q)].Waiting? && !ss[k + 1].st[Smoker(q)].Waiting?
    ensures q == MATCHING_SMOKER[ss[k].choice] && ss[k].signals[q] == ss[k].smokes[q] + 1
    ensures forall p: Resource | p != q :: ss[k].signals[p] == ss[k].smokes[p]
  {
    var ph := PhaseOf(n, ss, ts, k);
    assert Step(n, ss[k], ts[k], ss[k + 1]);
    WokenSmokerIsDue(n, ss[k], ph, ts[k], ss[k + 1], q);
  }

  lemma WokenSmokerIsDue(n: nat, s: State, ph: Phase, t: Thread, s': State, q: Resource)
    requires At(n, s, ph) && Step(n, s, t, s') && WellFormed(s')
    requires s.st[Smoker(q)].Waiting? && !s'.st[Smoker(q)].Waiting?
    ensures ph.Second? && q == DueSmoker(s)
  {
    hide Step, Signal, And, NextPhase, AgentStatus, ListenerStatus, SmokerStatus, Holder, Table;
    StepAdvances(n, s, ph, t, s');
    StepKeepsChoice(n, s, ph, t, s');
    SmokersSleep(n, s, ph, t, DueSmoker(s'), q);
  }

  lemma SmokersSleep(n: nat, s: State, ph: Phase, t: Thread, z: Resource, q: Resource)
    requires WellFormed(s) && (ph == AgentAt(Loop) || z == DueSmoker(s))
    requires SmokerStatus(ph, DueSmoker(s), q).Waiting? && !SmokerStatus(NextPhase(n, s, ph, t), z, q).Waiting?
    ensures ph.Second? && q == DueSmoker(s)
  {
  }

  /** The table is empty whenever the agent holds the mutex, and no resource is ever two smokes behind. */
  lemma TableAndCounters(n: nat, ss: seq<State>, ts: seq<Thread>, k: nat)
    requires IsRun(n, ss, ts) && k < |ss|
    ensures Agent in ss[k].owner ==> ss[k].sum == 0
    ensures WellFormed(ss[k])
    ensures forall q: Resource :: ss[k].smokes[q] <= ss[k].signals[q] <= ss[k].smokes[q] + 1
    ensures forall q, p: Resource | ss[k].signals[q] != ss[k].smokes[q] && ss[k].signals[p] != ss[k].smokes[p] :: q == p
  {
    var ph := PhaseOf(n, ss, ts, k);
  }

  // ---- progress and the end ----

  lemma SignalCan(s: State, c: Cond) returns (s': State)
    requires WellFormed(s)
    ensures Signal(s, c, s')
  {
    s' := s;
    if exists t :: s.st[t] == Waiting(c) {
      var t :| s.st[t] == Waiting(c);
      s' := s.(st := s.st[t := Woken]);
    }
  }

  lemma AgentCan(n: nat, s: State, pc: Pc) returns (s': State)
    requires WellFormed(s) && s.st[Agent] == Running(pc)
             && (pc.SignalResource? || pc in {Loop, AwaitSmoke, Next, Unlock})
    ensures Step(n, s, Agent, s')
  {
    match pc
    case Loop =>
      s' := Goto(s, Agent, Unlock);
      if s.i < n {
        var z := MATCHING_SMOKER[0];
        s' := Goto(s.(choice := 0, signals := s.signals[z := s.signals[z] + 1]), Agent, SignalResource(Match));
      }
    case SignalResource(r) =>
      s' := Goto(s, Agent, AfterResource(r));
      if And(CHOICES[s.choice], Value(r)) != 0 { s' := SignalCan(s', Available(r)); }
    case AwaitSmoke => s' := Wait(s, Agent);
    case Next => s' := Goto(s.(i := s.i + 1), Agent, Loop);
    case _ => s' := s.(st := s.st[Agent := Exited], owner := {});
  }

  lemma ListenerCan(n: nat, s: State, r: Resource, pc: Pc) returns (s': State)
    requires WellFormed(s) && s.st[Listener(r)] == Running(pc)
             && (pc.SignalSmoker? || pc in {Add, Test, Reset, AwaitResource})
    ensures Step(n, s, Listener(r), s')
  {
    match pc
    case SignalSmoker(q) => s' := SignalCan(Goto(s, Listener(r), Reset), PairFor(q));
    case Add => s' := Goto(s.(sum := s.sum + Value(r)), Listener(r), Test);
    case Test =>
      var pc' := if s.sum == 6 then SignalSmoker(Match) else if s.sum == 5 then SignalSmoker(Paper)
                 else if s.sum == 3 then SignalSmoker(Tobacco) else AwaitResource;
      s' := Goto(s, Listener(r), pc');
    case Reset => s' := Goto(s.(sum := 0), Listener(r), AwaitResource);
    case _ => s' := Wait(s, Listener(r));
  }

  lemma SmokerCan(n: nat, s: State, r: Resource, pc: Pc) returns (s': State)
    requires WellFormed(s) && s.st[Smoker(r)] == Running(pc) && pc in {SignalAgent, CountSmoke, AwaitPair}
    ensures Step(n, s, Smoker(r), s')
  {
    match pc
    case SignalAgent => s' := SignalCan(Goto(s, Smoker(r), CountSmoke), Smoke);
    case CountSmoke => s' := Goto(s.(smokes := s.smokes[r := s.smokes[r] + 1]), Smoker(r), AwaitPair);
    case _ => s' := Wait(s, Smoker(r));
  }

  /** Until the agent has returned, some thread can step: nobody deadlocks. */
  lemma SomeThreadCanStep(n: nat, s: State, ph: Phase) returns (t: Thread, s': State)
    requires At(n, s, ph) && ph != Over
    ensures Step(n, s, t, s')
  {
    var z := DueSmoker(s);
    t := match ph
         case Both => Listener(Third(z, z))
         case One(r) => Listener(r)
         case First(r, _) => Listener(r)
         case Second(r, _) => Listener(r)
         case Due => Smoker(z)
         case Smoking(_) => Smoker(z)
         case _ => Agent;
    if s.st[t] == Woken {
      s' := Goto(s, t, Resume(t)).(owner := {t});
    } else {
      match t
      case Agent => s' := AgentCan(n, s, s.st[t].pc);
      case Listener(r) => s' := ListenerCan(n, s, r, s.st[t].pc);
      case Smoker(r) => s' := SmokerCan(n, s, r, s.st[t].pc);
    }
  }

  /** Every run that cannot go on has taken exactly 21 steps a round and two to leave, whatever the schedule;
      the agent has returned and its four assertions hold. */
  lemma EveryRunEndsWell(n: nat, ss: seq<State>, ts: seq<Thread>)
    requires IsRun(n, ss, ts)
    requires forall t, s' :: !Step(n, ss[|ts|], t, s')
    ensures |ts| == STEPS_PER_ROUND * n + 2
    ensures WellFormed(ss[|ts|]) && ss[|ts|].st[Agent] == Exited
    ensures forall q: Resource :: ss[|ts|].signals[q] == ss[|ts|].smokes[q]
    ensures ss[|ts|].smokes[Match] + ss[|ts|].smokes[Paper] + ss[|ts|].smokes[Tobacco] == n
  {
    var ph := PhaseOf(n, ss, ts, |ts|);
    if ph != Over {
      var t, s' := SomeThreadCanStep(n, ss[|ts|], ph);
    }
  }

  /** No run is longer than that, and whenever the agent has returned its assertions hold. */
  lemma AssertionsHoldOnExit(n: nat, ss: seq<State>, ts: seq<Thread>, k: nat)
    requires IsRun(n, ss, ts) && k < |ss|
    ensures k <= STEPS_PER_ROUND * n + 2
    ensures WellFormed(ss[k])
    ensures ss[k].st[Agent] == Exited ==>
            && (forall q: Resource :: ss[k].signals[q] == ss[k].smokes[q])
            && ss[k].smokes[Match] + ss[k].smokes[Paper] + ss[k].smokes[Tobacco] == n
  {
    var ph := PhaseOf(n, ss, ts, k);
  }
}
