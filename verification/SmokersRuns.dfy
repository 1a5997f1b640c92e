/** The runs that there are: whoever may go on can go on, and every sequence of choices and of first listeners
    happens in some run. */
module SmokersRuns {
  import opened Bits
  import opened Smokers
  import opened SmokersProofs
  import opened SmokersTheorems

  // ---- who can step ----

  /** A thread can step exactly if it holds the mutex, or if it was woken and nobody holds the mutex. */
  lemma CanStepIff(n: nat, s: State, ph: Phase, t: Thread)
    requires At(n, s, ph)
    ensures (exists s' :: Step(n, s, t, s')) <==> t in s.owner || (s.st[t] == Woken && s.owner == {})
  {
    hide And, Signal, Table, Announced, Rounds;
    var z := DueSmoker(s);
    if s.st[t] == Woken && s.owner == {} {
      assert Step(n, s, t, Goto(s, t, Resume(t)).(owner := {t}));
    } else if t in s.owner {
      var s' := HolderCan(n, s, ph, t);
    } else if exists s' :: Step(n, s, t, s') {
      var s' :| Step(n, s, t, s');
      WhoSteps(n, s, ph, t, s');
    }
  }

  lemma HolderCan(n: nat, s: State, ph: Phase, t: Thread) returns (s': State)
    requires At(n, s, ph) && t in s.owner
    ensures Step(n, s, t, s')
  {
    hide Step, Table, Announced, Rounds, Rank;
    match t
    case Agent => s' := AgentCan(n, s, s.st[t].pc);
    case Listener(r) => s' := ListenerCan(n, s, r, s.st[t].pc);
    case Smoker(r) => s' := SmokerCan(n, s, r, s.st[t].pc);
  }

  /** When both listeners are woken, each of the two can step next. */
  lemma EitherListener(n: nat, s: State, r: Resource) returns (s': State)
    requires At(n, s, Both) && r != DueSmoker(s)
    ensures Step(n, s, Listener(r), s')
  {
    s' := Goto(s, Listener(r), Add).(owner := {Listener(r)});
  }

  /** The smoker that the agent's random number stands for. */
  function SmokerOf(x: nat): Resource
  {
    match x case 0 => Tobacco case 1 => Paper case _ => Match
  }

  /** At the head of its loop the agent can choose any of the three smokes, and announces the one it chooses. */
  lemma AnyChoice(n: nat, s: State, x: nat) returns (s': State)
    requires At(n, s, AgentAt(Loop)) && s.i < n && x < 3
    ensures Step(n, s, Agent, s') && s'.choice == x && WellFormed(s')
    ensures forall q: Resource :: s'.signals[q] == s.signals[q] + if q == SmokerOf(x) then 1 else 0
  {
    var k := MATCHING_SMOKER[x];
    s' := Goto(s.(choice := x, signals := s.signals[k := s.signals[k] + 1]), Agent, SignalResource(Match));
  }

  /** Apart from the choice and the order of the listeners, nothing is left open. */
  lemma OneOutcome(n: nat, s: State, ph: Phase, t: Thread, s1: State, s2: State)
    requires At(n, s, ph) && Step(n, s, t, s1) && Step(n, s, t, s2) && s1.choice == s2.choice
    ensures s1 == s2
  {
    hide And, Table, Announced, Rounds, Rank, Holder, LegalPhase, AgentStatus, ListenerStatus, SmokerStatus, Signal;
    WaitersAreAtHome(n, s, ph);
    forall c: Cond, r: State, r1: State, r2: State
      | WellFormed(r) && (forall u: Thread, d | r.st[u] == Waiting(d) :: d == Home(u))
        && Signal(r, c, r1) && Signal(r, c, r2)
      ensures r1 == r2
    {
      SignalOnce(r, c, r1, r2);
    }
    match t case Agent => case Listener(_) => case Smoker(_) =>
  }

  lemma SignalOnce(s: State, c: Cond, s1: State, s2: State)
    requires WellFormed(s) && forall u: Thread, d | s.st[u] == Waiting(d) :: d == Home(u)
    requires Signal(s, c, s1) && Signal(s, c, s2)
    ensures s1 == s2
  {
    if exists t :: s.st[t] == Waiting(c) {
      var t :| s.st[t] == Waiting(c);
      forall u | s.st[u] == Waiting(c) ensures u == t {
        assert Home(u) == Home(t);
      }
    }
  }

  // ---- every plan is a run ----

  /** What is left open in a round: the agent's choice, and which of the two listeners goes first. */
  datatype Round = Round(choice: nat, first: Resource)

  ghost predicate LegalPlan(plan: seq<Round>)
  {
    forall k | 0 <= k < |plan| :: plan[k].choice < 3 && plan[k].first != SmokerOf(plan[k].choice)
  }

  /** How many of the first j rounds are for the smoker q. */
  function Planned(plan: seq<Round>, j: nat, q: Resource): nat
    requires j <= |plan|
  {
    if j == 0 then 0 else Planned(plan, j - 1, q) + if SmokerOf(plan[j - 1].choice) == q then 1 else 0
  }

  /** The steps that the plan decides are as it says. Rounds take 21 steps: the choice is the first, and the first
      listener gets the mutex in the sixth. */
  ghost predicate Follows(plan: seq<Round>, ss: seq<State>, ts: seq<Thread>)
    requires |ss| == |ts| + 1
  {
    && (forall k, l | 0 <= k < |plan| && l == 21 * k + 1 && l < |ss| :: ss[l].choice == plan[k].choice)
    && (forall k, l | 0 <= k < |plan| && l == 21 * k + 5 && l < |ts| :: ts[l] == Listener(plan[k].first))
  }

  /** Where the plan has got to: the rounds that were announced, and the choice of the current one. */
  ghost predicate OnPlan(plan: seq<Round>, s: State, ph: Phase)
    requires WellFormed(s)
  {
    var between := ph in {AgentAt(Loop), AgentAt(Unlock), Over};
    && (if between then s.i <= |plan| else s.i < |plan| && s.choice == plan[s.i].choice)
    && forall q: Resource :: s.signals[q] == Planned(plan, if between then s.i else s.i + 1, q)
  }

  lemma OtherSteps(n: nat, s: State, ph: Phase, t: Thread, s': State)
    requires At(n, s, ph) && Step(n, s, t, s') && !(ph == AgentAt(Loop) && s.i < n)
    ensures s'.choice == s.choice && s'.signals == s.signals
  {
    hide And, Table, Announced, Rounds, Rank, Holder, ListenerStatus, SmokerStatus, LegalPhase;
    match t case Agent => case Listener(_) => case Smoker(_) =>
  }

  lemma PlanKept(plan: seq<Round>, s: State, ph: Phase, t: Thread, s': State)
    requires At(|plan|, s, ph) && OnPlan(plan, s, ph) && ph != Over && WellFormed(s')
    requires Advances(|plan|, s, ph, t, s')
    requires if ph == AgentAt(Loop) && s.i < |plan| then
               && s'.choice == plan[s.i].choice
               && forall q: Resource :: s'.signals[q] == s.signals[q] + if q == SmokerOf(s'.choice) then 1 else 0
             else s'.choice == s.choice && s'.signals == s.signals
    ensures OnPlan(plan, s', NextPhase(|plan|, s, ph, t))
  {
    hide Table, Announced, Rounds, AgentStatus, ListenerStatus, SmokerStatus, Holder;
  }

  /** The next step of the plan. */
  lemma PlannedStep(plan: seq<Round>, s: State, ph: Phase) returns (t: Thread, s': State)
    requires LegalPlan(plan) && At(|plan|, s, ph) && ph != Over && OnPlan(plan, s, ph)
    ensures Step(|plan|, s, t, s') && WellFormed(s')
    ensures ph == AgentAt(Loop) && s.i < |plan| ==> s'.choice == plan[s.i].choice
    ensures ph == Both ==> t == Listener(plan[s.i].first)
    ensures OnPlan(plan, s', NextPhase(|plan|, s, ph, t)) && At(|plan|, s', NextPhase(|plan|, s, ph, t))
  {
    hide Step, Table, Announced, Rounds, Rank, Holder, AgentStatus, ListenerStatus, SmokerStatus, NextPhase, Planned;
    var n := |plan|;
    if ph == AgentAt(Loop) && s.i < n {
      t := Agent;
      s' := AnyChoice(n, s, plan[s.i].choice);
      StepAdvancesPhase(n, s, ph, t, s');
      PlanKept(plan, s, ph, t, s');
    } else {
      if ph == Both {
        t := Listener(plan[s.i].first);
        s' := EitherListener(n, s, plan[s.i].first);
      } else {
        t, s' := SomeThreadCanStep(n, s, ph);
      }
      StepAdvancesPhase(n, s, ph, t, s');
      OtherSteps(n, s, ph, t, s');
      PlanKept(plan, s, ph, t, s');
    }
  }

  function AllThreads(): set<Thread>
  {
    {Agent, Listener(Match), Listener(Paper), Listener(Tobacco), Smoker(Match), Smoker(Paper), Smoker(Tobacco)}
  }

  lemma EveryResource(r: Resource)
    ensures r in {Match, Paper, Tobacco}
  {
  }

  lemma EveryThread(t: Thread)
    ensures t in AllThreads()
  {
    match t
    case Agent =>
    case Listener(r) => EveryResource(r);
    case Smoker(r) => EveryResource(r);
  }

  lemma Start() returns (s: State)
    ensures Init(s)
  {
    var zeros: map<Resource, nat> := map[Match := 0, Paper := 0, Tobacco := 0];
    var parked := map t | t in AllThreads() :: Waiting(Home(t));
    s := State(parked[Agent := Running(Loop)], {Agent}, 0, zeros, zeros, 0, 0);
    forall t: Thread ensures t in AllThreads() {
      EveryThread(t);
    }
    forall r: Resource ensures r in zeros {
      match r case Match => case Paper => case Tobacco =>
    }
  }

  lemma PlanStarts(plan: seq<Round>, s: State)
    requires Init(s)
    ensures At(|plan|, s, AgentAt(Loop)) && OnPlan(plan, s, AgentAt(Loop))
  {
  }

  /** The first m steps of a run that follows the plan. */
  lemma {:induction false} PlannedSteps(plan: seq<Round>, m: nat) returns (ss: seq<State>, ts: seq<Thread>, ph: Phase)
    requires LegalPlan(plan) && m <= 21 * |plan| + 2
    ensures IsRun(|plan|, ss, ts) && |ts| == m && |ss| == m + 1 && Follows(plan, ss, ts)
    ensures At(|plan|, ss[m], ph) && Rank(|plan|, ss[m], ph) == 21 * |plan| + 2 - m && OnPlan(plan, ss[m], ph)
  {
    hide At, Step, OnPlan, Rank, Init, NextPhase;
    if m == 0 {
      var s := Start();
      ss, ts, ph := [s], [], AgentAt(Loop);
      PlanStarts(plan, s);
      RankAtStart(|plan|, s);
    } else {
      ss, ts, ph := PlannedSteps(plan, m - 1);
      var s := ss[m - 1];
      RankPlaces(plan, s, ph, m - 1);
      var t, s' := PlannedStep(plan, s, ph);
      StepAdvances(|plan|, s, ph, t, s');
      ph := NextPhase(|plan|, s, ph, t);
      ss, ts := ss + [s'], ts + [t];
    }
  }

  lemma RankAtStart(n: nat, s: State)
    requires Init(s)
    ensures Rank(n, s, AgentAt(Loop)) == 21 * n + 2
  {
  }

  /** The number of steps taken says whether the agent is about to choose, or both listeners are woken. */
  lemma RankPlaces(plan: seq<Round>, s: State, ph: Phase, m: nat)
    requires At(|plan|, s, ph) && Rank(|plan|, s, ph) == 21 * |plan| + 2 - m && m < 21 * |plan| + 2
    ensures ph != Over && WellFormed(s)
    ensures forall k: nat | k < |plan| && m == 21 * k :: ph == AgentAt(Loop) && s.i == k < |plan|
    ensures forall k: nat | k < |plan| && m == 21 * k + 5 :: ph == Both && s.i == k
  {
  }

  /** For every plan there is a run that follows it to the end; the smokers smoke as often as it says. */
  lemma EveryPlanRuns(plan: seq<Round>) returns (ss: seq<State>, ts: seq<Thread>)
    requires LegalPlan(plan)
    ensures IsRun(|plan|, ss, ts) && |ts| == STEPS_PER_ROUND * |plan| + 2 && Follows(plan, ss, ts)
    ensures var s := ss[|ts|];
            WellFormed(s) && s.st[Agent] == Exited && forall q: Resource :: s.smokes[q] == Planned(plan, |plan|, q)
  {
    hide Step, Follows;
    var ph;
    ss, ts, ph := PlannedSteps(plan, 21 * |plan| + 2);
  }
}
