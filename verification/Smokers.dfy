/** The agent, three listeners and three smokers of lab8/smoke.c as a step machine. All shared data is
    guarded by one mutex; condition variables follow POSIX, without spurious wake-ups. A run starts when the
    agent holds the mutex at the head of its loop and the six other threads are parked. */
module Smokers {
  import opened Bits

  datatype Resource = Match | Paper | Tobacco

  datatype Thread = Agent | Listener(r: Resource) | Smoker(r: Resource)

  /** Smoker(r) waits for the pair of the two other resources. */
  datatype Cond = Available(r: Resource) | PairFor(r: Resource) | Smoke

  /** The next statement of the thread that holds the mutex. */
  datatype Pc =
    | Loop | SignalResource(r: Resource) | AwaitSmoke | Next | Unlock
    | Add | Test | SignalSmoker(r: Resource) | Reset | AwaitResource
    | SignalAgent | CountSmoke | AwaitPair

  datatype Status = Running(pc: Pc) | Waiting(c: Cond) | Woken | Exited

  datatype State = State(
    st: map<Thread, Status>,
    owner: set<Thread>,
    sum: int,
    signals: map<Resource, nat>,
    smokes: map<Resource, nat>,
    i: nat,
    choice: nat)

  function Value(r: Resource): nat
  {
    match r case Match => 1 case Paper => 2 case Tobacco => 4
  }

  // The agent's tables, indexed by its random choice.
  const CHOICES: seq<nat> := [1 + 2, 1 + 4, 2 + 4]
  const MATCHING_SMOKER: seq<Resource> := [Tobacco, Paper, Match]

  function Home(t: Thread): Cond
  {
    match t
    case Agent => Smoke
    case Listener(r) => Available(r)
    case Smoker(r) => PairFor(r)
  }

  /** Where a thread goes on after pthread_cond_wait. */
  function Resume(t: Thread): Pc
  {
    match t
    case Agent => Next
    case Listener(_) => Add
    case Smoker(_) => SignalAgent
  }

  ghost predicate WellFormed(s: State)
  {
    && (forall t: Thread :: t in s.st)
    && (forall r: Resource :: r in s.signals && r in s.smokes)
    && s.choice < 3
  }

  function Goto(s: State, t: Thread, pc: Pc): State
  {
    s.(st := s.st[t := Running(pc)])
  }

  /** pthread_cond_signal: wakes one waiter; without a waiter it does nothing. */
  ghost predicate Signal(s: State, c: Cond, s': State)
    requires WellFormed(s)
  {
    if exists t :: s.st[t] == Waiting(c)
    then exists t :: s.st[t] == Waiting(c) && s' == s.(st := s.st[t := Woken])
    else s' == s
  }

  /** pthread_cond_wait, first half: releases the mutex and blocks. */
  function Wait(s: State, t: Thread): State
  {
    s.(st := s.st[t := Waiting(Home(t))], owner := {})
  }

  function AfterResource(r: Resource): Pc
  {
    match r case Match => SignalResource(Paper) case Paper => SignalResource(Tobacco) case Tobacco => AwaitSmoke
  }

  ghost predicate AgentStep(n: nat, s: State, pc: Pc, s': State)
    requires WellFormed(s)
  {
    match pc
    case Loop =>
      if s.i < n then
        exists x: nat :: x < 3 &&
          var k := MATCHING_SMOKER[x];
          s' == Goto(s.(choice := x, signals := s.signals[k := s.signals[k] + 1]), Agent, SignalResource(Match))
      else s' == Goto(s, Agent, Unlock)
    case SignalResource(r) =>
      if And(CHOICES[s.choice], Value(r)) != 0 then Signal(Goto(s, Agent, AfterResource(r)), Available(r), s')
      else s' == Goto(s, Agent, AfterResource(r))
    case AwaitSmoke => s' == Wait(s, Agent)
    case Next => s' == Goto(s.(i := s.i + 1), Agent, Loop)
    case Unlock => s' == s.(st := s.st[Agent := Exited], owner := {})
    case _ => false
  }

  ghost predicate ListenerStep(s: State, r: Resource, pc: Pc, s': State)
    requires WellFormed(s)
  {
    var t := Listener(r);
    match pc
    case Add => s' == Goto(s.(sum := s.sum + Value(r)), t, Test)
    case Test =>
      s' == if s.sum == 6 then Goto(s, t, SignalSmoker(Match))
            else if s.sum == 5 then Goto(s, t, SignalSmoker(Paper))
            else if s.sum == 3 then Goto(s, t, SignalSmoker(Tobacco))
            else Goto(s, t, AwaitResource)
    case SignalSmoker(k) => Signal(Goto(s, t, Reset), PairFor(k), s')
    case Reset => s' == Goto(s.(sum := 0), t, AwaitResource)
    case AwaitResource => s' == Wait(s, t)
    case _ => false
  }

  ghost predicate SmokerStep(s: State, r: Resource, pc: Pc, s': State)
    requires WellFormed(s)
  {
    var t := Smoker(r);
    match pc
    case SignalAgent => Signal(Goto(s, t, CountSmoke), Smoke, s')
    case CountSmoke => s' == Goto(s.(smokes := s.smokes[r := s.smokes[r] + 1]), t, AwaitPair)
    case AwaitPair => s' == Wait(s, t)
    case _ => false
  }

  /** Thread t does one thing: it gets the mutex back after a signal, or executes its next statement. */
  ghost predicate Step(n: nat, s: State, t: Thread, s': State)
  {
    && WellFormed(s)
    && match s.st[t]
       case Woken => s.owner == {} && s' == Goto(s, t, Resume(t)).(owner := {t})
       case Running(pc) =>
         (match t
          case Agent => AgentStep(n, s, pc, s')
          case Listener(r) => ListenerStep(s, r, pc, s')
          case Smoker(r) => SmokerStep(s, r, pc, s'))
       case _ => false
  }

  ghost predicate Init(s: State)
  {
    && WellFormed(s)
    && s.st[Agent] == Running(Loop) && s.owner == {Agent}
    && (forall t: Thread | t != Agent :: s.st[t] == Waiting(Home(t)))
    && s.sum == 0 && s.i == 0
    && (forall r: Resource :: s.signals[r] == 0 && s.smokes[r] == 0)
  }
}
