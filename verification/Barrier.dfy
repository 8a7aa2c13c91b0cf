/**
 The server's start-up barrier: one step is one atomic access of `n_on_threads`, of the release flag or
 of `stop`. Thread 0 is the main thread, which spawns the others and then runs the event loop itself.
 */
module Barrier {

  /** Where a thread is: not created, before its increment, in `thread_wait`, (the main thread) before
      its store to the release flag, in its event loop, before its decrement, or finished. */
  datatype Phase = NotSpawned | Spawned | Waiting | Ready | Looping | Leaving | Gone

  datatype State = State(phases: seq<Phase>, nOnThreads: int, release: bool, stop: bool, booted: bool)

  datatype Event =
    | Boot
    | Spawn(i: nat)
    | Register(i: nat)
    | SeeRelease(i: nat)
    | SeeAllOn
    | StoreRelease
    | SeeStop(i: nat)
    | BreakLoop(i: nat)
    | Unregister(i: nat)
    | SetStop

  predicate Init(s: State) {
    |s.phases| >= 1 && (forall i :: 0 <= i < |s.phases| ==> s.phases[i] == NotSpawned) && !s.release && !s.booted
  }

  predicate Enabled(s: State, e: Event) {
    match e
    case Boot => !s.booted
    case Spawn(i) =>
      && s.booted && i < |s.phases| && s.phases[i] == NotSpawned
      && if i == 0 then forall j :: 0 < j < |s.phases| ==> s.phases[j] != NotSpawned
         else forall j :: 0 < j < i ==> s.phases[j] != NotSpawned
    case Register(i) => i < |s.phases| && s.phases[i] == Spawned
    case SeeRelease(i) => 0 < i < |s.phases| && s.phases[i] == Waiting && s.release
    case SeeAllOn => |s.phases| > 0 && s.phases[0] == Waiting && s.nOnThreads == |s.phases|
    case StoreRelease => |s.phases| > 0 && s.phases[0] == Ready
    case SeeStop(i) => i < |s.phases| && s.phases[i] == Waiting && s.stop
    case BreakLoop(i) => i < |s.phases| && s.phases[i] == Looping
    case Unregister(i) => i < |s.phases| && s.phases[i] == Leaving
    case SetStop => true
  }

  function Next(s: State, e: Event): State
    requires Enabled(s, e)
  {
    match e
    case Boot => s.(nOnThreads := 0, booted := true)
    case Spawn(i) => s.(phases := s.phases[i := Spawned])
    case Register(i) => s.(phases := s.phases[i := Waiting], nOnThreads := s.nOnThreads + 1)
    case SeeRelease(i) => s.(phases := s.phases[i := Looping])
    case SeeAllOn => s.(phases := s.phases[0 := Ready])
    case StoreRelease => s.(phases := s.phases[0 := Looping], release := true)
    case SeeStop(i) => s.(phases := s.phases[i := Looping])
    case BreakLoop(i) => s.(phases := s.phases[i := Leaving])
    case Unregister(i) => s.(phases := s.phases[i := Gone], nOnThreads := s.nOnThreads - 1)
    case SetStop => s.(stop := true)
  }

  ghost predicate IsRun(states: seq<State>, events: seq<Event>) {
    && |states| == |events| + 1 && Init(states[0])
    && forall k :: 0 <= k < |events| ==> Enabled(states[k], events[k]) && states[k + 1] == Next(states[k], events[k])
  }

  /** Between its increment and its decrement. */
  predicate Counted(p: Phase) { p == Waiting || p == Ready || p == Looping || p == Leaving }

  predicate Arrived(p: Phase) { p != NotSpawned && p != Spawned }

  predicate LeftWait(p: Phase) { p == Looping || p == Leaving || p == Gone }

  function Online(phases: seq<Phase>): (n: nat)
    ensures n <= |phases|
  {
    if phases == [] then 0 else (if Counted(phases[0]) then 1 else 0) + Online(phases[1..])
  }

  lemma {:induction false} OnlineUpdate(phases: seq<Phase>, i: nat, p: Phase)
    requires i < |phases|
    ensures Online(phases[i := p])
              == Online(phases) - (if Counted(phases[i]) then 1 else 0) + (if Counted(p) then 1 else 0)
  {
    if i == 0 {
      assert phases[0 := p][1..] == phases[1..];
    } else {
      OnlineUpdate(phases[1..], i - 1, p);
      assert phases[i := p][1..] == phases[1..][i - 1 := p];
    }
  }

  lemma {:induction false} AllOnline(phases: seq<Phase>)
    ensures Online(phases) == |phases| <==> forall i :: 0 <= i < |phases| ==> Counted(phases[i])
  {
    if phases != [] {
      AllOnline(phases[1..]);
      if Online(phases) == |phases| {
        forall i | 0 <= i < |phases| ensures Counted(phases[i]) {
          assert i > 0 ==> phases[i] == phases[1..][i - 1];
        }
      } else if Counted(phases[0]) {
        var i :| 0 <= i < |phases[1..]| && !Counted(phases[1..][i]);
        assert phases[i + 1] == phases[1..][i];
      }
    }
  }

  predicate AllArrived(s: State) { forall i :: 0 <= i < |s.phases| ==> Arrived(s.phases[i]) }

  /** The counter counts; the main thread has spawned the others before it is spawned; it only gets past
      its check when all have arrived, and the others only past theirs after it did, unless stopped. */
  ghost predicate Inv(s: State) {
    && |s.phases| >= 1
    && (if s.booted then s.nOnThreads == Online(s.phases)
        else forall i :: 0 <= i < |s.phases| ==> s.phases[i] == NotSpawned)
    && (s.phases[0] != NotSpawned ==> forall i :: 0 <= i < |s.phases| ==> s.phases[i] != NotSpawned)
    && (forall i :: 0 < i < |s.phases| ==> s.phases[i] != Ready)
    && (s.release || s.phases[0] == Ready ==> AllArrived(s))
    && (forall i :: 0 <= i < |s.phases| && LeftWait(s.phases[i]) ==> s.release || s.stop)
  }

  /** The effect of a step on the number of counted threads. */
  lemma StepCount(s: State, e: Event)
    requires Inv(s) && Enabled(s, e)
    ensures Next(s, e).booted ==> Next(s, e).nOnThreads == Online(Next(s, e).phases)
    ensures e.SeeAllOn? ==> AllArrived(s)
  {
    hide Online;
    match e {
      case Boot => NoneOnline(s.phases);
      case Spawn(i) => OnlineUpdate(s.phases, i, Spawned);
      case Register(i) => OnlineUpdate(s.phases, i, Waiting);
      case SeeRelease(i) => OnlineUpdate(s.phases, i, Looping);
      case SeeAllOn =>
        OnlineUpdate(s.phases, 0, Ready);
        AllOnline(s.phases);
      case StoreRelease => OnlineUpdate(s.phases, 0, Looping);
      case SeeStop(i) => OnlineUpdate(s.phases, i, Looping);
      case BreakLoop(i) => OnlineUpdate(s.phases, i, Leaving);
      case Unregister(i) => OnlineUpdate(s.phases, i, Gone);
      case SetStop =>
    }
  }

  lemma StepInv(s: State, e: Event)
    requires Inv(s) && Enabled(s, e)
    ensures Inv(Next(s, e))
  {
    hide Online;
    StepCount(s, e);
  }

  /** `stop` and the release flag are set by their own steps only, never cleared, and a step moves at most one thread:
      the one it belongs to, one phase on. */
  lemma OnlyOwnStep(s: State, e: Event)
    requires Inv(s) && Enabled(s, e)
    ensures var t := Next(s, e);
            && (t.stop <==> s.stop || e.SetStop?) && (t.release <==> s.release || e.StoreRelease?)
            && (t.booted <==> s.booted || e.Boot?) && |t.phases| == |s.phases|
            && (forall i, j :: 0 <= i < j < |s.phases| ==> t.phases[i] == s.phases[i] || t.phases[j] == s.phases[j])
            && (forall i :: 0 <= i < |s.phases| ==> t.phases[i] == s.phases[i] || MovesOn(i, s.phases[i], t.phases[i]))
  {
    hide Online;
  }

  /** The life of a thread; only the main thread has to release the others before its event loop, unless stopped. */
  predicate MovesOn(i: nat, p: Phase, q: Phase) {
    match p
    case NotSpawned => q == Spawned
    case Spawned => q == Waiting
    case Waiting => q == Looping || (q == Ready && i == 0)
    case Ready => q == Looping
    case Looping => q == Leaving
    case Leaving => q == Gone
    case Gone => false
  }

  lemma {:induction false} NoneOnline(phases: seq<Phase>)
    requires forall i :: 0 <= i < |phases| ==> phases[i] == NotSpawned
    ensures Online(phases) == 0
  {
    if phases != [] {
      NoneOnline(phases[1..]);
    }
  }

  lemma {:induction false} RunInv(states: seq<State>, events: seq<Event>, k: nat)
    requires IsRun(states, events) && k < |states|
    ensures Inv(states[k])
    decreases k
  {
    if k > 0 {
      RunInv(states, events, k - 1);
      StepInv(states[k - 1], events[k - 1]);
    }
  }

  /** In every reachable state the counter is the number of threads between their increment and their
      decrement, and unless the server was stopped, no thread has left `thread_wait` before all have
      arrived there. */
  lemma BarrierHolds(states: seq<State>, events: seq<Event>, k: nat)
    requires IsRun(states, events) && k < |states| && states[k].booted
    ensures states[k].nOnThreads == Online(states[k].phases)
    ensures !states[k].stop && (exists i :: 0 <= i < |states[k].phases| && LeftWait(states[k].phases[i])) ==>
              AllArrived(states[k])
  {
    RunInv(states, events, k);
  }

  /** Some thread can leave the barrier early. */
  ghost predicate LeavesEarly(s: State) {
    exists i :: 0 <= i < |s.phases| && LeftWait(s.phases[i]) && !AllArrived(s)
  }

  /** A thread leaves the barrier too early in some step exactly if the server has been stopped and the thread
      sees that while another one has not arrived. */
  lemma EarlyLeaveExactly(s: State, e: Event)
    requires Inv(s) && Enabled(s, e) && !LeavesEarly(s)
    ensures LeavesEarly(Next(s, e)) <==> e.SeeStop? && !AllArrived(s)
  {
    var t := Next(s, e);
    StepInv(s, e);
    if e.SeeStop? && !AllArrived(s) {
      assert LeftWait(t.phases[e.i]);
      var j :| 0 <= j < |s.phases| && !Arrived(s.phases[j]);
      assert j != e.i && !Arrived(t.phases[j]);
    }
  }

  /** Once all threads have arrived and none is leaving, the main thread's wait ends, and then every
      other thread's: no thread is left behind at the barrier. */
  lemma BarrierOpens(s: State)
    requires Inv(s) && s.booted && forall i :: 0 <= i < |s.phases| ==> s.phases[i] == Waiting
    ensures Enabled(s, SeeAllOn)
    ensures Enabled(Next(s, SeeAllOn), StoreRelease)
    ensures forall i :: 0 < i < |s.phases| ==> Enabled(Next(Next(s, SeeAllOn), StoreRelease), SeeRelease(i))
  {
    AllOnline(s.phases);
  }
}
