/**
 webrtc::AsyncDnsResolver: resolver threads race with each other and with the destruction
 of the resolver. Every step below is one indivisible action of one thread; a critical
 section is several steps between taking and giving back the mutex.
 */
module DnsResolver {
  import opened Options

  datatype Status = Active | Finished | Dead

  /** What resolving a name gave: an error code, and the addresses as opaque values. */
  datatype Resolution = Resolution(error: int, addresses: seq<nat>)

  /** A thread started by Start: resolving, about to call Finish, inside Finish, or done. */
  datatype Phase =
    | Resolving
    | Ready(resolution: Resolution)
    | InFinish(resolution: Resolution, posted: bool)
    | Done

  datatype Thread = Thread(host: string, phase: Phase)

  /** The resolver object: usable, in its destructor before and after Kill, or gone. */
  datatype Owner = Alive | Destroying | Killed | Gone

  /** A posted completion task: the thread that posted it, and the error and addresses it carries. */
  datatype Task = Task(thread: nat, resolution: Resolution)

  /** A callback that ran: which Start's callback, the task that ran it with its result, and what the owner was. */
  datatype Completion = Completion(callback: nat, thread: nat, resolution: Resolution, owner: Owner)
  {
    predicate Matches() {
      thread == callback
    }
  }

  datatype State = State(
    status: Status,            // guarded by the mutex
    holder: Option<nat>,       // the thread inside Finish
    threads: seq<Thread>,
    owner: Owner,
    flagAlive: bool,           // the task safety flag
    callback: Option<nat>,     // the number of the Start whose callback is stored
    queue: seq<Task>,          // posted completion tasks
    posts: nat,                // completion actions run so far
    completions: seq<Completion>
  )

  datatype Step =
    | Start(host: string)
    | Resolve(i: nat, resolution: Resolution)
    | EnterFinish(i: nat)
    | Post(i: nat)
    | LeaveFinish(i: nat)
    | BeginDestroy
    | Kill
    | EndDestroy
    | RunTask

  const INITIAL := State(Active, None, [], Alive, true, None, [], 0, [])

  /** Calls, tasks and the destructor all happen on the owner's sequence, one at a time. */
  predicate Enabled(s: State, step: Step) {
    match step
    case Start(_) => s.owner == Alive
    case Resolve(i, _) => i < |s.threads| && s.threads[i].phase == Resolving
    case EnterFinish(i) => i < |s.threads| && s.threads[i].phase.Ready? && s.holder == None
    case Post(i) => i < |s.threads| && s.threads[i].phase.InFinish? && !s.threads[i].phase.posted
    case LeaveFinish(i) => i < |s.threads| && s.threads[i].phase.InFinish? && s.threads[i].phase.posted
    case BeginDestroy => s.owner == Alive
    case Kill => s.owner == Destroying && s.holder == None
    case EndDestroy => s.owner == Killed
    case RunTask => s.queue != [] && (s.owner == Alive || s.owner == Gone)
  }

  function SetPhase(s: State, i: nat, phase: Phase): State
    requires i < |s.threads|
  {
    s.(threads := s.threads[i := s.threads[i].(phase := phase)])
  }

  function Apply(s: State, step: Step): State
    requires Enabled(s, step)
  {
    match step
    case Start(host) =>
      s.(callback := Some(|s.threads|), threads := s.threads + [Thread(host, Resolving)])
    case Resolve(i, resolution) => SetPhase(s, i, Ready(resolution))
    case EnterFinish(i) =>
      if s.status != Active then SetPhase(s, i, Done)
      else SetPhase(s, i, InFinish(s.threads[i].phase.resolution, false)).(status := Finished, holder := Some(i))
    case Post(i) =>
      var phase := s.threads[i].phase;
      SetPhase(s, i, phase.(posted := true)).(queue := s.queue + [Task(i, phase.resolution)], posts := s.posts + 1)
    case LeaveFinish(i) => SetPhase(s, i, Done).(holder := None)
    case BeginDestroy => s.(owner := Destroying)
    case Kill => s.(owner := Killed, status := Dead)
    case EndDestroy => s.(owner := Gone, flagAlive := false)
    case RunTask =>
      var rest, task := s.(queue := s.queue[1..]), s.queue[0];
      if s.flagAlive && s.callback.Some? then
        rest.(completions := s.completions + [Completion(s.callback.value, task.thread, task.resolution, s.owner)])
      else rest
  }

  /** The states that a sequence of steps passes through, from any state. */
  ghost predicate Path(states: seq<State>, steps: seq<Step>) {
    && |states| == |steps| + 1
    && forall i :: 0 <= i < |steps| ==> Enabled(states[i], steps[i]) && states[i + 1] == Apply(states[i], steps[i])
  }

  ghost predicate IsRun(states: seq<State>, steps: seq<Step>) {
    Path(states, steps) && states[0] == INITIAL
  }

  // ---------- the invariant ----------

  predicate InCriticalSection(s: State, i: nat) {
    i < |s.threads| && s.threads[i].phase.InFinish?
  }

  /** The mutex holder is the one thread inside Finish. */
  ghost predicate MutexExact(s: State) {
    forall i: nat :: InCriticalSection(s, i) <==> s.holder == Some(i)
  }

  /** The completion action belongs to the critical section that moved the status from active to finished. */
  ghost predicate PostsExact(s: State) {
    match s.holder
    case Some(i) =>
      && InCriticalSection(s, i) && s.status == Finished
      && s.posts == if s.threads[i].phase.posted then 1 else 0
    case None =>
      && (s.status == Active ==> s.posts == 0)
      && (s.status == Finished ==> s.posts == 1)
      && s.posts <= 1
  }

  ghost predicate OwnerExact(s: State) {
    && (s.status == Dead <==> s.owner == Killed || s.owner == Gone)
    && (s.flagAlive <==> s.owner != Gone)
    && s.callback == if s.threads == [] then None else Some(|s.threads| - 1)
  }

  ghost predicate TasksExact(s: State) {
    && |s.queue| + |s.completions| <= s.posts
    && (forall k :: 0 <= k < |s.queue| ==> s.queue[k].thread < |s.threads|)
    && (forall k :: 0 <= k < |s.completions| ==>
          var c := s.completions[k]; c.owner == Alive && c.thread < |s.threads| && c.callback < |s.threads|)
    && (s.owner != Gone ==> |s.queue| + |s.completions| == s.posts)
    && (forall i :: 0 <= i < |s.threads| && s.threads[i].phase == Done ==> s.status != Active)
  }

  ghost predicate Inv(s: State) {
    MutexExact(s) && PostsExact(s) && OwnerExact(s) && TasksExact(s)
  }

  lemma {:induction false} InvInitial()
    ensures Inv(INITIAL)
  {
  }

  lemma {:induction false} MutexStep(s: State, step: Step)
    requires Inv(s) && Enabled(s, step)
    ensures MutexExact(Apply(s, step))
    ensures step.Post? || step.LeaveFinish? ==> s.holder == Some(step.i)
  {
    var s' := Apply(s, step);
    if step.Post? || step.LeaveFinish? { assert InCriticalSection(s, step.i); }
    forall j: nat ensures InCriticalSection(s', j) <==> s'.holder == Some(j) {
      assert InCriticalSection(s, j) <==> s.holder == Some(j);
    }
  }

  lemma {:induction false} InvStep(s: State, step: Step)
    requires Inv(s) && Enabled(s, step)
    ensures Inv(Apply(s, step))
  {
    MutexStep(s, step);
    hide MutexExact;
    var s' := Apply(s, step);
    if s.holder.Some? { assert InCriticalSection(s, s.holder.value); }
  }

  lemma {:induction false} PathInvariant(states: seq<State>, steps: seq<Step>, i: nat)
    requires Path(states, steps) && Inv(states[0]) && i < |states|
    ensures Inv(states[i])
    decreases i
  {
    if i > 0 {
      PathInvariant(states, steps, i - 1);
      InvStep(states[i - 1], steps[i - 1]);
    }
  }

  lemma {:induction false} RunInvariant(states: seq<State>, steps: seq<Step>, i: nat)
    requires IsRun(states, steps) && i < |states|
    ensures Inv(states[i])
  {
    InvInitial();
    PathInvariant(states, steps, i);
  }

  // ---------- what every run guarantees ----------

  /** However threads interleave and often Start is called, at most one completion action runs, and one callback. */
  lemma {:induction false} AtMostOnce(states: seq<State>, steps: seq<Step>, i: nat)
    requires IsRun(states, steps) && i < |states|
    ensures states[i].posts <= 1 && |states[i].completions| <= 1
  {
    RunInvariant(states, steps, i);
  }

  /** No completion action starts once Kill has run: the thread that posts holds the mutex that Kill needs. */
  lemma {:induction false} NoPostAfterKill(states: seq<State>, steps: seq<Step>, k: nat)
    requires IsRun(states, steps) && k < |steps|
    requires steps[k].Post? || states[k + 1].holder.Some?
    ensures states[k].owner == Alive || states[k].owner == Destroying
  {
    RunInvariant(states, steps, k);
    RunInvariant(states, steps, k + 1);
    MutexStep(states[k], steps[k]);
  }

  /** The destructor waits at most for one thread, which can always go on: Kill is never blocked for good. */
  lemma {:induction false} KillNotBlocked(states: seq<State>, steps: seq<Step>, i: nat)
    requires IsRun(states, steps) && i < |states| && states[i].owner == Destroying
    ensures var s := states[i];
      match s.holder
      case None => Enabled(s, Kill)
      case Some(t) =>
        if Enabled(s, Post(t)) then Enabled(Apply(s, Post(t)), LeaveFinish(t))
        else Enabled(s, LeaveFinish(t)) && Enabled(Apply(s, LeaveFinish(t)), Kill)
  {
    hide IsRun;
    RunInvariant(states, steps, i);
    if states[i].holder.Some? { assert InCriticalSection(states[i], states[i].holder.value); }
  }

  lemma {:induction false} OwnerMovesOn(s: State, step: Step)
    requires Inv(s) && Enabled(s, step) && s.owner != Alive
    ensures Apply(s, step).owner != Alive && Apply(s, step).completions == s.completions
  {
  }

  /** No callback runs once the destructor has begun. */
  lemma {:induction false} NoCallbackAfterDestruction(states: seq<State>, steps: seq<Step>, i: nat, j: nat)
    requires IsRun(states, steps) && i <= j < |states| && states[i].owner != Alive
    ensures states[j].owner != Alive && states[j].completions == states[i].completions
    decreases j
  {
    if i < j {
      NoCallbackAfterDestruction(states, steps, i, j - 1);
      RunInvariant(states, steps, j - 1);
      OwnerMovesOn(states[j - 1], steps[j - 1]);
    }
  }

  /**
   As long as the resolver lives, a thread that is done means that the completion action has run or is
   about to; and when nothing is left to do, exactly one callback has run.
   */
  lemma {:induction false} CompletesWhileAlive(states: seq<State>, steps: seq<Step>, i: nat, t: nat)
    requires IsRun(states, steps) && i < |states| && states[i].owner == Alive
    requires t < |states[i].threads| && states[i].threads[t].phase == Done
    ensures states[i].posts == 1 || states[i].holder.Some?
    ensures states[i].holder == None && states[i].queue == [] ==> |states[i].completions| == 1
  {
    RunInvariant(states, steps, i);
  }

  // ---------- whose resolution a callback gets ----------

  function Starts(steps: seq<Step>): nat {
    if steps == [] then 0
    else Starts(steps[..|steps| - 1]) + if steps[|steps| - 1].Start? then 1 else 0
  }

  /** Step `j` is the Start of thread `t`. */
  predicate StartsThread(steps: seq<Step>, j: nat, t: nat) {
    j < |steps| && steps[j].Start? && Starts(steps[..j]) == t
  }

  lemma {:induction false} StartsNext(steps: seq<Step>, k: nat)
    requires k < |steps|
    ensures Starts(steps[..k + 1]) == Starts(steps[..k]) + if steps[k].Start? then 1 else 0
  {
    assert steps[..k + 1][..k] == steps[..k];
  }

  lemma {:induction false} ThreadsNext(s: State, step: Step)
    requires Enabled(s, step)
    ensures |Apply(s, step).threads| == |s.threads| + if step.Start? then 1 else 0
    ensures |Apply(s, step).completions| >= |s.completions|
  {
  }

  /** A callback that a step runs is the stored one, with the resolution of the task at the front of the queue. */
  lemma {:induction false} CompletionNext(s: State, step: Step)
    requires Inv(s) && Enabled(s, step) && |Apply(s, step).completions| > |s.completions|
    ensures s.completions == [] && s.queue != []
    ensures var c := Apply(s, step).completions[|s.completions|];
      && c.thread < |s.threads| && c.callback == |s.threads| - 1
      && Task(c.thread, c.resolution) == s.queue[0]
  {
  }

  lemma {:induction false} ThreadsAreStarts(states: seq<State>, steps: seq<Step>, k: nat)
    requires IsRun(states, steps) && k < |states|
    ensures |states[k].threads| == Starts(steps[..k])
    decreases k
  {
    hide Enabled, Apply, Starts;
    if k == 0 {
      NoStarts(steps);
    } else {
      ThreadsAreStarts(states, steps, k - 1);
      StartsNext(steps, k - 1);
      ThreadsNext(states[k - 1], steps[k - 1]);
    }
  }

  lemma {:induction false} NoStarts(steps: seq<Step>)
    ensures Starts(steps[..0]) == 0
  {
  }

  lemma {:induction false} StartFound(steps: seq<Step>, k: nat, t: nat) returns (j: nat)
    requires k <= |steps| && t < Starts(steps[..k])
    ensures j < k && StartsThread(steps, j, t)
    decreases k
  {
    StartsNext(steps, k - 1);
    if t < Starts(steps[..k - 1]) {
      j := StartFound(steps, k - 1, t);
    } else {
      j := k - 1;
    }
  }

  /** Of the threads started before step `k`, that of step `j` is the last exactly when no Start lies between. */
  lemma {:induction false} LastStart(steps: seq<Step>, j: nat, k: nat)
    requires j < k <= |steps| && steps[j].Start?
    ensures Starts(steps[..k]) > Starts(steps[..j])
    ensures Starts(steps[..j]) == Starts(steps[..k]) - 1 <==> forall l :: j < l < k ==> !steps[l].Start?
    decreases k
  {
    StartsNext(steps, k - 1);
    if j < k - 1 {
      LastStart(steps, j, k - 1);
    }
  }

  /** Step `k` runs a callback. */
  ghost predicate Completes(states: seq<State>, steps: seq<Step>, k: nat) {
    k < |steps| && |states| == |steps| + 1 && |states[k + 1].completions| > |states[k].completions|
  }

  /** The callback that step `k` runs. */
  ghost function Completed(states: seq<State>, steps: seq<Step>, k: nat): Completion
    requires Completes(states, steps, k)
  {
    states[k + 1].completions[|states[k].completions|]
  }

  /**
   The callback that runs is that of the last Start so far. It gets the resolution of its own name if
   and only if no Start was made between the Start of the thread that resolved and the task.
   */
  lemma {:induction false} MatchExact(states: seq<State>, steps: seq<Step>, k: nat, j: nat)
    requires IsRun(states, steps) && Completes(states, steps, k)
    requires j < k && StartsThread(steps, j, Completed(states, steps, k).thread)
    ensures var c := Completed(states, steps, k);
      && c.callback == Starts(steps[..k]) - 1
      && (c.Matches() <==> forall l :: j < l < k ==> !steps[l].Start?)
  {
    hide Enabled, Apply, Inv, Starts;
    RunInvariant(states, steps, k);
    CompletionNext(states[k], steps[k]);
    ThreadsAreStarts(states, steps, k);
    LastStart(steps, j, k);
  }

  lemma {:induction false} HostNext(s: State, step: Step, t: nat)
    requires Enabled(s, step) && t < |Apply(s, step).threads|
    ensures if t < |s.threads| then Apply(s, step).threads[t].host == s.threads[t].host
            else step == Start(Apply(s, step).threads[t].host)
  {
  }

  /** Every thread resolves the name that its Start was given. */
  lemma {:induction false} HostOfStart(states: seq<State>, steps: seq<Step>, i: nat, j: nat, t: nat)
    requires IsRun(states, steps) && j < i < |states| && StartsThread(steps, j, t)
    ensures t < |states[i].threads| && states[i].threads[t].host == steps[j].host
    decreases i
  {
    hide Enabled, Apply, Starts;
    ThreadsAreStarts(states, steps, i);
    ThreadsAreStarts(states, steps, i - 1);
    LastStart(steps, j, i);
    HostNext(states[i - 1], steps[i - 1], t);
    if j < i - 1 {
      HostOfStart(states, steps, i - 1, j, t);
    }
  }

  /** There always is such a Start, and its name is the one resolved. */
  lemma {:induction false} ThreadWasStarted(states: seq<State>, steps: seq<Step>, k: nat) returns (j: nat)
    requires IsRun(states, steps) && Completes(states, steps, k)
    ensures j < k && StartsThread(steps, j, Completed(states, steps, k).thread)
    ensures var t := Completed(states, steps, k).thread;
      t < |states[k].threads| && states[k].threads[t].host == steps[j].host
  {
    hide Enabled, Apply, Inv, Starts;
    RunInvariant(states, steps, k);
    CompletionNext(states[k], steps[k]);
    ThreadsAreStarts(states, steps, k);
    j := StartFound(steps, k, Completed(states, steps, k).thread);
    HostOfStart(states, steps, k, j, Completed(states, steps, k).thread);
  }

  // ---------- where the result of a callback comes from ----------

  /** The thread has resolved its name, with this result, and has not yet left Finish. */
  predicate Holds(s: State, t: nat, r: Resolution) {
    && t < |s.threads|
    && match s.threads[t].phase
       case Ready(resolution) => resolution == r
       case InFinish(resolution, _) => resolution == r
       case _ => false
  }

  lemma {:induction false} HoldsNext(s: State, step: Step, t: nat, r: Resolution)
    requires Enabled(s, step) && Holds(Apply(s, step), t, r)
    ensures Holds(s, t, r) || step == Resolve(t, r)
  {
  }

  lemma {:induction false} WasResolved(states: seq<State>, steps: seq<Step>, i: nat, t: nat, r: Resolution)
    returns (j: nat)
    requires IsRun(states, steps) && i < |states| && Holds(states[i], t, r)
    ensures j < i && steps[j] == Resolve(t, r)
    decreases i
  {
    hide Enabled, Apply, Holds;
    if i == 0 { NobodyYet(t, r); }
    HoldsNext(states[i - 1], steps[i - 1], t, r);
    if steps[i - 1] == Resolve(t, r) {
      j := i - 1;
    } else {
      j := WasResolved(states, steps, i - 1, t, r);
    }
  }

  lemma {:induction false} NobodyYet(t: nat, r: Resolution)
    ensures !Holds(INITIAL, t, r) && !InCriticalSection(INITIAL, t)
  {
  }

  /** Step `e` is the first of the run to enter Finish, and is made by thread `t`. */
  ghost predicate FirstToFinish(steps: seq<Step>, e: nat, t: nat) {
    && e < |steps| && steps[e] == EnterFinish(t)
    && forall l :: 0 <= l < e ==> !steps[l].EnterFinish?
  }

  lemma {:induction false} ActiveNext(s: State, step: Step)
    requires Enabled(s, step) && Apply(s, step).status == Active
    ensures s.status == Active && !step.EnterFinish?
  {
  }

  lemma {:induction false} NobodyFinished(states: seq<State>, steps: seq<Step>, i: nat)
    requires IsRun(states, steps) && i < |states| && states[i].status == Active
    ensures forall l :: 0 <= l < i ==> !steps[l].EnterFinish?
    decreases i
  {
    hide Enabled, Apply;
    if i > 0 {
      ActiveNext(states[i - 1], steps[i - 1]);
      NobodyFinished(states, steps, i - 1);
    }
  }

  lemma {:induction false} EnteredNext(s: State, step: Step, t: nat)
    requires Enabled(s, step) && InCriticalSection(Apply(s, step), t)
    ensures InCriticalSection(s, t) || (step == EnterFinish(t) && s.status == Active)
  {
  }

  /** Only the first thread to enter Finish gets into its critical section's body. */
  lemma {:induction false} WasFirst(states: seq<State>, steps: seq<Step>, i: nat, t: nat) returns (e: nat)
    requires IsRun(states, steps) && i < |states| && InCriticalSection(states[i], t)
    ensures e < i && FirstToFinish(steps, e, t)
    decreases i
  {
    hide Enabled, Apply, InCriticalSection;
    if i == 0 { NobodyYet(t, Resolution(0, [])); }
    EnteredNext(states[i - 1], steps[i - 1], t);
    if InCriticalSection(states[i - 1], t) {
      e := WasFirst(states, steps, i - 1, t);
    } else {
      e := i - 1;
      NobodyFinished(states, steps, i - 1);
    }
  }

  lemma {:induction false} QueueNext(s: State, step: Step, task: Task)
    requires Enabled(s, step) && task in Apply(s, step).queue
    ensures task in s.queue || (step == Post(task.thread) && Holds(s, task.thread, task.resolution))
    ensures step == Post(task.thread) ==> InCriticalSection(s, task.thread)
  {
    if step.RunTask? { assert task in s.queue[1..] ==> task in s.queue; }
  }

  lemma {:induction false} WasPosted(states: seq<State>, steps: seq<Step>, i: nat, task: Task) returns (l: nat)
    requires IsRun(states, steps) && i < |states| && task in states[i].queue
    ensures l < i && steps[l] == Post(task.thread)
    ensures Holds(states[l], task.thread, task.resolution) && InCriticalSection(states[l], task.thread)
    decreases i
  {
    hide Enabled, Apply, Holds, InCriticalSection;
    QueueNext(states[i - 1], steps[i - 1], task);
    if task in states[i - 1].queue {
      l := WasPosted(states, steps, i - 1, task);
    } else {
      l := i - 1;
    }
  }

  /**
   A callback's result is what its thread's own resolution gave; that thread posted the task, and it was
   the first of all threads to enter Finish.
   */
  lemma {:induction false} ResultExact(states: seq<State>, steps: seq<Step>, k: nat)
    returns (resolved: nat, entered: nat, posted: nat)
    requires IsRun(states, steps) && Completes(states, steps, k)
    ensures var c := Completed(states, steps, k);
      && resolved < posted < k && entered < posted
      && steps[resolved] == Resolve(c.thread, c.resolution)
      && FirstToFinish(steps, entered, c.thread)
      && steps[posted] == Post(c.thread)
  {
    hide Enabled, Apply, Inv, Holds, InCriticalSection;
    RunInvariant(states, steps, k);
    CompletionNext(states[k], steps[k]);
    var c := Completed(states, steps, k);
    posted := WasPosted(states, steps, k, Task(c.thread, c.resolution));
    resolved := WasResolved(states, steps, posted, c.thread, c.resolution);
    entered := WasFirst(states, steps, posted, c.thread);
  }

  // ---------- when a Start is safe ----------

  /** A way on from `s` without another Start, on which a callback gets another Start's resolution. */
  ghost predicate MixesUp(s: State, states: seq<State>, steps: seq<Step>) {
    && Path(states, steps) && states[0] == s
    && (forall i :: 0 <= i < |steps| ==> !steps[i].Start?)
    && exists k: nat :: Completes(states, steps, k) && !Completed(states, steps, k).Matches()
  }

  lemma {:induction false} NoNewThreads(states: seq<State>, steps: seq<Step>, i: nat)
    requires Path(states, steps) && (forall i :: 0 <= i < |steps| ==> !steps[i].Start?) && i < |states|
    ensures |states[i].threads| == |states[0].threads| && |states[i].completions| >= |states[0].completions|
    decreases i
  {
    hide Enabled, Apply;
    if i > 0 {
      NoNewThreads(states, steps, i - 1);
      ThreadsNext(states[i - 1], steps[i - 1]);
    }
  }

  /** A Start while an earlier one waits: some thread other than the last can be the one that finishes. */
  ghost predicate Exposed(s: State) {
    && Inv(s) && s.owner == Alive && s.completions == [] && |s.threads| >= 2
    && (forall k :: 0 <= k < |s.queue| ==> s.queue[k].thread < |s.threads| - 1)
    && (s.holder.Some? ==> s.holder.value < |s.threads| - 1)
  }

  predicate SameHosts(s: State, hosts: seq<string>) {
    |s.threads| == |hosts| && forall i :: 0 <= i < |hosts| ==> s.threads[i].host == hosts[i]
  }

  /** `steps'` goes on after `steps` without another Start. */
  ghost predicate GoesOn(steps: seq<Step>, steps': seq<Step>) {
    steps <= steps' && forall i :: |steps| <= i < |steps'| ==> !steps'[i].Start?
  }

  lemma {:induction false} Extend(states: seq<State>, steps: seq<Step>, step: Step)
    returns (states': seq<State>, steps': seq<Step>)
    requires Path(states, steps) && Enabled(states[|steps|], step)
    ensures Path(states', steps') && states <= states' && steps' == steps + [step]
    ensures states'[|steps'|] == Apply(states[|steps|], step)
  {
    states', steps' := states + [Apply(states[|steps|], step)], steps + [step];
  }

  /** What is left for an earlier thread until its task has been posted. */
  lemma {:induction false} PostEarlier(states: seq<State>, steps: seq<Step>, hosts: seq<string>, r: Resolution)
    returns (states': seq<State>, steps': seq<Step>)
    requires Path(states, steps) && Exposed(states[|steps|]) && SameHosts(states[|steps|], hosts)
    ensures Path(states', steps') && states <= states' && GoesOn(steps, steps')
    ensures Exposed(states'[|steps'|]) && SameHosts(states'[|steps'|], hosts) && states'[|steps'|].queue != []
    decreases Distance(states[|steps|])
  {
    hide Inv;
    var s := states[|steps|];
    if s.queue != [] {
      return states, steps;
    }
    var step := EarlierStep(s, r);
    StepCloser(s, hosts, r);
    states', steps' := Extend(states, steps, step);
    states', steps' := PostEarlier(states', steps', hosts, r);
  }

  /** The next step of the thread that holds the mutex, or else of the first. */
  function EarlierStep(s: State, r: Resolution): Step
    requires s.threads != []
  {
    if s.holder.Some? then Post(s.holder.value)
    else if s.threads[0].phase == Resolving then Resolve(0, r)
    else EnterFinish(0)
  }

  ghost function Distance(s: State): nat {
    if s.queue != [] then 0
    else if s.holder.Some? then 1
    else if s.threads != [] && s.threads[0].phase == Resolving then 3
    else 2
  }

  lemma {:induction false} StepCloser(s: State, hosts: seq<string>, r: Resolution)
    requires Exposed(s) && SameHosts(s, hosts) && s.queue == []
    ensures var step := EarlierStep(s, r);
      && !step.Start? && Enabled(s, step)
      && var s' := Apply(s, step);
         Exposed(s') && SameHosts(s', hosts) && Distance(s') < Distance(s)
  {
    var step := EarlierStep(s, r);
    if s.holder.Some? {
      assert InCriticalSection(s, s.holder.value);
    } else {
      assert !InCriticalSection(s, 0);
    }
    InvStep(s, step);
  }

  /** From an exposed state on, an earlier thread's resolution can reach the last callback. */
  lemma {:induction false} MixUp(states: seq<State>, steps: seq<Step>, hosts: seq<string>, r: Resolution)
    returns (states': seq<State>, steps': seq<Step>, k: nat)
    requires Path(states, steps) && Exposed(states[|steps|]) && SameHosts(states[|steps|], hosts)
    ensures Path(states', steps') && states <= states' && GoesOn(steps, steps')
    ensures Completes(states', steps', k) && SameHosts(states'[k], hosts)
    ensures Completed(states', steps', k).thread < Completed(states', steps', k).callback == |hosts| - 1
  {
    states', steps' := PostEarlier(states, steps, hosts, r);
    k := |steps'|;
    states', steps' := Extend(states', steps', RunTask);
  }

  lemma {:induction false} StartExposes(s: State, host: string)
    requires Inv(s) && s.owner == Alive && s.threads != [] && s.completions == []
    ensures Exposed(Apply(s, Start(host)))
  {
    InvStep(s, Start(host));
    if s.holder.Some? { assert InCriticalSection(s, s.holder.value); }
  }

  /**
   Exactly when a Start can go wrong: a continuation without any other Start hands the last callback
   someone else's resolution if and only if, at that Start, an earlier one has not yet called back.
   */
  lemma {:induction false} StartExact(states: seq<State>, steps: seq<Step>, host: string, r: Resolution)
    requires IsRun(states, steps) && states[|steps|].owner == Alive
    ensures var s := states[|steps|];
      (exists states', steps' :: MixesUp(Apply(s, Start(host)), states', steps'))
      <==> s.threads != [] && s.completions == []
  {
    hide Inv;
    var s := states[|steps|];
    RunInvariant(states, steps, |steps|);
    if s.threads != [] && s.completions == [] {
      MixUpAfter(s, host, r);
    } else {
      forall states', steps' | MixesUp(Apply(s, Start(host)), states', steps') ensures false {
        NoMixUpAfter(s, host, states', steps');
      }
    }
  }

  lemma {:induction false} MixUpAfter(s: State, host: string, r: Resolution)
    requires Inv(s) && s.owner == Alive && s.threads != [] && s.completions == []
    ensures exists states, steps :: MixesUp(Apply(s, Start(host)), states, steps)
  {
    hide Inv;
    var s' := Apply(s, Start(host));
    StartExposes(s, host);
    var hosts := seq(|s'.threads|, i requires 0 <= i < |s'.threads| => s'.threads[i].host);
    var states, steps, k := MixUp([s'], [], hosts, r);
    assert MixesUp(s', states, steps);
  }

  lemma {:induction false} NoMixUpAfter(s: State, host: string, states: seq<State>, steps: seq<Step>)
    requires Inv(s) && s.owner == Alive && (s.threads == [] || s.completions != [])
    ensures !MixesUp(Apply(s, Start(host)), states, steps)
  {
    if MixesUp(Apply(s, Start(host)), states, steps) {
      InvStep(s, Start(host));
      var k: nat :| Completes(states, steps, k) && !Completed(states, steps, k).Matches();
      PathInvariant(states, steps, k);
      CompletionNext(states[k], steps[k]);
      NoNewThreads(states, steps, k);
      assert false;
    }
  }

  // ---------- whatever names are started ----------

  /** A run in which exactly these names were started before step `k` calls back. */
  ghost predicate CompletesFor(hosts: seq<string>, states: seq<State>, steps: seq<Step>, k: nat) {
    IsRun(states, steps) && Completes(states, steps, k) && SameHosts(states[k], hosts)
  }

  ghost predicate Matches(states: seq<State>, steps: seq<Step>, k: nat) {
    Completes(states, steps, k) && Completed(states, steps, k).Matches()
  }

  /** The run that only starts the names, one after the other. */
  lemma {:induction false} StartAll(hosts: seq<string>) returns (states: seq<State>, steps: seq<Step>)
    ensures IsRun(states, steps) && states[|steps|].owner == Alive && states[|steps|].completions == []
    ensures SameHosts(states[|steps|], hosts)
  {
    if hosts == [] {
      states, steps := [INITIAL], [];
    } else {
      states, steps := StartAll(hosts[..|hosts| - 1]);
      states, steps := Extend(states, steps, Start(hosts[|hosts| - 1]));
    }
  }

  /** Every interleaving gives the callback its own resolution if and only if at most one Start precedes it. */
  lemma {:induction false} AllMatchExact(hosts: seq<string>, r: Resolution)
    ensures (forall states, steps, k :: CompletesFor(hosts, states, steps, k) ==> Matches(states, steps, k))
            <==> |hosts| <= 1
  {
    hide Inv, SameHosts;
    if |hosts| <= 1 {
      forall states, steps, k | CompletesFor(hosts, states, steps, k) ensures Matches(states, steps, k) {
        OneStartMatches(states, steps, k, hosts);
      }
    } else {
      var states, steps, k := SomeMixUp(hosts, r);
    }
  }

  lemma {:induction false} OneStartMatches(states: seq<State>, steps: seq<Step>, k: nat, hosts: seq<string>)
    requires CompletesFor(hosts, states, steps, k) && |hosts| <= 1
    ensures Matches(states, steps, k)
  {
    hide Enabled, Apply, Inv;
    RunInvariant(states, steps, k);
    CompletionNext(states[k], steps[k]);
  }

  lemma {:induction false} SomeMixUp(hosts: seq<string>, r: Resolution)
    returns (states: seq<State>, steps: seq<Step>, k: nat)
    requires |hosts| >= 2
    ensures CompletesFor(hosts, states, steps, k) && !Matches(states, steps, k)
  {
    hide Inv;
    var n := |hosts| - 1;
    states, steps := StartAll(hosts[..n]);
    RunInvariant(states, steps, |steps|);
    StartExposes(states[|steps|], hosts[n]);
    states, steps := Extend(states, steps, Start(hosts[n]));
    states, steps, k := MixUp(states, steps, hosts, r);
  }
}
