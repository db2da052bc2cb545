/**
 Session threads: every interleaving of session_thread_call (server/core/server.hpp) over one shared
 session manager. Creating and deleting a session happen under its mutex, so each is one step.
 */
module SessionThreads {
  import opened SessionPool

  datatype Phase =
    | Waiting            // not started
    | Counted            // number_of_threads incremented
    | Created(sid: int)  // holds a session id
    | Running(sid: int)  // has looked its session up and runs it
    | Deleted            // session deleted
    | Finished           // number_of_threads decremented

  datatype Thread = Thread(listener: nat, phase: Phase)

  /** `pool` maps an id to the thread whose session it is; `counters` holds number_of_threads per listener. */
  datatype State = State(threads: seq<Thread>, pool: Pool<nat>, counters: seq<int>)

  predicate Init(s: State)
  {
    && s.pool == Empty()
    && (forall t :: 0 <= t < |s.threads| ==> s.threads[t].phase == Waiting && s.threads[t].listener < |s.counters|)
    && (forall l :: 0 <= l < |s.counters| ==> s.counters[l] == 0)
  }

  function Goto(threads: seq<Thread>, t: nat, phase: Phase): seq<Thread>
    requires t < |threads|
  {
    threads[t := Thread(threads[t].listener, phase)]
  }

  function Bump(counters: seq<int>, l: nat, change: int): seq<int>
  {
    if l < |counters| then counters[l := counters[l] + change] else counters
  }

  /** The next step of thread `t`. Looking up an unknown session throws, which ends the server. */
  predicate NextBy(s: State, s': State, t: nat)
    requires t < |s.threads|
  {
    var l := s.threads[t].listener;
    match s.threads[t].phase
    case Waiting => s' == State(Goto(s.threads, t, Counted), s.pool, Bump(s.counters, l, 1))
    case Counted => s' == State(Goto(s.threads, t, Created(NewId(s.pool))), Create(s.pool, t), s.counters)
    case Created(sid) => sid in s.pool.sessions && s' == State(Goto(s.threads, t, Running(sid)), s.pool, s.counters)
    case Running(sid) => s' == State(Goto(s.threads, t, Deleted), Delete(s.pool, sid), s.counters)
    case Deleted => s' == State(Goto(s.threads, t, Finished), s.pool, Bump(s.counters, l, -1))
    case Finished => false
  }

  predicate Next(s: State, s': State)
  {
    exists t :: 0 <= t < |s.threads| && NextBy(s, s', t)
  }

  /** The thread has been given a session id and has not deleted the session. */
  predicate HoldsId(p: Phase)
  {
    p.Created? || p.Running?
  }

  predicate InService(p: Phase)
  {
    !p.Waiting? && !p.Finished?
  }

  /** Threads of a listener between the increment and the decrement of its counter. */
  function Count(threads: seq<Thread>, l: nat): nat
  {
    if threads == [] then 0
    else
      var last := threads[|threads| - 1];
      Count(threads[..|threads| - 1], l) + (if last.listener == l && InService(last.phase) then 1 else 0)
  }

  lemma {:induction false} CountChanges(threads: seq<Thread>, l: nat, t: nat, th: Thread)
    requires t < |threads| && th.listener == threads[t].listener
    ensures Count(threads[t := th], l)
         == Count(threads, l)
            + (if th.listener == l && InService(th.phase) then 1 else 0)
            - (if th.listener == l && InService(threads[t].phase) then 1 else 0)
    decreases |threads|
  {
    var n := |threads| - 1;
    var changed := threads[t := th];
    if t == n {
      assert changed[..n] == threads[..n];
    } else {
      assert changed[..n] == threads[..n][t := th];
      CountChanges(threads[..n], l, t, th);
    }
  }

  lemma {:induction false} NoneInService(threads: seq<Thread>, l: nat)
    requires forall t :: 0 <= t < |threads| ==> threads[t].phase == Waiting
    ensures Count(threads, l) == 0
    decreases |threads|
  {
    if threads != [] {
      NoneInService(threads[..|threads| - 1], l);
    }
  }

  // ------------------------------------------------------------------
  // Invariant
  // ------------------------------------------------------------------

  /** Sessions and the threads that hold them correspond one to one. */
  ghost predicate Owned(threads: seq<Thread>, pool: Pool<nat>)
  {
    && (forall t :: 0 <= t < |threads| && HoldsId(threads[t].phase) ==>
          threads[t].phase.sid in pool.sessions && pool.sessions[threads[t].phase.sid] == t)
    && (forall sid :: sid in pool.sessions ==>
          && pool.sessions[sid] < |threads|
          && HoldsId(threads[pool.sessions[sid]].phase) && threads[pool.sessions[sid]].phase.sid == sid)
  }

  ghost predicate Counters(threads: seq<Thread>, counters: seq<int>)
  {
    && (forall t :: 0 <= t < |threads| ==> threads[t].listener < |counters|)
    && (forall l :: 0 <= l < |counters| ==> counters[l] == Count(threads, l))
  }

  ghost predicate Valid(s: State, peak: nat)
  {
    SessionPool.Inv(s.pool, peak) && Owned(s.threads, s.pool) && Counters(s.threads, s.counters)
  }

  lemma InitValid(s: State)
    requires Init(s)
    ensures Valid(s, 0)
  {
    forall l | 0 <= l < |s.counters|
      ensures s.counters[l] == Count(s.threads, l)
    {
      NoneInService(s.threads, l);
    }
  }

  lemma CountersKeep(s: State, s': State, t: nat)
    requires t < |s.threads| && NextBy(s, s', t) && Counters(s.threads, s.counters)
    ensures Counters(s'.threads, s'.counters)
  {
    forall l | 0 <= l < |s'.counters|
      ensures s'.counters[l] == Count(s'.threads, l)
    {
      CountChanges(s.threads, l, t, s'.threads[t]);
    }
  }

  lemma OwnedKeeps(s: State, s': State, t: nat)
    requires t < |s.threads| && NextBy(s, s', t) && Owned(s.threads, s.pool)
    requires NewId(s.pool) !in s.pool.sessions
    ensures Owned(s'.threads, s'.pool)
  {
    assert HoldsId(s.threads[t].phase) ==> s.pool.sessions[s.threads[t].phase.sid] == t;
  }

  lemma NextKeeps(s: State, s': State, peak: nat) returns (peak': nat)
    requires Valid(s, peak) && Next(s, s')
    ensures Valid(s', peak')
  {
    hide SessionPool.Inv, Counters, Owned;
    var t :| 0 <= t < |s.threads| && NextBy(s, s', t);
    CountersKeep(s, s', t);
    NewIdIsFree(s.pool, peak);
    OwnedKeeps(s, s', t);
    peak' := peak;
    match s.threads[t].phase
    case Waiting =>
    case Counted =>
      CreateKeeps(s.pool, peak, t);
      peak' := Max(peak, |s.pool.sessions| + 1);
    case Created(sid) =>
    case Running(sid) =>
      DeleteKeeps(s.pool, peak, sid);
    case Deleted =>
    case Finished =>
  }

  // ------------------------------------------------------------------
  // Whole runs
  // ------------------------------------------------------------------

  ghost predicate IsRun(run: seq<State>)
  {
    run != [] && Init(run[0]) && forall i :: 0 <= i < |run| - 1 ==> Next(run[i], run[i + 1])
  }

  lemma {:induction false} RunKeeps(run: seq<State>, i: nat) returns (peak: nat)
    requires IsRun(run) && i < |run|
    ensures Valid(run[i], peak)
    decreases i
  {
    hide Valid, Next, Init;
    if i == 0 {
      InitValid(run[0]);
      peak := 0;
    } else {
      var before := RunKeeps(run, i - 1);
      assert Next(run[i - 1], run[i - 1 + 1]);
      peak := NextKeeps(run[i - 1], run[i], before);
    }
  }

  /** In every interleaving two threads never hold the same session id. */
  lemma IdsAreExclusive(run: seq<State>, i: nat, t: nat, u: nat)
    requires IsRun(run) && i < |run| && t < |run[i].threads| && u < |run[i].threads|
    requires HoldsId(run[i].threads[t].phase) && HoldsId(run[i].threads[u].phase)
    requires run[i].threads[t].phase.sid == run[i].threads[u].phase.sid
    ensures t == u
  {
    var peak := RunKeeps(run, i);
  }

  /** A thread that holds an id finds its own session under it, so the lookup after creation cannot fail and
      the deletion removes that session and no other. */
  lemma EachThreadDeletesItsOwn(run: seq<State>, i: nat, t: nat)
    requires IsRun(run) && i < |run| && t < |run[i].threads| && HoldsId(run[i].threads[t].phase)
    ensures var sid := run[i].threads[t].phase.sid;
            && sid in run[i].pool.sessions && run[i].pool.sessions[sid] == t
            && Delete(run[i].pool, sid).sessions == run[i].pool.sessions - {sid}
  {
    var peak := RunKeeps(run, i);
  }

  /** The counter of a listener is the number of its threads in service, and the session counter is the size
      of the pool. */
  lemma CountersAreExact(run: seq<State>, i: nat, l: nat)
    requires IsRun(run) && i < |run| && l < |run[i].counters|
    ensures run[i].counters[l] == Count(run[i].threads, l)
    ensures run[i].pool.count == |run[i].pool.sessions|
  {
    var peak := RunKeeps(run, i);
  }
}
