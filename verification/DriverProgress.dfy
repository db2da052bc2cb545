/** What a finished driver request leaves behind, and how many steps a request can take, in every interleaving. */
module DriverProgress {
  import opened DriverGraph
  import opened DriverThreads

  // ------------------------------------------------------------------
  // Finished requests
  // ------------------------------------------------------------------

  /** From state `a` until state `b` thread `t` is inside one request. */
  ghost predicate Serves(run: seq<State>, t: nat, a: nat, b: nat)
  {
    && a < b < |run| && (forall i :: 0 <= i < |run| ==> t < |run[i].stacks|)
    && (forall i :: a <= i < b ==> run[i].stacks[t] != [])
  }

  /** A step changes only the stack of the thread that takes it. */
  lemma OneThreadMoves(g: Graph, s: State, s': State, t: nat, u: nat)
    requires t < |s.stacks| && u < |s.stacks| && NextBy(g, s, s', u)
    ensures |s'.stacks| == |s.stacks| && (t != u ==> s'.stacks[t] == s.stacks[t])
  {
  }

  /** A request stays at the bottom of its stack until it is done. */
  lemma BottomKept(g: Graph, s: State, s': State, t: nat)
    requires Next(g, s, s') && t < |s.stacks| && s.stacks[t] != [] && t < |s'.stacks| && s'.stacks[t] != []
    ensures s'.stacks[t][0].d == s.stacks[t][0].d
  {
    var u :| 0 <= u < |s.stacks| && NextBy(g, s, s', u);
    OneThreadMoves(g, s, s', t, u);
  }

  lemma {:induction false} RequestKept(g: Graph, run: seq<State>, t: nat, a: nat, b: nat, i: nat)
    requires IsRun(g, run) && Serves(run, t, a, b) && a <= i < b
    ensures run[i].stacks[t][0].d == run[a].stacks[t][0].d
    decreases i
  {
    hide Next, Init;
    if i > a {
      RequestKept(g, run, t, a, b, i - 1);
      assert Next(g, run[i - 1], run[i - 1 + 1]);
      BottomKept(g, run[i - 1], run[i], t);
    }
  }

  /** A request ends where the flag of its driver is set. */
  lemma EndsStarted(g: Graph, s: State, s': State, t: nat)
    requires Inv(g, s) && Next(g, s, s') && t < |s.stacks| && s.stacks[t] != []
    requires t < |s'.stacks| && s'.stacks[t] == []
    ensures s.stacks[t][0].d in s'.isStarted
  {
    hide LockOk, SetsOk, FlagsOk;
    var u :| 0 <= u < |s.stacks| && NextBy(g, s, s', u);
    OneThreadMoves(g, s, s', t, u);
    assert StackOk(g, s.stacks[t], s.drivers, s.isStarted);
  }

  /** When a request is done its driver is constructed, started and published, so is everything it depends
      on, and no dependency cycle can be reached from it. */
  lemma FinishedRequest(g: Graph, run: seq<State>, t: nat, a: nat, b: nat)
    requires IsRun(g, run) && Serves(run, t, a, b) && run[b].stacks[t] == []
    ensures var d := run[a].stacks[t][0].d;
            && d in run[b].drivers && d in run[b].devices && d in run[b].isStarted
            && (forall y :: CanReach(g, d, y) ==> y in run[b].drivers)
            && !CycleReachable(g, d)
  {
    hide Inv, Next, Init, CanReach, CycleReachable;
    var d := run[a].stacks[t][0].d;
    RequestKept(g, run, t, a, b, b - 1);
    RunKeeps(g, run, b - 1);
    assert Next(g, run[b - 1], run[b - 1 + 1]);
    EndsStarted(g, run[b - 1], run[b], t);
    StartedMeansUsable(g, run, b, d);
    ConstructedOnceAndInOrder(g, run, b);
    HistoryExcludesCycles(g, run[b].history, d);
  }

  // ------------------------------------------------------------------
  // How long a request can take
  // ------------------------------------------------------------------

  /** Drivers that no thread has begun to construct. */
  function Untouched(g: Graph, s: State): set<nat>
  {
    set d: nat | 0 <= d < |g| && d !in s.started && d !in s.starting
  }

  /** All dependencies of all drivers. */
  function Dependencies(g: Graph): nat
  {
    if g == [] then 0 else |g[0]| + Dependencies(g[1..])
  }

  /** More steps than one constructor takes, not counting those inside other constructors. */
  function OneDriver(g: Graph): nat
  {
    10 * Dependencies(g) + 6
  }

  /** The steps an activation has before it, if every driver it asks for is there. */
  function Weight(g: Graph, f: Frame): nat
  {
    match f.phase
    case Check => 9
    case Lock => 8
    case Recheck => 7
    case Alloc => 6
    case Building(next) => if f.d < |g| && next <= |g[f.d]| then 10 * (|g[f.d]| - next) + 5 else 0
    case Built => 4
    case Publish => 3
    case Announce => 2
    case Unlock => 1
  }

  function StackWeight(g: Graph, k: seq<Frame>): nat
  {
    if k == [] then 0 else StackWeight(g, Below(k)) + Weight(g, Top(k))
  }

  /** The steps that thread `t` still has before it, at most. */
  function Cost(g: Graph, s: State, t: nat): nat
    requires t < |s.stacks|
  {
    OneDriver(g) * |Untouched(g, s)| + StackWeight(g, s.stacks[t])
  }

  lemma {:induction false} SomeDependencies(g: Graph, d: nat)
    requires d < |g|
    ensures |g[d]| <= Dependencies(g)
    decreases |g|
  {
    if d > 0 {
      SomeDependencies(g[1..], d - 1);
    }
  }

  lemma PushWeight(g: Graph, k: seq<Frame>, f: Frame)
    ensures StackWeight(g, k + [f]) == StackWeight(g, k) + Weight(g, f)
  {
    assert Below(k + [f]) == k;
  }

  lemma Fewer(xs: set<nat>, ys: set<nat>)
    requires xs <= ys
    ensures |xs| <= |ys|
  {
    assert ys == xs + (ys - xs);
  }

  /** No step makes a driver untouched again. */
  lemma UntouchedShrinks(g: Graph, s: State, s': State)
    requires Next(g, s, s')
    ensures |Untouched(g, s')| <= |Untouched(g, s)|
  {
    var u :| 0 <= u < |s.stacks| && NextBy(g, s, s', u);
    assert s.started + s.starting <= s'.started + s'.starting;
    forall d | d in Untouched(g, s')
      ensures d in Untouched(g, s)
    {
      assert d !in s'.started + s'.starting;
    }
    Fewer(Untouched(g, s'), Untouched(g, s));
  }

  /** Moving the top activation on to a cheaper phase. */
  lemma GotoIsCheaper(g: Graph, s: State, t: nat, phase: Phase)
    requires t < |s.stacks| && s.stacks[t] != []
    ensures var k := s.stacks[t];
            StackWeight(g, Goto(s, t, phase).stacks[t])
            == StackWeight(g, k) - Weight(g, Top(k)) + Weight(g, Frame(Top(k).d, phase))
  {
    PushWeight(g, Below(s.stacks[t]), Frame(Top(s.stacks[t]).d, phase));
  }

  /** Asking for a dependency. */
  lemma CallIsCheaper(g: Graph, s: State, t: nat, next: nat)
    requires At(g, s, t, Building(next)) && next < |g[Top(s.stacks[t]).d]|
    ensures StackWeight(g, Step(g, s, t).stacks[t]) < StackWeight(g, s.stacks[t])
  {
    hide Inv;
    var k, d := s.stacks[t], Top(s.stacks[t]).d;
    var waiting, asked := Frame(d, Building(next + 1)), Frame(g[d][next], Check);
    PushWeight(g, Below(k), waiting);
    PushWeight(g, Below(k) + [waiting], asked);
    assert Below(k) + [waiting, asked] == Below(k) + [waiting] + [asked];
  }

  /** Beginning a constructor costs a whole driver, but leaves one fewer untouched. */
  lemma ConstructorIsPaid(g: Graph, s: State, t: nat)
    requires At(g, s, t, Alloc) && Top(s.stacks[t]).d !in s.started && Top(s.stacks[t]).d !in s.starting
    ensures Cost(g, Step(g, s, t), t) < Cost(g, s, t)
  {
    hide Inv;
    var d, s' := Top(s.stacks[t]).d, Step(g, s, t);
    GotoIsCheaper(g, s, t, Building(0));
    SomeDependencies(g, d);
    assert Untouched(g, s') == Untouched(g, s) - {d} && d in Untouched(g, s);
    assert OneDriver(g) * |Untouched(g, s)| == OneDriver(g) * |Untouched(g, s')| + OneDriver(g);
  }

  /** Every step of a thread's own, short of a report, lowers its cost. */
  lemma StepCosts(g: Graph, s: State, t: nat)
    requires Inv(g, s) && CanStep(s, t) && Top(s.stacks[t]).d < |g| && !Step(g, s, t).reported
    ensures |Step(g, s, t).stacks| == |s.stacks| && Cost(g, Step(g, s, t), t) < Cost(g, s, t)
  {
    hide LockOk, SetsOk, FlagsOk, OneDriver;
    var k, s' := s.stacks[t], Step(g, s, t);
    var f := Top(k);
    assert TopOk(g, f, s.drivers, s.isStarted) by { TopDriver(g, k, s.drivers, s.isStarted); }
    if f.phase.Alloc? && f.d !in s.started {
      ConstructorIsPaid(g, s, t);
    } else {
      SameUntouched(g, s, t);
      match f.phase
      case Check => GotoIsCheaper(g, s, t, Lock);
      case Lock => GotoIsCheaper(g, s, t, Recheck);
      case Recheck => GotoIsCheaper(g, s, t, Unlock); GotoIsCheaper(g, s, t, Alloc);
      case Alloc => GotoIsCheaper(g, s, t, Publish);
      case Building(next) =>
        if next < |g[f.d]| {
          CallIsCheaper(g, s, t, next);
        } else {
          GotoIsCheaper(g, s, t, Built);
        }
      case Built => GotoIsCheaper(g, s, t, Publish);
      case Publish => GotoIsCheaper(g, s, t, Announce);
      case Announce => GotoIsCheaper(g, s, t, Unlock);
      case Unlock =>
    }
  }

  lemma SameUntouched(g: Graph, s: State, t: nat)
    requires Inv(g, s) && CanStep(s, t) && Top(s.stacks[t]).d < |g| && !Step(g, s, t).reported
    requires Top(s.stacks[t]).phase.Alloc? ==> Top(s.stacks[t]).d in s.started
    ensures Untouched(g, Step(g, s, t)) == Untouched(g, s)
  {
    hide SetsOk, StackOk;
    var k, s' := s.stacks[t], Step(g, s, t);
    if Top(k).phase.Built? {
      LockedMeansOwner(s, t);
      assert InConstruction(k[|k| - 1]);
    }
  }

  /** The steps in which thread `t` moved, among the steps `a` to `b`. */
  function Moves(run: seq<State>, t: nat, a: nat, b: nat): nat
    requires a <= b < |run| && forall i :: 0 <= i < |run| ==> t < |run[i].stacks|
    decreases b
  {
    if a == b then 0
    else Moves(run, t, a, b - 1) + if run[b - 1].stacks[t] != run[b].stacks[t] then 1 else 0
  }

  /** One step of the run pays for itself. */
  lemma NextCosts(g: Graph, s: State, s': State, t: nat)
    requires Inv(g, s) && Next(g, s, s') && t < |s.stacks| && s.stacks[t] != [] && t < |s'.stacks|
    ensures Cost(g, s', t) + (if s'.stacks[t] != s.stacks[t] then 1 else 0) <= Cost(g, s, t)
  {
    hide Inv, OneDriver, Untouched, StackWeight;
    var u :| 0 <= u < |s.stacks| && NextBy(g, s, s', u);
    OneThreadMoves(g, s, s', t, u);
    UntouchedShrinks(g, s, s');
    if u == t && !s'.reported {
      StepCosts(g, s, t);
    } else {
      assert s'.stacks[t] == s.stacks[t];
      FewerDrivers(OneDriver(g), |Untouched(g, s')|, |Untouched(g, s)|);
    }
  }

  lemma FewerDrivers(each: nat, m: nat, n: nat)
    requires m <= n
    ensures each * m <= each * n
  {
  }

  /** However threads interleave and whatever the others request meanwhile, a thread moves no more often
      during a request than the request's cost at its beginning. */
  lemma {:induction false} RequestIsBounded(g: Graph, run: seq<State>, t: nat, a: nat, b: nat, i: nat)
    requires IsRun(g, run) && Serves(run, t, a, b) && a <= i <= b
    ensures Moves(run, t, a, i) + Cost(g, run[i], t) <= Cost(g, run[a], t)
    decreases i
  {
    hide Inv, Next, Init, Cost;
    if i > a {
      RequestIsBounded(g, run, t, a, b, i - 1);
      RunKeeps(g, run, i - 1);
      assert Next(g, run[i - 1], run[i - 1 + 1]);
      NextCosts(g, run[i - 1], run[i], t);
    }
  }

  /** A request that begins costs at most nine steps and one construction of every driver. */
  lemma RequestTakesFewSteps(g: Graph, run: seq<State>, t: nat, a: nat, b: nat, d: nat)
    requires IsRun(g, run) && Serves(run, t, a, b) && run[a].stacks[t] == [Frame(d, Check)]
    ensures Moves(run, t, a, b) <= OneDriver(g) * |g| + 9
  {
    hide Inv, Next, Init, OneDriver;
    RequestIsBounded(g, run, t, a, b, b);
    PushWeight(g, [], Frame(d, Check));
    assert [] + [Frame(d, Check)] == [Frame(d, Check)];
    UntouchedBound(g, run[a]);
    FewerDrivers(OneDriver(g), |Untouched(g, run[a])|, |g|);
  }

  lemma UntouchedBound(g: Graph, s: State)
    ensures |Untouched(g, s)| <= |g|
  {
    FewNumbers(Untouched(g, s), |g|);
  }

  lemma {:induction false} FewNumbers(xs: set<nat>, n: nat)
    requires forall x :: x in xs ==> x < n
    ensures |xs| <= n
    decreases n
  {
    if n > 0 {
      FewNumbers(xs - {n - 1}, n - 1);
    } else {
      assert forall x :: x !in xs;
      assert xs == {};
    }
  }

  // ------------------------------------------------------------------
  // How long a run can take
  // ------------------------------------------------------------------

  function AllWeights(g: Graph, ks: seq<seq<Frame>>): nat
  {
    if ks == [] then 0 else StackWeight(g, ks[0]) + AllWeights(g, ks[1..])
  }

  function TotalCost(g: Graph, s: State): nat
  {
    OneDriver(g) * |Untouched(g, s)| + AllWeights(g, s.stacks)
  }

  lemma {:induction false} ReplaceWeight(g: Graph, ks: seq<seq<Frame>>, t: nat, k: seq<Frame>)
    requires t < |ks|
    ensures AllWeights(g, ks[t := k]) == AllWeights(g, ks) - StackWeight(g, ks[t]) + StackWeight(g, k)
    decreases |ks|
  {
    hide StackWeight;
    if t == 0 {
      assert ks[t := k][1..] == ks[1..];
    } else {
      ReplaceWeight(g, ks[1..], t - 1, k);
      assert ks[t := k][1..] == ks[1..][t - 1 := k];
    }
  }

  ghost predicate Begins(s: State, s': State)
  {
    exists t :: 0 <= t < |s.stacks| && t < |s'.stacks| && s.stacks[t] == [] && s'.stacks[t] != []
  }

  /** The requests begun in the first `n` steps. */
  ghost function Requests(run: seq<State>, n: nat): nat
    requires n < |run|
  {
    if n == 0 then 0 else Requests(run, n - 1) + if Begins(run[n - 1], run[n]) then 1 else 0
  }

  lemma NextTotal(g: Graph, s: State, s': State)
    requires Inv(g, s) && Next(g, s, s') && !s'.reported
    ensures TotalCost(g, s') + 1 <= TotalCost(g, s) + if Begins(s, s') then 10 else 0
  {
    hide Inv, OneDriver, Untouched, StackWeight, AllWeights;
    var t :| 0 <= t < |s.stacks| && NextBy(g, s, s', t);
    OneThreadMoves(g, s, s', t, t);
    ReplaceWeight(g, s.stacks, t, s'.stacks[t]);
    OnlyOneStack(g, s, s', t);
    if s.stacks[t] == [] {
      assert s'.stacks[t] != [];
      NewRequest(g, s, s', t);
    } else {
      StepCosts(g, s, t);
    }
  }

  lemma OnlyOneStack(g: Graph, s: State, s': State, t: nat)
    requires t < |s.stacks| && NextBy(g, s, s', t)
    ensures |s'.stacks| == |s.stacks| && s'.stacks == s.stacks[t := s'.stacks[t]]
  {
    forall u | 0 <= u < |s.stacks|
      ensures |s'.stacks| == |s.stacks| && s'.stacks[u] == s.stacks[t := s'.stacks[t]][u]
    {
      OneThreadMoves(g, s, s', u, t);
    }
  }

  lemma NewRequest(g: Graph, s: State, s': State, t: nat)
    requires t < |s.stacks| && s.stacks[t] == [] && NextBy(g, s, s', t) && |s'.stacks| == |s.stacks|
    ensures StackWeight(g, s.stacks[t]) == 0 && StackWeight(g, s'.stacks[t]) == 9
    ensures Untouched(g, s') == Untouched(g, s)
  {
    var d :| 0 <= d < |g| && s' == With(s, t, [Frame(d, Check)]);
    PushWeight(g, [], Frame(d, Check));
    assert [] + [Frame(d, Check)] == [Frame(d, Check)];
  }

  /** Every run ends: any number of threads that make a number of requests between them take at most ten
      steps for each request and the steps of one construction of every driver. */
  lemma {:induction false} RunsEnd(g: Graph, run: seq<State>, n: nat)
    requires IsRun(g, run) && n < |run| && !run[n].reported
    ensures n + TotalCost(g, run[n]) <= 10 * Requests(run, n) + OneDriver(g) * |g|
    decreases n
  {
    hide Inv, Next, OneDriver, Begins;
    if n == 0 {
      UntouchedBound(g, run[0]);
      FewerDrivers(OneDriver(g), |Untouched(g, run[0])|, |g|);
      IdleThreads(g, run[0].stacks);
    } else {
      assert Next(g, run[n - 1], run[n - 1 + 1]);
      NotYetReported(g, run[n - 1], run[n]);
      RunsEnd(g, run, n - 1);
      RunKeeps(g, run, n - 1);
      NextTotal(g, run[n - 1], run[n]);
    }
  }

  lemma NotYetReported(g: Graph, s: State, s': State)
    requires Next(g, s, s')
    ensures !s.reported
  {
  }

  lemma {:induction false} IdleThreads(g: Graph, ks: seq<seq<Frame>>)
    requires forall t :: 0 <= t < |ks| ==> ks[t] == []
    ensures AllWeights(g, ks) == 0
    decreases |ks|
  {
    if ks != [] {
      IdleThreads(g, ks[1..]);
    }
  }

  // ------------------------------------------------------------------
  // Cyclic requests
  // ------------------------------------------------------------------

  /** A request from which a cycle is reachable is never finished. */
  lemma {:induction false} CyclicRequestStays(g: Graph, run: seq<State>, t: nat, a: nat, n: nat)
    requires IsRun(g, run) && a <= n < |run| && forall i :: 0 <= i < |run| ==> t < |run[i].stacks|
    requires run[a].stacks[t] != [] && CycleReachable(g, run[a].stacks[t][0].d)
    ensures forall i :: a <= i <= n ==> run[i].stacks[t] != []
    ensures run[n].stacks[t][0].d == run[a].stacks[t][0].d
    decreases n
  {
    hide Next, Init, CycleReachable;
    if n > a {
      CyclicRequestStays(g, run, t, a, n - 1);
      if run[n].stacks[t] == [] {
        FinishedRequest(g, run, t, a, n);
      } else {
        assert Next(g, run[n - 1], run[n - 1 + 1]);
        BottomKept(g, run[n - 1], run[n], t);
      }
    }
  }

  /** A circular dependency is always reported. Until it is, the request stays unfinished and some thread
      can take a step, but the steps are limited by the number of requests; so a run in which no further
      request begins comes to the report. */
  lemma CyclicRequestForcesReport(g: Graph, run: seq<State>, t: nat, a: nat, n: nat) returns (s': State)
    requires IsRun(g, run) && a <= n < |run| && forall i :: 0 <= i < |run| ==> t < |run[i].stacks|
    requires run[a].stacks[t] != [] && CycleReachable(g, run[a].stacks[t][0].d)
    requires !run[n].reported
    ensures run[n].stacks[t] != [] && run[n].stacks[t][0].d == run[a].stacks[t][0].d
    ensures Next(g, run[n], s') && !Begins(run[n], s')
    ensures n <= 10 * Requests(run, n) + OneDriver(g) * |g|
  {
    CyclicRequestStays(g, run, t, a, n);
    RunsEnd(g, run, n);
    var u := SomeThreadCanMove(g, run, n, t);
    s' := Step(g, run[n], u);
    assert NextBy(g, run[n], s', u);
    forall v | 0 <= v < |run[n].stacks| && v < |s'.stacks| && run[n].stacks[v] == []
      ensures s'.stacks[v] == []
    {
      OneThreadMoves(g, run[n], s', v, u);
    }
  }
}
