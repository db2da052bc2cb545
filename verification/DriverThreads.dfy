/**
 Session threads that request drivers at the same time: every interleaving of `get` and `alloc_driver`,
 one step for each access to shared state. The early `is_started` tests run without the mutex.
 */
module DriverThreads {
  import opened DriverGraph

  /** Where a thread is inside one activation of get, alloc_driver and alloc. */
  datatype Phase =
    | Check                // get: unlocked test of the manager's flag
    | Lock                 // alloc_driver: take the recursive mutex
    | Recheck              // test again under the mutex
    | Alloc                // the container's started and starting tests
    | Building(next: nat)  // in the constructor, before its next `get`
    | Built                // driver object stored, still marked as starting
    | Publish              // store the interface object
    | Announce             // set the manager's flag
    | Unlock

  datatype Frame = Frame(d: nat, phase: Phase)

  datatype Owner = Free | HeldBy(t: nat)

  datatype State = State(
    stacks: seq<seq<Frame>>,   // one activation stack per thread
    owner: Owner, depth: nat,  // the recursive mutex
    starting: set<nat>, started: set<nat>, isStarted: set<nat>,
    drivers: set<nat>, devices: set<nat>,
    history: seq<nat>,         // constructors in the order they finished
    reported: bool)            // a circular dependency was reported; the process ends

  predicate Init(s: State)
  {
    && (forall t :: 0 <= t < |s.stacks| ==> s.stacks[t] == [])
    && s.owner == Free && s.depth == 0 && s.history == [] && !s.reported
    && s.starting == {} && s.started == {} && s.isStarted == {} && s.drivers == {} && s.devices == {}
  }

  function Top(k: seq<Frame>): Frame
    requires k != []
  {
    k[|k| - 1]
  }

  function Below(k: seq<Frame>): seq<Frame>
    requires k != []
  {
    k[..|k| - 1]
  }

  /** Replace the stack of thread `t`. */
  function With(s: State, t: nat, k: seq<Frame>): State
    requires t < |s.stacks|
  {
    s.(stacks := s.stacks[t := k])
  }

  function Goto(s: State, t: nat, phase: Phase): State
    requires t < |s.stacks| && s.stacks[t] != []
  {
    With(s, t, Below(s.stacks[t]) + [Frame(Top(s.stacks[t]).d, phase)])
  }

  /** A thread waits at Lock while another one holds the mutex. */
  predicate CanStep(s: State, t: nat)
  {
    t < |s.stacks| && s.stacks[t] != [] && (Top(s.stacks[t]).phase.Lock? ==> s.owner == Free || s.owner == HeldBy(t))
  }

  /** The next step of thread `t`. */
  function Step(g: Graph, s: State, t: nat): State
    requires CanStep(s, t) && Top(s.stacks[t]).d < |g|
  {
    var k := s.stacks[t];
    var d := Top(k).d;
    match Top(k).phase
    case Check => if d in s.isStarted then With(s, t, Below(k)) else Goto(s, t, Lock)
    case Lock => Goto(s, t, Recheck).(owner := HeldBy(t), depth := s.depth + 1)
    case Recheck => Goto(s, t, if d in s.isStarted then Unlock else Alloc)
    case Alloc =>
      if d in s.started then Goto(s, t, Publish)
      else if d in s.starting then s.(reported := true)
      else Goto(s, t, Building(0)).(starting := s.starting + {d})
    case Building(next) =>
      if next < |g[d]| then
        With(s, t, Below(k) + [Frame(d, Building(next + 1)), Frame(g[d][next], Check)])
      else Goto(s, t, Built).(drivers := s.drivers + {d}, history := s.history + [d])
    case Built => Goto(s, t, Publish).(starting := s.starting - {d}, started := s.started + {d})
    case Publish => Goto(s, t, Announce).(devices := s.devices + {d})
    case Announce => Goto(s, t, Unlock).(isStarted := s.isStarted + {d})
    case Unlock =>
      With(s, t, Below(k)).(depth := if s.depth > 0 then s.depth - 1 else 0, owner := if s.depth <= 1 then Free else s.owner)
  }

  predicate Next(g: Graph, s: State, s': State)
  {
    !s.reported &&
    exists t :: 0 <= t < |s.stacks| && NextBy(g, s, s', t)
  }

  /** Thread `t` starts a request for some driver, or takes its next step. */
  predicate NextBy(g: Graph, s: State, s': State, t: nat)
    requires t < |s.stacks|
  {
    if s.stacks[t] == [] then exists d :: 0 <= d < |g| && s' == With(s, t, [Frame(d, Check)])
    else CanStep(s, t) && Top(s.stacks[t]).d < |g| && s' == Step(g, s, t)
  }

  // ------------------------------------------------------------------
  // The invariant
  // ------------------------------------------------------------------

  predicate Locked(p: Phase)
  {
    !p.Check? && !p.Lock?
  }

  predicate InConstruction(f: Frame)
  {
    f.phase.Building? || f.phase.Built?
  }

  /** How often the thread has locked the mutex: once per activation that got past Lock. */
  function Held(k: seq<Frame>): nat
  {
    if k == [] then 0 else |k| - 1 + (if Locked(Top(k).phase) then 1 else 0)
  }

  ghost predicate LockOk(s: State)
  {
    && (s.owner.HeldBy? ==> s.owner.t < |s.stacks| && s.depth == Held(s.stacks[s.owner.t]) > 0)
    && (s.owner.Free? ==> s.depth == 0)
    && (forall t :: 0 <= t < |s.stacks| && s.owner != HeldBy(t) ==> Held(s.stacks[t]) == 0)
  }

  ghost predicate AllIn(ds: seq<nat>, n: nat, xs: set<nat>)
    requires n <= |ds|
  {
    forall i :: 0 <= i < n ==> ds[i] in xs
  }

  /** One frame of a stack, not the top: waiting for the dependency above it. */
  ghost predicate WaitingOk(g: Graph, f: Frame, above: Frame, drivers: set<nat>)
  {
    && f.d < |g| && f.phase.Building? && 1 <= f.phase.next <= |g[f.d]|
    && above.d == g[f.d][f.phase.next - 1] && AllIn(g[f.d], f.phase.next - 1, drivers)
  }

  ghost predicate TopOk(g: Graph, f: Frame, drivers: set<nat>, isStarted: set<nat>)
  {
    && f.d < |g|
    && (f.phase.Building? ==> f.phase.next <= |g[f.d]| && AllIn(g[f.d], f.phase.next, drivers))
    && (f.phase.Publish? || f.phase.Announce? ==> f.d in drivers)
    && (f.phase.Unlock? ==> f.d in isStarted)
  }

  ghost predicate StackOk(g: Graph, k: seq<Frame>, drivers: set<nat>, isStarted: set<nat>)
  {
    && (k != [] ==> TopOk(g, Top(k), drivers, isStarted))
    && (forall i :: 0 <= i < |k| - 1 ==> WaitingOk(g, k[i], k[i + 1], drivers))
  }

  /** The flags, as the stack of the mutex's owner explains them. */
  ghost predicate FlagsOk(s: State, k: seq<Frame>)
  {
    && (forall i :: 0 <= i < |k| && InConstruction(k[i]) ==>
          && k[i].d in s.starting && k[i].d !in s.started
          && (k[i].phase.Built? <==> k[i].d in s.drivers))
    && (forall i, j :: 0 <= i < j < |k| && InConstruction(k[i]) && InConstruction(k[j]) ==> k[i].d != k[j].d)
    && (forall x :: x in s.starting ==> exists i :: 0 <= i < |k| && InConstruction(k[i]) && k[i].d == x)
    && (forall i :: 0 <= i < |k| && (k[i].phase.Publish? || k[i].phase.Announce?) ==> k[i].d in s.started)
    && (forall i :: 0 <= i < |k| && k[i].phase.Announce? ==> k[i].d in s.devices)
  }

  ghost predicate SetsOk(g: Graph, s: State)
  {
    && s.isStarted <= s.devices <= s.started <= s.drivers <= s.started + s.starting
    && (forall x :: x in s.history <==> x in s.drivers)
    && Topological(g, s.history)
  }

  function OwnerStack(s: State): seq<Frame>
  {
    if s.owner.HeldBy? && s.owner.t < |s.stacks| then s.stacks[s.owner.t] else []
  }

  ghost predicate Inv(g: Graph, s: State)
  {
    && IsGraph(g) && LockOk(s) && SetsOk(g, s) && FlagsOk(s, OwnerStack(s))
    && (forall t :: 0 <= t < |s.stacks| ==> StackOk(g, s.stacks[t], s.drivers, s.isStarted))
  }

  lemma InitInv(g: Graph, s: State)
    requires IsGraph(g) && Init(s)
    ensures Inv(g, s)
  {
  }

  // ------------------------------------------------------------------
  // Every step keeps it
  // ------------------------------------------------------------------

  lemma StacksGrow(g: Graph, k: seq<Frame>, drivers: set<nat>, isStarted: set<nat>, drivers': set<nat>, isStarted': set<nat>)
    requires StackOk(g, k, drivers, isStarted) && drivers <= drivers' && isStarted <= isStarted'
    ensures StackOk(g, k, drivers', isStarted')
  {
    forall i | 0 <= i < |k| - 1
      ensures WaitingOk(g, k[i], k[i + 1], drivers')
    {
      assert WaitingOk(g, k[i], k[i + 1], drivers);
    }
  }

  /** Only thread `t` moved, and driver objects and flags only appear. */
  lemma OthersKeep(g: Graph, s: State, s': State, t: nat)
    requires Inv(g, s) && t < |s.stacks| && |s'.stacks| == |s.stacks|
    requires forall u :: 0 <= u < |s.stacks| && u != t ==> s'.stacks[u] == s.stacks[u]
    requires s.drivers <= s'.drivers && s.isStarted <= s'.isStarted
    requires StackOk(g, s'.stacks[t], s'.drivers, s'.isStarted)
    ensures forall u :: 0 <= u < |s'.stacks| ==> StackOk(g, s'.stacks[u], s'.drivers, s'.isStarted)
  {
    forall u | 0 <= u < |s'.stacks|
      ensures StackOk(g, s'.stacks[u], s'.drivers, s'.isStarted)
    {
      if u != t {
        StacksGrow(g, s.stacks[u], s.drivers, s.isStarted, s'.drivers, s'.isStarted);
      }
    }
  }

  lemma BeginKeeps(g: Graph, s: State, t: nat, d: nat)
    requires Inv(g, s) && t < |s.stacks| && s.stacks[t] == [] && d < |g|
    ensures Inv(g, With(s, t, [Frame(d, Check)]))
  {
    var s' := With(s, t, [Frame(d, Check)]);
    OthersKeep(g, s, s', t);
    assert OwnerStack(s') == OwnerStack(s);
  }

  /** The top activation moves on; the ones below still wait for it. */
  lemma GotoStack(g: Graph, s: State, s': State, t: nat, phase: Phase)
    requires Inv(g, s) && t < |s.stacks| && s.stacks[t] != [] && s'.stacks == Goto(s, t, phase).stacks
    requires s.drivers <= s'.drivers && s.isStarted <= s'.isStarted
    requires TopOk(g, Frame(Top(s.stacks[t]).d, phase), s'.drivers, s'.isStarted)
    ensures forall u :: 0 <= u < |s'.stacks| ==> StackOk(g, s'.stacks[u], s'.drivers, s'.isStarted)
  {
    var k, k' := s.stacks[t], s'.stacks[t];
    forall i | 0 <= i < |k'| - 1
      ensures WaitingOk(g, k'[i], k'[i + 1], s'.drivers)
    {
      assert WaitingOk(g, k[i], k[i + 1], s.drivers);
    }
    OthersKeep(g, s, s', t);
  }

  /** The top activation returns to the constructor that asked for it. */
  lemma ReturnStack(g: Graph, s: State, s': State, t: nat)
    requires Inv(g, s) && t < |s.stacks| && s.stacks[t] != [] && s'.stacks == With(s, t, Below(s.stacks[t])).stacks
    requires s'.drivers == s.drivers && s'.isStarted == s.isStarted && Top(s.stacks[t]).d in s.drivers
    ensures forall u :: 0 <= u < |s'.stacks| ==> StackOk(g, s'.stacks[u], s'.drivers, s'.isStarted)
  {
    var k, k' := s.stacks[t], s'.stacks[t];
    forall i | 0 <= i < |k'| - 1
      ensures WaitingOk(g, k'[i], k'[i + 1], s'.drivers)
    {
      assert WaitingOk(g, k[i], k[i + 1], s.drivers);
    }
    if |k| > 1 {
      assert WaitingOk(g, k[|k| - 2], k[|k| - 2 + 1], s.drivers);
    }
    OthersKeep(g, s, s', t);
  }

  // The mutex: who holds it, and how often.

  lemma LockedMeansOwner(s: State, t: nat)
    requires LockOk(s) && t < |s.stacks| && Held(s.stacks[t]) > 0
    ensures s.owner == HeldBy(t) && OwnerStack(s) == s.stacks[t]
  {
  }

  /** Moving on inside the mutex. */
  lemma LockGoto(s: State, s': State, t: nat, phase: Phase)
    requires LockOk(s) && t < |s.stacks| && s.stacks[t] != [] && Locked(Top(s.stacks[t]).phase) && Locked(phase)
    requires s'.stacks == Goto(s, t, phase).stacks && s'.owner == s.owner && s'.depth == s.depth
    ensures LockOk(s') && OwnerStack(s) == s.stacks[t] && OwnerStack(s') == s'.stacks[t]
  {
    LockedMeansOwner(s, t);
  }

  /** The activation below the top is in its constructor, past its own Lock. */
  lemma HeldBelow(g: Graph, k: seq<Frame>, drivers: set<nat>, isStarted: set<nat>)
    requires StackOk(g, k, drivers, isStarted) && k != []
    ensures Held(Below(k)) == |k| - 1
  {
    if |k| > 1 {
      assert WaitingOk(g, k[|k| - 2], k[|k| - 2 + 1], drivers);
    }
  }

  // The flags. `k` is the owner's stack before the step and `k'` after it.

  /** Frames below the top are where they were. */
  ghost predicate SameBelow(k: seq<Frame>, k': seq<Frame>)
  {
    k != [] && |k| - 1 <= |k'| && forall i :: 0 <= i < |k| - 1 ==> k'[i] == k[i]
  }

  /** Nothing but the top frame changes, and it is outside its constructor before and after. */
  lemma FlagsOutside(s: State, k: seq<Frame>, s': State, k': seq<Frame>)
    requires FlagsOk(s, k) && SameBelow(k, k') && |k'| <= |k| && !InConstruction(Top(k))
    requires s'.starting == s.starting && s'.started == s.started && s'.drivers == s.drivers && s.devices <= s'.devices
    requires |k'| == |k| ==>
               && !InConstruction(Top(k'))
               && (Top(k').phase.Publish? || Top(k').phase.Announce? ==> Top(k').d in s'.started)
               && (Top(k').phase.Announce? ==> Top(k').d in s'.devices)
    ensures FlagsOk(s', k')
  {
    forall x | x in s'.starting
      ensures exists i :: 0 <= i < |k'| && InConstruction(k'[i]) && k'[i].d == x
    {
      var i :| 0 <= i < |k| && InConstruction(k[i]) && k[i].d == x;
      assert k'[i] == k[i];
    }
  }

  /** A step of a thread that does not hold the mutex. */
  lemma FlagsElsewhere(s: State, s': State, k: seq<Frame>)
    requires FlagsOk(s, k)
    requires s'.starting == s.starting && s'.started == s.started && s'.drivers == s.drivers && s'.devices == s.devices
    ensures FlagsOk(s', k)
  {
  }

  /** A constructor begins. */
  lemma FlagsBegin(s: State, k: seq<Frame>, s': State, k': seq<Frame>)
    requires FlagsOk(s, k) && SameBelow(k, k') && |k'| == |k| && Top(k').d == Top(k).d
    requires Top(k).phase.Alloc? && Top(k').phase == Building(0)
    requires Top(k).d !in s.starting && Top(k).d !in s.started && Top(k).d !in s.drivers
    requires s'.starting == s.starting + {Top(k).d}
    requires s'.started == s.started && s'.drivers == s.drivers && s'.devices == s.devices
    ensures FlagsOk(s', k')
  {
    forall x | x in s'.starting
      ensures exists i :: 0 <= i < |k'| && InConstruction(k'[i]) && k'[i].d == x
    {
      if x == Top(k).d {
        assert InConstruction(k'[|k| - 1]);
      } else {
        var i :| 0 <= i < |k| && InConstruction(k[i]) && k[i].d == x;
        assert k'[i] == k[i];
      }
    }
  }

  /** A constructor goes on, possibly by asking for another driver, or stores its object. */
  lemma FlagsDuring(s: State, k: seq<Frame>, s': State, k': seq<Frame>)
    requires FlagsOk(s, k) && SameBelow(k, k') && |k| <= |k'| <= |k| + 1 && Top(k).phase.Building?
    requires k'[|k| - 1].d == Top(k).d && InConstruction(k'[|k| - 1])
    requires |k'| == |k| + 1 ==> Top(k').phase.Check?
    requires s'.drivers == if k'[|k| - 1].phase.Built? then s.drivers + {Top(k).d} else s.drivers
    requires s'.starting == s.starting && s'.started == s.started && s'.devices == s.devices
    ensures FlagsOk(s', k')
  {
    var n := |k| - 1;
    assert InConstruction(k[n]);
    forall i | 0 <= i < |k'| && InConstruction(k'[i])
      ensures i <= n && InConstruction(k[i]) && k'[i].d == k[i].d
      ensures k'[i].d in s'.starting && k'[i].d !in s'.started && (k'[i].phase.Built? <==> k'[i].d in s'.drivers)
    {
      if i < n {
        assert k'[i] == k[i] && k[i].d != k[n].d;
      }
    }
    forall x | x in s'.starting
      ensures exists i :: 0 <= i < |k'| && InConstruction(k'[i]) && k'[i].d == x
    {
      var i :| 0 <= i < |k| && InConstruction(k[i]) && k[i].d == x;
      assert InConstruction(k'[i]) && k'[i].d == x;
    }
  }

  /** A finished constructor turns its starting flag into the started flag. */
  lemma FlagsBuilt(s: State, k: seq<Frame>, s': State, k': seq<Frame>)
    requires FlagsOk(s, k) && SameBelow(k, k') && |k'| == |k| && Top(k').d == Top(k).d
    requires Top(k).phase.Built? && Top(k').phase.Publish?
    requires s'.starting == s.starting - {Top(k).d} && s'.started == s.started + {Top(k).d}
    requires s'.drivers == s.drivers && s'.devices == s.devices
    ensures FlagsOk(s', k')
  {
    assert InConstruction(k[|k| - 1]);
    forall x | x in s'.starting
      ensures exists i :: 0 <= i < |k'| && InConstruction(k'[i]) && k'[i].d == x
    {
      var i :| 0 <= i < |k| && InConstruction(k[i]) && k[i].d == x;
      assert k'[i] == k[i];
    }
  }

  // The steps.

  ghost predicate At(g: Graph, s: State, t: nat, phase: Phase)
  {
    Inv(g, s) && CanStep(s, t) && Top(s.stacks[t]).phase == phase && Top(s.stacks[t]).d < |g|
  }

  lemma CheckKeeps(g: Graph, s: State, t: nat)
    requires At(g, s, t, Check)
    ensures Inv(g, Step(g, s, t))
  {
    hide FlagsOk, StackOk, Topological;
    var k, s' := s.stacks[t], Step(g, s, t);
    if Top(k).d in s.isStarted {
      HeldBelow(g, k, s.drivers, s.isStarted);
      ReturnStack(g, s, s', t);
    } else {
      GotoStack(g, s, s', t, Lock);
    }
    if s.owner == HeldBy(t) {
      FlagsOutside(s, k, s', s'.stacks[t]);
    } else {
      FlagsElsewhere(s, s', OwnerStack(s));
    }
  }

  lemma LockKeeps(g: Graph, s: State, t: nat)
    requires At(g, s, t, Lock)
    ensures Inv(g, Step(g, s, t))
  {
    var k, s' := s.stacks[t], Step(g, s, t);
    GotoStack(g, s, s', t, Recheck);
    if s.owner == HeldBy(t) {
      FlagsOutside(s, k, s', s'.stacks[t]);
    }
  }

  lemma RecheckKeeps(g: Graph, s: State, t: nat)
    requires At(g, s, t, Recheck)
    ensures Inv(g, Step(g, s, t))
  {
    hide FlagsOk, StackOk, LockOk, Topological;
    var k, s' := s.stacks[t], Step(g, s, t);
    var phase := if Top(k).d in s.isStarted then Unlock else Alloc;
    GotoStack(g, s, s', t, phase);
    LockGoto(s, s', t, phase);
    FlagsOutside(s, k, s', s'.stacks[t]);
  }

  lemma AllocKeeps(g: Graph, s: State, t: nat)
    requires At(g, s, t, Alloc)
    ensures Inv(g, Step(g, s, t))
  {
    hide FlagsOk, StackOk, LockOk, Topological;
    var k, s' := s.stacks[t], Step(g, s, t);
    LockedMeansOwner(s, t);
    if Top(k).d in s.started {
      GotoStack(g, s, s', t, Publish);
      LockGoto(s, s', t, Publish);
      FlagsOutside(s, k, s', s'.stacks[t]);
    } else if Top(k).d !in s.starting {
      GotoStack(g, s, s', t, Building(0));
      LockGoto(s, s', t, Building(0));
      FlagsBegin(s, k, s', s'.stacks[t]);
    } else {
      ReportKeeps(g, s);
    }
  }

  lemma ReportKeeps(g: Graph, s: State)
    requires Inv(g, s)
    ensures Inv(g, s.(reported := true))
  {
    assert OwnerStack(s.(reported := true)) == OwnerStack(s);
  }

  lemma CallKeeps(g: Graph, s: State, t: nat, next: nat)
    requires At(g, s, t, Building(next)) && next < |g[Top(s.stacks[t]).d]|
    ensures Inv(g, Step(g, s, t))
  {
    hide FlagsOk, Topological;
    var k, s' := s.stacks[t], Step(g, s, t);
    var k' := s'.stacks[t];
    LockedMeansOwner(s, t);
    FlagsDuring(s, k, s', k');
    forall i | 0 <= i < |k'| - 1
      ensures WaitingOk(g, k'[i], k'[i + 1], s'.drivers)
    {
      if i < |k| - 1 {
        assert WaitingOk(g, k[i], k[i + 1], s.drivers);
      }
    }
    OthersKeep(g, s, s', t);
  }

  lemma FinishKeeps(g: Graph, s: State, t: nat, next: nat)
    requires At(g, s, t, Building(next)) && next >= |g[Top(s.stacks[t]).d]|
    ensures Inv(g, Step(g, s, t))
  {
    hide LockOk;
    var k, s' := s.stacks[t], Step(g, s, t);
    var d := Top(k).d;
    LockedMeansOwner(s, t);
    assert TopOk(g, Top(k), s.drivers, s.isStarted);
    assert InConstruction(k[|k| - 1]) && d !in s.history;
    assert AllIn(g[d], next, s.drivers);
    GotoStack(g, s, s', t, Built);
    LockGoto(s, s', t, Built);
    FlagsDuring(s, k, s', s'.stacks[t]);
    HistoryGrows(g, s.history, d, s.drivers);
  }

  lemma HistoryGrows(g: Graph, h: seq<nat>, d: nat, drivers: set<nat>)
    requires Topological(g, h) && d < |g| && d !in h && AllIn(g[d], |g[d]|, drivers)
    requires forall x :: x in h <==> x in drivers
    ensures Topological(g, h + [d]) && forall x :: x in h + [d] <==> x in drivers + {d}
  {
    TopologicalAppends(g, h, d);
  }

  lemma BuiltKeeps(g: Graph, s: State, t: nat)
    requires At(g, s, t, Built)
    ensures Inv(g, Step(g, s, t))
  {
    hide StackOk, LockOk, Topological;
    var k, s' := s.stacks[t], Step(g, s, t);
    LockedMeansOwner(s, t);
    assert InConstruction(k[|k| - 1]);
    GotoStack(g, s, s', t, Publish);
    LockGoto(s, s', t, Publish);
    FlagsBuilt(s, k, s', s'.stacks[t]);
  }

  lemma PublishKeeps(g: Graph, s: State, t: nat, phase: Phase)
    requires At(g, s, t, phase) && (phase.Publish? || phase.Announce?)
    ensures Inv(g, Step(g, s, t))
  {
    hide StackOk, LockOk, Topological;
    var k, s' := s.stacks[t], Step(g, s, t);
    var after := if phase.Publish? then Announce else Unlock;
    LockedMeansOwner(s, t);
    assert k[|k| - 1].phase == phase;
    assert StackOk(g, k, s.drivers, s.isStarted);
    TopDriver(g, k, s.drivers, s.isStarted);
    GotoStack(g, s, s', t, after);
    LockGoto(s, s', t, after);
    FlagsOutside(s, k, s', s'.stacks[t]);
  }

  lemma TopDriver(g: Graph, k: seq<Frame>, drivers: set<nat>, isStarted: set<nat>)
    requires StackOk(g, k, drivers, isStarted) && k != []
    ensures TopOk(g, Top(k), drivers, isStarted)
  {
  }

  lemma UnlockKeeps(g: Graph, s: State, t: nat)
    requires At(g, s, t, Unlock)
    ensures Inv(g, Step(g, s, t))
  {
    hide FlagsOk, StackOk, Topological;
    var k, s' := s.stacks[t], Step(g, s, t);
    LockedMeansOwner(s, t);
    TopDriver(g, k, s.drivers, s.isStarted);
    HeldBelow(g, k, s.drivers, s.isStarted);
    ReturnStack(g, s, s', t);
    FlagsOutside(s, k, s', s'.stacks[t]);
    if s'.owner == Free {
      assert s'.stacks[t] == [];
    }
  }

  lemma NextKeeps(g: Graph, s: State, s': State)
    requires Inv(g, s) && Next(g, s, s')
    ensures Inv(g, s')
  {
    hide Inv, Step, CanStep;
    var t :| 0 <= t < |s.stacks| && NextBy(g, s, s', t);
    if s.stacks[t] == [] {
      var d :| 0 <= d < |g| && s' == With(s, t, [Frame(d, Check)]);
      BeginKeeps(g, s, t, d);
    } else {
      match Top(s.stacks[t]).phase
      case Check => CheckKeeps(g, s, t);
      case Lock => LockKeeps(g, s, t);
      case Recheck => RecheckKeeps(g, s, t);
      case Alloc => AllocKeeps(g, s, t);
      case Building(next) =>
        if next < |g[Top(s.stacks[t]).d]| {
          CallKeeps(g, s, t, next);
        } else {
          FinishKeeps(g, s, t, next);
        }
      case Built => BuiltKeeps(g, s, t);
      case Publish => PublishKeeps(g, s, t, Publish);
      case Announce => PublishKeeps(g, s, t, Announce);
      case Unlock => UnlockKeeps(g, s, t);
    }
  }

  // ------------------------------------------------------------------
  // Whole runs
  // ------------------------------------------------------------------

  ghost predicate IsRun(g: Graph, run: seq<State>)
  {
    && IsGraph(g) && run != [] && Init(run[0])
    && forall i :: 0 <= i < |run| - 1 ==> Next(g, run[i], run[i + 1])
  }

  lemma {:induction false} RunKeeps(g: Graph, run: seq<State>, i: nat)
    requires IsRun(g, run) && i < |run|
    ensures Inv(g, run[i])
    decreases i
  {
    hide Inv, Next, Init;
    if i == 0 {
      InitInv(g, run[0]);
    } else {
      RunKeeps(g, run, i - 1);
      assert Next(g, run[i - 1], run[i - 1 + 1]);
      NextKeeps(g, run[i - 1], run[i]);
    }
  }

  /** In every interleaving each driver is constructed at most once and after its dependencies. */
  lemma ConstructedOnceAndInOrder(g: Graph, run: seq<State>, i: nat)
    requires IsRun(g, run) && i < |run|
    ensures Topological(g, run[i].history)
    ensures forall x :: x in run[i].drivers <==> x in run[i].history
  {
    RunKeeps(g, run, i);
  }

  /** A driver is marked as starting only while the mutex is held, by a thread whose own constructors
      include that driver's. */
  lemma StartingOnlyUnderTheMutex(g: Graph, run: seq<State>, i: nat, x: nat)
    requires IsRun(g, run) && i < |run| && x in run[i].starting
    ensures run[i].owner.HeldBy? && run[i].owner.t < |run[i].stacks|
    ensures exists j :: 0 <= j < |run[i].stacks[run[i].owner.t]| && run[i].stacks[run[i].owner.t][j].d == x
  {
    RunKeeps(g, run, i);
    var k := OwnerStack(run[i]);
    var j :| 0 <= j < |k| && InConstruction(k[j]) && k[j].d == x;
  }

  /** A thread that finds the flag set, with or without the mutex, finds the driver, its interface, and
      everything the driver depends on. */
  lemma StartedMeansUsable(g: Graph, run: seq<State>, i: nat, x: nat)
    requires IsRun(g, run) && i < |run| && x in run[i].isStarted
    ensures x in run[i].drivers && x in run[i].devices
    ensures forall y :: CanReach(g, x, y) ==> y in run[i].drivers
  {
    RunKeeps(g, run, i);
    forall y | CanReach(g, x, y)
      ensures y in run[i].drivers
    {
      HistoryIsClosed(g, run[i].history, x, y);
    }
  }

  /** While any request is unfinished some thread can move: the mutex never blocks everyone. */
  lemma SomeThreadCanMove(g: Graph, run: seq<State>, i: nat, t: nat) returns (u: nat)
    requires IsRun(g, run) && i < |run| && t < |run[i].stacks| && run[i].stacks[t] != []
    ensures CanStep(run[i], u) && Top(run[i].stacks[u]).d < |g|
  {
    RunKeeps(g, run, i);
    u := if run[i].owner.HeldBy? then run[i].owner.t else t;
    assert StackOk(g, run[i].stacks[u], run[i].drivers, run[i].isStarted);
  }

  /** The drivers on a stack form a walk through the dependencies. */
  lemma StackIsWalk(g: Graph, k: seq<Frame>, drivers: set<nat>, isStarted: set<nat>)
    requires IsGraph(g) && k != [] && StackOk(g, k, drivers, isStarted)
    ensures IsWalk(g, Names(k))
  {
    var p := Names(k);
    forall i | 0 <= i < |p|
      ensures p[i] < |g|
    {
      if i < |k| - 1 {
        assert WaitingOk(g, k[i], k[i + 1], drivers);
      }
    }
    forall i | 0 <= i < |p| - 1
      ensures p[i + 1] in g[p[i]]
    {
      assert WaitingOk(g, k[i], k[i + 1], drivers);
    }
  }

  function Names(k: seq<Frame>): (p: seq<nat>)
    ensures |p| == |k| && forall i :: 0 <= i < |k| ==> p[i] == k[i].d
  {
    seq(|k|, i requires 0 <= i < |k| => k[i].d)
  }

  /** A circular dependency is only reported for a cycle reached from the reporting thread's own request:
      never for a start in progress on another thread. */
  lemma ReportIsARealCycle(g: Graph, s: State, s': State) returns (t: nat)
    requires Inv(g, s) && Next(g, s, s') && s'.reported
    ensures t < |s.stacks| && s.stacks[t] != [] && CycleReachable(g, s.stacks[t][0].d)
  {
    t :| 0 <= t < |s.stacks| && NextBy(g, s, s', t);
    AtTheReport(g, s, s', t);
    hide StackOk, LockOk, Topological, Step;
    var k := s.stacks[t];
    StackIsWalk(g, k, s.drivers, s.isStarted);
    var j :| 0 <= j < |k| && InConstruction(k[j]) && k[j].d == Top(k).d;
    var p := Names(k);
    assert p[j] == p[|p| - 1] && j < |p| - 1;
    assert IsLasso(g, p) && p[0] == k[0].d;
  }

  lemma AtTheReport(g: Graph, s: State, s': State, t: nat)
    requires Inv(g, s) && t < |s.stacks| && NextBy(g, s, s', t) && !s.reported && s'.reported
    ensures s.stacks[t] != [] && OwnerStack(s) == s.stacks[t]
    ensures !InConstruction(Top(s.stacks[t])) && Top(s.stacks[t]).d in s.starting
  {
    hide StackOk, FlagsOk, Topological;
  }

  /** With acyclic dependencies no interleaving ever reports a circular dependency. */
  lemma {:induction false} AcyclicNeverReports(g: Graph, run: seq<State>, i: nat)
    requires IsRun(g, run) && i < |run|
    requires forall d :: 0 <= d < |g| ==> !CycleReachable(g, d)
    ensures !run[i].reported
    decreases i
  {
    hide Inv, Next, CycleReachable;
    if i == 0 {
    } else {
      AcyclicNeverReports(g, run, i - 1);
      RunKeeps(g, run, i - 1);
      assert Next(g, run[i - 1], run[i - 1 + 1]);
      if run[i].reported {
        var t := ReportIsARealCycle(g, run[i - 1], run[i]);
        RequestInRange(g, run[i - 1], t);
      }
    }
  }

  lemma RequestInRange(g: Graph, s: State, t: nat)
    requires Inv(g, s) && t < |s.stacks| && s.stacks[t] != []
    ensures s.stacks[t][0].d < |g|
  {
    StackIsWalk(g, s.stacks[t], s.drivers, s.isStarted);
    assert Names(s.stacks[t])[0] < |g|;
  }
}
