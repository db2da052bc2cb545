/**
 Driver start-up: server/core/drivers_manager.cpp and drivers_manager.hpp. A constructor is its list of
 `get` calls, so starting a driver is a depth-first walk of the dependency graph.
 */
module Drivers {
  import opened DriverGraph

  /** A failed request leaves no object behind, and the caller then uses it all the same. */
  datatype Outcome = Fine | Crashed

  class DriverManager {
    const graph: Graph

    // DriverContainer
    var started: seq<bool>
    var starting: seq<bool>
    var driverTuple: seq<bool>   // true: a driver object is held

    // DriverManager
    var deviceList: seq<bool>    // true: an interface object is held
    var isStarted: seq<bool>

    // Server
    var exitAll: bool

    /** Drivers in the order their constructors finished. */
    ghost var history: seq<nat>

    ghost predicate Valid()
      reads this
    {
      && IsGraph(graph) && Topological(graph, history)
      && |started| == |starting| == |driverTuple| == |deviceList| == |isStarted| == |graph|
      // Both started flags, the driver object, the interface object and the history tell the same.
      && started == isStarted == driverTuple == deviceList
      && (forall d :: 0 <= d < |graph| ==> (started[d] <==> d in history))
      && (forall d :: 0 <= d < |graph| ==> starting[d] ==> !started[d])
    }

    /** No start is in progress. */
    ghost predicate Idle()
      reads this
    {
      Valid() && forall d :: 0 <= d < |graph| ==> !starting[d]
    }

    /** The drivers being started are exactly those of `stack`, each waiting for the next. */
    ghost predicate Starting(stack: seq<nat>)
      requires Valid()
      reads this
    {
      && (stack != [] ==> IsWalk(graph, stack))
      && (forall d :: 0 <= d < |graph| ==> (starting[d] <==> d in stack))
    }

    /** Drivers neither started nor starting: the recursion's measure. */
    ghost function White(): set<nat>
      requires Valid()
      reads this
    {
      set d | 0 <= d < |graph| && !started[d] && !starting[d]
    }

    constructor (graph: Graph)
      requires IsGraph(graph)
      ensures Idle() && history == [] && !exitAll && this.graph == graph
    {
      this.graph := graph;
      var none := seq(|graph|, _ => false);
      started, starting, driverTuple, deviceList, isStarted := none, none, none, none, none;
      exitAll := false;
      history := [];
    }

    /** What a finished request has done, apart from the driver it was for. */
    twostate predicate Grew(d: nat)
      requires old(Valid()) && Valid()
      reads this
    {
      && starting == old(starting) && exitAll == old(exitAll)
      && old(history) <= history
      && (forall x :: x in history && x !in old(history) ==> CanReach(graph, d, x))
    }

    /** get<driver>() with the recursion made explicit: `stack` holds the constructors being run. On
        success `d` is constructed; on failure `lasso` shows the cycle. */
    method Get(d: nat, ghost stack: seq<nat>) returns (o: Outcome, ghost lasso: seq<nat>)
      requires Valid() && d < |graph| && Starting(stack) && IsWalk(graph, stack + [d])
      modifies this
      ensures o == Fine ==> Valid() && d in history && Grew(d)
      ensures o == Crashed ==> exitAll && IsLasso(graph, lasso) && stack + [d] <= lasso
      decreases White(), 3
    {
      lasso := [];
      o := Fine;
      if !isStarted[d] {
        o, lasso := AllocDriver(d, stack);
      }
      if o == Fine && !driverTuple[d] {
        o := Crashed;
      }
    }

    /** alloc_driver<driver>(), entered with the recursive mutex held. */
    method AllocDriver(d: nat, ghost stack: seq<nat>) returns (o: Outcome, ghost lasso: seq<nat>)
      requires Valid() && d < |graph| && Starting(stack) && IsWalk(graph, stack + [d])
      modifies this
      ensures o == Fine && !exitAll ==> Valid()
      ensures o == Fine ==> |driverTuple| == |deviceList| == |graph| && deviceList[d] == driverTuple[d]
      ensures o == Fine && driverTuple[d] ==> Valid() && d in history && Grew(d)
      ensures o == Fine && !driverTuple[d] ==> exitAll && IsLasso(graph, lasso) && stack + [d] <= lasso
      ensures o == Crashed ==> exitAll && IsLasso(graph, lasso) && stack + [d] <= lasso
      decreases White(), 2
    {
      lasso := [];
      if isStarted[d] {
        return Fine, lasso;
      }
      var r;
      o, r, lasso := Alloc(d, stack);
      if o == Crashed {
        return;
      }
      if r < 0 {
        exitAll := true;
        return;
      }
      deviceList := deviceList[d := true];
      isStarted := isStarted[d := true];
    }

    /** DriverContainer::alloc<driver>(): the white/grey/black test and the constructor call. */
    method Alloc(d: nat, ghost stack: seq<nat>) returns (o: Outcome, r: int, ghost lasso: seq<nat>)
      requires Valid() && d < |graph| && Starting(stack) && IsWalk(graph, stack + [d]) && !isStarted[d]
      modifies this
      ensures o == Crashed ==> exitAll && IsLasso(graph, lasso) && stack + [d] <= lasso
      ensures o == Fine && r < 0 ==>
                && Valid() && !driverTuple[d] && IsLasso(graph, lasso) && stack + [d] <= lasso
      ensures o == Fine && r >= 0 ==> Constructed(d)
      decreases White(), 1
    {
      lasso := [];
      if started[d] {
        return Fine, 0, lasso;
      }
      if starting[d] {
        lasso := stack + [d];
        ghost var i :| 0 <= i < |stack| && stack[i] == d;
        assert lasso[i] == lasso[|lasso| - 1];
        return Fine, -1, lasso;
      }
      assert d in White();
      starting := starting[d := true];
      o, lasso := Construct(d, stack);
      if o == Crashed {
        return o, 0, lasso;
      }
      assert d !in history;
      TopologicalAppends(graph, history, d);
      ReachSelf(graph, d);
      driverTuple := driverTuple[d := true];
      history := history + [d];
      starting := starting[d := false];
      started := started[d := true];
      r := 0;
    }

    /** Right after a successful alloc: everything but the manager's own two arrays is up to date. */
    twostate predicate Constructed(d: nat)
      requires old(Valid()) && d < |graph|
      reads this
    {
      && |started| == |starting| == |driverTuple| == |deviceList| == |isStarted| == |graph|
      && Topological(graph, history) && d in history
      && started == driverTuple == isStarted[d := true] == deviceList[d := true]
      && (forall x :: 0 <= x < |graph| ==> (started[x] <==> x in history))
      && (forall x :: 0 <= x < |graph| ==> starting[x] ==> !started[x])
      && starting == old(starting) && exitAll == old(exitAll)
      && old(history) <= history
      && (forall x :: x in history && x !in old(history) ==> CanReach(graph, d, x))
    }

    /** The driver's constructor: its `get` calls, in order. */
    method Construct(d: nat, ghost stack: seq<nat>) returns (o: Outcome, ghost lasso: seq<nat>)
      requires Valid() && d < |graph| && IsWalk(graph, stack + [d]) && Starting(stack + [d]) && !started[d]
      modifies this
      ensures o == Crashed ==> exitAll && IsLasso(graph, lasso) && stack + [d] <= lasso
      ensures o == Fine ==> Valid() && (forall k :: 0 <= k < |graph[d]| ==> graph[d][k] in history)
      ensures o == Fine ==>
                && starting == old(starting) && exitAll == old(exitAll) && old(history) <= history
                && (forall x :: x in history && x !in old(history) ==> CanReach(graph, d, x))
      decreases White(), 4
    {
      lasso := [];
      ghost var path := stack + [d];
      for k := 0 to |graph[d]|
        invariant Valid() && Starting(path) && starting == old(starting) && exitAll == old(exitAll)
        invariant old(history) <= history
        invariant forall j :: 0 <= j < k ==> graph[d][j] in history
        invariant forall x :: x in history && x !in old(history) ==> CanReach(graph, d, x)
        invariant White() <= old(White())
      {
        ghost var before := history;
        ghost var white := White();
        var dep := graph[d][k];
        assert path[|path| - 1] == d && dep in graph[d];
        Extend(graph, path, dep);
        o, lasso := Get(dep, path);
        if o == Crashed {
          assert path <= path + [dep];
          return;
        }
        assert White() <= white;
        forall x | x in history && x !in old(history)
          ensures CanReach(graph, d, x)
        {
          if x !in before {
            ReachVia(graph, d, dep, x);
          }
        }
      }
      o := Fine;
    }

    /** A request for one driver. It fails, and raises the exit flag, if and only if a dependency cycle can
        be reached from it. Otherwise the history grows by exactly what is missing. */
    method Request(d: nat) returns (o: Outcome)
      requires Idle() && d < |graph|
      modifies this
      ensures o == Crashed <==> CycleReachable(graph, d)
      ensures exitAll <==> old(exitAll) || CycleReachable(graph, d)
      ensures o == Fine ==>
                && Idle() && old(history) <= history
                && (forall x :: x in history <==> x in old(history) || CanReach(graph, d, x))
    {
      ghost var lasso;
      assert [] + [d] == [d];
      o, lasso := Get(d, []);
      if o == Crashed {
        assert lasso[0] == d;
      } else {
        HistoryExcludesCycles(graph, history, d);
        forall x | CanReach(graph, d, x)
          ensures x in history
        {
          HistoryIsClosed(graph, history, d, x);
        }
      }
    }

    /** DriverManager::execute for a command to driver `id`: 0 is no driver, 1 the server itself, and the
        others are started on first use. */
    method Execute(id: nat) returns (target: Target)
      requires Idle() && id < |graph| + 2
      modifies this
      ensures id < 2 ==> target == (if id == 0 then Nothing else TheServer) && unchanged(this)
      ensures id >= 2 ==>
                target == if CycleReachable(graph, id - 2) then NoObject else TheDriver(id - 2)
      ensures id >= 2 ==> (exitAll <==> old(exitAll) || CycleReachable(graph, id - 2))
      ensures target.TheDriver? ==>
                && Idle() && deviceList[target.d] && old(history) <= history
                && (forall x :: x in history <==> x in old(history) || CanReach(graph, target.d, x))
    {
      if id == 0 {
        return Nothing;
      }
      if id == 1 {
        return TheServer;
      }
      var d := id - 2;
      if !isStarted[d] {
        ghost var lasso;
        var o;
        assert [] + [d] == [d];
        o, lasso := AllocDriver(d, []);
        if o == Crashed || !deviceList[d] {
          assert lasso[0] == d;
          return NoObject;
        }
      }
      HistoryExcludesCycles(graph, history, d);
      forall x | CanReach(graph, d, x)
        ensures x in history
      {
        HistoryIsClosed(graph, history, d, x);
      }
      target := TheDriver(d);
    }
  }

  /** Where a command goes. */
  datatype Target = Nothing | TheServer | TheDriver(d: nat) | NoObject
}
