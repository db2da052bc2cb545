/** The session id allocator: server/core/session_manager.hpp and session_manager.cpp. */
module SessionPool {

  /** Live sessions by id, ids free for reuse (a stack), and the session counter. */
  datatype Pool<T> = Pool(sessions: map<int, T>, reusable: seq<int>, count: int)

  function Empty<T>(): Pool<T> { Pool(map[], [], 0) }

  /** create_session: the most recently freed id if there is one, otherwise the number of sessions. */
  function NewId<T>(p: Pool<T>): int
  {
    if p.reusable == [] then p.count else p.reusable[|p.reusable| - 1]
  }

  function Create<T>(p: Pool<T>, x: T): Pool<T>
  {
    var id := NewId(p);
    Pool(if id in p.sessions then p.sessions else p.sessions[id := x],
         if p.reusable == [] then [] else p.reusable[..|p.reusable| - 1],
         p.count + 1)
  }

  /** delete_session: an unknown id is ignored. */
  function Delete<T>(p: Pool<T>, id: int): Pool<T>
  {
    if id in p.sessions then Pool(p.sessions - {id}, p.reusable + [id], p.count - 1) else p
  }

  // ------------------------------------------------------------------
  // Invariant
  // ------------------------------------------------------------------

  /** With `peak` the highest number of simultaneous sessions so far: live and reusable ids are disjoint,
      without duplicates, and together exactly the numbers below `peak`. */
  ghost predicate Inv<T>(p: Pool<T>, peak: nat)
  {
    && (forall id :: id in p.sessions || id in p.reusable <==> 0 <= id < peak)
    && (forall id :: id in p.sessions ==> id !in p.reusable)
    && (forall i, j :: 0 <= i < j < |p.reusable| ==> p.reusable[i] != p.reusable[j])
    && p.count == |p.sessions| && |p.sessions| + |p.reusable| == peak
  }

  function Max(a: nat, b: nat): nat { if a < b then b else a }

  lemma CreateKeeps<T>(p: Pool<T>, peak: nat, x: T)
    requires Inv(p, peak)
    ensures NewId(p) !in p.sessions
    ensures Create(p, x).sessions == p.sessions[NewId(p) := x]
    ensures Inv(Create(p, x), Max(peak, |p.sessions| + 1))
  {
    var id, q := NewId(p), Create(p, x);
    if p.reusable == [] {
      assert id == peak;
    } else {
      var last := |p.reusable| - 1;
      assert p.reusable[last] == id && id in p.reusable;
      assert forall y :: y in p.reusable <==> y in q.reusable || y == id by {
        forall y | y in p.reusable && y != id
          ensures y in q.reusable
        {
          var i :| 0 <= i < |p.reusable| && p.reusable[i] == y;
          assert q.reusable[i] == y;
        }
      }
      assert id !in q.reusable;
    }
    assert q.sessions.Keys == p.sessions.Keys + {id};
  }

  lemma DeleteKeeps<T>(p: Pool<T>, peak: nat, id: int)
    requires Inv(p, peak)
    ensures Inv(Delete(p, id), peak)
  {
    if id in p.sessions {
      var q := Delete(p, id);
      assert q.sessions.Keys == p.sessions.Keys - {id};
      assert |q.sessions.Keys| == |p.sessions.Keys| - 1;
      assert forall y :: y in q.reusable <==> y in p.reusable || y == id by {
        assert q.reusable[|p.reusable|] == id;
        forall y | y in p.reusable
          ensures y in q.reusable
        {
          var i :| 0 <= i < |p.reusable| && p.reusable[i] == y;
          assert q.reusable[i] == y;
        }
      }
    }
  }

  // ------------------------------------------------------------------
  // Histories
  // ------------------------------------------------------------------

  datatype Op<T> = Opened(x: T) | Closed(id: int)

  function Apply<T>(p: Pool<T>, op: Op<T>): Pool<T>
  {
    match op
    case Opened(x) => Create(p, x)
    case Closed(id) => Delete(p, id)
  }

  function After<T>(ops: seq<Op<T>>): Pool<T>
  {
    if ops == [] then Empty() else Apply(After(ops[..|ops| - 1]), ops[|ops| - 1])
  }

  /** The highest number of simultaneous sessions during a history. */
  function Peak<T>(ops: seq<Op<T>>): nat
  {
    if ops == [] then 0 else Max(Peak(ops[..|ops| - 1]), |After(ops).sessions|)
  }

  lemma {:induction false} EveryHistory<T>(ops: seq<Op<T>>)
    ensures Inv(After(ops), Peak(ops))
    ensures NewId(After(ops)) !in After(ops).sessions && After(ops).count == |After(ops).sessions|
    decreases |ops|
  {
    if ops != [] {
      var before, op := ops[..|ops| - 1], ops[|ops| - 1];
      EveryHistory(before);
      var p := After(before);
      match op
      case Opened(x) =>
        CreateKeeps(p, Peak(before), x);
        assert |After(ops).sessions.Keys| == |p.sessions.Keys + {NewId(p)}| == |p.sessions| + 1;
      case Closed(id) =>
        DeleteKeeps(p, Peak(before), id);
    }
    NewIdIsFree(After(ops), Peak(ops));
  }

  lemma NewIdIsFree<T>(p: Pool<T>, peak: nat)
    requires Inv(p, peak)
    ensures NewId(p) !in p.sessions
  {
    if p.reusable != [] {
      assert p.reusable[|p.reusable| - 1] in p.reusable;
    }
  }

  // ------------------------------------------------------------------
  // The manager
  // ------------------------------------------------------------------

  class SessionManager {
    var sessionPool: map<int, int>  // id to socket descriptor
    var reusableIds: seq<int>
    var numberOfSessions: int
    ghost var peak: nat

    ghost function State(): Pool<int>
      reads this
    {
      Pool(sessionPool, reusableIds, numberOfSessions)
    }

    ghost predicate Valid()
      reads this
    {
      Inv(State(), peak)
    }

    constructor ()
      ensures Valid() && State() == Empty()
    {
      sessionPool, reusableIds, numberOfSessions, peak := map[], [], 0, 0;
    }

    method CreateSession(fd: int) returns (newId: int)
      requires Valid()
      modifies this
      ensures Valid() && State() == Create(old(State()), fd)
      ensures newId !in old(sessionPool) && sessionPool == old(sessionPool)[newId := fd]
      ensures peak == Max(old(peak), |sessionPool|)
    {
      ghost var before := State();
      CreateKeeps(before, peak, fd);
      if reusableIds == [] {
        newId := numberOfSessions;
      } else {
        newId := reusableIds[|reusableIds| - 1];
        reusableIds := reusableIds[..|reusableIds| - 1];
      }
      peak := Max(peak, |sessionPool| + 1);
      assert sessionPool[newId := fd].Keys == sessionPool.Keys + {newId};
      sessionPool := sessionPool[newId := fd];
      numberOfSessions := numberOfSessions + 1;
    }

    method IsReusableId(id: int) returns (r: bool)
      ensures r <==> id in reusableIds
    {
      for i := 0 to |reusableIds|
        invariant id !in reusableIds[..i]
      {
        if reusableIds[i] == id {
          return true;
        }
      }
      return false;
    }

    /** The live ids in increasing order, as the ordered map yields them. */
    method GetSessionIds() returns (res: seq<int>)
      requires Valid()
      ensures forall id :: id in res <==> id in sessionPool
      ensures forall i, j :: 0 <= i < j < |res| ==> res[i] < res[j]
    {
      res := [];
      // Every id ever given out is live or reusable, so the live ones are below this bound.
      for id := 0 to numberOfSessions + |reusableIds|
        invariant forall x :: x in res <==> x in sessionPool && x < id
        invariant forall i :: 0 <= i < |res| ==> res[i] < id
        invariant forall i, j :: 0 <= i < j < |res| ==> res[i] < res[j]
      {
        if id in sessionPool {
          var reusable := IsReusableId(id);
          assert !reusable;
          res := res + [id];
        }
      }
    }

    method IsIdInSessionIds(id: int) returns (r: bool)
      requires Valid()
      ensures r <==> id in sessionPool
    {
      var ids := GetSessionIds();
      for i := 0 to |ids|
        invariant id !in ids[..i]
      {
        if ids[i] == id {
          return true;
        }
      }
      return false;
    }

    method DeleteSession(id: int)
      requires Valid()
      modifies this
      ensures Valid() && State() == Delete(old(State()), id) && peak == old(peak)
    {
      DeleteKeeps(State(), peak, id);
      var known := IsIdInSessionIds(id);
      if !known {
        return;
      }
      sessionPool := sessionPool - {id};
      reusableIds := reusableIds + [id];
      numberOfSessions := numberOfSessions - 1;
    }

    /** Closing every session empties the pool and makes every id ever used reusable. */
    method DeleteAll()
      requires Valid()
      modifies this
      ensures Valid() && sessionPool == map[] && numberOfSessions == 0 && peak == old(peak)
      ensures forall id :: id in reusableIds <==> 0 <= id < peak
    {
      hide Inv;
      if sessionPool != map[] {
        var ids := GetSessionIds();
        for i := 0 to |ids|
          invariant Valid() && peak == old(peak)
          invariant forall id :: id in sessionPool <==> id in ids[i..]
        {
          HeadAndTail(ids, i);
          DeleteSession(ids[i]);
        }
        assert ids[|ids|..] == [];
        NoKeys(sessionPool);
      }
      NothingLive(State(), peak);
    }
  }

  lemma NothingLive<T>(p: Pool<T>, peak: nat)
    requires Inv(p, peak) && p.sessions == map[]
    ensures p.count == 0 && forall id :: id in p.reusable <==> 0 <= id < peak
  {
  }

  lemma NoKeys(m: map<int, int>)
    requires forall id :: id !in m
    ensures m == map[]
  {
    var none: map<int, int> := map[];
    assert forall id :: id in m <==> id in none;
  }

  lemma HeadAndTail(ids: seq<int>, i: nat)
    requires i < |ids| && forall j, k :: 0 <= j < k < |ids| ==> ids[j] < ids[k]
    ensures ids[i] in ids[i..] && ids[i] !in ids[i + 1..]
    ensures forall id :: id in ids[i..] <==> id == ids[i] || id in ids[i + 1..]
  {
    var tail := ids[i + 1..];
    assert ids[i..] == [ids[i]] + tail;
    assert forall k :: 0 <= k < |tail| ==> tail[k] == ids[i + 1 + k];
  }
}
