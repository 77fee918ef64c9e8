// The Redis connection pool: it creates, lends, takes back and expires clients, each operation in one step.
//
// A borrowed client executes one command, whose callback gives the client back; this is how the program uses the pool.
module RedisPool {
  import opened Wrappers
  import opened Counting
  import opened Resp
  import opened RedisClient
  import opened Bytes

  /** Starting: init not yet reported; Resting: in the queue; Lent: borrowed; Working: its command issued. */
  datatype Role = Starting | Resting | Lent | Working | Gone

  datatype Member = Member(c: ConnState, buffer: seq<byte>, up: bool, role: Role)

  /** size is m_currentPoolSize, queue the idle clients of m_redisContextPool. */
  datatype State = State(members: seq<Member>, queue: seq<nat>, size: nat)

  datatype Config = Config(minSize: nat, maxSize: nat, password: seq<byte>, finite: seq<byte> -> bool)

  // ---------------------------------------------------------------------------------------------------------
  // The pool's operations

  function WithRole(p: State, i: nat, role: Role): State
    requires i < |p.members|
  {
    p.(members := p.members[i := p.members[i].(role := role)])
  }

  function NewMember(): Member {
    Member(ConnState(Connecting, None, true, false, [], []), [], false, Starting)
  }

  function Create(p: State, maxSize: nat): State {
    if p.size >= maxSize then p else p.(members := p.members + [NewMember()], size := p.size + 1)
  }

  /** The init callback. */
  function Started(p: State, i: nat, success: bool): State
    requires i < |p.members| && p.size > 0
  {
    if !success then WithRole(p, i, Gone).(size := p.size - 1)
    else WithRole(p, i, Resting).(queue := p.queue + [i])
  }

  /** releaseConnect: a client that is not idle is deleted and a new one created in its place. */
  function Release(p: State, i: nat, idle: bool, maxSize: nat): State
    requires i < |p.members| && p.size > 0
  {
    if !idle then Create(WithRole(p, i, Gone).(size := p.size - 1), maxSize)
    else WithRole(p, i, Resting).(queue := p.queue + [i])
  }

  function Take(p: State): State
    requires p.queue != [] && p.queue[0] < |p.members|
  {
    WithRole(p, p.queue[0], Lent).(queue := p.queue[1..])
  }

  /** Delete idle clients from the front of the queue while they are expired and more than the minimum is left. */
  function Expire(p: State, expired: nat -> bool, minSize: nat, checks: nat): State
    requires forall k :: 0 <= k < |p.queue| ==> p.queue[k] < |p.members|
    decreases checks
  {
    if checks == 0 || p.size <= minSize || p.queue == [] then p
    else
      var i := p.queue[0];
      if !expired(i) then p.(queue := p.queue[1..] + [i])
      else Expire(WithRole(p, i, Gone).(queue := p.queue[1..], size := p.size - 1), expired, minSize, checks - 1)
  }

  class Pool {
    const minSize: nat
    const maxSize: nat
    var currentPoolSize: nat
    var queue: seq<nat>
    var members: seq<Member>

    ghost function View(): State
      reads this
    {
      State(members, queue, currentPoolSize)
    }

    ghost predicate Valid()
      reads this
    {
      forall k :: 0 <= k < |queue| ==> queue[k] < |members|
    }

    constructor (minSize: nat, maxSize: nat)
      ensures Valid() && View() == State([], [], 0) && this.minSize == minSize && this.maxSize == maxSize
    {
      this.minSize, this.maxSize := minSize, maxSize;
      currentPoolSize, queue, members := 0, [], [];
    }

    method CreateConnect()
      requires Valid()
      modifies this
      ensures Valid() && View() == Create(old(View()), maxSize)
      ensures queue == old(queue)
      ensures old(currentPoolSize) >= maxSize ==> members == old(members) && currentPoolSize == old(currentPoolSize)
      ensures old(currentPoolSize) < maxSize ==>
                && currentPoolSize == old(currentPoolSize) + 1 && |members| == |old(members)| + 1
                && members[..|old(members)|] == old(members) && members[|old(members)|].role == Starting
    {
      if currentPoolSize >= maxSize {
        return;
      }
      members := members + [NewMember()];
      currentPoolSize := currentPoolSize + 1;
    }

    method OnInit(i: nat, success: bool)
      requires Valid() && i < |members| && currentPoolSize > 0
      modifies this
      ensures Valid() && View() == Started(old(View()), i, success)
      ensures queue == old(queue) + (if success then [i] else [])
      ensures currentPoolSize == old(currentPoolSize) - (if success then 0 else 1)
      ensures members == old(members)[i := old(members)[i].(role := if success then Resting else Gone)]
    {
      if !success {
        currentPoolSize := currentPoolSize - 1;
        members := members[i := members[i].(role := Gone)];
        return;
      }
      members := members[i := members[i].(role := Resting)];
      queue := queue + [i];
    }

    /** getConnect up to its blocking wait: an idle client, or the attempt to create one. */
    method GetConnect() returns (connect: Option<nat>)
      requires Valid()
      modifies this
      ensures Valid()
      ensures old(queue) != [] ==> connect == Some(old(queue)[0]) && View() == Take(old(View()))
      ensures old(queue) == [] ==> connect == None && View() == Create(old(View()), maxSize)
      ensures old(queue) != [] ==>
                && queue == old(queue)[1..] && currentPoolSize == old(currentPoolSize)
                && members == old(members)[old(queue)[0] := old(members)[old(queue)[0]].(role := Lent)]
      ensures old(queue) == [] ==> queue == [] && currentPoolSize == old(currentPoolSize) + (if old(currentPoolSize) < maxSize then 1 else 0)
    {
      if |queue| > 0 {
        var i := queue[0];
        queue := queue[1..];
        members := members[i := members[i].(role := Lent)];
        return Some(i);
      }
      CreateConnect();
      return None;
    }

    method ReleaseConnect(i: nat, idle: bool)
      requires Valid() && i < |members| && currentPoolSize > 0
      modifies this
      ensures Valid() && View() == Release(old(View()), i, idle, maxSize)
      ensures queue == old(queue) + (if idle then [i] else [])
      ensures members[..|old(members)|] == old(members)[i := old(members)[i].(role := if idle then Resting else Gone)]
      ensures idle ==> currentPoolSize == old(currentPoolSize) && |members| == |old(members)|
      ensures !idle && old(currentPoolSize) <= maxSize ==>
                currentPoolSize == old(currentPoolSize) && |members| == |old(members)| + 1 && members[|old(members)|].role == Starting
      ensures !idle && old(currentPoolSize) > maxSize ==>
                currentPoolSize == old(currentPoolSize) - 1 && |members| == |old(members)|
    {
      if !idle {
        currentPoolSize := currentPoolSize - 1;
        members := members[i := members[i].(role := Gone)];
        CreateConnect();
        return;
      }
      members := members[i := members[i].(role := Resting)];
      queue := queue + [i];
    }

    method ClearExpiredConnect(expired: nat -> bool)
      requires Valid()
      modifies this
      ensures Valid() && View() == Expire(old(View()), expired, minSize, maxSize)
    {
      if currentPoolSize <= minSize {
        return;
      }
      var checkedCount: nat := 0;
      while checkedCount < maxSize && currentPoolSize > minSize
        invariant Valid() && checkedCount <= maxSize
        invariant Expire(View(), expired, minSize, maxSize - checkedCount) == Expire(old(View()), expired, minSize, maxSize)
        decreases maxSize - checkedCount
      {
        if |queue| == 0 {
          break;
        }
        var client := queue[0];
        queue := queue[1..];
        checkedCount := checkedCount + 1;
        if !expired(client) {
          queue := queue + [client];
          break;
        }
        members := members[client := members[client].(role := Gone)];
        currentPoolSize := currentPoolSize - 1;
      }
    }
  }
}
