/** The connection buffer of the web server: a fixed-capacity array of
    connection handles filled by the acceptor and drained by the workers. */
module WServer {
  import opened FifoModel

  /** The array after the buffer is compacted: every slot takes its right
      neighbour's handle and the last slot is cleared to 0. A buffer of one
      slot (or none) is left as it is, since the shift loop runs no step. */
  function ShiftLeft(s: seq<int>): (r: seq<int>)
    ensures |r| == |s|
    ensures forall i :: 0 <= i < |s| - 1 ==> r[i] == s[i + 1]
    ensures |s| >= 2 ==> r[|s| - 1] == 0
    ensures |s| <= 1 ==> r == s
  {
    if |s| <= 1 then s else s[1..] + [0]
  }

  /** Compacting a buffer whose first `n` slots are live leaves the live
      handles after the head in the first `n - 1` slots, in the same order. */
  lemma ShiftLeftKeepsLive(s: seq<int>, n: int)
    requires 1 <= n <= |s|
    ensures ShiftLeft(s)[..n - 1] == s[1..n]
  {
  }

  /** The connection manager. `shedalg` selects the scheduling policy:
      true is first-in-first-out, false is shortest-file-first, for which
      push and pop do nothing. */
  class ConnectionManager {
    var connections: array<int>
    var maxSize: int
    var currentSize: int
    var shedalg: bool

    /** The buffer has `maxSize` slots, of which the first `currentSize` hold
        pending handles. */
    ghost predicate Valid()
      reads this
    {
      connections.Length == maxSize && 0 <= currentSize <= maxSize
    }

    /** The pending handles, oldest first. */
    ghost function Pending(): (q: seq<int>)
      reads this, connections
      requires Valid()
      ensures |q| == currentSize
    {
      connections[..currentSize]
    }

    constructor (size: nat, shedalg: bool)
      ensures Valid() && fresh(connections)
      ensures connections.Length == size
      ensures maxSize == size && currentSize == 0 && this.shedalg == shedalg
      ensures Pending() == []
    {
      maxSize := size;
      currentSize := 0;
      this.shedalg := shedalg;
      connections := new int[size];
    }

    /** Hands a new connection to the buffer. Under FIFO it is written into
        the first free slot; a caller finding the buffer full waits until a
        slot is freed, so the write happens on a buffer that is not full. */
    method Push(newConn: int)
      requires Valid()
      requires shedalg ==> currentSize < maxSize
      modifies this`currentSize, connections
      ensures Valid()
      ensures connections == old(connections) && maxSize == old(maxSize) && shedalg == old(shedalg)
      ensures currentSize == if shedalg then old(currentSize) + 1 else old(currentSize)
      ensures connections[..] == if shedalg then old(connections[..])[old(currentSize) := newConn]
                                 else old(connections[..])
      ensures Pending() == if shedalg then old(Pending()) + [newConn] else old(Pending())
      ensures shedalg ==> Run(maxSize, old(Pending()), [Request.Push(newConn)]) == Some(Outcome(Pending(), []))
    {
      if shedalg {
        RunPushOne(maxSize, Pending(), newConn);
        connections[currentSize] := newConn;
        currentSize := currentSize + 1;
      }
    }

    /** Shifts every slot of the buffer one place towards the front and
        clears the slots it vacates. */
    method Sort()
      requires connections.Length == maxSize
      modifies connections
      ensures connections[..] == ShiftLeft(old(connections[..]))
    {
      var i := 0;
      while i < maxSize - 1
        invariant 0 <= i <= if maxSize >= 1 then maxSize - 1 else 0
        invariant forall k :: 0 <= k < i ==> connections[k] == old(connections[k + 1])
        invariant 0 < i < maxSize ==> connections[i] == 0
        invariant forall k :: i < k < maxSize ==> connections[k] == old(connections[k])
        invariant i == 0 ==> connections[..] == old(connections[..])
      {
        connections[i] := connections[i + 1];
        connections[i + 1] := 0;
        i := i + 1;
      }
    }

    /** Takes the oldest pending connection. Under FIFO it is read from slot
        0, the count drops by one and the buffer is compacted; a caller
        finding the buffer empty waits until a handle arrives, so the read
        happens on a buffer that is not empty. Otherwise 0 is returned and
        nothing changes. */
    method Pop() returns (conn: int)
      requires Valid()
      requires shedalg ==> currentSize > 0
      modifies this`currentSize, connections
      ensures Valid()
      ensures connections == old(connections) && maxSize == old(maxSize) && shedalg == old(shedalg)
      ensures conn == if shedalg then old(connections[0]) else 0
      ensures currentSize == if shedalg then old(currentSize) - 1 else old(currentSize)
      ensures connections[..] == if shedalg then ShiftLeft(old(connections[..])) else old(connections[..])
      ensures shedalg ==> conn == old(Pending())[0] && Pending() == old(Pending())[1..]
      ensures !shedalg ==> Pending() == old(Pending())
      ensures shedalg ==> Run(maxSize, old(Pending()), [Request.Pop]) == Some(Outcome(Pending(), [conn]))
    {
      conn := 0;
      if shedalg {
        conn := connections[0];
        currentSize := currentSize - 1;
        Sort();
        ShiftLeftKeepsLive(old(connections[..]), old(currentSize));
        RunPopOne(maxSize, old(Pending()));
      }
    }
  }

  /** Replays a history of requests on a FIFO buffer, one `Push` or `Pop`
      call per request, in the order a single lock would serialise them. The
      buffer ends as the reference run says, and the handles handed out are
      exactly those the reference run serves: none lost, none duplicated,
      in arrival order. */
  method Drive(m: ConnectionManager, rs: seq<Request>) returns (served: seq<int>)
    requires m.Valid() && m.shedalg
    requires Run(m.maxSize, m.Pending(), rs).Some?
    modifies m`currentSize, m.connections
    ensures m.Valid() && m.shedalg && m.maxSize == old(m.maxSize) && m.connections == old(m.connections)
    ensures Run(m.maxSize, old(m.Pending()), rs) == Some(Outcome(m.Pending(), served))
    ensures served + m.Pending() == old(m.Pending()) + Accepted(rs)
  {
    ghost var start := m.Pending();
    served := [];
    for i := 0 to |rs|
      invariant m.Valid() && m.shedalg && m.maxSize == old(m.maxSize) && m.connections == old(m.connections)
      invariant Run(m.maxSize, start, rs[..i]) == Some(Outcome(m.Pending(), served))
    {
      RunConcat(m.maxSize, start, rs[..i], rs[i..]);
      assert rs[..i] + rs[i..] == rs;
      assert rs[i..][0] == rs[i];
      RunConcat(m.maxSize, start, rs[..i], [rs[i]]);
      assert rs[..i + 1] == rs[..i] + [rs[i]];
      ghost var before := m.Pending();
      ghost var servedBefore := served;
      match rs[i] {
        case Push(h) =>
          m.Push(h);
          assert Run(m.maxSize, before, [rs[i]]) == Some(Outcome(m.Pending(), []));
          assert served == servedBefore + [];
        case Pop =>
          var conn := m.Pop();
          served := served + [conn];
          assert Run(m.maxSize, before, [rs[i]]) == Some(Outcome(m.Pending(), [conn]));
      }
    }
    assert rs[..|rs|] == rs;
    RunConserves(m.maxSize, start, rs);
  }

  /** Capacity 2 under FIFO: push A and B, pop, push C, then pop twice.
      The workers receive A, B and C in that order. */
  method TwoSlotScenario(a: int, b: int, c: int) returns (first: int, second: int, third: int)
    ensures first == a && second == b && third == c
  {
    var m := new ConnectionManager(2, true);
    m.Push(a);
    m.Push(b);
    first := m.Pop();
    m.Push(c);
    second := m.Pop();
    third := m.Pop();
  }

  /** Capacity 1 under FIFO: each handle is popped before the next is
      pushed, and each pop returns the handle just pushed. */
  method OneSlotScenario(hs: seq<int>) returns (served: seq<int>)
    ensures served == hs
  {
    var m := new ConnectionManager(1, true);
    served := [];
    for i := 0 to |hs|
      invariant fresh(m.connections)
      invariant m.Valid() && m.maxSize == 1 && m.shedalg && m.currentSize == 0
      invariant served == hs[..i]
    {
      m.Push(hs[i]);
      assert m.Pending() == [hs[i]];
      var h := m.Pop();
      assert h == hs[i];
      assert hs[..i + 1] == hs[..i] + [hs[i]];
      served := served + [h];
    }
  }

  /** Under shortest-file-first the buffer ignores pushed handles and every
      pop yields 0. */
  method ShortestFirstScenario(size: nat, h: int) returns (popped: int)
    ensures popped == 0
  {
    var m := new ConnectionManager(size, false);
    m.Push(h);
    popped := m.Pop();
  }
}
