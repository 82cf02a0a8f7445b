/** A reference model of the queue discipline of the connection buffer: a
    bounded first-in-first-out sequence of connection handles, driven by a
    history of requests from the acceptor (push) and the workers (pop). */
module FifoModel {

  datatype Option<T> = None | Some(value: T)

  /** One request made of the buffer: the acceptor hands over a handle, or a
      worker asks for the oldest pending one. */
  datatype Request = Push(handle: int) | Pop

  /** What a history of requests leaves behind: the handles still buffered,
      and the handles given to workers, in the order they were given. */
  datatype Outcome = Outcome(pending: seq<int>, served: seq<int>)

  /** The handles a history hands over to the buffer, in arrival order. */
  function Accepted(rs: seq<Request>): (hs: seq<int>)
    decreases |rs|
  {
    if rs == [] then []
    else (if rs[0].Push? then [rs[0].handle] else []) + Accepted(rs[1..])
  }

  /** The handles a history hands over are those of its first part followed
      by those of its second. */
  lemma {:induction false} AcceptedAppend(first: seq<Request>, second: seq<Request>)
    ensures Accepted(first + second) == Accepted(first) + Accepted(second)
    decreases |first|
  {
    if first == [] {
      assert first + second == second;
    } else {
      assert (first + second)[0] == first[0];
      assert (first + second)[1..] == first[1..] + second;
      AcceptedAppend(first[1..], second);
      var head := if first[0].Push? then [first[0].handle] else [];
      assert Accepted(first + second) == head + (Accepted(first[1..]) + Accepted(second));
      assert head + (Accepted(first[1..]) + Accepted(second)) == (head + Accepted(first[1..])) + Accepted(second);
    }
  }

  /** Runs a history against a buffer of the given capacity holding `pending`.
      A push proceeds only while fewer than `capacity` handles are buffered and
      a pop only while some handle is buffered; a request that would have to
      wait makes the history impossible as one sequential order (None). */
  function Run(capacity: int, pending: seq<int>, rs: seq<Request>): (o: Option<Outcome>)
    decreases |rs|
  {
    if rs == [] then Some(Outcome(pending, []))
    else match rs[0]
      case Push(h) =>
        if |pending| < capacity then Run(capacity, pending + [h], rs[1..]) else None
      case Pop =>
        if pending == [] then None
        else match Run(capacity, pending[1..], rs[1..])
          case None => None
          case Some(o) => Some(Outcome(o.pending, [pending[0]] + o.served))
  }

  /** Running `first` and then, on what it leaves, `second`. */
  function Then(capacity: int, first: Option<Outcome>, second: seq<Request>): (o: Option<Outcome>)
  {
    match first
    case None => None
    case Some(o1) =>
      match Run(capacity, o1.pending, second)
      case None => None
      case Some(o2) => Some(Outcome(o2.pending, o1.served + o2.served))
  }

  /** A single push appends the handle at the tail of a buffer that is not full. */
  lemma RunPushOne(capacity: int, pending: seq<int>, h: int)
    requires |pending| < capacity
    ensures Run(capacity, pending, [Push(h)]) == Some(Outcome(pending + [h], []))
  {
  }

  /** A single pop hands out the head of a buffer that is not empty and leaves
      the rest, in order. */
  lemma RunPopOne(capacity: int, pending: seq<int>)
    requires pending != []
    ensures Run(capacity, pending, [Pop]) == Some(Outcome(pending[1..], [pending[0]]))
  {
    assert [Pop][1..] == [];
    assert [pending[0]] + [] == [pending[0]];
  }

  /** No handle is lost or duplicated, and handles leave in arrival order:
      what was served followed by what is still buffered is exactly what was
      buffered at the start followed by every handle pushed. */
  lemma {:induction false} RunConserves(capacity: int, pending: seq<int>, rs: seq<Request>)
    requires Run(capacity, pending, rs).Some?
    ensures Run(capacity, pending, rs).value.served + Run(capacity, pending, rs).value.pending
            == pending + Accepted(rs)
    decreases |rs|
  {
    if rs != [] {
      var o := Run(capacity, pending, rs).value;
      match rs[0]
      case Push(h) =>
        RunConserves(capacity, pending + [h], rs[1..]);
        assert o.served + o.pending == (pending + [h]) + Accepted(rs[1..]);
        assert Accepted(rs) == [h] + Accepted(rs[1..]);
        assert (pending + [h]) + Accepted(rs[1..]) == pending + ([h] + Accepted(rs[1..]));
      case Pop =>
        var o1 := Run(capacity, pending[1..], rs[1..]).value;
        RunConserves(capacity, pending[1..], rs[1..]);
        assert o == Outcome(o1.pending, [pending[0]] + o1.served);
        assert Accepted(rs) == Accepted(rs[1..]);
        calc {
          o.served + o.pending;
          ([pending[0]] + o1.served) + o1.pending;
          [pending[0]] + (o1.served + o1.pending);
          [pending[0]] + (pending[1..] + Accepted(rs[1..]));
          ([pending[0]] + pending[1..]) + Accepted(rs[1..]);
          { assert [pending[0]] + pending[1..] == pending; }
          pending + Accepted(rs);
        }
    }
  }

  /** The capacity invariant: a buffer that starts within its capacity stays
      within it after any history. */
  lemma {:induction false} RunBounded(capacity: int, pending: seq<int>, rs: seq<Request>)
    requires |pending| <= capacity
    requires Run(capacity, pending, rs).Some?
    ensures |Run(capacity, pending, rs).value.pending| <= capacity
    decreases |rs|
  {
    if rs != [] {
      match rs[0]
      case Push(h) =>
        RunBounded(capacity, pending + [h], rs[1..]);
      case Pop =>
        RunBounded(capacity, pending[1..], rs[1..]);
    }
  }

  /** Starting from an empty buffer, the handles served are always a prefix of
      the handles accepted, and once the buffer is drained they are exactly the
      accepted handles, in the same order. */
  lemma ServedInArrivalOrder(capacity: int, rs: seq<Request>)
    requires Run(capacity, [], rs).Some?
    ensures Run(capacity, [], rs).value.served <= Accepted(rs)
    ensures Run(capacity, [], rs).value.pending == [] ==> Run(capacity, [], rs).value.served == Accepted(rs)
  {
    var o := Run(capacity, [], rs).value;
    RunConserves(capacity, [], rs);
    assert [] + Accepted(rs) == Accepted(rs);
    assert o.served + o.pending == Accepted(rs);
    assert Accepted(rs)[..|o.served|] == o.served;
    if o.pending == [] {
      assert o.served + [] == o.served;
    }
  }

  /** A history split in two runs as its first part followed by its second,
      so the calls made one after another on one buffer form a single run. */
  lemma {:induction false} RunConcat(capacity: int, pending: seq<int>, first: seq<Request>, second: seq<Request>)
    ensures Run(capacity, pending, first + second) == Then(capacity, Run(capacity, pending, first), second)
    decreases |first|
  {
    if first == [] {
      assert first + second == second;
      match Run(capacity, pending, second)
      case None =>
      case Some(o2) => assert [] + o2.served == o2.served;
    } else {
      assert (first + second)[0] == first[0];
      assert (first + second)[1..] == first[1..] + second;
      match first[0]
      case Push(h) =>
        if |pending| < capacity {
          RunConcat(capacity, pending + [h], first[1..], second);
        }
      case Pop =>
        if pending != [] {
          RunConcat(capacity, pending[1..], first[1..], second);
          match Run(capacity, pending[1..], first[1..])
          case None =>
          case Some(o1) =>
            match Run(capacity, o1.pending, second)
            case None =>
            case Some(o2) =>
              assert [pending[0]] + (o1.served + o2.served) == ([pending[0]] + o1.served) + o2.served;
        }
    }
  }
}
