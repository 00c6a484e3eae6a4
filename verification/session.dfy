/** A client's sequence of calls on one socket, run one after another on the
    registry state, and the properties that relate several calls.
 */
module Session {
  import opened Registry
  import opened ChatSocket

  /** One public call on the socket, or one inbound frame. */
  datatype Op =
    | AddListener(channel: Channel, listener: Listener)
    | RemoveListener(channel: Channel, id: string)
    | Close
    | Receive(frame: Frame)

  /** What a call hands back: nothing, a remove count, or the handler
      invocations a frame caused. */
  datatype Output = Done | Count(n: nat) | Invoked(calls: seq<Call>)

  datatype Outcome = Outcome(socket: Socket, outputs: seq<Output>)

  /** Runs one call. */
  function Step(s: Socket, op: Op): (r: (Socket, Output))
    ensures op.Receive? ==> r.0 == s
    ensures !op.RemoveListener? ==> !r.1.Count?
    ensures r.0.url == s.url
  {
    match op
    case AddListener(ch, l) => (Add(s, ch, l), Done)
    case RemoveListener(ch, id) =>
      var rm := Remove(s, ch, id);
      (rm.socket, Count(rm.removed))
    case Close => (Disconnect(s), Done)
    case Receive(f) => (s, Invoked(Dispatch(s, f)))
  }

  /** Runs the calls in order, collecting one output per call: the last
      call runs on the state the earlier ones left. */
  function Run(s: Socket, ops: seq<Op>): (r: Outcome)
    ensures |r.outputs| == |ops|
    ensures r.socket.url == s.url
    decreases |ops|
  {
    if |ops| == 0 then Outcome(s, [])
    else
      var before := Run(s, ops[..|ops| - 1]);
      var last := Step(before.socket, ops[|ops| - 1]);
      Outcome(last.0, before.outputs + [last.1])
  }

  /** The add calls registering `ls` on channel `ch`, in order. */
  function Adds(ch: Channel, ls: seq<Listener>): (ops: seq<Op>)
    ensures |ops| == |ls|
    ensures forall i :: 0 <= i < |ls| ==> ops[i] == AddListener(ch, ls[i])
  {
    seq(|ls|, i requires 0 <= i < |ls| => AddListener(ch, ls[i]))
  }

  /** The calls delivering `frames`, in order. */
  function Receives(frames: seq<Frame>): (ops: seq<Op>)
    ensures |ops| == |frames|
    ensures forall i :: 0 <= i < |frames| ==> ops[i] == Receive(frames[i])
  {
    seq(|frames|, i requires 0 <= i < |frames| => Receive(frames[i]))
  }

  /** True iff the call touches no registry but channel `ch`'s (frames
      never change a registry, so they qualify). */
  predicate Touches(op: Op, ch: Channel)
  {
    match op
    case AddListener(c, _) => c == ch
    case RemoveListener(c, _) => c == ch
    case Close => false
    case Receive(_) => true
  }

  /** A run of add calls appends the records to the channel's registry in
      call order and leaves the other registries untouched. */
  lemma {:induction false} RunAdds(s: Socket, ch: Channel, ls: seq<Listener>)
    ensures Run(s, Adds(ch, ls)).socket.Listeners(ch) == s.Listeners(ch) + ls
    ensures forall c :: c != ch ==> Run(s, Adds(ch, ls)).socket.Listeners(c) == s.Listeners(c)
    decreases |ls|
  {
    if |ls| == 0 {
      assert s.Listeners(ch) + ls == s.Listeners(ch);
    } else {
      var init, last := ls[..|ls| - 1], ls[|ls| - 1];
      var ops := Adds(ch, ls);
      RunAdds(s, ch, init);
      var before := Run(s, Adds(ch, init)).socket;
      assert Run(s, ops).socket == Add(before, ch, last) by {
        assert ops[..|ops| - 1] == Adds(ch, init);
        assert ops[|ops| - 1] == AddListener(ch, last);
      }
      assert before.Listeners(ch) + [last] == s.Listeners(ch) + ls by {
        SplitLast(ls);
        AppendAssoc(s.Listeners(ch), init, [last]);
      }
    }
  }

  /** Any run of add calls on a fresh socket followed by one remove leaves
      exactly the non-matching records, in registration order, returns how
      many records matched, and leaves the other registries empty. */
  lemma AddsThenRemove(url: string, ch: Channel, ls: seq<Listener>, id: string)
    ensures var r := Run(New(url), Adds(ch, ls) + [RemoveListener(ch, id)]);
      && r.socket.Listeners(ch) == Without(ls, id)
      && r.outputs[|ls|] == Count(Occurrences(ls, id))
      && (forall c :: c != ch ==> r.socket.Listeners(c) == [])
  {
    var s := New(url);
    var ops := Adds(ch, ls) + [RemoveListener(ch, id)];
    assert ops[..|ops| - 1] == Adds(ch, ls);
    RunAdds(s, ch, ls);
    assert s.Listeners(ch) + ls == ls;
  }

  /** Adding records to a channel that already holds some, then removing
      one id, returns the matches among the old records plus the matches
      among the added ones. */
  lemma AddsThenRemoveCount(s: Socket, ch: Channel, ls: seq<Listener>, id: string)
    ensures Remove(Run(s, Adds(ch, ls)).socket, ch, id).removed
         == Occurrences(s.Listeners(ch), id) + Occurrences(ls, id)
  {
    RunAdds(s, ch, ls);
    OccurrencesConcat(s.Listeners(ch), ls, id);
  }

  /** Per-channel isolation: a run whose calls add to and remove from `ch`
      only (and receive frames) never changes another channel's registry. */
  lemma {:induction false} IsolatedChannels(s: Socket, ops: seq<Op>, ch: Channel)
    requires forall i :: 0 <= i < |ops| ==> Touches(ops[i], ch)
    ensures forall c :: c != ch ==> Run(s, ops).socket.Listeners(c) == s.Listeners(c)
    decreases |ops|
  {
    if |ops| > 0 {
      var init := ops[..|ops| - 1];
      IsolatedChannels(s, init, ch);
      assert Touches(ops[|ops| - 1], ch);
    }
  }

  /** A run of frames alone never changes any registry, and each frame
      invokes what it would invoke on the starting state. */
  lemma {:induction false} FramesLeaveStateAlone(s: Socket, frames: seq<Frame>)
    ensures Run(s, Receives(frames)).socket == s
    ensures forall i :: 0 <= i < |frames| ==>
      Run(s, Receives(frames)).outputs[i] == Invoked(Dispatch(s, frames[i]))
    decreases |frames|
  {
    if |frames| > 0 {
      var init := frames[..|frames| - 1];
      assert Receives(frames)[..|frames| - 1] == Receives(init);
      FramesLeaveStateAlone(s, init);
    }
  }

  /** Adding a record with a fresh id and then removing that id restores
      the socket and returns 1. */
  lemma AddThenRemove(s: Socket, ch: Channel, l: Listener)
    requires Absent(s.Listeners(ch), l.id)
    ensures Remove(Add(s, ch, l), ch, l.id) == Removal(s, 1)
  {
    var rs := s.Listeners(ch);
    WithoutConcat(rs, [l], l.id);
    WithoutSingle(l, l.id);
    WithoutUnchangedIffAbsent(rs, l.id);
    assert Add(s, ch, l).Listeners(ch) == rs + [l];
    var r := Remove(Add(s, ch, l), ch, l.id);
    assert r.socket.Listeners(ch) == rs;
    assert r.socket.joins == s.joins && r.socket.leaves == s.leaves
        && r.socket.messages == s.messages by {
      assert forall c :: r.socket.Listeners(c) == s.Listeners(c);
      assert r.socket.Listeners(Join) == s.Listeners(Join);
      assert r.socket.Listeners(Leave) == s.Listeners(Leave);
      assert r.socket.Listeners(Message) == s.Listeners(Message);
    }
  }

  /** Remove is idempotent: a second remove of the same id returns 0 and
      changes nothing. */
  lemma RemoveTwice(s: Socket, ch: Channel, id: string)
    ensures var once := Remove(s, ch, id).socket;
      Remove(once, ch, id) == Removal(once, 0)
  {
    WithoutIdempotent(s.Listeners(ch), id);
  }

  /** Removing an id nobody registered returns 0 and changes nothing;
      removing a registered id returns a positive count. */
  lemma RemoveAbsent(s: Socket, ch: Channel, id: string)
    ensures Remove(s, ch, id) == Removal(s, 0) <==> Absent(s.Listeners(ch), id)
  {
    AbsentIffNoOccurrences(s.Listeners(ch), id);
  }

  /** Two listeners registered under the same id are removed together by
      one call, which returns 2. */
  lemma SharedIdRemovedTogether(url: string, id: string, t1: nat, t2: nat)
    ensures var ops := [AddListener(Join, Listener(id, t1)),
                        AddListener(Join, Listener(id, t2)),
                        RemoveListener(Join, id)];
      var r := Run(New(url), ops);
      r.outputs[2] == Count(2) && r.socket.Empty()
  {
    var ls := [Listener(id, t1), Listener(id, t2)];
    var ops := [AddListener(Join, Listener(id, t1)),
                AddListener(Join, Listener(id, t2)),
                RemoveListener(Join, id)];
    assert ops == Adds(Join, ls) + [RemoveListener(Join, id)];
    AddsThenRemove(url, Join, ls, id);
    assert Ids(ls) == [id, id];
    assert multiset(Ids(ls)) == multiset{id, id};
    assert Without(ls, id) == [] by {
      assert Absent(Without(ls, id), id);
      assert forall l :: l in Without(ls, id) ==> l in ls && l.id != id;
    }
    var r := Run(New(url), ops);
    assert r.socket.joins == r.socket.Listeners(Join);
    assert r.socket.leaves == r.socket.Listeners(Leave);
    assert r.socket.messages == r.socket.Listeners(Message);
  }

  /** Disconnecting yields the same registries as a freshly constructed
      socket on the same address, and is idempotent. */
  lemma DisconnectIsFresh(s: Socket)
    ensures Disconnect(s) == New(s.url)
    ensures Disconnect(Disconnect(s)) == Disconnect(s)
  {
  }

  /** After a disconnect no frame invokes any handler until a listener is
      registered again. */
  lemma SilentAfterDisconnect(s: Socket, frames: seq<Frame>)
    ensures forall i :: 0 <= i < |frames| ==> Dispatch(Disconnect(s), frames[i]) == []
  {
  }

  /** Registering a join listener makes the next `join` frame call it last,
      after the handlers already registered; other frames are unaffected. */
  lemma DispatchAfterAdd(s: Socket, l: Listener, f: Frame)
    ensures f.kind == "join" ==>
      Dispatch(Add(s, Join, l), f) == Dispatch(s, f) + [Call(Join, l.tag, f.data)]
    ensures f.kind != "join" ==> Dispatch(Add(s, Join, l), f) == Dispatch(s, f)
  {
    if f.kind == "join" {
      var s' := Add(s, Join, l);
      assert s'.joins == s.joins + [l] by {
        assert s'.Listeners(Join) == s.Listeners(Join) + [l];
      }
    } else if f.kind == "leave" {
      var s' := Add(s, Join, l);
      assert s'.leaves == s.leaves by {
        assert s'.Listeners(Leave) == s.Listeners(Leave);
      }
    }
  }

  /** A `message` frame invokes no handler, however many message listeners
      are registered. */
  lemma MessageFramesInvokeNothing(s: Socket, data: string)
    ensures Dispatch(s, Frame("message", data)) == []
  {
  }
}
