/** The `ChatSocket` listener registries and inbound-frame routing: three
    independent registries (join, leave, new-message), the add and remove
    operations on each, `disconnect`'s clearing of all three, and the
    routing of a parsed frame to the handlers it invokes.
 */
module ChatSocket {
  import opened Registry

  /** The three event channels a listener can subscribe to. */
  datatype Channel = Join | Leave | Message

  /** The socket's state as far as listeners go: the endpoint address kept by
      the constructor and one registry per channel. */
  datatype Socket = Socket(
    url: string,
    joins: seq<Listener>,
    leaves: seq<Listener>,
    messages: seq<Listener>)
  {
    /** The registry that serves channel `ch`. */
    function Listeners(ch: Channel): seq<Listener>
    {
      match ch
      case Join => joins
      case Leave => leaves
      case Message => messages
    }

    /** True iff every registry is empty. */
    predicate Empty()
    {
      joins == [] && leaves == [] && messages == []
    }
  }

  /** A parsed inbound frame; `kind` is the frame's `type` field. */
  datatype Frame = Frame(kind: string, data: string)

  /** One handler invocation: the handler tagged `tag` of registry `channel`
      called with argument `arg`. */
  datatype Call = Call(channel: Channel, tag: nat, arg: string)

  /** The outcome of a remove: the new state and the returned count. */
  datatype Removal = Removal(socket: Socket, removed: nat)

  /** `s` with the registry of `ch` replaced by `rs` and nothing else changed. */
  function Replace(s: Socket, ch: Channel, rs: seq<Listener>): (s': Socket)
    ensures s'.Listeners(ch) == rs
    ensures forall c :: c != ch ==> s'.Listeners(c) == s.Listeners(c)
    ensures s'.url == s.url
  {
    match ch
    case Join => s.(joins := rs)
    case Leave => s.(leaves := rs)
    case Message => s.(messages := rs)
  }

  /** `new ChatSocket(url)`: keeps the address, all registries empty, no
      connection opened. */
  function New(url: string): (s: Socket)
    ensures s.url == url
    ensures forall ch :: s.Listeners(ch) == []
  {
    Socket(url, [], [], [])
  }

  /** `addOnUserJoinCallback`, `addOnUserLeaveCallback` and
      `addOnNewMessageCallback`: append the record to the end of the
      channel's registry, with no duplicate-id check. */
  function Add(s: Socket, ch: Channel, l: Listener): (s': Socket)
    ensures |s'.Listeners(ch)| == |s.Listeners(ch)| + 1
    ensures s'.Listeners(ch)[..|s.Listeners(ch)|] == s.Listeners(ch)
    ensures s'.Listeners(ch)[|s.Listeners(ch)|] == l
    ensures forall c :: c != ch ==> s'.Listeners(c) == s.Listeners(c)
    ensures s'.url == s.url
  {
    Replace(s, ch, s.Listeners(ch) + [l])
  }

  /** `removeOnUserJoinCallback`, `removeOnUserLeaveCallback` and
      `removeOnNewMessageCallback`: drop every record of the channel whose
      id equals `id` and return old length minus new length. */
  function Remove(s: Socket, ch: Channel, id: string): (r: Removal)
    ensures forall l :: l in r.socket.Listeners(ch) <==> l in s.Listeners(ch) && l.id != id
    ensures r.socket.Listeners(ch) == Without(s.Listeners(ch), id)
    ensures r.removed == Occurrences(s.Listeners(ch), id)
    ensures r.removed == 0 <==> r.socket == s
    ensures forall c :: c != ch ==> r.socket.Listeners(c) == s.Listeners(c)
    ensures r.socket.url == s.url
  {
    var kept := Without(s.Listeners(ch), id);
    WithoutCount(s.Listeners(ch), id);
    WithoutUnchangedIffAbsent(s.Listeners(ch), id);
    AbsentIffNoOccurrences(s.Listeners(ch), id);
    var s' := Replace(s, ch, kept);
    assert s' == s <==> kept == s.Listeners(ch) by {
      if kept == s.Listeners(ch) {
        assert forall c :: s'.Listeners(c) == s.Listeners(c);
        assert s'.joins == s.Listeners(Join) == s.joins;
        assert s'.leaves == s.Listeners(Leave) == s.leaves;
        assert s'.messages == s.Listeners(Message) == s.messages;
      }
    }
    Removal(s', |s.Listeners(ch)| - |kept|)
  }

  /** `disconnect`, as far as registries go: all three are emptied, whatever
      they held; the address is kept. */
  function Disconnect(s: Socket): (s': Socket)
    ensures s'.Empty()
    ensures forall ch :: s'.Listeners(ch) == []
    ensures s'.url == s.url
  {
    s.(joins := [], leaves := [], messages := [])
  }

  /** Calls every handler of `rs`, in registration order, with `data`. */
  function Notify(ch: Channel, rs: seq<Listener>, data: string): (calls: seq<Call>)
    ensures |calls| == |rs|
    ensures forall i :: 0 <= i < |rs| ==> calls[i] == Call(ch, rs[i].tag, data)
  {
    if |rs| == 0 then []
    else [Call(ch, rs[0].tag, data)] + Notify(ch, rs[1..], data)
  }

  /** `onMessage` on an already-parsed frame: the handler invocations it
      performs. A `join` frame notifies the join registry, a `leave` frame
      the leave registry; a `message` frame is only logged and any other
      type is ignored, so neither invokes anything. */
  function Dispatch(s: Socket, f: Frame): (calls: seq<Call>)
    ensures f.kind == "join" ==>
      |calls| == |s.joins| &&
      forall i :: 0 <= i < |calls| ==> calls[i] == Call(Join, s.joins[i].tag, f.data)
    ensures f.kind == "leave" ==>
      |calls| == |s.leaves| &&
      forall i :: 0 <= i < |calls| ==> calls[i] == Call(Leave, s.leaves[i].tag, f.data)
    ensures f.kind != "join" && f.kind != "leave" ==> calls == []
    ensures forall c :: c in calls ==> c.channel != Message && c.arg == f.data
  {
    if f.kind == "join" then Notify(Join, s.joins, f.data)
    else if f.kind == "leave" then Notify(Leave, s.leaves, f.data)
    else if f.kind == "message" then []
    else []
  }
}
