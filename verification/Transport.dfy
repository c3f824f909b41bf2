/**
 Sending and receiving over a connection that moves any part of a buffer at a time (co/connection.cpp), and the
 commands on top of it (co/oCommand.cpp, co/objectDataOCommand.cpp, co/localNode.cpp).
 */
module Transport {
  import opened Common
  import opened DataStreams
  import opened Framing

  /** What recvSync comes back with. */
  datatype Received = Full(buffer: seq<Byte>) | Fluke | Failed(buffer: seq<Byte>)

  datatype Pending = Pending(buffer: seq<Byte>, bytes: nat)

  const READ_TIMEOUT: int := -2

  /** Each transfer moves something. */
  predicate Moving(outcomes: seq<int>) {
    forall i :: 0 <= i < |outcomes| ==> outcomes[i] > 0
  }

  /** Some bytes were moved from the front of the wire to the end of the buffer. */
  predicate Taken(wasWire: seq<Byte>, wire: seq<Byte>, wasBuffer: seq<Byte>, buffer: seq<Byte>) {
    wasBuffer + wasWire == buffer + wire && |wasBuffer| <= |buffer|
  }

  lemma TakenFirst(wire: seq<Byte>, buffer: seq<Byte>, n: nat)
    requires n <= |wire|
    ensures Taken(wire, wire[n..], buffer, buffer + wire[..n])
    ensures n == 0 ==> wire[n..] == wire && buffer + wire[..n] == buffer
  {
    assert wire == wire[..n] + wire[n..];
  }

  class Connection {
    var connected: bool
    /** Bytes written and not yet read. */
    var wire: seq<Byte>
    /** How much the next transfers move: anything up to what is asked for and there, or an error below zero. */
    var outcomes: seq<int>
    /** The receive that was started. */
    var pending: Option<Pending>

    constructor ()
      ensures connected && wire == [] && pending == None
    {
      connected, wire, outcomes, pending := true, [], [], None;
    }

    /** One call of the transport; an error once the outcomes are used up. */
    method Transfer(limit: nat) returns (n: int)
      modifies this`outcomes
      ensures n <= limit && (old(outcomes) == [] ==> n < 0 && outcomes == [])
      ensures old(outcomes) != [] ==> outcomes == old(outcomes)[1..] && (old(outcomes)[0] > 0 && limit > 0 ==> n > 0)
    {
      if outcomes == [] {
        return -1;
      }
      n := if outcomes[0] > limit then limit else outcomes[0];
      outcomes := outcomes[1..];
    }

    /** send: repeats partial writes until everything is written; an error closes the connection. */
    method Send(data: seq<Byte>) returns (ok: bool)
      modifies this
      ensures pending == old(pending)
      ensures ok ==> wire == old(wire) + data && connected == old(connected)
      ensures !ok ==> !connected && exists k: nat :: k < |data| && wire == old(wire) + data[..k]
      ensures Moving(old(outcomes)) && |data| <= |old(outcomes)| ==> ok
      ensures Moving(old(outcomes)) ==> Moving(outcomes) && |outcomes| >= |old(outcomes)| - |data|
    {
      var done: nat := 0;
      while done < |data|
        invariant done <= |data| && wire == old(wire) + data[..done]
        invariant connected == old(connected) && pending == old(pending)
        invariant Moving(old(outcomes)) ==> Moving(outcomes) && |outcomes| >= |old(outcomes)| - done
        decreases |data| - done, |outcomes|
      {
        var wrote := Transfer(|data| - done);
        if wrote < 0 {
          connected := false;
          return false;
        }
        assert data[..done] + data[done..done + wrote] == data[..done + wrote];
        wire := wire + data[done..done + wrote];
        done := done + wrote;
      }
      assert data[..done] == data;
      return true;
    }

    /** recvNB. */
    method RecvNB(buffer: seq<Byte>, bytes: nat)
      requires pending == None && bytes > 0
      modifies this`pending
      ensures pending == Some(Pending(buffer, bytes))
    {
      pending := Some(Pending(buffer, bytes));
    }

    /**
     recvSync: repeats partial reads until all bytes of the started receive are there. A timeout of the first read
     restores the receive; reading nothing at first, or an error, gives it up. Only a non-blocking read times out.
     */
    method RecvSync(block: bool) returns (r: Received)
      requires pending.Some?
      modifies this`wire, this`outcomes, this`pending
      ensures r.Full? ==>
        && pending == None && old(pending).value.bytes <= |old(wire)|
        && r.buffer == old(pending).value.buffer + old(wire)[..old(pending).value.bytes]
        && wire == old(wire)[old(pending).value.bytes..]
      ensures r.Fluke? ==> !block && wire == old(wire) && pending == old(pending)
      ensures r.Failed? ==> pending == None && Taken(old(wire), wire, old(pending).value.buffer, r.buffer)
      ensures var bytes := old(pending).value.bytes;
        connected && 0 < bytes <= |old(wire)| && Moving(old(outcomes)) && bytes <= |old(outcomes)| ==>
          r.Full? && Moving(outcomes) && |outcomes| >= |old(outcomes)| - bytes
    {
      var buffer, bytes := pending.value.buffer, pending.value.bytes;
      ghost var was := wire;
      pending := None;
      if !connected || bytes == 0 {
        TakenFirst(was, buffer, 0);
        return Failed(buffer);
      }
      var left, data := bytes, buffer;
      ghost var smooth := Moving(outcomes) && bytes <= |wire| && bytes <= |outcomes|;
      var got := Transfer(if left < |wire| then left else |wire|);
      if got == READ_TIMEOUT && !block {
        pending := Some(Pending(buffer, bytes));
        return Fluke;
      }
      while true
        invariant pending == None && 0 < left <= bytes && bytes - left <= |was| && wire == was[bytes - left..]
        invariant data == buffer + was[..bytes - left] && got <= left && got <= |wire|
        invariant smooth ==> Moving(outcomes) && got > 0 && |outcomes| >= |old(outcomes)| - (bytes - left) - 1
        decreases left, |outcomes|, got
      {
        if got < 0 || (got == 0 && left == bytes) {
          TakenFirst(was, buffer, bytes - left);
          return Failed(data);
        }
        data := data + wire[..got];
        wire := wire[got..];
        assert wire == was[bytes - left + got..] && data == buffer + was[..bytes - left + got];
        if left > got {
          left := left - got;
          got := Transfer(if left < |wire| then left else |wire|);
        } else {
          return Full(data);
        }
      }
    }
  }

  /** _handleData with _readHead and _readTail: receives one command and starts the next receive. */
  method HandleData(c: Connection) returns (command: Option<seq<Byte>>)
    requires c.pending == Some(Pending([], MIN_SIZE))
    modifies c
    ensures c.pending == Some(Pending([], MIN_SIZE)) && c.connected == old(c.connected)
    ensures command.Some? ==> Parse(old(c.wire)) == Some((command.value, c.wire))
    ensures c.connected && Parse(old(c.wire)).Some? && Moving(old(c.outcomes)) && |old(c.wire)| <= |old(c.outcomes)| ==>
      command.Some? && Moving(c.outcomes) && |c.outcomes| >= |c.wire|
  {
    hide Number;
    ghost var was := c.wire;
    var head := c.RecvSync(false);
    if head.Fluke? {
      return None;
    }
    if head.Failed? {
      c.RecvNB([], MIN_SIZE);
      return None;
    }
    var buffer := head.buffer;
    assert buffer == was[..MIN_SIZE] && buffer[..8] == was[..8];
    var needed := Number(buffer[..8]);
    if needed > |buffer| {
      c.RecvNB(buffer, needed - |buffer|);
      var tail := c.RecvSync(true);
      c.RecvNB([], MIN_SIZE);
      if tail.Failed? {
        return None;
      }
      assert was[MIN_SIZE..][..needed - MIN_SIZE] == was[MIN_SIZE..needed];
      assert was[MIN_SIZE..][needed - MIN_SIZE..] == was[needed..];
      assert tail.buffer == was[..needed];
      return Some(tail.buffer);
    }
    c.RecvNB([], MIN_SIZE);
    assert buffer[..needed] == was[..needed];
    return Some(buffer[..needed]);
  }

  /** sendBody: the raw data, or each chunk after its size. */
  method SendBody(c: Connection, p: Payload) returns (ok: bool)
    modifies c
    ensures c.pending == old(c.pending) && (ok ==> c.wire == old(c.wire) + BodyBytes(p) && c.connected == old(c.connected))
    ensures Moving(old(c.outcomes)) && |BodyBytes(p)| <= |old(c.outcomes)| ==>
      ok && Moving(c.outcomes) && |c.outcomes| >= |old(c.outcomes)| - |BodyBytes(p)|
  {
    if p.Raw? {
      ok := c.Send(p.bytes);
      return;
    }
    hide Encode, Moving;
    ghost var was, goal := c.wire, ChunkBytes(p.chunks);
    ghost var smooth := Moving(c.outcomes) && |goal| <= |c.outcomes|;
    assert p.chunks[0..] == p.chunks;
    for i := 0 to |p.chunks|
      invariant c.pending == old(c.pending) && c.connected == old(c.connected)
      invariant c.wire + ChunkBytes(p.chunks[i..]) == was + goal
      invariant smooth ==> Moving(c.outcomes) && |c.outcomes| >= |old(c.outcomes)| - |goal| + |ChunkBytes(p.chunks[i..])|
    {
      var chunk := p.chunks[i];
      ghost var before := c.wire;
      ChunkFirst(p.chunks[i..], before);
      assert p.chunks[i..][1..] == p.chunks[i + 1..];
      ok := c.Send(Encode(|chunk|, 8));
      if !ok {
        return;
      }
      ok := c.Send(chunk);
      if !ok {
        return;
      }
    }
    return true;
  }

  lemma ChunkFirst(chunks: seq<seq<Byte>>, before: seq<Byte>)
    requires chunks != []
    ensures before + ChunkBytes(chunks) == before + Encode(|chunks[0]|, 8) + chunks[0] + ChunkBytes(chunks[1..])
    ensures |ChunkBytes(chunks)| == 8 + |chunks[0]| + |ChunkBytes(chunks[1..])|
  {
    hide Encode;
    Associate(before, Encode(|chunks[0]|, 8), chunks[0], ChunkBytes(chunks[1..]));
  }

  lemma Associate(a: seq<Byte>, b: seq<Byte>, c: seq<Byte>, d: seq<Byte>)
    ensures a + (b + c + d) == a + b + c + d
  {
  }

  /** A command to be sent: its fields after the size, and a payload if it has a body. */
  datatype Outgoing = Outgoing(fields: seq<Byte>, body: Option<Payload>)

  function AsCommand(o: Outgoing): Command {
    Command(o.fields, if o.body.Some? then BodyBytes(o.body.value) else [])
  }

  /**
   The destructors of OCommand and ObjectDataOCommand: without a body the padded buffer in one go, otherwise the
   header with the size of both, the body, and padding. The padding is memory that happens to be there.
   */
  method SendCommand(c: Connection, o: Outgoing, memory: seq<Byte>) returns (ok: bool)
    requires |memory| >= MIN_SIZE && Size(AsCommand(o)) < WORD
    modifies c
    ensures c.pending == old(c.pending)
    ensures var padding := memory[..PadSize(Size(AsCommand(o)))];
      && Framed(AsCommand(o), padding)
      && (ok ==> c.wire == old(c.wire) + Wire(AsCommand(o), padding) && c.connected == old(c.connected))
      && (Moving(old(c.outcomes)) && |Wire(AsCommand(o), padding)| <= |old(c.outcomes)| ==>
            ok && Moving(c.outcomes) && |c.outcomes| >= |old(c.outcomes)| - |Wire(AsCommand(o), padding)|)
  {
    hide Encode, Moving, ChunkBytes;
    var additional := if o.body.Some? then AnnouncedSize(o.body.value) else 0;
    if o.body.Some? {
      AnnouncedIsSent(o.body.value);
    }
    var size := 8 + |o.fields| + additional;
    var header := Encode(size, 8) + o.fields;
    var padding := memory[..PadSize(size)];
    ghost var was, body := c.wire, AsCommand(o).body;
    WireParts(was, header, body, padding);
    if additional == 0 {
      ok := c.Send(header + padding);
      return;
    }
    ok := c.Send(header);
    if !ok {
      return;
    }
    ok := SendBody(c, o.body.value);
    if !ok {
      return;
    }
    if size < MIN_SIZE {
      ok := c.Send(padding);
    }
  }

  lemma WireParts(was: seq<Byte>, header: seq<Byte>, body: seq<Byte>, padding: seq<Byte>)
    ensures was + (header + body + padding) == was + header + body + padding
    ensures body == [] ==> was + (header + body + padding) == was + (header + padding)
    ensures padding == [] ==> was + (header + body + padding) == was + header + body
  {
  }

  function Commands(os: seq<Outgoing>): (cs: seq<Command>)
    ensures |cs| == |os| && forall i :: 0 <= i < |os| ==> cs[i] == AsCommand(os[i])
  {
    if os == [] then [] else [AsCommand(os[0])] + Commands(os[1..])
  }

  /** For each command, memory that happens to follow it. */
  predicate Memories(os: seq<Outgoing>, memories: seq<seq<Byte>>) {
    |memories| == |os| && forall i :: 0 <= i < |os| ==> |memories[i]| >= MIN_SIZE
  }

  function Padding(o: Outgoing, memory: seq<Byte>): seq<Byte>
    requires |memory| >= MIN_SIZE
  {
    memory[..PadSize(Size(AsCommand(o)))]
  }

  function Paddings(os: seq<Outgoing>, memories: seq<seq<Byte>>): (ps: seq<seq<Byte>>)
    requires Memories(os, memories)
    ensures |ps| == |os| && forall i :: 0 <= i < |os| ==> ps[i] == Padding(os[i], memories[i])
  {
    if os == [] then [] else [Padding(os[0], memories[0])] + Paddings(os[1..], memories[1..])
  }

  function Bytes(os: seq<Outgoing>, memories: seq<seq<Byte>>): seq<Byte>
    requires Memories(os, memories)
  {
    WireAll(Commands(os), Paddings(os, memories))
  }

  lemma BytesFirst(os: seq<Outgoing>, memories: seq<seq<Byte>>, before: seq<Byte>)
    requires Memories(os, memories) && os != []
    ensures Memories(os[1..], memories[1..]) && |memories[0]| >= MIN_SIZE
    ensures var first := Wire(AsCommand(os[0]), Padding(os[0], memories[0]));
      && before + Bytes(os, memories) == before + first + Bytes(os[1..], memories[1..])
      && |Bytes(os, memories)| == |first| + |Bytes(os[1..], memories[1..])|
  {
    assert Commands(os)[1..] == Commands(os[1..]) && Paddings(os, memories)[1..] == Paddings(os[1..], memories[1..]);
  }

  /** Sends a list of commands; with a transport that moves something at a time, all of them get on the wire. */
  method SendAll(c: Connection, os: seq<Outgoing>, memories: seq<seq<Byte>>) returns (ok: bool)
    requires Memories(os, memories) && forall i :: 0 <= i < |os| ==> Size(AsCommand(os[i])) < WORD
    modifies c
    ensures c.pending == old(c.pending)
    ensures ok ==> c.wire == old(c.wire) + Bytes(os, memories) && c.connected == old(c.connected)
    ensures Moving(old(c.outcomes)) && |Bytes(os, memories)| <= |old(c.outcomes)| ==> ok
  {
    hide Wire, Bytes, Moving, Framed;
    ghost var was, goal := c.wire, Bytes(os, memories);
    ghost var smooth := Moving(c.outcomes) && |goal| <= |c.outcomes|;
    assert os[0..] == os && memories[0..] == memories;
    for i := 0 to |os|
      invariant c.pending == old(c.pending) && c.connected == old(c.connected)
      invariant Memories(os[i..], memories[i..]) && c.wire + Bytes(os[i..], memories[i..]) == was + goal
      invariant smooth ==> Moving(c.outcomes) && |c.outcomes| >= |Bytes(os[i..], memories[i..])|
    {
      BytesFirst(os[i..], memories[i..], c.wire);
      assert os[i..][1..] == os[i + 1..] && memories[i..][1..] == memories[i + 1..];
      assert memories[i..][0] == memories[i];
      ok := SendCommand(c, os[i], memories[i]);
      if !ok {
        return;
      }
    }
    NoBytes();
    return true;
  }

  lemma NoBytes()
    ensures Bytes([], []) == []
  {
  }

  /** Receives commands until the wire is empty or the connection fails. */
  method ReceiveAll(c: Connection) returns (contents: seq<seq<Byte>>, ok: bool)
    requires c.pending == Some(Pending([], MIN_SIZE))
    modifies c
    ensures ok ==> ParseAll(old(c.wire)) == Some(contents)
    ensures old(c.connected) && ParseAll(old(c.wire)).Some? && Moving(old(c.outcomes)) && |old(c.wire)| <= |old(c.outcomes)| ==> ok
  {
    hide Parse, Moving;
    contents := [];
    ghost var smooth := c.connected && ParseAll(c.wire).Some? && Moving(c.outcomes) && |c.wire| <= |c.outcomes|;
    while c.wire != []
      invariant c.pending == Some(Pending([], MIN_SIZE)) && c.connected == old(c.connected)
      invariant ParseAll(old(c.wire)).Some? <==> ParseAll(c.wire).Some?
      invariant ParseAll(c.wire).Some? ==> ParseAll(old(c.wire)).value == contents + ParseAll(c.wire).value
      invariant smooth ==> Moving(c.outcomes) && |c.wire| <= |c.outcomes|
      decreases |c.wire|
    {
      ParseShrinks(c.wire);
      ghost var before := c.wire;
      var command := HandleData(c);
      if command.None? {
        return contents, false;
      }
      contents := contents + [command.value];
      assert ParseAll(c.wire).Some? ==> ParseAll(before) == Some([command.value] + ParseAll(c.wire).value);
    }
    assert c.wire == [] && ParseAll([]) == Some([]) && contents + [] == contents;
    return contents, true;
  }

  lemma ParseShrinks(data: seq<Byte>)
    ensures Parse(data).Some? ==> |Parse(data).value.1| < |data|
  {
  }

  /**
   Framing is self-synchronising: whatever the commands, the padding bytes and the way the transport splits writes
   and reads, the receiver gets exactly the commands that were sent.
   */
  method Exchange(os: seq<Outgoing>, memories: seq<seq<Byte>>, sends: seq<int>, receives: seq<int>)
    returns (contents: seq<seq<Byte>>, ok: bool)
    requires Memories(os, memories) && forall i :: 0 <= i < |os| ==> Size(AsCommand(os[i])) < WORD
    ensures ok ==> contents == Contents(Commands(os))
    ensures Moving(sends) && Moving(receives) && |Bytes(os, memories)| <= |sends| && |Bytes(os, memories)| <= |receives| ==> ok
  {
    hide Moving, Contents, ParseAll;
    BytesParse(os, memories);
    var c := new Connection();
    c.RecvNB([], MIN_SIZE);
    c.outcomes := sends;
    ok := SendAll(c, os, memories);
    contents := [];
    if ok {
      assert c.wire == Bytes(os, memories);
      c.outcomes := receives;
      contents, ok := ReceiveAll(c);
    }
  }

  lemma BytesParse(os: seq<Outgoing>, memories: seq<seq<Byte>>)
    requires Memories(os, memories) && forall i :: 0 <= i < |os| ==> Size(AsCommand(os[i])) < WORD
    ensures ParseAll(Bytes(os, memories)) == Some(Contents(Commands(os)))
    ensures [] + Bytes(os, memories) == Bytes(os, memories)
  {
    ParseAllWires(Commands(os), Paddings(os, memories));
  }
}
