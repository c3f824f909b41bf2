/**
 The output stream that buffers, saves, compresses and resends object data (co/dataOStream.cpp,
 co/objectDataOStream.cpp) and the input stream that reads it back (co/dataIStream.cpp, co/objectDataIStream.cpp).
 */
module ObjectStreams {
  import opened Common
  import opened DataStreams

  datatype CompressorState = Uncompressed | Partial | Complete | Uncompressible

  class DataOStream {
    const codec: Codec
    /** A write that finds more than this buffered flushes first. */
    const bufferSize: nat

    var state: CompressorState
    var buffer: seq<Byte>
    var bufferStart: nat
    var dataSize: nat
    /** The chunks of the last compression. */
    var result: seq<seq<Byte>>
    var enabled: bool
    var dataSent: bool
    var save: bool
    var connected: bool
    var sequence: nat
    /** Commands sent since the stream was enabled. */
    var sent: seq<Segment>

    /** The writes since the stream was enabled, grouped by the flush that sent them, and those not yet flushed. */
    ghost var closed: seq<seq<Write>>
    ghost var pending: seq<Write>

    ghost function Written(): seq<Write>
      reads this
    {
      Concat(closed) + pending
    }

    /** What is buffered: the writes not yet flushed, and in save mode also the earlier ones. */
    ghost predicate Buffered()
      reads this
    {
      state == Uncompressed && Keeps(buffer, bufferStart, save, closed, pending)
    }

    /** What is on the wire: one unfinished, numbered segment per group. */
    ghost predicate Sent()
      reads this
    {
      if connected then
        sequence == |closed| && OnWire(codec, sent, closed) && Unfinished(sent)
      else
        sent == [] && sequence == 0
    }

    ghost predicate Grouped()
      reads this
    {
      && Greedy(closed, bufferSize) && (closed != [] ==> pending != [])
      && (pending != [] ==> |Flat(pending[..|pending| - 1])| <= bufferSize)
    }

    ghost predicate Writing()
      reads this
    {
      enabled && (save || connected) && Lossless(codec) && Buffered() && Sent() && Grouped()
    }

    /** After a session in save mode all data can be had again, from the compressor or from the buffer. */
    ghost predicate Saved(data: seq<Byte>)
      reads this
    {
      && !enabled && save && sequence == 0 && Lossless(codec) && dataSize == |data|
      && if state == Complete then codec.decompress(result, dataSize) == data else buffer == data
    }

    constructor (codec: Codec, bufferSize: nat)
      ensures !enabled && sequence == 0 && sent == [] && this.codec == codec && this.bufferSize == bufferSize
    {
      this.codec, this.bufferSize := codec, bufferSize;
      state, buffer, bufferStart, dataSize, result := Uncompressed, [], 0, 0, [];
      enabled, dataSent, save, connected, sequence, sent := false, false, false, false, 0, [];
      closed, pending := [], [];
    }

    /** enableSave or disableSave, the connections of enableCommit, and _enable. */
    method Enable(save: bool, connected: bool)
      requires !enabled && sequence == 0 && (save || connected) && Lossless(codec)
      modifies this
      ensures Writing() && Written() == [] && this.save == save && this.connected == connected
    {
      hide *;
      this.save, this.connected, state, bufferStart, dataSent, dataSize, enabled, buffer, sent, closed, pending :=
        save, connected, Uncompressed, 0, false, 0, true, [], [], [], [];
      NothingYet(codec, save, bufferSize);
      WrittenIs();
      NowWriting();
    }

    /** compress: a complete result replaces the buffer. */
    method Compress(data: seq<Byte>, wanted: CompressorState)
      requires wanted == Partial || wanted == Complete
      modifies this`state, this`result, this`buffer
      ensures state ==
        if old(state) in {wanted, Uncompressible} then old(state)
        else if !codec.good || |data| <= codec.minSize then Uncompressed
        else if TotalSize(codec.compress(data)) >= |data| then Uncompressible
        else wanted
      ensures state == wanted ==> result == if old(state) == wanted then old(result) else codec.compress(data)
      ensures state == wanted != old(state) ==> TotalSize(result) < |data|
      ensures buffer == if state == Complete == wanted && old(state) != Complete then [] else old(buffer)
    {
      if state == wanted || state == Uncompressible {
        return;
      }
      if !codec.good || |data| <= codec.minSize {
        state := Uncompressed;
        return;
      }
      result := codec.compress(data);
      if TotalSize(result) >= |data| {
        state := Uncompressible;
        result := [];
        return;
      }
      state := wanted;
      if wanted == Complete {
        buffer := [];
      }
    }

    /** Compresses data that was not compressed yet. */
    method CompressAnew(data: seq<Byte>, wanted: CompressorState)
      requires wanted == Partial || wanted == Complete
      modifies this`state, this`result, this`buffer
      ensures if PaysOff(codec, data) then state == wanted && result == codec.compress(data)
              else state in {Uncompressed, Uncompressible}
      ensures buffer == if state == Complete then [] else old(buffer)
    {
      state := Uncompressed;
      Compress(data, wanted);
    }

    /** ObjectDataOStream::send with sendBody: the compressor result, or the data itself if there is none. */
    method Send(data: seq<Byte>, size: nat, last: bool) returns (s: Segment)
      modifies this`sequence
      ensures s.sequence == old(sequence) && s.last == last && s.size == size
      ensures s.payload == if state in {Uncompressed, Uncompressible} then Raw(data) else Chunks(result)
      ensures sequence == if last then 0 else old(sequence) + 1
    {
      s := Segment(sequence, last, size,
        if state == Uncompressed || state == Uncompressible then Raw(data) else Chunks(result));
      sequence := sequence + 1;
      if last {
        sequence := 0;
      }
    }

    method Flush()
      requires enabled && Lossless(codec) && state == Uncompressed && Keeps(buffer, bufferStart, save, closed, pending)
      requires connected ==> sequence == |closed| && OnWire(codec, sent, closed) && Unfinished(sent)
      requires !connected ==> sent == [] && sequence == 0
      modifies this
      ensures enabled && state == Uncompressed && Keeps(buffer, bufferStart, save, closed, pending)
      ensures connected ==> sequence == |closed| && OnWire(codec, sent, closed) && Unfinished(sent)
      ensures !connected ==> sent == [] && sequence == 0
      ensures save == old(save) && connected == old(connected)
      ensures closed == old(closed) + [old(pending)] && pending == []
    {
      hide *;
      KeepsPending(buffer, bufferStart, save, closed, pending);
      KeepsFlushed(buffer, bufferStart, save, closed, pending);
      if connected {
        SendPending();
      }
      dataSent, closed, pending := true, closed + [pending], [];
      ResetBuffer();
    }

    /** A segment, not the last one, with what was buffered since the last flush. */
    method SendPending()
      requires Lossless(codec) && bufferStart <= |buffer| && buffer[bufferStart..] == Flat(pending)
      requires sequence == |closed| && OnWire(codec, sent, closed) && Unfinished(sent)
      modifies this`state, this`result, this`buffer, this`sequence, this`sent
      ensures sequence == |closed| + 1 && OnWire(codec, sent, closed + [pending]) && Unfinished(sent)
      ensures buffer == old(buffer)
    {
      hide *;
      var data := buffer[bufferStart..];
      CompressAnew(data, Partial);
      var s := Send(data, |data|, false);
      PayloadCarries(codec, s, data);
      OnWireNext(codec, sent, closed, s, pending);
      sent := sent + [s];
    }

    /** _resetBuffer. */
    method ResetBuffer()
      modifies this`state, this`bufferStart, this`buffer
      ensures state == Uncompressed && bufferStart == |buffer| && buffer == if save then old(buffer) else []
    {
      state := Uncompressed;
      if save {
        bufferStart := |buffer|;
      } else {
        bufferStart := 0;
        buffer := [];
      }
    }

    /** _write. */
    method Write(data: Write)
      requires Writing()
      modifies this
      ensures Writing() && save == old(save) && connected == old(connected)
      ensures Written() == old(Written()) + [data]
      ensures old(|Flat(pending)|) <= bufferSize ==> closed == old(closed) && pending == old(pending) + [data]
      ensures old(|Flat(pending)|) > bufferSize ==> closed == old(closed) + [old(pending)] && pending == [data]
    {
      hide *;
      WritingParts();
      WrittenIs();
      KeepsPending(buffer, bufferStart, save, closed, pending);
      ghost var groups, tail := closed, pending;
      if |buffer| - bufferStart > bufferSize {
        Flush();
        GroupsFlushed(groups, tail, bufferSize);
        KeepsPending(buffer, bufferStart, save, closed, pending);
      }
      KeepsWrite(buffer, bufferStart, save, closed, pending, data);
      buffer := buffer + data;
      pending := pending + [data];
      assert pending[..|pending| - 1] == pending[..|pending| - 1];
      assert Written() == old(Written()) + [data] by {
        WrittenIs();
      }
      NowWriting();
    }

    /** disable: sends the rest as the last segment, if there is any data. */
    method Disable()
      requires enabled ==> Writing()
      modifies this
      ensures !enabled && (!old(enabled) ==> sent == old(sent) && sequence == old(sequence))
      ensures old(enabled) ==> FinishedSession(old(connected)) && closed == old(closed) && pending == old(pending)
      ensures save == old(save)
      ensures old(enabled) && old(save) ==> Saved(Flat(Written()))
    {
      if !enabled {
        return;
      }
      Finish();
    }

    /**
     A finished session: one segment per group and a last one for the rest. The last marker is there, unless nothing
     was sent or, without saving, the writes after the last flush were all empty.
     */
    ghost predicate FinishedSession(wasConnected: bool)
      reads this
    {
      && dataSent == (Flat(if save then Written() else pending) != [])
      && (wasConnected ==> OnWire(codec, sent, if dataSent then closed + [pending] else closed))
      && (wasConnected ==> (Finished(sent) <==> save || closed == [] || Flat(pending) != []))
      && (!wasConnected ==> sent == [])
      && (Finished(sent) ==> sequence == 0)
    }

    method Finish()
      requires Writing()
      modifies this
      ensures !enabled && FinishedSession(old(connected)) && closed == old(closed) && pending == old(pending)
      ensures save == old(save)
      ensures old(save) ==> Saved(Flat(Written()))
    {
      hide *;
      FinishParts();
      ghost var all, wasConnected := Flat(Concat(closed) + pending), connected;
      dataSize, dataSent := |buffer|, |buffer| > 0;
      if dataSent && connected {
        SendRest();
        buffer, enabled, connected := if save then buffer else [], false, false;
        NowFinished(wasConnected);
      } else {
        buffer, enabled, connected := if save then buffer else [], false, false;
        NowFinished(wasConnected);
      }
      WrittenIs();
      if save {
        NowSaved(all);
      }
    }

    lemma FinishParts()
      requires Writing()
      ensures state == Uncompressed && Lossless(codec) && Keeps(buffer, bufferStart, save, closed, pending)
      ensures connected ==> sequence == |closed| && OnWire(codec, sent, closed) && Unfinished(sent)
      ensures connected ==> (Finished(sent) <==> closed == [])
      ensures !connected ==> sent == [] && sequence == 0
      ensures buffer == Flat(if save then Concat(closed) + pending else pending)
      ensures save && closed != [] ==> buffer != []
    {
      hide *;
      WritingParts();
      KeepsPending(buffer, bufferStart, save, closed, pending);
      SavesAny(closed, pending, bufferSize);
      FinishedIff(codec, sent, closed);
    }

    lemma NowFinished(wasConnected: bool)
      requires dataSent == (Flat(if save then Concat(closed) + pending else pending) != [])
      requires wasConnected ==> OnWire(codec, sent, if dataSent then closed + [pending] else closed)
      requires wasConnected && dataSent ==> Finished(sent) && sequence == 0
      requires wasConnected && !dataSent ==> (Finished(sent) <==> closed == []) && sequence == |closed|
      requires !wasConnected ==> sent == [] && sequence == 0
      requires save && !dataSent ==> closed == []
      ensures FinishedSession(wasConnected)
    {
      hide OnWire, Flat, Concat;
    }

    lemma FinishedParts(wasConnected: bool)
      requires FinishedSession(wasConnected)
      ensures wasConnected ==> OnWire(codec, sent, if dataSent then closed + [pending] else closed)
      ensures wasConnected ==> (Finished(sent) <==> save || closed == [] || Flat(pending) != [])
      ensures dataSent || Flat(pending) == []
      ensures Flat(pending) != [] ==> dataSent
      ensures dataSent <==> Flat(if save then Written() else pending) != []
    {
      FlatAppend(Concat(closed), pending);
    }

    lemma WritingParts()
      requires Writing()
      ensures state == Uncompressed && Lossless(codec) && Keeps(buffer, bufferStart, save, closed, pending)
      ensures Greedy(closed, bufferSize) && (closed != [] ==> pending != [])
      ensures pending != [] ==> |Flat(pending[..|pending| - 1])| <= bufferSize
      ensures enabled && (save || connected)
      ensures connected ==> sequence == |closed| && OnWire(codec, sent, closed) && Unfinished(sent)
      ensures !connected ==> sent == [] && sequence == 0
    {
    }

    lemma NowWriting()
      requires enabled && (save || connected)
      requires state == Uncompressed && Lossless(codec) && Keeps(buffer, bufferStart, save, closed, pending)
      requires Greedy(closed, bufferSize) && (closed != [] ==> pending != [])
      requires pending != [] ==> |Flat(pending[..|pending| - 1])| <= bufferSize
      requires connected ==> sequence == |closed| && OnWire(codec, sent, closed) && Unfinished(sent)
      requires !connected ==> sent == [] && sequence == 0
      ensures Writing()
    {
    }

    lemma WrittenIs()
      ensures Written() == Concat(closed) + pending
    {
    }

    lemma NowSaved(data: seq<Byte>)
      requires !enabled && save && sequence == 0 && Lossless(codec) && dataSize == |data|
      requires state == Complete ==> codec.decompress(result, dataSize) == data
      requires state != Complete ==> buffer == data
      ensures Saved(data)
    {
    }

    /**
     The last segment of a session; a session in one segment leaves a complete copy that replaces the buffer.
     The state is uncompressed here, so the shortcut for a partial state never applies.
     */
    method SendRest()
      requires state == Uncompressed && Lossless(codec) && Keeps(buffer, bufferStart, save, closed, pending)
      requires sequence == |closed| && OnWire(codec, sent, closed) && Unfinished(sent)
      modifies this`state, this`result, this`buffer, this`sequence, this`sent
      ensures OnWire(codec, sent, closed + [pending]) && sequence == 0 && sent != [] && Finished(sent)
      ensures state == Complete <==> bufferStart == 0 && PaysOff(codec, old(buffer))
      ensures state == Complete ==> codec.decompress(result, |old(buffer)|) == old(buffer)
      ensures state != Complete ==> buffer == old(buffer)
    {
      hide *;
      KeepsPending(buffer, bufferStart, save, closed, pending);
      var data := buffer[bufferStart..];
      assert bufferStart == 0 ==> data == buffer;
      RoundTrip(codec, data);
      CompressAnew(data, if bufferStart == 0 then Complete else Partial);
      var s := Send(data, |data|, true);
      PayloadCarries(codec, s, data);
      OnWireNext(codec, sent, closed, s, pending);
      LastFinishes(sent, s);
      sent := sent + [s];
    }

    /** _resend: the saved data as one segment. */
    method Resend(ghost data: seq<Byte>) returns (s: Segment)
      requires Saved(data)
      modifies this`state, this`result, this`buffer, this`sequence
      ensures Saved(data) && Carries(codec, s, data) && s.sequence == 0 && s.last
      ensures s.payload.Chunks? <==> old(state) == Complete || (old(state) != Uncompressible && PaysOff(codec, data))
    {
      RoundTrip(codec, data);
      Compress(buffer, Complete);
      s := Send(buffer, dataSize, true);
    }
  }

  lemma NothingYet(codec: Codec, save: bool, limit: nat)
    ensures Keeps([], 0, save, [], []) && OnWire(codec, [], []) && Unfinished([]) && Greedy([], limit)
    ensures Concat([]) == []
  {
  }

  class ObjectDataIStream {
    const codec: Codec
    var commands: seq<Segment>
    var ready: bool
    var input: seq<Byte>
    var position: nat

    ghost predicate Valid()
      reads this
    {
      Sized(codec, commands) && position <= |input|
    }

    /** What is still to be read, segment by segment. */
    ghost function Remaining(): seq<seq<Byte>>
      reads this
      requires Valid()
    {
      [input[position..]] + Datas(codec, commands)
    }

    constructor (codec: Codec)
      ensures Valid() && this.codec == codec && commands == [] && !ready && Remaining() == [[]]
    {
      this.codec := codec;
      commands, ready, input, position := [], false, [], 0;
    }

    /** addDataCommand, with the order it asserts. */
    method AddDataCommand(s: Segment)
      requires Valid() && !ready && |Decode(codec, s)| == s.size
      requires s.sequence == if commands == [] then 0 else commands[|commands| - 1].sequence + 1
      modifies this`commands, this`ready
      ensures Valid() && commands == old(commands) + [s] && ready == s.last
      ensures Remaining() == old(Remaining()) + [Decode(codec, s)]
    {
      DatasAppend(codec, commands, s);
      commands := commands + [s];
      if s.last {
        ready := true;
      }
    }

    /** getNextBuffer: the next command that has data. */
    method GetNextBuffer() returns (s: Option<Segment>)
      requires Valid()
      modifies this`commands
      ensures Valid() && input == old(input) && position == old(position)
      ensures Advance(Datas(codec, old(commands))) == match s
        case None => []
        case Some(c) => [Decode(codec, c)] + Datas(codec, commands)
      ensures if s.None? then commands == [] else Decode(codec, s.value) != []
      decreases |commands|
    {
      hide Decode;
      if commands == [] {
        return None;
      }
      var c := commands[0];
      assert |Decode(codec, c)| == c.size;
      commands := commands[1..];
      if c.size == 0 {
        s := GetNextBuffer();
      } else {
        s := Some(c);
      }
    }

    /** _checkBuffer: makes sure that the input buffer has unread data, if there is any. */
    method CheckBuffer() returns (ok: bool)
      requires Valid()
      modifies this
      ensures Valid() && ok == (Advance(old(Remaining())) != [])
      ensures Remaining() == if ok then Advance(old(Remaining())) else [[]]
    {
      hide Decode, Sized;
      while position >= |input|
        invariant Valid() && Advance(Remaining()) == Advance(old(Remaining()))
        decreases if position >= |input| then 1 else 0
      {
        assert Remaining()[1..] == Datas(codec, commands);
        position, input := 0, [];
        var s := GetNextBuffer();
        if s.None? {
          return false;
        }
        input := Decode(codec, s.value);
        assert input[0..] == input;
      }
      return true;
    }

    /** _read: all requested bytes are in the current buffer, or the read fails. */
    method Read(size: nat) returns (data: Option<seq<Byte>>)
      requires Valid()
      modifies this
      ensures Valid()
      ensures match DataStreams.Read(old(Remaining()), size)
        case None => data == None
        case Some(r) => data == Some(r.0) && Remaining() == r.1
      ensures data.None? <==> NextPart(old(Remaining())).None? || |NextPart(old(Remaining())).value| < size
      ensures data.Some? ==> |data.value| == size && Join([data.value] + Remaining()) == Join(old(Remaining()))
    {
      ReadTakes(Remaining(), size);
      hide Decode, Datas, Sized;
      var ok := CheckBuffer();
      if !ok || size > |input| - position {
        return None;
      }
      data := Some(input[position..position + size]);
      assert input[position..][..size] == input[position..position + size];
      assert input[position..][size..] == input[position + size..];
      assert Remaining()[1..] == Datas(codec, commands);
      position := position + size;
    }
  }

  lemma GroupsFlushed(closed: seq<seq<Write>>, pending: seq<Write>, limit: nat)
    requires Greedy(closed, limit) && |Flat(pending)| > limit
    requires pending != [] ==> |Flat(pending[..|pending| - 1])| <= limit
    ensures Greedy(closed + [pending], limit)
    ensures Concat(closed + [pending]) == Concat(closed) + pending
    ensures Flat([]) == []
  {
    ConcatAppend(closed, pending);
  }

  lemma RoundTrip(codec: Codec, data: seq<Byte>)
    requires Lossless(codec)
    ensures codec.decompress(codec.compress(data), |data|) == data
  {
  }

  lemma FinishedIff(codec: Codec, sent: seq<Segment>, groups: seq<seq<Write>>)
    ensures sent == [] ==> Finished(sent)
    ensures Unfinished(sent) ==> (Finished(sent) <==> sent == [])
    ensures OnWire(codec, sent, groups) ==> |sent| == |groups|
  {
  }

  lemma LastFinishes(sent: seq<Segment>, s: Segment)
    ensures s.last ==> Finished(sent + [s])
  {
  }

  /** Every closed group holds data. */
  lemma SavesAny(closed: seq<seq<Write>>, pending: seq<Write>, limit: nat)
    requires Greedy(closed, limit)
    ensures closed != [] ==> Flat(Concat(closed) + pending) != []
  {
    if closed != [] {
      assert Concat(closed) + pending == closed[0] + (Concat(closed[1..]) + pending);
      FlatAppend(closed[0], Concat(closed[1..]) + pending);
    }
  }

  /** The buffer ends with the writes not yet flushed, and in save mode starts with all earlier ones. */
  ghost predicate Keeps(buffer: seq<Byte>, start: nat, save: bool, closed: seq<seq<Write>>, pending: seq<Write>) {
    && start <= |buffer| && buffer[start..] == Flat(pending)
    && if save then buffer[..start] == Flat(Concat(closed)) else start == 0
  }

  /** A body is the compressed data exactly if compressing it pays off. */
  ghost predicate Thrifty(codec: Codec, s: Segment) {
    var data := Decode(codec, s);
    s.payload == if PaysOff(codec, data) then Chunks(codec.compress(data)) else Raw(data)
  }

  /** The segments carry the groups, in order and numbered. */
  ghost predicate OnWire(codec: Codec, sent: seq<Segment>, groups: seq<seq<Write>>) {
    && |sent| == |groups| && Datas(codec, sent) == Flats(groups) && Sized(codec, sent) && Numbered(sent)
    && forall i :: 0 <= i < |sent| ==> Thrifty(codec, sent[i])
  }

  lemma KeepsPending(buffer: seq<Byte>, start: nat, save: bool, closed: seq<seq<Write>>, pending: seq<Write>)
    requires Keeps(buffer, start, save, closed, pending)
    ensures start <= |buffer| && buffer[start..] == Flat(pending)
    ensures save ==> buffer == Flat(Concat(closed) + pending)
    ensures !save ==> buffer == Flat(pending)
  {
    FlatAppend(Concat(closed), pending);
    assert buffer == buffer[..start] + buffer[start..];
  }

  lemma KeepsFlushed(buffer: seq<Byte>, start: nat, save: bool, closed: seq<seq<Write>>, pending: seq<Write>)
    requires Keeps(buffer, start, save, closed, pending)
    ensures save ==> Keeps(buffer, |buffer|, save, closed + [pending], [])
    ensures !save ==> Keeps([], 0, save, closed + [pending], [])
  {
    KeepsPending(buffer, start, save, closed, pending);
    ConcatAppend(closed, pending);
    assert buffer[..|buffer|] == buffer;
  }

  lemma KeepsWrite(buffer: seq<Byte>, start: nat, save: bool, closed: seq<seq<Write>>, pending: seq<Write>, data: Write)
    requires Keeps(buffer, start, save, closed, pending)
    ensures Keeps(buffer + data, start, save, closed, pending + [data])
  {
    FlatAppend(pending, [data]);
    assert Flat([data]) == data;
    assert (buffer + data)[start..] == buffer[start..] + data;
    assert (buffer + data)[..start] == buffer[..start];
  }

  lemma PayloadCarries(codec: Codec, s: Segment, data: seq<Byte>)
    requires Lossless(codec) && s.size == |data|
    requires s.payload == if PaysOff(codec, data) then Chunks(codec.compress(data)) else Raw(data)
    ensures Carries(codec, s, data) && Thrifty(codec, s)
  {
  }

  lemma OnWireNext(codec: Codec, sent: seq<Segment>, groups: seq<seq<Write>>, s: Segment, g: seq<Write>)
    requires OnWire(codec, sent, groups) && Unfinished(sent) && Carries(codec, s, Flat(g)) && s.sequence == |groups|
    requires Thrifty(codec, s)
    ensures OnWire(codec, sent + [s], groups + [g]) && (!s.last ==> Unfinished(sent + [s]))
  {
    hide Thrifty;
    FlatsAppend(groups, g);
    DatasAppend(codec, sent, s);
  }

  lemma FlatsAppend(groups: seq<seq<Write>>, g: seq<Write>)
    ensures Flats(groups + [g]) == Flats(groups) + [Flat(g)]
  {
  }

  lemma DatasAppend(codec: Codec, segments: seq<Segment>, s: Segment)
    ensures Datas(codec, segments + [s]) == Datas(codec, segments) + [Decode(codec, s)]
  {
  }

  // ---- from one end to the other ----

  /** A session of writes. */
  method WriteAll(o: DataOStream, save: bool, connected: bool, writes: seq<Write>)
    requires !o.enabled && o.sequence == 0 && Lossless(o.codec) && (save || connected)
    modifies o
    ensures !o.enabled && o.FinishedSession(connected) && o.Written() == writes && o.save == save
    ensures (o.closed != [] ==> o.pending != []) && Greedy(o.closed, o.bufferSize)
    ensures o.pending == Unflushed(writes, o.bufferSize)
    ensures save ==> o.Saved(Flat(writes))
  {
    hide *;
    o.Enable(save, connected);
    NothingUnflushed(o.bufferSize);
    o.WrittenIs();
    for i := 0 to |writes|
      invariant o.Writing() && o.Written() == writes[..i] && o.save == save && o.connected == connected
      invariant o.pending == Unflushed(writes[..i], o.bufferSize)
    {
      assert writes[..i + 1] == writes[..i] + [writes[i]];
      UnflushedNext(writes[..i], writes[i], o.bufferSize);
      o.Write(writes[i]);
    }
    assert writes[..|writes|] == writes;
    o.WritingParts();
    o.WrittenIs();
    o.Disable();
    o.WrittenIs();
  }

  lemma NothingUnflushed(limit: nat)
    ensures Unflushed([], limit) == []
    ensures forall a: seq<Write>, b: seq<Write> :: a + b == [] ==> b == []
  {
  }

  /** Hands all commands of a stream to the receiver. */
  method Deliver(sent: seq<Segment>, i: ObjectDataIStream)
    requires i.Valid() && !i.ready && i.commands == [] && Sized(i.codec, sent) && Numbered(sent)
    modifies i
    ensures i.Valid() && i.Remaining() == old(i.Remaining()) + Datas(i.codec, sent)
    ensures i.ready == (sent != [] && Finished(sent))
  {
    ghost var before := i.Remaining();
    for n := 0 to |sent|
      invariant i.Valid() && i.commands == sent[..n] && i.Remaining() == before + Datas(i.codec, sent[..n])
      invariant i.ready == (n > 0 && sent[n - 1].last)
    {
      assert sent[..n + 1] == sent[..n] + [sent[n]];
      DatasAppend(i.codec, sent[..n], sent[n]);
      i.AddDataCommand(sent[n]);
    }
    assert sent[..|sent|] == sent;
  }

  /** Reads with the sizes of the writes. */
  method ReadAll(i: ObjectDataIStream, writes: seq<Write>) returns (same: bool)
    requires i.Valid()
    modifies i
    ensures same == ReadsBack(old(i.Remaining()), writes)
  {
    ghost var before := i.Remaining();
    for n := 0 to |writes|
      invariant i.Valid() && ReadsBack(i.Remaining(), writes[n..]) == ReadsBack(before, writes)
    {
      assert writes[n..][1..] == writes[n + 1..];
      var data := i.Read(|writes[n]|);
      if data != Some(writes[n]) {
        return false;
      }
    }
    return true;
  }

  /** Whatever was sent, the reader gets the writes back exactly if the last one is not empty. */
  lemma SessionReadsBack(codec: Codec, sent: seq<Segment>, closed: seq<seq<Write>>, pending: seq<Write>, all: bool)
    requires OnWire(codec, sent, if all then closed + [pending] else closed)
    requires all || Flat(pending) == []
    ensures var writes := Concat(closed) + pending;
      ReadsBack([[]] + Datas(codec, sent), writes) <==> (writes == [] || writes[|writes| - 1] != [])
  {
    hide *;
    var writes, groups := Concat(closed) + pending, [[]] + (closed + [pending]);
    SessionGroups(closed, pending);
    ReadsBackIff(groups, writes);
    OnWireDatas(codec, sent, if all then closed + [pending] else closed);
    if !all {
      ReadsBackTrailing([[]] + Flats(closed), writes);
      Between(Flats(closed));
    }
  }

  lemma Between(datas: seq<seq<Byte>>)
    ensures ([[]] + datas) + [[]] == [[]] + (datas + [[]])
  {
  }

  lemma OnWireDatas(codec: Codec, sent: seq<Segment>, groups: seq<seq<Write>>)
    requires OnWire(codec, sent, groups)
    ensures Datas(codec, sent) == Flats(groups)
  {
  }

  lemma SessionGroups(closed: seq<seq<Write>>, pending: seq<Write>)
    ensures var groups := [[]] + (closed + [pending]);
      && Concat(groups) == Concat(closed) + pending
      && Flats(closed + [pending]) == Flats(closed) + [Flat(pending)]
      && Flats(groups) == [[]] + (Flats(closed) + [Flat(pending)])
  {
    var groups := [[]] + (closed + [pending]);
    ConcatAppend(closed, pending);
    assert groups[1..] == closed + [pending];
    assert Concat(groups) == [] + Concat(closed + [pending]);
    FlatsAppend(closed, pending);
  }

  lemma NoEmptyLeft(closed: seq<seq<Write>>, pending: seq<Write>)
    requires var writes := Concat(closed) + pending;
      NoEmptyWrite(writes) && writes != [] && (closed != [] ==> pending != [])
    ensures Flat(pending) != []
  {
    assert (Concat(closed) + pending)[|Concat(closed)|] == pending[0];
  }

  /**
   Writes on one end, reads of the same sizes on the other: the same data for every buffer limit, compressor and
   mode, exactly if the last write is not empty; and the stream is complete exactly if there is data, without saving
   data since the last flush.
   */
  method Transfer(codec: Codec, bufferSize: nat, save: bool, writes: seq<Write>)
    returns (same: bool, ready: bool)
    requires Lossless(codec)
    ensures same <==> (writes == [] || writes[|writes| - 1] != [])
    ensures ready <==> Flat(if save then writes else Unflushed(writes, bufferSize)) != []
    ensures NoEmptyWrite(writes) && writes != [] ==> ready
  {
    hide *;
    var o := new DataOStream(codec, bufferSize);
    WriteAll(o, save, true, writes);
    o.FinishedParts(true);
    o.WrittenIs();
    SavesAny(o.closed, o.pending, o.bufferSize);
    OnWireParts(codec, o.sent, if o.dataSent then o.closed + [o.pending] else o.closed);
    SessionReadsBack(codec, o.sent, o.closed, o.pending, o.dataSent);
    if NoEmptyWrite(writes) && writes != [] {
      NoEmptyLeft(o.closed, o.pending);
    }
    var i := new ObjectDataIStream(codec);
    Deliver(o.sent, i);
    ready := i.ready;
    same := ReadAll(i, writes);
  }

  lemma OnWireParts(codec: Codec, sent: seq<Segment>, groups: seq<seq<Write>>)
    requires OnWire(codec, sent, groups)
    ensures Sized(codec, sent) && Numbered(sent) && |sent| == |groups|
    ensures forall i :: 0 <= i < |sent| ==> Thrifty(codec, sent[i])
  {
  }

  lemma OneSegmentReadsBack(codec: Codec, s: Segment, writes: seq<Write>)
    requires Carries(codec, s, Flat(writes))
    ensures ReadsBack([[]] + Datas(codec, [s]), writes) <==> (writes == [] || writes[|writes| - 1] != [])
    ensures Sized(codec, [s])
  {
    hide Flats, Concat, Datas, ReadsBack, Flat;
    var groups := [[]] + ([writes] + []);
    ConcatCons([], [writes] + []);
    ConcatCons(writes, []);
    FlatsCons([], [writes] + []);
    FlatsCons(writes, []);
    NoGroups();
    assert Concat(groups) == [] + (writes + []) == writes;
    assert Datas(codec, [s]) == [Flat(writes)];
    assert Flats(groups) == [[]] + [Flat(writes)];
    ReadsBackIff(groups, writes);
  }

  lemma NoGroups()
    ensures Concat([]) == [] && Flats([]) == [] && Flat([]) == []
  {
  }

  /**
   In save mode, with or without receivers at first, any number of resends later: a receiver of the last one reads the
   writes back with their sizes exactly if the last write is not empty.
   */
  method ResendReadsBack(codec: Codec, bufferSize: nat, connected: bool, writes: seq<Write>, times: nat)
    returns (same: bool, ready: bool)
    requires Lossless(codec)
    ensures same <==> (writes == [] || writes[|writes| - 1] != [])
    ensures ready
  {
    hide *;
    var o := new DataOStream(codec, bufferSize);
    WriteAll(o, true, connected, writes);
    var s := o.Resend(Flat(writes));
    for n := 0 to times
      invariant o.Saved(Flat(writes)) && Carries(codec, s, Flat(writes)) && s.sequence == 0 && s.last
    {
      s := o.Resend(Flat(writes));
    }
    OneSegmentReadsBack(codec, s, writes);
    LastOnly(s);
    var i := new ObjectDataIStream(codec);
    Deliver([s], i);
    ready := i.ready;
    same := ReadAll(i, writes);
  }

  lemma LastOnly(s: Segment)
    requires s.sequence == 0 && s.last
    ensures Numbered([s]) && Finished([s])
  {
  }
}
