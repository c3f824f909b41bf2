/** Object data from the writes of one end to the reads of the other, through framing and a splitting transport. */
module StreamTransfer {
  import opened Common
  import opened DataStreams
  import opened ObjectStreams
  import opened Framing
  import opened Transport

  /** Far below 2^64, as sizes of memory are. */
  const LARGE: nat := 0x4000_0000_0000_0000

  /** The number of chunks fits its field. */
  ghost predicate FewChunks(codec: Codec) {
    forall data :: |codec.compress(data)| < HALF_WORD
  }

  predicate Header(prefix: seq<Byte>, name: nat, more: seq<Byte>) {
    |prefix| == PREFIX && 0 < name < HALF_WORD && |more| < LARGE
  }

  function AsOutgoing(prefix: seq<Byte>, s: Segment, name: nat, more: seq<Byte>): Outgoing {
    Outgoing(DataFields(prefix, s, name, more), Some(s.payload))
  }

  function AsOutgoings(prefix: seq<Byte>, segments: seq<Segment>, name: nat, more: seq<Byte>): (os: seq<Outgoing>)
    ensures |os| == |segments| && forall i :: 0 <= i < |os| ==> os[i] == AsOutgoing(prefix, segments[i], name, more)
  {
    if segments == [] then []
    else [AsOutgoing(prefix, segments[0], name, more)] + AsOutgoings(prefix, segments[1..], name, more)
  }

  // ---- the segments of a session fit their fields ----

  lemma {:induction false} ChunksFit(chunks: seq<seq<Byte>>, i: nat)
    requires i < |chunks|
    ensures |chunks[i]| <= TotalSize(chunks)
  {
    if i > 0 {
      ChunksFit(chunks[1..], i - 1);
    }
  }

  lemma SegmentFits(codec: Codec, prefix: seq<Byte>, s: Segment, name: nat, more: seq<Byte>)
    requires FewChunks(codec) && Header(prefix, name, more) && Thrifty(codec, s)
    requires s.size == |Decode(codec, s)| < LARGE && s.sequence < HALF_WORD
    ensures Encodable(prefix, s, name, more)
  {
    hide Encode, ChunkBytes, TotalSize;
    AnnouncedIsSent(s.payload);
    if s.payload.Chunks? {
      forall i | 0 <= i < |s.payload.chunks| ensures |s.payload.chunks[i]| < Framing.WORD {
        ChunksFit(s.payload.chunks, i);
      }
    }
  }

  lemma {:induction false} GroupSize(groups: seq<seq<Write>>, i: nat)
    requires i < |groups|
    ensures |Flat(groups[i])| <= |Flat(Concat(groups))|
  {
    FlatAppend(groups[0], Concat(groups[1..]));
    if i > 0 {
      GroupSize(groups[1..], i - 1);
    }
  }

  lemma {:induction false} GroupCount(groups: seq<seq<Write>>)
    requires forall i :: 0 <= i < |groups| ==> groups[i] != []
    ensures |groups| <= |Concat(groups)|
  {
    if groups != [] {
      GroupCount(groups[1..]);
    }
  }

  lemma SessionFits(o: DataOStream, prefix: seq<Byte>, name: nat, more: seq<Byte>)
    requires o.FinishedSession(true) && Greedy(o.closed, o.bufferSize) && FewChunks(o.codec) && Header(prefix, name, more)
    requires |Flat(o.Written())| < LARGE && |o.Written()| < HALF_WORD - 1
    ensures forall i :: 0 <= i < |o.sent| ==> Encodable(prefix, o.sent[i], name, more)
  {
    var groups := if o.dataSent then o.closed + [o.pending] else o.closed;
    ConcatAppend(o.closed, o.pending);
    FlatAppend(Concat(o.closed), o.pending);
    GroupCount(o.closed);
    forall i | 0 <= i < |o.sent| ensures Encodable(prefix, o.sent[i], name, more) {
      GroupSize(groups, i);
      assert Datas(o.codec, o.sent)[i] == Flats(groups)[i];
      SegmentFits(o.codec, prefix, o.sent[i], name, more);
    }
  }

  // ---- through the wire ----

  lemma OutgoingIsData(prefix: seq<Byte>, s: Segment, name: nat, more: seq<Byte>)
    ensures AsCommand(AsOutgoing(prefix, s, name, more)) == DataCommand(prefix, s, name, more)
  {
  }

  /** Reads the segments out of received commands. */
  method ReadSegments(contents: seq<seq<Byte>>, moreSize: nat, ghost segments: seq<Segment>) returns (r: seq<Segment>)
    requires |contents| == |segments|
    requires forall i :: 0 <= i < |contents| ==> ReadSegment(contents[i], moreSize) == Some(segments[i])
    ensures r == segments
  {
    hide ReadSegment;
    r := [];
    for i := 0 to |contents|
      invariant r == segments[..i]
    {
      var s := ReadSegment(contents[i], moreSize);
      r := r + [s.value];
    }
  }

  /** The commands of a stream, as they are received, hold its segments. */
  lemma ReceivedSegments(prefix: seq<Byte>, segments: seq<Segment>, name: nat, more: seq<Byte>)
    requires forall i :: 0 <= i < |segments| ==> Encodable(prefix, segments[i], name, more)
    ensures var os := AsOutgoings(prefix, segments, name, more);
      var contents := Contents(Commands(os));
      && |contents| == |segments|
      && (forall i :: 0 <= i < |os| ==> Size(AsCommand(os[i])) < Framing.WORD)
      && forall i :: 0 <= i < |segments| ==> ReadSegment(contents[i], |more|) == Some(segments[i])
  {
    hide ReadSegment, Content, DataCommand, AsCommand, AsOutgoing, DataFields;
    var os := AsOutgoings(prefix, segments, name, more);
    ContentsAt(Commands(os));
    forall i | 0 <= i < |segments|
      ensures Size(AsCommand(os[i])) < Framing.WORD
      ensures ReadSegment(Contents(Commands(os))[i], |more|) == Some(segments[i])
    {
      OutgoingIsData(prefix, segments[i], name, more);
      SegmentRoundTrip(prefix, segments[i], name, more);
    }
  }

  method PickMemories(n: nat, memory: nat -> seq<Byte>) returns (memories: seq<seq<Byte>>)
    requires forall i :: |memory(i)| >= MIN_SIZE
    ensures |memories| == n && forall i :: 0 <= i < n ==> |memories[i]| >= MIN_SIZE
  {
    memories := [];
    for i := 0 to n
      invariant |memories| == i && forall j :: 0 <= j < i ==> |memories[j]| >= MIN_SIZE
    {
      memories := memories + [memory(i)];
    }
  }

  /**
   Writes on one end, reads of the same sizes on the other, with everything between: segments, compression, commands
   with any padding, and a transport that splits sends and receives in any way. The reads return the writes exactly if
   the last write is not empty, and nothing is lost on the way unless the transport stops moving.
   */
  method TransferOverWire(
      codec: Codec, bufferSize: nat, save: bool, writes: seq<Write>,
      prefix: seq<Byte>, name: nat, more: seq<Byte>, memory: nat -> seq<Byte>, sends: seq<int>, receives: seq<int>)
    returns (ok: bool, same: bool, ready: bool, ghost wire: nat)
    requires Lossless(codec) && FewChunks(codec) && Header(prefix, name, more)
    requires |Flat(writes)| < LARGE && |writes| < HALF_WORD - 1
    requires forall i :: |memory(i)| >= MIN_SIZE
    ensures ok ==> (same <==> writes == [] || writes[|writes| - 1] != [])
    ensures ok ==> (ready <==> Flat(if save then writes else Unflushed(writes, bufferSize)) != [])
    ensures ok && NoEmptyWrite(writes) && writes != [] ==> ready
    ensures Moving(sends) && Moving(receives) && wire <= |sends| && wire <= |receives| ==> ok
  {
    hide *;
    var o := new DataOStream(codec, bufferSize);
    WriteAll(o, save, true, writes);
    SavesAny(o.closed, o.pending, o.bufferSize);
    o.FinishedParts(true);
    o.WrittenIs();
    SessionFits(o, prefix, name, more);
    ReceivedSegments(prefix, o.sent, name, more);
    OnWireParts(codec, o.sent, if o.dataSent then o.closed + [o.pending] else o.closed);
    SessionReadsBack(codec, o.sent, o.closed, o.pending, o.dataSent);
    if NoEmptyWrite(writes) && writes != [] {
      NoEmptyLeft(o.closed, o.pending);
    }
    var os := AsOutgoings(prefix, o.sent, name, more);
    var memories := PickMemories(|os|, memory);
    MemoriesFit(os, memories);
    wire := |Bytes(os, memories)|;
    var contents;
    contents, ok := Exchange(os, memories, sends, receives);
    same, ready := false, false;
    if ok {
      var segments := ReadSegments(contents, |more|, o.sent);
      var i := new ObjectDataIStream(codec);
      Deliver(segments, i);
      ready := i.ready;
      same := ReadAll(i, writes);
    }
  }

  lemma MemoriesFit(os: seq<Outgoing>, memories: seq<seq<Byte>>)
    requires |memories| == |os| && forall i :: 0 <= i < |os| ==> |memories[i]| >= MIN_SIZE
    ensures Memories(os, memories)
  {
  }
}
