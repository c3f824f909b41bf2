/**
 Commands on the wire (co/oCommand.cpp, co/objectDataOCommand.cpp, co/localNode.cpp): a 64-bit size, the fields, an
 optional body of raw data or of compressed chunks, and padding up to the minimal size a receiver reads at once.
 */
module Framing {
  import opened Common
  import opened DataStreams

  /** COMMAND_MINSIZE */
  const MIN_SIZE: nat := 256

  // ---- little-endian integers ----

  function Pow256(k: nat): nat {
    if k == 0 then 1 else 256 * Pow256(k - 1)
  }

  function Encode(n: nat, k: nat): (s: seq<Byte>)
    ensures |s| == k
  {
    if k == 0 then [] else [n % 256] + Encode(n / 256, k - 1)
  }

  function Number(s: seq<Byte>): nat {
    if s == [] then 0 else s[0] + 256 * Number(s[1..])
  }

  lemma {:induction false} NumberRoundTrip(n: nat, k: nat)
    requires n < Pow256(k)
    ensures Number(Encode(n, k)) == n
  {
    if k > 0 {
      NumberRoundTrip(n / 256, k - 1);
      assert Encode(n, k)[1..] == Encode(n / 256, k - 1);
    }
  }


  const WORD: nat := 0x1_0000_0000_0000_0000

  lemma WordIsPow256()
    ensures Pow256(8) == WORD
  {
    assert Pow256(4) == 0x1_0000_0000;
  }

  lemma SizeRoundTrip(n: nat)
    requires n < WORD
    ensures Number(Encode(n, 8)) == n
  {
    WordIsPow256();
    NumberRoundTrip(n, 8);
  }

  // ---- bodies ----

  function ChunkBytes(chunks: seq<seq<Byte>>): seq<Byte> {
    if chunks == [] then [] else Encode(|chunks[0]|, 8) + chunks[0] + ChunkBytes(chunks[1..])
  }

  function BodyBytes(p: Payload): seq<Byte> {
    if p.Raw? then p.bytes else ChunkBytes(p.chunks)
  }

  /** The size announced for a body: the data, or all chunks with their size fields. */
  function AnnouncedSize(p: Payload): nat {
    if p.Raw? then |p.bytes| else TotalSize(p.chunks) + |p.chunks| * 8
  }

  lemma {:induction false} ChunkBytesSize(chunks: seq<seq<Byte>>)
    ensures |ChunkBytes(chunks)| == TotalSize(chunks) + |chunks| * 8
  {
    if chunks != [] {
      ChunkBytesSize(chunks[1..]);
    }
  }

  /** The announced size is what the body takes on the wire. */
  lemma AnnouncedIsSent(p: Payload)
    ensures AnnouncedSize(p) == |BodyBytes(p)|
  {
    if p.Chunks? {
      ChunkBytesSize(p.chunks);
    }
  }

  predicate SmallChunks(chunks: seq<seq<Byte>>) {
    forall i :: 0 <= i < |chunks| ==> |chunks[i]| < WORD
  }

  /** The chunks found by walking over the sizes; None if they do not fit the data. */
  function Walk(data: seq<Byte>, n: nat): Option<seq<seq<Byte>>>
    decreases n
  {
    if n == 0 then Some([])
    else if |data| < 8 || |data| - 8 < Number(data[..8]) then None
    else
      var size := Number(data[..8]);
      match Walk(data[8 + size..], n - 1)
      case None => None
      case Some(rest) => Some([data[8..8 + size]] + rest)
  }

  /** Walking over a chunked body finds exactly its chunks, whatever follows it. */
  lemma {:induction false} WalkFindsChunks(chunks: seq<seq<Byte>>, after: seq<Byte>)
    requires SmallChunks(chunks)
    ensures Walk(ChunkBytes(chunks) + after, |chunks|) == Some(chunks)
  {
    hide Encode, Number;
    if chunks != [] {
      var c, rest := chunks[0], chunks[1..];
      WalkFindsChunks(rest, after);
      WalkOne(c, ChunkBytes(rest) + after, |rest|);
      Regroup(Encode(|c|, 8) + c, ChunkBytes(rest), after);
      assert [c] + rest == chunks;
    }
  }

  lemma Regroup(a: seq<Byte>, b: seq<Byte>, c: seq<Byte>)
    ensures a + b + c == a + (b + c)
  {
  }

  lemma WalkOne(c: seq<Byte>, tail: seq<Byte>, n: nat)
    requires |c| < WORD
    ensures Walk(Encode(|c|, 8) + c + tail, n + 1) ==
      match Walk(tail, n) case None => None case Some(rest) => Some([c] + rest)
  {
    hide Encode, Number;
    var data := Encode(|c|, 8) + c + tail;
    SizeRoundTrip(|c|);
    assert data[..8] == Encode(|c|, 8) && data[8..8 + |c|] == c && data[8 + |c|..] == tail;
  }

  /** The pointer walk of _decompress. */
  method WalkChunks(data: seq<Byte>, n: nat) returns (chunks: seq<seq<Byte>>)
    requires Walk(data, n).Some?
    ensures chunks == Walk(data, n).value
  {
    chunks := [];
    var src: nat := 0;
    for i := 0 to n
      invariant src <= |data| && Walk(data[src..], n - i).Some?
      invariant chunks + Walk(data[src..], n - i).value == Walk(data, n).value
    {
      var here := data[src..];
      var size := Number(here[..8]);
      chunks := chunks + [here[8..8 + size]];
      assert here[8 + size..] == data[src + 8 + size..];
      src := src + 8 + size;
    }
  }

  // ---- commands ----

  /** The fields after the size, and the body if it is sent separately. */
  datatype Command = Command(fields: seq<Byte>, body: seq<Byte>)

  function Size(c: Command): nat {
    8 + |c.fields| + |c.body|
  }

  /** A command as the receiver sees it, with its size field. */
  function Content(c: Command): seq<Byte> {
    Encode(Size(c), 8) + c.fields + c.body
  }

  function PadSize(size: nat): nat {
    if size < MIN_SIZE then MIN_SIZE - size else 0
  }

  /** The padding is whatever memory follows the command. */
  function Wire(c: Command, padding: seq<Byte>): seq<Byte> {
    Content(c) + padding
  }

  predicate Framed(c: Command, padding: seq<Byte>) {
    Size(c) < WORD && |padding| == PadSize(Size(c))
  }

  /** Read the minimal size, then what its size field says is still missing. */
  function Parse(data: seq<Byte>): Option<(seq<Byte>, seq<Byte>)> {
    if |data| < MIN_SIZE then None
    else
      var needed := Number(data[..8]);
      if needed <= MIN_SIZE then Some((data[..needed], data[MIN_SIZE..]))
      else if needed <= |data| then Some((data[..needed], data[needed..]))
      else None
  }

  /** A command is taken off the stream exactly if all its bytes are there; it is as long as its first eight bytes say. */
  lemma ParseMeans(data: seq<Byte>)
    ensures Parse(data).Some? <==> |data| >= 256 && Number(data[..8]) <= |data|
    ensures Parse(data).Some? ==>
      var size, p := Number(data[..8]), Parse(data).value;
      && |p.0| == size && p.0 == data[..size]
      && p.1 == data[if size < 256 then 256 else size..]
  {
  }

  function ParseAll(data: seq<Byte>): (r: Option<seq<seq<Byte>>>)
    decreases |data|
  {
    if data == [] then Some([])
    else
      match Parse(data)
      case None => None
      case Some(p) =>
        match ParseAll(p.1)
        case None => None
        case Some(rest) => Some([p.0] + rest)
  }

  lemma ParseWire(c: Command, padding: seq<Byte>, after: seq<Byte>)
    requires Framed(c, padding)
    ensures Parse(Wire(c, padding) + after) == Some((Content(c), after))
  {
    var data := Wire(c, padding) + after;
    SizeRoundTrip(Size(c));
    assert data[..8] == Encode(Size(c), 8);
    assert data[..Size(c)] == Content(c);
    assert data[|Wire(c, padding)|..] == after;
  }

  function WireAll(cs: seq<Command>, paddings: seq<seq<Byte>>): seq<Byte>
    requires |cs| == |paddings|
  {
    if cs == [] then [] else Wire(cs[0], paddings[0]) + WireAll(cs[1..], paddings[1..])
  }

  function Contents(cs: seq<Command>): seq<seq<Byte>> {
    if cs == [] then [] else [Content(cs[0])] + Contents(cs[1..])
  }

  /** Any list of commands, sent with any padding bytes, is cut back into exactly these commands. */
  lemma {:induction false} ParseAllWires(cs: seq<Command>, paddings: seq<seq<Byte>>)
    requires |cs| == |paddings| && forall i :: 0 <= i < |cs| ==> Framed(cs[i], paddings[i])
    ensures ParseAll(WireAll(cs, paddings)) == Some(Contents(cs))
  {
    if cs != [] {
      ParseWire(cs[0], paddings[0], WireAll(cs[1..], paddings[1..]));
      ParseAllWires(cs[1..], paddings[1..]);
    }
  }

  // ---- object data commands ----

  /** Type, command, object identifier, instance and version. */
  const PREFIX: nat := 44

  /** EQ_COMPRESSOR_NONE */
  const COMPRESSOR_NONE: nat := 0

  function Compressor(s: Segment, name: nat): nat {
    if s.payload.Raw? then COMPRESSOR_NONE else name
  }

  function NumChunks(s: Segment): nat {
    if s.payload.Raw? then 1 else |s.payload.chunks|
  }

  /** The header of ObjectDataOCommand; `more` are the fields the concrete stream adds. */
  function DataFields(prefix: seq<Byte>, s: Segment, name: nat, more: seq<Byte>): seq<Byte> {
    prefix + Encode(s.size, 8) + Encode(s.sequence, 4) + [if s.last then 1 else 0]
      + Encode(Compressor(s, name), 4) + Encode(NumChunks(s), 4) + more
  }

  function DataCommand(prefix: seq<Byte>, s: Segment, name: nat, more: seq<Byte>): Command {
    Command(DataFields(prefix, s, name, more), BodyBytes(s.payload))
  }

  const HALF_WORD: nat := 0x1_0000_0000

  /** All numbers fit their fields. */
  predicate Encodable(prefix: seq<Byte>, s: Segment, name: nat, more: seq<Byte>) {
    && |prefix| == PREFIX && 0 < name < HALF_WORD
    && s.size < WORD && s.sequence < HALF_WORD && NumChunks(s) < HALF_WORD
    && (s.payload.Chunks? ==> SmallChunks(s.payload.chunks))
    && Size(DataCommand(prefix, s, name, more)) < WORD
  }

  /** ObjectDataICommand and getNextBuffer: the fields at their offsets, then the rest as body. */
  function ReadSegment(content: seq<Byte>, moreSize: nat): Option<Segment> {
    if |content| < 8 + PREFIX + 21 + moreSize then None
    else
      var at := 8 + PREFIX;
      var size, sequence := Number(content[at..at + 8]), Number(content[at + 8..at + 12]);
      var last := content[at + 12] != 0;
      var name, n := Number(content[at + 13..at + 17]), Number(content[at + 17..at + 21]);
      var body := content[at + 21 + moreSize..];
      if name == COMPRESSOR_NONE then Some(Segment(sequence, last, size, Raw(body)))
      else
        match Walk(body, n)
        case None => None
        case Some(chunks) => Some(Segment(sequence, last, size, Chunks(chunks)))
  }

  lemma HalfRoundTrip(n: nat)
    requires n < HALF_WORD
    ensures Number(Encode(n, 4)) == n
  {
    assert Pow256(4) == HALF_WORD;
    NumberRoundTrip(n, 4);
  }

  /** Where each field of an object data command ends up. */
  lemma FieldOffsets(prefix: seq<Byte>, a: seq<Byte>, b: seq<Byte>, l: Byte, c: seq<Byte>, d: seq<Byte>,
                     more: seq<Byte>, body: seq<Byte>, head: seq<Byte>)
    requires |head| == 8 && |prefix| == PREFIX && |a| == 8 && |b| == 4 && |c| == 4 && |d| == 4
    ensures var at := 8 + PREFIX;
      var content := head + (prefix + a + b + [l] + c + d + more) + body;
      && |content| == at + 21 + |more| + |body|
      && content[at..at + 8] == a && content[at + 8..at + 12] == b && content[at + 12] == l
      && content[at + 13..at + 17] == c && content[at + 17..at + 21] == d && content[at + 21 + |more|..] == body
  {
  }

  /** A segment is read back from its command. */
  lemma SegmentRoundTrip(prefix: seq<Byte>, s: Segment, name: nat, more: seq<Byte>)
    requires Encodable(prefix, s, name, more)
    ensures ReadSegment(Content(DataCommand(prefix, s, name, more)), |more|) == Some(s)
    ensures var content := Content(DataCommand(prefix, s, name, more));
      && |content| == 73 + |more| + |BodyBytes(s.payload)|
      && content[52..60] == Encode(s.size, 8) && content[60..64] == Encode(s.sequence, 4)
      && content[64] == (if s.last then 1 else 0)
      && content[65..69] == Encode(if s.payload.Raw? then 0 else name, 4)
      && content[69..73] == Encode(if s.payload.Raw? then 1 else |s.payload.chunks|, 4)
  {
    hide Encode, Number, Walk;
    var c := DataCommand(prefix, s, name, more);
    var l: Byte := if s.last then 1 else 0;
    FieldOffsets(prefix, Encode(s.size, 8), Encode(s.sequence, 4), l, Encode(Compressor(s, name), 4),
      Encode(NumChunks(s), 4), more, c.body, Encode(Size(c), 8));
    SizeRoundTrip(s.size);
    HalfRoundTrip(s.sequence);
    HalfRoundTrip(Compressor(s, name));
    HalfRoundTrip(NumChunks(s));
    if s.payload.Chunks? {
      WalkFindsChunks(s.payload.chunks, []);
      assert c.body + [] == c.body;
    }
  }

  function DataCommands(prefix: seq<Byte>, segments: seq<Segment>, name: nat, more: seq<Byte>): (cs: seq<Command>)
    ensures |cs| == |segments|
    ensures forall i :: 0 <= i < |segments| ==> cs[i] == DataCommand(prefix, segments[i], name, more)
  {
    if segments == [] then [] else [DataCommand(prefix, segments[0], name, more)] + DataCommands(prefix, segments[1..], name, more)
  }

  lemma {:induction false} ContentsAt(cs: seq<Command>)
    ensures |Contents(cs)| == |cs| && forall i :: 0 <= i < |cs| ==> Contents(cs)[i] == Content(cs[i])
  {
    if cs != [] {
      ContentsAt(cs[1..]);
    }
  }

  /** The segments of a stream, as commands on the wire with any padding, come out as the same segments. */
  lemma SegmentsCrossWire(prefix: seq<Byte>, segments: seq<Segment>, name: nat, more: seq<Byte>, paddings: seq<seq<Byte>>)
    requires forall i :: 0 <= i < |segments| ==> Encodable(prefix, segments[i], name, more)
    requires |paddings| == |segments|
    requires forall i :: 0 <= i < |segments| ==> |paddings[i]| == PadSize(Size(DataCommand(prefix, segments[i], name, more)))
    ensures var r := ParseAll(WireAll(DataCommands(prefix, segments, name, more), paddings));
      && r.Some? && |r.value| == |segments|
      && forall i :: 0 <= i < |segments| ==> ReadSegment(r.value[i], |more|) == Some(segments[i])
  {
    hide ReadSegment, DataCommand, Content, WireAll, ParseAll;
    var cs := DataCommands(prefix, segments, name, more);
    forall i | 0 <= i < |cs| ensures Framed(cs[i], paddings[i]) {
      assert Encodable(prefix, segments[i], name, more);
    }
    ParseAllWires(cs, paddings);
    ContentsAt(cs);
    forall i | 0 <= i < |segments| ensures ReadSegment(Contents(cs)[i], |more|) == Some(segments[i]) {
      SegmentRoundTrip(prefix, segments[i], name, more);
    }
  }
}
