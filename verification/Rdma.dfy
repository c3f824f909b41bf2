/**
 The state an RDMA connection keeps for its two roles, and what each of its handlers does to it
 (co/rdmaConnection.cpp). A connection is a writer towards its peer and a reader from its peer; the two roles
 share no variable, so they are two records.
 */
module Rdma {
  import opened Arithmetic
  import opened Common
  import opened Ring

  /** The ring pointers, FC byte counts and immediate data are uint32_t. */
  const WORD: nat := 0x1_0000_0000
  /** Immediate data: 28 bits of byte count, 4 bits of returned flow-control credits. */
  const IMM_BYTES: nat := 0x1000_0000
  const MAX_BS: nat := 0xfff_ffff
  const MAX_FC: nat := 15
  const FC_MESSAGE_FREQUENCY: nat := 12

  datatype Writer = Writer(
    srcHead: Pointer, srcMiddle: Pointer, srcTail: Pointer, // _sourceptr
    rHead: Pointer, rTail: Pointer, rnum: nat,              // _rptr, the view of the peer's sink
    wcredits: int, fcs: int,
    source: seq<Byte>)

  datatype Reader = Reader(
    sinkHead: Pointer, sinkTail: Pointer, // _sinkptr
    readBytes: nat,                       // bytes drained since the last flow-control message
    writes: int, fcredits: int,
    pending: nat,                         // bytes announced in the notifier pipe
    sink: seq<Byte>)

  /** An RDMA write: where it reads locally, where it lands remotely, and its immediate data. */
  datatype Post = Post(from: nat, to: nat, length: nat, imm: nat)

  /** A flow-control message. */
  datatype Fc = Fc(bytes: nat, writes: nat)

  ghost predicate WriterRings(w: Writer) {
    0 < |w.source| < WORD && 0 < w.rnum < WORD
  }

  ghost predicate ReaderRing(r: Reader) {
    0 < |r.sink| < WORD
  }

  // ---- initial state, after the setup exchange ----

  function WriteCredits(depth: nat): int {
    depth / 2 - 2
  }

  function FcCredits(depth: nat): int {
    depth / 2 + 2
  }

  function InitWriter(depth: nat, source: seq<Byte>, rnum: nat): Writer {
    Writer(START, START, START, START, START, rnum, WriteCredits(depth), 0, source)
  }

  /** The setup message has been posted, and spent one flow-control credit that is never returned. */
  function InitReader(depth: nat, sink: seq<Byte>): Reader {
    Reader(START, START, 0, 0, FcCredits(depth) - 1, 0, sink)
  }

  // ---- immediate data ----

  function PackImm(bytes: nat, returned: nat): nat {
    bytes % IMM_BYTES + returned % 16 * IMM_BYTES
  }

  function ImmBytes(imm: nat): nat {
    imm % IMM_BYTES
  }

  function ImmReturned(imm: nat): nat {
    imm / IMM_BYTES % 16
  }

  lemma ImmRoundTrip(bytes: nat, returned: nat)
    requires bytes <= MAX_BS && returned <= MAX_FC
    ensures PackImm(bytes, returned) < WORD
    ensures ImmBytes(PackImm(bytes, returned)) == bytes && ImmReturned(PackImm(bytes, returned)) == returned
  {
    DivModUnique(returned * IMM_BYTES + bytes, IMM_BYTES, returned, bytes);
  }

  // ---- writer ----

  /** How many bytes _fill accepts: limited by both rings and by the end of the source buffer. */
  function FillCount(w: Writer, bytes: nat): (b: nat)
    requires WriterRings(w)
    ensures b <= bytes && Offset(w.srcHead, |w.source|, WORD) + b <= |w.source|
    ensures b <= NegAvailable(w.srcHead, w.srcTail, |w.source|, WORD) && b <= NegAvailable(w.rHead, w.rTail, w.rnum, WORD)
    ensures b < bytes ==>
      || b == NegAvailable(w.srcHead, w.srcTail, |w.source|, WORD) || b == NegAvailable(w.rHead, w.rTail, w.rnum, WORD)
      || Offset(w.srcHead, |w.source|, WORD) + b == |w.source|
  {
    var room := Min(NegAvailable(w.srcHead, w.srcTail, |w.source|, WORD),
                    NegAvailable(w.rHead, w.rTail, w.rnum, WORD));
    Min(Min(bytes, room), |w.source| - Offset(w.srcHead, |w.source|, WORD))
  }

  function Fill(w: Writer, data: seq<Byte>): Writer
    requires WriterRings(w)
  {
    var b := FillCount(w, |data|);
    w.(source := Overlay(w.source, Offset(w.srcHead, |w.source|, WORD), data[..b]),
       srcHead := Incr(w.srcHead, b, |w.source|, WORD))
  }

  /** _makeImm returns at most MAX_FC credits, of a count first narrowed to uint16_t. */
  function Returned(w: Writer): nat {
    Min(MAX_FC, w.fcs % 0x1_0000)
  }

  function PostLength(w: Writer): nat {
    Available(w.srcHead, w.srcMiddle, WORD)
  }

  function PostOf(w: Writer): Post
    requires WriterRings(w)
  {
    Post(Offset(w.srcMiddle, |w.source|, WORD), Offset(w.rHead, w.rnum, WORD), PostLength(w),
         PackImm(PostLength(w), Returned(w)))
  }

  function PostWrite(w: Writer): Writer
    requires WriterRings(w)
  {
    w.(srcMiddle := Incr(w.srcMiddle, PostLength(w), |w.source|, WORD),
       rHead := Incr(w.rHead, PostLength(w), w.rnum, WORD),
       fcs := w.fcs - Returned(w),
       wcredits := w.wcredits - 1)
  }

  function CompleteWrite(w: Writer, length: nat): Writer
    requires WriterRings(w)
  {
    w.(srcTail := Incr(w.srcTail, length, |w.source|, WORD))
  }

  function RecvFc(w: Writer, fc: Fc): Writer
    requires WriterRings(w)
  {
    w.(rTail := Incr(w.rTail, fc.bytes, w.rnum, WORD), wcredits := w.wcredits + fc.writes, fcs := w.fcs + 1)
  }

  // ---- reader ----

  function RecvWrite(r: Reader, imm: nat): Reader
    requires ReaderRing(r)
  {
    r.(sinkHead := Incr(r.sinkHead, ImmBytes(imm), |r.sink|, WORD),
       pending := r.pending + ImmBytes(imm),
       fcredits := r.fcredits + ImmReturned(imm),
       writes := r.writes + 1)
  }

  /** The read size is a uint64_t that _drain takes as uint32_t. */
  function DrainCount(r: Reader, bytes: nat): nat {
    Min(bytes % WORD, Available(r.sinkHead, r.sinkTail, WORD))
  }

  /** The sink is mapped twice in a row, so a read past its end continues at its start. */
  function Drained(r: Reader, bytes: nat): seq<Byte>
    requires ReaderRing(r)
  {
    Slice(r.sink, Offset(r.sinkTail, |r.sink|, WORD), DrainCount(r, bytes))
  }

  predicate NeedFc(r: Reader) {
    r.pending == 0 || r.writes >= FC_MESSAGE_FREQUENCY
  }

  /** The byte count is a uint64_t sent as uint32_t. */
  function FcOf(r: Reader): Fc
    requires r.writes >= 0
  {
    Fc(r.readBytes % WORD, r.writes)
  }

  function PostFc(r: Reader): Reader {
    r.(writes := 0, readBytes := 0, fcredits := r.fcredits - 1)
  }

  /** The part of readSync after the poll that took something: drain, and put back into the pipe what was not taken. */
  function Drain(r: Reader, bytes: nat): Reader
    requires ReaderRing(r)
  {
    var b := DrainCount(r, bytes);
    r.(sinkTail := Incr(r.sinkTail, b, |r.sink|, WORD),
       pending := if r.pending > b then r.pending - b else 0,
       readBytes := r.readBytes + b)
  }

  /**
   One attempt of readSync after the poll. Without an announced byte it gives up; when it then takes nothing it
   retries, having emptied the pipe and put nothing back.
   */
  function ReadAttempt(r: Reader, bytes: nat): Reader
    requires ReaderRing(r)
  {
    if r.pending == 0 then r
    else if DrainCount(r, bytes) == 0 then r.(sinkTail := Incr(r.sinkTail, 0, |r.sink|, WORD), pending := 0)
    else
      var r' := Drain(r, bytes);
      if NeedFc(r') then PostFc(r') else r'
  }
}
