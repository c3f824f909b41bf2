/** The RDMA connection itself: the protocol fields and the handlers that update them in place. */
module RdmaConnections {
  import opened Arithmetic
  import opened Common
  import opened Ring
  import opened Rdma

  /** memcpy into a buffer. */
  method CopyInto(buffer: array<Byte>, at: nat, data: seq<Byte>)
    requires at + |data| <= buffer.Length
    modifies buffer
    ensures buffer[..] == Overlay(old(buffer[..]), at, data)
  {
    hide Overlay;
    OverlayNone(buffer[..], at);
    assert data[..0] == [];
    for i := 0 to |data|
      invariant buffer[..] == Overlay(old(buffer[..]), at, data[..i])
    {
      OverlayOneMore(old(buffer[..]), at, data[..i + 1]);
      assert data[..i + 1][..i] == data[..i];
      buffer[at + i] := data[i];
    }
    assert data[..|data|] == data;
  }

  class RdmaConnection {
    var depth: int
    var writes: int
    var fcs: int
    var wcredits: int
    var fcredits: int
    var readBytes: nat
    var pending: nat

    const sourcebuf: array<Byte>
    var srcHead: Pointer
    var srcMiddle: Pointer
    var srcTail: Pointer

    const sinkbuf: array<Byte>
    var sinkHead: Pointer
    var sinkTail: Pointer

    var rHead: Pointer
    var rTail: Pointer
    var rnum: nat

    ghost predicate Valid()
      reads this
    {
      && 0 < sourcebuf.Length < WORD && 0 < sinkbuf.Length < WORD && 0 < rnum < WORD
      && sourcebuf != sinkbuf && writes >= 0
    }

    ghost function AsWriter(): Writer
      reads this, sourcebuf
    {
      Writer(srcHead, srcMiddle, srcTail, rHead, rTail, rnum, wcredits, fcs, sourcebuf[..])
    }

    ghost function AsReader(): Reader
      reads this, sinkbuf
    {
      Reader(sinkHead, sinkTail, readBytes, writes, fcredits, pending, sinkbuf[..])
    }

    /** Buffers of `size` bytes, before the protocol variables are initialised. */
    constructor (size: nat)
      requires 0 < size < WORD
      ensures Valid() && fresh(sourcebuf) && fresh(sinkbuf)
      ensures sourcebuf.Length == sinkbuf.Length == rnum == size
      ensures AsWriter() == Writer(START, START, START, START, START, size, 0, 0, sourcebuf[..])
      ensures AsReader() == Reader(START, START, 0, 0, 0, 0, sinkbuf[..])
    {
      depth, writes, fcs, wcredits, fcredits, readBytes, pending := 0, 0, 0, 0, 0, 0, 0;
      srcHead, srcMiddle, srcTail := START, START, START;
      sinkHead, sinkTail, rHead, rTail := START, START, START, START;
      rnum := size;
      sourcebuf := new Byte[size](_ => 0);
      sinkbuf := new Byte[size](_ => 0);
    }

    /** Accepts every depth of at least two, although fewer than six leave no write credit. */
    method InitProtocol(newDepth: int) returns (ok: bool)
      requires Valid()
      modifies this
      ensures Valid() && ok == (newDepth >= 2)
      ensures ok ==>
        && depth == newDepth
        && AsWriter() == old(AsWriter()).(wcredits := WriteCredits(newDepth), fcs := 0)
        && AsReader() == old(AsReader()).(fcredits := FcCredits(newDepth), writes := 0, readBytes := 0)
        && wcredits == newDepth / 2 - 2 && fcredits == newDepth / 2 + 2
        && (wcredits > 0 <==> newDepth >= 6) && (wcredits >= 0 <==> newDepth >= 4)
      ensures !ok ==> unchanged(this)
    {
      if newDepth < 2 {
        return false;
      }
      depth := newDepth;
      writes, fcs, readBytes := 0, 0, 0;
      wcredits := depth / 2 - 2;
      fcredits := depth / 2 + 2;
      return true;
    }

    /** Posting the setup message spends a flow-control credit. */
    method PostSetup()
      requires Valid()
      modifies this`fcredits
      ensures Valid() && AsWriter() == old(AsWriter())
      ensures AsReader() == old(AsReader()).(fcredits := old(fcredits) - 1)
    {
      fcredits := fcredits - 1;
    }

    method Fill(data: seq<Byte>) returns (b: nat)
      requires Valid()
      modifies this`srcHead, sourcebuf
      ensures Valid() && b == FillCount(old(AsWriter()), |data|)
      ensures AsWriter() == Rdma.Fill(old(AsWriter()), data)
    {
      var size := sourcebuf.Length;
      b := Min(|data|, Min(NegAvailable(srcHead, srcTail, size, WORD), NegAvailable(rHead, rTail, rnum, WORD)));
      var at := Offset(srcHead, size, WORD);
      b := Min(b, size - at);
      CopyInto(sourcebuf, at, data[..b]);
      srcHead := Incr(srcHead, b, size, WORD);
    }

    method MakeImm(b: nat) returns (imm: nat)
      requires Valid()
      modifies this`fcs
      ensures Valid() && imm == PackImm(b, Returned(old(AsWriter())))
      ensures AsWriter() == old(AsWriter()).(fcs := old(fcs) - Returned(old(AsWriter())))
    {
      var returned := Min(MAX_FC, fcs % 0x1_0000);
      fcs := fcs - returned;
      imm := PackImm(b, returned);
    }

    method PostRdmaWrite() returns (post: Post)
      requires Valid()
      modifies this
      ensures Valid() && post == PostOf(old(AsWriter()))
      ensures AsWriter() == PostWrite(old(AsWriter())) && AsReader() == old(AsReader()) && depth == old(depth)
    {
      var from := Offset(srcMiddle, sourcebuf.Length, WORD);
      var length := Available(srcHead, srcMiddle, WORD);
      srcMiddle := Incr(srcMiddle, length, sourcebuf.Length, WORD);
      var imm := MakeImm(length);
      post := Post(from, Offset(rHead, rnum, WORD), length, imm);
      rHead := Incr(rHead, length, rnum, WORD);
      wcredits := wcredits - 1;
    }

    /** One attempt of write(): nothing without a credit or room, else a fill and the post of what was copied. */
    method TryWrite(data: seq<Byte>) returns (put: nat, post: Option<Post>)
      requires Valid()
      modifies this, sourcebuf
      ensures Valid() && AsReader() == old(AsReader())
      ensures post.Some? <==> put > 0
      ensures var w := old(AsWriter()); var d := data[..Min(|data|, MAX_BS)];
        if w.wcredits == 0 then put == 0 && AsWriter() == w
        else
          && put == FillCount(w, |d|)
          && AsWriter() == (if put == 0 then Rdma.Fill(w, d) else PostWrite(Rdma.Fill(w, d)))
          && (put > 0 ==> post.value == PostOf(Rdma.Fill(w, d)))
    {
      put, post := 0, None;
      if wcredits == 0 {
        return;
      }
      put := Fill(data[..Min(|data|, MAX_BS)]);
      if put > 0 {
        var p := PostRdmaWrite();
        post := Some(p);
      }
    }

    method CompleteRdmaWrite(length: nat)
      requires Valid()
      modifies this`srcTail
      ensures Valid() && AsWriter() == CompleteWrite(old(AsWriter()), length)
    {
      srcTail := Incr(srcTail, length, sourcebuf.Length, WORD);
    }

    method RecvFc(fc: Fc)
      requires Valid()
      modifies this`rTail, this`wcredits, this`fcs
      ensures Valid() && AsWriter() == Rdma.RecvFc(old(AsWriter()), fc)
    {
      rTail := Incr(rTail, fc.bytes, rnum, WORD);
      wcredits := wcredits + fc.writes;
      fcs := fcs + 1;
    }

    method RecvRdmaWrite(imm: nat)
      requires Valid()
      modifies this`sinkHead, this`pending, this`fcredits, this`writes
      ensures Valid() && AsReader() == RecvWrite(old(AsReader()), imm)
    {
      var sent := imm % IMM_BYTES;
      sinkHead := Incr(sinkHead, sent, sinkbuf.Length, WORD);
      pending := pending + sent;
      fcredits := fcredits + imm / IMM_BYTES % 16;
      writes := writes + 1;
    }

    method NeedFc() returns (need: bool)
      requires Valid()
      ensures need == Rdma.NeedFc(AsReader())
    {
      need := pending == 0 || writes >= FC_MESSAGE_FREQUENCY;
    }

    method PostFc() returns (fc: Fc)
      requires Valid()
      modifies this`writes, this`readBytes, this`fcredits
      ensures Valid() && fc == FcOf(old(AsReader())) && AsReader() == Rdma.PostFc(old(AsReader()))
    {
      fc := Fc(readBytes % WORD, writes);
      writes := writes - fc.writes;
      readBytes := 0;
      fcredits := fcredits - 1;
    }

    method Drain(bytes: nat) returns (data: seq<Byte>)
      requires Valid()
      modifies this`sinkTail
      ensures Valid() && data == Drained(old(AsReader()), bytes)
      ensures |data| == Min(bytes % WORD, Available(sinkHead, old(sinkTail), WORD))
      ensures data == Slice(sinkbuf[..], Offset(old(sinkTail), sinkbuf.Length, WORD), |data|)
      ensures sinkTail == Incr(old(sinkTail), DrainCount(old(AsReader()), bytes), sinkbuf.Length, WORD)
    {
      var b := Min(bytes % WORD, Available(sinkHead, sinkTail, WORD));
      var at := Offset(sinkTail, sinkbuf.Length, WORD);
      data := [];
      while |data| < b
        invariant |data| <= b && data == Slice(sinkbuf[..], at, |data|)
      {
        data := data + [sinkbuf[(at + |data|) % sinkbuf.Length]];
      }
      sinkTail := Incr(sinkTail, b, sinkbuf.Length, WORD);
    }

    /** One attempt of readSync() after the poll. */
    method TryRead(bytes: nat) returns (data: seq<Byte>, fc: Option<Fc>)
      requires Valid()
      modifies this
      ensures Valid() && AsWriter() == old(AsWriter()) && AsReader() == ReadAttempt(old(AsReader()), bytes)
      ensures data == if old(pending) == 0 then [] else Drained(old(AsReader()), bytes)
      ensures |data| == if old(pending) == 0 then 0 else Min(bytes % WORD, Available(old(sinkHead), old(sinkTail), WORD))
      ensures data != [] ==>
        var r := Rdma.Drain(old(AsReader()), bytes); fc == if Rdma.NeedFc(r) then Some(FcOf(r)) else None
      ensures data == [] ==> fc == None
    {
      hide Incr, Offset, Slice, Available;
      data, fc := [], None;
      if pending == 0 {
        return;
      }
      var announced := pending;
      pending := 0;
      data := Drain(bytes);
      if data == [] {
        return;
      }
      if announced > |data| {
        pending := announced - |data|;
      }
      readBytes := readBytes + |data|;
      fc := AcknowledgeIfNeeded();
    }

    method AcknowledgeIfNeeded() returns (fc: Option<Fc>)
      requires Valid()
      modifies this`writes, this`readBytes, this`fcredits
      ensures Valid()
      ensures var r := old(AsReader());
        if Rdma.NeedFc(r) then fc == Some(FcOf(r)) && AsReader() == Rdma.PostFc(r)
        else fc == None && AsReader() == r
    {
      fc := None;
      var need := NeedFc();
      if need {
        var f := PostFc();
        fc := Some(f);
      }
    }
  }
}
