/**
 Object data as values: a compressor as an abstract pair of functions, the segments that carry the data of a stream,
 and reading back what was written.
 */
module DataStreams {
  import opened Common

  /**
   A byte compressor: chunks for any data, and data of a known size from chunks; whether it is set up, and the size up
   to which data is left alone.
   */
  datatype Codec = Codec(
    compress: seq<Byte> -> seq<seq<Byte>>,
    decompress: (seq<seq<Byte>>, nat) -> seq<Byte>,
    good: bool,
    minSize: nat)

  ghost predicate Lossless(codec: Codec) {
    forall data :: codec.decompress(codec.compress(data), |data|) == data
  }

  datatype Payload = Raw(bytes: seq<Byte>) | Chunks(chunks: seq<seq<Byte>>)

  /** One data command: its place in the stream, the uncompressed size, and the body. */
  datatype Segment = Segment(sequence: nat, last: bool, size: nat, payload: Payload)

  function Decode(codec: Codec, s: Segment): seq<Byte> {
    if s.payload.Raw? then s.payload.bytes else codec.decompress(s.payload.chunks, s.size)
  }

  /** The segment carries exactly this data. */
  predicate Carries(codec: Codec, s: Segment, data: seq<Byte>) {
    Decode(codec, s) == data && s.size == |data|
  }

  function TotalSize(chunks: seq<seq<Byte>>): nat {
    if chunks == [] then 0 else |chunks[0]| + TotalSize(chunks[1..])
  }

  /** Compressing pays off: there is a compressor, the data is large enough, and its chunks are smaller. */
  predicate PaysOff(codec: Codec, data: seq<Byte>) {
    codec.good && |data| > codec.minSize && TotalSize(codec.compress(data)) < |data|
  }

  // ---- writes and groups of writes ----

  type Write = seq<Byte>

  function Flat(writes: seq<Write>): seq<Byte> {
    if writes == [] then [] else writes[0] + Flat(writes[1..])
  }

  function Concat(groups: seq<seq<Write>>): seq<Write> {
    if groups == [] then [] else groups[0] + Concat(groups[1..])
  }

  function Flats(groups: seq<seq<Write>>): (datas: seq<seq<Byte>>)
    ensures |datas| == |groups|
    ensures forall i :: 0 <= i < |groups| ==> datas[i] == Flat(groups[i])
  {
    if groups == [] then [] else [Flat(groups[0])] + Flats(groups[1..])
  }

  lemma {:induction false} FlatAppend(a: seq<Write>, b: seq<Write>)
    ensures Flat(a + b) == Flat(a) + Flat(b)
  {
    if a == [] {
      assert a + b == b;
    } else {
      assert (a + b)[1..] == a[1..] + b;
      FlatAppend(a[1..], b);
    }
  }

  lemma {:induction false} ConcatAppend(groups: seq<seq<Write>>, g: seq<Write>)
    ensures Concat(groups + [g]) == Concat(groups) + g
  {
    if groups == [] {
      assert groups + [g] == [g] && [g][1..] == [];
    } else {
      assert (groups + [g])[1..] == groups[1..] + [g];
      ConcatAppend(groups[1..], g);
    }
  }

  lemma {:induction false} FlatEmpty(writes: seq<Write>)
    ensures Flat(writes) == [] <==> forall i :: 0 <= i < |writes| ==> writes[i] == []
  {
    if writes != [] {
      FlatEmpty(writes[1..]);
      assert (forall i :: 0 <= i < |writes| ==> writes[i] == []) ==>
        forall i :: 0 <= i < |writes[1..]| ==> writes[1..][i] == [];
      assert forall i :: 0 < i < |writes| ==> writes[i] == writes[1..][i - 1];
    }
  }

  predicate NoEmptyWrite(writes: seq<Write>) {
    forall i :: 0 <= i < |writes| ==> writes[i] != []
  }

  /** The writes since the last flush, when a write that finds more than the limit buffered flushes first. */
  function Unflushed(writes: seq<Write>, limit: nat): seq<Write>
    decreases |writes|
  {
    if writes == [] then []
    else
      var before, last := Unflushed(writes[..|writes| - 1], limit), writes[|writes| - 1];
      if |Flat(before)| > limit then [last] else before + [last]
  }

  lemma UnflushedNext(writes: seq<Write>, w: Write, limit: nat)
    ensures var before := Unflushed(writes, limit);
      Unflushed(writes + [w], limit) == if |Flat(before)| > limit then [w] else before + [w]
  {
    assert (writes + [w])[..|writes|] == writes;
  }

  /** A write longer than the limit and then an empty one: there is data, but none since the last flush. */
  lemma EmptyAfterFlush(w: Write, limit: nat)
    requires |w| > limit
    ensures Flat([w, []]) != [] && Unflushed([w, []], limit) == [[]] && Flat(Unflushed([w, []], limit)) == []
  {
    UnflushedNext([], w, limit);
    assert [] + [w] == [w] && [w] + [[]] == [w, []];
    assert Flat([w]) == w;
    UnflushedNext([w], [], limit);
  }

  // ---- reading ----

  /** The remaining data per segment, without leading empty parts. */
  function Advance(datas: seq<seq<Byte>>): seq<seq<Byte>> {
    if datas != [] && datas[0] == [] then Advance(datas[1..]) else datas
  }

  /** One read: moves on to the next non-empty part and takes bytes from that part only. */
  function Read(datas: seq<seq<Byte>>, n: nat): Option<(seq<Byte>, seq<seq<Byte>>)> {
    var now := Advance(datas);
    if now == [] || n > |now[0]| then None else Some((now[0][..n], [now[0][n..]] + now[1..]))
  }

  /** All bytes still to be read. */
  function Join(datas: seq<seq<Byte>>): seq<Byte> {
    if datas == [] then [] else datas[0] + Join(datas[1..])
  }

  /** The first part that has bytes. */
  function NextPart(datas: seq<seq<Byte>>): Option<seq<Byte>> {
    if datas == [] then None else if datas[0] != [] then Some(datas[0]) else NextPart(datas[1..])
  }

  lemma {:induction false} AdvanceKeeps(datas: seq<seq<Byte>>)
    ensures Join(Advance(datas)) == Join(datas) && (Advance(datas) == [] <==> NextPart(datas).None?)
    ensures Advance(datas) != [] ==> NextPart(datas) == Some(Advance(datas)[0])
  {
    if datas != [] && datas[0] == [] {
      AdvanceKeeps(datas[1..]);
      assert [] + Join(datas[1..]) == Join(datas[1..]);
    }
  }

  /** A read takes exactly the bytes asked for, in order and from one part only, or nothing. */
  lemma ReadTakes(datas: seq<seq<Byte>>, n: nat)
    ensures Read(datas, n).None? <==> NextPart(datas).None? || |NextPart(datas).value| < n
    ensures Read(datas, n).Some? ==>
      var r := Read(datas, n).value; |r.0| == n && Join([r.0] + r.1) == Join(datas)
  {
    AdvanceKeeps(datas);
    if Read(datas, n).Some? {
      var now, r := Advance(datas), Read(datas, n).value;
      assert ([r.0] + r.1)[1..] == r.1 && r.1[1..] == now[1..];
      assert now[0][..n] + now[0][n..] == now[0];
      assert now[0][..n] + (now[0][n..] + Join(now[1..])) == now[0] + Join(now[1..]);
    }
  }

  /** Reading with the sizes of the writes returns the writes. */
  predicate ReadsBack(datas: seq<seq<Byte>>, writes: seq<Write>)
    decreases |writes|
  {
    writes == [] ||
    match Read(datas, |writes[0]|)
    case None => false
    case Some(r) => r.0 == writes[0] && ReadsBack(r.1, writes[1..])
  }

  /** Groups with the leading groups of empty writes merged into the next one. */
  function Merged(groups: seq<seq<Write>>): seq<seq<Write>>
    decreases |groups|
  {
    if |groups| > 1 && Flat(groups[0]) == [] then Merged([groups[0] + groups[1]] + groups[2..]) else groups
  }

  lemma ConcatCons(g: seq<Write>, groups: seq<seq<Write>>)
    ensures Concat([g] + groups) == g + Concat(groups)
  {
    assert ([g] + groups)[1..] == groups;
  }

  lemma FlatsCons(g: seq<Write>, groups: seq<seq<Write>>)
    ensures Flats([g] + groups) == [Flat(g)] + Flats(groups)
  {
    assert ([g] + groups)[1..] == groups;
  }

  /** Merging the first two groups keeps the writes, and drops the first segment if it is empty. */
  lemma MergeTwo(a: seq<Write>, b: seq<Write>, groups: seq<seq<Write>>)
    ensures Concat([a + b] + groups) == Concat([a] + ([b] + groups))
    ensures Flat(a) == [] ==> Flats([a + b] + groups) == Flats([b] + groups)
    ensures Flats([a] + ([b] + groups)) == [Flat(a)] + Flats([b] + groups)
  {
    hide Concat, Flat, Flats;
    ConcatCons(a + b, groups);
    ConcatCons(a, [b] + groups);
    ConcatCons(b, groups);
    FlatAppend(a, b);
    assert [] + Flat(b) == Flat(b);
    FlatsCons(a + b, groups);
    FlatsCons(b, groups);
    FlatsCons(a, [b] + groups);
  }

  lemma AdvanceCons(data: seq<Byte>, datas: seq<seq<Byte>>)
    ensures Advance([data] + datas) == if data == [] then Advance(datas) else [data] + datas
  {
    assert ([data] + datas)[1..] == datas;
  }

  lemma {:induction false} MergedSame(groups: seq<seq<Write>>)
    requires groups != []
    ensures Merged(groups) != [] && Concat(Merged(groups)) == Concat(groups)
    ensures Advance(Flats(groups)) == if Flat(Merged(groups)[0]) == [] then [] else Flats(Merged(groups))
    ensures Flat(Merged(groups)[0]) == [] ==> |Merged(groups)| == 1
    decreases |groups|
  {
    hide Concat, Flat, Flats, Advance;
    if |groups| > 1 {
      var a, b, rest := groups[0], groups[1], groups[2..];
      assert groups == [a] + ([b] + rest);
      MergeTwo(a, b, rest);
      AdvanceCons(Flat(a), Flats([b] + rest));
      if Flat(a) == [] {
        MergedSame([a + b] + rest);
      }
    } else {
      assert groups == [groups[0]] + [];
      OneSegment(groups[0]);
    }
  }

  lemma OneSegment(g: seq<Write>)
    ensures Flats([g] + []) == [Flat(g)] && Advance([Flat(g)]) == if Flat(g) == [] then [] else [Flat(g)]
  {
    assert [g] + [] == [g] && [g][1..] == [];
    assert [Flat(g)][1..] == [];
  }

  lemma ConcatFirst(groups: seq<seq<Write>>)
    requires groups != [] && groups[0] != []
    ensures var rest := [groups[0][1..]] + groups[1..];
      && Concat(groups) == [groups[0][0]] + Concat(rest)
      && Flats(rest) == [Flat(groups[0][1..])] + Flats(groups)[1..]
      && Flat(groups[0]) == groups[0][0] + Flat(groups[0][1..])
  {
    hide Concat, Flats;
    var first, tail := groups[0], groups[1..];
    assert groups == [first] + tail && first == [first[0]] + first[1..];
    ConcatCons(first, tail);
    ConcatCons(first[1..], tail);
    FlatsCons(first, tail);
    FlatsCons(first[1..], tail);
  }

  /**
   Reading with the sizes of the writes returns the writes, however they were grouped into segments, exactly if the
   last write is not empty: an empty read still asks for the next segment.
   */
  lemma {:induction false} ReadsBackIff(groups: seq<seq<Write>>, writes: seq<Write>)
    requires groups != [] && writes == Concat(groups)
    ensures ReadsBack(Flats(groups), writes) <==> (writes == [] || writes[|writes| - 1] != [])
    decreases |writes|
  {
    if writes != [] {
      var merged := Merged(groups);
      MergedSame(groups);
      if Flat(merged[0]) == [] {
        assert merged[1..] == [] && Concat(merged) == merged[0];
        FlatEmpty(writes);
      } else {
        ConcatFirst(merged);
        var rest := [merged[0][1..]] + merged[1..];
        ReadsBackIff(rest, writes[1..]);
        assert Flat(merged[0])[..|writes[0]|] == writes[0];
        assert Flat(merged[0])[|writes[0]|..] == Flat(merged[0][1..]);
        assert Read(Flats(groups), |writes[0]|) == Some((writes[0], Flats(rest)));
        assert |writes| > 1 ==> writes[1..][|writes| - 2] == writes[|writes| - 1];
      }
    }
  }

  lemma {:induction false} AdvanceTrailing(datas: seq<seq<Byte>>)
    ensures Advance(datas) == [] ==> Advance(datas + [[]]) == []
    ensures Advance(datas) != [] ==> Advance(datas + [[]]) == Advance(datas) + [[]]
  {
    var longer := datas + [[]];
    if datas == [] {
      assert longer[1..] == [];
    } else if datas[0] == [] {
      assert longer[1..] == datas[1..] + [[]];
      AdvanceTrailing(datas[1..]);
    }
  }

  /** A missing empty segment at the end makes no difference to the reader. */
  lemma {:induction false} ReadsBackTrailing(datas: seq<seq<Byte>>, writes: seq<Write>)
    ensures ReadsBack(datas + [[]], writes) == ReadsBack(datas, writes)
    decreases |writes|
  {
    if writes != [] {
      AdvanceTrailing(datas);
      var now := Advance(datas);
      var n := |writes[0]|;
      if now != [] && n <= |now[0]| {
        var rest := [now[0][n..]] + now[1..];
        assert [now[0][n..]] + (now + [[]])[1..] == rest + [[]];
        ReadsBackTrailing(rest, writes[1..]);
      }
    }
  }

  /** The data carried by a list of segments. */
  function Datas(codec: Codec, segments: seq<Segment>): (datas: seq<seq<Byte>>)
    ensures |datas| == |segments|
    ensures forall i :: 0 <= i < |segments| ==> datas[i] == Decode(codec, segments[i])
  {
    if segments == [] then [] else [Decode(codec, segments[0])] + Datas(codec, segments[1..])
  }

  predicate Sized(codec: Codec, segments: seq<Segment>) {
    forall i :: 0 <= i < |segments| ==> segments[i].size == |Decode(codec, segments[i])|
  }

  /** Sequence numbers count from zero; only the final segment may be marked last. */
  predicate Numbered(segments: seq<Segment>) {
    forall i :: 0 <= i < |segments| ==> segments[i].sequence == i && (segments[i].last ==> i == |segments| - 1)
  }

  predicate Unfinished(segments: seq<Segment>) {
    forall i :: 0 <= i < |segments| ==> !segments[i].last
  }

  /** Nothing was sent, or the final segment is marked last. */
  predicate Finished(segments: seq<Segment>) {
    segments == [] || segments[|segments| - 1].last
  }

  /** Each group was closed by the first write that found more than the limit buffered. */
  predicate Greedy(groups: seq<seq<Write>>, limit: nat) {
    forall i :: 0 <= i < |groups| ==>
      && groups[i] != [] && |Flat(groups[i])| > limit
      && |Flat(groups[i][..|groups[i]| - 1])| <= limit
  }
}
