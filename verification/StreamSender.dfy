/** The C sender: the stream that cuts fed data into slices, the sink that fills one block in place and
    sends it, and the two front ends, the command line tool and the embedded encoder. */
module StreamSender {
  import opened Words
  import opened Common
  import opened Tx
  import opened Packages
  import opened Rx

  /** The frames of the first `full` slices of `sent`, all full and none of them final. */
  ghost predicate FullSlices(config: Config, origin: Coordinate, sent: seq<byte>, full: nat, frames: seq<seq<byte>>) {
    var m := MaxPayload(config);
    && |frames| == full
    && Off(m, full) <= |sent|
    && forall k: nat :: k < full ==> FullSlice(config, origin, sent, k, frames[k])
  }

  ghost predicate FullSlice(config: Config, origin: Coordinate, sent: seq<byte>, k: nat, frame: seq<byte>) {
    var m := MaxPayload(config);
    Off(m, k) + m <= |sent| && SliceFrame(config, origin, k, sent[Off(m, k)..Off(m, k) + m], false, frame)
  }

  /** Every full slice of `sent` is out and nothing else. */
  ghost predicate Unfinished(config: Config, origin: Coordinate, sent: seq<byte>, frames: seq<seq<byte>>) {
    FullSlices(config, origin, sent, |frames|, frames) &&
      |sent| < Off(MaxPayload(config), |frames|) + MaxPayload(config)
  }

  lemma FullSlicesGrow(config: Config, origin: Coordinate, sent: seq<byte>, more: seq<byte>, full: nat,
      frames: seq<seq<byte>>)
    requires FullSlices(config, origin, sent, full, frames)
    ensures FullSlices(config, origin, sent + more, full, frames)
  {
    hide SliceFrame, Off;
    var m := MaxPayload(config);
    forall k: nat | k < full
      ensures FullSlice(config, origin, sent + more, k, frames[k])
    {
      assert FullSlice(config, origin, sent, k, frames[k]);
      assert (sent + more)[Off(m, k)..Off(m, k) + m] == sent[Off(m, k)..Off(m, k) + m];
    }
  }

  lemma OneMoreFull(config: Config, origin: Coordinate, sent: seq<byte>, full: nat, frames: seq<seq<byte>>,
      frame: seq<byte>)
    requires FullSlices(config, origin, sent, full, frames)
    requires |sent| == Off(MaxPayload(config), full) + MaxPayload(config)
    requires SliceFrame(config, origin, full, sent[Off(MaxPayload(config), full)..], false, frame)
    ensures FullSlices(config, origin, sent, full + 1, frames + [frame])
  {
    hide SliceFrame, Off;
    var m := MaxPayload(config);
    OffSucc(m, full);
    assert sent[Off(m, full)..Off(m, full) + m] == sent[Off(m, full)..];
    assert FullSlice(config, origin, sent, full, frame);
    assert forall k: nat :: k < full ==> FullSlice(config, origin, sent, k, frames[k]);
  }

  /** Full slices and a final one make the eager segmentation. */
  lemma EagerDone(config: Config, origin: Coordinate, sent: seq<byte>, full: nat, frames: seq<seq<byte>>,
      frame: seq<byte>)
    requires MaxPayload(config) > 0
    requires FullSlices(config, origin, sent, full, frames)
    requires Off(MaxPayload(config), full) <= |sent| < Off(MaxPayload(config), full) + MaxPayload(config)
    requires SliceFrame(config, origin, full, sent[Off(MaxPayload(config), full)..], true, frame)
    ensures Segmented(config, origin, Eager(sent, MaxPayload(config)), frames + [frame])
  {
    hide SliceFrame, Off;
    var m := MaxPayload(config);
    OffDiv(m, full, |sent|);
    var p := Eager(sent, m);
    EagerWellFormed(sent, m);
    assert p.last == full;
    forall k: nat | k <= full
      ensures SliceFrame(config, origin, k, p.Payload(k), k == full, (frames + [frame])[k])
    {
      if k < full {
        assert FullSlice(config, origin, sent, k, frames[k]);
      } else {
        assert sent[Off(m, full)..Off(m, full) + p.Size(full)] == sent[Off(m, full)..];
      }
    }
  }

  /** The header and the payload of a frame cut from the front of a block are the block's. */
  lemma FrameParts(block: array<byte>, tu: nat, size: nat)
    requires HEADER_SIZE + size <= tu <= block.Length
    ensures block[..tu][..HEADER_SIZE] == block[..HEADER_SIZE]
    ensures block[..tu][HEADER_SIZE..HEADER_SIZE + size] == block[HEADER_SIZE..HEADER_SIZE + size]
  {
  }

  /** The cursor after slice `k` stands where slice `k + 1` starts, wrapped to 16 bits. */
  lemma CursorAfter(config: Config, origin: Coordinate, k: nat)
    ensures Advance(config, origin.(offset := U16(Off(MaxPayload(config), k)))) ==
            origin.(offset := U16(Off(MaxPayload(config), k + 1)))
  {
    hide Off;
    OffSucc(MaxPayload(config), k);
  }

  /** The block-filling sink: the tool's `push_cb` and the embedded encoder's `mp_tx_push_pipeline`, whose
      own counter is here `fill`. Data lands after the header's place; a header closes the block. */
  class BlockSink {
    const transmissionUnit: u16
    const block: array<byte>
    var fill: u16
    var wire: seq<seq<byte>>

    ghost predicate Valid() {
      ValidUnit(transmissionUnit) && block.Length >= transmissionUnit
    }

    constructor (transmissionUnit: u16)
      requires ValidUnit(transmissionUnit)
      ensures Valid() && fresh(block) && fill == 0 && wire == [] && this.transmissionUnit == transmissionUnit
    {
      this.transmissionUnit := transmissionUnit;
      block := new byte[4096];
      fill := 0;
      wire := [];
    }

    method Write(off: nat, data: seq<byte>)
      requires off + |data| <= block.Length
      modifies block
      ensures block[..] == Overwrite(old(block[..]), off, data)
    {
      forall i | 0 <= i < |data| {
        block[off + i] := data[i];
      }
    }

    /** No write passes the transmission unit. */
    method Push(header: Option<HeaderMeta>, data: seq<byte>)
      requires Valid() && HEADER_SIZE + fill + |data| <= transmissionUnit
      modifies this, block
      ensures block[HEADER_SIZE..HEADER_SIZE + old(fill) + |data|] == old(block[HEADER_SIZE..HEADER_SIZE + fill]) + data
      ensures block[HEADER_SIZE + old(fill) + |data|..block.Length] ==
              old(block[HEADER_SIZE + fill + |data|..block.Length])
      ensures match header
              case None =>
                fill == old(fill) + |data| && wire == old(wire) && block[..HEADER_SIZE] == old(block[..HEADER_SIZE])
              case Some(h) =>
                fill == 0 && |wire| == |old(wire)| + 1 && wire[..|old(wire)|] == old(wire) &&
                wire[|old(wire)|] == block[..transmissionUnit] && block[..HEADER_SIZE] == ToBytes(Pack(h))
    {
      hide ToBytes, Pack, Overwrite;
      ghost var before, tail := block[..], HEADER_SIZE + fill + |data|;
      ArraySlice(block, HEADER_SIZE, HEADER_SIZE + fill);
      ArraySlice(block, tail, block.Length);
      if data != [] {
        OverwriteBehind(before, HEADER_SIZE + fill, data, HEADER_SIZE);
        OverwriteTail(before, HEADER_SIZE + fill, data, tail);
        OverwriteHead(before, HEADER_SIZE + fill, data, HEADER_SIZE);
        Write(HEADER_SIZE + fill, data);
        fill := fill + |data|;
      }
      ArraySlice(block, HEADER_SIZE, HEADER_SIZE + fill);
      ArraySlice(block, tail, block.Length);
      if header.Some? {
        var packed := ToBytes(Pack(header.value));
        OverwriteFront(block[..], packed, HEADER_SIZE, HEADER_SIZE + fill);
        OverwriteTail(block[..], 0, packed, tail);
        Write(0, packed);
        ArraySlice(block, HEADER_SIZE, HEADER_SIZE + fill);
        ArraySlice(block, 0, HEADER_SIZE);
        ArraySlice(block, tail, block.Length);
        wire := wire + [block[..transmissionUnit]];
        fill := 0;
      }
    }
  }

  class TxStream {
    const config: Config
    const sink: BlockSink
    var cursor: Coordinate
    var fill: u16

    ghost var origin: Coordinate // where the package starts
    ghost var sent: seq<byte>    // what has been fed since
    ghost var full: nat          // full slices emitted since
    ghost var base: nat          // frames on the wire before that

    /** Between two statements of the feeding loop the current slice may just have become full. */
    ghost predicate Filling()
      reads this, sink, sink.block
    {
      var m := MaxPayload(config);
      && ValidUnit(config.transmissionUnit)
      && sink.Valid() && sink.transmissionUnit == config.transmissionUnit
      && fill == sink.fill <= m
      && |sent| == Off(m, full) + fill
      && cursor == origin.(offset := U16(Off(m, full)))
      && base <= |sink.wire|
      && FullSlices(config, origin, sent, full, sink.wire[base..])
      && sink.block[HEADER_SIZE..HEADER_SIZE + fill] == sent[Off(m, full)..]
    }

    /** Between calls: less than a slice is buffered, the sink agrees, and the cursor stands at the slice
        being filled. */
    ghost predicate Valid()
      reads this, sink, sink.block
    {
      Filling() && fill < MaxPayload(config)
    }

    constructor (config: Config, sink: BlockSink, coord: Coordinate)
      requires ValidUnit(config.transmissionUnit) && sink.Valid() && sink.transmissionUnit == config.transmissionUnit
      requires sink.fill == 0 && coord.offset == 0
      ensures Valid() && sent == [] && origin == coord && base == |sink.wire|
      ensures this.config == config && this.sink == sink
    {
      this.config := config;
      this.sink := sink;
      cursor := coord;
      fill := 0;
      origin := coord;
      sent := [];
      full := 0;
      base := |sink.wire|;
    }

    /** How far the package has come, in full slices and frames. */
    lemma Progress()
      requires Valid()
      ensures Unfinished(config, origin, sent, sink.wire[base..])
      ensures sent == [] ==> sink.wire == sink.wire[..base]
    {
      hide Off, SliceFrame;
      OffMono(MaxPayload(config), 0, full);
    }

    method AddData(chunk: seq<byte>)
      requires Filling() && fill + |chunk| <= MaxPayload(config)
      modifies this, sink, sink.block
      ensures Filling()
      ensures sent == old(sent) + chunk && fill == old(fill) + |chunk|
      ensures origin == old(origin) && base == old(base) && sink.wire == old(sink.wire)
    {
      hide Off, SliceFrame;
      FullSlicesGrow(config, origin, sent, chunk, full, sink.wire[base..]);
      sink.Push(None, chunk);
      fill := fill + |chunk|;
      sent := sent + chunk;
    }

    /** Closes the block as a slice of the package and advances the cursor. */
    method Emit(eop: bool)
      requires Filling()
      modifies this`cursor, this`fill, sink, sink.block
      ensures fill == sink.fill == 0
      ensures cursor == Advance(config, old(cursor))
      ensures |sink.wire| == |old(sink.wire)| + 1 && sink.wire[..|old(sink.wire)|] == old(sink.wire)
      ensures SliceFrame(config, origin, full, sent[Off(MaxPayload(config), full)..], eop, sink.wire[|old(sink.wire)|])
    {
      hide Off, ToBytes, Pack, FullSlices;
      ghost var payload := sent[Off(MaxPayload(config), full)..];
      ghost var wire := sink.wire;
      var slice := Prepare(config, cursor, fill, eop);
      sink.Push(Some(slice.header), []);
      ghost var frame := sink.wire[|wire|];
      FrameParts(sink.block, config.transmissionUnit, |payload|);
      cursor := slice.next;
      fill := 0;
    }

    method CloseSlice()
      requires Filling() && fill == MaxPayload(config)
      modifies this, sink, sink.block
      ensures Filling() && fill == 0
      ensures sent == old(sent) && origin == old(origin) && base == old(base)
      ensures old(sink.wire) <= sink.wire
    {
      hide Off, SliceFrame;
      ghost var wire := sink.wire;
      Emit(false);
      OneMoreFull(config, origin, sent, full, wire[base..], sink.wire[|wire|]);
      OffSucc(MaxPayload(config), full);
      CursorAfter(config, origin, full);
      assert sink.wire[base..] == wire[base..] + [sink.wire[|wire|]];
      full := full + 1;
    }

    /** Feeding data in any pieces appends it to the package and emits every slice that fills. */
    method Feed(data: seq<byte>)
      requires Valid() && |data| < 0x1_0000
      modifies this, sink, sink.block
      ensures Valid()
      ensures sent == old(sent) + data
      ensures origin == old(origin) && base == old(base) && old(sink.wire) <= sink.wire
    {
      hide Off, FullSlices, Filling;
      var maxP: u16 := MaxPayload(config);
      var off := 0;
      while off < |data|
        invariant Valid() && 0 <= off <= |data|
        invariant sent == old(sent) + data[..off]
        invariant origin == old(origin) && base == old(base) && old(sink.wire) <= sink.wire
      {
        var take := U16(|data| - off);
        var room := U16(maxP - fill);
        if take > room { take := room; }
        AddData(data[off..off + take]);
        SliceSplit(data, 0, off, off + take);
        off := off + take;
        if fill == maxP {
          CloseSlice();
        }
      }
    }

    /** The final slice completes the eager segmentation of everything fed. */
    method Finalize()
      requires Valid()
      modifies this`cursor, this`fill, sink, sink.block
      ensures base <= |old(sink.wire)| && old(sink.wire) <= sink.wire
      ensures Segmented(config, origin, Eager(sent, MaxPayload(config)), sink.wire[base..])
      ensures fill == sink.fill == 0
      ensures cursor == Advance(config, old(cursor))
    {
      hide Off, SliceFrame, Segmented;
      ghost var wire := sink.wire;
      Emit(true);
      EagerDone(config, origin, sent, full, wire[base..], sink.wire[|wire|]);
      assert sink.wire[base..] == wire[base..] + [sink.wire[|wire|]];
    }
  }

  /** No piece is longer than the 16-bit size the stream is fed with. */
  ghost predicate AllShort(chunks: seq<seq<byte>>) {
    forall i :: 0 <= i < |chunks| ==> |chunks[i]| < 0x1_0000
  }

  /** The tool: one package per invocation, read from the input in pieces of any size. */
  class ToolSender {
    const config: Config
    const sink: BlockSink
    var coord: Coordinate // kept in the session file between invocations

    ghost predicate Valid()
      reads this, sink
    {
      ValidUnit(config.transmissionUnit) && sink.Valid() && sink.transmissionUnit == config.transmissionUnit &&
      sink.fill == 0 && coord.offset == 0
    }

    constructor (transmissionUnit: u16)
      requires ValidUnit(transmissionUnit)
      ensures Valid() && fresh(sink) && fresh(sink.block)
      ensures config == Config.Config(transmissionUnit) && coord == Coordinate(0, 0, 0) && sink.wire == []
    {
      config := Config.Config(transmissionUnit);
      sink := new BlockSink(transmissionUnit);
      coord := Coordinate(0, 0, 0);
    }

    /** Whatever the pieces, which a read into a buffer of a 16-bit size keeps short, the frames written are the
        eager segmentation of the whole input. */
    method Transmit(chunks: seq<seq<byte>>, senderId: u16)
      requires Valid()
      requires AllShort(chunks)
      modifies this, sink, sink.block
      ensures Valid()
      ensures old(sink.wire) <= sink.wire
      ensures Segmented(config, Coordinate(U8(senderId), old(coord.packageId), 0),
                        Eager(Concat(chunks), MaxPayload(config)), sink.wire[|old(sink.wire)|..])
      ensures coord == Coordinate(U8(senderId), U8(old(coord.packageId) + 1), 0)
    {
      hide Off, Segmented, FullSlices;
      coord := coord.(senderId := U8(senderId));
      var stream := new TxStream(config, sink, coord);
      for i := 0 to |chunks|
        invariant fresh(stream) && stream.config == config && stream.sink == sink && stream.Valid()
        invariant stream.sent == Concat(chunks[..i])
        invariant stream.origin == coord && stream.base == |old(sink.wire)| && old(sink.wire) <= sink.wire
        invariant coord == Coordinate(U8(senderId), old(coord.packageId), 0)
      {
        stream.Feed(chunks[i]);
        assert chunks[..i + 1][..i] == chunks[..i];
      }
      assert chunks[..|chunks|] == chunks;
      stream.Finalize();
      coord := stream.cursor.(packageId := U8(stream.cursor.packageId + 1), offset := 0);
    }
  }

  // ----- pieces too long for the stream -----

  /** What of each piece the stream takes: its length is cast to 16 bits on the way. */
  function Taken(chunks: seq<seq<byte>>): (r: seq<seq<byte>>)
    ensures |r| == |chunks|
  {
    if chunks == [] then []
    else
      var chunk := chunks[|chunks| - 1];
      Taken(chunks[..|chunks| - 1]) + [chunk[..U16(|chunk|)]]
  }

  lemma TakenSnoc(chunks: seq<seq<byte>>, i: nat)
    requires i < |chunks|
    ensures Taken(chunks[..i + 1]) == Taken(chunks[..i]) + [chunks[i][..U16(|chunks[i]|)]]
    ensures Concat(Taken(chunks[..i + 1])) == Concat(Taken(chunks[..i])) + chunks[i][..U16(|chunks[i]|)]
    ensures Concat(chunks[..i + 1]) == Concat(chunks[..i]) + chunks[i]
    ensures i + 1 == |chunks| ==> chunks[..i + 1] == chunks
  {
    assert chunks[..i + 1][..i] == chunks[..i];
    ConcatSnoc(Taken(chunks[..i]), chunks[i][..U16(|chunks[i]|)]);
  }

  lemma AllShortSnoc(chunks: seq<seq<byte>>)
    requires chunks != []
    ensures var n := |chunks| - 1;
            AllShort(chunks) <==> AllShort(chunks[..n]) && |chunks[n]| < 0x1_0000
  {
    var n := |chunks| - 1;
    assert forall i :: 0 <= i < n ==> chunks[..n][i] == chunks[i];
  }

  lemma ChunkTaken(chunk: seq<byte>)
    ensures U16(|chunk|) <= |chunk|
    ensures U16(|chunk|) == |chunk| <==> |chunk| < 0x1_0000
    ensures |chunk| < 0x1_0000 ==> chunk[..U16(|chunk|)] == chunk
  {
  }

  /** The pieces are taken whole exactly when none is longer than 65535 bytes; otherwise bytes are missing. */
  lemma {:induction false} TakenWholeIff(chunks: seq<seq<byte>>)
    ensures |Concat(Taken(chunks))| <= |Concat(chunks)|
    ensures |Concat(Taken(chunks))| == |Concat(chunks)| <==> AllShort(chunks)
    ensures AllShort(chunks) ==> Taken(chunks) == chunks
  {
    if chunks != [] {
      var n := |chunks| - 1;
      TakenWholeIff(chunks[..n]);
      TakenSnoc(chunks, n);
      AllShortSnoc(chunks);
      ChunkTaken(chunks[n]);
      hide Concat, Taken, AllShort, U16;
      assert chunks == chunks[..n] + [chunks[n]];
    }
  }

  /** Missing bytes show in the frames. */
  lemma EagerIffTakenWhole(config: Config, origin: Coordinate, chunks: seq<seq<byte>>, frames: seq<seq<byte>>)
    requires ValidUnit(config.transmissionUnit)
    requires Segmented(config, origin, Eager(Concat(Taken(chunks)), MaxPayload(config)), frames)
    ensures Segmented(config, origin, Eager(Concat(chunks), MaxPayload(config)), frames) <==>
            AllShort(chunks)
  {
    hide Segmented, Taken, Concat, AllShort;
    TakenWholeIff(chunks);
    var whole, taken := Eager(Concat(chunks), MaxPayload(config)), Eager(Concat(Taken(chunks)), MaxPayload(config));
    if Segmented(config, origin, whole, frames) {
      SegmentedOnce(config, origin, whole, taken, frames);
    }
  }

  /** The embedded encoder: the message encoder writes in pieces of any size, or fails half way. */
  class EmbeddedEncoder {
    const config: Config
    const senderId: u8
    const sink: BlockSink

    ghost predicate Valid() {
      ValidUnit(config.transmissionUnit) && sink.Valid() && sink.transmissionUnit == config.transmissionUnit
    }

    constructor (transmissionUnit: u16, senderId: u8)
      requires ValidUnit(transmissionUnit)
      ensures Valid() && fresh(sink) && fresh(sink.block)
      ensures config == Config.Config(transmissionUnit) && this.senderId == senderId && sink.wire == []
    {
      config := Config.Config(transmissionUnit);
      this.senderId := senderId;
      sink := new BlockSink(transmissionUnit);
    }

    /** `chunks` is what the message encoder wrote and `ok` whether it succeeded. A message that encodes
        to nothing sends nothing; a failed encoding leaves its full slices without a final one. The frames are
        the eager segmentation of what the stream took, and that of the message exactly when no piece is longer
        than 65535 bytes. */
    method Encode(chunks: seq<seq<byte>>, ok: bool, packageSerial: u8)
      requires Valid()
      modifies sink, sink.block
      ensures old(sink.wire) <= sink.wire
      ensures ok && Concat(chunks) == [] ==> sink.wire == old(sink.wire)
      ensures var origin, m := Coordinate(senderId, packageSerial, 0), MaxPayload(config);
              ok && Concat(chunks) != [] ==>
                Segmented(config, origin, Eager(Concat(Taken(chunks)), m), sink.wire[|old(sink.wire)|..]) &&
                (Segmented(config, origin, Eager(Concat(chunks), m), sink.wire[|old(sink.wire)|..]) <==>
                  AllShort(chunks))
      ensures var origin := Coordinate(senderId, packageSerial, 0);
              !ok ==> Unfinished(config, origin, Concat(Taken(chunks)), sink.wire[|old(sink.wire)|..])
    {
      hide Off, Segmented, FullSlices, Unfinished, Taken, AllShort;
      sink.fill := 0;
      var stream := new TxStream(config, sink, Coordinate(senderId, packageSerial, 0));
      var bytesWritten := 0;
      assert Taken([]) == [] && chunks[..0] == [] by { TakenNothing(); }
      for i := 0 to |chunks|
        invariant fresh(stream) && stream.config == config && stream.sink == sink && stream.Valid()
        invariant stream.sent == Concat(Taken(chunks[..i])) && bytesWritten == |Concat(chunks[..i])|
        invariant stream.origin == Coordinate(senderId, packageSerial, 0)
        invariant stream.base == |old(sink.wire)| && old(sink.wire) <= sink.wire
      {
        stream.Feed(chunks[i][..U16(|chunks[i]|)]);
        bytesWritten := bytesWritten + |chunks[i]|;
        TakenSnoc(chunks, i);
      }
      assert chunks[..|chunks|] == chunks;
      stream.Progress();
      if bytesWritten == 0 {
        TakenWholeIff(chunks);
      }
      if ok && bytesWritten != 0 {
        stream.Finalize();
        EagerIffTakenWhole(config, stream.origin, chunks, sink.wire[stream.base..]);
      }
    }
  }

  lemma TakenNothing()
    ensures Taken([]) == []
  {
  }
}
