/** Frames no sender makes: what the slots do with them, and what it takes. */
module Malformed {
  import opened Words
  import opened Common
  import opened Bitmap
  import opened Rx
  import opened Wrapping
  import opened Reassembly
  import opened Runs

  // ----- the C++ slot -----

  predicate Completes(b: Binding, s: State, header: HeaderMeta, frame: seq<byte>, maxPayload: u16)
    requires maxPayload > 0 && |frame| >= HEADER_SIZE
  {
    var r := Step(s, header.sliceSerial, PayloadSize(b, header, frame), maxPayload, header.eop != 0);
    r.Some? && r.value.e == Complete
  }

  /** The C++ slot, which stores nothing for an empty payload, reads past its buffer exactly when a frame
      completes a package and either ends it itself, empty and behind everything stored, or the end recorded
      before lies behind everything stored with this frame. */
  lemma CppOverrunIff(slot: Slot, maxPayload: u16, header: HeaderMeta, frame: seq<byte>)
    requires maxPayload > 0 && |frame| >= HEADER_SIZE
    ensures var size, off := PayloadSize(Cpp, header, frame), SliceIdxToOffset(header.sliceSerial, maxPayload);
            Receive(Cpp, slot, maxPayload, header, frame).1 == Overrun <==>
            Completes(Cpp, slot.state, header, frame, maxPayload) &&
            if size < maxPayload || header.eop != 0 then size == 0 && off > |slot.payload|
            else slot.state.termination > Max(|slot.payload|, off + size)
  {
    hide TestBit, SetBit, AdvancedWatermark, IsComplete, SliceIdxToOffset;
  }

  lemma ScanOneStep(s: State, wm: u16, m: u16, fuel: nat)
    requires 0 < m && 0 < fuel && !Stops(s, wm, m) && Stops(s, U16(wm + m), m)
    ensures Scan(s, wm, m, fuel) == Some(Clamp(s, U16(wm + m)))
  {
    hide Stops, Clamp;
  }

  lemma FirstIndices(m: u16)
    requires 0 < m
    ensures OffsetToSliceIdx(0, m) == 0 && OffsetToSliceIdx(m, m) == 1
  {
    DivModUnique(1, m, 0);
  }

  lemma ScanOneSlice(b: Bits, m: u16, fuel: nat)
    requires 0 < m && 0 < fuel && TestBit(b, 0) && !TestBit(b, 1)
    ensures Scan(State(b, 1, 0, 0), 0, m, fuel) == Some(m)
  {
    hide TestBit, OffsetToSliceIdx, Scan;
    FirstIndices(m);
    ScanOneStep(State(b, 1, 0, 0), 0, m, fuel);
  }

  lemma OneFrame(b: Binding, slot: Slot, m: u16, frame: seq<byte>)
    requires m > 0 && |frame| >= HEADER_SIZE
    ensures var (after, outcome) := Receive(b, slot, m, ReadHeader(frame), frame);
            SlotRun(b, slot, m, [frame]) == (after, [outcome])
  {
    hide Receive, ReadHeader, SlotRun;
    SlotRunOfNothing(b, slot, m, []);
    SlotRunSnoc(b, slot, m, [], frame);
    var outcome := Receive(b, slot, m, ReadHeader(frame), frame).1;
    assert [] + [frame] == [frame] && [] + [outcome] == [outcome];
  }

  lemma TwoFrames(b: Binding, slot: Slot, m: u16, frames: seq<seq<byte>>)
    requires m > 0 && |frames| == 2 && HaveHeaders(frames)
    requires Receive(b, slot, m, ReadHeader(frames[0]), frames[0]).1 == Quiet
    ensures var mid := Receive(b, slot, m, ReadHeader(frames[0]), frames[0]).0;
            SlotRun(b, slot, m, frames).1 == [Quiet, Receive(b, mid, m, ReadHeader(frames[1]), frames[1]).1]
  {
    hide Receive, ReadHeader, SlotRun;
    OneFrame(b, slot, m, frames[0]);
    SlotRunSnoc(b, slot, m, [frames[0]], frames[1]);
    assert frames == [frames[0]] + [frames[1]];
  }

  lemma FirstEmptySlice(m: u16)
    requires 0 < m
    ensures Step(ZERO_STATE, 0, 0, m, false) == Some(Inst(InOrder, State(SetBit(EMPTY_BITS, 0), 1, 0, m)))
  {
    hide TestBit, SetBit, Scan;
    EmptyRepresents();
    SetThenTest(EMPTY_BITS, 0, 0);
    SetThenTest(EMPTY_BITS, 0, 1);
    ScanOneSlice(SetBit(EMPTY_BITS, 0), m, OFFSETS);
    assert AdvancedWatermark(State(SetBit(EMPTY_BITS, 0), 1, 0, 0), m) == Some(m);
  }

  lemma OneSliceIsEnough(s: State, m: u16)
    requires 0 < m == s.termination == s.watermark && s.receivedCount == 2
    ensures AdvancedWatermark(s, m) == Some(m) && IsComplete(s, m)
  {
    hide TestBit;
    DivModUnique(1, m, m - 1);
  }

  lemma SecondEmptySlice(b: Bits, m: u16)
    requires 0 < m && !TestBit(b, 1)
    ensures var r := Step(State(b, 1, 0, m), 1, 0, m, false);
            r.Some? && r.value.e == Complete && r.value.next.termination == m
  {
    hide TestBit, SetBit, AdvancedWatermark, IsComplete;
    OneSliceIsEnough(State(SetBit(b, 1), 2, m, m), m);
  }

  /** It does happen on frames no sender makes: slices 0 and 1, both empty and neither final. */
  lemma EmptySlicesOverrun(m: u16, senderId: u8, packageId: u8, frames: seq<seq<byte>>)
    requires m > 0 && |frames| == 2 && HaveHeaders(frames)
    requires forall k :: 0 <= k < 2 ==> ReadHeader(frames[k]) == HeaderMeta(packageId, k, senderId, 0, 0)
    ensures SlotRun(Cpp, FRESH_SLOT, m, frames).1 == [Quiet, Overrun]
  {
    hide Step, SetBit, TestBit, ReadHeader;
    FirstEmptySlice(m);
    SetThenTest(EMPTY_BITS, 0, 1);
    EmptyRepresents();
    SecondEmptySlice(SetBit(EMPTY_BITS, 0), m);
    var slot := Slot(State(SetBit(EMPTY_BITS, 0), 1, 0, m), [], 0);
    assert Receive(Cpp, FRESH_SLOT, m, ReadHeader(frames[0]), frames[0]) == (slot, Quiet);
    assert Receive(Cpp, slot, m, ReadHeader(frames[1]), frames[1]).1 == Overrun;
    TwoFrames(Cpp, FRESH_SLOT, m, frames);
  }

  // ----- a lost end flag -----

  /** Slice 2 arrives empty and without the flag: it is counted as data and ends the package at two slots. */
  lemma UnflaggedTerminator(m: u16)
    requires 0 < m && 2 * m < 0x1_0000
    ensures Step(ZERO_STATE, 2, 0, m, false) == Some(Inst(OutOfOrder, State(SetBit(EMPTY_BITS, 2), 1, 2 * m, 0)))
  {
    hide TestBit, SetBit, AdvancedWatermark, IsComplete;
    EmptyRepresents();
  }

  lemma TwoSlicesAreEnough(s: State, m: u16)
    requires 0 < m && 2 * m < 0x1_0000 && s.receivedCount == 2 && s.termination == 2 * m
    ensures IsComplete(s, m)
  {
    DivModUnique(2, m, m - 1);
  }

  lemma ScanToSecond(s: State, m: u16, fuel: nat)
    requires 0 < m && 2 * m < 0x1_0000 && 0 < fuel
    requires s.termination == 2 * m && TestBit(s.bitmap, 0) && !TestBit(s.bitmap, 1)
    ensures Scan(s, 0, m, fuel) == Some(m)
  {
    hide TestBit, OffsetToSliceIdx, Scan;
    FirstIndices(m);
    ScanOneStep(s, 0, m, fuel);
  }

  /** Then slice 0 completes the package, although slice 1 is missing. */
  lemma FirstSliceCompletes(b: Bits, m: u16)
    requires 0 < m && 2 * m < 0x1_0000 && !TestBit(b, 0) && !TestBit(b, 1)
    ensures Step(State(b, 1, 2 * m, 0), 0, m, m, false) == Some(Inst(Complete, State(SetBit(b, 0), 2, 2 * m, m)))
  {
    hide TestBit, SetBit, Scan, IsComplete;
    SetThenTest(b, 0, 0);
    SetThenTest(b, 0, 1);
    ScanToSecond(State(SetBit(b, 0), 2, 2 * m, 0), m, OFFSETS);
    TwoSlicesAreEnough(State(SetBit(b, 0), 2, 2 * m, m), m);
  }

  /** The terminator of a message of two full slots loses its flag. With slice 0 the package completes: the C#
      slot hands out whatever its buffer holds in place of slice 1, and so does the C++ slot unless its buffer
      is too short. */
  lemma LostFlagLosesASlice(b: Binding, slot: Slot, m: u16, senderId: u8, packageId: u8, frames: seq<seq<byte>>)
    requires 0 < m && 2 * m < 0x1_0000 && slot.state == ZERO_STATE && |frames| == 2 && HaveHeaders(frames)
    requires ReadHeader(frames[0]) == HeaderMeta(packageId, 2, senderId, 0, 0)
    requires ReadHeader(frames[1]) == HeaderMeta(packageId, 0, senderId, 0, m) && |frames[1]| == m + HEADER_SIZE
    ensures var held := if b.CSharp? then Resize(slot.payload, 2 * m) else slot.payload;
            SlotRun(b, slot, m, frames).1 ==
              [Quiet, if |held| < 2 * m then Overrun else Delivered(frames[1][HEADER_SIZE..] + held[m..2 * m])]
  {
    hide Step, SetBit, TestBit, ReadHeader, SlotRun, Receive, Resize;
    var held := if b.CSharp? then Resize(slot.payload, 2 * m) else slot.payload;
    FirstFrame(b, slot, m, ReadHeader(frames[0]), frames[0]);
    OthersClear();
    FirstSliceCompletes(SetBit(EMPTY_BITS, 2), m);
    var mid := Slot(State(SetBit(EMPTY_BITS, 2), 1, 2 * m, 0), held, slot.gen);
    SecondFrame(b, mid, SetBit(EMPTY_BITS, 2), m, ReadHeader(frames[1]), frames[1]);
    TwoFrames(b, slot, m, frames);
  }

  lemma OthersClear()
    ensures !TestBit(SetBit(EMPTY_BITS, 2), 0) && !TestBit(SetBit(EMPTY_BITS, 2), 1)
  {
    hide TestBit, SetBit;
    EmptyRepresents();
    SetThenTest(EMPTY_BITS, 2, 0);
    SetThenTest(EMPTY_BITS, 2, 1);
  }

  lemma StoreAtFront(b: Binding, buf: seq<byte>, data: seq<byte>)
    requires data != []
    ensures Store(b, buf, 0, data) == data + if |buf| > |data| then buf[|data|..] else []
  {
  }

  lemma FirstFrame(b: Binding, slot: Slot, m: u16, header: HeaderMeta, frame: seq<byte>)
    requires 0 < m && 2 * m < 0x1_0000 && |frame| >= HEADER_SIZE
    requires header.sliceSerial == 2 && header.slicePayloadSize == 0 && header.eop == 0 && slot.state == ZERO_STATE
    ensures var held := if b.CSharp? then Resize(slot.payload, 2 * m) else slot.payload;
            Receive(b, slot, m, header, frame) ==
              (Slot(State(SetBit(EMPTY_BITS, 2), 1, 2 * m, 0), held, slot.gen), Quiet)
  {
    hide Step, SetBit;
    UnflaggedTerminator(m);
    assert FramePayload(b, header, frame) == [];
    StoreNothing(b, slot.payload, 2 * m);
    hide Store, FramePayload, Resize;
  }

  lemma StoreNothing(b: Binding, buf: seq<byte>, off: nat)
    ensures Store(b, buf, off, []) == if b.CSharp? then Resize(buf, off) else buf
  {
  }

  lemma SecondFrame(b: Binding, slot: Slot, bits: Bits, m: u16, header: HeaderMeta, frame: seq<byte>)
    requires 0 < m && 2 * m < 0x1_0000 && |frame| == m + HEADER_SIZE
    requires header.sliceSerial == 0 && header.slicePayloadSize == m && header.eop == 0
    requires slot.state == State(bits, 1, 2 * m, 0) && (b.CSharp? ==> |slot.payload| >= 2 * m)
    requires Step(slot.state, 0, m, m, false) == Some(Inst(Complete, State(SetBit(bits, 0), 2, 2 * m, m)))
    ensures Receive(b, slot, m, header, frame).1 ==
            if |slot.payload| < 2 * m then Overrun else Delivered(frame[HEADER_SIZE..] + slot.payload[m..2 * m])
  {
    hide Step, SetBit;
    WholeSize(b, header, frame, m);
    assert FramePayload(b, header, frame) == frame[HEADER_SIZE..];
    StoreAtFront(b, slot.payload, frame[HEADER_SIZE..]);
    hide Store, FramePayload, PayloadSize;
    var payload := Store(b, slot.payload, 0, frame[HEADER_SIZE..]);
    if |slot.payload| >= 2 * m {
      assert payload[..2 * m] == frame[HEADER_SIZE..] + slot.payload[m..2 * m];
    }
  }
}
