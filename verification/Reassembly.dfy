/** One reassembly slot: the step's state, a grow-only payload buffer that is never cleared, and the
    packages the slot hands out. Over honest frames a slot is a machine on sets of slice numbers. */
module Reassembly {
  import opened Words
  import opened Common
  import opened Bitmap
  import opened Packages
  import opened Rx
  import opened ClosedForm
  import opened Watermark
  import opened Wrapping

  /** The two implementations of the slot table differ in one thing: the C++ one does not touch the
      buffer for an empty payload. */
  datatype Binding = CSharp | Cpp

  datatype Slot = Slot(state: State, payload: seq<byte>, gen: u8)

  const FRESH_SLOT := Slot(ZERO_STATE, [], 0)

  /** What one frame causes: nothing visible, a delivered package, a read past the stored bytes (an
      exception in C#, the assertion in C++), or a watermark scan that never ends. Behind either of the last two
      the receiver is gone, and every later frame is lost. */
  datatype Outcome = Quiet | Delivered(msg: seq<byte>) | Overrun | Hangs | Lost {

    predicate Fatal() {
      Overrun? || Hangs? || Lost?
    }
  }

  /** The receiver no longer takes frames. */
  predicate Stopped(outcomes: seq<Outcome>) {
    outcomes != [] && outcomes[|outcomes| - 1].Fatal()
  }

  // ----- the buffer -----

  function Resize(buf: seq<byte>, needed: nat): (r: seq<byte>)
    ensures |r| == Max(|buf|, needed)
    ensures forall i :: |buf| <= i < |r| ==> r[i] == 0
  {
    if |buf| < needed then buf + seq(needed - |buf|, _ => 0) else buf
  }

  function Store(b: Binding, buf: seq<byte>, off: nat, data: seq<byte>): seq<byte> {
    if b.Cpp? && data == [] then buf
    else Overwrite(Resize(buf, off + |data|), off, data)
  }

  /** Storing into a buffer of fixed size; an empty payload touches nothing, wherever it would go. */
  function Place(buf: seq<byte>, off: nat, data: seq<byte>): (r: seq<byte>)
    requires data != [] ==> off + |data| <= |buf|
    ensures |r| == |buf|
  {
    if data == [] then buf else Overwrite(buf, off, data)
  }

  /** The bytes of the slices in `s` are in place; nothing is said about the others. */
  ghost predicate Holds(p: Package, s: set<nat>, buf: seq<byte>)
    requires p.m > 0
  {
    forall i: nat :: i < |p.msg| && SliceOf(p, i) in s ==> i < |buf| && buf[i] == p.msg[i]
  }

  function SliceOf(p: Package, i: nat): nat
    requires p.m > 0
  {
    i / p.m
  }

  // ----- one frame -----

  /** The size announced, clipped to what the frame holds, which the C# code first casts to 16 bits. */
  function PayloadSize(b: Binding, header: HeaderMeta, frame: seq<byte>): (n: u16)
    requires |frame| >= HEADER_SIZE
    ensures HEADER_SIZE + n <= |frame|
  {
    var held := |frame| - HEADER_SIZE;
    Min(header.slicePayloadSize, if b.CSharp? then U16(held) else held)
  }

  function FramePayload(b: Binding, header: HeaderMeta, frame: seq<byte>): seq<byte>
    requires |frame| >= HEADER_SIZE
  {
    frame[HEADER_SIZE..HEADER_SIZE + PayloadSize(b, header, frame)]
  }

  function Receive(b: Binding, slot: Slot, maxPayload: u16, header: HeaderMeta, frame: seq<byte>): (Slot, Outcome)
    requires maxPayload > 0 && |frame| >= HEADER_SIZE
  {
    match Step(slot.state, header.sliceSerial, PayloadSize(b, header, frame), maxPayload, header.eop != 0)
    case None => (slot, Hangs)
    case Some(Inst(e, next)) =>
      if e == Duplicate then (slot, Quiet)
      else
        var offset := SliceIdxToOffset(header.sliceSerial, maxPayload);
        var payload := Store(b, slot.payload, offset, FramePayload(b, header, frame));
        if e != Complete then (slot.(state := next, payload := payload), Quiet)
        else if next.termination > |payload| then (slot.(state := next, payload := payload), Overrun)
        else (slot.(state := ZERO_STATE, payload := payload), Delivered(payload[..next.termination]))
  }

  /** The first copy of a slice stands: a frame whose slice has been seen in this cycle, whatever it carries, leaves
      the slot as it is. */
  lemma RepeatIsInert(b: Binding, slot: Slot, maxPayload: u16, header: HeaderMeta, frame: seq<byte>)
    requires maxPayload > 0 && |frame| >= HEADER_SIZE && TestBit(slot.state.bitmap, header.sliceSerial)
    ensures Receive(b, slot, maxPayload, header, frame) == (slot, Quiet)
  {
    hide TestBit, Store;
  }

  // ----- the machine on sets -----

  /** Slice `k` completes the package. */
  predicate Fires(p: Package, s: set<nat>, k: nat) {
    s + {k} == All(p)
  }

  /** The slices collected in the current cycle after slice `k`; completion starts a new cycle. */
  function Collect(p: Package, s: set<nat>, k: nat): set<nat> {
    if Fires(p, s, k) then {} else s + {k}
  }

  function OutcomeOf(p: Package, s: set<nat>, k: nat): Outcome {
    if Fires(p, s, k) then Delivered(p.msg) else Quiet
  }

  /** The slot is in the middle of collecting package `p` and has `s` so far. */
  ghost predicate Collecting(p: Package, s: set<nat>, slot: Slot) {
    && p.Short()
    && Partial(p, s)
    && Closed(p, s, slot.state)
    && Holds(p, s, slot.payload)
  }

  lemma CollectPartial(p: Package, s: set<nat>, k: nat)
    requires Partial(p, s) && k <= p.last
    ensures Partial(p, Collect(p, s, k))
  {
    BelowFacts(p.last + 1);
    assert p.last in All(p);
  }

  /** Nothing received yet: any buffer contents will do. */
  lemma StartsCollecting(p: Package, slot: Slot)
    requires p.Short() && slot.state == ZERO_STATE
    ensures Collecting(p, {}, slot)
  {
    NothingReceived(p);
  }

  /** Storing slice `k` puts its bytes in place and moves no other byte of the message. */
  lemma StoreHolds(b: Binding, p: Package, s: set<nat>, buf: seq<byte>, k: nat)
    requires p.Short() && k <= p.last && Holds(p, s, buf)
    ensures Holds(p, s + {k}, Store(b, buf, Off(p.m, k), p.Payload(k)))
  {
    hide Off, SliceOf;
    var off, data := Off(p.m, k), p.Payload(k);
    var r := Store(b, buf, off, data);
    StartsInside(p, k);
    StoredBytes(b, buf, off, data);
    forall i: nat | i < |p.msg| && SliceOf(p, i) in s + {k}
      ensures i < |r| && r[i] == p.msg[i]
    {
      StoredByte(p, k, i);
      if off <= i < off + |data| {
        assert data[i - off] == p.msg[i];
      } else {
        assert i < |buf| && buf[i] == p.msg[i];
      }
    }
  }

  lemma StoredBytes(b: Binding, buf: seq<byte>, off: nat, data: seq<byte>)
    ensures var r := Store(b, buf, off, data);
            |r| >= |buf| && (data != [] ==> |r| >= off + |data|) &&
            (forall i: nat :: off <= i < off + |data| ==> r[i] == data[i - off]) &&
            (forall i: nat :: i < |buf| && !(off <= i < off + |data|) ==> r[i] == buf[i])
  {
  }

  lemma StoredByte(p: Package, k: nat, i: nat)
    requires p.Short() && k <= p.last && i < |p.msg|
    ensures SliceOf(p, i) == k <==> Off(p.m, k) <= i < Off(p.m, k) + p.Size(k)
  {
    OffDiv(p.m, k, i);
    OffMono(p.m, k, p.last);
  }

  lemma ByteInSomeSlice(p: Package, i: nat)
    requires p.Short() && i < |p.msg|
    ensures SliceOf(p, i) in All(p)
  {
    hide Off;
    BelowFacts(p.last + 1);
    OffDiv(p.m, SliceOf(p, i), i);
    if SliceOf(p, i) > p.last {
      OffMono(p.m, p.last, SliceOf(p, i));
    }
  }

  /** When every slice is in place the buffer starts with the message. */
  lemma FullHolds(p: Package, buf: seq<byte>)
    requires p.Short() && Holds(p, All(p), buf)
    ensures |buf| >= |p.msg| && buf[..|p.msg|] == p.msg
  {
    forall i: nat | i < |p.msg|
      ensures i < |buf| && buf[i] == p.msg[i]
    {
      ByteInSomeSlice(p, i);
    }
    ByteInSomeSlice(p, |p.msg| - 1);
  }

  /** A frame cut on the way is taken as if it had announced no more than it holds. Cut off inside its payload, it
      ends the package there. */
  lemma CutFrameIsShort(b: Binding, slot: Slot, maxPayload: u16, header: HeaderMeta, frame: seq<byte>)
    requires maxPayload > 0 && HEADER_SIZE <= |frame| < HEADER_SIZE + header.slicePayloadSize
    ensures FramePayload(b, header, frame) == frame[HEADER_SIZE..]
    ensures Receive(b, slot, maxPayload, header, frame) ==
            Receive(b, slot, maxPayload, header.(slicePayloadSize := |frame| - HEADER_SIZE), frame)
    ensures HEADER_SIZE < |frame| < HEADER_SIZE + maxPayload ==>
            Receive(b, slot, maxPayload, header, frame) == Receive(b, slot, maxPayload, header.(eop := 1), frame)
  {
    hide Step, Store, SliceIdxToOffset;
    if HEADER_SIZE < |frame| < HEADER_SIZE + maxPayload {
      ShortSliceEnds(slot.state, header.sliceSerial, |frame| - HEADER_SIZE, maxPayload);
    }
  }

  /** On a new slice that is not full the flag makes no difference, exactly unless the slice is empty: without
      the flag an empty slice is counted as data. */
  lemma FlagMattersIffEmpty(st: State, k: u8, size: u16, m: u16)
    requires size < m && !TestBit(st.bitmap, k)
    ensures Step(st, k, size, m, false) == Step(st, k, size, m, true) <==>
            size > 0 || Step(st, k, size, m, false) == None
  {
    hide TestBit, SetBit, CalcTermination, IsComplete, SliceIdxToOffset, Scan;
    if size == 0 {
      ScanIgnoresCount(Record(st, k, 0, m, false), Record(st, k, 0, m, true), st.watermark, m, OFFSETS);
    }
  }

  lemma {:induction false} ScanIgnoresCount(a: State, b: State, wm: u16, m: u16, fuel: nat)
    requires m > 0 && a.bitmap == b.bitmap && a.termination == b.termination
    ensures Scan(a, wm, m, fuel) == Scan(b, wm, m, fuel)
    decreases fuel
  {
    if fuel > 0 {
      ScanIgnoresCount(a, b, U16(wm + m), m, fuel - 1);
    }
  }

  /** The step of a slot on an honest frame, reduced to the slice it carries. */
  lemma HonestStep(b: Binding, p: Package, slot: Slot, senderId: u8, packageId: u8, k: nat, frame: seq<byte>)
    requires p.Short() && Honest(p, senderId, packageId, k, frame)
    ensures var header := ReadHeader(frame);
            Step(slot.state, header.sliceSerial, PayloadSize(b, header, frame), p.m, header.eop != 0) ==
              SliceStep(p, slot.state, k)
    ensures FramePayload(b, ReadHeader(frame), frame) == p.Payload(k)
    ensures SliceIdxToOffset(ReadHeader(frame).sliceSerial, p.m) == Off(p.m, k)
  {
    hide ReadHeader, Step, Off;
    StartsInside(p, k);
    SlotOffset(k, p.m);
    WholeSize(b, ReadHeader(frame), frame, p.m);
    if 0 < p.Size(k) < p.m {
      ShortSliceEnds(slot.state, k, p.Size(k), p.m);
    }
  }

  /** A frame of one unit holds any payload its header may announce. */
  lemma WholeSize(b: Binding, header: HeaderMeta, frame: seq<byte>, m: u16)
    requires |frame| == m + HEADER_SIZE && header.slicePayloadSize <= m
    ensures PayloadSize(b, header, frame) == header.slicePayloadSize
  {
  }

  /** A slice that is neither full nor empty ends the package, with or without the flag. */
  lemma ShortSliceEnds(st: State, k: u8, size: u16, m: u16)
    requires 0 < size < m
    ensures Step(st, k, size, m, false) == Step(st, k, size, m, true)
  {
    if !TestBit(st.bitmap, k) {
      FlagMattersIffEmpty(st, k, size, m);
    }
    hide TestBit, SetBit, CalcTermination, AdvancedWatermark, IsComplete, SliceIdxToOffset;
  }

  /** A slot fed an honest frame does exactly what the set machine does, whatever the buffer held
      before and whatever the padding is. */
  lemma ReceiveHonest(b: Binding, p: Package, s: set<nat>, slot: Slot, senderId: u8, packageId: u8, k: nat,
      frame: seq<byte>)
    requires Collecting(p, s, slot) && (p.Addressable() || !Fires(p, s, k))
    requires Honest(p, senderId, packageId, k, frame)
    ensures var (slot', outcome) := Receive(b, slot, p.m, ReadHeader(frame), frame);
            Collecting(p, Collect(p, s, k), slot') && slot'.gen == slot.gen && outcome == OutcomeOf(p, s, k)
  {
    hide ReadHeader, Step, Closed, Holds, Off, Store;
    HonestStep(b, p, slot, senderId, packageId, k, frame);
    StepHonest(p, s, slot.state, k);
    CollectPartial(p, s, k);
    StoreHolds(b, p, s, slot.payload, k);
    var payload := Store(b, slot.payload, Off(p.m, k), p.Payload(k));
    if k in s {
      assert s + {k} == s;
    } else if Fires(p, s, k) {
      FullHolds(p, payload);
      FiringState(p, s + {k}, SliceStep(p, slot.state, k).value.next);
      StartsCollecting(p, slot.(state := ZERO_STATE, payload := payload));
    }
  }

  /** The slice that completes a package past the address space makes the slot hang. */
  lemma ReceiveHangs(b: Binding, p: Package, s: set<nat>, slot: Slot, senderId: u8, packageId: u8, k: nat,
      frame: seq<byte>)
    requires Collecting(p, s, slot) && Fires(p, s, k) && !p.Addressable()
    requires Honest(p, senderId, packageId, k, frame)
    ensures Receive(b, slot, p.m, ReadHeader(frame), frame) == (slot, Hangs)
  {
    hide ReadHeader, Step, Closed, Holds, Off, Store;
    HonestStep(b, p, slot, senderId, packageId, k, frame);
    StepFailsIffNotAddressable(p, s, slot.state, k);
  }

  lemma FiringState(p: Package, s: set<nat>, st: State)
    requires Closed(p, s, st) && s == All(p)
    ensures st.termination == |p.msg|
  {
    BelowFacts(p.last + 1);
  }
}
