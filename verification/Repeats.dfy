/** The first copy of a slice stands. Over frames of any content, what arrives again for a slice already seen in the
    current cycle changes nothing, and what is delivered for a slice are the bytes that came first. */
module Repeats {
  import opened Words
  import opened Common
  import opened Bitmap
  import opened Packages
  import opened Rx
  import opened Wrapping
  import opened Reassembly
  import opened Runs
  import opened SlotTable
  import opened Isolation
  import opened ToolReceiver
  import opened EmbeddedDecoder

  // ----- which slices have come, without looking at any state -----

  /** What came first for each slice. */
  type Copies = map<nat, seq<byte>>

  function Number(frame: seq<byte>): u8
    requires |frame| >= HEADER_SIZE
  {
    ReadHeader(frame).sliceSerial
  }

  function WithCopy(b: Binding, c: Copies, frame: seq<byte>): Copies
    requires |frame| >= HEADER_SIZE
  {
    if Number(frame) as nat in c then c else c[Number(frame) as nat := FramePayload(b, ReadHeader(frame), frame)]
  }

  /** The first copies since the last delivery. Frames without a header do not count. */
  function FirstCopies(b: Binding, frames: seq<seq<byte>>, outcomes: seq<Outcome>): Copies
    requires |outcomes| == |frames|
  {
    if frames == [] then map[]
    else
      var j := |frames| - 1;
      var before := FirstCopies(b, frames[..j], outcomes[..j]);
      if |frames[j]| < HEADER_SIZE then before
      else if outcomes[j].Delivered? then map[]
      else WithCopy(b, before, frames[j])
  }

  lemma FirstCopiesSnoc(b: Binding, frames: seq<seq<byte>>, outcomes: seq<Outcome>, frame: seq<byte>, outcome: Outcome)
    requires |outcomes| == |frames|
    ensures FirstCopies(b, frames + [frame], outcomes + [outcome]) ==
            if |frame| < HEADER_SIZE then FirstCopies(b, frames, outcomes)
            else if outcome.Delivered? then map[] else WithCopy(b, FirstCopies(b, frames, outcomes), frame)
  {
    assert (frames + [frame])[..|frames|] == frames && (outcomes + [outcome])[..|outcomes|] == outcomes;
  }

  // ----- one slot: the bitmap -----

  lemma SeenStep(b: Binding, slot: Slot, m: u16, frame: seq<byte>, c: Copies)
    requires m > 0 && |frame| >= HEADER_SIZE && Represents(slot.state.bitmap, c.Keys)
    requires !Receive(b, slot, m, ReadHeader(frame), frame).1.Fatal()
    ensures var (slot', outcome) := Receive(b, slot, m, ReadHeader(frame), frame);
            Represents(slot'.state.bitmap, if outcome.Delivered? then {} else WithCopy(b, c, frame).Keys)
  {
    hide ReadHeader, Represents, TestBit, SetBit, Store, Step, FramePayload;
    var h := ReadHeader(frame);
    EmptyRepresents();
    Bit(slot.state.bitmap, c.Keys, h.sliceSerial);
    if TestBit(slot.state.bitmap, h.sliceSerial) {
      RepeatIsInert(b, slot, m, h, frame);
    } else {
      StepFields(slot.state, Piece(h.sliceSerial, PayloadSize(b, h, frame), h.eop != 0), m);
      NewIsNoDuplicate(slot.state, h.sliceSerial, PayloadSize(b, h, frame), m, h.eop != 0);
      InsertRepresents(slot.state.bitmap, c.Keys, h.sliceSerial);
      assert WithCopy(b, c, frame).Keys == c.Keys + {h.sliceSerial as nat};
    }
  }

  lemma Bit(bits: Bits, s: set<nat>, id: u8)
    requires Represents(bits, s)
    ensures TestBit(bits, id) <==> id in s
  {
    hide TestBit;
  }

  lemma NewIsNoDuplicate(st: State, id: u8, size: u16, m: u16, eop: bool)
    requires m > 0 && !TestBit(st.bitmap, id)
    ensures Step(st, id, size, m, eop).Some? ==> Step(st, id, size, m, eop).value.e != Duplicate
  {
    hide TestBit, SetBit, AdvancedWatermark, IsComplete;
  }

  /** The bitmap is exactly the set of slices that have come since the last delivery. */
  lemma {:induction false} BitmapIsFirstCopies(b: Binding, slot: Slot, m: u16, frames: seq<seq<byte>>)
    requires m > 0 && slot.state == ZERO_STATE && HaveHeaders(frames) && !Stopped(SlotRun(b, slot, m, frames).1)
    ensures var (end, outcomes) := SlotRun(b, slot, m, frames);
            Represents(end.state.bitmap, FirstCopies(b, frames, outcomes).Keys)
  {
    hide Receive, ReadHeader, Represents, FirstCopies;
    if frames == [] {
      NothingSeen(b, slot, m, frames);
    } else {
      var j := |frames| - 1;
      var before, frame := frames[..j], frames[j];
      assert frames == before + [frame];
      SlotRunSnoc(b, slot, m, before, frame);
      hide SlotRun;
      BitmapIsFirstCopies(b, slot, m, before);
      var (mid, outcomes) := SlotRun(b, slot, m, before);
      var nothing: Copies := map[];
      assert nothing.Keys == {};
      SeenStep(b, mid, m, frame, FirstCopies(b, before, outcomes));
      FirstCopiesSnoc(b, before, outcomes, frame, Receive(b, mid, m, ReadHeader(frame), frame).1);
    }
  }

  lemma NothingSeen(b: Binding, slot: Slot, m: u16, frames: seq<seq<byte>>)
    requires m > 0 && slot.state == ZERO_STATE && frames == []
    ensures var (end, outcomes) := SlotRun(b, slot, m, frames);
            Represents(end.state.bitmap, FirstCopies(b, frames, outcomes).Keys)
  {
    hide Receive, ReadHeader;
    EmptyRepresents();
    var nothing: Copies := map[];
    assert nothing.Keys == {};
  }

  /** A frame for a slice that has come before, in this run of the slot. */
  predicate Again(b: Binding, slot: Slot, m: u16, frames: seq<seq<byte>>, frame: seq<byte>)
    requires m > 0 && HaveHeaders(frames) && |frame| >= HEADER_SIZE
  {
    TestBit(SlotRun(b, slot, m, frames).0.state.bitmap, Number(frame))
  }

  /** From an idle slot that is: for a slice of which a copy has come since the last delivery. */
  lemma AgainIffSeen(b: Binding, slot: Slot, m: u16, frames: seq<seq<byte>>, frame: seq<byte>)
    requires m > 0 && slot.state == ZERO_STATE && HaveHeaders(frames) && |frame| >= HEADER_SIZE
    requires !Stopped(SlotRun(b, slot, m, frames).1)
    ensures Again(b, slot, m, frames, frame) <==>
            Number(frame) as nat in FirstCopies(b, frames, SlotRun(b, slot, m, frames).1)
  {
    hide SlotRun, FirstCopies, Represents, TestBit, ReadHeader;
    BitmapIsFirstCopies(b, slot, m, frames);
    Bit(SlotRun(b, slot, m, frames).0.state.bitmap, FirstCopies(b, frames, SlotRun(b, slot, m, frames).1).Keys,
      Number(frame));
  }

  // ----- one slot: leaving a repeated frame out -----

  lemma AppendNothing(b: Binding, slot: Slot, m: u16, f: seq<seq<byte>>, g: seq<seq<byte>>)
    requires m > 0 && HaveHeaders(f) && g == []
    ensures HaveHeaders(f + g)
    ensures var (mid, outcomes) := SlotRun(b, slot, m, f);
            var (end, more) := SlotRun(b, mid, m, g);
            SlotRun(b, slot, m, f + g) == (end, outcomes + more)
  {
    hide Receive, ReadHeader;
    assert f + g == f;
    var (mid, outcomes) := SlotRun(b, slot, m, f);
    var (end, more) := SlotRun(b, mid, m, g);
    assert outcomes + more == outcomes;
  }

  lemma {:induction false} SlotRunAppend(b: Binding, slot: Slot, m: u16, f: seq<seq<byte>>, g: seq<seq<byte>>)
    requires m > 0 && HaveHeaders(f) && HaveHeaders(g) && !Stopped(SlotRun(b, slot, m, f).1)
    ensures HaveHeaders(f + g)
    ensures var (mid, outcomes) := SlotRun(b, slot, m, f);
            var (end, more) := SlotRun(b, mid, m, g);
            SlotRun(b, slot, m, f + g) == (end, outcomes + more)
    decreases |g|
  {
    hide Receive, ReadHeader, SlotRun;
    var outcomes := SlotRun(b, slot, m, f).1;
    if g == [] {
      AppendNothing(b, slot, m, f, g);
    } else {
      var before, frame := g[..|g| - 1], g[|g| - 1];
      SlotRunAppend(b, slot, m, f, before);
      assert f + g == (f + before) + [frame] && g == before + [frame];
      var mid := SlotRun(b, slot, m, f).0;
      SlotRunSnoc(b, slot, m, f + before, frame);
      SlotRunSnoc(b, mid, m, before, frame);
      var more := SlotRun(b, mid, m, before).1;
      assert Stopped(outcomes + more) == Stopped(more) by { if more == [] { assert outcomes + more == outcomes; } }
      var o := Receive(b, SlotRun(b, mid, m, before).0, m, ReadHeader(frame), frame).1;
      assert (outcomes + more) + [o] == outcomes + (more + [o]) &&
             (outcomes + more) + [Lost] == outcomes + (more + [Lost]);
    }
  }

  /** `o` with one more Quiet at position `n`. */
  function Inserted(o: seq<Outcome>, n: nat): seq<Outcome>
    requires n <= |o|
  {
    o[..n] + [Quiet] + o[n..]
  }

  /** Without a repeated frame the slot is the same in the end, and every other frame causes the same. */
  lemma SlotDropsRepeat(b: Binding, slot: Slot, m: u16, f: seq<seq<byte>>, again: seq<byte>, g: seq<seq<byte>>)
    requires m > 0 && HaveHeaders(f) && HaveHeaders(g) && |again| >= HEADER_SIZE
    requires !Stopped(SlotRun(b, slot, m, f).1) && Again(b, slot, m, f, again)
    ensures HaveHeaders(f + g) && HaveHeaders(f + [again] + g)
    ensures var (end, outcomes) := SlotRun(b, slot, m, f + g);
            SlotRun(b, slot, m, f + [again] + g) == (end, Inserted(outcomes, |f|))
  {
    hide SlotRun, Receive, ReadHeader, TestBit;
    var (mid, o) := SlotRun(b, slot, m, f);
    RepeatIsInert(b, mid, m, ReadHeader(again), again);
    SlotRunSnoc(b, slot, m, f, again);
    SlotRunAppend(b, slot, m, f + [again], g);
    SlotRunAppend(b, slot, m, f, g);
    var more := SlotRun(b, mid, m, g).1;
    assert (o + more)[..|f|] == o && (o + more)[|f|..] == more;
  }

  // ----- one slot: the bytes -----

  /** The frame does not reach beyond its slot, and its slot is addressed without a wrap. */
  predicate Placed(b: Binding, m: u16, frame: seq<byte>) {
    |frame| >= HEADER_SIZE ==> |FramePayload(b, ReadHeader(frame), frame)| <= m && Off(m, Number(frame)) < 0x1_0000
  }

  ghost predicate AllPlaced(b: Binding, m: u16, frames: seq<seq<byte>>) {
    forall j :: 0 <= j < |frames| ==> Placed(b, m, frames[j])
  }

  /** The copy lies in its slot of the buffer. */
  ghost predicate Lies(m: nat, buf: seq<byte>, k: nat, copy: seq<byte>) {
    copy != [] ==> Off(m, k) + |copy| <= |buf| && buf[Off(m, k)..Off(m, k) + |copy|] == copy
  }

  ghost predicate AllLie(m: nat, buf: seq<byte>, c: Copies) {
    forall k :: k in c ==> |c[k]| <= m && Lies(m, buf, k, c[k])
  }

  /** Storing one slice moves no other. */
  lemma StoreKeepsOthers(b: Binding, m: nat, buf: seq<byte>, k: nat, data: seq<byte>, j: nat, copy: seq<byte>)
    requires j != k && |data| <= m && |copy| <= m && Lies(m, buf, j, copy)
    ensures Lies(m, Store(b, buf, Off(m, k), data), j, copy)
  {
    hide Off, Store;
    StoredBytes(b, buf, Off(m, k), data);
    if j < k {
      OffMono(m, j, k);
    } else {
      OffMono(m, k, j);
    }
    var r, off := Store(b, buf, Off(m, k), data), Off(m, j);
    if copy != [] {
      assert r[off..off + |copy|] == buf[off..off + |copy|];
    }
  }

  lemma StoreLies(b: Binding, m: nat, buf: seq<byte>, k: nat, data: seq<byte>)
    ensures Lies(m, Store(b, buf, Off(m, k), data), k, data)
  {
    hide Off, Store;
    StoredBytes(b, buf, Off(m, k), data);
  }

  lemma StoreNew(b: Binding, m: nat, buf: seq<byte>, c: Copies, k: nat, data: seq<byte>)
    requires AllLie(m, buf, c) && k !in c && |data| <= m
    ensures AllLie(m, Store(b, buf, Off(m, k), data), c[k := data])
  {
    hide Off, Store, Lies;
    StoreLies(b, m, buf, k, data);
    forall j | j in c
      ensures Lies(m, Store(b, buf, Off(m, k), data), j, c[j])
    {
      StoreKeepsOthers(b, m, buf, k, data, j, c[j]);
    }
  }

  /** What a new frame does to the buffer, and what it delivers if it does. */
  lemma NewFrameStores(b: Binding, slot: Slot, m: u16, frame: seq<byte>)
    requires m > 0 && |frame| >= HEADER_SIZE && Placed(b, m, frame) && !TestBit(slot.state.bitmap, Number(frame))
    requires !Receive(b, slot, m, ReadHeader(frame), frame).1.Fatal()
    ensures var (slot', outcome) := Receive(b, slot, m, ReadHeader(frame), frame);
            slot'.payload == Store(b, slot.payload, Off(m, Number(frame)), FramePayload(b, ReadHeader(frame), frame)) &&
            (outcome.Delivered? ==> outcome.msg <= slot'.payload)
  {
    hide ReadHeader, TestBit, Store, Step, FramePayload, Off, SliceIdxToOffset;
    var h := ReadHeader(frame);
    NewIsNoDuplicate(slot.state, h.sliceSerial, PayloadSize(b, h, frame), m, h.eop != 0);
    AddressedWithoutWrap(h.sliceSerial, m);
  }

  lemma AddressedWithoutWrap(k: u8, m: u16)
    requires Off(m, k) < 0x1_0000
    ensures SliceIdxToOffset(k, m) == Off(m, k)
  {
  }

  ghost predicate Kept(b: Binding, m: u16, slot: Slot, c: Copies) {
    Represents(slot.state.bitmap, c.Keys) && AllLie(m, slot.payload, c)
  }

  /** One frame: the first copies stay where they are; and a delivered message has every first copy in its place,
      as far as it reaches. */
  lemma KeptStep(b: Binding, slot: Slot, m: u16, frame: seq<byte>, c: Copies)
    requires m > 0 && |frame| >= HEADER_SIZE && Placed(b, m, frame) && Kept(b, m, slot, c)
    requires !Receive(b, slot, m, ReadHeader(frame), frame).1.Fatal()
    ensures var (slot', outcome) := Receive(b, slot, m, ReadHeader(frame), frame);
            AllLie(m, slot'.payload, WithCopy(b, c, frame)) &&
            (outcome.Delivered? ==> outcome.msg <= slot'.payload) &&
            Kept(b, m, slot', if outcome.Delivered? then map[] else WithCopy(b, c, frame))
  {
    hide ReadHeader, Represents, TestBit, Store, FramePayload, AllLie, Receive, Off;
    SeenStep(b, slot, m, frame, c);
    Bit(slot.state.bitmap, c.Keys, Number(frame));
    if Number(frame) as nat in c {
      RepeatIsInert(b, slot, m, ReadHeader(frame), frame);
    } else {
      NewFrameStores(b, slot, m, frame);
      StoreNew(b, m, slot.payload, c, Number(frame), FramePayload(b, ReadHeader(frame), frame));
    }
    NothingLies(m, Receive(b, slot, m, ReadHeader(frame), frame).0.payload);
    var nothing: Copies := map[];
    assert nothing.Keys == {};
  }

  lemma NothingLies(m: nat, buf: seq<byte>)
    ensures AllLie(m, buf, map[])
  {
  }

  /** Over any frames that stay in their slots, whatever else they hold, every first copy lies in its place. */
  lemma {:induction false} FirstCopiesKept(b: Binding, slot: Slot, m: u16, frames: seq<seq<byte>>)
    requires m > 0 && slot.state == ZERO_STATE && HaveHeaders(frames) && AllPlaced(b, m, frames)
    requires !Stopped(SlotRun(b, slot, m, frames).1)
    ensures var (end, outcomes) := SlotRun(b, slot, m, frames);
            Kept(b, m, end, FirstCopies(b, frames, outcomes))
  {
    hide Receive, ReadHeader, Kept, FirstCopies, Placed;
    if frames == [] {
      KeptAtFirst(b, m, slot);
    } else {
      var j := |frames| - 1;
      var before, frame := frames[..j], frames[j];
      assert frames == before + [frame];
      SlotRunSnoc(b, slot, m, before, frame);
      hide SlotRun;
      FirstCopiesKept(b, slot, m, before);
      var (mid, outcomes) := SlotRun(b, slot, m, before);
      KeptStep(b, mid, m, frame, FirstCopies(b, before, outcomes));
      FirstCopiesSnoc(b, before, outcomes, frame, Receive(b, mid, m, ReadHeader(frame), frame).1);
    }
  }

  lemma KeptAtFirst(b: Binding, m: u16, slot: Slot)
    requires slot.state == ZERO_STATE
    ensures Kept(b, m, slot, FirstCopies(b, [], []))
  {
    EmptyRepresents();
    var nothing: Copies := map[];
    assert nothing.Keys == {};
  }

  /** The message has every first copy in its place, as far as it reaches. */
  ghost predicate MadeOf(m: nat, msg: seq<byte>, c: Copies) {
    forall k, i: nat :: k in c && i < |c[k]| && Off(m, k) + i < |msg| ==> msg[Off(m, k) + i] == c[k][i]
  }

  lemma PrefixMadeOf(m: nat, buf: seq<byte>, msg: seq<byte>, c: Copies)
    requires AllLie(m, buf, c) && msg <= buf
    ensures MadeOf(m, msg, c)
  {
    hide Off;
    forall k, i: nat | k in c && i < |c[k]| && Off(m, k) + i < |msg|
      ensures msg[Off(m, k) + i] == c[k][i]
    {
      assert Lies(m, buf, k, c[k]);
      assert buf[Off(m, k)..Off(m, k) + |c[k]|][i] == c[k][i];
    }
  }

  /** The bytes delivered for a slice are those of the first frame for it since the last delivery, whatever came for
      it later. */
  lemma DeliversFirstCopies(b: Binding, slot: Slot, m: u16, frames: seq<seq<byte>>, frame: seq<byte>)
    requires m > 0 && slot.state == ZERO_STATE && HaveHeaders(frames + [frame]) && AllPlaced(b, m, frames + [frame])
    requires !Stopped(SlotRun(b, slot, m, frames + [frame]).1)
    ensures HaveHeaders(frames) && |frame| >= HEADER_SIZE
    ensures var outcomes := SlotRun(b, slot, m, frames).1;
            var outcome := SlotRun(b, slot, m, frames + [frame]).1[|frames|];
            outcome.Delivered? ==> MadeOf(m, outcome.msg, WithCopy(b, FirstCopies(b, frames, outcomes), frame))
  {
    assert HaveHeaders(frames) by { assert forall j :: 0 <= j < |frames| ==> (frames + [frame])[j] == frames[j]; }
    assert AllPlaced(b, m, frames) by { assert forall j :: 0 <= j < |frames| ==> (frames + [frame])[j] == frames[j]; }
    assert (frames + [frame])[|frames|] == frame;
    hide SlotRun, Receive, ReadHeader, FirstCopies, Placed, AllLie, Represents, MadeOf;
    SlotRunSnoc(b, slot, m, frames, frame);
    FirstCopiesKept(b, slot, m, frames);
    var (mid, outcomes) := SlotRun(b, slot, m, frames);
    var c := FirstCopies(b, frames, outcomes);
    KeptStep(b, mid, m, frame, c);
    var (end, outcome) := Receive(b, mid, m, ReadHeader(frame), frame);
    if outcome.Delivered? {
      PrefixMadeOf(m, end.payload, outcome.msg, WithCopy(b, c, frame));
    }
  }

  // ----- one slot: the buffer is never cleared -----

  /** Some frame covers byte `i` of the buffer. */
  predicate Covers(b: Binding, m: u16, frame: seq<byte>, i: nat)
    requires |frame| >= HEADER_SIZE
  {
    var off := SliceIdxToOffset(Number(frame), m);
    off <= i < off + |FramePayload(b, ReadHeader(frame), frame)|
  }

  /** Neither a delivery nor a frame that does not cover it touches a byte, and the buffer never shrinks. */
  lemma {:induction false} BufferKeeps(b: Binding, slot: Slot, m: u16, frames: seq<seq<byte>>, i: nat)
    requires m > 0 && HaveHeaders(frames) && i < |slot.payload|
    requires forall j :: 0 <= j < |frames| ==> !Covers(b, m, frames[j], i)
    ensures var end := SlotRun(b, slot, m, frames).0;
            |end.payload| >= |slot.payload| && end.payload[i] == slot.payload[i]
  {
    hide Receive, ReadHeader, Covers;
    if frames != [] {
      var j := |frames| - 1;
      var before, frame := frames[..j], frames[j];
      assert frames == before + [frame];
      SlotRunSnoc(b, slot, m, before, frame);
      hide SlotRun;
      BufferKeeps(b, slot, m, before, i);
      ReceiveKeeps(b, SlotRun(b, slot, m, before).0, m, frame, i);
    }
  }

  lemma ReceiveKeeps(b: Binding, slot: Slot, m: u16, frame: seq<byte>, i: nat)
    requires m > 0 && |frame| >= HEADER_SIZE && i < |slot.payload| && !Covers(b, m, frame, i)
    ensures var end := Receive(b, slot, m, ReadHeader(frame), frame).0;
            |end.payload| >= |slot.payload| && end.payload[i] == slot.payload[i]
  {
    hide ReadHeader, Step, Store, SliceIdxToOffset, FramePayload;
    var h := ReadHeader(frame);
    StoredBytes(b, slot.payload, SliceIdxToOffset(h.sliceSerial, m), FramePayload(b, h, frame));
  }

  // ----- the table -----

  lemma {:induction false} FramesToAppend(f: seq<seq<byte>>, g: seq<seq<byte>>, a: Address)
    requires HaveHeaders(f) && HaveHeaders(g)
    ensures HaveHeaders(f + g) && FramesTo(f + g, a) == FramesTo(f, a) + FramesTo(g, a)
    decreases |g|
  {
    hide IsTo;
    if g == [] {
      assert f + g == f;
    } else {
      var j := |g| - 1;
      FramesToAppend(f, g[..j], a);
      assert f + g == (f + g[..j]) + [g[j]];
      assert (f + g)[..|f + g| - 1] == f + g[..j];
    }
  }

  lemma {:induction false} WithinEpochPrefix(from: u8, f: seq<seq<byte>>, g: seq<seq<byte>>, s: u8)
    requires HaveHeaders(f) && HaveHeaders(f + g) && WithinEpoch(from, f + g, s)
    ensures WithinEpoch(from, f, s)
    decreases |g|
  {
    hide IsTo;
    if g == [] {
      assert f + g == f;
    } else {
      assert (f + g)[..|f + g| - 1] == f + g[..|g| - 1];
      WithinEpochPrefix(from, f, g[..|g| - 1], s);
    }
  }

  lemma ServesPrefix(b: Binding, t: Table, config: Config, f: seq<seq<byte>>, g: seq<seq<byte>>)
    requires t.Shaped() && MaxPayload(config) > 0 && HaveHeaders(f) && HaveHeaders(g) && HaveHeaders(f + g)
    ensures Serves(b, t, config, f + g) ==> Serves(b, t, config, f)
  {
    hide TableRun;
    if !Serves(b, t, config, f) {
      StoppedForGood(b, t, config, f, g);
      var (end, outcomes) := TableRun(b, t, config, f);
      var all := outcomes + seq(|g|, _ => Lost);
      assert TableRun(b, t, config, f + g).1 == all;
      assert all[|all| - 1] == if g == [] then outcomes[|outcomes| - 1] else Lost;
    }
  }

  /** The lone receiver of a slot, with and without a frame that is a repeat for its own slot. */
  lemma LoneDropsRepeat(b: Binding, slot: Slot, m: u16, f: seq<seq<byte>>, again: seq<byte>, g: seq<seq<byte>>,
      a: Address)
    requires m > 0 && HaveHeaders(f) && HaveHeaders(g) && |again| >= HEADER_SIZE
    requires !Stopped(SlotRun(b, slot, m, FramesTo(f, a)).1)
    requires IsTo(again, a) ==> Again(b, slot, m, FramesTo(f, a), again)
    ensures HaveHeaders(f + g) && HaveHeaders(f + [again] + g)
    ensures var n := |FramesTo(f, a)|;
            var (end, outcomes) := SlotRun(b, slot, m, FramesTo(f + g, a));
            n <= |outcomes| &&
            SlotRun(b, slot, m, FramesTo(f + [again] + g, a)) ==
              (end, if IsTo(again, a) then Inserted(outcomes, n) else outcomes)
  {
    hide SlotRun, IsTo, Again, FramesTo;
    FramesToAppend(f, g, a);
    FramesToAppend(f, [again], a);
    FramesToAppend(f + [again], g, a);
    FramesToOne(again, a);
    if IsTo(again, a) {
      SlotDropsRepeat(b, slot, m, FramesTo(f, a), again, FramesTo(g, a));
    } else {
      assert FramesTo(f, a) + [] == FramesTo(f, a);
    }
  }

  lemma FramesToOne(frame: seq<byte>, a: Address)
    requires |frame| >= HEADER_SIZE
    ensures FramesTo([frame], a) == if IsTo(frame, a) then [frame] else []
  {
    hide IsTo;
    assert [frame][..0] == [];
  }

  /** In the table, within an epoch: a repeat for its slot, as the slot would be found, whoever sends it and
      whatever it carries. */
  predicate AgainInTable(b: Binding, t: Table, config: Config, f: seq<seq<byte>>, again: seq<byte>)
    requires t.Shaped() && MaxPayload(config) > 0 && HaveHeaders(f) && |again| >= HEADER_SIZE
  {
    HeaderFits(again);
    var s, q := ReadHeader(again).senderId, ReadHeader(again).packageSerial;
    Again(b, SlotNow(t, s, q), MaxPayload(config), FramesTo(f, OneSlot(s, q)), again)
  }

  lemma LonesDropRepeat(b: Binding, t: Table, config: Config, f: seq<seq<byte>>, again: seq<byte>, g: seq<seq<byte>>,
      s: u8, q: u8)
    requires t.Shaped() && MaxPayload(config) > 0 && HaveHeaders(f) && HaveHeaders(g) && |again| >= HEADER_SIZE
    requires s < SENDER_COUNT && Serves(b, t, config, f) && WithinEpoch(t.metas[s].pkg, f, s)
    requires AgainInTable(b, t, config, f, again)
    ensures HaveHeaders(f + g) && HaveHeaders(f + [again] + g)
    ensures var n := |FramesTo(f, OneSlot(s, q))|;
            var (end, outcomes) := SlotRun(b, SlotNow(t, s, q), MaxPayload(config), FramesTo(f + g, OneSlot(s, q)));
            n <= |outcomes| &&
            SlotRun(b, SlotNow(t, s, q), MaxPayload(config), FramesTo(f + [again] + g, OneSlot(s, q))) ==
              (end, if IsTo(again, OneSlot(s, q)) then Inserted(outcomes, n) else outcomes)
    ensures SlotServes(b, t, config, f + g, s, q) <==> SlotServes(b, t, config, f + [again] + g, s, q)
  {
    hide SlotRun, TableRun, SlotNow, ReadHeader, FramesTo, Again, Serves;
    SlotsIsolated(b, t, config, f, s, q);
    LoneDropsRepeat(b, SlotNow(t, s, q), MaxPayload(config), f, again, g, OneSlot(s, q));
    var o := SlotRun(b, SlotNow(t, s, q), MaxPayload(config), FramesTo(f + g, OneSlot(s, q))).1;
    StoppedInserted(o, |FramesTo(f, OneSlot(s, q))|);
    assert |FramesTo(f, OneSlot(s, q))| == |o| ==>
           o == SlotRun(b, SlotNow(t, s, q), MaxPayload(config), FramesTo(f, OneSlot(s, q))).1 by {
      FramesToAppend(f, g, OneSlot(s, q));
      SlotRunSize(b, SlotNow(t, s, q), MaxPayload(config), FramesTo(f + g, OneSlot(s, q)));
      assert |FramesTo(g, OneSlot(s, q))| == 0 ==>
             FramesTo(f, OneSlot(s, q)) + FramesTo(g, OneSlot(s, q)) == FramesTo(f, OneSlot(s, q));
    }
  }

  lemma SlotRunSize(b: Binding, slot: Slot, m: u16, frames: seq<seq<byte>>)
    requires m > 0 && HaveHeaders(frames)
    ensures |SlotRun(b, slot, m, frames).1| == |frames|
  {
  }

  lemma StoppedInserted(o: seq<Outcome>, n: nat)
    requires n <= |o|
    ensures n < |o| ==> (Stopped(Inserted(o, n)) <==> Stopped(o))
    ensures n == |o| ==> !Stopped(Inserted(o, n))
  {
  }

  /** In the table, within an epoch, a repeated frame may be left out: the table goes on or not just as well, every
      slot is the same in the end, and every other frame causes the same. */
  lemma TableDropsRepeat(b: Binding, t: Table, config: Config, f: seq<seq<byte>>, again: seq<byte>, g: seq<seq<byte>>,
      s: u8, q: u8)
    requires t.Shaped() && MaxPayload(config) > 0 && HaveHeaders(f) && HaveHeaders(g) && |again| >= HEADER_SIZE
    requires HaveHeaders(f + g) && HaveHeaders(f + [again] + g)
    requires AllWithinEpoch(t, f + g) && AllWithinEpoch(t, f + [again] + g) && s < SENDER_COUNT
    requires Serves(b, t, config, f) && AgainInTable(b, t, config, f, again)
    ensures Serves(b, t, config, f + [again] + g) <==> Serves(b, t, config, f + g)
    ensures Serves(b, t, config, f + g) ==>
              var (with, causes) := TableRun(b, t, config, f + [again] + g);
              var (without, caused) := TableRun(b, t, config, f + g);
              var a := OneSlot(s, q);
              var own := OutcomesTo(f + g, caused, a);
              SlotNow(with, s, q) == SlotNow(without, s, q) && |FramesTo(f, a)| <= |own| &&
              OutcomesTo(f + [again] + g, causes, a) == if IsTo(again, a) then Inserted(own, |FramesTo(f, a)|) else own
  {
    hide SlotRun, TableRun, SlotNow, ReadHeader, FramesTo, OutcomesTo, Again, AgainInTable, Serves, SlotServes,
      WithinEpoch;
    PrefixesWithinEpoch(t, f, g);
    forall s': u8, q': u8 | s' < SENDER_COUNT
      ensures SlotServes(b, t, config, f + g, s', q') <==> SlotServes(b, t, config, f + [again] + g, s', q')
    {
      LonesDropRepeat(b, t, config, f, again, g, s', q');
    }
    TableServesIffSlotsDo(b, t, config, f + g);
    TableServesIffSlotsDo(b, t, config, f + [again] + g);
    LonesDropRepeat(b, t, config, f, again, g, s, q);
    if Serves(b, t, config, f + g) {
      SlotsIsolated(b, t, config, f + g, s, q);
      SlotsIsolated(b, t, config, f + [again] + g, s, q);
    }
  }

  lemma PrefixesWithinEpoch(t: Table, f: seq<seq<byte>>, g: seq<seq<byte>>)
    requires t.Shaped() && HaveHeaders(f) && HaveHeaders(f + g) && AllWithinEpoch(t, f + g)
    ensures AllWithinEpoch(t, f)
  {
    hide WithinEpoch;
    forall s: u8 | s < SENDER_COUNT
      ensures WithinEpoch(t.metas[s].pkg, f, s)
    {
      WithinEpochPrefix(t.metas[s].pkg, f, g, s);
    }
  }

  /** What the table delivers, within the first epoch, has the first copy of every slice in its place: whatever the
      other slots' frames and whatever came for a slice later. */
  lemma TableDeliversFirstCopies(b: Binding, config: Config, frames: seq<seq<byte>>, frame: seq<byte>, s: u8, q: u8)
    requires MaxPayload(config) > 0 && HaveHeaders(frames) && HaveHeaders(frames + [frame]) && s < SENDER_COUNT
    requires |frame| >= HEADER_SIZE && IsTo(frame, OneSlot(s, q)) && WithinEpoch(0, frames + [frame], s)
    requires Serves(b, FreshTable(), config, frames + [frame])
    requires AllPlaced(b, MaxPayload(config), FramesTo(frames, OneSlot(s, q)) + [frame])
    ensures var own, a := FramesTo(frames, OneSlot(s, q)), OneSlot(s, q);
            var outcomes := OutcomesTo(frames, TableRun(b, FreshTable(), config, frames).1, a);
            var outcome := TableRun(b, FreshTable(), config, frames + [frame]).1[|frames|];
            |outcomes| == |own| &&
            (outcome.Delivered? ==>
              MadeOf(MaxPayload(config), outcome.msg, WithCopy(b, FirstCopies(b, own, outcomes), frame)))
  {
    hide SlotRun, TableRun, ReadHeader, FramesTo, OutcomesTo, MadeOf, FirstCopies, WithCopy, AllPlaced, IsTo, TableStep;
    var m: u16 := MaxPayload(config);
    var a, own := OneSlot(s, q), FramesTo(frames, OneSlot(s, q));
    WithinEpochPrefix(0, frames, [frame], s);
    ServesPrefix(b, FreshTable(), config, frames, [frame]);
    SlotsIsolatedFromStart(b, config, frames, s, q);
    SlotsIsolatedFromStart(b, config, frames + [frame], s, q);
    FramesToAppend(frames, [frame], a);
    FramesToOne(frame, a);
    TableRunSnoc(b, FreshTable(), config, frames, frame);
    var (t, all) := TableRun(b, FreshTable(), config, frames);
    var outcome := TableStep(b, t, config, frame).1;
    assert (frames + [frame])[..|frames|] == frames;
    OutcomesToSnoc(frames + [frame], all, outcome, a);
    var lone := SlotRun(b, FRESH_SLOT, m, own).1;
    assert SlotRun(b, FRESH_SLOT, m, own + [frame]).1 == lone + [outcome];
    SlotRunSize(b, FRESH_SLOT, m, own);
    LastIsLone(lone, outcome, all);
    DeliversFirstCopies(b, FRESH_SLOT, m, own, frame);
  }

  lemma LastIsLone(lone: seq<Outcome>, outcome: Outcome, all: seq<Outcome>)
    requires !Stopped(all + [outcome])
    ensures !Stopped(lone + [outcome]) && (all + [outcome])[|all|] == outcome && (lone + [outcome])[|lone|] == outcome
  {
  }

  // ----- the single-state receivers -----

  /** A frame the single-state receivers drop: too short for a header, or for a slice seen before. Whose it is they do
      not look at. */
  predicate Dropped(state: State, frame: seq<byte>) {
    |frame| < HEADER_SIZE || TestBit(state.bitmap, Number(frame))
  }

  lemma DroppedIsInert(state: State, assembly: seq<byte>, session: Session, m: u16, frame: seq<byte>)
    requires m > 0 && Dropped(state, frame) && session.state == state
    ensures EmbeddedStep(state, assembly, m, frame) == Some((state, assembly, Quiet))
    ensures ToolStep(session, m, frame) == Some(session)
  {
    hide ReadHeader, TestBit;
  }

  lemma EmbeddedSnoc(state: State, assembly: seq<byte>, m: u16, frames: seq<seq<byte>>, frame: seq<byte>)
    requires m > 0
    ensures EmbeddedRun(state, assembly, m, frames + [frame]) ==
            match EmbeddedRun(state, assembly, m, frames)
            case None => None
            case Some((before, buffer, outcomes)) =>
              match EmbeddedStep(before, buffer, m, frame)
              case None => None
              case Some((after, buffer', outcome)) => Some((after, buffer', outcomes + [outcome]))
  {
    hide EmbeddedStep;
    assert (frames + [frame])[..|frames|] == frames;
  }

  lemma {:induction false} EmbeddedRunLength(state: State, assembly: seq<byte>, m: u16, frames: seq<seq<byte>>)
    requires m > 0
    ensures EmbeddedRun(state, assembly, m, frames).Some? ==>
              |EmbeddedRun(state, assembly, m, frames).value.2| == |frames|
  {
    hide EmbeddedStep;
    if frames != [] {
      EmbeddedRunLength(state, assembly, m, frames[..|frames| - 1]);
    }
  }

  /** The embedded receiver does the same without a dropped frame, short or repeated, whatever it carries. */
  lemma {:induction false} EmbeddedDropsRepeat(state: State, assembly: seq<byte>, m: u16, f: seq<seq<byte>>,
      again: seq<byte>, g: seq<seq<byte>>)
    requires m > 0 && EmbeddedRun(state, assembly, m, f).Some?
    requires Dropped(EmbeddedRun(state, assembly, m, f).value.0, again)
    ensures match EmbeddedRun(state, assembly, m, f + g)
            case None => EmbeddedRun(state, assembly, m, f + [again] + g) == None
            case Some((end, buffer, outcomes)) =>
              |f| <= |outcomes| &&
              EmbeddedRun(state, assembly, m, f + [again] + g) == Some((end, buffer, Inserted(outcomes, |f|)))
    decreases |g|
  {
    hide EmbeddedStep, EmbeddedRun, Dropped, Inserted;
    EmbeddedRunLength(state, assembly, m, f);
    if g == [] {
      var (end, buffer, outcomes) := EmbeddedRun(state, assembly, m, f).value;
      DroppedIsInert(end, buffer, Session(end, [], []), m, again);
      EmbeddedSnoc(state, assembly, m, f, again);
      assert f + g == f && f + [again] + g == f + [again];
      InsertedAtEnd(outcomes);
    } else {
      var j := |g| - 1;
      EmbeddedDropsRepeat(state, assembly, m, f, again, g[..j]);
      assert f + g == (f + g[..j]) + [g[j]] && f + [again] + g == (f + [again] + g[..j]) + [g[j]];
      EmbeddedSnoc(state, assembly, m, f + g[..j], g[j]);
      EmbeddedSnoc(state, assembly, m, f + [again] + g[..j], g[j]);
      var before := EmbeddedRun(state, assembly, m, f + g[..j]);
      if before.Some? && EmbeddedStep(before.value.0, before.value.1, m, g[j]).Some? {
        InsertedSnoc(before.value.2, |f|, EmbeddedStep(before.value.0, before.value.1, m, g[j]).value.2);
      }
    }
  }

  lemma InsertedAtEnd(o: seq<Outcome>)
    ensures Inserted(o, |o|) == o + [Quiet]
  {
  }

  lemma InsertedSnoc(o: seq<Outcome>, n: nat, last: Outcome)
    requires n <= |o|
    ensures Inserted(o + [last], n) == Inserted(o, n) + [last]
  {
  }

  /** So does the command line receiver. */
  lemma ToolDropsRepeat(session: Session, m: u16, f: seq<seq<byte>>, again: seq<byte>, g: seq<seq<byte>>)
    requires m > 0 && ToolRun(session, m, f).Some? && Dropped(ToolRun(session, m, f).value.state, again)
    ensures ToolRun(session, m, f + [again] + g) == ToolRun(session, m, f + g)
  {
    hide ToolStep, Dropped;
    var mid := ToolRun(session, m, f).value;
    DroppedIsInert(mid.state, mid.assembly, mid, m, again);
    ToolRunAppend(session, m, f, [again]);
    assert [again][..0] == [];
    ToolRunAppend(session, m, f + [again], g);
    ToolRunAppend(session, m, f, g);
  }

  // ----- the embedded receiver is a C++ slot with a buffer of its own -----

  lemma PlaceIsStore(buf: seq<byte>, off: nat, data: seq<byte>)
    requires data != [] ==> off + |data| <= |buf|
    ensures Place(buf, off, data) == Store(Cpp, buf, off, data)
  {
  }

  lemma EmbeddedStepIsSlot(slot: Slot, m: u16, frame: seq<byte>)
    requires m > 0 && |frame| >= HEADER_SIZE && EmbeddedStep(slot.state, slot.payload, m, frame).Some?
    ensures var (state', buffer, outcome) := EmbeddedStep(slot.state, slot.payload, m, frame).value;
            Receive(Cpp, slot, m, ReadHeader(frame), frame) == (Slot(state', buffer, slot.gen), outcome) &&
            !outcome.Fatal()
  {
    hide ReadHeader, Step, Place, Store, SliceIdxToOffset, TestBit;
    var h := ReadHeader(frame);
    if TestBit(slot.state.bitmap, h.sliceSerial) {
      RepeatIsInert(Cpp, slot, m, h, frame);
      DroppedIsInert(slot.state, slot.payload, Session(slot.state, [], []), m, frame);
    } else {
      NewIsNoDuplicate(slot.state, h.sliceSerial, h.slicePayloadSize, m, h.eop != 0);
      PlaceIsStore(slot.payload, SliceIdxToOffset(h.sliceSerial, m),
        frame[HEADER_SIZE..HEADER_SIZE + h.slicePayloadSize]);
      PlaceLength(slot.payload, SliceIdxToOffset(h.sliceSerial, m),
        frame[HEADER_SIZE..HEADER_SIZE + h.slicePayloadSize]);
    }
  }

  lemma PlaceLength(buf: seq<byte>, off: nat, data: seq<byte>)
    requires data != [] ==> off + |data| <= |buf|
    ensures |Place(buf, off, data)| == |buf|
  {
  }

  /** As long as nothing falls outside the frame or the buffer, the embedded receiver is a lone C++ slot. */
  lemma {:induction false} EmbeddedRunIsSlotRun(state: State, assembly: seq<byte>, m: u16, frames: seq<seq<byte>>)
    requires m > 0 && HaveHeaders(frames) && EmbeddedRun(state, assembly, m, frames).Some?
    ensures var (state', buffer, outcomes) := EmbeddedRun(state, assembly, m, frames).value;
            SlotRun(Cpp, Slot(state, assembly, 0), m, frames) == (Slot(state', buffer, 0), outcomes) &&
              !Stopped(outcomes)
  {
    hide EmbeddedStep, Receive, ReadHeader;
    if frames != [] {
      var j := |frames| - 1;
      EmbeddedRunIsSlotRun(state, assembly, m, frames[..j]);
      var (mid, buffer, _) := EmbeddedRun(state, assembly, m, frames[..j]).value;
      EmbeddedStepIsSlot(Slot(mid, buffer, 0), m, frames[j]);
    }
  }

  /** What the embedded receiver hands to its reader has the first copy of every slice in its place, whichever sender
      the later ones came from. */
  lemma EmbeddedDeliversFirstCopies(assembly: seq<byte>, m: u16, frames: seq<seq<byte>>, frame: seq<byte>)
    requires m > 0 && HaveHeaders(frames) && HaveHeaders(frames + [frame]) && AllPlaced(Cpp, m, frames + [frame])
    requires EmbeddedRun(ZERO_STATE, assembly, m, frames + [frame]).Some?
    ensures |frame| >= HEADER_SIZE && EmbeddedRun(ZERO_STATE, assembly, m, frames).Some?
    ensures var outcomes := EmbeddedRun(ZERO_STATE, assembly, m, frames).value.2;
            var all := EmbeddedRun(ZERO_STATE, assembly, m, frames + [frame]).value.2;
            |outcomes| == |frames| && |all| == |frames| + 1 &&
            (all[|frames|].Delivered? ==>
               MadeOf(m, all[|frames|].msg, WithCopy(Cpp, FirstCopies(Cpp, frames, outcomes), frame)))
  {
    hide EmbeddedRun, EmbeddedStep, SlotRun, MadeOf, FirstCopies, WithCopy, AllPlaced;
    assert (frames + [frame])[|frames|] == frame;
    EmbeddedSnoc(ZERO_STATE, assembly, m, frames, frame);
    EmbeddedRunLength(ZERO_STATE, assembly, m, frames);
    EmbeddedRunLength(ZERO_STATE, assembly, m, frames + [frame]);
    EmbeddedRunIsSlotRun(ZERO_STATE, assembly, m, frames);
    EmbeddedRunIsSlotRun(ZERO_STATE, assembly, m, frames + [frame]);
    DeliversFirstCopies(Cpp, Slot(ZERO_STATE, assembly, 0), m, frames, frame);
  }

  /** The command line receiver keeps state and bytes as a lone C++ slot does, and writes what lies between the
      watermarks: up to the new one, or a part of the message it completes. */
  lemma ToolStepIsSlot(session: Session, m: u16, frame: seq<byte>)
    requires m > 0 && |frame| >= HEADER_SIZE && ToolStep(session, m, frame).Some?
    requires Receive(Cpp, Slot(session.state, session.assembly, 0), m, ReadHeader(frame), frame).1 != Overrun
    ensures var after := ToolStep(session, m, frame).value;
            var (slot, outcome) := Receive(Cpp, Slot(session.state, session.assembly, 0), m, ReadHeader(frame), frame);
            var wm := session.state.watermark;
            after.state == slot.state && after.assembly == slot.payload &&
            match outcome
            case Quiet =>
              after.out == session.out +
                if wm < after.state.watermark <= |after.assembly| then after.assembly[wm..after.state.watermark] else []
            case Delivered(msg) =>
              session.out <= after.out && (wm <= |msg| ==> after.out <= session.out + msg[wm..])
            case _ => false
  {
    hide ReadHeader, Place, Store, SliceIdxToOffset, TestBit, AdvancedWatermark, Step;
    var h := ReadHeader(frame);
    var slot := Slot(session.state, session.assembly, 0);
    if TestBit(session.state.bitmap, h.sliceSerial) {
      RepeatIsInert(Cpp, slot, m, h, frame);
      DroppedIsInert(session.state, session.assembly, session, m, frame);
    } else {
      var offset := SliceIdxToOffset(h.sliceSerial, m);
      NewIsNoDuplicate(session.state, h.sliceSerial, h.slicePayloadSize, m, h.eop != 0);
      CompleteIsClamped(session.state, h.sliceSerial, h.slicePayloadSize, m, h.eop != 0);
      PlaceIsStore(session.assembly, offset, frame[HEADER_SIZE..HEADER_SIZE + h.slicePayloadSize]);
      PlaceLength(session.assembly, offset, frame[HEADER_SIZE..HEADER_SIZE + h.slicePayloadSize]);
    }
  }

  /** A completing step leaves the watermark inside the package. */
  lemma CompleteIsClamped(st: State, id: u8, size: u16, m: u16, eop: bool)
    requires m > 0
    ensures var r := Step(st, id, size, m, eop);
            r.Some? && r.value.e == Complete ==> r.value.next.watermark <= r.value.next.termination
  {
    hide TestBit, SetBit, CalcTermination, SliceIdxToOffset, TerminationToSliceCount, Scan;
    var recorded := Record(st, id, size, m, eop);
    ScanClamped(recorded, recorded.watermark, m, OFFSETS);
  }

  lemma {:induction false} ScanClamped(s: State, wm: u16, m: u16, fuel: nat)
    requires m > 0
    ensures s.termination > 0 && Scan(s, wm, m, fuel).Some? ==> Scan(s, wm, m, fuel).value <= s.termination
    decreases fuel
  {
    hide TestBit, OffsetToSliceIdx;
    if fuel > 0 {
      ScanClamped(s, U16(wm + m), m, fuel - 1);
    }
  }
}
