/** The receiver's table of 8 x 256 slots with its wrapping generations, as values: what one frame does
    to the whole table. The classes that update it in place are proved against these functions. */
module SlotTable {
  import opened Words
  import opened Common
  import opened Bitmap
  import opened Rx
  import opened Reassembly
  import opened Runs

  const SLOT_COUNT := SENDER_COUNT * PACKAGE_COUNT

  datatype SenderMeta = SenderMeta(pkg: u8, gen: u8)

  datatype Table = Table(slots: seq<Slot>, metas: seq<SenderMeta>) {
    ghost predicate Shaped() {
      |slots| == SLOT_COUNT && |metas| == SENDER_COUNT
    }
  }

  /** `(senderId << 8) | packageId`. */
  function SlotIndex(senderId: u8, packageId: u8): (i: nat)
    requires senderId < SENDER_COUNT
    ensures i < SLOT_COUNT
  {
    senderId * PACKAGE_COUNT + packageId
  }

  lemma SlotIndexInjective(s: u8, q: u8, s': u8, q': u8)
    requires s < SENDER_COUNT && s' < SENDER_COUNT
    ensures SlotIndex(s, q) == SlotIndex(s', q') <==> s == s' && q == q'
  {
  }

  /** A sender whose package id falls by more than 127 has wrapped into its next generation. */
  function GcHook(meta: SenderMeta, packageId: u8): SenderMeta {
    SenderMeta(packageId, if packageId + PACKAGE_ID_MAX / 2 < meta.pkg then U8(meta.gen + 1) else meta.gen)
  }

  /** A slot touched in a later generation drops what it has counted. */
  function GcClockHook(slot: Slot, meta: SenderMeta): Slot {
    Slot(
      if slot.state.receivedCount > 0 && slot.gen != meta.gen then ZERO_STATE else slot.state,
      slot.payload,
      meta.gen)
  }

  function TableStep(b: Binding, t: Table, config: Config, frame: seq<byte>): (r: (Table, Outcome))
    requires t.Shaped() && MaxPayload(config) > 0 && |frame| >= HEADER_SIZE
    ensures r.0.Shaped()
  {
    var header := ReadHeader(frame);
    HeaderFits(frame);
    var meta := GcHook(t.metas[header.senderId], header.packageSerial);
    var i := SlotIndex(header.senderId, header.packageSerial);
    var (slot, outcome) := Receive(b, GcClockHook(t.slots[i], meta), MaxPayload(config), header, frame);
    (Table(t.slots[i := slot], t.metas[header.senderId := meta]), outcome)
  }

  /** The table after the hooks that run before a frame is looked at. */
  function Clocked(t: Table, frame: seq<byte>): (r: Table)
    requires t.Shaped() && |frame| >= HEADER_SIZE
    ensures r.Shaped()
  {
    var header := ReadHeader(frame);
    HeaderFits(frame);
    var meta := GcHook(t.metas[header.senderId], header.packageSerial);
    var i := SlotIndex(header.senderId, header.packageSerial);
    Table(t.slots[i := GcClockHook(t.slots[i], meta)], t.metas[header.senderId := meta])
  }

  /** The frame's slice has been seen before, in a generation that is not over. */
  predicate Repeated(t: Table, frame: seq<byte>)
    requires t.Shaped() && |frame| >= HEADER_SIZE
  {
    HeaderFits(frame);
    var i := SlotIndex(ReadHeader(frame).senderId, ReadHeader(frame).packageSerial);
    TestBit(Clocked(t, frame).slots[i].state.bitmap, ReadHeader(frame).sliceSerial)
  }

  function FreshTable(): (t: Table)
    ensures t.Shaped()
  {
    Table(seq(SLOT_COUNT, _ => FRESH_SLOT), seq(SENDER_COUNT, _ => SenderMeta(0, 0)))
  }

  /** A table fed with frames one after another, until its receiver is gone: its contents and what each frame
      caused. A frame whose scan never ends keeps the receiver, and with it every later frame of every sender. */
  function TableRun(b: Binding, t: Table, config: Config, frames: seq<seq<byte>>): (r: (Table, seq<Outcome>))
    requires t.Shaped() && MaxPayload(config) > 0 && HaveHeaders(frames)
    ensures r.0.Shaped() && |r.1| == |frames|
  {
    if frames == [] then (t, [])
    else
      var (before, outcomes) := TableRun(b, t, config, frames[..|frames| - 1]);
      if Stopped(outcomes) then (before, outcomes + [Lost])
      else
        var (after, outcome) := TableStep(b, before, config, frames[|frames| - 1]);
        (after, outcomes + [outcome])
  }

  /** A repeated slice, whatever it carries, does no more than the hooks. */
  lemma RepeatedOnlyClocks(b: Binding, t: Table, config: Config, frame: seq<byte>)
    requires t.Shaped() && MaxPayload(config) > 0 && |frame| >= HEADER_SIZE && Repeated(t, frame)
    ensures TableStep(b, t, config, frame) == (Clocked(t, frame), Quiet)
  {
    hide ReadHeader, Receive;
    HeaderFits(frame);
    var i := SlotIndex(ReadHeader(frame).senderId, ReadHeader(frame).packageSerial);
    RepeatIsInert(b, Clocked(t, frame).slots[i], MaxPayload(config), ReadHeader(frame), frame);
  }

  lemma TableRunSnoc(b: Binding, t: Table, config: Config, frames: seq<seq<byte>>, frame: seq<byte>)
    requires t.Shaped() && MaxPayload(config) > 0 && HaveHeaders(frames) && |frame| >= HEADER_SIZE
    ensures HaveHeaders(frames + [frame])
    ensures var (before, outcomes) := TableRun(b, t, config, frames);
            TableRun(b, t, config, frames + [frame]) ==
              if Stopped(outcomes) then (before, outcomes + [Lost])
              else
                var (after, outcome) := TableStep(b, before, config, frame);
                (after, outcomes + [outcome])
  {
    hide TableStep;
    assert (frames + [frame])[..|frames|] == frames;
  }

  /** A run that goes on is the run of its second half from where the first half left the table. */
  lemma {:induction false} TableRunAppend(b: Binding, t: Table, config: Config, f: seq<seq<byte>>, g: seq<seq<byte>>)
    requires t.Shaped() && MaxPayload(config) > 0 && HaveHeaders(f) && HaveHeaders(g)
    requires !Stopped(TableRun(b, t, config, f).1)
    ensures HaveHeaders(f + g)
    ensures var (mid, outcomes) := TableRun(b, t, config, f);
            var (end, more) := TableRun(b, mid, config, g);
            TableRun(b, t, config, f + g) == (end, outcomes + more)
    decreases |g|
  {
    hide TableStep;
    var outcomes := TableRun(b, t, config, f).1;
    if g == [] {
      assert f + g == f && outcomes + [] == outcomes;
    } else {
      var before, frame := g[..|g| - 1], g[|g| - 1];
      TableRunAppend(b, t, config, f, before);
      assert f + g == (f + before) + [frame];
      TableRunSnoc(b, t, config, f + before, frame);
      var more := TableRun(b, TableRun(b, t, config, f).0, config, before).1;
      assert forall o: Outcome :: (outcomes + more) + [o] == outcomes + (more + [o]);
    }
  }

  /** A receiver that is gone takes nothing more. */
  lemma {:induction false} StoppedForGood(b: Binding, t: Table, config: Config, f: seq<seq<byte>>, g: seq<seq<byte>>)
    requires t.Shaped() && MaxPayload(config) > 0 && HaveHeaders(f) && HaveHeaders(g)
    requires Stopped(TableRun(b, t, config, f).1)
    ensures HaveHeaders(f + g)
    ensures var (end, outcomes) := TableRun(b, t, config, f);
            TableRun(b, t, config, f + g) == (end, outcomes + seq(|g|, _ => Lost))
    decreases |g|
  {
    hide TableStep;
    var outcomes := TableRun(b, t, config, f).1;
    if g == [] {
      assert f + g == f && outcomes + seq(|g|, _ => Lost) == outcomes;
    } else {
      var before, frame := g[..|g| - 1], g[|g| - 1];
      StoppedForGood(b, t, config, f, before);
      assert f + g == (f + before) + [frame];
      TableRunSnoc(b, t, config, f + before, frame);
      var lost := outcomes + seq(|before|, _ => Lost);
      assert lost[|lost| - 1] == if before == [] then outcomes[|outcomes| - 1] else Lost;
      assert lost + [Lost] == outcomes + seq(|g|, _ => Lost);
    }
  }

  /** A receiver is gone exactly when some frame's scan never ended or its read overran. */
  lemma {:induction false} StoppedIffFatal(b: Binding, t: Table, config: Config, frames: seq<seq<byte>>)
    requires t.Shaped() && MaxPayload(config) > 0 && HaveHeaders(frames)
    ensures var outcomes := TableRun(b, t, config, frames).1;
            Stopped(outcomes) <==> Hangs in outcomes || Overrun in outcomes
  {
    hide ReadHeader, Step, Store;
    if frames != [] {
      StoppedIffFatal(b, t, config, frames[..|frames| - 1]);
    }
  }

  // ----- the delivered span is always inside the buffer -----

  /** What the C# slots keep over frames of any content: the known end of the package has been stored. */
  ghost predicate WithinPayload(slot: Slot) {
    slot.state.termination <= |slot.payload|
  }

  ghost predicate AllWithin(t: Table) {
    forall i :: 0 <= i < |t.slots| ==> WithinPayload(t.slots[i])
  }

  lemma TerminationStored(s: State, sliceId: u8, payloadSize: u16, maxPayload: u16, isEop: bool, size: nat)
    requires maxPayload > 0 && s.termination <= size
    requires SliceIdxToOffset(sliceId, maxPayload) + payloadSize <= size
    ensures var r := Step(s, sliceId, payloadSize, maxPayload, isEop);
            r.Some? ==> r.value.next.termination <= size
  {
    hide TestBit, SetBit, AdvancedWatermark, IsComplete, SliceIdxToOffset;
  }

  /** The C# slot never reads past its buffer, whatever the frame says. */
  lemma NoOverrun(slot: Slot, maxPayload: u16, header: HeaderMeta, frame: seq<byte>)
    requires maxPayload > 0 && |frame| >= HEADER_SIZE && WithinPayload(slot)
    ensures Receive(CSharp, slot, maxPayload, header, frame).1 != Overrun
    ensures WithinPayload(Receive(CSharp, slot, maxPayload, header, frame).0)
  {
    hide Step, SliceIdxToOffset;
    var off, data := SliceIdxToOffset(header.sliceSerial, maxPayload), FramePayload(CSharp, header, frame);
    TerminationStored(slot.state, header.sliceSerial, PayloadSize(CSharp, header, frame), maxPayload, header.eop != 0,
                      |Store(CSharp, slot.payload, off, data)|);
  }

  lemma TableStepWithin(t: Table, config: Config, frame: seq<byte>)
    requires t.Shaped() && MaxPayload(config) > 0 && |frame| >= HEADER_SIZE && AllWithin(t)
    ensures TableStep(CSharp, t, config, frame).1 != Overrun
    ensures AllWithin(TableStep(CSharp, t, config, frame).0)
  {
    hide Receive, ReadHeader;
    var header := ReadHeader(frame);
    HeaderFits(frame);
    var slot := t.slots[SlotIndex(header.senderId, header.packageSerial)];
    assert WithinPayload(slot);
    NoOverrun(GcClockHook(slot, GcHook(t.metas[header.senderId], header.packageSerial)), MaxPayload(config), header,
      frame);
  }

  lemma {:induction false} AllWithinAlong(config: Config, frames: seq<seq<byte>>)
    requires MaxPayload(config) > 0 && HaveHeaders(frames)
    ensures AllWithin(TableRun(CSharp, FreshTable(), config, frames).0)
    ensures Overrun !in TableRun(CSharp, FreshTable(), config, frames).1
  {
    hide TableStep;
    if frames != [] {
      var before := frames[..|frames| - 1];
      AllWithinAlong(config, before);
      TableStepWithin(TableRun(CSharp, FreshTable(), config, before).0, config, frames[|frames| - 1]);
    }
  }

  /** Frames of any content, forged ones included, in any number: the C# decoder never hands out more than
      its buffer holds. */
  lemma NeverOverruns(config: Config, frames: seq<seq<byte>>, j: nat)
    requires MaxPayload(config) > 0 && HaveHeaders(frames) && j < |frames|
    ensures TableRun(CSharp, FreshTable(), config, frames).1[j] != Overrun
  {
    AllWithinAlong(config, frames);
  }
}
