/** Senders and receivers together: any chunking on the way in, any order with duplicates on the way out. */
module EndToEnd {
  import opened Words
  import opened Common
  import opened Tx
  import opened Packages
  import opened Rx
  import opened ClosedForm
  import opened Reassembly
  import opened Runs
  import opened SlotTable
  import opened Serials
  import opened StreamSender
  import opened BufferWriter
  import opened ZeroCopySender
  import opened ToolReceiver
  import CSharpDecoder

  /** A sufficient bound that a sender can compute: no more than 256 slices, all within 16 bits of address. */
  predicate Transmittable(msg: seq<byte>, m: nat)
    requires m > 0
  {
    |msg| >= 1 && |msg| / m <= 255 && Off(m, |msg| / m + 1) <= 65535
  }

  lemma TransmittableIsBounded(msg: seq<byte>, m: nat)
    requires 0 < m && m + HEADER_SIZE <= 4096 && Transmittable(msg, m)
    ensures Eager(msg, m).Bounded() && Lazy(msg, m).Bounded()
  {
    hide Off;
    EagerWellFormed(msg, m);
    LazyWellFormed(msg, m);
    OffSucc(m, |msg| / m);
    var a, b := (|msg| - 1) / m, |msg| / m;
    OffDiv(m, a, |msg| - 1);
    OffDiv(m, b, |msg|);
    if a > b {
      OffMono(m, b, a);
    }
    OffMono(m, a, b);
  }

  /** A coordinate survives header, wire and reconstruction exactly when its sender fits three bits and its
      offset starts one of the 256 addressable slots. */
  lemma AddressAgreement(config: Config, coord: Coordinate, size: u16, eop: bool, frame: seq<byte>)
    requires MaxPayload(config) > 0 && size < 0x1000
    requires |frame| >= HEADER_SIZE && frame[..HEADER_SIZE] == ToBytes(Pack(MakeHeader(config, coord, size, eop)))
    ensures HeaderToCoordinate(config, ReadHeader(frame)) == coord <==>
            coord.senderId < 8 && coord.offset % MaxPayload(config) == 0 && coord.offset / MaxPayload(config) <= 255
  {
    hide ReadHeader, ToBytes, Pack, OffsetToSliceIdx, SliceIdxToOffset;
    HeaderRoundTrip(MakeHeader(config, coord, size, eop), frame);
    SlotStarts(coord.offset, MaxPayload(config));
  }

  lemma SlotStarts(offset: u16, m: u16)
    requires m > 0
    ensures SliceIdxToOffset(OffsetToSliceIdx(offset, m), m) == offset <==> offset % m == 0 && offset / m <= 255
  {
    hide Off, SliceIdxToOffset;
    var q := offset / m;
    SlotOffset(OffsetToSliceIdx(offset, m), m);
    SlotRest(offset, m);
    OffMono(m, U8(q), q);
  }

  lemma SlotRest(offset: u16, m: u16)
    requires m > 0
    ensures offset == Off(m, offset / m) + offset % m
  {
  }

  /** The frames of a transmission as they arrive. */
  function Arrived(frames: seq<seq<byte>>, order: seq<nat>): seq<seq<byte>>
    requires forall j :: 0 <= j < |order| ==> order[j] < |frames|
  {
    seq(|order|, j requires 0 <= j < |order| => frames[order[j]])
  }

  lemma ArrivedIsHonest(config: Config, origin: Coordinate, p: Package, frames: seq<seq<byte>>, order: seq<nat>)
    requires ValidUnit(config.transmissionUnit) && p.m == MaxPayload(config) && origin.senderId < 8
    requires p.Short() && Segmented(config, origin, p, frames) && OfPackage(p, order)
    ensures HonestWord(p, origin.senderId, origin.packageId, order, Arrived(frames, order))
  {
    hide Honest, SliceFrame;
    forall j | 0 <= j < |order|
      ensures Honest(p, origin.senderId, origin.packageId, order[j], Arrived(frames, order)[j])
    {
      SegmentedIsHonest(config, origin, p, frames, order[j]);
    }
  }

  /** End to end for a slot of either table: from the frames of either segmentation, in any order and with
      any duplicates, the message is delivered exactly once, at the arrival of the last missing slice,
      whatever the slot's buffer held before. A message that is not addressable hangs the receiver there. */
  lemma DeliveredEndToEnd(b: Binding, config: Config, origin: Coordinate, p: Package, frames: seq<seq<byte>>,
      order: seq<nat>, slot: Slot)
    requires ValidUnit(config.transmissionUnit) && p.m == MaxPayload(config) && origin.senderId < 8
    requires p.Short() && Segmented(config, origin, p, frames) && CoversOnce(p, order)
    requires slot.state == ZERO_STATE
    ensures HaveHeaders(Arrived(frames, order))
    ensures SlotRun(b, slot, p.m, Arrived(frames, order)).1 ==
            seq(|order| - 1, _ => Quiet) + [if p.Addressable() then Delivered(p.msg) else Hangs]
  {
    hide SlotRun, SliceFrame, Honest;
    ArrivedIsHonest(config, origin, p, frames, order);
    DeliveredOnce(b, p, slot, origin.senderId, origin.packageId, order, Arrived(frames, order));
  }

  // ----- the command line tools -----

  method TransmitOnce(transmissionUnit: u16, chunks: seq<seq<byte>>, senderId: u16) returns (frames: seq<seq<byte>>)
    requires ValidUnit(transmissionUnit) && senderId < 8
    requires AllShort(chunks)
    ensures Segmented(Config.Config(transmissionUnit), Coordinate(senderId, 0, 0),
            Eager(Concat(chunks), transmissionUnit - HEADER_SIZE), frames)
  {
    hide Off, Segmented;
    var sender := new ToolSender(transmissionUnit);
    sender.Transmit(chunks, senderId);
    frames := sender.sink.wire;
    assert frames[0..] == frames;
  }

  method ReceiveOnce(transmissionUnit: u16, ghost t: Transfer, frames: seq<seq<byte>>) returns (out: seq<byte>)
    requires ValidUnit(transmissionUnit)
    requires t.Covering() && t.frames == frames && t.p.m == transmissionUnit - HEADER_SIZE && |t.p.msg| <= 65536
    ensures out == t.p.msg
  {
    hide Off, HonestWord, ToolRun, CoversOnce;
    var receiver := new RxSession(transmissionUnit, 65536);
    Pipe(receiver.Contents(), transmissionUnit - HEADER_SIZE, t);
    receiver.FeedAll(frames);
    out := receiver.stdout;
  }

  /** The sending tool fed in pieces of any size, the receiving tool fed the frames in the given order:
      the output is the input. */
  method PipeThroughTools(transmissionUnit: u16, chunks: seq<seq<byte>>, senderId: u16,
      order: seq<nat>) returns (out: seq<byte>)
    requires ValidUnit(transmissionUnit) && senderId < 8
    requires AllShort(chunks)
    requires Transmittable(Concat(chunks), transmissionUnit - HEADER_SIZE)
    requires CoversOnce(Eager(Concat(chunks), transmissionUnit - HEADER_SIZE), order)
    ensures out == Concat(chunks)
  {
    hide Off, Segmented, HonestWord, Members, All, Concat;
    var frames := TransmitOnce(transmissionUnit, chunks, senderId);
    ghost var config, origin := Config.Config(transmissionUnit), Coordinate(senderId, 0, 0);
    ghost var p := Eager(Concat(chunks), MaxPayload(config));
    TransmittableIsBounded(p.msg, p.m);
    SegmentedLength(config, origin, p, frames);
    ArrivedIsHonest(config, origin, p, frames, order);
    var arrived := Arrived(frames, order);
    out := ReceiveOnce(transmissionUnit, Transfer(p, senderId, 0, order, arrived), arrived);
  }

  lemma SegmentedLength(config: Config, origin: Coordinate, p: Package, frames: seq<seq<byte>>)
    requires Segmented(config, origin, p, frames)
    ensures |frames| == p.last + 1
  {
  }

  lemma Pipe(start: Session, m: u16, t: Transfer)
    requires m > 0 && t.Covering() && t.p.m == m && |t.p.msg| <= |start.assembly| && start.state == ZERO_STATE &&
             start.out == []
    ensures ToolRun(start, m, t.frames).Some? && ToolRun(start, m, t.frames).value.out == t.p.msg
  {
    hide ToolRun;
    OneTransfer(start, m, t);
  }

  // ----- the C# decoder -----

  /** The arrivals of one package whose serial is its wire id. */
  function OnePackage(senderId: u8, serial: u8, order: seq<nat>, arrived: seq<seq<byte>>): (trace: seq<Arrival>)
    requires |order| == |arrived|
    ensures |trace| == |order|
  {
    seq(|order|, j requires 0 <= j < |order| => Arrival(senderId, serial, order[j], arrived[j]))
  }

  lemma {:induction false} OnePackageFrames(senderId: u8, serial: u8, order: seq<nat>, arrived: seq<seq<byte>>)
    requires |order| == |arrived|
    ensures Frames(OnePackage(senderId, serial, order, arrived)) == arrived
  {
    if order != [] {
      var j := |order| - 1;
      OnePackageFrames(senderId, serial, order[..j], arrived[..j]);
      assert OnePackage(senderId, serial, order, arrived)[..j] ==
             OnePackage(senderId, serial, order[..j], arrived[..j]);
    }
  }

  lemma {:induction false} OneOwner(trace: seq<Arrival>, senderId: u8, serial: u8)
    requires forall j :: 0 <= j < |trace| ==> trace[j].sender == senderId && trace[j].serial == serial
    ensures LastSerial(BookOf(trace), senderId) in {0, serial as nat}
    ensures forall slot :: slot in BookOf(trace).owner ==> BookOf(trace).owner[slot] == serial
  {
    if trace != [] {
      OneOwner(trace[..|trace| - 1], senderId, serial);
    }
  }

  lemma OnePackageDisciplined(config: Config, p: Package, senderId: u8, serial: u8, order: seq<nat>,
      arrived: seq<seq<byte>>)
    requires p.Bounded() && p.m == MaxPayload(config) && senderId < 8
    requires HonestWord(p, senderId, serial, order, arrived)
    ensures Disciplined((_, _) => p, config, OnePackage(senderId, serial, order, arrived))
  {
    hide Honest, SpecRun, BookOf;
    var trace, pk: Messages := OnePackage(senderId, serial, order, arrived), (_, _) => p;
    forall j | 0 <= j < |trace|
      ensures Legal(pk, config, SpecRun(pk, trace[..j]).0, BookOf(trace[..j]), trace[j])
    {
      OneOwner(trace[..j], senderId, serial);
    }
  }

  lemma {:induction false} OnePackageOutcomes(pk: Messages, trace: seq<Arrival>, key: Key, ks: seq<nat>)
    requires |ks| == |trace|
    requires forall j :: 0 <= j < |trace| ==> IsFor(trace[j], key) && trace[j].slice == ks[j]
    ensures SpecRun(pk, trace).1 == Outcomes(pk(key.0, key.1), ks)
    ensures Got(SpecRun(pk, trace).0, key.0, key.1) == Collected(pk(key.0, key.1), ks)
  {
    if trace != [] {
      var j := |trace| - 1;
      OnePackageOutcomes(pk, trace[..j], key, ks[..j]);
    }
  }

  /** The j-th arrival does in the table what the machine on sets does. */
  lemma ArrivalInTable(b: Binding, config: Config, p: Package, senderId: u8, serial: u8, order: seq<nat>,
      arrived: seq<seq<byte>>)
    requires p.Bounded() && p.m == MaxPayload(config) && senderId < 8
    requires HonestWord(p, senderId, serial, order, arrived) && order != []
    ensures var j := |order| - 1;
            HaveHeaders(arrived) &&
            TableStep(b, TableRun(b, FreshTable(), config, arrived[..j]).0, config, arrived[j]) ==
              (TableRun(b, FreshTable(), config, arrived).0, OutcomeOf(p, Collected(p, order[..j]), order[j]))
  {
    hide TableStep, Disciplined, ReadHeader;
    var j, pk: Messages := |order| - 1, (_, _) => p;
    var trace := OnePackage(senderId, serial, order, arrived);
    OnePackageFrames(senderId, serial, order, arrived);
    OnePackageDisciplined(config, p, senderId, serial, order, arrived);
    TableRefinesMap(b, pk, config, trace);
    OnePackageOutcomes(pk, trace, (senderId as nat, serial as nat), order);
    assert TableRun(b, FreshTable(), config, arrived).1[j] == Outcomes(p, order)[j];
  }

  function DeliveredBy(p: Package, order: seq<nat>): seq<seq<byte>> {
    if order == [] then []
    else
      var j := |order| - 1;
      DeliveredBy(p, order[..j]) + if Fires(p, Collected(p, order[..j]), order[j]) then [p.msg] else []
  }

  lemma {:induction false} NothingDelivered(p: Package, order: seq<nat>)
    requires OfPackage(p, order) && Members(order) != All(p)
    ensures DeliveredBy(p, order) == [] && Collected(p, order) == Members(order)
  {
    QuietUntilCovered(p, order);
    if order != [] {
      PrefixIncomplete(p, order);
      NothingDelivered(p, order[..|order| - 1]);
    }
  }

  lemma OnceDelivered(p: Package, order: seq<nat>)
    requires CoversOnce(p, order)
    ensures DeliveredBy(p, order) == [p.msg]
  {
    var before := order[..|order| - 1];
    MembersInPackage(p, order);
    NothingDelivered(p, before);
  }

  /** A new C# decoder fed honest frames of one package through the real slot table. */
  method DecodeAll(transmissionUnit: u16, ghost p: Package, ghost senderId: u8, ghost packageId: u8,
      ghost order: seq<nat>,
                   arrived: seq<seq<byte>>)
      returns (delivered: seq<seq<byte>>)
    requires ValidUnit(transmissionUnit) && senderId < 8
    requires p.Bounded() && p.m == transmissionUnit - HEADER_SIZE
    requires HonestWord(p, senderId, packageId, order, arrived) && CoversOnce(p, order)
    ensures delivered == [p.msg]
  {
    hide Off, Honest, TableStep, Members, All, TableRun, Collected, Fires;
    var decoder := new CSharpDecoder.RxDecoder(transmissionUnit);
    var config := decoder.config;
    delivered := [];
    EmptyRun(config);
    for j := 0 to |arrived|
      invariant decoder.Valid() && fresh(decoder.coordinator.slots) && fresh(decoder.coordinator.senderMetas)
      invariant HaveHeaders(arrived[..j])
      invariant decoder.Contents() == TableRun(CSharp, FreshTable(), config, arrived[..j]).0
      invariant delivered == DeliveredBy(p, order[..j])
    {
      assert order[..j + 1][..j] == order[..j] && arrived[..j + 1][..j] == arrived[..j];
      assert HonestWord(p, senderId, packageId, order[..j + 1], arrived[..j + 1]);
      ArrivalInTable(CSharp, config, p, senderId, packageId, order[..j + 1], arrived[..j + 1]);
      var package := decoder.Decode(arrived[j]);
      if package.Some? {
        delivered := delivered + [package.value];
      }
    }
    assert order[..|order|] == order;
    OnceDelivered(p, order);
  }

  lemma EmptyRun(config: Config)
    requires MaxPayload(config) > 0
    ensures TableRun(CSharp, FreshTable(), config, []).0 == FreshTable()
  {
  }

  // ----- all senders -----

  /** The embedded encoder writing in pieces of any size, the C# decoder fed the frames in the given
      order: the decoder hands out the message, once. */
  method SendFromEmbedded(transmissionUnit: u16, chunks: seq<seq<byte>>, senderId: u8, packageSerial: u8,
      order: seq<nat>)
      returns (delivered: seq<seq<byte>>)
    requires ValidUnit(transmissionUnit) && senderId < 8
    requires AllShort(chunks)
    requires Transmittable(Concat(chunks), transmissionUnit - HEADER_SIZE)
    requires CoversOnce(Eager(Concat(chunks), transmissionUnit - HEADER_SIZE), order)
    ensures delivered == [Concat(chunks)]
  {
    hide Off, Segmented, HonestWord, Members, All, AllShort, Taken, Concat, Unfinished;
    var encoder := new EmbeddedEncoder(transmissionUnit, senderId);
    encoder.Encode(chunks, true, packageSerial);
    var frames := encoder.sink.wire;
    ghost var p, origin := Eager(Concat(chunks), MaxPayload(encoder.config)), Coordinate(senderId, packageSerial, 0);
    assert frames[0..] == frames;
    TransmittableIsBounded(p.msg, p.m);
    SegmentedLength(encoder.config, origin, p, frames);
    ArrivedIsHonest(encoder.config, origin, p, frames, order);
    delivered := DecodeAll(transmissionUnit, p, senderId, packageSerial, order, Arrived(frames, order));
  }

  /** The C# writer used with any hints that never ask a started slice for more room than it has. */
  method SendFromCSharp(transmissionUnit: u16, calls: seq<Call>, senderId: u8, order: seq<nat>)
      returns (delivered: seq<seq<byte>>)
    requires ValidUnit(transmissionUnit) && senderId < 8
    requires Fitting(transmissionUnit - HEADER_SIZE, calls) && HintsFit(transmissionUnit - HEADER_SIZE, calls)
    requires Transmittable(Data(calls), transmissionUnit - HEADER_SIZE)
    requires CoversOnce(Eager(Data(calls), transmissionUnit - HEADER_SIZE), order)
    ensures delivered == [Data(calls)]
  {
    hide Off, Segmented, HonestWord, Members, All, HintsFit, Fitting, Emitted, Ended, After, Data, Sizes, Concat;
    hide Carried;
    var encoder := new BufferWriter.TxEncoder(transmissionUnit, senderId);
    var writer := encoder.CreateWriter();
    WriteAll(writer, calls);
    var frames := writer.wire;
    ghost var p := Eager(Data(calls), MaxPayload(writer.config));
    TransmittableIsBounded(p.msg, p.m);
    SegmentedLength(writer.config, writer.origin, p, frames);
    ArrivedIsHonest(writer.config, writer.origin, p, frames, order);
    delivered := DecodeAll(transmissionUnit, p, senderId, writer.origin.packageId, order, Arrived(frames, order));
  }

  /** The C++ encoder whose serializer gives nothing back except part of its last window. */
  method SendFromCpp(transmissionUnit: u16, ws: seq<Window>, senderId: u8, order: seq<nat>)
      returns (delivered: seq<seq<byte>>)
    requires ValidUnit(transmissionUnit) && senderId < 8
    requires Usable(transmissionUnit - HEADER_SIZE, ws) && BacksUpAtTheEnd(transmissionUnit - HEADER_SIZE, ws)
    requires Transmittable(Intended(transmissionUnit - HEADER_SIZE, ws), transmissionUnit - HEADER_SIZE)
    requires CoversOnce(Lazy(Intended(transmissionUnit - HEADER_SIZE, ws), transmissionUnit - HEADER_SIZE), order)
    ensures delivered == [Intended(transmissionUnit - HEADER_SIZE, ws)]
  {
    hide Off, Segmented, HonestWord, Members, All, Usable, BacksUpAtTheEnd, FullSlices, SentAll, Intended, Sent, Whole;
    var encoder := new ZeroCopySender.TxEncoderCore(transmissionUnit, senderId);
    var buffer := new byte[transmissionUnit];
    var frames := encoder.Push(ws, true, buffer);
    ghost var m, origin := transmissionUnit - HEADER_SIZE, Coordinate(senderId, 0, 0);
    ghost var p := Lazy(Intended(m, ws), m);
    SentAsMeant(encoder.config, origin, ws, frames);
    TransmittableIsBounded(p.msg, p.m);
    SegmentedLength(encoder.config, origin, p, frames);
    ArrivedIsHonest(encoder.config, origin, p, frames, order);
    delivered := DecodeAll(transmissionUnit, p, senderId, 0, order, Arrived(frames, order));
  }

  lemma SentAsMeant(config: Config, origin: Coordinate, ws: seq<Window>, frames: seq<seq<byte>>)
    requires MaxPayload(config) > 0 && Usable(MaxPayload(config), ws) && BacksUpAtTheEnd(MaxPayload(config), ws)
    requires ws != [] ==> SentAll(config, origin, MaxPayload(config), ws, frames)
    requires Intended(MaxPayload(config), ws) != []
    ensures Segmented(config, origin, Lazy(Intended(MaxPayload(config), ws), MaxPayload(config)), frames)
  {
    hide Segmented, BacksUpAtTheEnd, Sent;
  }

  // ----- what a short slice costs -----

  /** The slices a writer has emitted by its first call that asks too much, that one's short slice included,
      are honest frames of what was written until then, as if that were a whole message. */
  lemma ShortSliceIsHonest(config: Config, origin: Coordinate, calls: seq<Call>, j: nat, frames: seq<seq<byte>>, k: nat)
    requires ValidUnit(config.transmissionUnit) && origin.senderId < 8
    requires Fitting(MaxPayload(config), calls) && j < |calls|
    requires NeverAsksTooMuch(MaxPayload(config), calls[..j]) && AsksTooMuch(MaxPayload(config), calls, j)
    requires Emitted(config, origin, After(MaxPayload(config), calls).parts, frames)
    ensures var p := Eager(Data(calls[..j]), MaxPayload(config));
            p.last < |frames| && (p.Short() && k <= p.last ==>
              Honest(p, origin.senderId, origin.packageId, k, frames[k]))
  {
    hide Off, SliceFrame, Honest, After, Data, NeverAsksTooMuch, Fitting;
    var m: u16 := MaxPayload(config);
    var w, p := After(m, calls[..j]), Eager(Data(calls[..j]), m);
    FittingPrefix(m, calls, j);
    FullIffNeverAsksTooMuch(m, calls[..j]);
    PartsGrow(m, calls, j);
    FullParts(w.parts, m);
    EagerWellFormed(p.msg, m);
    OffDiv(m, |w.parts|, |p.msg|);
    assert After(m, calls).parts[|w.parts|] == w.pending;
    if p.Short() && k <= p.last {
      assert SliceFrame(config, origin, k, After(m, calls).parts[k], false, frames[k]);
      PartIsPayload(p, w, k);
      SliceFrameIsHonest(config, origin, p, k, false, frames[k]);
    }
  }

  /** Full slices and a started one are the slices of what they hold. */
  lemma PartIsPayload(p: Package, w: Progress, k: nat)
    requires p.WellFormed() && p.msg == w.Written() && p.last == |w.parts| && k <= p.last
    requires AllFull(w.parts, p.m)
    ensures p.Payload(k) == if k < |w.parts| then w.parts[k] else w.pending
  {
    hide Off;
    FullParts(w.parts, p.m);
    OffMono(p.m, k, p.last);
  }

  lemma {:induction false} FittingPrefix(m: nat, calls: seq<Call>, j: nat)
    requires Fitting(m, calls) && j <= |calls|
    ensures Fitting(m, calls[..j])
    decreases |calls|
  {
    if j < |calls| {
      FittingPrefix(m, calls[..|calls| - 1], j);
      assert calls[..|calls| - 1][..j] == calls[..j];
    } else {
      assert calls[..j] == calls;
    }
  }

  /** The cost of a hint that asks too much: a receiver that gets the slices emitted until then, in any order
      and with any duplicates, hands out what was written before the call as if it were the whole message. */
  lemma AskingTooMuchTruncates(b: Binding, config: Config, origin: Coordinate, calls: seq<Call>, j: nat,
      frames: seq<seq<byte>>, order: seq<nat>, slot: Slot)
    requires ValidUnit(config.transmissionUnit) && origin.senderId < 8
    requires Fitting(MaxPayload(config), calls) && j < |calls|
    requires NeverAsksTooMuch(MaxPayload(config), calls[..j]) && AsksTooMuch(MaxPayload(config), calls, j)
    requires Emitted(config, origin, After(MaxPayload(config), calls).parts, frames)
    requires Eager(Data(calls[..j]), MaxPayload(config)).Short()
    requires CoversOnce(Eager(Data(calls[..j]), MaxPayload(config)), order)
    requires slot.state == ZERO_STATE
    ensures forall i :: 0 <= i < |order| ==> order[i] < |frames|
    ensures HaveHeaders(Arrived(frames, order))
    ensures SlotRun(b, slot, MaxPayload(config), Arrived(frames, order)).1 ==
            seq(|order| - 1, _ => Quiet) +
            [if Eager(Data(calls[..j]), MaxPayload(config)).Addressable() then Delivered(Data(calls[..j])) else Hangs]
    ensures Data(calls[..j]) <= Data(calls)
  {
    hide SlotRun, Honest, Emitted, NeverAsksTooMuch, AsksTooMuch, Fitting, After, Data, Members, All;
    var p := Eager(Data(calls[..j]), MaxPayload(config));
    PartsGrow(MaxPayload(config), calls, j);
    ShortSliceIsHonest(config, origin, calls, j, frames, 0);
    forall i | 0 <= i < |order|
      ensures Honest(p, origin.senderId, origin.packageId, order[i], Arrived(frames, order)[i])
    {
      ShortSliceIsHonest(config, origin, calls, j, frames, order[i]);
    }
    DeliveredOnce(b, p, slot, origin.senderId, origin.packageId, order, Arrived(frames, order));
  }
}
