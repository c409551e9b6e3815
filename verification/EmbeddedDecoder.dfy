/** The embedded receiver: one state, an assembly buffer supplied by the caller, and a pull stream from
    which the message decoder reads the completed package in pieces of its own choosing. */
module EmbeddedDecoder {
  import opened Words
  import opened Common
  import opened Bitmap
  import opened Packages
  import opened Rx
  import opened ClosedForm
  import opened Watermark
  import opened Reassembly
  import opened Runs
  import opened ToolReceiver

  // ----- the pull stream -----

  /** What one read of `count` bytes at position `consumed` hands over. */
  function ReadAt(view: seq<byte>, consumed: nat, count: nat): (data: seq<byte>)
    requires consumed <= |view|
    ensures consumed + |data| <= |view|
  {
    view[consumed..Min(consumed + count, |view|)]
  }

  function Reads(view: seq<byte>, consumed: nat, counts: seq<nat>): seq<seq<byte>>
    requires consumed <= |view|
    decreases |counts|
  {
    if counts == [] then []
    else
      var data := ReadAt(view, consumed, counts[0]);
      [data] + Reads(view, consumed + |data|, counts[1..])
  }

  function Sum(counts: seq<nat>): nat {
    if counts == [] then 0 else counts[0] + Sum(counts[1..])
  }

  /** However the reader splits its reads, together they are the matching part of the package. */
  lemma {:induction false} ReadsConcatenate(view: seq<byte>, consumed: nat, counts: seq<nat>)
    requires consumed <= |view|
    ensures Concat(Reads(view, consumed, counts)) == ReadAt(view, consumed, Sum(counts))
    decreases |counts|
  {
    hide ReadAt, Concat;
    if counts == [] {
      NoReads(view, consumed);
    } else {
      var data := ReadAt(view, consumed, counts[0]);
      var rest := Reads(view, consumed + |data|, counts[1..]);
      ReadsConcatenate(view, consumed + |data|, counts[1..]);
      ConcatCons(data, rest);
      ReadsJoin(view, consumed, counts[0], Sum(counts[1..]));
    }
  }

  lemma NoReads(view: seq<byte>, consumed: nat)
    requires consumed <= |view|
    ensures Concat([]) == ReadAt(view, consumed, 0)
  {
  }

  /** Two reads in a row are one read of both sizes. */
  lemma ReadsJoin(view: seq<byte>, consumed: nat, a: nat, b: nat)
    requires consumed <= |view|
    ensures var mid := consumed + |ReadAt(view, consumed, a)|;
            ReadAt(view, consumed, a) + ReadAt(view, mid, b) == ReadAt(view, consumed, a + b)
  {
    var mid := consumed + |ReadAt(view, consumed, a)|;
    SliceSplit(view, consumed, mid, Min(consumed + a + b, |view|));
  }

  lemma OneRead(view: seq<byte>, consumed: nat, counts: seq<nat>, i: nat)
    requires consumed <= |view| && i < |counts|
    ensures var data := ReadAt(view, consumed, counts[i]);
            Reads(view, consumed, counts[i..]) == [data] + Reads(view, consumed + |data|, counts[i + 1..]) &&
            consumed + |data| == Min(consumed + counts[i], |view|)
  {
    assert counts[i..][1..] == counts[i + 1..];
  }

  class PullStream {
    const assembly: array<byte>
    const termination: u32
    const maxPayload: u16
    var consumed: u32

    ghost predicate Valid()
      reads this
    {
      && maxPayload > 0
      && termination <= assembly.Length
      && termination < 0x1_0000
      && consumed <= termination
    }

    ghost function View(): seq<byte>
      requires Valid()
      reads this, assembly
    {
      assembly[..termination]
    }

    constructor (assembly: array<byte>, termination: u32, maxPayload: u16)
      requires maxPayload > 0 && termination <= assembly.Length
      requires termination < 0x1_0000
      ensures Valid() && consumed == 0
      ensures this.assembly == assembly && this.termination == termination && this.maxPayload == maxPayload
    {
      this.assembly := assembly;
      this.termination := termination;
      this.maxPayload := maxPayload;
      consumed := 0;
    }

    /** Where one turn of the read loop copies from, and how much: inside the package, something unless the
        package is exhausted, and inside the current slot. Behind the 256 slots a package can have, where only
        a forged end lies, the wrapping subtraction makes it the rest of the package instead. */
    method Locate(count: nat) returns (src: nat, take: nat)
      requires Valid() && count > 0
      ensures src == consumed && take <= count && consumed + take <= termination
      ensures consumed < termination ==> take > 0
      ensures var slot := SliceIdxToOffset(OffsetToSliceIdx(U16(consumed), maxPayload), maxPayload);
              take > 0 && consumed < Off(maxPayload, 256) ==> slot <= src && src + take <= slot + maxPayload
    {
      hide Off, OffsetToSliceIdx, SliceIdxToOffset;
      SlotOf(consumed, maxPayload);
      var sliceIdx := OffsetToSliceIdx(U16(consumed), maxPayload);
      var sliceOff: u32 := SliceIdxToOffset(sliceIdx, maxPayload);
      var posInSlice: u32 := consumed - sliceOff;
      var avail: u32 := termination - consumed;
      var chunk := U32(maxPayload - posInSlice);
      if chunk > avail { chunk := avail; }
      take := if count < chunk then count else chunk;
      src := sliceOff + posInSlice;
    }

    /** The read loop: walks the package slot by slot and stops at its end. Without `keep` the bytes are
        skipped. */
    method Read(size: nat, keep: bool) returns (buf: seq<byte>)
      requires Valid()
      modifies this`consumed
      ensures Valid()
      ensures buf == if keep then ReadAt(View(), old(consumed), size) else []
      ensures consumed == Min(old(consumed) + size, termination)
    {
      hide Off, OffsetToSliceIdx, SliceIdxToOffset;
      buf := [];
      var count: nat := size;
      while count > 0
        invariant old(consumed) <= consumed <= termination && consumed - old(consumed) == size - count
        invariant buf == if keep then assembly[old(consumed)..consumed] else []
        decreases count
      {
        var src, take := Locate(count);
        if keep {
          ArraySplit(assembly, old(consumed), consumed, consumed + take);
          buf := buf + assembly[src..src + take];
        }
        consumed := consumed + take;
        count := count - take;
        if consumed >= termination { break; }
      }
      assert View()[old(consumed)..consumed] == assembly[old(consumed)..consumed];
    }
  }

  /** The slot the loop works in never starts past the next byte, and contains it within the 256 slots a
      package can have; behind them the slot has wrapped to the front. */
  lemma SlotOf(consumed: u32, maxPayload: u16)
    requires maxPayload > 0 && consumed < 0x1_0000
    ensures var sliceOff := SliceIdxToOffset(OffsetToSliceIdx(U16(consumed), maxPayload), maxPayload);
            sliceOff <= consumed &&
            if consumed < Off(maxPayload, 256) then consumed < sliceOff + maxPayload
              else sliceOff + maxPayload < consumed
  {
    hide Off, U8, U16, OffsetToSliceIdx, SliceIdxToOffset;
    var k := consumed / maxPayload;
    IndexOf(consumed, maxPayload);
    WrappedIndex(k);
    OffDiv(maxPayload, k, consumed);
    SlotBounds(maxPayload, U8(k), k, consumed);
    SlotStart(U8(k), maxPayload);
  }

  lemma SlotBounds(m: nat, j: nat, k: nat, consumed: nat)
    requires m > 0 && Off(m, k) <= consumed < Off(m, k) + m
    requires if k < 256 then j == k else j + 2 <= k
    ensures Off(m, j) <= consumed
    ensures if consumed < Off(m, 256) then consumed < Off(m, j) + m else Off(m, j) + m < consumed
  {
    hide Off;
    if k < 256 {
      OffMono(m, k, 256);
    } else {
      OffMono(m, 256, k);
      OffMono(m, j, k - 1);
      OffMono(m, k - 1, k);
    }
  }

  lemma SlotStart(j: u8, m: u16)
    requires Off(m, j) < 0x1_0000
    ensures SliceIdxToOffset(j, m) == Off(m, j)
  {
  }

  lemma IndexOf(consumed: u32, m: u16)
    requires m > 0 && consumed < 0x1_0000
    ensures OffsetToSliceIdx(U16(consumed), m) == U8(consumed / m)
  {
  }

  lemma WrappedIndex(k: nat)
    ensures if k < 256 then U8(k) == k else U8(k) + 2 <= k
  {
  }

  // ----- the decoder -----

  /** One frame through the core stream into the embedded event handler: the next state and buffer, and what
      the frame caused. None when the scan does not end or a memory access falls outside the frame or the
      buffer. */
  function EmbeddedStep(state: State, assembly: seq<byte>, maxPayload: u16,
      frame: seq<byte>): Option<(State, seq<byte>, Outcome)>
    requires maxPayload > 0
  {
    if |frame| < HEADER_SIZE then Some((state, assembly, Quiet))
    else
      var header := ReadHeader(frame);
      var size, offset := header.slicePayloadSize, SliceIdxToOffset(header.sliceSerial, maxPayload);
      match Step(state, header.sliceSerial, size, maxPayload, header.eop != 0)
      case None => None
      case Some(Inst(e, next)) =>
        if e == Duplicate then Some((state, assembly, Quiet))
        else if HEADER_SIZE + size > |frame| || (size > 0 && offset + size > |assembly|) then None
        else
          var assembly' := Place(assembly, offset, frame[HEADER_SIZE..HEADER_SIZE + size]);
          if e != Complete then Some((next, assembly', Quiet))
          else if next.termination > |assembly| then None
          else Some((ZERO_STATE, assembly', Delivered(assembly'[..next.termination])))
  }

  class Decoder {
    const config: Config
    const assembly: array<byte>
    var state: State

    constructor (config: Config, assembly: array<byte>)
      ensures this.config == config && this.assembly == assembly && state == ZERO_STATE
    {
      this.config := config;
      this.assembly := assembly;
      state := ZERO_STATE;
    }

    /** One block in. When it completes a package, the message decoder reads it with the given sequence
        of read sizes. */
    method Feed(frame: seq<byte>, counts: seq<nat>) returns (reads': Option<seq<seq<byte>>>)
      requires MaxPayload(config) > 0
      requires EmbeddedStep(state, assembly[..], MaxPayload(config), frame).Some?
      modifies this, assembly
      ensures var (state', assembly', outcome) :=
                EmbeddedStep(old(state), old(assembly[..]), MaxPayload(config), frame).value;
              state == state' && assembly[..] == assembly' &&
              reads' == if outcome.Delivered? then Some(Reads(outcome.msg, 0, counts)) else None
      ensures |frame| < HEADER_SIZE || TestBit(old(state).bitmap, ReadHeader(frame).sliceSerial) ==>
                state == old(state) && assembly[..] == old(assembly[..]) && reads' == None
    {
      reads' := None;
      if |frame| < HEADER_SIZE { return; }
      hide ReadHeader, Step, SliceIdxToOffset, Off;
      var header := ReadHeader(frame);
      var maxPayload: u16 := MaxPayload(config);
      var payloadSize: u16 := header.slicePayloadSize;
      var offset: u16 := SliceIdxToOffset(header.sliceSerial, maxPayload);
      var step := CalcSliceStep(state, header.sliceSerial, payloadSize, maxPayload, header.eop != 0);
      if step.e == Duplicate { return; }
      state := if step.e == Complete then ZERO_STATE else step.next;
      if payloadSize > 0 {
        Put(offset, frame[HEADER_SIZE..HEADER_SIZE + payloadSize]);
      }
      if step.e == Complete {
        var pieces := ReadOut(step.next.termination, counts);
        reads' := Some(pieces);
      }
    }

    method Put(offset: u16, data: seq<byte>)
      requires offset + |data| <= assembly.Length
      modifies assembly
      ensures assembly[..] == Overwrite(old(assembly[..]), offset, data)
    {
      forall i | 0 <= i < |data| {
        assembly[offset + i] := data[i];
      }
    }

    /** The message decoder's reads, one after another. */
    method ReadOut(termination: u32, counts: seq<nat>) returns (pieces: seq<seq<byte>>)
      requires MaxPayload(config) > 0 && termination <= assembly.Length
      requires termination < 0x1_0000
      ensures pieces == Reads(assembly[..termination], 0, counts)
    {
      hide Off, ReadAt, Reads;
      ghost var view := assembly[..termination];
      var stream := new PullStream(assembly, termination, MaxPayload(config));
      pieces := [];
      for i := 0 to |counts|
        invariant stream.Valid() && fresh(stream) && stream.View() == view
        invariant Reads(view, 0, counts) == pieces + Reads(view, stream.consumed, counts[i..])
      {
        OneRead(view, stream.consumed, counts, i);
        ghost var rest := Reads(view, Min(stream.consumed + counts[i], |view|), counts[i + 1..]);
        var data := stream.Read(counts[i], true);
        assert pieces + ([data] + rest) == (pieces + [data]) + rest;
        pieces := pieces + [data];
      }
      NoMoreReads(view, stream.consumed, counts[|counts|..]);
    }
  }

  lemma NoMoreReads(view: seq<byte>, consumed: nat, counts: seq<nat>)
    requires consumed <= |view| && counts == []
    ensures Reads(view, consumed, counts) == []
  {
  }

  // ----- honest frames -----

  ghost predicate Assembling(p: Package, s: set<nat>, state: State, assembly: seq<byte>) {
    p.Bounded() && |assembly| >= |p.msg| && Partial(p, s) && Closed(p, s, state) && Holds(p, s, assembly)
  }

  /** Fed an honest frame, the embedded decoder does what the machine on sets does. */
  lemma EmbeddedHonest(p: Package, s: set<nat>, state: State, assembly: seq<byte>, senderId: u8, packageId: u8,
      k: nat, frame: seq<byte>)
    requires Assembling(p, s, state, assembly) && Honest(p, senderId, packageId, k, frame)
    ensures EmbeddedStep(state, assembly, p.m, frame).Some?
    ensures var (state', assembly', outcome) := EmbeddedStep(state, assembly, p.m, frame).value;
            Assembling(p, Collect(p, s, k), state', assembly') && outcome == OutcomeOf(p, s, k)
  {
    hide ReadHeader, Step, Closed, Holds, Off, Place, SliceStep, EventOf;
    HonestStep(Cpp, p, Slot(state, assembly, 0), senderId, packageId, k, frame);
    HonestSize(p, senderId, packageId, k, frame);
    StepHonest(p, s, state, k);
    CollectPartial(p, s, k);
    EventCases(p, s, k);
    PlaceHolds(p, s, assembly, k);
    if k in s {
      assert s + {k} == s;
    } else if Fires(p, s, k) {
      var assembly' := Place(assembly, Off(p.m, k), p.Payload(k));
      FiringState(p, s + {k}, SliceStep(p, state, k).value.next);
      FullHolds(p, assembly');
      StartsCollecting(p, Slot(ZERO_STATE, assembly', 0));
    }
  }

  /** The decoder fed with frames one after another: its last state and buffer, and what each frame caused. */
  function EmbeddedRun(state: State, assembly: seq<byte>, maxPayload: u16,
      frames: seq<seq<byte>>): Option<(State, seq<byte>, seq<Outcome>)>
    requires maxPayload > 0
  {
    if frames == [] then Some((state, assembly, []))
    else
      match EmbeddedRun(state, assembly, maxPayload, frames[..|frames| - 1])
      case None => None
      case Some((before, buffer, outcomes)) =>
        match EmbeddedStep(before, buffer, maxPayload, frames[|frames| - 1])
        case None => None
        case Some((after, buffer', outcome)) => Some((after, buffer', outcomes + [outcome]))
  }

  lemma {:induction false} EmbeddedRefinesSets(p: Package, assembly: seq<byte>, senderId: u8, packageId: u8,
      ks: seq<nat>, frames: seq<seq<byte>>)
    requires p.Bounded() && |assembly| >= |p.msg|
    requires HonestWord(p, senderId, packageId, ks, frames)
    ensures EmbeddedRun(ZERO_STATE, assembly, p.m, frames).Some?
    ensures var (state', assembly', outcomes) := EmbeddedRun(ZERO_STATE, assembly, p.m, frames).value;
            Assembling(p, Collected(p, ks), state', assembly') && outcomes == Outcomes(p, ks)
  {
    hide EmbeddedStep, Assembling, Honest;
    if ks == [] {
      EmbeddedStarts(p, assembly);
    } else {
      var j := |ks| - 1;
      EmbeddedRefinesSets(p, assembly, senderId, packageId, ks[..j], frames[..j]);
      var (before, buffer, _) := EmbeddedRun(ZERO_STATE, assembly, p.m, frames[..j]).value;
      EmbeddedHonest(p, Collected(p, ks[..j]), before, buffer, senderId, packageId, ks[j], frames[j]);
    }
  }

  lemma EmbeddedStarts(p: Package, assembly: seq<byte>)
    requires p.Bounded() && |assembly| >= |p.msg|
    ensures Assembling(p, {}, ZERO_STATE, assembly)
  {
    NothingReceived(p);
  }

  /** Over any word of honest frames the embedded decoder hands a package to its reader at exactly the
      positions where the frames since the last one first cover it, and what the reader then pulls, in pieces
      of any size, is the message from its start. */
  lemma EmbeddedCovering(p: Package, assembly: seq<byte>, senderId: u8, packageId: u8, ks: seq<nat>,
      frames: seq<seq<byte>>, j: nat, counts: seq<nat>)
    requires p.Bounded() && |assembly| >= |p.msg|
    requires HonestWord(p, senderId, packageId, ks, frames) && j < |ks|
    ensures EmbeddedRun(ZERO_STATE, assembly, p.m, frames).Some?
    ensures var outs := EmbeddedRun(ZERO_STATE, assembly, p.m, frames).value.2;
            |outs| == |ks| &&
            outs[j] == (if Members(ks[CycleStart(outs, j)..j + 1]) == All(p) then Delivered(p.msg) else Quiet) &&
            (outs[j].Delivered? ==> Concat(Reads(outs[j].msg, 0, counts)) == p.msg[..Min(Sum(counts), |p.msg|)])
  {
    hide EmbeddedRun, Honest, Assembling, Outcomes, CycleStart, Members, Reads, Concat;
    EmbeddedRefinesSets(p, assembly, senderId, packageId, ks, frames);
    GreedyOutcome(p, ks, j);
    ReadsConcatenate(p.msg, 0, counts);
  }
}
