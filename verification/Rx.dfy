/** The pure receiver operators: one slice in, one event and the next state out. */
module Rx {
  import opened Words
  import opened Common
  import opened Bitmap
  import opened Wrapping

  datatype State = State(bitmap: Bits, receivedCount: u16, termination: u16, watermark: u16)

  const ZERO_STATE := State(EMPTY_BITS, 0, 0, 0)

  datatype Event = Duplicate | OutOfOrder | InOrder | Complete

  datatype Inst = Inst(e: Event, next: State)

  datatype Option<T> = None | Some(value: T)

  function CalcTermination(sliceIdx: u8, payloadSize: u16, maxPayload: u16): u16 {
    U16(SliceIdxToOffset(sliceIdx, maxPayload) + payloadSize)
  }

  function TerminationToSliceCount(termination: u32, maxPayload: u16): u16
    requires maxPayload > 0
  {
    U16((termination + maxPayload - 1) / maxPayload)
  }

  predicate IsComplete(s: State, maxPayload: u16)
    requires maxPayload > 0
  {
    s.termination > 0 && s.receivedCount >= TerminationToSliceCount(s.termination, maxPayload)
  }

  function HeaderToCoordinate(config: Config, header: HeaderMeta): Coordinate {
    Coordinate(header.senderId, header.packageSerial, SliceIdxToOffset(header.sliceSerial, MaxPayload(config)))
  }

  /** How much of [curOff, newWm) one delivery step hands over. */
  function DeliverSize(curOff: nat, newWm: nat, maxPayload: u16): u16
    requires curOff <= newWm
  {
    if curOff + maxPayload > newWm then U16(newWm - curOff) else maxPayload
  }

  // ----- the watermark scan -----

  /** The loop leaves at offset `wm`: the end is reached, or the slice there has not arrived. */
  predicate Stops(s: State, wm: u16, maxPayload: u16)
    requires maxPayload > 0
  {
    || (s.termination > 0 && wm >= s.termination)
    || !TestBit(s.bitmap, OffsetToSliceIdx(wm, maxPayload))
  }

  function Clamp(s: State, wm: u16): u16 {
    if s.termination > 0 && wm > s.termination then s.termination else wm
  }

  /** The scan from `wm`, cut off after `fuel` further iterations; None when it has not stopped by then. */
  function Scan(s: State, wm: u16, maxPayload: u16, fuel: nat): Option<u16>
    requires maxPayload > 0
    decreases fuel
  {
    if Stops(s, wm, maxPayload) then Some(Clamp(s, wm))
    else if fuel == 0 then None
    else Scan(s, U16(wm + maxPayload), maxPayload, fuel - 1)
  }

  /** The watermark the loop computes, or None when the loop never ends. A 16-bit offset takes no more
      than 65536 values, so a scan that has not stopped after that many iterations never does. */
  function AdvancedWatermark(s: State, maxPayload: u16): Option<u16>
    requires maxPayload > 0
  {
    Scan(s, s.watermark, maxPayload, OFFSETS)
  }

  lemma NextOffset(wm: u16, maxPayload: u16, i: nat)
    ensures U16(U16(wm + maxPayload) + i * maxPayload) == U16(wm + (i + 1) * maxPayload)
  {
    MulSucc(i, maxPayload);
  }

  lemma {:induction false} ScanNone(s: State, wm: u16, maxPayload: u16, fuel: nat, i: nat)
    requires maxPayload > 0
    requires Scan(s, wm, maxPayload, fuel) == None
    requires i <= fuel
    ensures !Stops(s, U16(wm + i * maxPayload), maxPayload)
    decreases fuel
  {
    hide Stops;
    if i > 0 {
      ScanNone(s, U16(wm + maxPayload), maxPayload, fuel - 1, i - 1);
      NextOffset(wm, maxPayload, i - 1);
    }
  }

  lemma {:induction false} ScanSome(s: State, wm: u16, maxPayload: u16, fuel: nat, i: nat)
    requires maxPayload > 0
    requires Stops(s, U16(wm + i * maxPayload), maxPayload)
    requires i <= fuel
    ensures Scan(s, wm, maxPayload, fuel).Some?
    decreases fuel
  {
    hide Stops;
    if i > 0 && !Stops(s, wm, maxPayload) {
      NextOffset(wm, maxPayload, i - 1);
      ScanSome(s, U16(wm + maxPayload), maxPayload, fuel - 1, i - 1);
    }
  }

  /** The cut-off is exact: the scan has a result if and only if some iteration, however late, stops it. */
  lemma ScanEndsIffSomeOffsetStops(s: State, maxPayload: u16)
    requires maxPayload > 0
    ensures AdvancedWatermark(s, maxPayload).Some? <==>
            exists i: nat :: Stops(s, U16(s.watermark + i * maxPayload), maxPayload)
  {
    hide Stops;
    if AdvancedWatermark(s, maxPayload) == None {
      forall i: nat
        ensures !Stops(s, U16(s.watermark + i * maxPayload), maxPayload)
      {
        var r := i % OFFSETS;
        OffsetsRepeat(s.watermark, maxPayload, i / OFFSETS, r);
        ScanNone(s, s.watermark, maxPayload, OFFSETS, r);
      }
    } else if forall i: nat :: !Stops(s, U16(s.watermark + i * maxPayload), maxPayload) {
      NeverStopping(s, s.watermark, maxPayload, OFFSETS);
    }
  }

  lemma OffsetsRepeat(wm: u16, maxPayload: u16, q: nat, r: nat)
    ensures U16(wm + (q * OFFSETS + r) * maxPayload) == U16(wm + r * maxPayload)
  {
    assert (q * OFFSETS + r) * maxPayload == (q * maxPayload) * OFFSETS + r * maxPayload;
    ModAdd(wm + r * maxPayload, q * maxPayload);
  }

  lemma ModAdd(a: int, q: int)
    ensures U16(a + q * OFFSETS) == U16(a)
  {
  }

  lemma {:induction false} NeverStopping(s: State, wm: u16, maxPayload: u16, fuel: nat)
    requires maxPayload > 0
    requires forall i: nat :: !Stops(s, U16(wm + i * maxPayload), maxPayload)
    ensures Scan(s, wm, maxPayload, fuel) == None
    decreases fuel
  {
    hide Stops;
    assert !Stops(s, U16(wm + 0 * maxPayload), maxPayload);
    if fuel > 0 {
      var wm' := U16(wm + maxPayload);
      forall i: nat
        ensures !Stops(s, U16(wm' + i * maxPayload), maxPayload)
      {
        NextOffset(wm, maxPayload, i);
      }
      NeverStopping(s, wm', maxPayload, fuel - 1);
    }
  }

  /** The loop of the C core. It is total exactly where the scan has a result. */
  method AdvanceWatermark(s: State, maxPayload: u16) returns (wm: u16)
    requires maxPayload > 0
    requires AdvancedWatermark(s, maxPayload).Some?
    ensures Some(wm) == AdvancedWatermark(s, maxPayload)
  {
    wm := s.watermark;
    ghost var fuel: nat := OFFSETS;
    while true
      invariant Scan(s, wm, maxPayload, fuel) == AdvancedWatermark(s, maxPayload)
      decreases fuel
    {
      if s.termination > 0 && wm >= s.termination { break; }
      var sliceId := OffsetToSliceIdx(wm, maxPayload);
      if !TestBit(s.bitmap, sliceId) { break; }
      wm := U16(wm + maxPayload);
      fuel := fuel - 1;
    }
    if s.termination > 0 && wm > s.termination {
      wm := s.termination;
    }
  }

  // ----- the slice step -----

  /** The state after recording a new slice, before the watermark is looked at. */
  function Record(s: State, sliceId: u8, payloadSize: u16, maxPayload: u16, isEop: bool): State {
    State(
      SetBit(s.bitmap, sliceId),
      if payloadSize == 0 && isEop then s.receivedCount else U16(s.receivedCount + 1),
      if payloadSize < maxPayload || isEop then CalcTermination(sliceId, payloadSize, maxPayload) else s.termination,
      s.watermark)
  }

  /** What the step computes; None when its watermark scan never ends. */
  function Step(s: State, sliceId: u8, payloadSize: u16, maxPayload: u16, isEop: bool): Option<Inst>
    requires maxPayload > 0
  {
    if TestBit(s.bitmap, sliceId) then Some(Inst(Duplicate, s))
    else
      var recorded := Record(s, sliceId, payloadSize, maxPayload, isEop);
      if SliceIdxToOffset(sliceId, maxPayload) > s.watermark then Some(Inst(OutOfOrder, recorded))
      else
        match AdvancedWatermark(recorded, maxPayload)
        case None => None
        case Some(wm) =>
          var next := recorded.(watermark := wm);
          Some(Inst(if IsComplete(next, maxPayload) then Complete else InOrder, next))
  }

  method CalcSliceStep(s: State, sliceId: u8, payloadSize: u16, maxPayload: u16, isEop: bool) returns (r: Inst)
    requires maxPayload > 0
    requires Step(s, sliceId, payloadSize, maxPayload, isEop).Some?
    ensures Some(r) == Step(s, sliceId, payloadSize, maxPayload, isEop)
  {
    hide TestBit, SetBit, CalcTermination, AdvancedWatermark, IsComplete, SliceIdxToOffset;
    if TestBit(s.bitmap, sliceId) {
      return Inst(Duplicate, s);
    }
    var next := s;
    next := next.(bitmap := SetBit(next.bitmap, sliceId));
    if payloadSize < maxPayload || isEop {
      next := next.(termination := CalcTermination(sliceId, payloadSize, maxPayload));
    }
    if !(payloadSize == 0 && isEop) {
      next := next.(receivedCount := U16(s.receivedCount + 1));
    }
    var offset := SliceIdxToOffset(sliceId, maxPayload);
    var e;
    if offset > s.watermark {
      e := OutOfOrder;
    } else {
      var wm := AdvanceWatermark(next, maxPayload);
      next := next.(watermark := wm);
      e := if IsComplete(next, maxPayload) then Complete else InOrder;
    }
    r := Inst(e, next);
  }
}
