/** The command line receiver: one state for every coordinate, an assembly buffer that is never
    cleared, and an output that grows as soon as bytes become contiguous. */
module ToolReceiver {
  import opened Words
  import opened Common
  import opened Bitmap
  import opened Packages
  import opened Rx
  import opened ClosedForm
  import opened Watermark
  import opened Reassembly
  import opened Runs

  datatype Session = Session(state: State, assembly: seq<byte>, out: seq<byte>)

  /** The core does not clip the payload size to the frame and does not know how large the buffer is:
      what a frame makes it touch must be there. */
  predicate InBounds(assemblySize: nat, before: State, next: State, offset: nat, payloadSize: nat, frame: seq<byte>) {
    && HEADER_SIZE + payloadSize <= |frame|
    && (payloadSize > 0 ==> offset + payloadSize <= assemblySize)
    && (before.watermark < next.watermark ==> next.watermark <= assemblySize)
  }

  /** One frame through the core stream and the event handler; None when the scan does not end or a
      memory access falls outside the frame or the buffer. */
  function ToolStep(s: Session, maxPayload: u16, frame: seq<byte>): Option<Session>
    requires maxPayload > 0
  {
    if |frame| < HEADER_SIZE then Some(s)
    else
      var header := ReadHeader(frame);
      var size, offset := header.slicePayloadSize, SliceIdxToOffset(header.sliceSerial, maxPayload);
      match Step(s.state, header.sliceSerial, size, maxPayload, header.eop != 0)
      case None => None
      case Some(Inst(e, next)) =>
        if e == Duplicate then Some(s)
        else if !InBounds(|s.assembly|, s.state, next, offset, size, frame) then None
        else
          var assembly := Place(s.assembly, offset, frame[HEADER_SIZE..HEADER_SIZE + size]);
          Some(Session(
            if e == Complete then ZERO_STATE else next,
            assembly,
            s.out + if s.state.watermark < next.watermark then assembly[s.state.watermark..next.watermark] else []))
  }

  function ToolRun(s: Session, maxPayload: u16, frames: seq<seq<byte>>): Option<Session>
    requires maxPayload > 0
  {
    if frames == [] then Some(s)
    else
      match ToolRun(s, maxPayload, frames[..|frames| - 1])
      case None => None
      case Some(s') => ToolStep(s', maxPayload, frames[|frames| - 1])
  }

  /** A run that succeeds succeeds step by step. */
  lemma {:induction false} RunPrefix(s: Session, m: u16, frames: seq<seq<byte>>, j: nat)
    requires m > 0 && j < |frames| && ToolRun(s, m, frames).Some?
    ensures ToolRun(s, m, frames[..j]).Some?
    ensures ToolRun(s, m, frames[..j + 1]) == ToolStep(ToolRun(s, m, frames[..j]).value, m, frames[j])
    ensures ToolRun(s, m, frames[..j + 1]).Some?
    decreases |frames|
  {
    hide ToolStep;
    assert frames[..j + 1][..j] == frames[..j];
    if j + 1 == |frames| {
      assert frames[..j + 1] == frames;
    } else {
      var before := frames[..|frames| - 1];
      RunPrefix(s, m, before, j);
      assert before[..j] == frames[..j] && before[..j + 1] == frames[..j + 1];
    }
  }

  class RxSession {
    const config: Config
    const assembly: array<byte>
    var state: State
    var stdout: seq<byte>

    ghost function Contents(): Session
      reads this, assembly
    {
      Session(state, assembly[..], stdout)
    }

    constructor (transmissionUnit: u16, assemblySize: nat)
      ensures config == Config.Config(transmissionUnit) && assembly.Length == assemblySize && fresh(assembly)
      ensures state == ZERO_STATE && stdout == []
    {
      config := Config.Config(transmissionUnit);
      assembly := new byte[assemblySize];
      state := ZERO_STATE;
      stdout := [];
    }

    method StateGet(coord: Coordinate) returns (s: State)
      ensures s == state
    {
      s := state;
    }

    method StatePut(coord: Coordinate, s: State)
      modifies this`state
      ensures state == s
    {
      state := s;
    }

    method PayloadPut(coord: Coordinate, data: seq<byte>)
      requires coord.offset + |data| <= assembly.Length
      modifies assembly
      ensures assembly[..] == Overwrite(old(assembly[..]), coord.offset, data)
    {
      forall i | 0 <= i < |data| {
        assembly[coord.offset + i] := data[i];
      }
    }

    /** Writes `assembly[from..from + size]`, however the system splits the write. */
    method WriteAll(from: nat, size: nat)
      requires from + size <= assembly.Length
      modifies this`stdout
      ensures stdout == old(stdout) + assembly[from..from + size]
    {
      var p, rem: nat := from, size;
      while rem > 0
        invariant from <= p && p + rem == from + size
        invariant stdout == old(stdout) + assembly[from..p]
      {
        var n: nat :| 1 <= n <= rem;
        stdout := stdout + assembly[p..p + n];
        ArraySplit(assembly, from, p, p + n);
        p := p + n;
        rem := rem - n;
      }
    }

    /** Writes the contiguous bytes [from, to), one slot at a time. */
    method Flush(from: nat, to: u16)
      requires MaxPayload(config) > 0 && from < to <= assembly.Length
      modifies this`stdout
      ensures stdout == old(stdout) + assembly[from..to]
    {
      var maxP: u16 := MaxPayload(config);
      var curOff: nat := from;
      while curOff < to
        invariant from <= curOff
        invariant stdout == old(stdout) + assembly[from..Min(curOff, to)]
        decreases if curOff < to then to - curOff else 0
      {
        var sz := DeliverSize(curOff, to, maxP);
        WriteAll(curOff, sz);
        ArraySplit(assembly, from, curOff, curOff + sz);
        curOff := curOff + maxP;
      }
    }

    /** Stores the slice, then flushes what has become contiguous. */
    method OnEvent(coord: Coordinate, next: State, oldWatermark: u32, payload: seq<byte>)
      requires MaxPayload(config) > 0
      requires payload != [] ==> coord.offset + |payload| <= assembly.Length
      requires oldWatermark < next.watermark ==> next.watermark <= assembly.Length
      modifies assembly, this`stdout
      ensures assembly[..] == Place(old(assembly[..]), coord.offset, payload)
      ensures stdout == old(stdout) +
                if oldWatermark < next.watermark then assembly[oldWatermark..next.watermark] else []
    {
      if |payload| > 0 {
        PayloadPut(coord, payload);
      }
      if oldWatermark < next.watermark {
        Flush(oldWatermark, next.watermark);
      }
    }

    /** The core stream's entry point with this session as coordinator and event handler. */
    method Feed(frame: seq<byte>)
      requires MaxPayload(config) > 0
      requires ToolStep(Contents(), MaxPayload(config), frame).Some?
      modifies this, assembly
      ensures Some(Contents()) == ToolStep(old(Contents()), MaxPayload(config), frame)
      ensures |frame| < HEADER_SIZE || TestBit(old(state).bitmap, ReadHeader(frame).sliceSerial) ==>
                Contents() == old(Contents())
    {
      if |frame| < HEADER_SIZE { return; }
      hide ReadHeader, Step, SliceIdxToOffset, Place;
      var header := ReadHeader(frame);
      var maxPayload: u16 := MaxPayload(config);
      var payloadSize: u16 := header.slicePayloadSize;
      var coord := HeaderToCoordinate(config, header);
      var oldState := StateGet(coord);
      var step := CalcSliceStep(oldState, header.sliceSerial, payloadSize, maxPayload, header.eop != 0);
      if step.e == Duplicate { return; }
      if step.e == Complete {
        StatePut(coord, ZERO_STATE);
      } else {
        StatePut(coord, step.next);
      }
      OnEvent(coord, step.next, oldState.watermark, frame[HEADER_SIZE..HEADER_SIZE + payloadSize]);
    }

    /** The tool's main loop over the blocks it reads. */
    method FeedAll(frames: seq<seq<byte>>)
      requires MaxPayload(config) > 0
      requires ToolRun(Contents(), MaxPayload(config), frames).Some?
      modifies this, assembly
      ensures Some(Contents()) == ToolRun(old(Contents()), MaxPayload(config), frames)
    {
      hide ToolStep;
      ghost var start := Contents();
      for j := 0 to |frames|
        invariant ToolRun(start, MaxPayload(config), frames[..j]) == Some(Contents())
      {
        RunPrefix(start, MaxPayload(config), frames, j);
        Feed(frames[j]);
      }
      assert frames[..|frames|] == frames;
    }
  }

  // ----- in-order streaming -----

  /** Bytes before the watermark lie in received slices. */
  lemma CoveredByte(p: Package, s: set<nat>, i: nat)
    requires p.Bounded() && i < Covered(p, s)
    ensures SliceOf(p, i) in s
  {
    hide Off;
    OffDiv(p.m, SliceOf(p, i), i);
    if SliceOf(p, i) >= FirstGap(p, s) {
      OffMono(p.m, FirstGap(p, s), SliceOf(p, i));
    }
  }

  lemma CoveredBytes(p: Package, s: set<nat>, buf: seq<byte>)
    requires p.Bounded() && Holds(p, s, buf)
    ensures Covered(p, s) <= |p.msg| && Covered(p, s) <= |buf|
    ensures buf[..Covered(p, s)] == p.msg[..Covered(p, s)]
  {
    hide Off;
    var c := Covered(p, s);
    forall i: nat | i < c
      ensures i < |buf| && buf[i] == p.msg[i]
    {
      CoveredByte(p, s, i);
    }
    if c > 0 {
      CoveredByte(p, s, c - 1);
    }
  }

  lemma CoveredGrows(p: Package, s: set<nat>, k: nat)
    requires p.Bounded()
    ensures Covered(p, s) <= Covered(p, s + {k}) <= |p.msg|
  {
    hide Off;
    var g := FirstGap(p, s);
    assert FirstGap(p, s + {k}) >= g;
    OffMono(p.m, g, FirstGap(p, s + {k}));
  }

  function Repeated(msg: seq<byte>, n: nat): seq<byte> {
    if n == 0 then [] else Repeated(msg, n - 1) + msg
  }

  function Completions(p: Package, ks: seq<nat>): nat {
    if ks == [] then 0
    else Completions(p, ks[..|ks| - 1]) + if Fires(p, Collected(p, ks[..|ks| - 1]), ks[|ks| - 1]) then 1 else 0
  }

  /** The session is collecting package `p`, has `s` so far, and within this cycle has written exactly
      the contiguous prefix of the message. */
  ghost predicate Streaming(p: Package, s: set<nat>, session: Session, written: seq<byte>) {
    && p.Bounded()
    && |session.assembly| >= |p.msg|
    && Partial(p, s)
    && Closed(p, s, session.state)
    && Holds(p, s, session.assembly)
    && session.out == written + p.msg[..Covered(p, s)]
  }

  lemma PlaceHolds(p: Package, s: set<nat>, buf: seq<byte>, k: nat)
    requires p.Bounded() && k <= p.last && |buf| >= |p.msg| && Holds(p, s, buf)
    ensures Off(p.m, k) + p.Size(k) <= |p.msg|
    ensures |p.Payload(k)| == p.Size(k)
    ensures Holds(p, s + {k}, Place(buf, Off(p.m, k), p.Payload(k)))
  {
    hide Off;
    StartsInside(p, k);
    OffMono(p.m, k, p.last);
    StoreHolds(Cpp, p, s, buf, k);
  }

  /** The step of the session on an honest frame, reduced to the slice it carries. */
  lemma ToolStepHonest(p: Package, session: Session, senderId: u8, packageId: u8, k: nat, frame: seq<byte>, inst: Inst)
    requires p.Bounded() && Honest(p, senderId, packageId, k, frame)
    requires SliceStep(p, session.state, k) == Some(inst)
    requires Off(p.m, k) + p.Size(k) <= |session.assembly|
    requires session.state.watermark < inst.next.watermark ==> inst.next.watermark <= |session.assembly|
    ensures var assembly := Place(session.assembly, Off(p.m, k), p.Payload(k));
            ToolStep(session, p.m, frame) == Some(
              if inst.e == Duplicate then session
              else Session(
                if inst.e == Complete then ZERO_STATE else inst.next,
                assembly,
                session.out + if session.state.watermark < inst.next.watermark
                  then assembly[session.state.watermark..inst.next.watermark] else []))
  {
    hide ReadHeader, Step, Off, Place;
    HonestStep(Cpp, p, Slot(session.state, session.assembly, 0), senderId, packageId, k, frame);
    HonestSize(p, senderId, packageId, k, frame);
  }

  /** Flushing [before, after) extends the written prefix and nothing else. */
  lemma FlushExtends(p: Package, s: set<nat>, k: nat, assembly: seq<byte>)
    requires p.Bounded() && Holds(p, s + {k}, assembly)
    ensures Covered(p, s) <= Covered(p, s + {k}) <= |p.msg| && Covered(p, s + {k}) <= |assembly|
    ensures p.msg[..Covered(p, s + {k})] ==
            p.msg[..Covered(p, s)] +
              if Covered(p, s) < Covered(p, s + {k}) then assembly[Covered(p, s)..Covered(p, s + {k})] else []
  {
    hide Covered, Holds;
    CoveredGrows(p, s, k);
    CoveredBytes(p, s + {k}, assembly);
    var from, to := Covered(p, s), Covered(p, s + {k});
    assert p.msg[..to] == p.msg[..from] + assembly[..to][from..];
    assert assembly[..to][from..] == assembly[from..to];
  }

  lemma StreamHonest(p: Package, s: set<nat>, session: Session, written: seq<byte>, senderId: u8, packageId: u8,
      k: nat, frame: seq<byte>)
    requires Streaming(p, s, session, written) && Honest(p, senderId, packageId, k, frame)
    ensures ToolStep(session, p.m, frame).Some?
    ensures var session' := ToolStep(session, p.m, frame).value;
            |session'.assembly| == |session.assembly| &&
            Streaming(p, Collect(p, s, k), session', if Fires(p, s, k) then written + p.msg else written)
  {
    hide ReadHeader, Closed, Holds, Off, Place, Covered, ToolStep, SliceStep, EventOf;
    StepHonest(p, s, session.state, k);
    CollectPartial(p, s, k);
    var inst := SliceStep(p, session.state, k).value;
    PlaceHolds(p, s, session.assembly, k);
    Watermarks(p, s, session.state);
    Watermarks(p, s + {k}, inst.next);
    var assembly := Place(session.assembly, Off(p.m, k), p.Payload(k));
    FlushExtends(p, s, k, assembly);
    ToolStepHonest(p, session, senderId, packageId, k, frame, inst);
    EventCases(p, s, k);
    if k in s {
      assert s + {k} == s;
    } else if Fires(p, s, k) {
      AllCovered(p);
      StartsCollecting(p, Slot(ZERO_STATE, assembly, 0));
    }
  }

  lemma EventCases(p: Package, s: set<nat>, k: nat)
    requires Partial(p, s)
    ensures k in s <==> EventOf(p, s, k) == Duplicate
    ensures Fires(p, s, k) <==> EventOf(p, s, k) == Complete
  {
    if k in s {
      assert s + {k} == s;
    }
  }

  lemma HonestSize(p: Package, senderId: u8, packageId: u8, k: nat, frame: seq<byte>)
    requires p.Bounded() && Honest(p, senderId, packageId, k, frame)
    ensures |frame| >= HEADER_SIZE + p.Size(k)
    ensures ReadHeader(frame).slicePayloadSize == PayloadSize(Cpp, ReadHeader(frame), frame) == p.Size(k)
    ensures frame[HEADER_SIZE..HEADER_SIZE + p.Size(k)] == p.Payload(k)
  {
    hide ReadHeader, Off;
  }

  lemma Watermarks(p: Package, s: set<nat>, st: State)
    requires Closed(p, s, st)
    ensures st.watermark == Covered(p, s)
  {
  }

  lemma AllCovered(p: Package)
    requires p.Bounded()
    ensures p.msg[..Covered(p, All(p))] == p.msg
    ensures Covered(p, {}) == 0
  {
    FullGap(p);
    OffSucc(p.m, p.last);
  }

  /** In-order streaming: after every word of honest frames, with duplicates, gaps filled late and
      repeated cycles, the output is the message once per completed cycle followed by exactly the
      contiguous prefix received in the current one. */
  lemma {:induction false} StreamsInOrder(p: Package, session: Session, senderId: u8, packageId: u8, ks: seq<nat>,
      frames: seq<seq<byte>>)
    requires p.Bounded() && session.state == ZERO_STATE && |session.assembly| >= |p.msg|
    requires HonestWord(p, senderId, packageId, ks, frames)
    ensures ToolRun(session, p.m, frames).Some?
    ensures var end := ToolRun(session, p.m, frames).value;
            |end.assembly| == |session.assembly| &&
            Streaming(p, Collected(p, ks), end, session.out + Repeated(p.msg, Completions(p, ks)))
  {
    hide ToolStep, Honest, Closed, Holds, Off;
    if ks == [] {
      StartsCollecting(p, Slot(session.state, session.assembly, 0));
      AllCovered(p);
    } else {
      var j := |ks| - 1;
      StreamsInOrder(p, session, senderId, packageId, ks[..j], frames[..j]);
      var written := session.out + Repeated(p.msg, Completions(p, ks[..j]));
      StreamHonest(p, Collected(p, ks[..j]), ToolRun(session, p.m, frames[..j]).value, written, senderId, packageId,
        ks[j], frames[j]);
      assert written + p.msg == session.out + (Repeated(p.msg, Completions(p, ks[..j])) + p.msg);
    }
  }

  // ----- packages one after another -----

  datatype Transfer = Transfer(p: Package, senderId: u8, packageId: u8, ks: seq<nat>, frames: seq<seq<byte>>) {

    /** The frames arrive shuffled and repeated at will, but the package is complete with the last one
        and not before. */
    ghost predicate Covering() {
      p.Bounded() && HonestWord(p, senderId, packageId, ks, frames) && CoversOnce(p, ks)
    }
  }

  function AllFrames(ts: seq<Transfer>): seq<seq<byte>> {
    if ts == [] then [] else AllFrames(ts[..|ts| - 1]) + ts[|ts| - 1].frames
  }

  function AllMessages(ts: seq<Transfer>): seq<byte> {
    if ts == [] then [] else AllMessages(ts[..|ts| - 1]) + ts[|ts| - 1].p.msg
  }

  lemma {:induction false} NoCompletionUntilCovered(p: Package, ks: seq<nat>)
    requires OfPackage(p, ks) && Members(ks) != All(p)
    ensures Completions(p, ks) == 0
  {
    if ks != [] {
      var before := ks[..|ks| - 1];
      PrefixIncomplete(p, ks);
      QuietUntilCovered(p, before);
      NoCompletionUntilCovered(p, before);
    }
  }

  /** The transfer suits a receiver with this payload size and this much room. */
  ghost predicate Fits(t: Transfer, maxPayload: u16, room: nat) {
    t.Covering() && t.p.m == maxPayload && |t.p.msg| <= room
  }

  /** `end` is idle again and has written `msg` since `session`. */
  ghost predicate Wrote(session: Session, end: Option<Session>, msg: seq<byte>) {
    && end.Some?
    && end.value.state == ZERO_STATE
    && end.value.out == session.out + msg
    && |end.value.assembly| == |session.assembly|
  }

  lemma OneTransfer(session: Session, maxPayload: u16, t: Transfer)
    requires maxPayload > 0 && Fits(t, maxPayload, |session.assembly|) && session.state == ZERO_STATE
    ensures Wrote(session, ToolRun(session, maxPayload, t.frames), t.p.msg)
  {
    hide ToolRun, Honest, Off, Closed, Holds, Covered, HonestWord;
    var p, ks := t.p, t.ks;
    var before := ks[..|ks| - 1];
    StreamsInOrder(p, session, t.senderId, t.packageId, ks, t.frames);
    WordInPackage(p, t.senderId, t.packageId, ks, t.frames);
    QuietUntilCovered(p, before);
    NoCompletionUntilCovered(p, before);
    assert Repeated(p.msg, 1) == Repeated(p.msg, 0) + p.msg == p.msg;
    AllCovered(p);
    var end := ToolRun(session, p.m, t.frames).value;
    IdleIsZero(p, Slot(end.state, end.assembly, 0));
  }

  lemma {:induction false} ToolRunAppend(s: Session, maxPayload: u16, a: seq<seq<byte>>, b: seq<seq<byte>>)
    requires maxPayload > 0
    ensures ToolRun(s, maxPayload, a + b) ==
            match ToolRun(s, maxPayload, a)
            case None => None
            case Some(mid) => ToolRun(mid, maxPayload, b)
    decreases |b|
  {
    hide ToolStep;
    if b == [] {
      assert a + b == a;
    } else {
      assert (a + b)[..|a + b| - 1] == a + b[..|b| - 1];
      ToolRunAppend(s, maxPayload, a, b[..|b| - 1]);
    }
  }

  lemma OneMoreTransfer(session: Session, maxPayload: u16, frames: seq<seq<byte>>, msg: seq<byte>, t: Transfer)
    requires maxPayload > 0 && Fits(t, maxPayload, |session.assembly|)
    requires Wrote(session, ToolRun(session, maxPayload, frames), msg)
    ensures Wrote(session, ToolRun(session, maxPayload, frames + t.frames), msg + t.p.msg)
  {
    hide ToolRun, Fits;
    ToolRunAppend(session, maxPayload, frames, t.frames);
    var mid := ToolRun(session, maxPayload, frames).value;
    OneTransfer(mid, maxPayload, t);
    assert session.out + (msg + t.p.msg) == mid.out + t.p.msg;
  }

  /** Back to back: when packages arrive one after another the single-state receiver writes the
      concatenation of all messages, for any number of packages. */
  lemma {:induction false} BackToBack(session: Session, maxPayload: u16, ts: seq<Transfer>)
    requires maxPayload > 0 && session.state == ZERO_STATE
    requires forall j :: 0 <= j < |ts| ==> Fits(ts[j], maxPayload, |session.assembly|)
    ensures Wrote(session, ToolRun(session, maxPayload, AllFrames(ts)), AllMessages(ts))
  {
    if ts == [] {
      assert session.out + AllMessages(ts) == session.out;
    } else {
      hide ToolRun, Fits, Wrote;
      var before, t := ts[..|ts| - 1], ts[|ts| - 1];
      BackToBack(session, maxPayload, before);
      OneMoreTransfer(session, maxPayload, AllFrames(before), AllMessages(before), t);
    }
  }
}
