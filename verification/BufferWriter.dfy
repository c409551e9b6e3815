/** The C# sender: a buffer writer that hands out the rest of the current slice and emits it when full. */
module BufferWriter {
  import opened Words
  import opened Common
  import opened Tx
  import opened Packages
  import opened StreamSender

  /** The frames of the slices emitted so far, whatever their sizes. */
  ghost predicate Emitted(config: Config, origin: Coordinate, parts: seq<seq<byte>>, frames: seq<seq<byte>>) {
    && |frames| == |parts|
    && forall k: nat :: k < |parts| ==> SliceFrame(config, origin, k, parts[k], false, frames[k])
  }

  lemma OneMorePart(config: Config, origin: Coordinate, parts: seq<seq<byte>>, frames: seq<seq<byte>>,
      part: seq<byte>, all: seq<seq<byte>>)
    requires Emitted(config, origin, parts, frames)
    requires |all| == |frames| + 1 && all[..|frames|] == frames
    requires SliceFrame(config, origin, |parts|, part, false, all[|frames|])
    ensures Emitted(config, origin, parts + [part], all)
    ensures Concat(parts + [part]) == Concat(parts) + part
  {
    hide SliceFrame, Concat;
    ConcatSnoc(parts, part);
    assert forall k: nat :: k < |frames| ==> all[k] == all[..|frames|][k];
  }

  ghost predicate AllFull(parts: seq<seq<byte>>, m: nat) {
    forall k :: 0 <= k < |parts| ==> |parts[k]| == m
  }

  lemma {:induction false} FullParts(parts: seq<seq<byte>>, m: nat)
    requires AllFull(parts, m)
    ensures |Concat(parts)| == Off(m, |parts|)
    ensures forall k: nat :: k < |parts| ==>
            Off(m, k) + m <= |Concat(parts)| && Concat(parts)[Off(m, k)..Off(m, k) + m] == parts[k]
  {
    hide Off;
    OffSucc(m, 0);
    if parts != [] {
      var n := |parts| - 1;
      FullParts(parts[..n], m);
      OffSucc(m, n);
      var front, all := Concat(parts[..n]), Concat(parts);
      assert all == front + parts[n];
      hide Concat;
      forall k: nat | k <= n
        ensures Off(m, k) + m <= |Concat(parts)| && Concat(parts)[Off(m, k)..Off(m, k) + m] == parts[k]
      {
        if k < n {
          assert parts[..n][k] == parts[k];
        }
      }
    }
  }

  lemma PartsAreFullSlices(config: Config, origin: Coordinate, parts: seq<seq<byte>>, tail: seq<byte>,
      frames: seq<seq<byte>>)
    requires Emitted(config, origin, parts, frames) && AllFull(parts, MaxPayload(config))
    ensures FullSlices(config, origin, Concat(parts) + tail, |parts|, frames)
    ensures |Concat(parts)| == Off(MaxPayload(config), |parts|)
  {
    hide Off, SliceFrame;
    var m := MaxPayload(config);
    FullParts(parts, m);
    forall k: nat | k < |parts|
      ensures FullSlice(config, origin, Concat(parts) + tail, k, frames[k])
    {
      assert (Concat(parts) + tail)[Off(m, k)..Off(m, k) + m] == parts[k];
    }
  }

  /** The frames of a finished writer are the eager segmentation exactly when every slice but the last
      was emitted full. */
  lemma EagerIffFull(config: Config, origin: Coordinate, parts: seq<seq<byte>>, tail: seq<byte>,
      frames: seq<seq<byte>>, frame: seq<byte>)
    requires ValidUnit(config.transmissionUnit)
    requires Emitted(config, origin, parts, frames)
    requires forall k :: 0 <= k < |parts| ==> |parts[k]| <= MaxPayload(config)
    requires |tail| < MaxPayload(config)
    requires SliceFrame(config, origin, |parts|, tail, true, frame)
    ensures Segmented(config, origin, Eager(Concat(parts) + tail, MaxPayload(config)), frames + [frame]) <==>
            AllFull(parts, MaxPayload(config))
  {
    hide Off, SliceFrame;
    var m, sent := MaxPayload(config), Concat(parts) + tail;
    if AllFull(parts, m) {
      PartsAreFullSlices(config, origin, parts, tail, frames);
      assert sent[Off(m, |parts|)..] == tail;
      EagerDone(config, origin, sent, |parts|, frames, frame);
    }
    var p := Eager(sent, m);
    if Segmented(config, origin, p, frames + [frame]) {
      forall k: nat | k < |parts|
        ensures |parts[k]| == m
      {
        assert SliceFrame(config, origin, k, p.Payload(k), k == p.last, (frames + [frame])[k]);
        SameReading(config, origin, k, parts[k], p.Payload(k), false, k == p.last, frames[k]);
      }
    }
  }

  /** Without a terminator they never are. */
  lemma NeedsTerminator(config: Config, origin: Coordinate, parts: seq<seq<byte>>, p: Package, frames: seq<seq<byte>>)
    requires ValidUnit(config.transmissionUnit) && p.m == MaxPayload(config)
    requires Emitted(config, origin, parts, frames)
    requires forall k :: 0 <= k < |parts| ==> |parts[k]| <= MaxPayload(config)
    ensures !Segmented(config, origin, p, frames)
  {
    hide Off, SliceFrame;
    if Segmented(config, origin, p, frames) {
      var k := p.last;
      assert SliceFrame(config, origin, k, p.Payload(k), true, frames[k]);
      SameReading(config, origin, k, parts[k], p.Payload(k), false, true, frames[k]);
    }
  }

  // ----- what a writer is asked to do -----

  /** One call for a window with this hint, and the bytes the client then commits from it. */
  datatype Call = Call(hint: int, data: seq<byte>)

  /** How far a writer has come: the slices emitted and the bytes still pending. */
  datatype Progress = Progress(parts: seq<seq<byte>>, pending: seq<byte>) {

    function Written(): seq<byte> {
      Concat(parts) + pending
    }
  }

  /** A hint that exceeds the room left makes a started slice go out short. */
  predicate TooLong(m: nat, w: Progress, hint: int) {
    w.pending != [] && m - |w.pending| < hint
  }

  function Opened(m: nat, w: Progress, hint: int): Progress {
    if TooLong(m, w, hint) then Progress(w.parts + [w.pending], []) else w
  }

  /** A slice that becomes full goes out. */
  function Committed(m: nat, w: Progress, data: seq<byte>): Progress {
    if |w.pending| + |data| == m then Progress(w.parts + [w.pending + data], [])
      else Progress(w.parts, w.pending + data)
  }

  lemma CommittedCases(m: nat, w: Progress, data: seq<byte>)
    ensures |w.pending| + |data| == m ==> Committed(m, w, data) == Progress(w.parts + [w.pending + data], [])
    ensures |w.pending| + |data| != m ==> Committed(m, w, data) == Progress(w.parts, w.pending + data)
  {
  }

  function After(m: nat, calls: seq<Call>): Progress {
    if calls == [] then Progress([], [])
    else
      var c := calls[|calls| - 1];
      Committed(m, Opened(m, After(m, calls[..|calls| - 1]), c.hint), c.data)
  }

  /** Every commit fits the window handed out for it. */
  predicate Fitting(m: nat, calls: seq<Call>) {
    calls != [] ==>
      var before, c := calls[..|calls| - 1], calls[|calls| - 1];
      Fitting(m, before) && |Opened(m, After(m, before), c.hint).pending| + |c.data| <= m
  }

  /** Everything the client committed. */
  function Data(calls: seq<Call>): seq<byte> {
    if calls == [] then [] else Data(calls[..|calls| - 1]) + calls[|calls| - 1].data
  }

  /** The j-th call asks for more room than is left in a slice that has been started. */
  predicate AsksTooMuch(m: nat, calls: seq<Call>, j: nat)
    requires j < |calls|
  {
    TooLong(m, After(m, calls[..j]), calls[j].hint)
  }

  ghost predicate NeverAsksTooMuch(m: nat, calls: seq<Call>) {
    forall j: nat :: j < |calls| ==> !AsksTooMuch(m, calls, j)
  }

  /** Slices of one byte up to a full slot, and less than a slot pending. */
  ghost predicate Sizes(m: nat, w: Progress) {
    |w.pending| < m && forall k :: 0 <= k < |w.parts| ==> 0 < |w.parts[k]| <= m
  }

  lemma OpenedFacts(m: nat, w: Progress, hint: int)
    requires Sizes(m, w)
    ensures Sizes(m, Opened(m, w, hint)) && Opened(m, w, hint).Written() == w.Written()
    ensures AllFull(Opened(m, w, hint).parts, m) <==> AllFull(w.parts, m) && !TooLong(m, w, hint)
  {
    ConcatSnoc(w.parts, w.pending);
    if TooLong(m, w, hint) {
      assert Opened(m, w, hint).parts[|w.parts|] == w.pending;
    }
    assert AllFull(Opened(m, w, hint).parts, m) ==> AllFull(w.parts, m) by {
      assert forall k :: 0 <= k < |w.parts| ==> Opened(m, w, hint).parts[k] == w.parts[k];
    }
  }

  lemma CommittedFacts(m: nat, w: Progress, data: seq<byte>)
    requires Sizes(m, w) && |w.pending| + |data| <= m
    ensures Sizes(m, Committed(m, w, data)) && Committed(m, w, data).Written() == w.Written() + data
    ensures AllFull(Committed(m, w, data).parts, m) <==> AllFull(w.parts, m)
  {
    hide Concat;
    var all := w.parts + [w.pending + data];
    ConcatSnoc(w.parts, w.pending + data);
    JoinAssoc(Concat(w.parts), w.pending, data);
    assert forall k :: 0 <= k < |w.parts| ==> all[k] == w.parts[k];
    if |w.pending| + |data| == m {
      assert Concat(all) + [] == Concat(all);
    }
  }

  /** Whatever the calls, no byte is lost and none is reordered; and every slice has gone out full if and only
      if no call asked for too much room. */
  lemma {:induction false} FullIffNeverAsksTooMuch(m: nat, calls: seq<Call>)
    requires m > 0 && Fitting(m, calls)
    ensures Sizes(m, After(m, calls)) && After(m, calls).Written() == Data(calls)
    ensures AllFull(After(m, calls).parts, m) <==> NeverAsksTooMuch(m, calls)
  {
    hide AllFull, Sizes, Opened, Committed, TooLong;
    if calls == [] {
      NothingAsked(m);
    } else {
      var i := |calls| - 1;
      FullIffNeverAsksTooMuch(m, calls[..i]);
      OpenedFacts(m, After(m, calls[..i]), calls[i].hint);
      assert |Opened(m, After(m, calls[..i]), calls[i].hint).pending| + |calls[i].data| <= m;
      CommittedFacts(m, Opened(m, After(m, calls[..i]), calls[i].hint), calls[i].data);
      OneMoreCall(m, calls);
    }
  }

  lemma NothingAsked(m: nat)
    requires m > 0
    ensures Sizes(m, After(m, [])) && After(m, []).Written() == []
    ensures AllFull(After(m, []).parts, m)
  {
  }

  lemma OneMoreCall(m: nat, calls: seq<Call>)
    requires calls != []
    ensures var i := |calls| - 1;
            NeverAsksTooMuch(m, calls) <==>
              NeverAsksTooMuch(m, calls[..i]) && !TooLong(m, After(m, calls[..i]), calls[i].hint)
  {
    hide TooLong, After;
    var i := |calls| - 1;
    forall j: nat | j < i
      ensures AsksTooMuch(m, calls, j) == AsksTooMuch(m, calls[..i], j)
    {
      assert calls[..i][..j] == calls[..j];
    }
    assert AsksTooMuch(m, calls, i) == TooLong(m, After(m, calls[..i]), calls[i].hint);
  }

  /** Slices once out stay out. */
  lemma {:induction false} PartsGrow(m: nat, calls: seq<Call>, j: nat)
    requires j <= |calls|
    ensures After(m, calls[..j]).parts <= After(m, calls).parts && Data(calls[..j]) <= Data(calls)
    ensures j < |calls| && AsksTooMuch(m, calls, j) ==>
              After(m, calls[..j]).parts + [After(m, calls[..j]).pending] <= After(m, calls).parts
    decreases |calls|
  {
    if j == |calls| {
      assert calls[..j] == calls;
    } else {
      var i := |calls| - 1;
      PartsGrow(m, calls[..i], j);
      assert calls[..i][..j] == calls[..j];
    }
  }

  /** The same in terms of hints and lengths alone: a hint must not exceed what is left of the slot in which the
      bytes written so far end, unless they end with it. */
  predicate HintFits(m: nat, length: nat, hint: int)
    requires m > 0
  {
    length % m == 0 || hint <= m - length % m
  }

  ghost predicate HintsFit(m: nat, calls: seq<Call>)
    requires m > 0
  {
    forall j: nat :: j < |calls| ==> HintFits(m, |Data(calls[..j])|, calls[j].hint)
  }

  lemma HintsFitSnoc(m: nat, calls: seq<Call>)
    requires m > 0 && calls != []
    ensures var i := |calls| - 1;
            HintsFit(m, calls) <==> HintsFit(m, calls[..i]) && HintFits(m, |Data(calls[..i])|, calls[i].hint)
  {
    hide HintFits, Data;
    var i := |calls| - 1;
    forall j: nat | j < i
      ensures HintFits(m, |Data(calls[..j])|, calls[j].hint) == HintFits(m, |Data(calls[..i][..j])|, calls[..i][j].hint)
    {
      assert calls[..i][..j] == calls[..j];
    }
  }

  /** While every slice has gone out full, what is pending is what the length leaves over. */
  lemma PendingLength(m: nat, w: Progress)
    requires m > 0 && Sizes(m, w) && AllFull(w.parts, m)
    ensures |w.pending| == |w.Written()| % m
  {
    hide AllFull, Off;
    FullParts(w.parts, m);
    OffIsMultiple(m, |w.parts|, |w.pending|);
  }

  /** No call asks too much if and only if all hints fit. */
  lemma {:induction false} NeverAsksTooMuchIffHintsFit(m: nat, calls: seq<Call>)
    requires m > 0 && Fitting(m, calls)
    ensures NeverAsksTooMuch(m, calls) <==> HintsFit(m, calls)
  {
    if calls != [] {
      var before, hint := calls[..|calls| - 1], calls[|calls| - 1].hint;
      NeverAsksTooMuchIffHintsFit(m, before);
      OneMoreCall(m, calls);
      HintsFitSnoc(m, calls);
      FullIffNeverAsksTooMuch(m, before);
      hide NeverAsksTooMuch, HintsFit, After, Data, AllFull;
      if NeverAsksTooMuch(m, before) {
        PendingLength(m, After(m, before));
      }
    }
  }

  /** A finished package of full slices lacks its terminator when its length is a multiple both of the slot
      size and of 65536: the writer then takes its wrapped offset for the start. */
  predicate Unterminated(m: nat, length: nat)
    requires m > 0
  {
    length % m == 0 && length % 0x1_0000 == 0
  }

  lemma WrappedToStart(m: nat, w: Progress)
    requires m > 0 && Sizes(m, w) && AllFull(w.parts, m)
    ensures w.pending == [] && U16(Off(m, |w.parts|)) == 0 <==> Unterminated(m, |w.Written()|)
  {
    hide AllFull, Off;
    FullParts(w.parts, m);
    OffIsMultiple(m, |w.parts|, |w.pending|);
  }

  lemma OffIsMultiple(m: nat, k: nat, r: nat)
    requires r < m
    ensures (Off(m, k) + r) % m == r
  {
    DivModUnique(k, m, r);
  }

  class TxWriter {
    const config: Config
    const buffer: array<byte>
    var cursor: Coordinate
    var fill: u16
    var wire: seq<seq<byte>>

    ghost const origin: Coordinate
    ghost var parts: seq<seq<byte>> // payloads of the slices emitted so far

    ghost predicate Valid()
      reads this, buffer
    {
      var m := MaxPayload(config);
      && ValidUnit(config.transmissionUnit) && buffer.Length >= config.transmissionUnit
      && cursor == origin.(offset := U16(Off(m, |parts|)))
      && Emitted(config, origin, parts, wire)
      && fill < m && Sizes(m, Contents())
    }

    /** What has been emitted, and the bytes committed but not yet emitted. */
    ghost function Contents(): Progress
      requires HEADER_SIZE + fill <= buffer.Length
      reads this, buffer
    {
      Progress(parts, buffer[HEADER_SIZE..HEADER_SIZE + fill])
    }

    constructor (config: Config, coord: Coordinate)
      requires ValidUnit(config.transmissionUnit) && coord.offset == 0
      ensures Valid() && fresh(buffer) && Contents() == Progress([], []) && origin == coord && wire == []
      ensures this.config == config
    {
      this.config := config;
      buffer := new byte[config.transmissionUnit];
      cursor := coord;
      fill := 0;
      wire := [];
      origin := coord;
      parts := [];
    }

    method PutHeader(packed: seq<byte>)
      requires |packed| == HEADER_SIZE <= buffer.Length
      modifies buffer
      ensures buffer[..] == Overwrite(old(buffer[..]), 0, packed)
    {
      forall i | 0 <= i < HEADER_SIZE {
        buffer[i] := packed[i];
      }
    }

    /** Emits the current slice, unless it is empty and not the terminator of a started package. */
    method EmitSlice(eop: bool)
      requires ValidUnit(config.transmissionUnit) && buffer.Length >= config.transmissionUnit
      requires fill <= MaxPayload(config) && cursor == origin.(offset := U16(Off(MaxPayload(config), |parts|)))
      modifies this`cursor, this`fill, this`wire, buffer
      ensures fill == 0
      ensures if old(fill) == 0 && (!eop || old(cursor.offset) == 0)
              then cursor == old(cursor) && wire == old(wire)
              else
                cursor == origin.(offset := U16(Off(MaxPayload(config), |parts| + 1))) &&
                |wire| == |old(wire)| + 1 && wire[..|old(wire)|] == old(wire) &&
                SliceFrame(config, origin, |parts|, old(buffer[HEADER_SIZE..HEADER_SIZE + fill]), eop,
                  wire[|old(wire)|])
    {
      hide Off, ToBytes, Pack, Overwrite, MakeHeader;
      if fill == 0 && (!eop || cursor.offset == 0) { return; }
      var slice := Prepare(config, cursor, fill, eop);
      var packed := ToBytes(Pack(slice.header));
      ArraySlice(buffer, HEADER_SIZE, HEADER_SIZE + fill);
      OverwriteFront(buffer[..], packed, HEADER_SIZE, HEADER_SIZE + fill);
      PutHeader(packed);
      ArraySlice(buffer, HEADER_SIZE, HEADER_SIZE + fill);
      ArraySlice(buffer, 0, HEADER_SIZE);
      FrameParts(buffer, config.transmissionUnit, fill);
      wire := wire + [buffer[..config.transmissionUnit]];
      CursorAfter(config, origin, |parts|);
      cursor := slice.next;
      fill := 0;
    }

    /** Hands out the window behind what is committed. A hint that exceeds the room left emits a started
        slice short; nothing else is emitted, and nothing committed is lost. */
    method GetSpan(sizeHint: int) returns (start: nat, length: nat)
      requires Valid()
      modifies this, buffer
      ensures Valid() && Contents() == Opened(MaxPayload(config), old(Contents()), sizeHint)
      ensures start == HEADER_SIZE + fill && length == MaxPayload(config) - fill
      ensures old(fill) == 0 || sizeHint <= MaxPayload(config) - old(fill) ==>
                wire == old(wire) && Contents() == old(Contents())
      ensures old(fill) > 0 && sizeHint > MaxPayload(config) - old(fill) ==>
                fill == 0 && |wire| == |old(wire)| + 1 && wire[..|old(wire)|] == old(wire) &&
                SliceFrame(config, origin, |old(parts)|, old(Contents()).pending, false, wire[|old(wire)|])
    {
      hide Off, SliceFrame, Emitted;
      var maxPayload := MaxPayload(config);
      ghost var before, frames := Contents(), wire;
      if maxPayload - fill < sizeHint {
        EmitSlice(false);
        if before.pending != [] {
          OneMorePart(config, origin, parts, frames, before.pending, wire);
          parts := parts + [before.pending];
        }
      }
      OpenedFacts(maxPayload, before, sizeHint);
      start, length := HEADER_SIZE + fill, maxPayload - fill;
    }

    /** A slice that has become full goes out. */
    method EmitFull()
      requires ValidUnit(config.transmissionUnit) && buffer.Length >= config.transmissionUnit
      requires fill == MaxPayload(config)
      requires cursor == origin.(offset := U16(Off(MaxPayload(config), |parts|)))
      requires Emitted(config, origin, parts, wire)
      modifies this, buffer
      ensures fill == 0 && cursor == origin.(offset := U16(Off(MaxPayload(config), |parts|)))
      ensures Emitted(config, origin, parts, wire)
      ensures parts == old(parts) + [old(buffer[HEADER_SIZE..HEADER_SIZE + fill])]
    {
      hide Off, SliceFrame, Emitted, Concat;
      ghost var part, frames := buffer[HEADER_SIZE..HEADER_SIZE + fill], wire;
      EmitSlice(false);
      OneMorePart(config, origin, parts, frames, part, wire);
      parts := parts + [part];
    }

    /** Commits the next `count` bytes of the window; a slice that has become full goes out. */
    method Advance(count: nat)
      requires Valid() && count <= MaxPayload(config) - fill
      modifies this, buffer
      ensures Valid()
      ensures Contents() ==
              Committed(MaxPayload(config), old(Contents()),
                old(buffer[HEADER_SIZE + fill..HEADER_SIZE + fill + count]))
    {
      hide Off, SliceFrame, Emitted, Sizes, Concat, Committed;
      ghost var before := Contents();
      ghost var window := buffer[HEADER_SIZE + fill..HEADER_SIZE + fill + count];
      CommittedFacts(MaxPayload(config), before, window);
      CommittedCases(MaxPayload(config), before, window);
      ArraySplit(buffer, HEADER_SIZE, HEADER_SIZE + fill, HEADER_SIZE + fill + count);
      fill := U16(fill + U16(count));
      assert fill == old(fill) + count;
      hide U16, MaxPayload;
      assert Contents().pending == before.pending + window;
      if fill == MaxPayload(config) {
        EmitFull();
        assert Contents() == Progress(before.parts + [before.pending + window], []);
      } else {
        assert Contents() == Progress(before.parts, before.pending + window);
      }
    }

    /** Ends the package: what is pending goes out as the final slice, which may be empty, unless nothing is
        pending at offset zero. A writer that committed nothing has emitted nothing. Otherwise the frames are the
        eager segmentation of everything committed exactly when no slice was emitted short and the terminator
        was not mistaken for an unused writer's. */
    method Dispose()
      requires Valid()
      modifies this, buffer
      ensures parts == old(parts) && old(wire) <= wire
      ensures if old(Contents()).pending == [] && old(cursor.offset) == 0 then wire == old(wire)
              else
                |wire| == |old(wire)| + 1 &&
                SliceFrame(config, origin, |parts|, old(Contents()).pending, true, wire[|old(wire)|])
      ensures old(Contents()).Written() == [] ==> wire == []
      ensures old(Contents()).Written() != [] ==>
                (Segmented(config, origin, Eager(old(Contents()).Written(), MaxPayload(config)), wire) <==>
                 old(AllFull(parts, MaxPayload(config)) && !(Contents().pending == [] && cursor.offset == 0)))
    {
      hide Off, SliceFrame, AllFull, Segmented, Concat;
      ghost var w, frames := Contents(), wire;
      NothingWritten(w, MaxPayload(config));
      EmitSlice(true);
      if frames == wire {
        NeedsTerminator(config, origin, parts, Eager(w.Written(), MaxPayload(config)), frames);
      } else {
        assert wire == frames + [wire[|frames|]];
        EagerIffFull(config, origin, parts, w.pending, frames, wire[|frames|]);
      }
    }
  }

  /** A writer that committed nothing stands at offset zero with nothing pending. */
  lemma NothingWritten(w: Progress, m: nat)
    requires Sizes(m, w)
    ensures w.Written() == [] ==> w.parts == [] && w.pending == [] && Off(m, |w.parts|) == 0
  {
    if w.parts != [] {
      assert |Concat(w.parts)| >= |w.parts[|w.parts| - 1]| > 0;
    }
  }

  method WriteCalls(writer: TxWriter, calls: seq<Call>)
    requires writer.Valid() && writer.Contents() == Progress([], [])
    requires Fitting(MaxPayload(writer.config), calls)
    modifies writer, writer.buffer
    ensures writer.Valid() && writer.Contents() == After(MaxPayload(writer.config), calls)
  {
    hide Off, SliceFrame, Emitted, Sizes, Opened, Committed;
    var m: u16 := MaxPayload(writer.config);
    for i := 0 to |calls|
      invariant writer.Valid() && writer.Contents() == After(m, calls[..i])
    {
      PrefixFits(m, calls, i);
      var start, length := writer.GetSpan(calls[i].hint);
      Fill(writer, start, calls[i].data);
      writer.Advance(|calls[i].data|);
    }
    assert calls[..|calls|] == calls;
  }

  /** What a writer that went so far leaves on the wire when it ends. */
  ghost predicate Ended(config: Config, origin: Coordinate, w: Progress, wire: seq<seq<byte>>) {
    && |w.parts| <= |wire| && Emitted(config, origin, w.parts, wire[..|w.parts|])
    && if w.pending == [] && U16(Off(MaxPayload(config), |w.parts|)) == 0 then |wire| == |w.parts|
       else |wire| == |w.parts| + 1 && SliceFrame(config, origin, |w.parts|, w.pending, true, wire[|w.parts|])
  }

  lemma EmittedLength(config: Config, origin: Coordinate, parts: seq<seq<byte>>, frames: seq<seq<byte>>)
    requires Emitted(config, origin, parts, frames)
    ensures |frames| == |parts|
  {
  }

  lemma {:induction false} EmittedCarry(config: Config, origin: Coordinate, parts: seq<seq<byte>>,
      frames: seq<seq<byte>>)
    requires Emitted(config, origin, parts, frames)
    requires forall k :: 0 <= k < |parts| ==> |parts[k]| < 0x1000
    ensures Carried(frames) == Concat(parts)
  {
    hide SliceFrame, Announced;
    if parts != [] {
      var n := |parts| - 1;
      EmittedCarry(config, origin, parts[..n], frames[..n]);
      SliceFrameAnnounces(config, origin, n, parts[n], false, frames[n]);
    }
  }

  /** Nothing is lost on the wire, short slices or not. */
  lemma EndedCarries(config: Config, origin: Coordinate, w: Progress, wire: seq<seq<byte>>)
    requires ValidUnit(config.transmissionUnit) && Sizes(MaxPayload(config), w) && Ended(config, origin, w, wire)
    ensures Carried(wire) == w.Written()
  {
    hide SliceFrame, Announced, Carried, Concat, Emitted, Off;
    var n := |w.parts|;
    EmittedCarry(config, origin, w.parts, wire[..n]);
    if |wire| == n {
      assert wire[..n] == wire;
    } else {
      assert wire == wire[..n] + [wire[n]];
      CarriedSnoc(wire[..n], wire[n]);
      SliceFrameAnnounces(config, origin, n, w.pending, true, wire[n]);
    }
  }

  /** A client's whole use of a writer. The frames on the wire carry everything written, with the end flag on the
      last; and they are the eager segmentation of it if and only if all hints fit and the terminator is not
      mistaken for an unused writer's. */
  method WriteAll(writer: TxWriter, calls: seq<Call>)
    requires writer.Valid() && writer.Contents() == Progress([], [])
    requires Fitting(MaxPayload(writer.config), calls)
    modifies writer, writer.buffer
    ensures Data(calls) == [] ==> writer.wire == []
    ensures var m := MaxPayload(writer.config);
            Data(calls) != [] ==>
              (Segmented(writer.config, writer.origin, Eager(Data(calls), m), writer.wire) <==>
               HintsFit(m, calls) && !Unterminated(m, |Data(calls)|))
    ensures Ended(writer.config, writer.origin, After(MaxPayload(writer.config), calls), writer.wire)
    ensures Carried(writer.wire) == Data(calls)
  {
    hide Off, SliceFrame, Emitted, Segmented, AllFull, Sizes, NeverAsksTooMuch, HintsFit, After, Data, Concat, Carried;
    var m: u16 := MaxPayload(writer.config);
    WriteCalls(writer, calls);
    FullIffNeverAsksTooMuch(m, calls);
    NeverAsksTooMuchIffHintsFit(m, calls);
    if AllFull(writer.parts, m) {
      WrappedToStart(m, writer.Contents());
    }
    ghost var frames := writer.wire;
    EmittedLength(writer.config, writer.origin, writer.parts, frames);
    writer.Dispose();
    assert writer.wire[..|frames|] == frames;
    EndedCarries(writer.config, writer.origin, After(m, calls), writer.wire);
  }

  /** The client writes into the window it was handed. */
  method Fill(writer: TxWriter, start: nat, data: seq<byte>)
    requires writer.Valid() && start == HEADER_SIZE + writer.fill && |data| <= MaxPayload(writer.config) - writer.fill
    modifies writer.buffer
    ensures writer.Valid() && writer.Contents() == old(writer.Contents())
    ensures writer.buffer[start..start + |data|] == data
  {
    hide Off, SliceFrame, Emitted;
    var buffer := writer.buffer;
    forall i | 0 <= i < |data| {
      buffer[start + i] := data[i];
    }
    assert buffer[HEADER_SIZE..start] == old(buffer[HEADER_SIZE..start]);
  }

  lemma {:induction false} PrefixFits(m: nat, calls: seq<Call>, i: nat)
    requires Fitting(m, calls) && i < |calls|
    ensures calls[..i + 1][..i] == calls[..i] && calls[..i + 1][i] == calls[i]
    ensures |Opened(m, After(m, calls[..i]), calls[i].hint).pending| + |calls[i].data| <= m
    decreases |calls|
  {
    if i == |calls| - 1 {
    } else {
      PrefixFits(m, calls[..|calls| - 1], i);
      assert calls[..|calls| - 1][..i] == calls[..i];
    }
  }

  class TxEncoder {
    const transmissionUnit: u16
    const senderId: u8
    var currentPackageId: int

    constructor (transmissionUnit: u16, senderId: u8)
      ensures this.transmissionUnit == transmissionUnit && this.senderId == senderId && currentPackageId == 0
    {
      this.transmissionUnit := transmissionUnit;
      this.senderId := senderId;
      currentPackageId := 0;
    }

    /** Every writer is the next package of this sender. */
    method CreateWriter() returns (writer: TxWriter)
      requires ValidUnit(transmissionUnit)
      modifies this
      ensures fresh(writer) && fresh(writer.buffer) && writer.Valid() && writer.Contents() == Progress([], []) &&
              writer.wire == []
      ensures currentPackageId == old(currentPackageId) + 1
      ensures writer.config == Config.Config(transmissionUnit)
      ensures writer.origin == Coordinate(senderId, U8(old(currentPackageId) + 1), 0)
    {
      currentPackageId := currentPackageId + 1;
      writer := new TxWriter(Config.Config(transmissionUnit), Coordinate(senderId, U8(currentPackageId), 0));
    }
  }
}
