/** Frames of any content, forged ones included: what one sender's frames do to the table never depends on
    the others', and within an epoch what one slot's frames do never depends on the other slots'. */
module Isolation {
  import opened Words
  import opened Common
  import opened Packages
  import opened Rx
  import opened Reassembly
  import opened Runs
  import opened SlotTable

  /** Whose frames to look at: all of one sender, or those of one of its slots. */
  datatype Address = Sender(senderId: u8) | OneSlot(senderId: u8, packageId: u8)

  predicate IsTo(frame: seq<byte>, a: Address)
    requires |frame| >= HEADER_SIZE
  {
    ReadHeader(frame).senderId == a.senderId && (a.OneSlot? ==> ReadHeader(frame).packageSerial == a.packageId)
  }

  function FramesTo(frames: seq<seq<byte>>, a: Address): (r: seq<seq<byte>>)
    requires HaveHeaders(frames)
    ensures HaveHeaders(r)
  {
    if frames == [] then []
    else
      var frame := frames[|frames| - 1];
      FramesTo(frames[..|frames| - 1], a) + if IsTo(frame, a) then [frame] else []
  }

  /** What those frames caused. */
  function OutcomesTo(frames: seq<seq<byte>>, outcomes: seq<Outcome>, a: Address): seq<Outcome>
    requires HaveHeaders(frames) && |outcomes| == |frames|
  {
    if frames == [] then []
    else
      var j := |frames| - 1;
      OutcomesTo(frames[..j], outcomes[..j], a) + if IsTo(frames[j], a) then [outcomes[j]] else []
  }

  // ----- one frame -----

  lemma StepElsewhere(b: Binding, t: Table, config: Config, frame: seq<byte>, s: u8, q: u8)
    requires t.Shaped() && MaxPayload(config) > 0 && |frame| >= HEADER_SIZE && s < SENDER_COUNT
    ensures var t' := TableStep(b, t, config, frame).0;
            (!IsTo(frame, OneSlot(s, q)) ==> t'.slots[SlotIndex(s, q)] == t.slots[SlotIndex(s, q)]) &&
            (!IsTo(frame, Sender(s)) ==> t'.metas[s] == t.metas[s])
  {
    hide Receive, ReadHeader;
    HeaderFits(frame);
    SlotIndexInjective(s, q, ReadHeader(frame).senderId, ReadHeader(frame).packageSerial);
  }

  lemma StepHere(b: Binding, t: Table, config: Config, frame: seq<byte>, s: u8, q: u8)
    requires t.Shaped() && MaxPayload(config) > 0 && |frame| >= HEADER_SIZE && s < SENDER_COUNT
    requires IsTo(frame, OneSlot(s, q))
    ensures var (t', outcome) := TableStep(b, t, config, frame);
            var meta := GcHook(t.metas[s], q);
            t'.metas[s] == meta &&
            (t'.slots[SlotIndex(s, q)], outcome) ==
              Receive(b, GcClockHook(t.slots[SlotIndex(s, q)], meta), MaxPayload(config), ReadHeader(frame), frame)
  {
    hide Receive, ReadHeader;
    HeaderFits(frame);
  }

  /** Tables that agree on everything of sender `s`. */
  ghost predicate Agree(t: Table, u: Table, s: u8)
    requires t.Shaped() && u.Shaped() && s < SENDER_COUNT
  {
    t.metas[s] == u.metas[s] && forall q: u8 :: t.slots[SlotIndex(s, q)] == u.slots[SlotIndex(s, q)]
  }

  lemma StepsAgree(b: Binding, t: Table, u: Table, config: Config, frame: seq<byte>, s: u8)
    requires t.Shaped() && u.Shaped() && MaxPayload(config) > 0 && |frame| >= HEADER_SIZE && s < SENDER_COUNT
    requires Agree(t, u, s)
    ensures IsTo(frame, Sender(s)) ==>
              Agree(TableStep(b, t, config, frame).0, TableStep(b, u, config, frame).0, s) &&
              TableStep(b, t, config, frame).1 == TableStep(b, u, config, frame).1
    ensures !IsTo(frame, Sender(s)) ==> Agree(TableStep(b, t, config, frame).0, u, s)
  {
    hide TableStep, Receive, ReadHeader;
    var w := ReadHeader(frame).packageSerial;
    if IsTo(frame, Sender(s)) {
      StepHere(b, t, config, frame, s, w);
      StepHere(b, u, config, frame, s, w);
    } else {
      StepElsewhere(b, t, config, frame, s, 0);
    }
    forall q: u8 | q != w || !IsTo(frame, Sender(s))
      ensures TableStep(b, t, config, frame).0.slots[SlotIndex(s, q)] == t.slots[SlotIndex(s, q)]
      ensures TableStep(b, u, config, frame).0.slots[SlotIndex(s, q)] == u.slots[SlotIndex(s, q)]
    {
      StepElsewhere(b, t, config, frame, s, q);
      StepElsewhere(b, u, config, frame, s, q);
    }
  }

  // ----- senders never interfere -----

  /** The table has taken all the frames: no scan hung and no read overran. */
  predicate Serves(b: Binding, t: Table, config: Config, frames: seq<seq<byte>>)
    requires t.Shaped() && MaxPayload(config) > 0 && HaveHeaders(frames)
  {
    !Stopped(TableRun(b, t, config, frames).1)
  }

  lemma ServesStep(b: Binding, t: Table, config: Config, frames: seq<seq<byte>>, frame: seq<byte>)
    requires t.Shaped() && MaxPayload(config) > 0 && HaveHeaders(frames) && |frame| >= HEADER_SIZE
    ensures HaveHeaders(frames + [frame])
    ensures Serves(b, t, config, frames + [frame]) <==>
            Serves(b, t, config, frames) && !TableStep(b, TableRun(b, t, config, frames).0, config, frame).1.Fatal()
  {
    hide TableStep, TableRun;
    TableRunSnoc(b, t, config, frames, frame);
  }

  lemma FramesToSnoc(frames: seq<seq<byte>>, a: Address)
    requires HaveHeaders(frames) && frames != []
    ensures var j := |frames| - 1;
            FramesTo(frames, a) ==
              if IsTo(frames[j], a) then FramesTo(frames[..j], a) + [frames[j]] else FramesTo(frames[..j], a)
  {
    hide IsTo;
    var before := FramesTo(frames[..|frames| - 1], a);
    assert before + [] == before;
  }

  lemma OutcomesToSnoc(frames: seq<seq<byte>>, outcomes: seq<Outcome>, outcome: Outcome, a: Address)
    requires HaveHeaders(frames) && frames != [] && |outcomes| == |frames| - 1
    ensures var j := |frames| - 1;
            OutcomesTo(frames, outcomes + [outcome], a) ==
              OutcomesTo(frames[..j], outcomes, a) + if IsTo(frames[j], a) then [outcome] else []
  {
    hide IsTo;
    assert (outcomes + [outcome])[..|outcomes|] == outcomes;
  }

  /** All that the table holds of sender `s` and all that its frames cause is as if they were all the frames. */
  ghost predicate AsIfAlone(b: Binding, t: Table, config: Config, frames: seq<seq<byte>>, s: u8)
    requires t.Shaped() && MaxPayload(config) > 0 && HaveHeaders(frames) && s < SENDER_COUNT
  {
    var all, own := TableRun(b, t, config, frames), TableRun(b, t, config, FramesTo(frames, Sender(s)));
    Agree(all.0, own.0, s) && OutcomesTo(frames, all.1, Sender(s)) == own.1 && !Stopped(own.1)
  }

  lemma AloneStep(b: Binding, t: Table, config: Config, before: seq<seq<byte>>, frame: seq<byte>, s: u8)
    requires t.Shaped() && MaxPayload(config) > 0 && HaveHeaders(before) && |frame| >= HEADER_SIZE && s < SENDER_COUNT
    requires AsIfAlone(b, t, config, before, s) && !Stopped(TableRun(b, t, config, before).1)
    requires HaveHeaders(before + [frame]) && !Stopped(TableRun(b, t, config, before + [frame]).1)
    ensures AsIfAlone(b, t, config, before + [frame], s)
  {
    hide TableStep, TableRun, ReadHeader, Agree, IsTo, FramesTo, OutcomesTo;
    var all, own := TableRun(b, t, config, before), FramesTo(before, Sender(s));
    assert (before + [frame])[..|before|] == before && (before + [frame])[|before|] == frame;
    FramesToSnoc(before + [frame], Sender(s));
    StepsAgree(b, all.0, TableRun(b, t, config, own).0, config, frame, s);
    TableRunSnoc(b, t, config, before, frame);
    TableRunSnoc(b, t, config, own, frame);
    OutcomesToSnoc(before + [frame], all.1, TableStep(b, all.0, config, frame).1, Sender(s));
    assert OutcomesTo(before, all.1, Sender(s)) + [] == OutcomesTo(before, all.1, Sender(s));
  }

  lemma AloneAtFirst(b: Binding, t: Table, config: Config, s: u8)
    requires t.Shaped() && MaxPayload(config) > 0 && s < SENDER_COUNT
    ensures AsIfAlone(b, t, config, [], s)
  {
    hide TableStep, ReadHeader;
  }

  /** From all tables and over all frames whatever that the table has taken, everything it holds of a sender
      and everything its frames cause is as if no other sender existed. */
  lemma {:induction false} SendersIsolated(b: Binding, t: Table, config: Config, frames: seq<seq<byte>>, s: u8)
    requires t.Shaped() && MaxPayload(config) > 0 && HaveHeaders(frames) && s < SENDER_COUNT
    requires Serves(b, t, config, frames)
    ensures AsIfAlone(b, t, config, frames, s)
  {
    hide TableRun, AsIfAlone;
    if frames == [] {
      AloneAtFirst(b, t, config, s);
    } else {
      var j := |frames| - 1;
      var before, frame := frames[..j], frames[j];
      assert frames == before + [frame];
      ServesStep(b, t, config, before, frame);
      SendersIsolated(b, t, config, before, s);
      AloneStep(b, t, config, before, frame, s);
    }
  }

  /** Isolation has one limit: a frame that keeps the receiver keeps it from everyone. The table goes on serving
      exactly as long as no sender alone would stop it. */
  lemma {:induction false} TableServesIffSendersDo(b: Binding, t: Table, config: Config, frames: seq<seq<byte>>)
    requires t.Shaped() && MaxPayload(config) > 0 && HaveHeaders(frames)
    ensures Serves(b, t, config, frames) <==>
            forall s: u8 :: s < SENDER_COUNT ==> Serves(b, t, config, FramesTo(frames, Sender(s)))
  {
    if frames != [] {
      var j := |frames| - 1;
      var frame, author := frames[j], ReadHeader(frames[j]).senderId;
      HeaderFits(frame);
      TableServesIffSendersDo(b, t, config, frames[..j]);
      assert frames == frames[..j] + [frame];
      ServesStep(b, t, config, frames[..j], frame);
      hide TableStep, TableRun, Serves, ReadHeader, FramesTo;
      forall s: u8 | s < SENDER_COUNT
        ensures var own := FramesTo(frames[..j], Sender(s));
                Serves(b, t, config, FramesTo(frames, Sender(s))) <==>
                Serves(b, t, config, own) &&
                (s == author ==> !TableStep(b, TableRun(b, t, config, own).0, config, frame).1.Fatal())
      {
        FramesToSnoc(frames, Sender(s));
        ServesStep(b, t, config, FramesTo(frames[..j], Sender(s)), frame);
      }
      if Serves(b, t, config, frames[..j]) {
        SendersIsolated(b, t, config, frames[..j], author);
        assert AsIfAlone(b, t, config, frames[..j], author);
        var own := FramesTo(frames[..j], Sender(author));
        StepsAgree(b, TableRun(b, t, config, frames[..j]).0, TableRun(b, t, config, own).0, config, frame, author);
      }
    }
  }

  // ----- within an epoch slots do not interfere -----

  /** The package id of the sender's last frame, or the one it starts from. */
  function LastId(from: u8, frames: seq<seq<byte>>, s: u8): u8
    requires HaveHeaders(frames)
  {
    if frames == [] then from
    else
      var frame := frames[|frames| - 1];
      if IsTo(frame, Sender(s)) then ReadHeader(frame).packageSerial else LastId(from, frames[..|frames| - 1], s)
  }

  /** No package id of the sender falls by more than 127 below the one before. */
  predicate WithinEpoch(from: u8, frames: seq<seq<byte>>, s: u8)
    requires HaveHeaders(frames)
  {
    frames != [] ==>
      var before, frame := frames[..|frames| - 1], frames[|frames| - 1];
      WithinEpoch(from, before, s) &&
      (IsTo(frame, Sender(s)) ==> LastId(from, before, s) - ReadHeader(frame).packageSerial <= 127)
  }

  /** The slot as its next frame would find it in the sender's current generation. */
  function SlotNow(t: Table, s: u8, q: u8): Slot
    requires t.Shaped() && s < SENDER_COUNT
  {
    GcClockHook(t.slots[SlotIndex(s, q)], t.metas[s])
  }

  /** A lone receiver keeps its slot's generation. */
  lemma ReceiveKeepsGen(b: Binding, slot: Slot, maxPayload: u16, header: HeaderMeta, frame: seq<byte>)
    requires maxPayload > 0 && |frame| >= HEADER_SIZE
    ensures Receive(b, slot, maxPayload, header, frame).0.gen == slot.gen
  {
    hide Step, SliceIdxToOffset, Store;
  }

  /** One frame of the sender that does not end the epoch: the slot it is for receives it, and every other
      slot stays as it would be found. */
  lemma StepInEpoch(b: Binding, t: Table, config: Config, frame: seq<byte>, s: u8, q: u8)
    requires t.Shaped() && MaxPayload(config) > 0 && |frame| >= HEADER_SIZE && s < SENDER_COUNT
    requires IsTo(frame, Sender(s)) && t.metas[s].pkg - ReadHeader(frame).packageSerial <= 127
    ensures var (t', outcome) := TableStep(b, t, config, frame);
            t'.metas[s] == SenderMeta(ReadHeader(frame).packageSerial, t.metas[s].gen) &&
            if IsTo(frame, OneSlot(s, q)) then
              (SlotNow(t', s, q), outcome) ==
                Receive(b, SlotNow(t, s, q), MaxPayload(config), ReadHeader(frame), frame) &&
              t'.slots[SlotIndex(s, q)] == SlotNow(t', s, q)
            else
              t'.slots[SlotIndex(s, q)] == t.slots[SlotIndex(s, q)] && SlotNow(t', s, q) == SlotNow(t, s, q)
  {
    hide TableStep, Receive, ReadHeader;
    StepHere(b, t, config, frame, s, ReadHeader(frame).packageSerial);
    StepElsewhere(b, t, config, frame, s, q);
    ReceiveKeepsGen(b, SlotNow(t, s, q), MaxPayload(config), ReadHeader(frame), frame);
  }

  /** Non-interference within an epoch: from all tables and over all frames whatever that the table has taken,
      as long as the ids of this one sender do not wrap, the whole slot (state, buffer and generation) and
      everything its frames cause are those of a lone receiver that starts from this slot and sees only its
      frames. */
  lemma {:induction false} SlotsIsolated(b: Binding, t: Table, config: Config, frames: seq<seq<byte>>, s: u8, q: u8)
    requires t.Shaped() && MaxPayload(config) > 0 && HaveHeaders(frames) && s < SENDER_COUNT
    requires WithinEpoch(t.metas[s].pkg, frames, s) && Serves(b, t, config, frames)
    ensures var (t', outcomes) := TableRun(b, t, config, frames);
            var own := FramesTo(frames, OneSlot(s, q));
            var (slot, lone) := SlotRun(b, SlotNow(t, s, q), MaxPayload(config), own);
            t'.metas[s] == SenderMeta(LastId(t.metas[s].pkg, frames, s), t.metas[s].gen) &&
            SlotNow(t', s, q) == slot && OutcomesTo(frames, outcomes, OneSlot(s, q)) == lone && !Stopped(lone) &&
            t'.slots[SlotIndex(s, q)] == if own == [] then t.slots[SlotIndex(s, q)] else slot
  {
    hide TableStep, Receive, ReadHeader, SlotNow;
    if frames != [] {
      var j, a := |frames| - 1, OneSlot(s, q);
      var before, frame := frames[..j], frames[j];
      SlotsIsolated(b, t, config, before, s, q);
      var mid := TableRun(b, t, config, before).0;
      if IsTo(frame, Sender(s)) {
        StepInEpoch(b, mid, config, frame, s, q);
        SlotRunSnoc(b, SlotNow(t, s, q), MaxPayload(config), FramesTo(before, a), frame);
      } else {
        StepElsewhere(b, mid, config, frame, s, q);
        SameSlotNow(mid, TableStep(b, mid, config, frame).0, s, q);
      }
      assert IsTo(frame, a) || FramesTo(frames, a) == FramesTo(before, a);
      assert TableRun(b, t, config, frames).1[..j] == TableRun(b, t, config, before).1;
    }
  }

  ghost predicate SlotServes(b: Binding, t: Table, config: Config, frames: seq<seq<byte>>, s: u8, q: u8)
    requires t.Shaped() && MaxPayload(config) > 0 && HaveHeaders(frames) && s < SENDER_COUNT
  {
    !Stopped(SlotRun(b, SlotNow(t, s, q), MaxPayload(config), FramesTo(frames, OneSlot(s, q))).1)
  }

  lemma SlotServesStep(b: Binding, t: Table, config: Config, frames: seq<seq<byte>>, s: u8, q: u8)
    requires t.Shaped() && MaxPayload(config) > 0 && HaveHeaders(frames) && s < SENDER_COUNT && frames != []
    ensures var j := |frames| - 1;
            var lone := SlotRun(b, SlotNow(t, s, q), MaxPayload(config), FramesTo(frames[..j], OneSlot(s, q))).0;
            SlotServes(b, t, config, frames, s, q) <==>
            SlotServes(b, t, config, frames[..j], s, q) &&
            (IsTo(frames[j], OneSlot(s, q)) ==>
               !Receive(b, lone, MaxPayload(config), ReadHeader(frames[j]), frames[j]).1.Fatal())
  {
    hide SlotRun, Receive, ReadHeader, FramesTo, IsTo, SlotNow;
    var j := |frames| - 1;
    FramesToSnoc(frames, OneSlot(s, q));
    SlotRunSnoc(b, SlotNow(t, s, q), MaxPayload(config), FramesTo(frames[..j], OneSlot(s, q)), frames[j]);
  }

  ghost predicate AllWithinEpoch(t: Table, frames: seq<seq<byte>>)
    requires t.Shaped() && HaveHeaders(frames)
  {
    forall s: u8 :: s < SENDER_COUNT ==> WithinEpoch(t.metas[s].pkg, frames, s)
  }

  ghost predicate AllSlotsServe(b: Binding, t: Table, config: Config, frames: seq<seq<byte>>)
    requires t.Shaped() && MaxPayload(config) > 0 && HaveHeaders(frames)
  {
    forall s: u8, q: u8 :: s < SENDER_COUNT ==> SlotServes(b, t, config, frames, s, q)
  }

  /** One more frame concerns one slot. */
  lemma AllSlotsServeStep(b: Binding, t: Table, config: Config, frames: seq<seq<byte>>, s: u8, q: u8)
    requires t.Shaped() && MaxPayload(config) > 0 && HaveHeaders(frames) && frames != [] && s < SENDER_COUNT
    requires IsTo(frames[|frames| - 1], OneSlot(s, q))
    ensures var j := |frames| - 1;
            var lone := SlotRun(b, SlotNow(t, s, q), MaxPayload(config), FramesTo(frames[..j], OneSlot(s, q))).0;
            AllSlotsServe(b, t, config, frames) <==>
            AllSlotsServe(b, t, config, frames[..j]) &&
            !Receive(b, lone, MaxPayload(config), ReadHeader(frames[j]), frames[j]).1.Fatal()
  {
    hide SlotServes, SlotRun, Receive, ReadHeader, FramesTo, SlotNow;
    var j := |frames| - 1;
    forall s': u8, q': u8 | s' < SENDER_COUNT
      ensures var lone := SlotRun(b, SlotNow(t, s', q'), MaxPayload(config), FramesTo(frames[..j], OneSlot(s', q'))).0;
              SlotServes(b, t, config, frames, s', q') <==>
              SlotServes(b, t, config, frames[..j], s', q') &&
              (s' == s && q' == q ==> !Receive(b, lone, MaxPayload(config), ReadHeader(frames[j]), frames[j]).1.Fatal())
    {
      SlotServesStep(b, t, config, frames, s', q');
    }
  }

  /** What the table makes of a frame is what the lone receiver of its slot makes of it. */
  lemma StepIsLone(b: Binding, t: Table, config: Config, before: seq<seq<byte>>, frame: seq<byte>, s: u8, q: u8)
    requires t.Shaped() && MaxPayload(config) > 0 && HaveHeaders(before) && |frame| >= HEADER_SIZE && s < SENDER_COUNT
    requires HaveHeaders(before + [frame]) && WithinEpoch(t.metas[s].pkg, before + [frame], s)
    requires Serves(b, t, config, before) && IsTo(frame, OneSlot(s, q))
    ensures var lone := SlotRun(b, SlotNow(t, s, q), MaxPayload(config), FramesTo(before, OneSlot(s, q))).0;
            TableStep(b, TableRun(b, t, config, before).0, config, frame).1 ==
              Receive(b, lone, MaxPayload(config), ReadHeader(frame), frame).1
  {
    assert (before + [frame])[..|before|] == before && (before + [frame])[|before|] == frame;
    hide TableStep, TableRun, ReadHeader, FramesTo, Receive, SlotRun, SlotNow;
    SlotsIsolated(b, t, config, before, s, q);
    StepInEpoch(b, TableRun(b, t, config, before).0, config, frame, s, q);
  }

  /** ... and the same slot by slot: within an epoch the table goes on serving exactly as long as no slot's
      frames alone would stop a lone receiver. */
  lemma {:induction false} TableServesIffSlotsDo(b: Binding, t: Table, config: Config, frames: seq<seq<byte>>)
    requires t.Shaped() && MaxPayload(config) > 0 && HaveHeaders(frames) && AllWithinEpoch(t, frames)
    ensures Serves(b, t, config, frames) <==> AllSlotsServe(b, t, config, frames)
  {
    if frames == [] {
      FreshServes(b, t, config);
    } else {
      hide TableStep, TableRun, Serves, AllSlotsServe, FramesTo, Receive, SlotRun, SlotNow, ReadHeader;
      var j := |frames| - 1;
      var before, frame := frames[..j], frames[j];
      assert frames == before + [frame];
      var s, q := ReadHeader(frame).senderId, ReadHeader(frame).packageSerial;
      HeaderFits(frame);
      PrefixWithinEpoch(t, frames);
      TableServesIffSlotsDo(b, t, config, before);
      ServesStep(b, t, config, before, frame);
      AllSlotsServeStep(b, t, config, frames, s, q);
      if Serves(b, t, config, before) {
        StepIsLone(b, t, config, before, frame, s, q);
      }
    }
  }

  lemma FreshServes(b: Binding, t: Table, config: Config)
    requires t.Shaped() && MaxPayload(config) > 0
    ensures Serves(b, t, config, []) && AllSlotsServe(b, t, config, [])
  {
    hide TableStep, Receive, ReadHeader;
  }

  lemma PrefixWithinEpoch(t: Table, frames: seq<seq<byte>>)
    requires t.Shaped() && HaveHeaders(frames) && frames != [] && AllWithinEpoch(t, frames)
    ensures AllWithinEpoch(t, frames[..|frames| - 1])
  {
    hide ReadHeader;
    forall s: u8 | s < SENDER_COUNT
      ensures WithinEpoch(t.metas[s].pkg, frames[..|frames| - 1], s)
    {
      assert WithinEpoch(t.metas[s].pkg, frames, s);
    }
  }

  lemma SameSlotNow(t: Table, u: Table, s: u8, q: u8)
    requires t.Shaped() && u.Shaped() && s < SENDER_COUNT
    requires t.metas[s] == u.metas[s] && t.slots[SlotIndex(s, q)] == u.slots[SlotIndex(s, q)]
    ensures SlotNow(t, s, q) == SlotNow(u, s, q)
  {
  }

  /** From a fresh table: the slot is that of a lone receiver with a fresh slot. */
  lemma SlotsIsolatedFromStart(b: Binding, config: Config, frames: seq<seq<byte>>, s: u8, q: u8)
    requires MaxPayload(config) > 0 && HaveHeaders(frames) && s < SENDER_COUNT
    requires WithinEpoch(0, frames, s) && Serves(b, FreshTable(), config, frames)
    ensures var (t, outcomes) := TableRun(b, FreshTable(), config, frames);
            (t.slots[SlotIndex(s, q)], OutcomesTo(frames, outcomes, OneSlot(s, q))) ==
              SlotRun(b, FRESH_SLOT, MaxPayload(config), FramesTo(frames, OneSlot(s, q)))
  {
    hide TableRun, SlotRun, FramesTo, OutcomesTo;
    SlotsIsolated(b, FreshTable(), config, frames, s, q);
    assert SlotNow(FreshTable(), s, q) == FRESH_SLOT;
    SlotRunOfNothing(b, FRESH_SLOT, MaxPayload(config), FramesTo(frames, OneSlot(s, q)));
  }

  // ----- one slot alone -----

  lemma SameHook(meta: SenderMeta, q: u8)
    ensures GcHook(GcHook(meta, q), q) == GcHook(meta, q)
  {
  }

  /** Frames of one slot alone, whatever has gone before: the generation hook runs once, then the table is a lone
      receiver, until that is gone. */
  lemma {:induction false} OneSlotRun(b: Binding, t: Table, config: Config, frames: seq<seq<byte>>, s: u8, q: u8)
    requires t.Shaped() && MaxPayload(config) > 0 && HaveHeaders(frames) && s < SENDER_COUNT && frames != []
    requires forall j :: 0 <= j < |frames| ==> IsTo(frames[j], OneSlot(s, q))
    ensures var meta := GcHook(t.metas[s], q);
            var (t', outcomes) := TableRun(b, t, config, frames);
            t'.metas[s] == meta && t'.slots[SlotIndex(s, q)].gen == meta.gen &&
            (t'.slots[SlotIndex(s, q)], outcomes) ==
              SlotRun(b, GcClockHook(t.slots[SlotIndex(s, q)], meta), MaxPayload(config), frames)
  {
    hide TableStep, Receive, ReadHeader, GcHook, GcClockHook;
    var j, meta := |frames| - 1, GcHook(t.metas[s], q);
    var start := GcClockHook(t.slots[SlotIndex(s, q)], meta);
    assert start.gen == meta.gen by { HookedGen(t.slots[SlotIndex(s, q)], meta); }
    var mid := TableRun(b, t, config, frames[..j]).0;
    if j > 0 {
      OneSlotRun(b, t, config, frames[..j], s, q);
      SameHook(t.metas[s], q);
      CurrentSlot(mid.slots[SlotIndex(s, q)], meta);
    }
    StepHere(b, mid, config, frames[j], s, q);
    ReceiveKeepsGen(b, SlotRun(b, start, MaxPayload(config), frames[..j]).0, MaxPayload(config), ReadHeader(frames[j]),
      frames[j]);
  }

  lemma HookedGen(slot: Slot, meta: SenderMeta)
    ensures GcClockHook(slot, meta).gen == meta.gen
  {
  }

  lemma CurrentSlot(slot: Slot, meta: SenderMeta)
    requires slot.gen == meta.gen
    ensures GcClockHook(slot, meta) == slot
  {
  }

  // ----- the receiver that is kept -----

  lemma HonestIsTo(p: Package, senderId: u8, packageId: u8, ks: seq<nat>, frames: seq<seq<byte>>)
    requires HonestWord(p, senderId, packageId, ks, frames)
    ensures HaveHeaders(frames)
    ensures forall j :: 0 <= j < |frames| ==> IsTo(frames[j], OneSlot(senderId, packageId))
  {
    hide ReadHeader;
  }

  /** One sender's honest message stops every sender: the slices of a package that is not addressable, in any
      order, end in a scan that never does, and whatever arrives afterwards is lost. */
  lemma KeptForGood(b: Binding, config: Config, p: Package, senderId: u8, packageId: u8, ks: seq<nat>,
      frames: seq<seq<byte>>, others: seq<seq<byte>>)
    requires p.Short() && p.m == MaxPayload(config) && senderId < SENDER_COUNT
    requires HonestWord(p, senderId, packageId, ks, frames) && CoversOnce(p, ks) && HaveHeaders(others)
    ensures HaveHeaders(frames) && HaveHeaders(frames + others)
    ensures !p.Addressable() ==>
              TableRun(b, FreshTable(), config, frames + others).1 ==
                seq(|ks| - 1, _ => Quiet) + [Hangs] + seq(|others|, _ => Lost)
  {
    hide TableRun, SlotRun, ReadHeader, HonestWord, CoversOnce;
    HonestIsTo(p, senderId, packageId, ks, frames);
    SameLength(p, senderId, packageId, ks, frames);
    OneSlotRun(b, FreshTable(), config, frames, senderId, packageId);
    DeliveredOnce(b, p, GcClockHook(FRESH_SLOT, GcHook(SenderMeta(0, 0), packageId)), senderId, packageId, ks, frames);
    if !p.Addressable() {
      StoppedForGood(b, FreshTable(), config, frames, others);
    }
  }

  lemma SameLength(p: Package, senderId: u8, packageId: u8, ks: seq<nat>, frames: seq<seq<byte>>)
    requires HonestWord(p, senderId, packageId, ks, frames) && CoversOnce(p, ks)
    ensures |frames| == |ks| > 0
  {
  }

  lemma FrameCount(config: Config, origin: Coordinate, p: Package, frames: seq<seq<byte>>)
    requires Segmented(config, origin, p, frames)
    ensures |frames| == p.last + 1
  {
  }

  lemma InOrderIsHonest(config: Config, origin: Coordinate, p: Package, frames: seq<seq<byte>>)
    requires ValidUnit(config.transmissionUnit) && p.m == MaxPayload(config) && origin.senderId < 8
    requires p.Short() && Segmented(config, origin, p, frames)
    ensures HonestWord(p, origin.senderId, origin.packageId, Upto(p.last + 1), frames)
  {
    hide Honest, SliceFrame, Off, Upto;
    forall j | 0 <= j < p.last + 1
      ensures Honest(p, origin.senderId, origin.packageId, j, frames[j])
    {
      SegmentedIsHonest(config, origin, p, frames, j);
    }
  }

  /** It takes no forgery: the 64 frames a sender makes of any 65535 bytes in slots of 1024, in order. */
  lemma LongestMessageStopsAll(b: Binding, origin: Coordinate, msg: seq<byte>, frames: seq<seq<byte>>,
      others: seq<seq<byte>>)
    requires |msg| == 65535 && origin.senderId < 8 && HaveHeaders(others)
    requires Segmented(Config.Config(1028), origin, Eager(msg, 1024), frames)
    ensures HaveHeaders(frames + others)
    ensures TableRun(b, FreshTable(), Config.Config(1028), frames + others).1 ==
            seq(63, _ => Quiet) + [Hangs] + seq(|others|, _ => Lost)
  {
    hide HonestWord, SliceFrame, TableRun, Upto, Members, Off, Segmented;
    var config, p, ks := Config.Config(1028), Eager(msg, 1024), Upto(64);
    LongestNotAddressable(msg);
    UptoCovers(p);
    FrameCount(config, origin, p, frames);
    InOrderIsHonest(config, origin, p, frames);
    KeptForGood(b, config, p, origin.senderId, origin.packageId, ks, frames, others);
  }
}
