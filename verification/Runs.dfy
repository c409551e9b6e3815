/** Whole runs of the receiver over the slices of one package, and over arbitrary slices. */
module Runs {
  import opened Words
  import opened Common
  import opened Bitmap
  import opened Packages
  import opened Rx
  import opened ClosedForm
  import opened Watermark
  import opened Wrapping
  import opened Reassembly

  /** The members of a word of slice numbers. */
  function Members(ks: seq<nat>): set<nat> {
    if ks == [] then {} else Members(ks[..|ks| - 1]) + {ks[|ks| - 1]}
  }

  ghost predicate OfPackage(p: Package, ks: seq<nat>) {
    forall j :: 0 <= j < |ks| ==> ks[j] <= p.last
  }

  // ----- confluence -----

  /** The states of the bare step over a word of slices, without a reset at completion. */
  function StepAll(p: Package, st: State, ks: seq<nat>): Option<State>
    requires p.Short()
  {
    if ks == [] then Some(st)
    else
      match StepAll(p, st, ks[..|ks| - 1])
      case None => None
      case Some(before) =>
        var k := ks[|ks| - 1];
        if k > p.last then None
        else
          match SliceStep(p, before, k)
          case None => None
          case Some(inst) => Some(inst.next)
  }

  lemma {:induction false} MembersInPackage(p: Package, ks: seq<nat>)
    requires OfPackage(p, ks)
    ensures Members(ks) <= All(p)
  {
    BelowFacts(p.last + 1);
    if ks != [] {
      MembersInPackage(p, ks[..|ks| - 1]);
    }
  }

  /** A word that leaves a slice out left one out before its last member too. */
  lemma PrefixIncomplete(p: Package, ks: seq<nat>)
    requires OfPackage(p, ks) && ks != [] && Members(ks) != All(p)
    ensures Members(ks[..|ks| - 1]) < All(p)
  {
    MembersInPackage(p, ks);
  }

  /** After any word of the package's slices that leaves one out, the state is the closed form of the
      set of its members. */
  lemma {:induction false} StateIsClosedForm(p: Package, ks: seq<nat>)
    requires p.Short() && OfPackage(p, ks) && Members(ks) != All(p)
    ensures StepAll(p, ZERO_STATE, ks).Some? && Closed(p, Members(ks), StepAll(p, ZERO_STATE, ks).value)
  {
    hide Closed, Off, Represents;
    MembersInPackage(p, ks);
    if ks == [] {
      NothingReceived(p);
    } else {
      hide SliceStep, EventOf;
      var ks', k := ks[..|ks| - 1], ks[|ks| - 1];
      PrefixIncomplete(p, ks);
      StateIsClosedForm(p, ks');
      StepHonest(p, Members(ks'), StepAll(p, ZERO_STATE, ks').value, k);
    }
  }

  /** Confluence: the order and the multiplicity of arrivals leave no trace in the state. */
  lemma OrderDoesNotMatter(p: Package, ks: seq<nat>, js: seq<nat>)
    requires p.Short() && OfPackage(p, ks) && OfPackage(p, js)
    requires Members(ks) == Members(js) != All(p)
    ensures StepAll(p, ZERO_STATE, ks) == StepAll(p, ZERO_STATE, js)
  {
    StateIsClosedForm(p, ks);
    StateIsClosedForm(p, js);
    hide StepAll;
    RepresentsUnique(StepAll(p, ZERO_STATE, ks).value.bitmap, StepAll(p, ZERO_STATE, js).value.bitmap, Members(ks));
  }

  /** The word covers the package with its last member and not before. */
  ghost predicate CoversOnce(p: Package, ks: seq<nat>) {
    OfPackage(p, ks) && ks != [] && Members(ks) == All(p) && Members(ks[..|ks| - 1]) != All(p)
  }

  /** Whole runs from the start: a package of at most 256 slices and 65535 bytes makes the receiver hang, at
      its completing slice, exactly when it is not addressable, whatever the order of arrival. */
  lemma RunFailsIffNotAddressable(p: Package, ks: seq<nat>)
    requires p.Short() && CoversOnce(p, ks)
    ensures StepAll(p, ZERO_STATE, ks[..|ks| - 1]).Some?
    ensures StepAll(p, ZERO_STATE, ks) == None <==> !p.Addressable()
  {
    hide StepAll, SliceStep, Closed;
    var before, k := ks[..|ks| - 1], ks[|ks| - 1];
    StateIsClosedForm(p, before);
    MembersInPackage(p, before);
    StepFailsIffNotAddressable(p, Members(before), StepAll(p, ZERO_STATE, before).value, k);
    LastStep(p, ks);
  }

  lemma LastStep(p: Package, ks: seq<nat>)
    requires p.Short() && ks != [] && ks[|ks| - 1] <= p.last
    requires StepAll(p, ZERO_STATE, ks[..|ks| - 1]).Some?
    ensures StepAll(p, ZERO_STATE, ks) == None <==>
            SliceStep(p, StepAll(p, ZERO_STATE, ks[..|ks| - 1]).value, ks[|ks| - 1]) == None
  {
    hide SliceStep;
  }

  /** The slice numbers below `n`, in order. */
  function Upto(n: nat): (ks: seq<nat>)
    ensures |ks| == n
    ensures forall j :: 0 <= j < n ==> ks[j] == j
  {
    if n == 0 then [] else Upto(n - 1) + [n - 1]
  }

  lemma {:induction false} UptoMembers(n: nat)
    ensures Members(Upto(n)) == Below(n)
  {
    if n > 0 {
      UptoMembers(n - 1);
      assert Upto(n)[..n - 1] == Upto(n - 1);
    }
  }

  lemma UptoCovers(p: Package)
    ensures CoversOnce(p, Upto(p.last + 1))
  {
    var n := p.last;
    UptoMembers(n);
    UptoMembers(n + 1);
    BelowFacts(n);
    BelowFacts(n + 1);
    assert Upto(n + 1)[..n] == Upto(n);
  }

  lemma LongestNotAddressable(msg: seq<byte>)
    requires |msg| == 65535
    ensures Eager(msg, 1024).Short() && Eager(msg, 1024).last == 63 && !Eager(msg, 1024).Addressable()
  {
    EagerWellFormed(msg, 1024);
    assert Grain(1024) == 1024 by { assert Grain(32) == 32; }
  }

  /** It does happen: the 64 slices of any 65535 bytes in slots of 1024, received in order from the start,
      end in a scan that never does. */
  lemma LongestMessageHangs(msg: seq<byte>)
    requires |msg| == 65535
    ensures Eager(msg, 1024).Short()
    ensures StepAll(Eager(msg, 1024), ZERO_STATE, Upto(64)) == None
  {
    hide StepAll, Members, Upto;
    LongestNotAddressable(msg);
    UptoCovers(Eager(msg, 1024));
    RunFailsIffNotAddressable(Eager(msg, 1024), Upto(64));
  }

  lemma CompletesAtGap(p: Package, s: set<nat>, k: nat)
    requires Partial(p, s) && k <= p.last && EventOf(p, s, k) == Complete
    ensures s + {k} == All(p) && FirstGap(p, s) == k
  {
    PartialGap(p, s);
    BelowFacts(p.last + 1);
    assert FirstGap(p, s) in All(p);
  }

  /** The documentation says a completing slice always moves the watermark. It does, except when the
      completing slice is an empty terminator, which arrives with everything already delivered. */
  lemma CompletionMovesWatermark(p: Package, s: set<nat>, st: State, k: nat, next: State)
    requires p.Short() && Partial(p, s) && Closed(p, s, st) && k <= p.last
    requires SliceStep(p, st, k) == Some(Inst(Complete, next))
    ensures st.watermark < next.watermark <==> !(k == p.last && p.EmptyTerminator())
    ensures next.watermark == |p.msg|
  {
    hide Off, SliceStep, Represents, FirstGap;
    StepFailsIffNotAddressable(p, s, st, k);
    CompletesAtGap(p, s, k);
    FullyCovered(p);
    StartsInside(p, k);
  }

  // ----- arbitrary slices -----

  datatype Piece = Piece(id: u8, size: u16, eop: bool)

  /** The states of the step over any slices at all, honest or not; None once a scan does not end. */
  function StepPieces(maxPayload: u16, pieces: seq<Piece>): Option<State>
    requires maxPayload > 0
  {
    if pieces == [] then Some(ZERO_STATE)
    else
      match StepPieces(maxPayload, pieces[..|pieces| - 1])
      case None => None
      case Some(st) =>
        var x := pieces[|pieces| - 1];
        match Step(st, x.id, x.size, maxPayload, x.eop)
        case None => None
        case Some(inst) => Some(inst.next)
  }

  function Seen(pieces: seq<Piece>): set<nat> {
    if pieces == [] then {} else Seen(pieces[..|pieces| - 1]) + {pieces[|pieces| - 1].id}
  }

  /** The slice numbers that first arrived as an empty terminator. */
  function Markers(pieces: seq<Piece>): set<nat> {
    if pieces == [] then {}
    else
      var before, x := pieces[..|pieces| - 1], pieces[|pieces| - 1];
      Markers(before) + if x.id !in Seen(before) && x.size == 0 && x.eop then {x.id as nat} else {}
  }

  lemma {:induction false} SeenBelow256(pieces: seq<Piece>)
    ensures Markers(pieces) <= Seen(pieces) <= Below(256)
    ensures |Seen(pieces) - Markers(pieces)| <= 256
  {
    BelowFacts(256);
    if pieces != [] {
      SeenBelow256(pieces[..|pieces| - 1]);
    }
    SubsetCard(Seen(pieces) - Markers(pieces), Below(256));
  }

  /** The eight words are exactly the set of slice numbers seen and the counter counts those that did
      not first arrive as an empty terminator; a slice seen before changes nothing. */
  lemma {:induction false} BitmapRefinesSet(maxPayload: u16, pieces: seq<Piece>)
    requires maxPayload > 0
    requires StepPieces(maxPayload, pieces).Some?
    ensures var st := StepPieces(maxPayload, pieces).value;
            Represents(st.bitmap, Seen(pieces)) && st.receivedCount == |Seen(pieces) - Markers(pieces)|
    ensures pieces != [] && pieces[|pieces| - 1].id in Seen(pieces[..|pieces| - 1]) ==>
            StepPieces(maxPayload, pieces) == StepPieces(maxPayload, pieces[..|pieces| - 1])
  {
    if pieces == [] {
      EmptyRepresents();
    } else {
      var before, x := pieces[..|pieces| - 1], pieces[|pieces| - 1];
      BitmapRefinesSet(maxPayload, before);
      var st := StepPieces(maxPayload, before).value;
      PieceStep(maxPayload, before, x, st);
    }
  }

  /** What a step does to the bitmap and the counter, wherever its watermark ends up. */
  lemma StepFields(st: State, x: Piece, maxPayload: u16)
    requires maxPayload > 0
    requires Step(st, x.id, x.size, maxPayload, x.eop).Some?
    ensures var st' := Step(st, x.id, x.size, maxPayload, x.eop).value.next;
            if TestBit(st.bitmap, x.id) then st' == st
            else
              st'.bitmap == SetBit(st.bitmap, x.id) &&
              st'.receivedCount == if x.size == 0 && x.eop then st.receivedCount else U16(st.receivedCount + 1)
  {
    hide TestBit, SetBit, AdvancedWatermark, IsComplete;
  }

  lemma PieceStep(maxPayload: u16, before: seq<Piece>, x: Piece, st: State)
    requires maxPayload > 0
    requires Represents(st.bitmap, Seen(before)) && st.receivedCount == |Seen(before) - Markers(before)|
    requires Step(st, x.id, x.size, maxPayload, x.eop).Some?
    ensures var st', after := Step(st, x.id, x.size, maxPayload, x.eop).value.next, before + [x];
            Represents(st'.bitmap, Seen(after)) && st'.receivedCount == |Seen(after) - Markers(after)| &&
            (x.id in Seen(before) ==> st' == st)
  {
    hide TestBit, SetBit, Step, Seen, Markers;
    StepFields(st, x, maxPayload);
    SeenAfter(before, x);
    assert TestBit(st.bitmap, x.id) <==> x.id in Seen(before);
    if x.id !in Seen(before) {
      InsertRepresents(st.bitmap, Seen(before), x.id);
    }
  }

  lemma SeenAfter(before: seq<Piece>, x: Piece)
    ensures var after := before + [x];
            Seen(after) == Seen(before) + {x.id as nat} &&
            |Seen(after) - Markers(after)| <= 256 &&
            |Seen(after) - Markers(after)| == |Seen(before) - Markers(before)| +
              if x.id in Seen(before) || (x.size == 0 && x.eop) then 0 else 1
  {
    var after := before + [x];
    assert after[..|after| - 1] == before;
    SeenBelow256(before);
    SeenBelow256(after);
    if x.id in Seen(before) || (x.size == 0 && x.eop) {
      assert Seen(after) - Markers(after) == Seen(before) - Markers(before);
    } else {
      assert Seen(after) - Markers(after) == (Seen(before) - Markers(before)) + {x.id as nat};
    }
  }

  // ----- one slot, one package, any word of honest frames -----

  /** `frames[j]` is an honest frame for slice `ks[j]`. Frames may repeat and come in any order. */
  ghost predicate HonestWord(p: Package, senderId: u8, packageId: u8, ks: seq<nat>, frames: seq<seq<byte>>) {
    && |ks| == |frames|
    && forall j :: 0 <= j < |ks| ==> Honest(p, senderId, packageId, ks[j], frames[j])
  }

  ghost predicate HaveHeaders(frames: seq<seq<byte>>) {
    forall j :: 0 <= j < |frames| ==> |frames[j]| >= HEADER_SIZE
  }

  /** A slot fed with frames one after another, until it is gone: its last state and what each frame caused. */
  function SlotRun(b: Binding, slot: Slot, maxPayload: u16, frames: seq<seq<byte>>): (r: (Slot, seq<Outcome>))
    requires maxPayload > 0 && HaveHeaders(frames)
    ensures |r.1| == |frames|
  {
    if frames == [] then (slot, [])
    else
      var (before, outcomes) := SlotRun(b, slot, maxPayload, frames[..|frames| - 1]);
      if Stopped(outcomes) then (before, outcomes + [Lost])
      else
        var frame := frames[|frames| - 1];
        var (after, outcome) := Receive(b, before, maxPayload, ReadHeader(frame), frame);
        (after, outcomes + [outcome])
  }

  lemma SlotRunOfNothing(b: Binding, slot: Slot, maxPayload: u16, frames: seq<seq<byte>>)
    requires maxPayload > 0 && HaveHeaders(frames)
    ensures frames == [] ==> SlotRun(b, slot, maxPayload, frames) == (slot, [])
  {
  }

  lemma SlotRunSnoc(b: Binding, slot: Slot, maxPayload: u16, frames: seq<seq<byte>>, frame: seq<byte>)
    requires maxPayload > 0 && HaveHeaders(frames) && |frame| >= HEADER_SIZE
    ensures HaveHeaders(frames + [frame])
    ensures var (before, outcomes) := SlotRun(b, slot, maxPayload, frames);
            SlotRun(b, slot, maxPayload, frames + [frame]) ==
              if Stopped(outcomes) then (before, outcomes + [Lost])
              else
                var (after, outcome) := Receive(b, before, maxPayload, ReadHeader(frame), frame);
                (after, outcomes + [outcome])
  {
    hide Receive, ReadHeader;
    assert (frames + [frame])[..|frames|] == frames;
  }

  /** The slices collected since the last completion. */
  function Collected(p: Package, ks: seq<nat>): set<nat> {
    if ks == [] then {} else Collect(p, Collected(p, ks[..|ks| - 1]), ks[|ks| - 1])
  }

  /** What the machine on sets does along the word. */
  function Outcomes(p: Package, ks: seq<nat>): (r: seq<Outcome>)
    ensures |r| == |ks|
  {
    if ks == [] then []
    else Outcomes(p, ks[..|ks| - 1]) + [OutcomeOf(p, Collected(p, ks[..|ks| - 1]), ks[|ks| - 1])]
  }

  lemma WordInPackage(p: Package, senderId: u8, packageId: u8, ks: seq<nat>, frames: seq<seq<byte>>)
    requires HonestWord(p, senderId, packageId, ks, frames)
    ensures OfPackage(p, ks)
  {
    hide ReadHeader;
  }

  /** While some slice is still missing nothing is delivered. */
  lemma {:induction false} QuietUntilCovered(p: Package, ks: seq<nat>)
    requires OfPackage(p, ks) && Members(ks) != All(p)
    ensures Outcomes(p, ks) == seq(|ks|, _ => Quiet)
    ensures Collected(p, ks) == Members(ks)
  {
    if ks != [] {
      var ks', k := ks[..|ks| - 1], ks[|ks| - 1];
      PrefixIncomplete(p, ks);
      QuietUntilCovered(p, ks');
    }
  }

  /** The slot refines the machine on sets: same deliveries at the same positions, from any buffer
      contents and with any padding. A package that is not addressable is no exception until it is complete. */
  lemma {:induction false} SlotRefinesSets(b: Binding, p: Package, slot: Slot, senderId: u8, packageId: u8,
      ks: seq<nat>, frames: seq<seq<byte>>)
    requires p.Short() && slot.state == ZERO_STATE
    requires HonestWord(p, senderId, packageId, ks, frames)
    requires p.Addressable() || Members(ks) != All(p)
    ensures HaveHeaders(frames)
    ensures Collecting(p, Collected(p, ks), SlotRun(b, slot, p.m, frames).0)
    ensures SlotRun(b, slot, p.m, frames).1 == Outcomes(p, ks)
  {
    hide Receive, Collecting, ReadHeader;
    if ks == [] {
      StartsCollecting(p, slot);
    } else {
      var j := |ks| - 1;
      if !p.Addressable() {
        WordInPackage(p, senderId, packageId, ks, frames);
        PrefixIncomplete(p, ks);
        QuietUntilCovered(p, ks[..j]);
      }
      SlotRefinesSets(b, p, slot, senderId, packageId, ks[..j], frames[..j]);
      ReceiveHonest(b, p, Collected(p, ks[..j]), SlotRun(b, slot, p.m, frames[..j]).0, senderId, packageId, ks[j],
        frames[j]);
    }
  }

  /** The position right after the last delivery before `j`. */
  function CycleStart(outcomes: seq<Outcome>, j: nat): (i: nat)
    requires j <= |outcomes|
    ensures i <= j
  {
    if j == 0 || outcomes[j - 1].Delivered? then j else CycleStart(outcomes, j - 1)
  }

  lemma {:induction false} CycleStartPrefix(a: seq<Outcome>, b: seq<Outcome>, j: nat)
    requires j <= |a| <= |b| && a == b[..|a|]
    ensures CycleStart(a, j) == CycleStart(b, j)
  {
    if j > 0 {
      CycleStartPrefix(a, b, j - 1);
    }
  }

  lemma {:induction false} CollectedSinceDelivery(p: Package, ks: seq<nat>)
    ensures Collected(p, ks) == Members(ks[CycleStart(Outcomes(p, ks), |ks|)..])
  {
    if ks != [] {
      var j := |ks| - 1;
      var outs := Outcomes(p, ks);
      CollectedSinceDelivery(p, ks[..j]);
      CycleStartPrefix(Outcomes(p, ks[..j]), outs, j);
      if !outs[j].Delivered? {
        var i := CycleStart(outs, j);
        assert ks[i..][..|ks[i..]| - 1] == ks[..j][i..];
      }
    }
  }

  lemma {:induction false} OutcomeAt(p: Package, ks: seq<nat>, j: nat)
    requires j < |ks|
    ensures Outcomes(p, ks)[j] == OutcomeOf(p, Collected(p, ks[..j]), ks[j])
    ensures Outcomes(p, ks)[..j] == Outcomes(p, ks[..j])
    decreases |ks|
  {
    if j < |ks| - 1 {
      OutcomeAt(p, ks[..|ks| - 1], j);
      assert ks[..|ks| - 1][..j] == ks[..j];
      assert Outcomes(p, ks)[..j] == Outcomes(p, ks[..|ks| - 1])[..j];
    }
  }

  lemma GreedyOutcome(p: Package, ks: seq<nat>, j: nat)
    requires j < |ks|
    ensures var outs := Outcomes(p, ks);
            outs[j] == if Members(ks[CycleStart(outs, j)..j + 1]) == All(p) then Delivered(p.msg) else Quiet
  {
    hide Outcomes, CycleStart, Collected, All;
    var outs := Outcomes(p, ks);
    OutcomeAt(p, ks, j);
    CollectedSinceDelivery(p, ks[..j]);
    CycleStartPrefix(Outcomes(p, ks[..j]), outs, j);
    var i := CycleStart(outs, j);
    assert ks[i..j + 1][..j - i] == ks[..j][i..];
  }

  /** Greedy covering: over any word of one message's honest frames, however long, a package is
      delivered at exactly those positions where the frames since the previous delivery first cover all
      of its slices, and every delivery is the message. */
  lemma GreedyCovering(b: Binding, p: Package, slot: Slot, senderId: u8, packageId: u8, ks: seq<nat>,
      frames: seq<seq<byte>>, j: nat)
    requires p.Bounded() && slot.state == ZERO_STATE
    requires HonestWord(p, senderId, packageId, ks, frames)
    requires j < |ks|
    ensures HaveHeaders(frames)
    ensures var outs := SlotRun(b, slot, p.m, frames).1;
            |outs| == |ks| &&
            outs[j] == if Members(ks[CycleStart(outs, j)..j + 1]) == All(p) then Delivered(p.msg) else Quiet
  {
    hide SlotRun, Receive, ReadHeader, Collecting, Outcomes, CycleStart, Members;
    SlotRefinesSets(b, p, slot, senderId, packageId, ks, frames);
    GreedyOutcome(p, ks, j);
  }

  /** A word that covers the package with its last frame and not before delivers it exactly once, there, or
      hangs there if the package is not addressable. */
  lemma DeliveredOnce(b: Binding, p: Package, slot: Slot, senderId: u8, packageId: u8, ks: seq<nat>,
      frames: seq<seq<byte>>)
    requires p.Short() && slot.state == ZERO_STATE
    requires HonestWord(p, senderId, packageId, ks, frames) && CoversOnce(p, ks)
    ensures HaveHeaders(frames)
    ensures SlotRun(b, slot, p.m, frames).1 ==
            seq(|ks| - 1, _ => Quiet) + [if p.Addressable() then Delivered(p.msg) else Hangs]
    ensures p.Addressable() ==> SlotRun(b, slot, p.m, frames).0.state == ZERO_STATE
  {
    hide Receive, ReadHeader, Collecting;
    var j := |ks| - 1;
    SlotRefinesSets(b, p, slot, senderId, packageId, ks[..j], frames[..j]);
    QuietUntilCovered(p, ks[..j]);
    var before := SlotRun(b, slot, p.m, frames[..j]).0;
    if p.Addressable() {
      ReceiveHonest(b, p, Members(ks[..j]), before, senderId, packageId, ks[j], frames[j]);
      IdleIsZero(p, SlotRun(b, slot, p.m, frames).0);
    } else {
      ReceiveHangs(b, p, Members(ks[..j]), before, senderId, packageId, ks[j], frames[j]);
    }
  }

  lemma IdleIsZero(p: Package, slot: Slot)
    requires Collecting(p, {}, slot)
    ensures slot.state == ZERO_STATE
  {
    hide Represents, Off, Holds;
    EmptyRepresents();
    RepresentsUnique(slot.state.bitmap, EMPTY_BITS, {});
    assert {} - Dataless(p) == {};
    OffSucc(p.m, 0);
  }
}
