/** What it costs when the senders break the rules under which the slot table refines the map: runs of the
    table from the start that deliver a wrong message, or none. */
module Discipline {
  import opened Words
  import opened Common
  import opened Bitmap
  import opened Packages
  import opened Rx
  import opened ClosedForm
  import opened Reassembly
  import opened Runs
  import opened SlotTable
  import opened Serials
  import opened Isolation

  lemma GoesOn(p: Package, ks: seq<nat>, j: nat)
    requires j <= |ks|
    ensures !Stopped(Outcomes(p, ks)[j..])
  {
    if j < |ks| {
      assert Outcomes(p, ks)[j..][|ks| - j - 1] == Outcomes(p, ks)[|ks| - 1];
    }
  }

  /** After `ks`, of which the first `n` came before this run, the slot is where the machine on sets is. */
  ghost predicate InStep(b: Binding, p: Package, slot: Slot, n: nat, ks: seq<nat>, frames: seq<seq<byte>>)
    requires p.m > 0 && p.m < 0x1_0000 && HaveHeaders(frames) && n <= |ks|
  {
    var (end, outcomes) := SlotRun(b, slot, p.m, frames);
    Collecting(p, Collected(p, ks), end) && outcomes == Outcomes(p, ks)[n..]
  }

  lemma StaysInStep(b: Binding, p: Package, slot: Slot, senderId: u8, packageId: u8, n: nat, ks: seq<nat>, k: nat,
      frames: seq<seq<byte>>, frame: seq<byte>)
    requires p.Bounded() && HaveHeaders(frames) && n <= |ks| && InStep(b, p, slot, n, ks, frames)
    requires Honest(p, senderId, packageId, k, frame)
    ensures HaveHeaders(frames + [frame]) && InStep(b, p, slot, n, ks + [k], frames + [frame])
  {
    hide SlotRun, Receive, Outcomes, Collected, Collecting, ReadHeader;
    SlotRunSnoc(b, slot, p.m, frames, frame);
    OneMoreSlice(p, ks, k);
    GoesOn(p, ks, n);
    ReceiveHonest(b, p, Collected(p, ks), SlotRun(b, slot, p.m, frames).0, senderId, packageId, k, frame);
    assert Outcomes(p, ks + [k])[n..] == Outcomes(p, ks)[n..] + [OutcomeOf(p, Collected(p, ks), k)];
  }

  lemma StartsInStep(b: Binding, p: Package, slot: Slot, js: seq<nat>)
    requires p.Bounded() && Collecting(p, Collected(p, js), slot)
    ensures InStep(b, p, slot, |js|, js, [])
  {
    hide Receive, Collecting, Collected, ReadHeader;
  }

  /** A slot in the middle of a package goes on as the machine on sets does. */
  lemma {:induction false} SlotContinues(b: Binding, p: Package, slot: Slot, senderId: u8, packageId: u8, js: seq<nat>,
      ks: seq<nat>, frames: seq<seq<byte>>)
    requires p.Bounded() && Collecting(p, Collected(p, js), slot)
    requires HonestWord(p, senderId, packageId, ks, frames)
    ensures HaveHeaders(frames) && InStep(b, p, slot, |js|, js + ks, frames)
    decreases |ks|
  {
    hide InStep, Collecting, Collected, ReadHeader;
    if ks == [] {
      assert js + ks == js;
      StartsInStep(b, p, slot, js);
    } else {
      var i := |ks| - 1;
      SlotContinues(b, p, slot, senderId, packageId, js, ks[..i], frames[..i]);
      assert frames == frames[..i] + [frames[i]] && js + ks == (js + ks[..i]) + [ks[i]];
      StaysInStep(b, p, slot, senderId, packageId, |js|, js + ks[..i], ks[i], frames[..i], frames[i]);
    }
  }

  // ----- a stale terminator -----

  /** The first `n` slots of a package as a package of their own, with an empty terminator. */
  function Cut(p: Package, n: nat): Package
    requires Off(p.m, n) <= |p.msg|
  {
    Package(p.msg[..Off(p.m, n)], p.m, n)
  }

  lemma CutFacts(p: Package, n: nat)
    requires p.Short() && 1 <= n <= p.last
    ensures Off(p.m, n) <= |p.msg| && Cut(p, n).Bounded() && Cut(p, n).EmptyTerminator()
  {
    OffMono(p.m, n, p.last);
    OffMono(p.m, 1, n);
  }

  /** Before the cut a frame of the package is a frame of what was cut. */
  lemma CutFrame(p: Package, n: nat, senderId: u8, packageId: u8, k: nat, frame: seq<byte>)
    requires p.Short() && k < n <= p.last && Honest(p, senderId, packageId, k, frame)
    ensures Off(p.m, n) <= |p.msg| && Honest(Cut(p, n), senderId, packageId, k, frame)
  {
    hide ReadHeader, Off;
    CutFacts(p, n);
    OffMono(p.m, k, n);
    var off := Off(p.m, k);
    assert p.msg[..Off(p.m, n)][off..off + p.m] == p.msg[off..off + p.m];
  }

  /** A slot that has seen nothing but an empty terminator cannot tell whose it was. */
  lemma TerminatorFitsAll(a: Package, slot: Slot, p: Package)
    requires Collecting(a, {a.last}, slot) && a.EmptyTerminator() && a.last >= 1
    requires p.Short() && p.m == a.m && a.last <= p.last
    ensures Off(p.m, a.last) <= |p.msg|
    ensures slot.state.receivedCount == 0 && Collecting(Cut(p, a.last), {a.last}, slot)
    ensures Collected(Cut(p, a.last), [a.last]) == {a.last}
  {
    hide Represents, Off;
    CutFacts(p, a.last);
    var c := Cut(p, a.last);
    TerminatorAlone(a);
    TerminatorAlone(c);
    TerminatorFirst(c);
    OnlyTerminator(c, slot.payload);
  }

  /** What is known of a package when its empty terminator is all that has come. */
  lemma TerminatorAlone(c: Package)
    requires c.Short() && c.EmptyTerminator() && c.last >= 1
    ensures Partial(c, {c.last}) && Covered(c, {c.last}) == 0 && |{c.last} - Dataless(c)| == 0
  {
    hide Off;
    BelowFacts(c.last + 1);
    OffSucc(c.m, 0);
    assert {c.last} - Dataless(c) == {};
    assert 0 in All(c) && 0 !in {c.last};
  }

  lemma TerminatorFirst(c: Package)
    requires Partial(c, {c.last})
    ensures Collected(c, [c.last]) == {c.last}
  {
    assert [c.last][..0] == [];
    assert Collected(c, [c.last][..0]) == {};
  }

  lemma OnlyTerminator(c: Package, buf: seq<byte>)
    requires c.Short() && c.EmptyTerminator()
    ensures Holds(c, {c.last}, buf)
  {
    forall i: nat | i < |c.msg|
      ensures SliceOf(c, i) != c.last
    {
      OffDiv(c.m, SliceOf(c, i), i);
    }
  }

  lemma CoveringOutcomes(p: Package, ks: seq<nat>)
    requires CoversOnce(p, ks)
    ensures Outcomes(p, ks) == seq(|ks| - 1, _ => Quiet) + [Delivered(p.msg)]
  {
    var before := ks[..|ks| - 1];
    QuietUntilCovered(p, before);
  }

  /** What a table does with the slices of a later package before the cut, in a slot that has seen nothing but an
      empty terminator of an earlier one. */
  lemma StaleSlotTruncates(b: Binding, t: Table, config: Config, a: Package, p: Package, s: u8, q: u8, ks: seq<nat>,
      frames: seq<seq<byte>>)
    requires t.Shaped() && s < SENDER_COUNT && p.Short() && p.m == a.m == MaxPayload(config)
    requires Collecting(a, {a.last}, t.slots[SlotIndex(s, q)]) && a.EmptyTerminator() && 1 <= a.last <= p.last
    requires HonestWord(p, s, q, ks, frames) && (forall j :: 0 <= j < |ks| ==> ks[j] < a.last) && ks != []
    requires Off(p.m, a.last) <= |p.msg| && CoversOnce(Cut(p, a.last), [a.last] + ks)
    ensures HaveHeaders(frames)
    ensures TableRun(b, t, config, frames).1 == seq(|ks| - 1, _ => Quiet) + [Delivered(p.msg[..Off(p.m, a.last)])]
  {
    hide TableRun, SlotRun, ReadHeader, Collecting, Honest, CoversOnce, Outcomes, Collected;
    var c, slot, meta := Cut(p, a.last), t.slots[SlotIndex(s, q)], GcHook(t.metas[s], q);
    HonestIsTo(p, s, q, ks, frames);
    OneSlotRun(b, t, config, frames, s, q);
    TerminatorFitsAll(a, slot, p);
    CutFacts(p, a.last);
    forall j | 0 <= j < |ks|
      ensures Honest(c, s, q, ks[j], frames[j])
    {
      CutFrame(p, a.last, s, q, ks[j], frames[j]);
    }
    SameCollecting(c, {a.last}, slot, GcClockHook(slot, meta));
    SlotContinues(b, c, GcClockHook(slot, meta), s, q, [a.last], ks, frames);
    CoveringOutcomes(c, [a.last] + ks);
  }

  lemma SameCollecting(p: Package, s: set<nat>, a: Slot, b: Slot)
    requires Collecting(p, s, a) && a.state == b.state && a.payload == b.payload
    ensures Collecting(p, s, b)
  {
  }

  /** A trace in which a package's slot has seen nothing but its empty terminator, and goes to a later package. */
  ghost predicate LeavesTerminator(pk: Messages, config: Config, trace: seq<Arrival>, s: u8, earlier: nat) {
    var a, slot := pk(s, earlier), (s as nat, WireId(earlier) as nat);
    && MaxPayload(config) > 0 && s < SENDER_COUNT && Disciplined(pk, config, trace)
    && slot in BookOf(trace).owner && BookOf(trace).owner[slot] == earlier
    && a.EmptyTerminator() && a.last >= 1 && Got(SpecRun(pk, trace).0, s, earlier) == {a.last}
  }

  /** After every disciplined trace that leaves such a slot behind, in any epoch, the table hands out the first
      slots of the package that inherits the slot as if they were all of it: the reset looks at the counter, and
      an empty terminator is not counted. */
  lemma StaleTerminatorTruncates(b: Binding, pk: Messages, config: Config, trace: seq<Arrival>, s: u8, earlier: nat,
      later: nat, ks: seq<nat>, frames: seq<seq<byte>>)
    requires LeavesTerminator(pk, config, trace, s, earlier) && WireId(later) == WireId(earlier)
    requires pk(s, later).Short() && pk(s, later).m == MaxPayload(config) && pk(s, earlier).last <= pk(s, later).last
    requires HonestWord(pk(s, later), s, WireId(later), ks, frames) && ks != []
    requires forall j :: 0 <= j < |ks| ==> ks[j] < pk(s, earlier).last
    requires var p, n := pk(s, later), pk(s, earlier).last;
             Off(p.m, n) <= |p.msg| && CoversOnce(Cut(p, n), [n] + ks)
    ensures HaveHeaders(Frames(trace)) && HaveHeaders(frames) && HaveHeaders(Frames(trace) + frames)
    ensures var p, n := pk(s, later), pk(s, earlier).last;
            TableRun(b, FreshTable(), config, Frames(trace) + frames).1 ==
              TableRun(b, FreshTable(), config, Frames(trace)).1 +
                (seq(|ks| - 1, _ => Quiet) + [Delivered(p.msg[..Off(p.m, n)])])
  {
    RunRelated(b, pk, config, trace);
    SpecGoesOn(pk, trace);
    hide TableRun, SpecRun, BookOf, Disciplined, Collecting, HonestWord, CoversOnce;
    var t, q := TableRun(b, FreshTable(), config, Frames(trace)).0, WireId(earlier);
    assert SlotRelated(pk, MaxPayload(config), t.slots[SlotIndex(s, q)], SpecRun(pk, trace).0, BookOf(trace), s, q);
    StaleSlotTruncates(b, t, config, pk(s, earlier), pk(s, later), s, q, ks, frames);
    TableRunAppend(b, FreshTable(), config, Frames(trace), frames);
  }

  // ----- a late frame -----

  /** From a fresh table, the sender's current package is dropped half way by one late frame of an earlier epoch:
      its id, more than 127 above the current one, makes the next frame look like one more wrap. The rest of the
      package then does what it would do alone. */
  lemma LateFrameDropsPartial(b: Binding, config: Config, p: Package, s: u8, q: u8, ka: seq<nat>, fa: seq<seq<byte>>,
      late: seq<byte>, kb: seq<nat>, fb: seq<seq<byte>>)
    requires p.Bounded() && p.m == MaxPayload(config) && s < SENDER_COUNT
    requires HonestWord(p, s, q, ka, fa) && HonestWord(p, s, q, kb, fb) && kb != []
    requires Members(ka) != All(p) && Members(ka) - Dataless(p) != {}
    requires |late| >= HEADER_SIZE && IsTo(late, Sender(s)) && q + 127 < ReadHeader(late).packageSerial
    requires HaveHeaders(fa + [late]) && Serves(b, FreshTable(), config, fa + [late])
    ensures HaveHeaders(fa + [late] + fb)
    ensures TableRun(b, FreshTable(), config, fa + [late] + fb).1 ==
            TableRun(b, FreshTable(), config, fa + [late]).1 + Outcomes(p, kb)
  {
    hide TableRun, SlotRun, TableStep, Receive, ReadHeader, Collecting, Honest, Outcomes, Collected, GcHook;
    HonestIsTo(p, s, q, ka, fa);
    HonestIsTo(p, s, q, kb, fb);
    NotNothing(p, ka);
    OneSlotRun(b, FreshTable(), config, fa, s, q);
    var y := ReadHeader(late).packageSerial;
    SlotRefinesSets(b, p, FRESH_SLOT, s, q, ka, fa);
    WordInPackage(p, s, q, ka, fa);
    QuietUntilCovered(p, ka);
    Hooks(q, y);
    assert GcClockHook(FRESH_SLOT, SenderMeta(q, 0)) == FRESH_SLOT;
    ServesStep(b, FreshTable(), config, fa, late);
    TableRunSnoc(b, FreshTable(), config, fa, late);
    var t1, t2 := TableRun(b, FreshTable(), config, fa).0, TableRun(b, FreshTable(), config, fa + [late]).0;
    StepHere(b, t1, config, late, s, y);
    StepElsewhere(b, t1, config, late, s, q);
    OneSlotRun(b, t2, config, fb, s, q);
    PartialIsReset(p, Members(ka), t2.slots[SlotIndex(s, q)], SenderMeta(q, 1));
    SlotRefinesSets(b, p, GcClockHook(t2.slots[SlotIndex(s, q)], SenderMeta(q, 1)), s, q, kb, fb);
    TableRunAppend(b, FreshTable(), config, fa + [late], fb);
  }

  lemma NotNothing(p: Package, ks: seq<nat>)
    requires Members(ks) - Dataless(p) != {}
    ensures ks != []
  {
  }

  /** The generation before, at and after the late frame. */
  lemma Hooks(q: u8, y: u8)
    requires q + 127 < y
    ensures GcHook(SenderMeta(0, 0), q) == SenderMeta(q, 0)
    ensures GcHook(SenderMeta(q, 0), y) == SenderMeta(y, 0)
    ensures GcHook(SenderMeta(y, 0), q) == SenderMeta(q, 1)
  {
  }

  lemma PartialIsReset(p: Package, s: set<nat>, slot: Slot, meta: SenderMeta)
    requires Collecting(p, s, slot) && s - Dataless(p) != {} && slot.gen != meta.gen
    ensures GcClockHook(slot, meta).state == ZERO_STATE
  {
    CountsData(p, s);
  }

  /** The loss: the package was complete, yet nothing was handed out for its second half. */
  lemma LateFrameLosesPackage(b: Binding, config: Config, p: Package, s: u8, q: u8, ka: seq<nat>, fa: seq<seq<byte>>,
      late: seq<byte>, kb: seq<nat>, fb: seq<seq<byte>>)
    requires p.Bounded() && p.m == MaxPayload(config) && s < SENDER_COUNT
    requires HonestWord(p, s, q, ka, fa) && HonestWord(p, s, q, kb, fb)
    requires CoversOnce(p, ka + kb) && kb != [] && Members(kb) != All(p) && Members(ka) - Dataless(p) != {}
    requires |late| >= HEADER_SIZE && IsTo(late, Sender(s)) && q + 127 < ReadHeader(late).packageSerial
    requires HaveHeaders(fa + [late]) && Serves(b, FreshTable(), config, fa + [late])
    ensures HaveHeaders(fa + fb) && HaveHeaders(fa + [late] + fb)
    ensures TableRun(b, FreshTable(), config, fa + fb).1 == seq(|ka| + |kb| - 1, _ => Quiet) + [Delivered(p.msg)]
    ensures TableRun(b, FreshTable(), config, fa + [late] + fb).1 ==
            TableRun(b, FreshTable(), config, fa + [late]).1 + seq(|kb|, _ => Quiet)
  {
    hide TableRun, SlotRun, ReadHeader, HonestWord, CoversOnce, Members, All, Serves, GcHook, GcClockHook;
    JoinedWord(p, s, q, ka, fa, kb, fb);
    FirstPartIncomplete(p, ka, kb);
    LateFrameDropsPartial(b, config, p, s, q, ka, fa, late, kb, fb);
    WordInPackage(p, s, q, kb, fb);
    QuietUntilCovered(p, kb);
    HonestIsTo(p, s, q, ka + kb, fa + fb);
    SameLength(p, s, q, ka + kb, fa + fb);
    OneSlotRun(b, FreshTable(), config, fa + fb, s, q);
    assert GcClockHook(FRESH_SLOT, GcHook(SenderMeta(0, 0), q)).state == ZERO_STATE by { FreshHooked(q); }
    DeliveredOnce(b, p, GcClockHook(FRESH_SLOT, GcHook(SenderMeta(0, 0), q)), s, q, ka + kb, fa + fb);
  }

  lemma JoinedWord(p: Package, s: u8, q: u8, ka: seq<nat>, fa: seq<seq<byte>>, kb: seq<nat>, fb: seq<seq<byte>>)
    requires HonestWord(p, s, q, ka, fa) && HonestWord(p, s, q, kb, fb)
    ensures HonestWord(p, s, q, ka + kb, fa + fb)
  {
    hide Honest;
  }

  lemma {:induction false} MembersGrow(ka: seq<nat>, kb: seq<nat>)
    ensures Members(ka) <= Members(ka + kb)
    decreases |kb|
  {
    if kb == [] {
      assert ka + kb == ka;
    } else {
      MembersGrow(ka, kb[..|kb| - 1]);
      assert (ka + kb)[..|ka + kb| - 1] == ka + kb[..|kb| - 1];
    }
  }

  lemma FirstPartIncomplete(p: Package, ka: seq<nat>, kb: seq<nat>)
    requires CoversOnce(p, ka + kb) && kb != []
    ensures Members(ka) != All(p)
  {
    hide Members, All;
    var front := kb[..|kb| - 1];
    assert (ka + kb)[..|ka + kb| - 1] == ka + front;
    MembersGrow(ka, front);
    assert OfPackage(p, ka + front);
    MembersInPackage(p, ka + front);
  }

  lemma FreshHooked(q: u8)
    ensures GcClockHook(FRESH_SLOT, GcHook(SenderMeta(0, 0), q)).state == ZERO_STATE
  {
  }
}
