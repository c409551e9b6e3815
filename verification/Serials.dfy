/** The slot table against its specification: a map from (sender, unbounded package serial) to
    independent collections of slices. */
module Serials {
  import opened Words
  import opened Common
  import opened Bitmap
  import opened Packages
  import opened Rx
  import opened ClosedForm
  import opened Reassembly
  import opened Runs
  import opened SlotTable

  const EPOCH := 256

  function Epoch(n: nat): nat {
    n / EPOCH
  }

  function WireId(n: nat): u8 {
    n % EPOCH
  }

  /** A package is named by its sender and its unbounded serial. */
  type Key = (nat, nat)

  /** Which message every key stands for. */
  type Messages = (nat, nat) -> Package

  datatype Arrival = Arrival(sender: u8, serial: nat, slice: nat, frame: seq<byte>)

  // ----- the specification -----

  /** The slices collected so far, package by package. */
  type Collections = map<Key, set<nat>>

  function Got(c: Collections, sender: nat, serial: nat): set<nat> {
    if (sender, serial) in c then c[(sender, serial)] else {}
  }

  function SpecStep(pk: Messages, c: Collections, a: Arrival): (Collections, Outcome) {
    var p, s := pk(a.sender, a.serial), Got(c, a.sender, a.serial);
    (c[(a.sender as nat, a.serial) := Collect(p, s, a.slice)], OutcomeOf(p, s, a.slice))
  }

  function SpecRun(pk: Messages, trace: seq<Arrival>): (r: (Collections, seq<Outcome>))
    ensures |r.1| == |trace|
  {
    if trace == [] then (map[], [])
    else
      var (c, outcomes) := SpecRun(pk, trace[..|trace| - 1]);
      var (c', outcome) := SpecStep(pk, c, trace[|trace| - 1]);
      (c', outcomes + [outcome])
  }

  lemma SpecGoesOn(pk: Messages, trace: seq<Arrival>)
    ensures !Stopped(SpecRun(pk, trace).1)
  {
  }

  // ----- the discipline of the senders -----

  /** Successive serials of one sender: back by at most 127 within an epoch, forward at will within it,
      and forward by at most 128 into the next one. */
  predicate SerialStep(n: nat, n': nat) {
    || (Epoch(n') == Epoch(n) && n - n' <= 127)
    || (Epoch(n') == Epoch(n) + 1 && n' - n <= 128)
  }

  /** What a trace has done so far: each sender's last serial, and the serial that last used each slot. */
  datatype Book = Book(last: map<nat, nat>, owner: map<Key, nat>)

  function LastSerial(book: Book, sender: nat): nat {
    if sender in book.last then book.last[sender] else 0
  }

  function Enter(book: Book, a: Arrival): Book {
    Book(book.last[a.sender as nat := a.serial], book.owner[(a.sender as nat, WireId(a.serial) as nat) := a.serial])
  }

  function BookOf(trace: seq<Arrival>): Book {
    if trace == [] then Book(map[], map[]) else Enter(BookOf(trace[..|trace| - 1]), trace[|trace| - 1])
  }

  /** A partial package that a later one may safely displace: nothing is left of it, or it counted a
      data slice and the generations tell the two apart. */
  predicate Displaceable(p: Package, s: set<nat>, earlier: nat, later: nat) {
    s == {} || (s - Dataless(p) != {} && (Epoch(later) - Epoch(earlier)) % EPOCH != 0)
  }

  ghost predicate Legal(pk: Messages, config: Config, c: Collections, book: Book, a: Arrival) {
    && a.sender < SENDER_COUNT
    && pk(a.sender, a.serial).Bounded()
    && pk(a.sender, a.serial).m == MaxPayload(config)
    && Honest(pk(a.sender, a.serial), a.sender, WireId(a.serial), a.slice, a.frame)
    && SerialStep(LastSerial(book, a.sender), a.serial)
    && DisplacesSafely(pk, c, book, a)
  }

  ghost predicate DisplacesSafely(pk: Messages, c: Collections, book: Book, a: Arrival) {
    var slot := (a.sender as nat, WireId(a.serial) as nat);
    slot in book.owner && book.owner[slot] != a.serial ==>
      Displaceable(pk(a.sender, book.owner[slot]), Got(c, a.sender, book.owner[slot]), book.owner[slot], a.serial)
  }

  ghost predicate Disciplined(pk: Messages, config: Config, trace: seq<Arrival>) {
    forall j :: 0 <= j < |trace| ==> Legal(pk, config, SpecRun(pk, trace[..j]).0, BookOf(trace[..j]), trace[j])
  }

  // ----- the concrete run -----

  /** What the receiver sees of a trace. */
  function Frames(trace: seq<Arrival>): (frames: seq<seq<byte>>)
    ensures |frames| == |trace|
  {
    if trace == [] then [] else Frames(trace[..|trace| - 1]) + [trace[|trace| - 1].frame]
  }

  // ----- generations -----

  /** Between epochs the wrapping generation can tell apart, it keeps tracking the epoch exactly when the
      step obeys the discipline; a late frame of an earlier epoch, for one, breaks it. */
  lemma GenerationTracksEpoch(meta: SenderMeta, n: nat, n': nat)
    requires meta == SenderMeta(WireId(n), U8(Epoch(n)))
    requires -254 <= Epoch(n') - Epoch(n) <= 254
    ensures GcHook(meta, WireId(n')) == SenderMeta(WireId(n'), U8(Epoch(n'))) <==> SerialStep(n, n')
  {
    hide Epoch, WireId;
    WrapIsNextEpoch(n, n');
    GenerationsApart(Epoch(n), Epoch(n'), if WireId(n') + 127 < WireId(n) then 1 else 0);
  }

  /** The discipline in terms of wire ids: the epoch moves on exactly when the id falls by more than 127. */
  lemma WrapIsNextEpoch(n: nat, n': nat)
    ensures SerialStep(n, n') <==> Epoch(n') == Epoch(n) + if WireId(n') + 127 < WireId(n) then 1 else 0
  {
    hide Epoch, WireId;
    SerialParts(n);
    SerialParts(n');
  }

  lemma GenerationsApart(e: nat, e': nat, step: nat)
    requires -254 <= e' - e <= 254 && step <= 1
    ensures U8(U8(e) + step) == U8(e') <==> e' == e + step
  {
  }

  lemma SerialParts(n: nat)
    ensures n == EPOCH * Epoch(n) + WireId(n)
  {
  }

  /** A slot that holds a partial package of an earlier serial behaves as a fresh one exactly when that
      package may be displaced. */
  lemma DisplacedIffFresh(p: Package, s: set<nat>, slot: Slot, earlier: nat, later: nat)
    requires Collecting(p, s, slot) && slot.gen == U8(Epoch(earlier))
    ensures GcClockHook(slot, SenderMeta(WireId(later), U8(Epoch(later)))).state == ZERO_STATE <==>
            Displaceable(p, s, earlier, later)
  {
    hide Represents, Off;
    GensDiffer(earlier, later);
    if s == {} {
      IdleIsZero(p, slot);
    } else {
      NonEmptyIsNotZero(p, s, slot.state);
      CountsData(p, s);
    }
  }

  lemma GensDiffer(earlier: nat, later: nat)
    ensures U8(Epoch(earlier)) != U8(Epoch(later)) <==> (Epoch(later) - Epoch(earlier)) % EPOCH != 0
  {
  }

  lemma NonEmptyIsNotZero(p: Package, s: set<nat>, st: State)
    requires Partial(p, s) && Closed(p, s, st) && p.Short() && s != {}
    ensures st != ZERO_STATE
  {
    hide Off, TestBit;
    EmptyRepresents();
    BelowFacts(p.last + 1);
    var k :| k in s;
    assert st == ZERO_STATE ==> (TestBit(EMPTY_BITS, k) <==> k in s);
    assert TestBit(EMPTY_BITS, k) <==> k in {};
  }

  lemma CountsData(p: Package, s: set<nat>)
    ensures |s - Dataless(p)| > 0 <==> s - Dataless(p) != {}
  {
    if s - Dataless(p) != {} {
      var k :| k in s - Dataless(p);
      SubsetCard({k}, s - Dataless(p));
    }
  }

  // ----- the refinement relation -----

  ghost predicate SlotRelated(pk: Messages, m: nat, slot: Slot, c: Collections, book: Book, sender: nat, wire: nat) {
    if (sender, wire) !in book.owner then slot.state == ZERO_STATE
    else
      var n := book.owner[(sender, wire)];
      && WireId(n) == wire
      && Epoch(n) <= Epoch(LastSerial(book, sender))
      && slot.gen == U8(Epoch(n))
      && pk(sender, n).m == m
      && Collecting(pk(sender, n), Got(c, sender, n), slot)
  }

  /** Only packages that own their slot, or that a later epoch displaced, have been collected. */
  ghost predicate KeyRelated(book: Book, key: Key) {
    (key.0, WireId(key.1) as nat) in book.owner && Epoch(key.1) <= Epoch(book.owner[(key.0, WireId(key.1) as nat)])
  }

  ghost predicate MetaRelated(meta: SenderMeta, book: Book, sender: nat) {
    meta == SenderMeta(WireId(LastSerial(book, sender)), U8(Epoch(LastSerial(book, sender))))
  }

  ghost predicate Related(pk: Messages, m: nat, t: Table, c: Collections, book: Book) {
    && t.Shaped()
    && (forall s: u8 :: s < SENDER_COUNT ==> MetaRelated(t.metas[s], book, s))
    && (forall s: u8, q: u8 :: s < SENDER_COUNT ==> SlotRelated(pk, m, t.slots[SlotIndex(s, q)], c, book, s, q))
    && (forall key :: key in c ==> KeyRelated(book, key))
  }

  /** The slot an arrival finds after the generation hook holds exactly what the specification has
      collected for its serial. */
  lemma SlotFound(pk: Messages, m: nat, t: Table, c: Collections, book: Book, a: Arrival)
    requires Related(pk, m, t, c, book)
    requires a.sender < SENDER_COUNT && pk(a.sender, a.serial).Bounded()
    requires SerialStep(LastSerial(book, a.sender), a.serial)
    requires DisplacesSafely(pk, c, book, a)
    ensures var q := WireId(a.serial);
            var meta := GcHook(t.metas[a.sender], q);
            meta == SenderMeta(q, U8(Epoch(a.serial))) &&
            Collecting(pk(a.sender, a.serial), Got(c, a.sender, a.serial),
              GcClockHook(t.slots[SlotIndex(a.sender, q)], meta))
  {
    hide Collecting;
    var q := WireId(a.serial);
    assert MetaRelated(t.metas[a.sender], book, a.sender);
    GenerationTracksEpoch(t.metas[a.sender], LastSerial(book, a.sender), a.serial);
    var slot := t.slots[SlotIndex(a.sender, q)];
    var meta := SenderMeta(q, U8(Epoch(a.serial)));
    assert SlotRelated(pk, m, slot, c, book, a.sender, q);
    if (a.sender as nat, q as nat) !in book.owner {
      assert (a.sender as nat, a.serial) !in c by {
        assert !KeyRelated(book, (a.sender as nat, a.serial));
      }
      StartsCollecting(pk(a.sender, a.serial), GcClockHook(slot, meta));
    } else {
      var n := book.owner[(a.sender as nat, q as nat)];
      if n == a.serial {
        assert GcClockHook(slot, meta) == slot;
      } else {
        LaterEpoch(n, a.serial);
        assert (a.sender as nat, a.serial) !in c by {
          assert !KeyRelated(book, (a.sender as nat, a.serial));
        }
        DisplacedIffFresh(pk(a.sender, n), Got(c, a.sender, n), slot, n, a.serial);
        StartsCollecting(pk(a.sender, a.serial), GcClockHook(slot, meta));
      }
    }
  }

  /** Two serials with the same wire id lie in different epochs. */
  lemma LaterEpoch(n: nat, n': nat)
    requires WireId(n) == WireId(n') && n != n' && Epoch(n) <= Epoch(n')
    ensures Epoch(n) < Epoch(n')
  {
    assert n == EPOCH * Epoch(n) + WireId(n) && n' == EPOCH * Epoch(n') + WireId(n');
  }

  /** One legal arrival: the table and the specification do the same thing and stay related. */
  lemma TableStepRefines(b: Binding, pk: Messages, config: Config, t: Table, c: Collections, book: Book, a: Arrival)
    requires Related(pk, MaxPayload(config), t, c, book)
    requires Legal(pk, config, c, book, a)
    ensures |a.frame| >= HEADER_SIZE && MaxPayload(config) > 0
    ensures TableStep(b, t, config, a.frame).1 == SpecStep(pk, c, a).1
    ensures Related(pk, MaxPayload(config), TableStep(b, t, config, a.frame).0, SpecStep(pk, c, a).0, Enter(book, a))
  {
    hide Collecting, Receive, ReadHeader;
    var p, q, m := pk(a.sender, a.serial), WireId(a.serial), MaxPayload(config);
    SlotFound(pk, m, t, c, book, a);
    var meta := GcHook(t.metas[a.sender], q);
    ReceiveHonest(b, p, Got(c, a.sender, a.serial), GcClockHook(t.slots[SlotIndex(a.sender, q)], meta), a.sender, q,
      a.slice, a.frame);
    var t', c', book' := TableStep(b, t, config, a.frame).0, SpecStep(pk, c, a).0, Enter(book, a);
    forall s: u8 | s < SENDER_COUNT
      ensures MetaRelated(t'.metas[s], book', s)
    {
      assert MetaRelated(t.metas[s], book, s);
    }
    forall s: u8, w: u8 | s < SENDER_COUNT
      ensures SlotRelated(pk, m, t'.slots[SlotIndex(s, w)], c', book', s, w)
    {
      SlotIndexInjective(s, w, a.sender, q);
      assert SlotRelated(pk, m, t.slots[SlotIndex(s, w)], c, book, s, w);
    }
    forall key | key in c'
      ensures KeyRelated(book', key)
    {
      assert key in c ==> KeyRelated(book, key);
    }
  }

  lemma FreshRelated(pk: Messages, m: nat)
    ensures Related(pk, m, FreshTable(), map[], BookOf([]))
  {
  }

  lemma DisciplinedPrefix(pk: Messages, config: Config, trace: seq<Arrival>)
    requires trace != [] && Disciplined(pk, config, trace)
    ensures Disciplined(pk, config, trace[..|trace| - 1])
    ensures var before := trace[..|trace| - 1];
            Legal(pk, config, SpecRun(pk, before).0, BookOf(before), trace[|trace| - 1])
  {
    hide Legal, SpecRun, BookOf;
    var before := trace[..|trace| - 1];
    forall j | 0 <= j < |before|
      ensures Legal(pk, config, SpecRun(pk, before[..j]).0, BookOf(before[..j]), before[j])
    {
      assert before[..j] == trace[..j];
    }
  }

  lemma {:induction false} RunRelated(b: Binding, pk: Messages, config: Config, trace: seq<Arrival>)
    requires MaxPayload(config) > 0 && Disciplined(pk, config, trace)
    ensures HaveHeaders(Frames(trace))
    ensures TableRun(b, FreshTable(), config, Frames(trace)).1 == SpecRun(pk, trace).1
    ensures Related(pk, MaxPayload(config), TableRun(b, FreshTable(), config, Frames(trace)).0, SpecRun(pk, trace).0,
            BookOf(trace))
  {
    hide TableStep, SpecStep, Related, Legal, Disciplined;
    if trace == [] {
      FreshRelated(pk, MaxPayload(config));
    } else {
      var before, a := trace[..|trace| - 1], trace[|trace| - 1];
      DisciplinedPrefix(pk, config, trace);
      RunRelated(b, pk, config, before);
      TableStepRefines(b, pk, config, TableRun(b, FreshTable(), config, Frames(before)).0, SpecRun(pk, before).0,
        BookOf(before), a);
      SpecGoesOn(pk, before);
      TableRunSnoc(b, FreshTable(), config, Frames(before), a.frame);
    }
  }

  /** The slot table with wrapping ids and lazy generation reset delivers, frame by frame, what a map
      keyed by (sender, unbounded serial) delivers. */
  lemma TableRefinesMap(b: Binding, pk: Messages, config: Config, trace: seq<Arrival>)
    requires MaxPayload(config) > 0 && Disciplined(pk, config, trace)
    ensures HaveHeaders(Frames(trace))
    ensures TableRun(b, FreshTable(), config, Frames(trace)).1 == SpecRun(pk, trace).1
  {
    RunRelated(b, pk, config, trace);
  }

  lemma {:induction false} SpecOutcomeAt(pk: Messages, trace: seq<Arrival>, j: nat)
    requires j < |trace|
    ensures SpecRun(pk, trace).1[j] in {Quiet, Delivered(pk(trace[j].sender, trace[j].serial).msg)}
    decreases |trace|
  {
    if j < |trace| - 1 {
      SpecOutcomeAt(pk, trace[..|trace| - 1], j);
    }
  }

  /** Over a disciplined trace the table hands out nothing but the very message of the package a frame
      belongs to: no scan hangs, no read overruns, no stale byte shows. */
  lemma OnlyMessagesDelivered(b: Binding, pk: Messages, config: Config, trace: seq<Arrival>, j: nat)
    requires MaxPayload(config) > 0 && Disciplined(pk, config, trace) && j < |trace|
    ensures HaveHeaders(Frames(trace))
    ensures TableRun(b, FreshTable(), config, Frames(trace)).1[j] in
            {Quiet, Delivered(pk(trace[j].sender, trace[j].serial).msg)}
  {
    TableRefinesMap(b, pk, config, trace);
    SpecOutcomeAt(pk, trace, j);
  }

  /** Along every disciplined trace each sender's generation is its current epoch, modulo 256. */
  lemma GenerationAlongTrace(b: Binding, pk: Messages, config: Config, trace: seq<Arrival>, sender: u8)
    requires MaxPayload(config) > 0 && Disciplined(pk, config, trace)
    requires sender < SENDER_COUNT
    ensures HaveHeaders(Frames(trace))
    ensures TableRun(b, FreshTable(), config, Frames(trace)).0.metas[sender].gen ==
            U8(Epoch(LastSerial(BookOf(trace), sender)))
  {
    RunRelated(b, pk, config, trace);
    hide TableRun, SpecRun;
    assert MetaRelated(TableRun(b, FreshTable(), config, Frames(trace)).0.metas[sender], BookOf(trace), sender);
  }

  // ----- non-interference -----

  predicate IsFor(a: Arrival, key: Key) {
    (a.sender as nat, a.serial) == key
  }

  /** The slices of one package, in the order they arrive. */
  function SlicesFor(trace: seq<Arrival>, key: Key): seq<nat> {
    if trace == [] then []
    else
      var a := trace[|trace| - 1];
      SlicesFor(trace[..|trace| - 1], key) + if IsFor(a, key) then [a.slice] else []
  }

  function FramesFor(trace: seq<Arrival>, key: Key): seq<seq<byte>> {
    if trace == [] then []
    else
      var a := trace[|trace| - 1];
      FramesFor(trace[..|trace| - 1], key) + if IsFor(a, key) then [a.frame] else []
  }

  /** What the frames of one package caused. */
  function OutcomesFor(trace: seq<Arrival>, outcomes: seq<Outcome>, key: Key): seq<Outcome>
    requires |outcomes| == |trace|
    decreases |trace|
  {
    if trace == [] then []
    else
      var j := |trace| - 1;
      OutcomesFor(trace[..j], outcomes[..j], key) + if IsFor(trace[j], key) then [outcomes[j]] else []
  }

  /** In the specification a package's collection and deliveries depend on its own slices alone. */
  lemma {:induction false} SpecProjects(pk: Messages, trace: seq<Arrival>, key: Key)
    ensures Got(SpecRun(pk, trace).0, key.0, key.1) == Collected(pk(key.0, key.1), SlicesFor(trace, key))
    ensures OutcomesFor(trace, SpecRun(pk, trace).1, key) == Outcomes(pk(key.0, key.1), SlicesFor(trace, key))
  {
    if trace != [] {
      var j := |trace| - 1;
      SpecProjects(pk, trace[..j], key);
      assert SpecRun(pk, trace).1[..j] == SpecRun(pk, trace[..j]).1;
      var ks := SlicesFor(trace[..j], key);
      if IsFor(trace[j], key) {
        OneMoreSlice(pk(key.0, key.1), ks, trace[j].slice);
      } else {
        assert SlicesFor(trace, key) == ks;
      }
    }
  }

  lemma OneMoreSlice(p: Package, ks: seq<nat>, k: nat)
    ensures Collected(p, ks + [k]) == Collect(p, Collected(p, ks), k)
    ensures Outcomes(p, ks + [k]) == Outcomes(p, ks) + [OutcomeOf(p, Collected(p, ks), k)]
  {
    assert (ks + [k])[..|ks|] == ks;
  }

  lemma {:induction false} HonestSubsequence(pk: Messages, config: Config, trace: seq<Arrival>, key: Key, sender: u8)
    requires Disciplined(pk, config, trace) && key.0 == sender
    ensures HonestWord(pk(key.0, key.1), sender, WireId(key.1), SlicesFor(trace, key), FramesFor(trace, key))
  {
    hide Honest, SpecRun, BookOf, DisplacesSafely;
    if trace != [] {
      var before := trace[..|trace| - 1];
      DisciplinedPrefix(pk, config, trace);
      HonestSubsequence(pk, config, before, key, sender);
    }
  }

  /** Non-interference across epochs: however the frames of many packages interleave, each package's frames
      cause in the table what they cause in a lone receiver that sees nothing else. */
  lemma DeliveriesIsolated(b: Binding, pk: Messages, config: Config, trace: seq<Arrival>, key: Key, sender: u8)
    requires MaxPayload(config) > 0 && Disciplined(pk, config, trace)
    requires key.0 == sender && pk(key.0, key.1).Bounded() && pk(key.0, key.1).m == MaxPayload(config)
    ensures HaveHeaders(Frames(trace)) && HaveHeaders(FramesFor(trace, key))
    ensures OutcomesFor(trace, TableRun(b, FreshTable(), config, Frames(trace)).1, key) ==
            SlotRun(b, FRESH_SLOT, MaxPayload(config), FramesFor(trace, key)).1
  {
    TableRefinesMap(b, pk, config, trace);
    SpecProjects(pk, trace, key);
    HonestSubsequence(pk, config, trace, key, sender);
    hide TableRun, SpecRun, SlotRun, Disciplined, Honest;
    SlotRefinesSets(b, pk(key.0, key.1), FRESH_SLOT, sender, WireId(key.1), SlicesFor(trace, key),
      FramesFor(trace, key));
  }

  /** ... and while the package owns its slot, the slot's state is the lone receiver's and both buffers hold
      the message's bytes of every slice collected. Behind those bytes the buffers may differ, because neither
      is ever cleared. */
  lemma OwnerAgrees(b: Binding, pk: Messages, config: Config, trace: seq<Arrival>, key: Key, sender: u8)
    requires MaxPayload(config) > 0 && Disciplined(pk, config, trace)
    requires key.0 == sender < SENDER_COUNT && pk(key.0, key.1).Bounded() && pk(key.0, key.1).m == MaxPayload(config)
    requires (key.0, WireId(key.1) as nat) in BookOf(trace).owner &&
             BookOf(trace).owner[(key.0, WireId(key.1) as nat)] == key.1
    ensures HaveHeaders(Frames(trace)) && HaveHeaders(FramesFor(trace, key))
    ensures var p, got := pk(key.0, key.1), Collected(pk(key.0, key.1), SlicesFor(trace, key));
            var slot := TableRun(b, FreshTable(), config, Frames(trace)).0.slots[SlotIndex(sender, WireId(key.1))];
            var lone := SlotRun(b, FRESH_SLOT, MaxPayload(config), FramesFor(trace, key)).0;
            slot.state == lone.state && Holds(p, got, slot.payload) && Holds(p, got, lone.payload)
  {
    RunRelated(b, pk, config, trace);
    SpecProjects(pk, trace, key);
    HonestSubsequence(pk, config, trace, key, sender);
    hide TableRun, SpecRun, SlotRun, Disciplined, Honest, Holds, Closed, BookOf;
    var p := pk(key.0, key.1);
    SlotRefinesSets(b, p, FRESH_SLOT, sender, WireId(key.1), SlicesFor(trace, key), FramesFor(trace, key));
    var slot := TableRun(b, FreshTable(), config, Frames(trace)).0.slots[SlotIndex(sender, WireId(key.1))];
    assert SlotRelated(pk, MaxPayload(config), slot, SpecRun(pk, trace).0, BookOf(trace), sender, WireId(key.1));
    CollectingUnique(p, Collected(p, SlicesFor(trace, key)), slot,
      SlotRun(b, FRESH_SLOT, MaxPayload(config), FramesFor(trace, key)).0);
  }

  lemma CollectingUnique(p: Package, s: set<nat>, a: Slot, b: Slot)
    requires Collecting(p, s, a) && Collecting(p, s, b)
    ensures a.state == b.state
  {
    RepresentsUnique(a.state.bitmap, b.state.bitmap, s);
  }
}
