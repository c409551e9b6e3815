/** The receiver's four redundant fields as functions of one thing: the set of slices received so far. */
module ClosedForm {
  import opened Words
  import opened Common
  import opened Bitmap
  import opened Packages
  import opened Rx
  import opened Wrapping

  /** All slice numbers of the package. */
  function All(p: Package): set<nat> {
    Below(p.last + 1)
  }

  /** The slices that carry no data. */
  function Dataless(p: Package): set<nat> {
    if p.EmptyTerminator() then {p.last} else {}
  }

  /** The first slice number at or after `n` that is missing from `s`, or `hi`. */
  function Gap(s: set<nat>, n: nat, hi: nat): (g: nat)
    requires n <= hi
    ensures n <= g <= hi
    ensures g < hi ==> g !in s
    ensures forall k: nat :: n <= k < g ==> k in s
    decreases hi - n
  {
    if n == hi || n !in s then n else Gap(s, n + 1, hi)
  }

  function FirstGap(p: Package, s: set<nat>): nat {
    Gap(s, 0, p.last + 1)
  }

  /** How many leading bytes of the message the slices in `s` cover without a hole. */
  function Covered(p: Package, s: set<nat>): nat {
    Min(|p.msg|, Off(p.m, FirstGap(p, s)))
  }

  ghost predicate Closed(p: Package, s: set<nat>, st: State) {
    && Represents(st.bitmap, s)
    && st.receivedCount == |s - Dataless(p)|
    && st.termination == (if p.last in s then |p.msg| else 0)
    && st.watermark == Covered(p, s)
  }

  /** Slices received in the current cycle: some of the package's, but not all. */
  ghost predicate Partial(p: Package, s: set<nat>) {
    s < All(p)
  }

  function EventOf(p: Package, s: set<nat>, k: nat): Event {
    if k in s then Duplicate
    else if s + {k} == All(p) then Complete
    else if k > FirstGap(p, s) then OutOfOrder
    else InOrder
  }

  // ----- facts about the gap -----

  lemma GapUnique(s: set<nat>, n: nat, hi: nat, g: nat)
    requires n <= g <= hi
    requires g < hi ==> g !in s
    requires forall k: nat :: n <= k < g ==> k in s
    ensures Gap(s, n, hi) == g
  {
  }

  lemma PartialGap(p: Package, s: set<nat>)
    requires Partial(p, s)
    ensures FirstGap(p, s) <= p.last
  {
    BelowFacts(p.last + 1);
    assert FirstGap(p, s) == p.last + 1 ==> All(p) <= s;
  }

  lemma FullGap(p: Package)
    ensures FirstGap(p, All(p)) == p.last + 1
  {
    BelowFacts(p.last + 1);
    GapUnique(All(p), 0, p.last + 1, p.last + 1);
  }

  /** Slices past the gap do not move it. */
  lemma GapStays(p: Package, s: set<nat>, k: nat)
    requires k != FirstGap(p, s)
    ensures FirstGap(p, s + {k}) == FirstGap(p, s)
  {
    GapUnique(s + {k}, 0, p.last + 1, FirstGap(p, s));
  }

  /** Slices up to the last one start inside the message and inside the address space. */
  lemma StartsInside(p: Package, k: nat)
    requires p.Short() && k <= p.last
    ensures Off(p.m, k) <= |p.msg| && Off(p.m, k) < 0x1_0000
    ensures k < p.last ==> Off(p.m, k) + p.m <= Off(p.m, p.last)
  {
    OffMono(p.m, k, p.last);
  }

  // ----- the completion test -----

  lemma SliceCount(p: Package)
    requires p.Short()
    ensures TerminationToSliceCount(|p.msg|, p.m) == if p.EmptyTerminator() then p.last else p.last + 1
  {
    var x := |p.msg| + p.m - 1;
    OffSucc(p.m, p.last);
    OffDiv(p.m, if p.EmptyTerminator() then p.last else p.last + 1, x);
  }

  lemma DataSlices(p: Package)
    requires p.Short()
    ensures |All(p) - Dataless(p)| == if p.EmptyTerminator() then p.last else p.last + 1
  {
    hide Off;
    BelowFacts(p.last + 1);
    BelowFacts(p.last);
    assert All(p) - {p.last} == Below(p.last);
    assert All(p) - {} == All(p);
  }

  lemma CountRange(p: Package, s: set<nat>)
    requires p.Short() && s <= All(p)
    ensures |s - Dataless(p)| <= |s| <= 256
  {
    hide Off;
    BelowFacts(p.last + 1);
    SubsetCard(s - Dataless(p), s);
    SubsetCard(s, All(p));
  }

  /** The counter test is sound and complete: it holds exactly when every data slice and the
      terminator have arrived. */
  lemma CounterTest(p: Package, s: set<nat>, st: State)
    requires p.Short() && s <= All(p) && Closed(p, s, st)
    ensures IsComplete(st, p.m) <==> s == All(p)
  {
    hide Off, Represents, TerminationToSliceCount;
    BelowFacts(p.last + 1);
    DataSlices(p);
    SliceCount(p);
    SubsetCard(s - Dataless(p), All(p) - Dataless(p));
    if IsComplete(st, p.m) {
      assert s == (s - Dataless(p)) + {p.last};
      assert All(p) == (All(p) - Dataless(p)) + {p.last};
    }
  }

  // ----- the watermark scan -----

  /** From any aligned offset before which everything has arrived, the scan stops at the first missing
      slice or at the end of the message, after at most one iteration per remaining slice. */
  lemma {:induction false} ScanStopsAtGap(p: Package, s: set<nat>, st: State, n: nat, fuel: nat)
    requires p.Short() && s <= All(p) && (p.NoWrap() || FirstGap(p, s) <= p.last)
    requires Represents(st.bitmap, s)
    requires st.termination == if p.last in s then |p.msg| else 0
    requires n <= FirstGap(p, s)
    requires Off(p.m, n) < 0x1_0000
    requires fuel + n >= p.last + 1
    ensures Scan(st, Off(p.m, n), p.m, fuel) == Some(Covered(p, s))
    decreases fuel
  {
    hide TestBit, Off, Stops, Represents, FirstGap, Covered;
    GapFacts(p, s, n);
    if n <= p.last {
      StartsInside(p, n);
      StopsIff(p, s, st, n);
      if !Stops(st, Off(p.m, n), p.m) {
        NextInside(p, s, n);
        ScanStopsAtGap(p, s, st, n + 1, fuel - 1);
      } else if n in s {
        AtTheEnd(p, s, n);
      }
    } else {
      PastTheEnd(p, s, st);
    }
  }

  lemma GapFacts(p: Package, s: set<nat>, n: nat)
    requires s <= All(p) && n <= FirstGap(p, s)
    ensures n in s <==> n < FirstGap(p, s)
    ensures FirstGap(p, s) <= p.last + 1
    ensures n !in s ==> Covered(p, s) == Min(|p.msg|, Off(p.m, n))
  {
    if n == FirstGap(p, s) && n == p.last + 1 {
      BelowFacts(p.last + 1);
    }
  }

  /** Past the last slice the known end stops the scan. */
  lemma PastTheEnd(p: Package, s: set<nat>, st: State)
    requires p.Short() && s <= All(p) && FirstGap(p, s) == p.last + 1
    requires st.termination == if p.last in s then |p.msg| else 0
    requires Off(p.m, p.last + 1) < 0x1_0000
    ensures Stops(st, Off(p.m, p.last + 1), p.m)
    ensures st.termination == |p.msg| <= Off(p.m, p.last + 1)
    ensures Covered(p, s) == |p.msg|
  {
    hide Off, TestBit;
    OffSucc(p.m, p.last);
    assert p.last in s;
  }

  lemma StopsIff(p: Package, s: set<nat>, st: State, n: nat)
    requires p.Short() && n <= p.last && Off(p.m, n) < 0x1_0000
    requires Represents(st.bitmap, s)
    requires st.termination == if p.last in s then |p.msg| else 0
    ensures Stops(st, Off(p.m, n), p.m) <==> n !in s || (p.last in s && Off(p.m, n) >= |p.msg|)
  {
    hide TestBit, Off;
    OffDiv(p.m, n, Off(p.m, n));
    assert TestBit(st.bitmap, n) <==> n in s;
  }

  /** Only the empty terminator starts at the end of the message. */
  lemma AtTheEnd(p: Package, s: set<nat>, n: nat)
    requires p.Short() && n <= p.last && n in s && n <= FirstGap(p, s)
    requires Off(p.m, n) >= |p.msg|
    ensures n == p.last && Off(p.m, n) == |p.msg| == Covered(p, s)
  {
    hide Off;
    OffMono(p.m, n, p.last);
    OffSucc(p.m, p.last);
  }

  /** One more iteration of the scan does not wrap. */
  lemma NextInside(p: Package, s: set<nat>, n: nat)
    requires p.Short() && n <= p.last && n in s && (p.NoWrap() || n < p.last)
    requires p.last in s ==> Off(p.m, n) < |p.msg|
    ensures U16(Off(p.m, n) + p.m) == Off(p.m, n + 1) < 0x1_0000
  {
    hide Off;
    OffSucc(p.m, n);
    OffMono(p.m, n, p.last);
  }

  // ----- one honest slice -----

  /** The step for slice `k` of the package. */
  function SliceStep(p: Package, st: State, k: nat): Option<Inst>
    requires p.Short() && k <= p.last
  {
    Step(st, k, p.Size(k), p.m, k == p.last)
  }

  function SliceRecord(p: Package, st: State, k: nat): State
    requires p.Short() && k <= p.last
  {
    Record(st, k, p.Size(k), p.m, k == p.last)
  }

  /** Recording keeps the closed form, except that the watermark has yet to move. */
  lemma RecordHonest(p: Package, s: set<nat>, st: State, k: nat)
    requires p.Short() && s <= All(p) && Closed(p, s, st)
    requires k <= p.last && k !in s
    ensures Represents(SliceRecord(p, st, k).bitmap, s + {k})
    ensures SliceRecord(p, st, k).receivedCount == |s + {k} - Dataless(p)|
    ensures SliceRecord(p, st, k).termination == if p.last in s + {k} then |p.msg| else 0
    ensures SliceRecord(p, st, k).watermark == st.watermark
  {
    hide TestBit, SetBit, Represents;
    InsertRepresents(st.bitmap, s, k);
    TerminationHonest(p, k);
    CountHonest(p, s, k);
  }

  /** Nothing received yet. */
  lemma NothingReceived(p: Package)
    requires p.Short()
    ensures Closed(p, {}, ZERO_STATE) && Partial(p, {})
  {
    BelowFacts(p.last + 1);
    EmptyRepresents();
    assert p.last in All(p);
    assert Off(p.m, 0) == 0;
    assert {} - Dataless(p) == {};
  }

  lemma SlotOffset(k: u8, m: u16)
    ensures SliceIdxToOffset(k, m) == U16(Off(m, k))
  {
  }

  lemma TerminationHonest(p: Package, k: nat)
    requires p.Short() && k <= p.last
    ensures k == p.last ==> CalcTermination(k, p.Size(k), p.m) == |p.msg|
    ensures p.Size(k) < p.m || k == p.last <==> k == p.last
  {
    hide Off, SliceIdxToOffset;
    SlotOffset(k, p.m);
    StartsInside(p, k);
  }

  lemma CountHonest(p: Package, s: set<nat>, k: nat)
    requires p.Short() && s <= All(p)
    requires k <= p.last && k !in s
    ensures |s + {k} - Dataless(p)| == |s - Dataless(p)| + (if p.Size(k) == 0 && k == p.last then 0 else 1)
    ensures |s + {k} - Dataless(p)| <= 256
  {
    hide Off;
    BelowFacts(p.last + 1);
    CountRange(p, s + {k});
    if p.Size(k) == 0 && k == p.last {
      assert s + {k} - Dataless(p) == s - Dataless(p);
    } else {
      assert s + {k} - Dataless(p) == (s - Dataless(p)) + {k};
    }
  }

  /** The offset comparison in the step finds the slice that fills the gap. */
  lemma OffsetTest(p: Package, s: set<nat>, k: nat)
    requires p.Short() && FirstGap(p, s) <= p.last && k <= p.last && k !in s
    ensures SliceIdxToOffset(k, p.m) == Off(p.m, k)
    ensures Covered(p, s) == Off(p.m, FirstGap(p, s))
    ensures Off(p.m, k) > Covered(p, s) <==> k > FirstGap(p, s)
  {
    StartsInside(p, k);
    StartsInside(p, FirstGap(p, s));
    OffMono(p.m, FirstGap(p, s), k);
  }

  lemma FillGap(p: Package, s: set<nat>, st: State, k: nat)
    requires p.Short() && Partial(p, s) && Closed(p, s, st)
    requires p.NoWrap() || s + {k} != All(p)
    requires k <= p.last && k !in s && k == FirstGap(p, s)
    ensures AdvancedWatermark(SliceRecord(p, st, k), p.m) == Some(Covered(p, s + {k}))
    ensures IsComplete(SliceRecord(p, st, k).(watermark := Covered(p, s + {k})), p.m) <==> s + {k} == All(p)
  {
    hide Off, Represents, SliceRecord, IsComplete, Scan, FirstGap, Covered;
    RecordHonest(p, s, st, k);
    StartsInside(p, k);
    StillPartial(p, s, k);
    GapReached(p, s, k);
    var r, s' := SliceRecord(p, st, k), s + {k};
    ScanStopsAtGap(p, s', r, k, OFFSETS);
    CounterTest(p, s', r.(watermark := Covered(p, s')));
  }

  lemma StillPartial(p: Package, s: set<nat>, k: nat)
    requires Partial(p, s) && k <= p.last
    ensures s + {k} <= All(p)
    ensures s + {k} != All(p) ==> FirstGap(p, s + {k}) <= p.last
  {
    BelowFacts(p.last + 1);
    if s + {k} != All(p) {
      PartialGap(p, s + {k});
    }
  }

  lemma GapReached(p: Package, s: set<nat>, k: nat)
    requires Partial(p, s) && k == FirstGap(p, s) <= p.last
    ensures k <= FirstGap(p, s + {k})
    ensures Off(p.m, k) <= |p.msg| ==> Covered(p, s) == Off(p.m, k)
  {
    hide Off;
    assert forall i: nat :: i < k ==> i in s + {k};
  }

  lemma StepPastGap(p: Package, s: set<nat>, st: State, k: nat)
    requires p.Short() && Partial(p, s) && Closed(p, s, st)
    requires k <= p.last && k !in s && FirstGap(p, s) < k
    ensures SliceIdxToOffset(k, p.m) > st.watermark
    ensures Closed(p, s + {k}, SliceRecord(p, st, k))
    ensures s + {k} != All(p)
  {
    hide Off, Represents, SliceRecord, SliceIdxToOffset, FirstGap;
    RecordHonest(p, s, st, k);
    OffsetTest(p, s, k);
    GapStays(p, s, k);
    GapMissing(p, s, k);
  }

  lemma GapMissing(p: Package, s: set<nat>, k: nat)
    requires FirstGap(p, s) <= p.last && k != FirstGap(p, s)
    ensures s + {k} != All(p)
  {
    BelowFacts(p.last + 1);
    assert FirstGap(p, s) !in s + {k};
  }

  lemma StepAtGap(p: Package, s: set<nat>, st: State, k: nat)
    requires p.Short() && Partial(p, s) && Closed(p, s, st)
    requires p.NoWrap() || s + {k} != All(p)
    requires k == FirstGap(p, s) <= p.last
    ensures SliceIdxToOffset(k, p.m) <= st.watermark
    ensures AdvancedWatermark(SliceRecord(p, st, k), p.m) == Some(Covered(p, s + {k}))
    ensures Closed(p, s + {k}, SliceRecord(p, st, k).(watermark := Covered(p, s + {k})))
    ensures IsComplete(SliceRecord(p, st, k).(watermark := Covered(p, s + {k})), p.m) <==> s + {k} == All(p)
  {
    hide Off, Represents, SliceRecord, SliceIdxToOffset, AdvancedWatermark, IsComplete;
    RecordHonest(p, s, st, k);
    OffsetTest(p, s, k);
    FillGap(p, s, st, k);
  }

  lemma StepNew(p: Package, s: set<nat>, st: State, k: nat)
    requires p.Short() && Partial(p, s) && Closed(p, s, st)
    requires p.NoWrap() || s + {k} != All(p)
    requires k <= p.last && k !in s && !TestBit(st.bitmap, k)
    ensures SliceStep(p, st, k).Some?
    ensures SliceStep(p, st, k).value.e == EventOf(p, s, k)
    ensures Closed(p, s + {k}, SliceStep(p, st, k).value.next)
  {
    hide Off, TestBit, Record, Closed, IsComplete, AdvancedWatermark, SliceIdxToOffset, FirstGap;
    PartialGap(p, s);
    GapBefore(p, s, k);
    if k > FirstGap(p, s) {
      StepPastGap(p, s, st, k);
    } else {
      StepAtGap(p, s, st, k);
    }
  }

  lemma GapBefore(p: Package, s: set<nat>, k: nat)
    requires k !in s
    ensures FirstGap(p, s) <= k || k > p.last
  {
  }

  /** The closed form is an invariant of the step, and the event it raises is a function of the set, as long
      as nothing wraps. Only the step that completes a package can make an offset wrap. */
  lemma StepWithoutWrap(p: Package, s: set<nat>, st: State, k: nat)
    requires p.Short() && Partial(p, s) && Closed(p, s, st)
    requires p.NoWrap() || s + {k} != All(p)
    requires k <= p.last
    ensures SliceStep(p, st, k).Some?
    ensures SliceStep(p, st, k).value.e == EventOf(p, s, k)
    ensures Closed(p, s + {k}, SliceStep(p, st, k).value.next)
  {
    hide Off, TestBit, SetBit, Record;
    assert TestBit(st.bitmap, k) <==> k in s;
    if k in s {
      assert s + {k} == s;
    } else {
      StepNew(p, s, st, k);
    }
  }
}
