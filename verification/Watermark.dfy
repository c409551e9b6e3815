/** The watermark scan over arbitrary states: when it ends, where it stops, and when it never does. */
module Watermark {
  import opened Words
  import opened Common
  import opened Bitmap
  import opened Packages
  import opened Rx
  import opened ClosedForm
  import opened Wrapping

  /** The first slice number at or after `n` whose bit is clear, or 256. */
  function FirstClear(b: Bits, n: nat): (c: nat)
    requires n <= 256
    ensures n <= c <= 256
    ensures c < 256 ==> !TestBit(b, c)
    ensures forall k: nat :: n <= k < c ==> TestBit(b, k)
    decreases 256 - n
  {
    if n == 256 || !TestBit(b, n) then n else FirstClear(b, n + 1)
  }

  /** Something ahead of slice `n` stops the scan before a 16-bit offset wraps. */
  predicate StopAhead(s: State, m: nat, n: nat)
    requires n <= 256
  {
    || (FirstClear(s.bitmap, n) < 256 && Off(m, FirstClear(s.bitmap, n)) < 0x1_0000)
    || (0 < s.termination <= Off(m, 256) && s.termination + m <= 0x1_0000)
  }

  /** From an aligned offset, if something stops the scan it stops within one iteration per remaining slice
      number, at the first missing slice or at the known end of the package, whichever comes first. */
  lemma {:induction false} ScanEndsInTime(s: State, m: u16, n: nat, fuel: nat)
    requires m > 0 && n <= 256 && Off(m, n) < 0x1_0000
    requires StopAhead(s, m, n)
    requires fuel == 256 - n
    ensures Scan(s, Off(m, n), m, fuel) ==
            Some(if s.termination == 0 then Off(m, FirstClear(s.bitmap, n))
              else Min(s.termination, Off(m, FirstClear(s.bitmap, n))))
    decreases fuel
  {
    hide Off, TestBit, Stops, FirstClear;
    var c := FirstClear(s.bitmap, n);
    OffMono(m, n, c);
    if n == 256 {
      OverTheEnd(s, m);
    } else {
      StopsAt(s, m, n);
      FirstClearNext(s.bitmap, n);
      if !Stops(s, Off(m, n), m) {
        OffSucc(m, n);
        OffMono(m, n + 1, c);
        ScanEndsInTime(s, m, n + 1, fuel - 1);
      }
    }
  }

  lemma FirstClearNext(b: Bits, n: nat)
    requires n < 256
    ensures FirstClear(b, n) == if TestBit(b, n) then FirstClear(b, n + 1) else n
  {
  }

  lemma OverTheEnd(s: State, m: u16)
    requires m > 0 && Off(m, 256) < 0x1_0000 && 0 < s.termination <= Off(m, 256)
    ensures Stops(s, Off(m, 256), m)
  {
  }

  lemma StopsAt(s: State, m: u16, n: nat)
    requires m > 0 && n < 256 && Off(m, n) < 0x1_0000
    ensures Stops(s, Off(m, n), m) <==> (s.termination > 0 && Off(m, n) >= s.termination) || !TestBit(s.bitmap, n)
  {
    hide Off, TestBit;
    OffDiv(m, n, Off(m, n));
  }

  /** With every bit set and no known end the loop never ends. */
  lemma FullMapNeverEnds(s: State, m: u16)
    requires m > 0 && s.termination == 0 && FirstClear(s.bitmap, 0) == 256
    ensures AdvancedWatermark(s, m) == None
  {
    hide TestBit;
    NeverStopping(s, s.watermark, m, OFFSETS);
  }

  // ----- the address space, exactly -----

  /** Every slice is recorded and the end is known, but the last slot ends past the address space. */
  ghost predicate Overhanging(p: Package, s: State, k: nat) {
    && p.WellFormed() && p.m < 0x1_0000 && p.last <= 255
    && 1 <= |p.msg| < OFFSETS <= Off(p.m, p.last) + p.m
    && Represents(s.bitmap, All(p))
    && s.termination == |p.msg|
    && Off(p.m, k) < 0x1_0000 && s.watermark == Off(p.m, k)
  }

  /** Then every bit the scan can look at is set, and only the end stops it. */
  lemma OnlyTheEndStops(p: Package, s: State, k: nat, wm: u16)
    requires Overhanging(p, s, k)
    ensures Stops(s, wm, p.m) <==> wm >= |p.msg|
  {
    hide Off, TestBit;
    var idx := wm / p.m;
    OffDiv(p.m, idx, wm);
    if idx > p.last {
      OffMono(p.m, p.last, idx);
    }
    BelowFacts(p.last + 1);
    assert TestBit(s.bitmap, idx);
  }

  lemma {:induction false} ScanToTheEnd(p: Package, s: State, k: nat, wm: u16, fuel: nat)
    requires Overhanging(p, s, k)
    ensures Scan(s, wm, p.m, fuel) in {None, Some(|p.msg|)}
    decreases fuel
  {
    hide Represents, Off, All, Stops;
    OnlyTheEndStops(p, s, k, wm);
    if !Stops(s, wm, p.m) && fuel > 0 {
      ScanToTheEnd(p, s, k, U16(wm + p.m), fuel - 1);
    }
  }

  /** A package whose last slot ends past the address space is completed exactly when its end lies no
      further than the last offset the wrapping scan can visit. */
  lemma OverhangEndsIff(p: Package, s: State, k: nat)
    requires Overhanging(p, s, k)
    ensures AdvancedWatermark(s, p.m) == if |p.msg| + Grain(p.m) <= OFFSETS then Some(|p.msg|) else None
  {
    hide Scan, Stops, Grain;
    if |p.msg| + Grain(p.m) <= OFFSETS {
      var i := VisitsLast(p.m, k);
      OnlyTheEndStops(p, s, k, U16(s.watermark + i * p.m));
      ScanEndsIffSomeOffsetStops(s, p.m);
      ScanToTheEnd(p, s, k, s.watermark, OFFSETS);
    } else {
      forall i: nat
        ensures !Stops(s, U16(s.watermark + i * p.m), p.m)
      {
        VisitsMultiples(p.m, k, i);
        OnlyTheEndStops(p, s, k, U16(s.watermark + i * p.m));
      }
      NeverStopping(s, s.watermark, p.m, OFFSETS);
    }
  }

  /** The scan that completes a package ends, with the whole message before the watermark, if and only if
      the package is addressable. */
  lemma CompletingScan(p: Package, s: State, k: nat)
    requires p.Short() && k <= p.last && s.watermark == Off(p.m, k)
    requires Represents(s.bitmap, All(p)) && s.termination == |p.msg|
    ensures AdvancedWatermark(s, p.m) == if p.Addressable() then Some(|p.msg|) else None
  {
    hide Represents, Off, Grain;
    if p.NoWrap() {
      BelowFacts(p.last + 1);
      FullGap(p);
      OffSucc(p.m, p.last);
      StartsInside(p, k);
      ScanStopsAtGap(p, All(p), s, k, OFFSETS);
    } else {
      OffMono(p.m, k, p.last);
      OverhangEndsIff(p, s, k);
    }
  }

  /** The address condition, exactly: over the honest slices of a package of at most 256 slices and 65535
      bytes the step fails to return in one case alone, when a slice completes a package that is not
      addressable. In every other case it raises the event of the set and keeps the closed form. */
  lemma StepFailsIffNotAddressable(p: Package, s: set<nat>, st: State, k: nat)
    requires p.Short() && Partial(p, s) && Closed(p, s, st) && k <= p.last
    ensures SliceStep(p, st, k) == None <==> s + {k} == All(p) && !p.Addressable()
    ensures SliceStep(p, st, k).Some? ==>
              SliceStep(p, st, k).value.e == EventOf(p, s, k) && Closed(p, s + {k}, SliceStep(p, st, k).value.next)
  {
    hide Represents, Off, Grain, SliceStep, Closed;
    if s + {k} != All(p) || p.NoWrap() {
      StepWithoutWrap(p, s, st, k);
    } else {
      CompletingStep(p, s, st, k);
      assert k in s ==> s + {k} == s;
    }
  }

  lemma CompletingStep(p: Package, s: set<nat>, st: State, k: nat)
    requires p.Short() && Partial(p, s) && Closed(p, s, st) && k <= p.last
    requires s + {k} == All(p)
    ensures SliceStep(p, st, k) == None <==> !p.Addressable()
    ensures SliceStep(p, st, k).Some? ==>
              SliceStep(p, st, k).value.e == Complete && Closed(p, s + {k}, SliceStep(p, st, k).value.next)
  {
    hide Off, TestBit, Record, AdvancedWatermark, IsComplete, SliceIdxToOffset, Grain;
    PartialGap(p, s);
    BelowFacts(p.last + 1);
    assert FirstGap(p, s) == k by { assert FirstGap(p, s) in All(p); }
    assert !TestBit(st.bitmap, k);
    RecordHonest(p, s, st, k);
    OffsetTest(p, s, k);
    var r := SliceRecord(p, st, k);
    CompletingScan(p, r, k);
    FullyCovered(p);
    CounterTest(p, All(p), r.(watermark := Covered(p, All(p))));
  }

  lemma FullyCovered(p: Package)
    requires p.Short()
    ensures Covered(p, All(p)) == |p.msg|
  {
    FullGap(p);
    OffSucc(p.m, p.last);
  }

  /** The closed form is an invariant of the step over honest slices, and the event it raises is a function
      of the set. Only the step that completes a package needs it to be addressable. */
  lemma StepHonest(p: Package, s: set<nat>, st: State, k: nat)
    requires p.Short() && Partial(p, s) && Closed(p, s, st) && k <= p.last
    requires p.Addressable() || s + {k} != All(p)
    ensures SliceStep(p, st, k).Some?
    ensures SliceStep(p, st, k).value.e == EventOf(p, s, k)
    ensures Closed(p, s + {k}, SliceStep(p, st, k).value.next)
  {
    StepFailsIffNotAddressable(p, s, st, k);
  }
}
