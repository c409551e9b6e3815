/** What the senders must produce: a message cut into numbered slices, the last one marked, and the
    frames that carry them. The eager and the lazy segmentation differ only in which slice is last. */
module Packages {
  import opened Words
  import opened Common
  import opened Tx
  import opened Wrapping

  /** The byte offset of slice `k`. Proofs that need no more than the three lemmas below hide the product. */
  function Off(m: nat, k: nat): nat {
    k * m
  }

  lemma OffSucc(m: nat, k: nat)
    ensures Off(m, k + 1) == Off(m, k) + m
    ensures Off(m, 0) == 0
  {
  }

  lemma OffMono(m: nat, a: nat, b: nat)
    requires a <= b
    ensures Off(m, a) <= Off(m, b)
    ensures a < b ==> Off(m, a) + m <= Off(m, b)
  {
    MulMono(a, b, m);
    if a < b {
      MulMono(a + 1, b, m);
      MulSucc(a, m);
    }
  }

  /** Byte `i` lies in slice `i / m`. */
  lemma OffDiv(m: nat, k: nat, i: nat)
    requires m > 0
    ensures i / m == k <==> Off(m, k) <= i < Off(m, k) + m
  {
    MulSucc(k, m);
    InSlice(i, k, m);
  }

  datatype Package = Package(msg: seq<byte>, m: nat, last: nat) {

    /** Slices 0..last-1 are full and slice `last` carries what is left, possibly nothing. */
    ghost predicate WellFormed() {
      m > 0 && Off(m, last) <= |msg| <= Off(m, last) + m
    }

    /** At most 256 slices and 65535 bytes, in slots a 12-bit payload size can describe. */
    ghost predicate Short() {
      && WellFormed()
      && m + HEADER_SIZE <= 4096
      && 1 <= |msg| < OFFSETS
      && last <= 255
    }

    /** The end of the last non-empty slot is addressable with 16 bits, so that no offset wraps. */
    predicate NoWrap() {
      EmptyTerminator() || Off(m, last) + m < OFFSETS
    }

    /** What a sender can check before it starts: nothing wraps, or the end of the message is among the
        offsets a wrapping scan visits all the same. */
    predicate Addressable()
      requires m > 0
    {
      NoWrap() || |msg| + Grain(m) <= OFFSETS
    }

    /** The packages a receiver can complete. */
    ghost predicate Bounded() {
      Short() && Addressable()
    }

    function Size(k: nat): (n: nat)
      requires k <= last && WellFormed()
      ensures n <= m
    {
      if k < last then m else |msg| - Off(m, last)
    }

    function Payload(k: nat): (data: seq<byte>)
      requires k <= last && WellFormed()
      ensures |data| == Size(k)
    {
      OffMono(m, k, last);
      msg[Off(m, k)..Off(m, k) + Size(k)]
    }

    /** The terminator carries no data: the eager segmentation of an exact multiple. */
    predicate EmptyTerminator() {
      |msg| == Off(m, last)
    }
  }

  /** The C core, the embedded encoder and the C# writer: full slices as soon as they fill, then one
      final slice with the remainder. */
  function Eager(msg: seq<byte>, m: nat): Package
    requires m > 0
  {
    Package(msg, m, |msg| / m)
  }

  /** The C++ stream: the last slice may be full, and no empty slice is ever sent. */
  function Lazy(msg: seq<byte>, m: nat): Package
    requires m > 0 && |msg| > 0
  {
    Package(msg, m, (|msg| - 1) / m)
  }

  lemma EagerWellFormed(msg: seq<byte>, m: nat)
    requires m > 0
    ensures Eager(msg, m).WellFormed()
    ensures |msg| < Off(m, |msg| / m) + m
  {
    OffDiv(m, |msg| / m, |msg|);
  }

  lemma LazyWellFormed(msg: seq<byte>, m: nat)
    requires m > 0 && |msg| > 0
    ensures Lazy(msg, m).WellFormed()
    ensures !Lazy(msg, m).EmptyTerminator()
  {
    OffDiv(m, (|msg| - 1) / m, |msg| - 1);
  }

  // ----- frames -----

  /** The bytes on the wire for slice `k` of a package that starts at `origin`: the header computed
      at the slice's wrapped offset, then the payload, then any padding up to the transmission unit. */
  ghost predicate SliceFrame(config: Config, origin: Coordinate, k: nat, payload: seq<byte>, eop: bool,
      frame: seq<byte>) {
    && MaxPayload(config) > 0
    && |payload| < 0x1_0000
    && |frame| == config.transmissionUnit
    && HEADER_SIZE + |payload| <= |frame|
    && frame[..HEADER_SIZE] == ToBytes(Pack(
        MakeHeader(config, origin.(offset := U16(Off(MaxPayload(config), k))), |payload|, eop)))
    && frame[HEADER_SIZE..HEADER_SIZE + |payload|] == payload
  }

  /** `frames` are the frames of package `p`, in order. */
  ghost predicate Segmented(config: Config, origin: Coordinate, p: Package, frames: seq<seq<byte>>) {
    && p.WellFormed()
    && |frames| == p.last + 1
    && forall k: nat :: k <= p.last ==> SliceFrame(config, origin, k, p.Payload(k), k == p.last, frames[k])
  }

  /** How a header may mark slice `k`: the last slice by the flag, or without it by being shorter than a
      full slice but not empty; no other slice by the flag. */
  ghost predicate Marked(p: Package, k: nat, eop: u8)
    requires k <= p.last && p.WellFormed()
  {
    eop == (if k == p.last then 1 else 0) || (k == p.last && eop == 0 < p.Size(k) < p.m)
  }

  /** A frame of package `p` as a receiver sees it: the header says which slice it is, and the
      payload is that slice. The padding is arbitrary. */
  ghost predicate Honest(p: Package, senderId: u8, packageId: u8, k: nat, frame: seq<byte>) {
    && p.WellFormed()
    && k <= p.last <= 255
    && p.m + HEADER_SIZE <= 4096
    && |frame| == p.m + HEADER_SIZE
    && Marked(p, k, ReadHeader(frame).eop)
    && ReadHeader(frame) == HeaderMeta(packageId, k, senderId, ReadHeader(frame).eop, p.Size(k))
    && frame[HEADER_SIZE..HEADER_SIZE + p.Size(k)] == p.Payload(k)
  }

  lemma SliceFrameReads(config: Config, origin: Coordinate, k: nat, payload: seq<byte>, eop: bool, frame: seq<byte>)
    requires SliceFrame(config, origin, k, payload, eop, frame)
    requires |payload| < 0x1000
    ensures ReadHeader(frame) == MakeHeader(config, origin.(offset := U16(Off(MaxPayload(config), k))), |payload|, eop)
  {
    HeaderRoundTrip(MakeHeader(config, origin.(offset := U16(Off(MaxPayload(config), k))), |payload|, eop), frame);
  }

  /** Two readings of the same frame agree on its payload size and its end flag. */
  lemma SameReading(config: Config, origin: Coordinate, k: nat, a: seq<byte>, b: seq<byte>, e: bool, f: bool,
      frame: seq<byte>)
    requires SliceFrame(config, origin, k, a, e, frame) && SliceFrame(config, origin, k, b, f, frame)
    requires |a| < 0x1000 && |b| < 0x1000
    ensures |a| == |b| && e == f
  {
    hide ReadHeader, SliceFrame, Off;
    SliceFrameReads(config, origin, k, a, e, frame);
    SliceFrameReads(config, origin, k, b, f, frame);
  }

  /** The same frames are not the segmentation of messages of different lengths. */
  lemma SegmentedOnce(config: Config, origin: Coordinate, p: Package, q: Package, frames: seq<seq<byte>>)
    requires ValidUnit(config.transmissionUnit) && p.m == q.m == MaxPayload(config)
    requires Segmented(config, origin, p, frames) && Segmented(config, origin, q, frames)
    ensures |p.msg| == |q.msg|
  {
    hide SliceFrame, Off;
    var k := p.last;
    SameReading(config, origin, k, p.Payload(k), q.Payload(k), true, true, frames[k]);
  }

  /** The n-th slice of a package carries slice number n. */
  lemma SliceHeader(config: Config, origin: Coordinate, p: Package, k: nat, eop: bool)
    requires ValidUnit(config.transmissionUnit) && p.m == MaxPayload(config)
    requires origin.senderId < 8
    requires p.Short() && k <= p.last
    ensures MakeHeader(config, origin.(offset := U16(Off(p.m, k))), p.Size(k), eop) ==
            HeaderMeta(origin.packageId, k, origin.senderId, if eop then 1 else 0, p.Size(k))
  {
    hide Off;
    OffMono(p.m, k, p.last);
    SliceNumber(p.m, k);
  }

  lemma SliceNumber(m: u16, k: u8)
    requires m > 0 && Off(m, k) < 0x1_0000
    ensures OffsetToSliceIdx(U16(Off(m, k)), m) == k
  {
    hide Off;
    OffDiv(m, k, Off(m, k));
  }

  /** A frame made for slice `k`, with the end flag or where the receiver does without it, reads back as
      that slice. */
  lemma SliceFrameIsHonest(config: Config, origin: Coordinate, p: Package, k: nat, eop: bool, frame: seq<byte>)
    requires ValidUnit(config.transmissionUnit) && p.m == MaxPayload(config)
    requires origin.senderId < 8
    requires p.Short() && k <= p.last && Marked(p, k, if eop then 1 else 0)
    requires SliceFrame(config, origin, k, p.Payload(k), eop, frame)
    ensures Honest(p, origin.senderId, origin.packageId, k, frame)
  {
    hide ReadHeader, ToBytes, Pack, Off, MakeHeader;
    SliceFrameReads(config, origin, k, p.Payload(k), eop, frame);
    SliceHeader(config, origin, p, k, eop);
  }

  /** Every frame a sender emits for a package reads back as the slice it was made from. */
  lemma SegmentedIsHonest(config: Config, origin: Coordinate, p: Package, frames: seq<seq<byte>>, k: nat)
    requires ValidUnit(config.transmissionUnit) && p.m == MaxPayload(config)
    requires origin.senderId < 8
    requires p.Short() && Segmented(config, origin, p, frames)
    requires k <= p.last
    ensures Honest(p, origin.senderId, origin.packageId, k, frames[k])
  {
    hide SliceFrame, Honest, Off;
    assert SliceFrame(config, origin, k, p.Payload(k), k == p.last, frames[k]);
    SliceFrameIsHonest(config, origin, p, k, k == p.last, frames[k]);
  }

  /** The four bytes in front of every frame of a package, as they go over the wire. */
  lemma FrameOnWire(config: Config, origin: Coordinate, p: Package, frames: seq<seq<byte>>, k: nat)
    requires ValidUnit(config.transmissionUnit) && p.m == MaxPayload(config)
    requires origin.senderId < 8
    requires p.Short() && Segmented(config, origin, p, frames)
    requires k <= p.last
    ensures |frames[k]| >= HEADER_SIZE
    ensures frames[k][0] as int == origin.packageId && frames[k][1] as int == k
    ensures frames[k][2] as int == origin.senderId + (if k == p.last then 8 else 0) + 16 * (p.Size(k) % 16)
    ensures frames[k][3] as int == p.Size(k) / 16
  {
    hide ToBytes, Pack, Off, MakeHeader;
    assert SliceFrame(config, origin, k, p.Payload(k), k == p.last, frames[k]);
    SliceHeader(config, origin, p, k, k == p.last);
    FittingBytes(HeaderMeta(origin.packageId, k, origin.senderId, if k == p.last then 1 else 0, p.Size(k)), frames[k]);
  }

  lemma FittingBytes(h: HeaderMeta, frame: seq<byte>)
    requires FitsWire(h) && |frame| >= HEADER_SIZE && frame[..HEADER_SIZE] == ToBytes(Pack(h))
    ensures frame[0] as int == h.packageSerial && frame[1] as int == h.sliceSerial
    ensures frame[2] as int == h.senderId + 8 * h.eop + 16 * (h.slicePayloadSize % 16)
    ensures frame[3] as int == h.slicePayloadSize / 16
  {
    hide ToBytes, Pack;
    HeaderToBytes(h, frame);
    FittingFields(h);
  }

  lemma FittingFields(h: HeaderMeta)
    requires FitsWire(h)
    ensures h.senderId % 8 == h.senderId && (if h.eop == 1 then 1 else 0) == h.eop
    ensures h.slicePayloadSize % 0x1000 == h.slicePayloadSize
  {
  }

  // ----- what frames carry -----

  /** The payload a frame announces, if it holds it. */
  function Announced(frame: seq<byte>): seq<byte> {
    if |frame| < HEADER_SIZE || |frame| < HEADER_SIZE + ReadHeader(frame).slicePayloadSize then []
    else frame[HEADER_SIZE..HEADER_SIZE + ReadHeader(frame).slicePayloadSize]
  }

  /** The payloads of the frames, one after another. */
  function Carried(frames: seq<seq<byte>>): seq<byte> {
    if frames == [] then [] else Carried(frames[..|frames| - 1]) + Announced(frames[|frames| - 1])
  }

  lemma CarriedSnoc(frames: seq<seq<byte>>, frame: seq<byte>)
    ensures Carried(frames + [frame]) == Carried(frames) + Announced(frame)
  {
    assert (frames + [frame])[..|frames|] == frames;
  }

  lemma SliceFrameAnnounces(config: Config, origin: Coordinate, k: nat, payload: seq<byte>, eop: bool, frame: seq<byte>)
    requires SliceFrame(config, origin, k, payload, eop, frame) && |payload| < 0x1000
    ensures Announced(frame) == payload && ReadHeader(frame).eop == if eop then 1 else 0
  {
    hide ReadHeader, Off;
    SliceFrameReads(config, origin, k, payload, eop, frame);
  }
}
