/** Shared data and pure operators of the protocol: coordinates, the packed header and the
    arithmetic between offsets and slice numbers. */
module Common {
  import opened Words

  const SENDER_COUNT := 8
  const PACKAGE_COUNT := 256
  const PACKAGE_ID_MAX := 255
  const HEADER_SIZE := 4

  datatype Config = Config(transmissionUnit: u16)

  datatype Coordinate = Coordinate(senderId: u8, packageId: u8, offset: u16)

  datatype HeaderMeta = HeaderMeta(
    packageSerial: u8,
    sliceSerial: u8,
    senderId: u8,
    eop: u8,
    slicePayloadSize: u16)

  /** Transmission units the deployments use: room for a header and a byte, and a payload size
      that fits the 12 bits of the header. */
  predicate ValidUnit(tu: nat) {
    5 <= tu <= 4096
  }

  function MaxPayload(config: Config): u16 {
    U16(config.transmissionUnit - HEADER_SIZE)
  }

  function SliceIdxToOffset(sliceIdx: u8, maxPayload: u16): u16 {
    U16(sliceIdx * maxPayload)
  }

  function OffsetToSliceIdx(offset: u16, maxPayload: u16): u8
    requires maxPayload > 0
  {
    U8(offset / maxPayload)
  }

  // ----- integers and bit patterns -----

  function U16Bits(x: u16): bv16 {
    (((x / 0x100) as bv8) as bv16 << 8) | ((x % 0x100) as bv8) as bv16
  }

  function U16FromBits(b: bv16): u16 {
    ((b >> 8) as bv8) as int * 0x100 + ((b & 0xff) as bv8) as int
  }

  lemma NibbleRoundTrip(x: u8)
    requires x < 16
    ensures (x as bv8) as int == x && (x as bv8) < 16
  {
  }

  lemma JoinNibbles(hi: bv8, lo: bv8)
    requires hi < 16 && lo < 16
    ensures ((hi << 4) | lo) as int == hi as int * 16 + lo as int
  {
  }

  lemma BitsRoundTrip(b: bv8)
    ensures (b as int) as bv8 == b
  {
  }

  lemma U8RoundTrip(x: u8)
    ensures (x as bv8) as int == x
  {
    NibbleRoundTrip(x / 16);
    NibbleRoundTrip(x % 16);
    JoinNibbles((x / 16) as bv8, (x % 16) as bv8);
    BitsRoundTrip((((x / 16) as bv8) << 4) | ((x % 16) as bv8));
  }

  lemma U16RoundTrip(x: u16)
    ensures U16FromBits(U16Bits(x)) == x
  {
    var hi, lo := (x / 0x100) as bv8, (x % 0x100) as bv8;
    assert ((((hi as bv16) << 8) | (lo as bv16)) >> 8) as bv8 == hi;
    assert ((((hi as bv16) << 8) | (lo as bv16)) & 0xff) as bv8 == lo;
    U8RoundTrip(x / 0x100);
    U8RoundTrip(x % 0x100);
  }

  lemma Low3Bits(x: u8)
    requires x < 8
    ensures (x as bv8) & 0x07 == x as bv8
  {
  }

  lemma Low4Bits(x: u8)
    requires x < 16
    ensures (x as bv8) & 0x0f == x as bv8
  {
  }

  lemma Low12Bits(x: u16)
    requires x < 0x1000
    ensures U16Bits(x) & 0x0fff == U16Bits(x)
  {
    var hi, lo := (x / 0x100) as bv8, (x % 0x100) as bv8;
    Low4Bits(x / 0x100);
    assert hi & 0x0f == hi ==>
        (((hi as bv16) << 8) | (lo as bv16)) & 0x0fff == ((hi as bv16) << 8) | (lo as bv16);
  }

  // ----- header on the wire -----

  function Pack(h: HeaderMeta): bv32 {
    PackBits(h.packageSerial as bv8, h.sliceSerial as bv8, h.senderId as bv8, h.eop == 1, U16Bits(h.slicePayloadSize))
  }

  function PackBits(package: bv8, slice: bv8, sender: bv8, eop: bool, size: bv16): bv32 {
    ((package as bv32) << 0) |
    ((slice as bv32) << 8) |
    (((sender & 0x07) as bv32) << 16) |
    ((if eop then 1 else 0) << 19) |
    (((size & 0x0fff) as bv32) << 20)
  }

  function Unpack(packed: bv32): HeaderMeta {
    HeaderMeta(
      ((packed & 0xff) as bv8) as int,
      (((packed >> 8) & 0xff) as bv8) as int,
      (((packed >> 16) & 0x07) as bv8) as int,
      if (packed >> 19) & 0x01 == 1 then 1 else 0,
      U16FromBits(((packed >> 20) & 0x0fff) as bv16))
  }

  function ToBytes(packed: bv32): (b: seq<byte>)
    ensures |b| == HEADER_SIZE
  {
    [(packed & 0xff) as bv8, ((packed >> 8) & 0xff) as bv8, ((packed >> 16) & 0xff) as bv8,
      ((packed >> 24) & 0xff) as bv8]
  }

  function FromBytes(b: seq<byte>): bv32
    requires |b| >= HEADER_SIZE
  {
    ((b[0] as bv32) << 0) | ((b[1] as bv32) << 8) | ((b[2] as bv32) << 16) | ((b[3] as bv32) << 24)
  }

  /** The header a receiver reads at the front of a frame. */
  function ReadHeader(frame: seq<byte>): HeaderMeta
    requires |frame| >= HEADER_SIZE
  {
    Unpack(FromBytes(frame))
  }

  /** Headers whose fields fit their wire width. */
  predicate FitsWire(h: HeaderMeta) {
    h.senderId < 8 && h.eop < 2 && h.slicePayloadSize < 0x1000
  }

  lemma PackedFields(package: bv8, slice: bv8, sender: bv8, eop: bool, size: bv16)
    ensures var k := PackBits(package, slice, sender, eop, size);
            (k & 0xff) as bv8 == package && ((k >> 8) & 0xff) as bv8 == slice &&
            ((k >> 16) & 0x07) as bv8 == sender & 0x07 && ((k >> 19) & 0x01 == 1 <==> eop) &&
            ((k >> 20) & 0x0fff) as bv16 == size & 0x0fff
  {
  }

  lemma BytesRoundTrip(packed: bv32, frame: seq<byte>)
    requires |frame| >= HEADER_SIZE && frame[..HEADER_SIZE] == ToBytes(packed)
    ensures FromBytes(frame) == packed
  {
    assert forall i :: 0 <= i < 4 ==> frame[i] == frame[..HEADER_SIZE][i];
  }

  lemma UnpackBits(package: bv8, slice: bv8, sender: bv8, eop: bool, size: bv16)
    ensures Unpack(PackBits(package, slice, sender, eop, size)) == HeaderMeta(
              package as int, slice as int, (sender & 0x07) as int,
              if eop then 1 else 0, U16FromBits(size & 0x0fff))
  {
    hide PackBits, U16FromBits;
    PackedFields(package, slice, sender, eop, size);
  }

  /** What packing keeps of each field. */
  lemma UnpackPack(h: HeaderMeta)
    ensures Unpack(Pack(h)) == HeaderMeta(
              h.packageSerial, h.sliceSerial, ((h.senderId as bv8) & 0x07) as int,
              if h.eop == 1 then 1 else 0, U16FromBits(U16Bits(h.slicePayloadSize) & 0x0fff))
  {
    hide PackBits, Unpack, U16Bits, U16FromBits;
    UnpackBits(h.packageSerial as bv8, h.sliceSerial as bv8, h.senderId as bv8,
               h.eop == 1, U16Bits(h.slicePayloadSize));
    U8RoundTrip(h.packageSerial);
    U8RoundTrip(h.sliceSerial);
  }

  /** Packing, writing four little-endian bytes, reading them back and unpacking loses nothing
      exactly when the fields fit their wire width. */
  lemma HeaderRoundTrip(h: HeaderMeta, frame: seq<byte>)
    requires |frame| >= HEADER_SIZE && frame[..HEADER_SIZE] == ToBytes(Pack(h))
    ensures ReadHeader(frame) == h <==> FitsWire(h)
  {
    hide Pack, Unpack, FromBytes, ToBytes, U16Bits, U16FromBits;
    BytesRoundTrip(Pack(h), frame);
    UnpackPack(h);
    UnpackFits(Pack(h));
    if FitsWire(h) {
      U8RoundTrip(h.senderId);
      Low3Bits(h.senderId);
      U16RoundTrip(h.slicePayloadSize);
      Low12Bits(h.slicePayloadSize);
    }
  }

  lemma UnpackFits(packed: bv32)
    ensures FitsWire(Unpack(packed))
  {
    Small3(((packed >> 16) & 0x07) as bv8) by { assert ((packed >> 16) & 0x07) & 0x07 == (packed >> 16) & 0x07; }
    Small12(((packed >> 20) & 0x0fff) as bv16);
  }

  /** What is read off the wire always fits its wire width. */
  lemma HeaderFits(frame: seq<byte>)
    requires |frame| >= HEADER_SIZE
    ensures FitsWire(ReadHeader(frame))
  {
    UnpackFits(FromBytes(frame));
  }

  lemma Small12(size: bv16)
    requires size & 0x0fff == size
    ensures U16FromBits(size) < 0x1000
  {
    Small4((size >> 8) as bv8) by { HighNibble(size); }
  }

  lemma HighNibble(size: bv16)
    requires size & 0x0fff == size
    ensures ((size >> 8) as bv8) & 0x0f == (size >> 8) as bv8
  {
  }

  lemma Small3(b: bv8)
    requires b & 0x07 == b
    ensures b as int < 8
  {
  }

  lemma Small4(b: bv8)
    requires b & 0x0f == b
    ensures b as int < 16
  {
  }

  // ----- the four bytes, without naming the functions that make them -----

  lemma JoinThree(hi: bv8, lo: bv8)
    requires hi < 2 && lo < 8
    ensures ((hi << 3) | lo) as int == hi as int * 8 + lo as int
  {
  }

  /** A byte as its two nibbles. */
  lemma Nibbles(b: bv8)
    ensures (b >> 4) as int == b as int / 16 && (b & 0x0f) as int == b as int % 16
  {
    JoinNibbles(b >> 4, b & 0x0f);
    Small4(b & 0x0f) by { assert (b & 0x0f) & 0x0f == b & 0x0f; }
    Small4(b >> 4) by { assert (b >> 4) & 0x0f == b >> 4; }
    assert ((b >> 4) << 4) | (b & 0x0f) == b;
  }

  /** The low nibble of the third byte: three bits of sender id and the end flag. */
  lemma SenderAndFlag(b: bv8)
    ensures (b & 0x07) as int == b as int % 8
    ensures b & 0x08 != 0 <==> b as int / 8 % 2 == 1
  {
    var hi, lo := (b & 0x0f) >> 3, b & 0x07;
    Nibbles(b);
    assert (hi << 3) | lo == b & 0x0f;
    JoinThree(hi, lo);
    Small3(lo) by { assert lo & 0x07 == lo; }
    OneBit(hi);
    assert b & 0x08 != 0 <==> hi == 1;
  }

  lemma OneBit(b: bv8)
    requires b < 2
    ensures b as int < 2 && (b == 1 <==> b as int == 1)
  {
  }

  lemma SizeHalves(b2: bv8, b3: bv8)
    ensures var size := ((b2 >> 4) as bv16) | ((b3 as bv16) << 4);
            (size >> 8) as bv8 == b3 >> 4 && (size & 0xff) as bv8 == ((b3 & 0x0f) << 4) | (b2 >> 4)
    ensures b3 & 0x0f < 16 && b2 >> 4 < 16
  {
  }

  lemma FromHalves(size: bv16, hi: bv8, lo: bv8)
    requires (size >> 8) as bv8 == hi && (size & 0xff) as bv8 == lo
    ensures U16FromBits(size) == hi as int * 0x100 + lo as int
  {
  }

  lemma SizeOfParts(hi3: int, lo3: int, b2: int, b3: int)
    requires 0 <= b3 && hi3 == b3 / 16 && lo3 == b3 % 16
    ensures hi3 * 0x100 + (lo3 * 16 + b2 / 16) == b2 / 16 + 16 * b3
  {
  }

  /** The size: its low nibble on top of the third byte, the rest in the fourth. */
  lemma SizeBytes(b2: bv8, b3: bv8)
    ensures U16FromBits(((b2 >> 4) as bv16) | ((b3 as bv16) << 4)) == b2 as int / 16 + 16 * (b3 as int)
  {
    hide U16FromBits;
    SizeHalves(b2, b3);
    Nibbles(b2);
    Nibbles(b3);
    JoinNibbles(b3 & 0x0f, b2 >> 4);
    FromHalves(((b2 >> 4) as bv16) | ((b3 as bv16) << 4), b3 >> 4, ((b3 & 0x0f) << 4) | (b2 >> 4));
    SizeOfParts((b3 >> 4) as int, (b3 & 0x0f) as int, b2 as int, b3 as int);
  }

  lemma FromBytesFields(frame: seq<byte>)
    requires |frame| >= HEADER_SIZE
    ensures var k := FromBytes(frame);
            (k & 0xff) as bv8 == frame[0] && ((k >> 8) & 0xff) as bv8 == frame[1] &&
            ((k >> 16) & 0x07) as bv8 == frame[2] & 0x07 && ((k >> 19) & 0x01 == 1 <==> frame[2] & 0x08 != 0) &&
            ((k >> 20) & 0x0fff) as bv16 == ((frame[2] >> 4) as bv16) | ((frame[3] as bv16) << 4)
  {
  }

  /** What a receiver reads from any four bytes: least significant byte first. */
  lemma HeaderFromBytes(frame: seq<byte>)
    requires |frame| >= HEADER_SIZE
    ensures ReadHeader(frame) == HeaderMeta(
              frame[0] as int, frame[1] as int, frame[2] as int % 8, frame[2] as int / 8 % 2,
              frame[2] as int / 16 + 16 * (frame[3] as int))
  {
    hide FromBytes, U16FromBits;
    FromBytesFields(frame);
    SenderAndFlag(frame[2]);
    SizeBytes(frame[2], frame[3]);
  }

  lemma MaskedHalves(hi: bv8, lo: bv8)
    ensures var masked := (((hi as bv16) << 8) | (lo as bv16)) & 0x0fff;
            (masked >> 8) as bv8 == hi & 0x0f && (masked & 0xff) as bv8 == lo
  {
  }

  lemma LowHalves(size: u16)
    ensures size / 0x100 % 16 * 0x100 + size % 0x100 == size % 0x1000
  {
  }

  lemma FromMasked(hi: bv8, lo: bv8)
    ensures U16FromBits((((hi as bv16) << 8) | (lo as bv16)) & 0x0fff) == hi as int % 16 * 0x100 + lo as int
  {
    hide U16FromBits;
    MaskedHalves(hi, lo);
    FromHalves((((hi as bv16) << 8) | (lo as bv16)) & 0x0fff, hi & 0x0f, lo);
    Nibbles(hi);
  }

  lemma Low12OfSize(size: u16)
    ensures U16FromBits(U16Bits(size) & 0x0fff) == size % 0x1000
  {
    hide U16FromBits;
    FromMasked((size / 0x100) as bv8, (size % 0x100) as bv8);
    U8RoundTrip(size / 0x100);
    U8RoundTrip(size % 0x100);
    LowHalves(size);
  }

  /** The last two bytes from the fields they hold. */
  lemma LastTwoBytes(b2: u8, b3: u8, sender: int, flag: int, size: int)
    requires b2 % 8 == sender && b2 / 8 % 2 == flag && b2 / 16 + 16 * b3 == size % 0x1000
    ensures b2 == sender + 8 * flag + 16 * (size % 16) && b3 == size % 0x1000 / 16
  {
    ThirdByte(b2, b3);
    assert size % 0x1000 % 16 == size % 16;
  }

  lemma ReadFields(h: HeaderMeta, frame: seq<byte>)
    requires |frame| >= HEADER_SIZE && frame[..HEADER_SIZE] == ToBytes(Pack(h))
    ensures ReadHeader(frame) == HeaderMeta(
              h.packageSerial, h.sliceSerial, h.senderId % 8, if h.eop == 1 then 1 else 0, h.slicePayloadSize % 0x1000)
  {
    hide FromBytes, Unpack, ToBytes, Pack, U16FromBits, U16Bits;
    BytesRoundTrip(Pack(h), frame);
    UnpackPack(h);
    SenderBits(h.senderId);
    Low12OfSize(h.slicePayloadSize);
  }

  lemma SenderBits(x: u8)
    ensures ((x as bv8) & 0x07) as int == x % 8
  {
    U8RoundTrip(x);
    SenderAndFlag(x as bv8);
  }

  /** What a sender puts on the wire for any header: least significant byte first, and of the sender id, the flag
      and the size what fits their three, one and twelve bits. */
  lemma HeaderToBytes(h: HeaderMeta, frame: seq<byte>)
    requires |frame| >= HEADER_SIZE && frame[..HEADER_SIZE] == ToBytes(Pack(h))
    ensures frame[0] as int == h.packageSerial && frame[1] as int == h.sliceSerial
    ensures frame[2] as int == h.senderId % 8 + 8 * (if h.eop == 1 then 1 else 0) + 16 * (h.slicePayloadSize % 16)
    ensures frame[3] as int == h.slicePayloadSize % 0x1000 / 16
  {
    hide ReadHeader, ToBytes, Pack;
    ReadFields(h, frame);
    HeaderFromBytes(frame);
    ByteRange(frame[2]);
    ByteRange(frame[3]);
    LastTwoBytes(frame[2] as int, frame[3] as int, h.senderId % 8, if h.eop == 1 then 1 else 0, h.slicePayloadSize);
  }

  lemma ByteRange(b: bv8)
    ensures 0 <= b as int < 0x100
  {
  }

  lemma ThirdByte(b2: u8, b3: u8)
    ensures b2 == b2 % 8 + 8 * (b2 / 8 % 2) + 16 * (b2 / 16)
    ensures (b2 / 16 + 16 * b3) % 16 == b2 / 16 && (b2 / 16 + 16 * b3) / 16 == b3
  {
  }
}
