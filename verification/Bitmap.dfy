/** The 256-bit map in eight 32-bit words, and the set of slice numbers it stands for. */
module Bitmap {
  import opened Words

  type Bits = b: seq<bv32> | |b| == 8 witness [0, 0, 0, 0, 0, 0, 0, 0]

  const EMPTY_BITS: Bits := [0, 0, 0, 0, 0, 0, 0, 0]

  function Mask(i: nat): bv32
    requires i < 32
  {
    1 << i
  }

  predicate TestAt(b: Bits, w: nat, i: nat)
    requires w < 8 && i < 32
  {
    b[w] & Mask(i) != 0
  }

  function SetAt(b: Bits, w: nat, i: nat): Bits
    requires w < 8 && i < 32
  {
    b[w := b[w] | Mask(i)]
  }

  predicate TestBit(b: Bits, id: u8) {
    TestAt(b, id / 32, id % 32)
  }

  function SetBit(b: Bits, id: u8): Bits {
    SetAt(b, id / 32, id % 32)
  }

  /** `b` has exactly the bits of `s` set. */
  ghost predicate Represents(b: Bits, s: set<nat>) {
    forall id: u8 :: TestBit(b, id) <==> id in s
  }

  // ----- words -----

  lemma MaskNonZero(i: nat)
    requires i < 32
    ensures Mask(i) != 0
  {
  }

  lemma MasksApart(i: nat, j: nat)
    requires i < 32 && j < 32 && i != j
    ensures Mask(i) & Mask(j) == 0
  {
  }

  lemma OrSame(word: bv32, mask: bv32)
    requires mask != 0
    ensures (word | mask) & mask != 0
  {
  }

  lemma OrApart(word: bv32, set': bv32, test: bv32)
    requires set' & test == 0
    ensures (word | set') & test == word & test
  {
  }

  lemma SetThenTestSame(b: Bits, w: nat, i: nat)
    requires w < 8 && i < 32
    ensures TestAt(SetAt(b, w, i), w, i)
  {
    MaskNonZero(i);
    OrSame(b[w], Mask(i));
  }

  lemma SetThenTestApart(b: Bits, w: nat, i: nat, v: nat, j: nat)
    requires w < 8 && i < 32 && v < 8 && j < 32
    requires w != v || i != j
    ensures TestAt(SetAt(b, w, i), v, j) == TestAt(b, v, j)
  {
    if w == v {
      MasksApart(i, j);
      OrApart(b[w], Mask(i), Mask(j));
    }
  }

  lemma SetThenTest(b: Bits, id: u8, j: u8)
    ensures TestBit(SetBit(b, id), j) <==> j == id || TestBit(b, j)
  {
    if j == id {
      SetThenTestSame(b, id / 32, id % 32);
    } else {
      assert id / 32 != j / 32 || id % 32 != j % 32;
      SetThenTestApart(b, id / 32, id % 32, j / 32, j % 32);
    }
  }

  // ----- maps -----

  lemma InsertRepresents(b: Bits, s: set<nat>, id: u8)
    requires Represents(b, s)
    ensures Represents(SetBit(b, id), s + {id})
  {
    forall j: u8
      ensures TestBit(SetBit(b, id), j) <==> j in s + {id}
    {
      SetThenTest(b, id, j);
    }
  }

  lemma EmptyRepresents()
    ensures Represents(EMPTY_BITS, {})
  {
    forall j: u8
      ensures !TestBit(EMPTY_BITS, j)
    {
      var mask := Mask(j % 32);
      assert 0 & mask == 0;
    }
  }

  // ----- a set is represented by at most one bitmap -----

  ghost predicate SameAt(a: bv32, b: bv32, i: nat)
    requires i < 32
  {
    a & Mask(i) != 0 <==> b & Mask(i) != 0
  }

  lemma Byte0Equal(a: bv32, b: bv32)
    requires SameAt(a, b, 0) && SameAt(a, b, 1) && SameAt(a, b, 2) && SameAt(a, b, 3)
    requires SameAt(a, b, 4) && SameAt(a, b, 5) && SameAt(a, b, 6) && SameAt(a, b, 7)
    ensures a & 0x000000ff == b & 0x000000ff
  {
  }

  lemma Byte1Equal(a: bv32, b: bv32)
    requires SameAt(a, b, 8) && SameAt(a, b, 9) && SameAt(a, b, 10) && SameAt(a, b, 11)
    requires SameAt(a, b, 12) && SameAt(a, b, 13) && SameAt(a, b, 14) && SameAt(a, b, 15)
    ensures a & 0x0000ff00 == b & 0x0000ff00
  {
  }

  lemma Byte2Equal(a: bv32, b: bv32)
    requires SameAt(a, b, 16) && SameAt(a, b, 17) && SameAt(a, b, 18) && SameAt(a, b, 19)
    requires SameAt(a, b, 20) && SameAt(a, b, 21) && SameAt(a, b, 22) && SameAt(a, b, 23)
    ensures a & 0x00ff0000 == b & 0x00ff0000
  {
  }

  lemma Byte3Equal(a: bv32, b: bv32)
    requires SameAt(a, b, 24) && SameAt(a, b, 25) && SameAt(a, b, 26) && SameAt(a, b, 27)
    requires SameAt(a, b, 28) && SameAt(a, b, 29) && SameAt(a, b, 30) && SameAt(a, b, 31)
    ensures a & 0xff000000 == b & 0xff000000
  {
  }

  lemma BytesEqual(a: bv32, b: bv32)
    requires a & 0x000000ff == b & 0x000000ff && a & 0x0000ff00 == b & 0x0000ff00
    requires a & 0x00ff0000 == b & 0x00ff0000 && a & 0xff000000 == b & 0xff000000
    ensures a == b
  {
  }

  lemma WordsEqual(a: bv32, b: bv32)
    requires forall i: nat :: i < 32 ==> SameAt(a, b, i)
    ensures a == b
  {
    Byte0Equal(a, b);
    Byte1Equal(a, b);
    Byte2Equal(a, b);
    Byte3Equal(a, b);
    BytesEqual(a, b);
  }

  lemma RepresentsUnique(a: Bits, b: Bits, s: set<nat>)
    requires Represents(a, s) && Represents(b, s)
    ensures a == b
  {
    forall w | 0 <= w < 8
      ensures a[w] == b[w]
    {
      forall i: nat | i < 32
        ensures SameAt(a[w], b[w], i)
      {
        SameTest(a, b, s, w, i, 32 * w + i);
      }
      WordsEqual(a[w], b[w]);
    }
  }

  lemma SameTest(a: Bits, b: Bits, s: set<nat>, w: nat, i: nat, id: u8)
    requires Represents(a, s) && Represents(b, s)
    requires w < 8 && i < 32 && id == 32 * w + i
    ensures SameAt(a[w], b[w], i)
  {
    assert id / 32 == w && id % 32 == i;
    assert TestBit(a, id) == TestBit(b, id);
  }
}
