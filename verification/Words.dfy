/** The machine integers of the C core, as subset types with an explicit function for each C cast,
    and the few facts about multiplication and division that the rest of the model needs. */
module Words {

  type byte = bv8

  type u8 = x: int | 0 <= x < 0x100
  type u16 = x: int | 0 <= x < 0x1_0000
  type u32 = x: int | 0 <= x < 0x1_0000_0000

  /** The cast `(uint8_t)x`. */
  function U8(x: int): u8 {
    x % 0x100
  }

  /** The cast `(uint16_t)x`. */
  function U16(x: int): u16 {
    x % 0x1_0000
  }

  /** The cast `(uint32_t)x`. */
  function U32(x: int): u32 {
    x % 0x1_0000_0000
  }

  function Min(a: int, b: int): int {
    if a <= b then a else b
  }

  function Max(a: int, b: int): int {
    if a <= b then b else a
  }

  lemma DivModUnique(n: int, m: nat, r: nat)
    requires r < m
    ensures (n * m + r) / m == n
    ensures (n * m + r) % m == r
  {
    var q := (n * m + r) / m;
    assert n * m + r == q * m + (n * m + r) % m;
    if q < n {
      MulMono(q + 1, n, m);
    } else if q > n {
      MulMono(n + 1, q, m);
    }
  }

  lemma MulMono(a: int, b: int, m: nat)
    requires a <= b
    ensures a * m <= b * m
  {
  }

  lemma MulSucc(a: int, m: int)
    ensures (a + 1) * m == a * m + m
  {
  }

  /** Position `i` lies in slice `k` exactly when `i / m == k`. */
  lemma InSlice(i: nat, k: nat, m: nat)
    requires m > 0
    ensures i / m == k <==> k * m <= i < (k + 1) * m
  {
    MulSucc(k, m);
    if k * m <= i < (k + 1) * m {
      DivModUnique(k, m, i - k * m);
    }
    if i / m == k {
      assert i == (i / m) * m + i % m;
    }
  }

  /** Removing a subset removes its cardinality. */
  lemma SubsetCard<T>(a: set<T>, b: set<T>)
    requires a <= b
    ensures |a| <= |b|
    ensures |a| == |b| ==> a == b
  {
    assert b == a + (b - a);
    assert |b| == |a| + |b - a|;
  }

  /** The set {0, ..., n-1}. */
  function Below(n: nat): set<nat> {
    if n == 0 then {} else Below(n - 1) + {n - 1}
  }

  lemma {:induction false} BelowFacts(n: nat)
    ensures |Below(n)| == n
    ensures forall k: nat :: k in Below(n) <==> k < n
  {
    if n > 0 {
      BelowFacts(n - 1);
    }
  }

  lemma SliceSplit(s: seq<byte>, i: nat, j: nat, k: nat)
    requires i <= j <= k <= |s|
    ensures s[i..k] == s[i..j] + s[j..k]
  {
  }

  lemma JoinAssoc(a: seq<byte>, b: seq<byte>, c: seq<byte>)
    ensures (a + b) + c == a + (b + c)
  {
  }

  lemma ArraySplit(a: array<byte>, i: nat, j: nat, k: nat)
    requires i <= j <= k <= a.Length
    ensures a[i..k] == a[i..j] + a[j..k]
  {
  }

  function Overwrite(buf: seq<byte>, off: nat, data: seq<byte>): (r: seq<byte>)
    requires off + |data| <= |buf|
    ensures |r| == |buf|
  {
    buf[..off] + data + buf[off + |data|..]
  }

  lemma OverwriteBehind(buf: seq<byte>, off: nat, data: seq<byte>, from: nat)
    requires from <= off && off + |data| <= |buf|
    ensures Overwrite(buf, off, data)[from..off + |data|] == buf[from..off] + data
  {
  }

  lemma OverwriteFront(buf: seq<byte>, data: seq<byte>, from: nat, to: nat)
    requires |data| <= from <= to <= |buf|
    ensures Overwrite(buf, 0, data)[..|data|] == data
    ensures Overwrite(buf, 0, data)[from..to] == buf[from..to]
  {
  }

  lemma OverwriteHead(buf: seq<byte>, off: nat, data: seq<byte>, to: nat)
    requires to <= off && off + |data| <= |buf|
    ensures Overwrite(buf, off, data)[..to] == buf[..to]
  {
  }

  lemma OverwriteTail(buf: seq<byte>, off: nat, data: seq<byte>, from: nat)
    requires off + |data| <= from <= |buf|
    ensures Overwrite(buf, off, data)[from..|buf|] == buf[from..|buf|]
  {
  }

  lemma OverwriteAtFront(buf: seq<byte>, data: seq<byte>)
    requires |data| <= |buf|
    ensures Overwrite(buf, 0, data) == data + buf[|data|..]
  {
  }

  lemma ArraySlice(a: array<byte>, i: nat, j: nat)
    requires i <= j <= a.Length
    ensures a[..][i..j] == a[i..j]
    ensures a[i..][..j - i] == a[i..j]
  {
  }

  function Concat(parts: seq<seq<byte>>): seq<byte> {
    if parts == [] then [] else Concat(parts[..|parts| - 1]) + parts[|parts| - 1]
  }

  lemma ConcatSnoc(parts: seq<seq<byte>>, part: seq<byte>)
    ensures Concat(parts + [part]) == Concat(parts) + part
  {
    assert (parts + [part])[..|parts|] == parts;
  }

  lemma {:induction false} ConcatCons(part: seq<byte>, parts: seq<seq<byte>>)
    ensures Concat([part] + parts) == part + Concat(parts)
  {
    if parts == [] {
      assert [part] + parts == [part];
      assert Concat([part]) == Concat([]) + part;
    } else {
      var n := |parts| - 1;
      ConcatCons(part, parts[..n]);
      assert ([part] + parts)[..n + 1] == [part] + parts[..n];
    }
  }
}
