// The free-space bitmaps (inode.c, both allocators): bit i of a bitmap block lives in
// byte i / 8 under the mask 1 << (i % 8), and 1 means "in use".

module Bitmap {
  import opened Wrappers
  import opened Bytes
  import opened HelloFs

  /** `needle` in the allocators: the mask of bit i inside its byte. */
  function Needle(i: nat): bv8
  {
    (1 as bv8) << (i % BITS_IN_BYTE)
  }

  /** Bitmap bit i is set. */
  predicate BitSet(bm: seq<byte>, i: nat)
    requires i / BITS_IN_BYTE < |bm|
  {
    (bm[i / BITS_IN_BYTE] as bv8) & Needle(i) != 0
  }

  lemma OrNeedle(b: bv8, i: nat, j: nat)
    ensures ((b | Needle(i)) & Needle(j) != 0) <==> (i % 8 == j % 8 || b & Needle(j) != 0)
  {
    var a, c := i % 8, j % 8;
    assert Needle(i) == (1 as bv8) << a;
    assert Needle(j) == (1 as bv8) << c;
  }

  lemma ByteRoundTrip(b: bv8)
    ensures ((b as int) as byte) as bv8 == b
  {
  }

  /** `byte |= mask` on one byte of the bitmap. */
  function OrByte(x: byte, mask: bv8): byte
  {
    ((x as bv8) | mask) as byte
  }

  lemma OrByteBits(x: byte, i: nat, j: nat)
    ensures (OrByte(x, Needle(i)) as bv8) & Needle(j) != 0 <==> (i % 8 == j % 8 || (x as bv8) & Needle(j) != 0)
  {
    ByteRoundTrip((x as bv8) | Needle(i));
    OrNeedle(x as bv8, i, j);
  }

  /** `*slot |= needle`: bit i becomes set and no other bit changes. */
  function SetBit(bm: seq<byte>, i: nat): (r: seq<byte>)
    requires i / BITS_IN_BYTE < |bm|
    ensures |r| == |bm|
    ensures forall j: nat :: j / BITS_IN_BYTE < |bm| ==> (BitSet(r, j) <==> j == i || BitSet(bm, j))
  {
    var r := bm[i / BITS_IN_BYTE := OrByte(bm[i / BITS_IN_BYTE], Needle(i))];
    forall j: nat | j / BITS_IN_BYTE < |bm|
      ensures BitSet(r, j) <==> j == i || BitSet(bm, j)
    {
      if j / 8 == i / 8 {
        OrByteBits(bm[i / 8], i, j);
        SameBit(i, j);
      }
    }
    r
  }

  /** Byte index and bit position together determine the bit number. */
  lemma SameBit(i: nat, j: nat)
    requires i / 8 == j / 8
    ensures i % 8 == j % 8 <==> i == j
  {
    assert i == 8 * (i / 8) + i % 8;
    assert j == 8 * (j / 8) + j % 8;
  }

  /** The first clear bit in [k, n), if any. */
  function FirstFreeFrom(bm: seq<byte>, k: nat, n: nat): (r: Option<nat>)
    requires n <= BITS_IN_BYTE * |bm|
    decreases n - k
    ensures r.Some? ==> k <= r.value < n && !BitSet(bm, r.value)
    ensures r.Some? ==> forall j :: k <= j < r.value ==> BitSet(bm, j)
    ensures r.None? ==> forall j :: k <= j < n ==> BitSet(bm, j)
  {
    if k >= n then None
    else if !BitSet(bm, k) then Some(k)
    else FirstFreeFrom(bm, k + 1, n)
  }

  /** First fit over the first n bits: the lowest clear bit, or None when all are set. */
  function FirstFree(bm: seq<byte>, n: nat): (r: Option<nat>)
    requires n <= BITS_IN_BYTE * |bm|
    ensures r.Some? ==> r.value < n && !BitSet(bm, r.value)
    ensures r.Some? ==> forall j :: 0 <= j < r.value ==> BitSet(bm, j)
    ensures r.None? ==> forall j :: 0 <= j < n ==> BitSet(bm, j)
  {
    FirstFreeFrom(bm, 0, n)
  }

  /** First fit is characterised by its answer: i is the first-fit slot exactly when
      it is clear and every slot below it is taken. */
  lemma FirstFreeIs(bm: seq<byte>, n: nat, i: nat)
    requires n <= BITS_IN_BYTE * |bm| && i < n
    requires !BitSet(bm, i)
    requires forall j :: 0 <= j < i ==> BitSet(bm, j)
    ensures FirstFree(bm, n) == Some(i)
  {
    var r := FirstFree(bm, n);
    assert r.Some? && !(r.value < i) && !(r.value > i);
  }

  /** The scan loop of both allocators: look for the first clear bit below n and set it. */
  method Scan(bm: seq<byte>, n: nat) returns (found: Option<nat>, bm': seq<byte>)
    requires n <= BITS_IN_BYTE * |bm|
    ensures found == FirstFree(bm, n)
    ensures found.Some? ==> bm' == SetBit(bm, found.value)
    ensures found.None? ==> bm' == bm
  {
    found, bm' := None, bm;
    var i: nat := 0;
    while i < n
      invariant i <= n
      invariant forall j :: 0 <= j < i ==> BitSet(bm, j)
    {
      var slot := i / BITS_IN_BYTE;
      var needle := Needle(i);
      if (bm[slot] as bv8) & needle == 0 {
        FirstFreeIs(bm, n, i);
        found := Some(i);
        bm' := bm[slot := OrByte(bm[slot], needle)];
        return;
      }
      i := i + 1;
    }
  }

  /** After a slot is handed out, the next first-fit answer is a strictly larger slot:
      two allocations in a row never return the same number. */
  lemma AllocationsAscend(bm: seq<byte>, n: nat)
    requires n <= BITS_IN_BYTE * |bm|
    requires FirstFree(bm, n).Some?
    ensures var i := FirstFree(bm, n).value;
            var next := FirstFree(SetBit(bm, i), n);
            next.None? || next.value > i
  {
    var i := FirstFree(bm, n).value;
    var bm' := SetBit(bm, i);
    assert forall j :: 0 <= j <= i ==> BitSet(bm', j);
  }

  /** A bitmap whose first k bits are set and the rest of [0, n) clear hands out k, and
      leaves the same shape with k + 1: from a clear bitmap, allocations come out as
      0, 1, 2, ... and fail only once all n slots are taken. */
  lemma PrefixAllocation(bm: seq<byte>, n: nat, k: nat)
    requires n <= BITS_IN_BYTE * |bm| && k <= n
    requires forall j :: 0 <= j < k ==> BitSet(bm, j)
    requires forall j :: k <= j < n ==> !BitSet(bm, j)
    ensures FirstFree(bm, n) == if k < n then Some(k) else None
    ensures k < n ==> (forall j :: 0 <= j < k + 1 ==> BitSet(SetBit(bm, k), j))
    ensures k < n ==> (forall j :: k + 1 <= j < n ==> !BitSet(SetBit(bm, k), j))
  {
    if k < n {
      FirstFreeIs(bm, n, k);
    }
  }
}
