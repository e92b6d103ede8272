// Fixed-width integers and byte buffers, as the on-disk structures of hellofs use them.

module Wrappers {
  datatype Option<+T> = None | Some(value: T)
}

module Bytes {

  type byte = b: int | 0 <= b < 256

  const U32_MOD: int := 0x1_0000_0000
  const U64_MOD: int := 0x1_0000_0000_0000_0000

  type u32 = x: int | 0 <= x < 0x1_0000_0000
  type u64 = x: int | 0 <= x < 0x1_0000_0000_0000_0000

  function Pow256(n: nat): (p: nat)
    ensures p >= 1
  {
    if n == 0 then 1 else 256 * Pow256(n - 1)
  }

  lemma Pow256Widths()
    ensures Pow256(4) == U32_MOD
    ensures Pow256(8) == U64_MOD
  {
    assert Pow256(1) == 256;
    assert Pow256(2) == 0x1_0000;
    assert Pow256(3) == 0x100_0000;
    assert Pow256(4) == 0x1_0000_0000;
    assert Pow256(5) == 0x100_0000_0000;
    assert Pow256(6) == 0x1_0000_0000_0000;
    assert Pow256(7) == 0x100_0000_0000_0000;
  }

  /** Unsigned 64-bit addition as C performs it on uint64_t. */
  function AddU64(a: u64, b: u64): (r: u64)
    ensures a + b < U64_MOD ==> r == a + b
    ensures a + b >= U64_MOD ==> r == a + b - U64_MOD
  {
    (a + b) % U64_MOD
  }

  /** The n little-endian bytes of x (the x86-64 byte order of the structures). */
  function LeBytes(x: nat, n: nat): (r: seq<byte>)
    requires x < Pow256(n)
    ensures |r| == n
  {
    if n == 0 then [] else [x % 256] + LeBytes(x / 256, n - 1)
  }

  /** The number whose little-endian bytes are s. */
  function LeValue(s: seq<byte>): (v: nat)
    ensures v < Pow256(|s|)
  {
    if s == [] then 0 else s[0] + 256 * LeValue(s[1..])
  }

  lemma {:induction false} LeValueOfBytes(x: nat, n: nat)
    requires x < Pow256(n)
    ensures LeValue(LeBytes(x, n)) == x
  {
    if n > 0 {
      LeValueOfBytes(x / 256, n - 1);
      assert LeBytes(x, n)[1..] == LeBytes(x / 256, n - 1);
    }
  }

  lemma {:induction false} LeBytesOfValue(s: seq<byte>)
    ensures LeBytes(LeValue(s), |s|) == s
  {
    if s != [] {
      LeBytesOfValue(s[1..]);
      var v := LeValue(s[1..]);
      assert (s[0] + 256 * v) % 256 == s[0];
      assert (s[0] + 256 * v) / 256 == v;
    }
  }

  function U32Bytes(x: u32): (r: seq<byte>)
    ensures |r| == 4
  {
    Pow256Widths();
    LeBytes(x, 4)
  }

  function U64Bytes(x: u64): (r: seq<byte>)
    ensures |r| == 8
  {
    Pow256Widths();
    LeBytes(x, 8)
  }

  /** Reads the 64-bit little-endian field at byte offset off. */
  function ReadU64(s: seq<byte>, off: nat): (v: u64)
    requires off + 8 <= |s|
  {
    Pow256Widths();
    LeValue(s[off..off + 8])
  }

  function ReadU32(s: seq<byte>, off: nat): (v: u32)
    requires off + 4 <= |s|
  {
    Pow256Widths();
    LeValue(s[off..off + 4])
  }

  lemma U64RoundTrip(x: u64)
    ensures ReadU64(U64Bytes(x), 0) == x
  {
    Pow256Widths();
    LeValueOfBytes(x, 8);
    assert U64Bytes(x)[0..8] == U64Bytes(x);
  }

  lemma U32RoundTrip(x: u32)
    ensures ReadU32(U32Bytes(x), 0) == x
  {
    Pow256Widths();
    LeValueOfBytes(x, 4);
    assert U32Bytes(x)[0..4] == U32Bytes(x);
  }

  lemma U64BytesOfField(s: seq<byte>, off: nat)
    requires off + 8 <= |s|
    ensures U64Bytes(ReadU64(s, off)) == s[off..off + 8]
  {
    Pow256Widths();
    LeBytesOfValue(s[off..off + 8]);
  }

  /** Consecutive 64-bit little-endian fields, as a struct of uint64_t members is laid out. */
  function U64s(fs: seq<u64>): (r: seq<byte>)
    ensures |r| == 8 * |fs|
  {
    if fs == [] then [] else U64Bytes(fs[0]) + U64s(fs[1..])
  }

  /** The 64-bit fields of a buffer made of them. */
  function ReadU64s(b: seq<byte>): (fs: seq<u64>)
    requires |b| % 8 == 0
    ensures 8 * |fs| == |b|
  {
    if b == [] then [] else [ReadU64(b, 0)] + ReadU64s(b[8..])
  }

  lemma {:induction false} ReadU64sOfU64s(fs: seq<u64>)
    ensures ReadU64s(U64s(fs)) == fs
  {
    if fs != [] {
      var b := U64s(fs);
      assert b[0..8] == U64Bytes(fs[0]) == U64Bytes(fs[0])[0..8];
      assert b[8..] == U64s(fs[1..]);
      U64RoundTrip(fs[0]);
      assert ReadU64(b, 0) == ReadU64(U64Bytes(fs[0]), 0);
      ReadU64sOfU64s(fs[1..]);
    }
  }

  lemma {:induction false} U64sOfReadU64s(b: seq<byte>)
    requires |b| % 8 == 0
    ensures U64s(ReadU64s(b)) == b
  {
    if b != [] {
      U64BytesOfField(b, 0);
      U64sOfReadU64s(b[8..]);
      assert ReadU64s(b)[1..] == ReadU64s(b[8..]);
      assert b == b[0..8] + b[8..];
    }
  }

  /** Two byte strings of one length with the same little-endian value are equal. */
  lemma LeValueInjective(s: seq<byte>, t: seq<byte>)
    requires |s| == |t| && LeValue(s) == LeValue(t)
    ensures s == t
  {
    LeBytesOfValue(s);
    LeBytesOfValue(t);
  }

  function Zeros(n: nat): (r: seq<byte>)
    ensures |r| == n
    ensures forall i :: 0 <= i < n ==> r[i] == 0
  {
    seq(n, _ => 0)
  }

  /** s with the bytes [off, off + |d|) replaced by d: a memcpy into a buffer. */
  function Splice(s: seq<byte>, off: nat, d: seq<byte>): (r: seq<byte>)
    requires off + |d| <= |s|
    ensures |r| == |s|
    ensures r[off..off + |d|] == d
  {
    s[..off] + d + s[off + |d|..]
  }

  /** memcpy leaves every byte outside the copied range as it was. */
  lemma SpliceOutside(s: seq<byte>, off: nat, d: seq<byte>)
    requires off + |d| <= |s|
    ensures forall i :: 0 <= i < |s| && !(off <= i < off + |d|) ==> Splice(s, off, d)[i] == s[i]
  {
  }

  /** A range of the buffer that a splice does not touch reads back unchanged. */
  lemma SpliceElsewhere(s: seq<byte>, off: nat, d: seq<byte>, a: nat, n: nat)
    requires off + |d| <= |s| && a + n <= |s|
    requires a + n <= off || off + |d| <= a
    ensures Splice(s, off, d)[a..a + n] == s[a..a + n]
  {
    var r := Splice(s, off, d);
    SpliceOutside(s, off, d);
    forall i | a <= i < a + n
      ensures r[i] == s[i]
    {
    }
    assert r[a..a + n] == s[a..a + n];
  }

  /** A range lying inside the spliced data reads back the corresponding part of d. */
  lemma SpliceInside(s: seq<byte>, off: nat, d: seq<byte>, a: nat, n: nat)
    requires off + |d| <= |s| && off <= a && a + n <= off + |d|
    ensures Splice(s, off, d)[a..a + n] == d[a - off..a - off + n]
  {
    var r := Splice(s, off, d);
    forall i | a <= i < a + n
      ensures r[i] == d[i - off]
    {
      assert r[off..off + |d|][i - off] == d[i - off];
    }
    assert r[a..a + n] == d[a - off..a - off + n];
  }

  predicate NoNul(s: seq<byte>)
  {
    forall i :: 0 <= i < |s| ==> s[i] != 0
  }

  /** The C string held in a fixed buffer: the bytes before its first NUL
      (all of them when the buffer holds no NUL). */
  function CStr(s: seq<byte>): (r: seq<byte>)
    ensures |r| <= |s| && r == s[..|r|]
    ensures NoNul(r)
    ensures |r| < |s| ==> s[|r|] == 0
  {
    if s == [] || s[0] == 0 then [] else [s[0]] + CStr(s[1..])
  }

  /** A buffer without a NUL is read whole. */
  lemma {:induction false} CStrOfNoNul(s: seq<byte>)
    requires NoNul(s)
    ensures CStr(s) == s
  {
    if s != [] {
      CStrOfNoNul(s[1..]);
    }
  }

  /** What strcpy leaves in a buffer is read back by strcmp as the copied string. */
  lemma {:induction false} CStrOfTerminated(name: seq<byte>, rest: seq<byte>)
    requires NoNul(name)
    ensures CStr(name + [0] + rest) == name
  {
    var s := name + [0] + rest;
    if name != [] {
      assert s[1..] == name[1..] + [0] + rest;
      CStrOfTerminated(name[1..], rest);
    }
  }
}
