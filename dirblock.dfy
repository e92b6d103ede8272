// A directory's data block: an array of hellofs_dir_record slots, slot k at byte
// k * DIR_RECORD_SIZE. These are the record reads and writes that add_dir_record,
// lookup (inode.c) and readdir (dir.c) perform on the block buffer.

module DirBlock {
  import opened Wrappers
  import opened Bytes
  import opened HelloFs

  function RecordStart(k: nat): nat
  {
    k * DIR_RECORD_SIZE
  }

  /** Slots [0, count) lie inside the block. */
  predicate SlotsFit(block: seq<byte>, count: nat)
  {
    count * DIR_RECORD_SIZE <= |block|
  }

  /** A name strcpy can store in a record: at most NAME_MAX (255) bytes, no NUL.
      A 255-byte name gets its terminator in the padding byte after the buffer. */
  predicate ValidName(name: seq<byte>)
  {
    |name| <= FILENAME_MAXLEN && NoNul(name)
  }

  /** The name strcmp sees in slot k: the C string starting at the name buffer,
      read within the buffer and its padding byte. */
  function RecordName(block: seq<byte>, k: nat): seq<byte>
    requires SlotsFit(block, k + 1)
  {
    CStr(block[RecordStart(k)..RecordStart(k) + DIR_RECORD_INO_OFFSET])
  }

  /** The raw 255-byte name buffer of slot k, which readdir hands to filldir whole. */
  function RecordField(block: seq<byte>, k: nat): (f: seq<byte>)
    requires SlotsFit(block, k + 1)
    ensures |f| == FILENAME_MAXLEN
  {
    block[RecordStart(k)..RecordStart(k) + FILENAME_MAXLEN]
  }

  function RecordIno(block: seq<byte>, k: nat): u64
    requires SlotsFit(block, k + 1)
  {
    ReadU64(block, RecordStart(k) + DIR_RECORD_INO_OFFSET)
  }

  /** add_dir_record's two stores into slot k: inode_no, then strcpy of the name. */
  function WriteRecord(block: seq<byte>, k: nat, name: seq<byte>, ino: u64): (r: seq<byte>)
    requires SlotsFit(block, k + 1) && ValidName(name)
    ensures |r| == |block|
    ensures RecordName(r, k) == name
    ensures RecordIno(r, k) == ino
  {
    var a := RecordStart(k);
    var withIno := Splice(block, a + DIR_RECORD_INO_OFFSET, U64Bytes(ino));
    var r := Splice(withIno, a, name + [0]);
    assert r[a..a + 256] == r[a..a + |name| + 1] + r[a + |name| + 1..a + 256];
    CStrOfTerminated(name, r[a + |name| + 1..a + 256]);
    SpliceElsewhere(withIno, a, name + [0], a + 256, 8);
    assert r[a + 256..a + 264] == U64Bytes(ino);
    U64RoundTrip(ino);
    assert U64Bytes(ino)[0..8] == U64Bytes(ino);
    r
  }

  /** Writing slot k changes no byte outside the slot. */
  lemma WriteRecordOutside(block: seq<byte>, k: nat, name: seq<byte>, ino: u64)
    requires SlotsFit(block, k + 1) && ValidName(name)
    ensures var r := WriteRecord(block, k, name, ino);
            forall i :: 0 <= i < |block| && !(RecordStart(k) <= i < RecordStart(k + 1)) ==> r[i] == block[i]
  {
    var a := RecordStart(k);
    var withIno := Splice(block, a + DIR_RECORD_INO_OFFSET, U64Bytes(ino));
    SpliceOutside(block, a + DIR_RECORD_INO_OFFSET, U64Bytes(ino));
    SpliceOutside(withIno, a, name + [0]);
  }

  /** Two blocks whose bytes agree on slot j hold the same record there. */
  lemma SameSlot(r: seq<byte>, block: seq<byte>, j: nat)
    requires SlotsFit(r, j + 1) && SlotsFit(block, j + 1)
    requires r[RecordStart(j)..RecordStart(j + 1)] == block[RecordStart(j)..RecordStart(j + 1)]
    ensures RecordName(r, j) == RecordName(block, j) && RecordIno(r, j) == RecordIno(block, j)
            && RecordField(r, j) == RecordField(block, j)
  {
    var b := RecordStart(j);
    assert RecordStart(j + 1) == b + DIR_RECORD_SIZE;
    SubSlice(r, b, DIR_RECORD_SIZE, 0, 256);
    SubSlice(block, b, DIR_RECORD_SIZE, 0, 256);
    SubSlice(r, b, DIR_RECORD_SIZE, 0, 255);
    SubSlice(block, b, DIR_RECORD_SIZE, 0, 255);
    SubSlice(r, b, DIR_RECORD_SIZE, 256, 8);
    SubSlice(block, b, DIR_RECORD_SIZE, 256, 8);
  }

  /** A piece of a slice is the corresponding slice of the whole. */
  lemma SubSlice(s: seq<byte>, a: nat, n: nat, i: nat, m: nat)
    requires a + n <= |s| && i + m <= n
    ensures s[a..a + n][i..i + m] == s[a + i..a + i + m]
  {
    var piece, whole := s[a..a + n][i..i + m], s[a + i..a + i + m];
    assert forall k :: 0 <= k < m ==> piece[k] == s[a + i + k] == whole[k];
  }

  /** Writing slot k leaves every other slot as it was. */
  lemma WriteRecordOthers(block: seq<byte>, k: nat, name: seq<byte>, ino: u64, j: nat)
    requires SlotsFit(block, k + 1) && SlotsFit(block, j + 1) && ValidName(name) && j != k
    ensures var r := WriteRecord(block, k, name, ino);
            RecordName(r, j) == RecordName(block, j) && RecordIno(r, j) == RecordIno(block, j)
            && RecordField(r, j) == RecordField(block, j)
  {
    var r := WriteRecord(block, k, name, ino);
    WriteRecordOutside(block, k, name, ino);
    var b := RecordStart(j);
    assert r[b..b + DIR_RECORD_SIZE] == block[b..b + DIR_RECORD_SIZE] by {
      forall i | b <= i < b + DIR_RECORD_SIZE
        ensures r[i] == block[i]
      {
      }
    }
    SameSlot(r, block, j);
  }

  /** The first slot in [k, count) whose name is name (strcmp == 0). */
  function FindFrom(block: seq<byte>, count: nat, name: seq<byte>, k: nat): (r: Option<nat>)
    requires SlotsFit(block, count)
    decreases count - k
    ensures r.Some? ==> k <= r.value < count && RecordName(block, r.value) == name
    ensures r.Some? ==> forall j :: k <= j < r.value ==> RecordName(block, j) != name
    ensures r.None? ==> forall j :: k <= j < count ==> RecordName(block, j) != name
  {
    if k >= count then None
    else if RecordName(block, k) == name then Some(k)
    else FindFrom(block, count, name, k + 1)
  }

  /** lookup's scan: the first of the directory's count slots that holds name. */
  function FindRecord(block: seq<byte>, count: nat, name: seq<byte>): (r: Option<nat>)
    requires SlotsFit(block, count)
    ensures r.Some? ==> r.value < count && RecordName(block, r.value) == name
    ensures r.Some? ==> forall j :: 0 <= j < r.value ==> RecordName(block, j) != name
    ensures r.None? ==> forall j :: 0 <= j < count ==> RecordName(block, j) != name
  {
    FindFrom(block, count, name, 0)
  }

  /** The first match is determined by its two defining facts. */
  lemma FindRecordIs(block: seq<byte>, count: nat, name: seq<byte>, k: nat)
    requires SlotsFit(block, count) && k < count
    requires RecordName(block, k) == name
    requires forall j :: 0 <= j < k ==> RecordName(block, j) != name
    ensures FindRecord(block, count, name) == Some(k)
  {
    var r := FindRecord(block, count, name);
    assert r.Some? && !(r.value < k) && !(r.value > k);
  }

  /** One entry readdir emits: the name buffer, the directory position, the inode. */
  datatype DirEntry = DirEntry(name: seq<byte>, offset: nat, ino: u64)

  function Entry(block: seq<byte>, k: nat): DirEntry
    requires SlotsFit(block, k + 1)
  {
    DirEntry(RecordField(block, k), RecordStart(k), RecordIno(block, k))
  }

  /** The entries of slots [0, count), in slot order. */
  function Listing(block: seq<byte>, count: nat): (es: seq<DirEntry>)
    requires SlotsFit(block, count)
    ensures |es| == count
    ensures forall k :: 0 <= k < count ==> es[k] == Entry(block, k)
  {
    if count == 0 then [] else Listing(block, count - 1) + [Entry(block, count - 1)]
  }

  /** A name no slot holds is not found. */
  lemma FindRecordNone(block: seq<byte>, count: nat, name: seq<byte>)
    requires SlotsFit(block, count)
    requires forall j :: 0 <= j < count ==> RecordName(block, j) != name
    ensures FindRecord(block, count, name) == None
  {
  }

  lemma NamesBelowKept(block: seq<byte>, count: nat, name: seq<byte>, ino: u64)
    requires SlotsFit(block, count + 1) && ValidName(name)
    ensures forall j :: 0 <= j < count ==>
              RecordName(WriteRecord(block, count, name, ino), j) == RecordName(block, j)
  {
    forall j | 0 <= j < count
      ensures RecordName(WriteRecord(block, count, name, ino), j) == RecordName(block, j)
    {
      WriteRecordOthers(block, count, name, ino, j);
    }
  }

  /** lookup on a block that keeps the first count names of another and holds name
      in slot count: an earlier match is kept, otherwise only name is found, at count. */
  lemma FindAfterExtend(block: seq<byte>, r: seq<byte>, count: nat, name: seq<byte>, x: seq<byte>)
    requires SlotsFit(block, count) && SlotsFit(r, count + 1)
    requires forall j :: 0 <= j < count ==> RecordName(r, j) == RecordName(block, j)
    requires RecordName(r, count) == name
    ensures FindRecord(block, count, x).Some? ==> FindRecord(r, count + 1, x) == FindRecord(block, count, x)
    ensures FindRecord(block, count, x).None? && x == name ==> FindRecord(r, count + 1, x) == Some(count)
    ensures FindRecord(block, count, x).None? && x != name ==> FindRecord(r, count + 1, x) == None
  {
    var before := FindRecord(block, count, x);
    if before.Some? {
      FindRecordIs(r, count + 1, x, before.value);
    } else if x == name {
      FindRecordIs(r, count + 1, x, count);
    } else {
      FindRecordNone(r, count + 1, x);
    }
  }

  /** Appending at slot count: a name already present still resolves to its earlier
      slot, a new name resolves to the new slot, and every other name resolves as before. */
  lemma AppendThenFind(block: seq<byte>, count: nat, name: seq<byte>, ino: u64, x: seq<byte>)
    requires SlotsFit(block, count + 1) && ValidName(name)
    ensures FindRecord(block, count, x).Some? ==>
              FindRecord(WriteRecord(block, count, name, ino), count + 1, x) == FindRecord(block, count, x)
    ensures FindRecord(block, count, x).None? && x == name ==>
              FindRecord(WriteRecord(block, count, name, ino), count + 1, x) == Some(count)
    ensures FindRecord(block, count, x).None? && x != name ==>
              FindRecord(WriteRecord(block, count, name, ino), count + 1, x) == None
  {
    NamesBelowKept(block, count, name, ino);
    FindAfterExtend(block, WriteRecord(block, count, name, ino), count, name, x);
  }

  /** A block that keeps the first count entries of another lists them, then its own slot count. */
  lemma ListingExtends(block: seq<byte>, r: seq<byte>, count: nat)
    requires SlotsFit(block, count) && SlotsFit(r, count + 1)
    requires forall j :: 0 <= j < count ==> Entry(r, j) == Entry(block, j)
    ensures Listing(r, count + 1) == Listing(block, count) + [Entry(r, count)]
  {
    assert Listing(r, count) == Listing(block, count);
  }

  /** The name buffer readdir hands out reads, up to its NUL, as the name strcmp sees,
      whenever that name fits in the buffer. */
  lemma FieldHoldsName(block: seq<byte>, k: nat)
    requires SlotsFit(block, k + 1) && |RecordName(block, k)| <= FILENAME_MAXLEN
    ensures CStr(RecordField(block, k)) == RecordName(block, k)
  {
    var a := RecordStart(k);
    var s := block[a..a + 256];
    var n := CStr(s);
    var f := RecordField(block, k);
    assert f == s[..255];
    if |n| < FILENAME_MAXLEN {
      assert s[..|n| + 1] == n + [0];
      assert f == n + [0] + f[|n| + 1..];
      CStrOfTerminated(n, f[|n| + 1..]);
    } else {
      assert f == n;
      CStrOfNoNul(n);
    }
  }

  /** Appending at slot count extends the listing by exactly the new entry, whose
      name buffer reads back as the stored name. */
  lemma ListingAfterAppend(block: seq<byte>, count: nat, name: seq<byte>, ino: u64)
    requires SlotsFit(block, count + 1) && ValidName(name)
    ensures var r := WriteRecord(block, count, name, ino);
            Listing(r, count + 1) == Listing(block, count) + [Entry(r, count)]
    ensures var e := Entry(WriteRecord(block, count, name, ino), count);
            CStr(e.name) == name && e.ino == ino && e.offset == count * DIR_RECORD_SIZE
  {
    var r := WriteRecord(block, count, name, ino);
    forall j | 0 <= j < count
      ensures Entry(r, j) == Entry(block, j)
    {
      WriteRecordOthers(block, count, name, ino, j);
    }
    ListingExtends(block, r, count);
    FieldHoldsName(r, count);
  }

  /** readdir and lookup read the same slot: the entry at lookup's answer carries
      the looked-up name (up to NUL) and the inode lookup loads. */
  lemma ListingAgreesWithFind(block: seq<byte>, count: nat, name: seq<byte>)
    requires SlotsFit(block, count) && |name| < FILENAME_MAXLEN
    requires FindRecord(block, count, name).Some?
    ensures var k := FindRecord(block, count, name).value;
            CStr(Listing(block, count)[k].name) == name
            && Listing(block, count)[k].ino == RecordIno(block, k)
  {
    FieldHoldsName(block, FindRecord(block, count, name).value);
  }
}
