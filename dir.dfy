// dir.c: listing a directory. The first call (position 0) emits one entry per
// record slot in use and moves the position past them; any later call emits nothing.

module Dir {
  import opened Bytes
  import opened HelloFs
  import opened KHelloFs
  import opened DirBlock
  import opened Inodes
  import opened File

  /** The return value, the entries handed to filldir in order, and the new f_pos. */
  datatype ReaddirResult = ReaddirResult(ret: int, entries: seq<DirEntry>, pos: nat)

  /** What hellofs_readdir needs of a directory it lists: its block is readable and
      holds all of its records. */
  predicate Listable(fs: Fs, dir: Inode)
    requires WellFormed(fs)
  {
    IsDir(dir.mode) ==> Scannable(fs, dir)
  }

  /** hellofs_readdir. */
  function ReaddirStep(fs: Fs, dir: Inode, pos: nat): (r: ReaddirResult)
    requires WellFormed(fs) && (pos == 0 ==> Listable(fs, dir))
    ensures r.ret == 0 || r.ret == -ENOTDIR
    ensures r.ret == -ENOTDIR <==> pos == 0 && !IsDir(dir.mode)
    ensures r.entries != [] ==> pos == 0 && IsDir(dir.mode)
    ensures r.pos == pos + |r.entries| * DIR_RECORD_SIZE
    ensures pos == 0 && IsDir(dir.mode) ==>
              |r.entries| == dir.size
              && forall k :: 0 <= k < |r.entries| ==> r.entries[k] == Entry(fs.disk[dir.dataBlockNo], k)
  {
    if pos != 0 then ReaddirResult(0, [], pos)
    else if !IsDir(dir.mode) then ReaddirResult(-ENOTDIR, [], pos)
    else
      var es := Listing(fs.disk[dir.dataBlockNo], dir.size);
      ReaddirResult(0, es, pos + dir.size * DIR_RECORD_SIZE)
  }

  /** The position test comes first: a listing that already ran (position past the
      records) emits nothing, directory or not. */
  lemma ReaddirOnlyOnce(fs: Fs, dir: Inode)
    requires WellFormed(fs) && IsDir(dir.mode) && Scannable(fs, dir) && dir.size > 0
    ensures var first := ReaddirStep(fs, dir, 0);
            var again := ReaddirStep(fs, dir, first.pos);
            && first.ret == 0 && |first.entries| == dir.size
            && again == ReaddirResult(0, [], first.pos)
  {
  }

  /** Each entry carries the raw filename buffer of its slot, the slot's byte offset
      and its inode number; the offsets step by one record. */
  lemma ReaddirEntries(fs: Fs, dir: Inode, k: nat)
    requires WellFormed(fs) && IsDir(dir.mode) && Scannable(fs, dir) && k < dir.size
    ensures var block, e := fs.disk[dir.dataBlockNo], ReaddirStep(fs, dir, 0).entries[k];
            && e.offset == k * DIR_RECORD_SIZE
            && e.name == block[k * DIR_RECORD_SIZE..k * DIR_RECORD_SIZE + FILENAME_MAXLEN]
            && e.ino == RecordIno(block, k)
  {
  }

  /** After a record is added to a directory, its listing is the old listing followed
      by the new entry, whose name reads back as the added name. */
  lemma ReaddirAfterAdd(fs: Fs, parent: Inode, name: seq<byte>, ino: u64)
    requires WellFormed(fs) && ValidName(name) && Placed(fs, parent) && IsDir(parent.mode)
    requires parent.size < DirMaxRecord(fs.hsb)
    ensures var add := AddRecordStep(fs, parent, name, ino);
            && Scannable(add.fs, add.parent) && IsDir(add.parent.mode)
            && var after := ReaddirStep(add.fs, add.parent, 0).entries;
               && after[..parent.size] == Listing(fs.disk[parent.dataBlockNo], parent.size)
               && |after| == parent.size + 1
               && CStr(after[parent.size].name) == name && after[parent.size].ino == ino
  {
    var add := AddRecordStep(fs, parent, name, ino);
    AddRecordBlock(fs, parent, name, ino);
    ListingAfterAppend(fs.disk[parent.dataBlockNo], parent.size, name, ino);
    var after := ReaddirStep(add.fs, add.parent, 0).entries;
    assert after == Listing(add.fs.disk[parent.dataBlockNo], parent.size + 1);
  }

  /** A name lookup finds is listed by readdir at lookup's slot, with the inode
      number lookup follows. */
  lemma ReaddirListsLookup(fs: Fs, dir: Inode, name: seq<byte>)
    requires WellFormed(fs) && IsDir(dir.mode) && Scannable(fs, dir) && |name| < FILENAME_MAXLEN
    requires FindRecord(fs.disk[dir.dataBlockNo], dir.size, name).Some?
    ensures var k := FindRecord(fs.disk[dir.dataBlockNo], dir.size, name).value;
            var e := ReaddirStep(fs, dir, 0).entries[k];
            CStr(e.name) == name && e.ino == RecordIno(fs.disk[dir.dataBlockNo], k)
  {
    ListingAgreesWithFind(fs.disk[dir.dataBlockNo], dir.size, name);
  }

  /** hellofs_readdir on an open directory: a loop hands each slot to filldir and
      advances f_pos (and the local copy of it) by one record per entry. */
  method Readdir(sb: SuperBlock, dir: CachedInode, f: OpenFile) returns (ret: int, emitted: seq<DirEntry>)
    requires sb.Mounted() && (f.pos == 0 ==> Listable(sb.State(), dir.rec))
    modifies f
    ensures var r := ReaddirStep(sb.State(), dir.rec, old(f.pos));
            ret == r.ret && emitted == r.entries && f.pos == r.pos
  {
    var pos := f.pos;
    emitted := [];
    if pos != 0 {
      return 0, emitted;
    }
    if !IsDir(dir.rec.mode) {
      return -ENOTDIR, emitted;
    }
    var bh := sb.disk[dir.rec.dataBlockNo];
    var i := 0;
    while i < dir.rec.size
      invariant i <= dir.rec.size
      invariant emitted == Listing(bh, i)
      invariant pos == i * DIR_RECORD_SIZE && f.pos == pos
    {
      emitted := emitted + [DirEntry(RecordField(bh, i), pos, RecordIno(bh, i))];
      f.pos := f.pos + DIR_RECORD_SIZE;
      pos := pos + DIR_RECORD_SIZE;
      i := i + 1;
    }
    ret := 0;
  }
}
