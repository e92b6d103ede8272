// file.c: reading and writing a regular file, whose contents live in the one data
// block its inode names. The byte offset of the open file (*ppos) is an OpenFile.

module File {
  import opened Bytes
  import opened HelloFs
  import opened KHelloFs
  import opened Inodes

  /** The part of a `struct file` these operations use: its position. */
  class OpenFile {
    var pos: nat

    constructor (pos: nat)
      ensures this.pos == pos
    {
      this.pos := pos;
    }
  }

  /** A file whose record lies in the inode table and whose block lies in the data
      region, both present on the device. */
  predicate FilePlaced(fs: Fs, file: Inode)
    requires WellFormed(fs)
  {
    && file.inodeNo < fs.hsb.inodeTableSize
    && DataStart(fs.hsb) <= file.dataBlockNo
    && file.dataBlockNo in fs.disk
    && InodeBlockNo(fs.hsb, file.inodeNo) in fs.disk
  }

  /** The return value of a read, the bytes handed to the caller and the new position. */
  datatype ReadResult = ReadResult(ret: int, data: seq<byte>, pos: nat)

  /** hellofs_read. A block that cannot be read is reported as 0 bytes read;
      copyOk says whether copy_to_user succeeded. */
  function ReadStep(fs: Fs, file: Inode, pos: nat, len: nat, copyOk: bool): (r: ReadResult)
    requires WellFormed(fs) && file.size <= fs.hsb.blocksize
    ensures r.ret >= 0 ==> r.ret == |r.data| <= len && r.pos == pos + r.ret
    ensures r.ret < 0 ==> r.ret == -EFAULT && r.data == [] && r.pos == pos
    ensures file.dataBlockNo !in fs.disk ==> r == ReadResult(0, [], pos)
    ensures r.data != [] ==> pos + |r.data| <= file.size
    ensures r.data != [] ==> file.dataBlockNo in fs.disk
                             && r.data == fs.disk[file.dataBlockNo][pos..pos + |r.data|]
  {
    if pos >= file.size then ReadResult(0, [], pos)
    else if file.dataBlockNo !in fs.disk then ReadResult(0, [], pos)
    else
      var n := if file.size - pos <= len then file.size - pos else len;
      if !copyOk then ReadResult(-EFAULT, [], pos)
      else ReadResult(n, fs.disk[file.dataBlockNo][pos..pos + n], pos + n)
  }

  /** A read at or past the end of the file returns 0 and leaves the position alone. */
  lemma ReadAtEnd(fs: Fs, file: Inode, pos: nat, len: nat, copyOk: bool)
    requires WellFormed(fs) && file.size <= fs.hsb.blocksize
    requires pos >= file.size
    ensures ReadStep(fs, file, pos, len, copyOk) == ReadResult(0, [], pos)
  {
  }

  /** A read inside the file returns min(file_size - pos, len) bytes, the block's
      bytes from pos on, and advances the position by as many. */
  lemma ReadInside(fs: Fs, file: Inode, pos: nat, len: nat)
    requires WellFormed(fs) && file.size <= fs.hsb.blocksize
    requires pos < file.size && file.dataBlockNo in fs.disk
    ensures var r := ReadStep(fs, file, pos, len, true);
            var n := if file.size - pos <= len then file.size - pos else len;
            && r.ret == n && r.pos == pos + n
            && r.data == fs.disk[file.dataBlockNo][pos..pos + n]
  {
  }

  /** Nothing past file_size is ever returned: a read never moves the position
      beyond the end of the file, unless it already was. */
  lemma ReadStaysInFile(fs: Fs, file: Inode, pos: nat, len: nat, copyOk: bool)
    requires WellFormed(fs) && file.size <= fs.hsb.blocksize
    ensures var r := ReadStep(fs, file, pos, len, copyOk);
            r.pos <= if pos <= file.size then file.size else pos
  {
  }

  /** hellofs_read on an open file: *ppos is advanced by what was read. */
  method Read(sb: SuperBlock, file: CachedInode, f: OpenFile, len: nat, copyOk: bool)
    returns (ret: int, data: seq<byte>)
    requires sb.Mounted() && file.rec.size <= sb.blocksize
    modifies f
    ensures var r := ReadStep(sb.State(), file.rec, old(f.pos), len, copyOk);
            ret == r.ret && data == r.data && f.pos == r.pos
  {
    data := [];
    if f.pos >= file.rec.size {
      return 0, data;
    }
    if file.rec.dataBlockNo !in sb.disk {
      return 0, data;
    }
    var bh := sb.disk[file.rec.dataBlockNo];
    var nbytes := if file.rec.size - f.pos <= len then file.rec.size - f.pos else len;
    if !copyOk {
      return -EFAULT, data;
    }
    data := bh[f.pos..f.pos + nbytes];
    f.pos := f.pos + nbytes;
    ret := nbytes;
  }

  /** The return value of a write, the file's cached record, the new position and
      the device. */
  datatype WriteResult = WriteResult(ret: int, file: Inode, pos: nat, fs: Fs)

  /** hellofs_write of the bytes `data` at pos. The write checks of the VFS are the
      precondition pos + |data| <= blocksize; a block that cannot be read is reported
      as 0 bytes written; copyOk says whether copy_from_user succeeded. On success the
      block is written, file_size becomes the larger of itself and the new position,
      and the record is saved. */
  function WriteStep(fs: Fs, file: Inode, pos: nat, data: seq<byte>, copyOk: bool): (r: WriteResult)
    requires WellFormed(fs) && pos + |data| <= fs.hsb.blocksize
    requires InodeBlockNo(fs.hsb, file.inodeNo) in fs.disk
    ensures WellFormed(r.fs) && r.fs.hsb == fs.hsb && r.fs.disk.Keys == fs.disk.Keys
    ensures r.ret == 0 || r.ret == |data| || r.ret == -EFAULT
    ensures r.ret != |data| ==> r.file == file && r.pos == pos && r.fs == fs
    ensures r.file.size >= file.size
    ensures r.file.size <= if file.size <= fs.hsb.blocksize then fs.hsb.blocksize else file.size
  {
    if file.dataBlockNo !in fs.disk then WriteResult(0, file, pos, fs)
    else if !copyOk then WriteResult(-EFAULT, file, pos, fs)
    else
      var block' := Splice(fs.disk[file.dataBlockNo], pos, data);
      var pos' := pos + |data|;
      var file' := file.(size := if file.size >= pos' then file.size else pos');
      WriteResult(|data|, file', pos', StoreInode(Fs(fs.disk[file.dataBlockNo := block'], fs.hsb), file'))
  }

  /** A write that cannot read the block or fault on the user buffer changes nothing;
      the first reports 0 bytes, the second -EFAULT. */
  lemma WriteFailsCleanly(fs: Fs, file: Inode, pos: nat, data: seq<byte>, copyOk: bool)
    requires WellFormed(fs) && pos + |data| <= fs.hsb.blocksize
    requires InodeBlockNo(fs.hsb, file.inodeNo) in fs.disk
    requires file.dataBlockNo !in fs.disk || !copyOk
    ensures var r := WriteStep(fs, file, pos, data, copyOk);
            && r.file == file && r.pos == pos && r.fs == fs
            && r.ret == if file.dataBlockNo !in fs.disk then 0 else -EFAULT
  {
  }

  /** A successful write: all of the bytes are taken, the position moves past them,
      file_size is the running maximum of the end positions, and the record in the
      table is the updated one. */
  lemma WriteSucceeds(fs: Fs, file: Inode, pos: nat, data: seq<byte>)
    requires WellFormed(fs) && pos + |data| <= fs.hsb.blocksize
    requires InodeBlockNo(fs.hsb, file.inodeNo) in fs.disk && file.dataBlockNo in fs.disk
    ensures var r := WriteStep(fs, file, pos, data, true);
            && r.ret == |data| && r.pos == pos + |data|
            && r.file == file.(size := if file.size >= pos + |data| then file.size else pos + |data|)
            && LoadInode(r.fs, file.inodeNo) == r.file
  {
    var r := WriteStep(fs, file, pos, data, true);
    var block' := Splice(fs.disk[file.dataBlockNo], pos, data);
    LoadAfterStore(Fs(fs.disk[file.dataBlockNo := block'], fs.hsb), r.file);
  }

  /** For a placed file the data block after a successful write is the old block with
      [pos, pos + |data|) replaced: saving the record does not land in it. */
  lemma WriteBlock(fs: Fs, file: Inode, pos: nat, data: seq<byte>)
    requires WellFormed(fs) && pos + |data| <= fs.hsb.blocksize && FilePlaced(fs, file)
    ensures WriteStep(fs, file, pos, data, true).fs.disk[file.dataBlockNo]
              == Splice(fs.disk[file.dataBlockNo], pos, data)
  {
    RegionsOrdered(fs.hsb, file.inodeNo);
  }

  /** A write changes no byte of the file's block outside [pos, pos + |data|). */
  lemma WriteKeepsOtherBytes(fs: Fs, file: Inode, pos: nat, data: seq<byte>, copyOk: bool, i: nat)
    requires WellFormed(fs) && pos + |data| <= fs.hsb.blocksize && FilePlaced(fs, file)
    requires i < fs.hsb.blocksize && !(pos <= i < pos + |data|)
    ensures WriteStep(fs, file, pos, data, copyOk).fs.disk[file.dataBlockNo][i] == fs.disk[file.dataBlockNo][i]
  {
    if copyOk {
      WriteBlock(fs, file, pos, data);
      SpliceOutside(fs.disk[file.dataBlockNo], pos, data);
    }
  }

  /** A write leaves every other block of the device and every other inode as it was. */
  lemma WriteKeepsOthers(fs: Fs, file: Inode, pos: nat, data: seq<byte>, copyOk: bool, m: nat)
    requires WellFormed(fs) && pos + |data| <= fs.hsb.blocksize && FilePlaced(fs, file)
    requires m != file.inodeNo && m < fs.hsb.inodeTableSize && InodeBlockNo(fs.hsb, m) in fs.disk
    ensures var r := WriteStep(fs, file, pos, data, copyOk);
            && LoadInode(r.fs, m) == LoadInode(fs, m)
            && forall b :: b in fs.disk && b != file.dataBlockNo && b != InodeBlockNo(fs.hsb, file.inodeNo) ==>
                 r.fs.disk[b] == fs.disk[b]
  {
    var r := WriteStep(fs, file, pos, data, copyOk);
    if copyOk {
      var block' := Splice(fs.disk[file.dataBlockNo], pos, data);
      var fs1 := Fs(fs.disk[file.dataBlockNo := block'], fs.hsb);
      assert r.fs == StoreInode(fs1, r.file);
      RegionsOrdered(fs.hsb, m);
      assert InodeSlot(fs1, m) == InodeSlot(fs, m);
      LoadAfterStoreOther(fs1, r.file, m);
    }
  }

  /** Reading back what a successful write stored, from where it was written, gives
      the written bytes. */
  lemma ReadAfterWrite(fs: Fs, file: Inode, pos: nat, data: seq<byte>)
    requires WellFormed(fs) && pos + |data| <= fs.hsb.blocksize && FilePlaced(fs, file)
    requires file.size <= fs.hsb.blocksize
    ensures var w := WriteStep(fs, file, pos, data, true);
            w.file.size <= w.fs.hsb.blocksize
            && ReadStep(w.fs, w.file, pos, |data|, true).data == data
  {
    var w := WriteStep(fs, file, pos, data, true);
    WriteBlock(fs, file, pos, data);
    if data != [] {
      ReadInside(w.fs, w.file, pos, |data|);
    }
  }

  /** hellofs_write on an open file: the block, *ppos and the cached record are
      updated in place and the record is saved. */
  method Write(sb: SuperBlock, file: CachedInode, f: OpenFile, data: seq<byte>, copyOk: bool)
    returns (ret: int)
    requires sb.Mounted() && f.pos + |data| <= sb.blocksize
    requires InodeBlockNo(sb.fsInfo.value, file.rec.inodeNo) in sb.disk
    modifies sb`disk, file, f
    ensures sb.Mounted()
    ensures var r := WriteStep(old(sb.State()), old(file.rec), old(f.pos), data, copyOk);
            ret == r.ret && file.rec == r.file && f.pos == r.pos && sb.State() == r.fs
  {
    if file.rec.dataBlockNo !in sb.disk {
      return 0;
    }
    var bh := sb.disk[file.rec.dataBlockNo];
    if !copyOk {
      return -EFAULT;
    }
    bh := Splice(bh, f.pos, data);
    f.pos := f.pos + |data|;
    sb.disk := sb.disk[file.rec.dataBlockNo := bh];
    file.rec := file.rec.(size := if file.rec.size >= f.pos then file.rec.size else f.pos);
    SaveInode(sb, file);
    ret := |data|;
  }
}
