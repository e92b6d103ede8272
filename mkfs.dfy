// mkfs-hellofs.c: the formatter. It builds the superblock, the two bitmaps, the root
// and welcome-file inodes, the root directory's one record and the welcome text in
// memory, then writes them to the device through one file descriptor in a fixed
// ladder of writes and seeks, stopping at the first step that fails.

module Mkfs {
  import opened Wrappers
  import opened Bytes
  import opened HelloFs
  import opened KHelloFs
  import opened Bitmap
  import opened DirBlock
  import opened Inodes
  import opened File
  import opened Dir
  import opened Super

  // ---------------------------------------------------------------- what is written

  const WELCOME_INODE_NO: nat := ROOTDIR_INODE_NO + 1
  const WELCOME_DATA_BLOCK_NO_OFFSET: nat := ROOTDIR_DATA_BLOCK_NO_OFFSET + 1

  /** The superblock: version 1, both tables of the default size, and both counts 2. */
  const MKFS_SB: Superblock := Superblock(1, HELLOFS_MAGIC, DEFAULT_BLOCKSIZE,
                                          DEFAULT_INODE_TABLE_SIZE, 2,
                                          DEFAULT_DATA_BLOCK_TABLE_SIZE, 2)

  /** Both bitmaps: a block of zeros whose byte 0 is 1, that is bit 0 alone set. */
  function MkfsBitmap(): (bm: seq<byte>)
    ensures |bm| == DEFAULT_BLOCKSIZE
  {
    [1] + Zeros(DEFAULT_BLOCKSIZE - 1)
  }

  /** The root directory: S_IFDIR | 0775, inode 0, the first data block, one child. */
  function RootInode(): Inode
  {
    Inode(0x41FD, ROOTDIR_INODE_NO, DataStart(MKFS_SB) + ROOTDIR_DATA_BLOCK_NO_OFFSET, 1)
  }

  /** "Welcome Hellofs!!\n" with its terminating NUL: sizeof(welcome_body) is 19. */
  const WELCOME_BODY: seq<byte> :=
    [87, 101, 108, 99, 111, 109, 101, 32, 72, 101, 108, 108, 111, 102, 115, 33, 33, 10, 0]

  /** The welcome file: S_IFREG | 0664, inode 1, the second data block, 19 bytes. */
  function WelcomeInode(): Inode
  {
    Inode(0x81B4, WELCOME_INODE_NO, DataStart(MKFS_SB) + WELCOME_DATA_BLOCK_NO_OFFSET, |WELCOME_BODY|)
  }

  /** "wel_helo.txt". */
  const WELCOME_NAME: seq<byte> := [119, 101, 108, 95, 104, 101, 108, 111, 46, 116, 120, 116]

  /** root_dir_records: one record, the welcome name zero-filled to 255 bytes, inode 1. */
  function RootRecords(): (b: seq<byte>)
    ensures |b| == DIR_RECORD_SIZE
  {
    EncodeDirRecord(WELCOME_NAME + Zeros(FILENAME_MAXLEN - |WELCOME_NAME|), WELCOME_INODE_NO)
  }

  // ---------------------------------------------------------------- the device file

  /** pwrite-style overwrite of c at off: a write past the end extends the file, and
      a gap between the old end and off reads as zeros. */
  function Overwrite(c: seq<byte>, off: nat, d: seq<byte>): (r: seq<byte>)
    ensures |r| == if off + |d| <= |c| then |c| else off + |d|
    ensures r[off..off + |d|] == d
  {
    var padded := if off <= |c| then c else c + Zeros(off - |c|);
    var tail := if off + |d| <= |padded| then padded[off + |d|..] else [];
    padded[..off] + d + tail
  }

  /** An overwrite keeps every range of the old file that it does not cover. */
  lemma OverwriteKeeps(c: seq<byte>, off: nat, d: seq<byte>, a: nat, n: nat)
    requires a + n <= |c| && (a + n <= off || off + |d| <= a)
    ensures Overwrite(c, off, d)[a..a + n] == c[a..a + n]
  {
    var r := Overwrite(c, off, d);
    forall i | a <= i < a + n
      ensures r[i] == c[i]
    {
      if i < off {
        assert r[..off] == (if off <= |c| then c else c + Zeros(off - |c|))[..off];
      } else {
        assert i >= off + |d|;
      }
    }
  }

  /** The content of the device and the file offset of the descriptor. */
  datatype Image = Image(content: seq<byte>, offset: nat)

  /** One step of the ladder: a write of some bytes, or an lseek to an absolute offset. */
  datatype Op = WriteOp(data: seq<byte>) | SeekOp(off: nat)

  /** Where a successful step leaves the file offset. */
  function NextOffset(off: nat, op: Op): nat
  {
    match op
    case WriteOp(d) => off + |d|
    case SeekOp(o) => o
  }

  /** What a successful step does to the device. */
  function Apply(img: Image, op: Op): (r: Image)
    ensures |r.content| >= |img.content| && r.offset == NextOffset(img.offset, op)
  {
    match op
    case WriteOp(d) => Image(Overwrite(img.content, img.offset, d), img.offset + |d|)
    case SeekOp(off) => Image(img.content, off)
  }

  /** The file offset before each step and after the last, were every step to succeed. */
  function Offsets(off: nat, ops: seq<Op>): (o: seq<nat>)
    ensures |o| == |ops| + 1 && o[0] == off
    decreases ops
  {
    if ops == [] then [off] else [off] + Offsets(NextOffset(off, ops[0]), ops[1..])
  }

  /** The device before each step and after the last one, were every step to
      succeed: t[k] is the device after the first k steps. */
  function Trace(img: Image, ops: seq<Op>): (t: seq<Image>)
    ensures |t| == |ops| + 1 && t[0] == img
    decreases ops
  {
    if ops == [] then [img] else [img] + Trace(Apply(img, ops[0]), ops[1..])
  }

  /** Consecutive images of a trace are one step apart. */
  lemma {:induction false} TraceStep(img: Image, ops: seq<Op>, k: nat)
    requires k < |ops|
    decreases ops
    ensures Trace(img, ops)[k + 1] == Apply(Trace(img, ops)[k], ops[k])
  {
    if k > 0 {
      TraceStep(Apply(img, ops[0]), ops[1..], k - 1);
    }
  }

  /** The file descriptor opened on the device (open, write and lseek on it). */
  class ImageFile {
    var content: seq<byte>
    var offset: nat

    constructor (content: seq<byte>)
      ensures this.content == content && offset == 0
    {
      this.content := content;
      offset := 0;
    }

    /** write(fd, data, |data|): ok says whether the whole buffer is written; a failed
        write returns -1 and writes nothing. */
    method Write(data: seq<byte>, ok: bool) returns (n: int)
      modifies this
      ensures ok ==> n == |data| && Image(content, offset) == Apply(old(Image(content, offset)), WriteOp(data))
      ensures !ok ==> n == -1 && content == old(content) && offset == old(offset)
    {
      if !ok {
        return -1;
      }
      content := Overwrite(content, offset, data);
      offset := offset + |data|;
      n := |data|;
    }

    /** lseek(fd, off, SEEK_SET): the new offset, or -1 when ok is false. */
    method Seek(off: nat, ok: bool) returns (r: int)
      modifies this
      ensures ok ==> r == off && Image(content, offset) == Apply(old(Image(content, offset)), SeekOp(off))
      ensures !ok ==> r == -1 && content == old(content) && offset == old(offset)
    {
      if !ok {
        return -1;
      }
      offset := off;
      r := off;
    }
  }

  // ---------------------------------------------------------------- the ladder

  /** The buffers main builds before it writes anything, and the two numbers its
      seeks use. */
  datatype Buffers = Buffers(
    superblock: seq<byte>, inodeBitmap: seq<byte>, dataBlockBitmap: seq<byte>,
    rootInode: seq<byte>, welcomeInode: seq<byte>, rootRecords: seq<byte>,
    welcomeBody: seq<byte>, blocksize: nat, dataStart: nat)

  /** What mkfs-hellofs builds. */
  function MkfsBuffers(): Buffers
  {
    Buffers(EncodeSuperblock(MKFS_SB), MkfsBitmap(), MkfsBitmap(),
            EncodeInode(RootInode()), EncodeInode(WelcomeInode()), RootRecords(),
            WELCOME_BODY, MKFS_SB.blocksize, DataStart(MKFS_SB))
  }

  /** The byte offset of block number bn. */
  function BlockOffset(bn: nat, blocksize: nat): nat
  {
    bn * blocksize
  }

  /** The ten steps of the ladder, in order. */
  function FormatOps(b: Buffers): (ops: seq<Op>)
    ensures |ops| == 10
  {
    [ WriteOp(b.superblock),
      SeekOp(b.blocksize),
      WriteOp(b.inodeBitmap),
      WriteOp(b.dataBlockBitmap),
      WriteOp(b.rootInode),
      WriteOp(b.welcomeInode),
      SeekOp(BlockOffset(b.dataStart, b.blocksize)),
      WriteOp(b.rootRecords),
      SeekOp(BlockOffset(b.dataStart + 1, b.blocksize)),
      WriteOp(b.welcomeBody) ]
  }

  /** The index of the first step that fails, |oks| when none does. */
  function FirstFailure(oks: seq<bool>): (k: nat)
    ensures k <= |oks|
    ensures forall j :: 0 <= j < k ==> oks[j]
    ensures k < |oks| ==> !oks[k]
  {
    if oks == [] then 0
    else if !oks[0] then 0
    else 1 + FirstFailure(oks[1..])
  }

  /** Walking the ladder: once the steps before k are known to succeed, step k either
      succeeds too or is the first failure. */
  lemma FirstFailureAt(oks: seq<bool>, k: nat)
    requires k < |oks| && FirstFailure(oks) >= k
    ensures oks[k] ==> FirstFailure(oks) > k
    ensures !oks[k] ==> FirstFailure(oks) == k
  {
  }

  datatype Outcome = Outcome(ret: int, img: Image)

  /** What a do { ... } while (0) ladder produces when step k is the first to fail:
      -(k+1), or 0 when none fails, and the device after exactly the steps before k. */
  function Ladder(img: Image, ops: seq<Op>, oks: seq<bool>): (o: Outcome)
    requires |oks| == |ops|
    ensures o.ret == 0 <==> (forall j :: 0 <= j < |ops| ==> oks[j])
    ensures -|ops| <= o.ret <= 0
  {
    var k := FirstFailure(oks);
    Outcome(if k == |ops| then 0 else -(k + 1), Trace(img, ops)[k])
  }

  /** write(fd, data) as step k of the ladder: it moves the device from the k-th
      image of the trace to the next, or fails and leaves it as it was. */
  method LadderWrite(dev: ImageFile, data: seq<byte>, ok: bool,
                     ghost img: Image, ghost ops: seq<Op>, ghost k: nat)
    returns (n: int)
    requires k < |ops| && ops[k] == WriteOp(data)
    requires Image(dev.content, dev.offset) == Trace(img, ops)[k]
    modifies dev
    ensures n == |data| <==> ok
    ensures ok ==> Image(dev.content, dev.offset) == Trace(img, ops)[k + 1]
    ensures !ok ==> Image(dev.content, dev.offset) == Trace(img, ops)[k]
  {
    TraceStep(img, ops, k);
    n := dev.Write(data, ok);
  }

  /** lseek(fd, off, SEEK_SET) as step k of the ladder, in the same sense. */
  method LadderSeek(dev: ImageFile, off: nat, ok: bool,
                    ghost img: Image, ghost ops: seq<Op>, ghost k: nat)
    returns (p: int)
    requires k < |ops| && ops[k] == SeekOp(off)
    requires Image(dev.content, dev.offset) == Trace(img, ops)[k]
    modifies dev
    ensures p == -1 <==> !ok
    ensures ok ==> Image(dev.content, dev.offset) == Trace(img, ops)[k + 1]
    ensures !ok ==> Image(dev.content, dev.offset) == Trace(img, ops)[k]
  {
    TraceStep(img, ops, k);
    p := dev.Seek(off, ok);
  }

  /** The do { ... } while (0) ladder of main: each write must take its whole buffer
      (sizeof) and each lseek must not return -1; the first that fails sets ret to
      its own code and skips the rest. */
  method WriteLadder(dev: ImageFile, b: Buffers, oks: seq<bool>) returns (ret: int)
    requires |oks| == 10
    modifies dev
    ensures var o := Ladder(old(Image(dev.content, dev.offset)), FormatOps(b), oks);
            ret == o.ret && Image(dev.content, dev.offset) == o.img
  {
    ghost var img := Image(dev.content, dev.offset);
    ghost var ops := FormatOps(b);
    var n: int;
    var p: int;
    ret := 0;
    label ladder: {
      n := LadderWrite(dev, b.superblock, oks[0], img, ops, 0);
      FirstFailureAt(oks, 0);
      if n != |b.superblock| {
        ret := -1;
        break ladder;
      }
      p := LadderSeek(dev, b.blocksize, oks[1], img, ops, 1);
      FirstFailureAt(oks, 1);
      if p == -1 {
        ret := -2;
        break ladder;
      }
      n := LadderWrite(dev, b.inodeBitmap, oks[2], img, ops, 2);
      FirstFailureAt(oks, 2);
      if n != |b.inodeBitmap| {
        ret := -3;
        break ladder;
      }
      n := LadderWrite(dev, b.dataBlockBitmap, oks[3], img, ops, 3);
      FirstFailureAt(oks, 3);
      if n != |b.dataBlockBitmap| {
        ret := -4;
        break ladder;
      }
      n := LadderWrite(dev, b.rootInode, oks[4], img, ops, 4);
      FirstFailureAt(oks, 4);
      if n != |b.rootInode| {
        ret := -5;
        break ladder;
      }
      n := LadderWrite(dev, b.welcomeInode, oks[5], img, ops, 5);
      FirstFailureAt(oks, 5);
      if n != |b.welcomeInode| {
        ret := -6;
        break ladder;
      }
      p := LadderSeek(dev, BlockOffset(b.dataStart, b.blocksize), oks[6], img, ops, 6);
      FirstFailureAt(oks, 6);
      if p == -1 {
        ret := -7;
        break ladder;
      }
      n := LadderWrite(dev, b.rootRecords, oks[7], img, ops, 7);
      FirstFailureAt(oks, 7);
      if n != |b.rootRecords| {
        ret := -8;
        break ladder;
      }
      p := LadderSeek(dev, BlockOffset(b.dataStart + 1, b.blocksize), oks[8], img, ops, 8);
      FirstFailureAt(oks, 8);
      if p == -1 {
        ret := -9;
        break ladder;
      }
      n := LadderWrite(dev, b.welcomeBody, oks[9], img, ops, 9);
      FirstFailureAt(oks, 9);
      if n != |b.welcomeBody| {
        ret := -10;
        break ladder;
      }
    }
  }

  /** main, without argv: openOk says whether open succeeded (its failure is -1, the
      same code as a failed superblock write), oks[k] whether step k of the ladder
      does. The descriptor starts at offset 0 and is closed at the end. */
  method Mkfs(dev: ImageFile, openOk: bool, oks: seq<bool>) returns (ret: int)
    requires |oks| == 10
    modifies dev
    ensures !openOk ==> ret == -1 && dev.content == old(dev.content)
    ensures openOk ==> var o := Ladder(Image(old(dev.content), 0), FormatOps(MkfsBuffers()), oks);
                       ret == o.ret && dev.content == o.img.content
  {
    if !openOk {
      return -1;
    }
    dev.offset := 0;
    var b := MkfsBuffers();
    ret := WriteLadder(dev, b, oks);
  }

  // ---------------------------------------------------------------- the formatted device

  /** Consecutive offsets are one step apart. */
  lemma {:induction false} OffsetsStep(off: nat, ops: seq<Op>, k: nat)
    requires k < |ops|
    decreases ops
    ensures Offsets(off, ops)[k + 1] == NextOffset(Offsets(off, ops)[k], ops[k])
  {
    if k > 0 {
      OffsetsStep(NextOffset(off, ops[0]), ops[1..], k - 1);
    }
  }

  /** The offsets the device goes through are the offsets the steps compute. */
  lemma {:induction false} TraceOffsets(img: Image, ops: seq<Op>, k: nat)
    requires k <= |ops|
    decreases ops
    ensures Trace(img, ops)[k].offset == Offsets(img.offset, ops)[k]
  {
    if k > 0 {
      TraceOffsets(Apply(img, ops[0]), ops[1..], k - 1);
    }
  }

  /** Whether step op, taken at offset off, writes the byte at p. */
  predicate Touches(off: nat, op: Op, p: nat)
  {
    op.WriteOp? && off <= p < off + |op.data|
  }

  /** A byte no step from j up to k writes keeps its value from image j to image k. */
  lemma {:induction false} TraceKeepsByte(img: Image, ops: seq<Op>, j: nat, k: nat, p: nat)
    requires j <= k <= |ops| && p < |Trace(img, ops)[j].content|
    requires forall i :: j <= i < k ==> !Touches(Offsets(img.offset, ops)[i], ops[i], p)
    decreases k - j
    ensures p < |Trace(img, ops)[k].content|
    ensures Trace(img, ops)[k].content[p] == Trace(img, ops)[j].content[p]
  {
    if j < k {
      var t := Trace(img, ops);
      TraceStep(img, ops, j);
      TraceOffsets(img, ops, j);
      if ops[j].WriteOp? {
        OverwriteKeeps(t[j].content, t[j].offset, ops[j].data, p, 1);
        assert t[j + 1].content[p..p + 1][0] == t[j].content[p..p + 1][0];
      }
      TraceKeepsByte(img, ops, j + 1, k, p);
    }
  }

  /** What the ladder's buffers must satisfy for its regions not to overlap: the
      superblock fits block 0, each bitmap is one block, the two inodes fit before
      the data region and the directory records fit its first block. */
  predicate BuffersFit(b: Buffers)
  {
    && |b.superblock| <= b.blocksize
    && |b.inodeBitmap| == b.blocksize && |b.dataBlockBitmap| == b.blocksize
    && 3 * b.blocksize + |b.rootInode| + |b.welcomeInode| <= BlockOffset(b.dataStart, b.blocksize)
    && BlockOffset(b.dataStart, b.blocksize) + |b.rootRecords| <= BlockOffset(b.dataStart + 1, b.blocksize)
  }

  /** The file offset before each step of the ladder: the offset only moves forward
      when the buffers fit their regions. */
  lemma FormatOffsets(off: nat, b: Buffers)
    ensures var o := Offsets(off, FormatOps(b));
            var bs, d0, d1 := b.blocksize, BlockOffset(b.dataStart, b.blocksize), BlockOffset(b.dataStart + 1, b.blocksize);
            && o[0] == off && o[1] == off + |b.superblock| && o[2] == bs
            && o[3] == bs + |b.inodeBitmap| && o[4] == bs + |b.inodeBitmap| + |b.dataBlockBitmap|
            && o[5] == o[4] + |b.rootInode| && o[6] == o[5] + |b.welcomeInode|
            && o[7] == d0 && o[8] == d0 + |b.rootRecords|
            && o[9] == d1 && o[10] == d1 + |b.welcomeBody|
  {
    var ops := FormatOps(b);
    for k := 0 to 10
      invariant forall i :: 0 <= i < k ==> Offsets(off, ops)[i + 1] == NextOffset(Offsets(off, ops)[i], ops[i])
    {
      OffsetsStep(off, ops, k);
    }
  }

  /** A ladder whose file offset never moves backwards. */
  predicate Forward(o: seq<nat>)
  {
    forall i, j :: 0 <= i <= j < |o| ==> o[i] <= o[j]
  }

  /** In a forward-only ladder that runs to the end, the bytes of every write are on
      the device, at the offset the write was made at. */
  lemma WriteLands(img: Image, ops: seq<Op>, s: nat, p: nat)
    requires s < |ops| && ops[s].WriteOp? && Forward(Offsets(img.offset, ops))
    requires Offsets(img.offset, ops)[s] <= p < Offsets(img.offset, ops)[s] + |ops[s].data|
    ensures p < |Trace(img, ops)[|ops|].content|
    ensures Trace(img, ops)[|ops|].content[p] == ops[s].data[p - Offsets(img.offset, ops)[s]]
  {
    var t, o := Trace(img, ops), Offsets(img.offset, ops);
    TraceStep(img, ops, s);
    TraceOffsets(img, ops, s);
    OffsetsStep(img.offset, ops, s);
    var d := ops[s].data;
    assert t[s + 1].content[o[s]..o[s] + |d|] == d;
    assert t[s + 1].content[p] == d[p - o[s]];
    forall i | s + 1 <= i < |ops|
      ensures !Touches(o[i], ops[i], p)
    {
      assert o[s + 1] <= o[i];
    }
    TraceKeepsByte(img, ops, s + 1, |ops|, p);
  }

  /** Steps never shrink the device. */
  lemma {:induction false} TraceGrows(img: Image, ops: seq<Op>, k: nat)
    requires k <= |ops|
    decreases ops
    ensures |Trace(img, ops)[k].content| >= |img.content|
  {
    if k > 0 {
      TraceGrows(Apply(img, ops[0]), ops[1..], k - 1);
    }
  }

  /** The slice version: a write's whole buffer is on the device at its offset. */
  lemma RegionLands(img: Image, ops: seq<Op>, s: nat, off: nat, d: seq<byte>)
    requires s < |ops| && ops[s] == WriteOp(d) && |d| > 0
    requires Forward(Offsets(img.offset, ops)) && Offsets(img.offset, ops)[s] == off
    ensures off + |d| <= |Trace(img, ops)[|ops|].content|
    ensures Trace(img, ops)[|ops|].content[off..off + |d|] == d
  {
    var r := Trace(img, ops)[|ops|].content;
    WriteLands(img, ops, s, off + |d| - 1);
    forall p | off <= p < off + |d|
      ensures r[p] == d[p - off]
    {
      WriteLands(img, ops, s, p);
    }
  }

  /** With buffers that fit their regions, the ladder never seeks backwards. */
  lemma FormatForward(b: Buffers)
    requires BuffersFit(b)
    ensures Forward(Offsets(0, FormatOps(b)))
  {
    FormatOffsets(0, b);
  }

  /** The device after a ladder that runs to the end. */
  function Formatted(c: seq<byte>, b: Buffers): seq<byte>
  {
    Trace(Image(c, 0), FormatOps(b))[|FormatOps(b)|].content
  }

  /** The device never shrinks, and it ends after the welcome text. */
  lemma FormatLength(c: seq<byte>, b: Buffers)
    ensures |Formatted(c, b)| >= |c|
    ensures |Formatted(c, b)| >= BlockOffset(b.dataStart + 1, b.blocksize) + |b.welcomeBody|
  {
    var img, ops := Image(c, 0), FormatOps(b);
    FormatOffsets(0, b);
    TraceGrows(img, ops, 10);
    TraceStep(img, ops, 9);
    TraceOffsets(img, ops, 9);
  }

  /** Where main's buffers end up in the first three blocks: the superblock at the
      start of block 0 and the two bitmaps filling blocks 1 and 2. */
  lemma FormatLayoutHeader(c: seq<byte>, b: Buffers)
    requires BuffersFit(b)
    ensures |Formatted(c, b)| >= 3 * b.blocksize
    ensures Formatted(c, b)[..|b.superblock|] == b.superblock
    ensures Formatted(c, b)[b.blocksize..2 * b.blocksize] == b.inodeBitmap
    ensures Formatted(c, b)[2 * b.blocksize..3 * b.blocksize] == b.dataBlockBitmap
  {
    var img, ops := Image(c, 0), FormatOps(b);
    FormatLength(c, b);
    FormatOffsets(0, b);
    FormatForward(b);
    if |b.superblock| > 0 {
      RegionLands(img, ops, 0, 0, b.superblock);
    }
    if |b.inodeBitmap| > 0 {
      RegionLands(img, ops, 2, b.blocksize, b.inodeBitmap);
    }
    if |b.dataBlockBitmap| > 0 {
      RegionLands(img, ops, 3, 2 * b.blocksize, b.dataBlockBitmap);
    }
  }

  /** The two inodes land back to back at the start of block 3, the first block of
      the inode table. */
  lemma FormatLayoutInodes(c: seq<byte>, b: Buffers)
    requires BuffersFit(b)
    ensures |Formatted(c, b)| >= 3 * b.blocksize + |b.rootInode| + |b.welcomeInode|
    ensures Formatted(c, b)[3 * b.blocksize..3 * b.blocksize + |b.rootInode|] == b.rootInode
    ensures var i1 := 3 * b.blocksize + |b.rootInode|;
            Formatted(c, b)[i1..i1 + |b.welcomeInode|] == b.welcomeInode
  {
    var img, ops := Image(c, 0), FormatOps(b);
    FormatLength(c, b);
    FormatOffsets(0, b);
    FormatForward(b);
    if |b.rootInode| > 0 {
      RegionLands(img, ops, 4, 3 * b.blocksize, b.rootInode);
    }
    if |b.welcomeInode| > 0 {
      RegionLands(img, ops, 5, 3 * b.blocksize + |b.rootInode|, b.welcomeInode);
    }
  }

  /** Where main's buffers end up in the data region: the directory records at the
      start of the first data block and the welcome text at the start of the next. */
  lemma FormatLayoutData(c: seq<byte>, b: Buffers)
    requires BuffersFit(b)
    ensures |Formatted(c, b)| >= BlockOffset(b.dataStart + 1, b.blocksize) + |b.welcomeBody|
    ensures var d0 := BlockOffset(b.dataStart, b.blocksize);
            Formatted(c, b)[d0..d0 + |b.rootRecords|] == b.rootRecords
    ensures var d1 := BlockOffset(b.dataStart + 1, b.blocksize);
            Formatted(c, b)[d1..d1 + |b.welcomeBody|] == b.welcomeBody
  {
    var img, ops := Image(c, 0), FormatOps(b);
    FormatLength(c, b);
    FormatOffsets(0, b);
    FormatForward(b);
    if |b.rootRecords| > 0 {
      RegionLands(img, ops, 7, BlockOffset(b.dataStart, b.blocksize), b.rootRecords);
    }
    if |b.welcomeBody| > 0 {
      RegionLands(img, ops, 9, BlockOffset(b.dataStart + 1, b.blocksize), b.welcomeBody);
    }
  }

  /** What the ladder leaves alone: the rest of block 0, the inode table after the two
      inodes, the rest of the first data block and everything after the welcome text
      keep whatever the device held. */
  lemma FormatKeepsGaps(c: seq<byte>, b: Buffers, p: nat)
    requires BuffersFit(b) && p < |c|
    requires var bs := b.blocksize;
             var d0, d1 := BlockOffset(b.dataStart, bs), BlockOffset(b.dataStart + 1, bs);
             || |b.superblock| <= p < bs
             || 3 * bs + |b.rootInode| + |b.welcomeInode| <= p < d0
             || d0 + |b.rootRecords| <= p < d1
             || d1 + |b.welcomeBody| <= p
    ensures p < |Formatted(c, b)| && Formatted(c, b)[p] == c[p]
  {
    FormatOffsets(0, b);
    TraceKeepsByte(Image(c, 0), FormatOps(b), 0, 10, p);
  }


  /** A ladder whose every step succeeds returns 0 and leaves the formatted device. */
  lemma LadderSucceeds(c: seq<byte>, b: Buffers, oks: seq<bool>)
    requires |oks| == 10 && forall j :: 0 <= j < 10 ==> oks[j]
    ensures Ladder(Image(c, 0), FormatOps(b), oks).ret == 0
    ensures Ladder(Image(c, 0), FormatOps(b), oks).img.content == Formatted(c, b)
  {
  }

  /** The first step that fails stops the ladder: ret is minus its number counted
      from 1, and the device holds exactly what the steps before it did. A failed
      superblock write is step 0: it leaves the device as it was and returns -1, the
      code main also returns when open fails. */
  lemma LadderStopsAt(img: Image, ops: seq<Op>, oks: seq<bool>, k: nat)
    requires |oks| == |ops| && k < |ops| && !oks[k]
    requires forall j :: 0 <= j < k ==> oks[j]
    ensures Ladder(img, ops, oks) == Outcome(-(k + 1), Trace(img, ops)[k])
    ensures k == 0 ==> Ladder(img, ops, oks) == Outcome(-1, img)
  {
  }

  // ---------------------------------------------------------------- mounting what mkfs wrote

  /** The geometry of main's buffers: a 4096-byte block, the data region at block 12,
      every buffer in its region, and a superblock the driver can work with. */
  lemma MkfsBuffersFit()
    ensures var b := MkfsBuffers();
            && b.blocksize == DEFAULT_BLOCKSIZE && b.dataStart == 12
            && |b.superblock| == SUPERBLOCK_SIZE
            && |b.inodeBitmap| == DEFAULT_BLOCKSIZE && |b.dataBlockBitmap| == DEFAULT_BLOCKSIZE
            && |b.rootInode| == INODE_SIZE && |b.welcomeInode| == INODE_SIZE
            && |b.rootRecords| == DIR_RECORD_SIZE && |b.welcomeBody| == 19
            && BuffersFit(b)
    ensures GeometryOk(MKFS_SB) && DataStart(MKFS_SB) == 12
  {
  }

  lemma BlockBound(len: nat, bs: nat, n: nat)
    requires bs > 0 && n < len / bs
    ensures n * bs + bs <= len
  {
    MulLe(bs, n + 1, len / bs);
  }

  /** Block n of a device of |r| bytes, for a whole block. */
  function BlockAt(r: seq<byte>, bs: nat, n: nat): (blk: seq<byte>)
    requires bs > 0 && n < |r| / bs
    ensures |blk| == bs
  {
    BlockBound(|r|, bs, n);
    r[n * bs..n * bs + bs]
  }

  /** The device as sb_bread sees it: its whole blocks of bs bytes. */
  function DeviceBlocks(r: seq<byte>, bs: nat): (d: Disk)
    requires bs > 0
    ensures BlocksSized(d, bs)
    ensures forall n: nat :: n in d <==> n < |r| / bs
  {
    map n: nat | n < |r| / bs :: BlockAt(r, bs, n)
  }

  /** A whole block of the device is one sb_bread can read, and holds the device's
      bytes at its offset. */
  lemma DeviceBlockIs(r: seq<byte>, bs: nat, n: nat)
    requires bs > 0 && n * bs + bs <= |r|
    ensures n in DeviceBlocks(r, bs) && DeviceBlocks(r, bs)[n] == r[n * bs..n * bs + bs]
  {
    if |r| / bs <= n {
      MulLe(bs, |r| / bs + 1, n + 1);
      assert false;
    }
  }

  /** Buffers laid out for superblock h: they fit their regions, the superblock
      buffer is h's record, h is one fill_super accepts on a 4096-byte device with
      a geometry the driver can work with, and the data region starts where h says. */
  predicate LaysOut(b: Buffers, h: Superblock)
  {
    && BuffersFit(b)
    && h.magic == HELLOFS_MAGIC && h.blocksize == DEFAULT_BLOCKSIZE && GeometryOk(h)
    && b.blocksize == h.blocksize && b.dataStart == DataStart(h)
    && b.superblock == EncodeSuperblock(h)
  }

  /** What a ladder run to the end leaves, as the driver reads it. */
  function LaidOut(c: seq<byte>, b: Buffers, h: Superblock): Fs
  {
    Fs(DeviceBlocks(Formatted(c, b), DEFAULT_BLOCKSIZE), h)
  }

  /** The first blocks of the formatted device, up to the first data block, are
      readable, and hold what the ladder wrote. */
  lemma LaidOutBlocks(c: seq<byte>, b: Buffers, h: Superblock, n: nat)
    requires LaysOut(b, h) && (n <= b.dataStart || n * DEFAULT_BLOCKSIZE + DEFAULT_BLOCKSIZE <= |c|)
    ensures var r := Formatted(c, b);
            n * DEFAULT_BLOCKSIZE + DEFAULT_BLOCKSIZE <= |r|
            && n in LaidOut(c, b, h).disk
            && LaidOut(c, b, h).disk[n] == r[n * DEFAULT_BLOCKSIZE..n * DEFAULT_BLOCKSIZE + DEFAULT_BLOCKSIZE]
  {
    FormatLength(c, b);
    DeviceBlockIs(Formatted(c, b), DEFAULT_BLOCKSIZE, n);
  }

  /** A range inside one of those blocks is the same range of the device. */
  lemma LaidOutBytes(c: seq<byte>, b: Buffers, h: Superblock, n: nat, a: nat, len: nat)
    requires LaysOut(b, h) && (n <= b.dataStart || n * DEFAULT_BLOCKSIZE + DEFAULT_BLOCKSIZE <= |c|)
    requires a + len <= DEFAULT_BLOCKSIZE
    ensures var r, o := Formatted(c, b), n * DEFAULT_BLOCKSIZE;
            && o + DEFAULT_BLOCKSIZE <= |r| && n in LaidOut(c, b, h).disk
            && |LaidOut(c, b, h).disk[n]| == DEFAULT_BLOCKSIZE
            && LaidOut(c, b, h).disk[n][a..a + len] == r[o + a..o + a + len]
  {
    LaidOutBlocks(c, b, h, n);
  }

  /** A formatted device passes hellofs_fill_super's check and reads back the
      superblock the ladder wrote; it is then a mounted volume. */
  lemma LaidOutMounts(c: seq<byte>, b: Buffers, h: Superblock)
    requires LaysOut(b, h)
    ensures var d := LaidOut(c, b, h).disk;
            && SUPERBLOCK_BLOCK_NO in d
            && CheckSuperblock(d[SUPERBLOCK_BLOCK_NO][..SUPERBLOCK_SIZE], DEFAULT_BLOCKSIZE) == Some(h)
            && WellFormed(LaidOut(c, b, h)) && Synced(LaidOut(c, b, h))
  {
    var r, d := Formatted(c, b), LaidOut(c, b, h).disk;
    FormatLayoutHeader(c, b);
    LaidOutBlocks(c, b, h, 0);
    LaidOutBlocks(c, b, h, 1);
    LaidOutBlocks(c, b, h, 2);
    assert d[0][..SUPERBLOCK_SIZE] == r[..SUPERBLOCK_SIZE];
    CheckAcceptsOwnImage(h, DEFAULT_BLOCKSIZE);
  }

  /** The two inodes the ladder wrote are the table's inodes 0 and 1. */
  lemma LaidOutInodes(c: seq<byte>, b: Buffers, h: Superblock, root: Inode, welcome: Inode)
    requires LaysOut(b, h) && b.rootInode == EncodeInode(root) && b.welcomeInode == EncodeInode(welcome)
    ensures WellFormed(LaidOut(c, b, h))
    ensures InodeBlockNo(h, ROOTDIR_INODE_NO) in LaidOut(c, b, h).disk
    ensures InodeBlockNo(h, WELCOME_INODE_NO) in LaidOut(c, b, h).disk
    ensures LoadInode(LaidOut(c, b, h), ROOTDIR_INODE_NO) == root
    ensures LoadInode(LaidOut(c, b, h), WELCOME_INODE_NO) == welcome
  {
    var fs := LaidOut(c, b, h);
    LaidOutMounts(c, b, h);
    FormatLayoutInodes(c, b);
    assert InodesPerBlock(h) == 128;
    assert InodeBlockNo(h, WELCOME_INODE_NO) == INODE_TABLE_START_BLOCK_NO;
    assert InodeByteOffset(h, WELCOME_INODE_NO) == INODE_SIZE;
    RootInodeLocation(h);
    LaidOutBytes(c, b, h, INODE_TABLE_START_BLOCK_NO, 0, INODE_SIZE);
    LaidOutBytes(c, b, h, INODE_TABLE_START_BLOCK_NO, INODE_SIZE, INODE_SIZE);
    DecodeEncodeInode(root);
    DecodeEncodeInode(welcome);
  }

  /** A NUL after a buffer does not change the C string it holds. */
  lemma {:induction false} CStrOfNulEnded(s: seq<byte>)
    ensures CStr(s + [0]) == CStr(s)
  {
    if s != [] && s[0] != 0 {
      assert (s + [0])[1..] == s[1..] + [0];
      CStrOfNulEnded(s[1..]);
    }
  }

  /** The first data block of the formatted device starts with the record the
      ladder wrote: its filename field and its inode number read back. */
  lemma LaidOutRecord(c: seq<byte>, b: Buffers, h: Superblock, field: seq<byte>, ino: u64)
    requires LaysOut(b, h) && |field| == FILENAME_MAXLEN && b.rootRecords == EncodeDirRecord(field, ino)
    ensures b.dataStart in LaidOut(c, b, h).disk
    ensures var blk := LaidOut(c, b, h).disk[b.dataStart];
            && |blk| == DEFAULT_BLOCKSIZE
            && RecordField(blk, 0) == field && RecordIno(blk, 0) == ino
            && blk[..DIR_RECORD_INO_OFFSET] == field + [0]
  {
    FormatLayoutData(c, b);
    LaidOutBytes(c, b, h, b.dataStart, 0, DIR_RECORD_SIZE);
    var blk := LaidOut(c, b, h).disk[b.dataStart];
    assert blk[..DIR_RECORD_SIZE] == field + [0] + U64Bytes(ino);
    assert blk[DIR_RECORD_INO_OFFSET..DIR_RECORD_SIZE] == U64Bytes(ino) == U64Bytes(ino)[0..8];
    U64RoundTrip(ino);
  }

  /** The root directory's block holds the one record the ladder wrote: readdir lists
      it, and lookup of its name binds the inode it names. */
  lemma LaidOutRootDir(c: seq<byte>, b: Buffers, h: Superblock, root: Inode, field: seq<byte>, ino: u64)
    requires LaysOut(b, h) && |field| == FILENAME_MAXLEN && b.rootRecords == EncodeDirRecord(field, ino)
    requires root.dataBlockNo == b.dataStart && root.size == 1 && IsDir(root.mode)
    requires InodeBlockNo(h, ino) in LaidOut(c, b, h).disk
    ensures WellFormed(LaidOut(c, b, h)) && Scannable(LaidOut(c, b, h), root)
    ensures ReaddirStep(LaidOut(c, b, h), root, 0) == ReaddirResult(0, [DirEntry(field, 0, ino)], DIR_RECORD_SIZE)
    ensures LookupResult(LaidOut(c, b, h), root, CStr(field), true) == Some(LoadInode(LaidOut(c, b, h), ino))
  {
    LaidOutMounts(c, b, h);
    LaidOutRecord(c, b, h, field, ino);
    var blk := LaidOut(c, b, h).disk[root.dataBlockNo];
    assert Listing(blk, 1) == [DirEntry(field, 0, ino)];
    CStrOfNulEnded(field);
    FindRecordIs(blk, 1, CStr(field), 0);
  }

  /** On a device large enough to hold the welcome file's block, reading the file
      from the start returns the welcome text, up to the length asked for. */
  lemma LaidOutWelcomeFile(c: seq<byte>, b: Buffers, h: Superblock, welcome: Inode, len: nat)
    requires LaysOut(b, h) && |b.welcomeBody| <= DEFAULT_BLOCKSIZE
    requires welcome.dataBlockNo == b.dataStart + 1 && welcome.size == |b.welcomeBody|
    requires (b.dataStart + 2) * DEFAULT_BLOCKSIZE <= |c|
    ensures WellFormed(LaidOut(c, b, h))
    ensures var n := if |b.welcomeBody| <= len then |b.welcomeBody| else len;
            ReadStep(LaidOut(c, b, h), welcome, 0, len, true) == ReadResult(n, b.welcomeBody[..n], n)
  {
    LaidOutMounts(c, b, h);
    FormatLayoutData(c, b);
    LaidOutBytes(c, b, h, b.dataStart + 1, 0, |b.welcomeBody|);
    if |b.welcomeBody| > 0 {
      ReadInside(LaidOut(c, b, h), welcome, 0, len);
    }
  }

  /** The bitmaps mkfs-hellofs writes mark only slot 0 as used, although its counts
      say two inodes and two data blocks are: the first inode and the first data
      block the driver hands out are the welcome file's own. */
  lemma LaidOutAllocatesWelcome(c: seq<byte>, b: Buffers, h: Superblock)
    requires LaysOut(b, h) && b.inodeBitmap == MkfsBitmap() && b.dataBlockBitmap == MkfsBitmap()
    requires h.inodeTableSize >= 2 && h.dataBlockTableSize >= 2
    ensures WellFormed(LaidOut(c, b, h))
    ensures AllocInodeStep(LaidOut(c, b, h)).no == Some(WELCOME_INODE_NO)
    ensures AllocDataStep(LaidOut(c, b, h)).no == Some(b.dataStart + WELCOME_DATA_BLOCK_NO_OFFSET)
  {
    var fs := LaidOut(c, b, h);
    LaidOutMounts(c, b, h);
    FormatLayoutHeader(c, b);
    LaidOutBytes(c, b, h, INODE_BITMAP_BLOCK_NO, 0, DEFAULT_BLOCKSIZE);
    LaidOutBytes(c, b, h, DATA_BLOCK_BITMAP_BLOCK_NO, 0, DEFAULT_BLOCKSIZE);
    var bm := MkfsBitmap();
    assert fs.disk[INODE_BITMAP_BLOCK_NO] == bm && fs.disk[DATA_BLOCK_BITMAP_BLOCK_NO] == bm;
    assert bm[0] == 1;
    assert BitSet(bm, 0) && !BitSet(bm, 1);
    FirstFreeIs(bm, h.inodeTableSize, 1);
    FirstFreeIs(bm, h.dataBlockTableSize, 1);
  }


  /** main's buffers are laid out for the superblock it builds. */
  lemma MkfsLaysOut()
    ensures LaysOut(MkfsBuffers(), MKFS_SB)
  {
    MkfsBuffersFit();
  }

  /** The two inodes main builds: the root is a directory owning the first data
      block and one child record, the welcome file a regular file owning the next
      block and the 19 bytes of the welcome text. */
  lemma MkfsInodes()
    ensures IsDir(RootInode().mode) && !IsReg(RootInode().mode) && RootInode().size == 1
    ensures RootInode().dataBlockNo == DataStart(MKFS_SB)
    ensures IsReg(WelcomeInode().mode) && !IsDir(WelcomeInode().mode)
    ensures WelcomeInode().size == |WELCOME_BODY| == 19
    ensures WelcomeInode().dataBlockNo == DataStart(MKFS_SB) + 1
  {
  }

  /** The record main builds names "wel_helo.txt": its zero-filled field reads back
      as that name. */
  lemma MkfsRecordName()
    ensures CStr(WELCOME_NAME + Zeros(FILENAME_MAXLEN - |WELCOME_NAME|)) == WELCOME_NAME
  {
    var pad := Zeros(FILENAME_MAXLEN - |WELCOME_NAME|);
    assert pad == [0] + pad[1..];
    assert WELCOME_NAME + pad == WELCOME_NAME + [0] + pad[1..];
    CStrOfTerminated(WELCOME_NAME, pad[1..]);
  }

}
