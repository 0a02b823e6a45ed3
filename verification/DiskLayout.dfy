/** The structures of source/system/filesystem/ext2/ext2.h field by field in the order they are declared
    in, and what the reader of ext2.c makes of each: every field it uses comes from its own place. */
module DiskLayout {
  import opened Words
  import opened Ext2Format
  import opened Directory
  import opened Loader

  type U16 = x: nat | x < 0x1_0000

  /** Fields of 16 and of 32 bits one after the other. */
  function Fields16(xs: seq<U16>): (s: seq<Byte>)
    ensures |s| == 2 * |xs|
  {
    if xs == [] then [] else Enc16(xs[0]) + Fields16(xs[1..])
  }

  function Fields32(xs: seq<U32>): (s: seq<Byte>)
    ensures |s| == 4 * |xs|
  {
    if xs == [] then [] else Enc32(xs[0]) + Fields32(xs[1..])
  }

  lemma {:induction false} Field16(s: seq<Byte>, at: nat, xs: seq<U16>, k: nat)
    requires At(s, at, Fields16(xs)) && k < |xs|
    ensures Le16(s, at + 2 * k) == xs[k]
    decreases xs
  {
    AtSplit(s, at, Enc16(xs[0]), Fields16(xs[1..]));
    if k == 0 {
      FieldInside(s, at, Enc16(xs[0]), 0);
    } else {
      Field16(s, at + 2, xs[1..], k - 1);
    }
  }

  lemma {:induction false} Field32(s: seq<Byte>, at: nat, xs: seq<U32>, k: nat)
    requires At(s, at, Fields32(xs)) && k < |xs|
    ensures Le32(s, at + 4 * k) == xs[k]
    decreases xs
  {
    AtSplit(s, at, Enc32(xs[0]), Fields32(xs[1..]));
    if k == 0 {
      WordAt(s, at, xs[0]);
    } else {
      Field32(s, at + 4, xs[1..], k - 1);
    }
  }

  lemma Whole(s: seq<Byte>, t: seq<Byte>)
    requires s == t
    ensures At(s, 0, t)
  {
  }

  // ---------------------------------------------------------------- superblock

  /** `ext2_superblock_t` */
  datatype Superblock = Superblock(
    inodesCount: U32, blocksCount: U32, reservedBlocks: U32, freeBlocks: U32, freeInodes: U32,
    firstDataBlock: U32, logBlockSize: U32, logFragSize: U32, blocksPerGroup: U32, fragsPerGroup: U32,
    inodesPerGroup: U32, mountTime: U32, writeTime: U32,
    mountCount: U16, maxMountCount: U16, magic: U16, state: U16, errors: U16, minorRevision: U16,
    rest: seq<Byte>)
  {
    function Bytes(): seq<Byte> {
      Fields32([inodesCount, blocksCount, reservedBlocks, freeBlocks, freeInodes, firstDataBlock, logBlockSize,
                logFragSize, blocksPerGroup, fragsPerGroup, inodesPerGroup, mountTime, writeTime])
      + Fields16([mountCount, maxMountCount, magic, state, errors, minorRevision])
      + rest
    }
  }

  /** Of a superblock at byte 1024 of an image, whatever its fields, the reader gets each one it uses. */
  lemma SuperblockReadsBack(image: seq<Byte>, r: Superblock)
    requires |r.rest| == 20 && At(image, 1024, r.Bytes())
    ensures |image| >= SUPER_OFFSET + SUPER_SIZE
    ensures var sb := SuperOf(image);
            && InodesCount(sb) == r.inodesCount && BlocksCount(sb) == r.blocksCount
            && FirstDataBlock(sb) == r.firstDataBlock && LogBlockSize(sb) == r.logBlockSize
            && BlocksPerGroup(sb) == r.blocksPerGroup && InodesPerGroup(sb) == r.inodesPerGroup
            && Magic(sb) == r.magic
  {
    hide Fields32, Fields16, Le32, Le16;
    var words := [r.inodesCount, r.blocksCount, r.reservedBlocks, r.freeBlocks, r.freeInodes, r.firstDataBlock,
                  r.logBlockSize, r.logFragSize, r.blocksPerGroup, r.fragsPerGroup, r.inodesPerGroup,
                  r.mountTime, r.writeTime];
    var halves := [r.mountCount, r.maxMountCount, r.magic, r.state, r.errors, r.minorRevision];
    var sb := SuperOf(image);
    Whole(sb, r.Bytes());
    hide At, SuperOf;
    AtSplit(sb, 0, Fields32(words) + Fields16(halves), r.rest);
    AtSplit(sb, 0, Fields32(words), Fields16(halves));
    Field32(sb, 0, words, 0);
    Field32(sb, 0, words, 1);
    Field32(sb, 0, words, 5);
    Field32(sb, 0, words, 6);
    Field32(sb, 0, words, 8);
    Field32(sb, 0, words, 10);
    Field16(sb, 52, halves, 2);
  }

  // ---------------------------------------------------------------- group descriptors

  /** `ext2_group_desc_t` */
  datatype GroupDesc = GroupDesc(
    blockBitmap: U32, inodeBitmap: U32, inodeTable: U32,
    freeBlocks: U16, freeInodes: U16, usedDirs: U16, pad: U16, reserved: seq<Byte>)
  {
    function Bytes(): seq<Byte> {
      Fields32([blockBitmap, inodeBitmap, inodeTable]) + Fields16([freeBlocks, freeInodes, usedDirs, pad]) + reserved
    }
  }

  function TableBytes(groups: seq<GroupDesc>): seq<Byte> {
    if groups == [] then [] else groups[0].Bytes() + TableBytes(groups[1..])
  }

  /** Of a table of descriptors, whatever their fields, the reader gets each group's own inode table. */
  lemma {:induction false} DescriptorsReadBack(s: seq<Byte>, at: nat, groups: seq<GroupDesc>, g: nat)
    requires forall i | 0 <= i < |groups| :: |groups[i].reserved| == 12
    requires At(s, at, TableBytes(groups)) && g < |groups|
    ensures at + 32 * g + 32 <= |s| && Le32(s, at + (32 * g + 8)) == groups[g].inodeTable
    decreases groups
  {
    hide Fields32, Fields16, Le32, At;
    var first := groups[0];
    AtSplit(s, at, first.Bytes(), TableBytes(groups[1..]));
    if g == 0 {
      var words, halves := [first.blockBitmap, first.inodeBitmap, first.inodeTable],
                           [first.freeBlocks, first.freeInodes, first.usedDirs, first.pad];
      Inside(s, at, first.Bytes());
      AtSplit(s, at, Fields32(words) + Fields16(halves), first.reserved);
      AtSplit(s, at, Fields32(words), Fields16(halves));
      Field32(s, at, words, 2);
    } else {
      DescriptorsReadBack(s, at + 32, groups[1..], g - 1);
    }
  }

  lemma Inside(s: seq<Byte>, at: nat, part: seq<Byte>)
    requires At(s, at, part)
    ensures at + |part| <= |s|
  {
  }

  lemma TablesReadBack(v: Volume, groups: seq<GroupDesc>, g: nat)
    requires forall i | 0 <= i < |groups| :: |groups[i].reserved| == 12
    requires v.descs == TableBytes(groups) && g < |groups|
    ensures 32 * g + 32 <= |v.descs| && TableBlock(v, g) == groups[g].inodeTable
  {
    Whole(v.descs, TableBytes(groups));
    DescriptorsReadBack(v.descs, 0, groups, g);
  }

  // ---------------------------------------------------------------- inodes

  /** `ext2_inode_t` */
  datatype InodeRecord = InodeRecord(
    mode: U16, uid: U16,
    size: U32, accessTime: U32, changeTime: U32, modifyTime: U32, deleteTime: U32,
    gid: U16, links: U16,
    sectors: U32, flags: U32, osd1: U32,
    blocks: seq<U32>,
    single: U32, double: U32, triple: U32, generation: U32, fileAcl: U32, dirAcl: U32, faddr: U32,
    osd2: seq<Byte>)
  {
    function Bytes(): seq<Byte> {
      Fields16([mode, uid])
      + Fields32([size, accessTime, changeTime, modifyTime, deleteTime])
      + Fields16([gid, links])
      + Fields32([sectors, flags, osd1])
      + Fields32(blocks)
      + (Fields32([single, double, triple, generation, fileAcl, dirAcl, faddr]) + osd2)
    }
  }

  /** Of an inode, whatever its fields, the reader gets the size, the sector count and each of the
      twelve direct blocks. */
  lemma InodeReadsBack(inode: Inode, r: InodeRecord)
    requires |r.blocks| == 12 && |r.osd2| == 12 && inode == r.Bytes()
    ensures SizeLo(inode) == r.size && SectorCount(inode) == r.sectors
    ensures forall b: nat | b < 12 :: Pointer(inode, b) == r.blocks[b]
  {
    hide Fields32, Fields16, Le32, Le16;
    var owner, times := [r.mode, r.uid], [r.size, r.accessTime, r.changeTime, r.modifyTime, r.deleteTime];
    var group, counts := [r.gid, r.links], [r.sectors, r.flags, r.osd1];
    var tail := Fields32([r.single, r.double, r.triple, r.generation, r.fileAcl, r.dirAcl, r.faddr]) + r.osd2;
    var a := Fields16(owner);
    var b := a + Fields32(times);
    var c := b + Fields16(group);
    var d := c + Fields32(counts);
    var e := d + Fields32(r.blocks);
    Whole(inode, e + tail);
    hide At;
    AtSplit(inode, 0, e, tail);
    AtSplit(inode, 0, d, Fields32(r.blocks));
    AtSplit(inode, 0, c, Fields32(counts));
    AtSplit(inode, 0, b, Fields16(group));
    AtSplit(inode, 0, a, Fields32(times));
    Field32(inode, 4, times, 0);
    Field32(inode, 28, counts, 0);
    forall b: nat | b < 12 ensures Pointer(inode, b) == r.blocks[b] {
      Field32(inode, 40, r.blocks, b);
    }
  }

  /** The byte at a place of the image, or -1 beyond it. */
  function StoredByte(image: seq<Byte>, at: nat): int {
    if at < |image| then image[at] else -1
  }

  /** And so a read of a file takes each byte from the block its own pointer names. */
  lemma FileReadsBack(v: Volume, inode: Inode, r: InodeRecord, offset: nat, len: nat, k: nat)
    requires |r.blocks| == 12 && |r.osd2| == 12 && inode == r.Bytes()
    requires v.blockSize > 0 && PointersFit(v, inode)
    ensures var s, p := ReadResult(v, inode, offset, len), offset + k;
            && (k < |s| <==> k < len && p < r.size && p < 12 * v.blockSize)
            && p == StartOf(Div(p, v.blockSize), v.blockSize) + Mod(p, v.blockSize)
            && (k < |s| ==>
                var b := Div(p, v.blockSize);
                b < 12 && s[k] == if r.blocks[b] == 0 then 0
                                  else StoredByte(v.image, StartOf(r.blocks[b], v.blockSize) + Mod(p, v.blockSize)))
  {
    hide InodeRecord.Bytes, PointersFit, ReadResult, Pointer, SizeLo, SectorCount, Div, Mod;
    var p := offset + k;
    InodeReadsBack(inode, r);
    ReadByteByByte(v, inode, offset, len, k);
    InWhichBlock(p, v.blockSize);
    if k < |ReadResult(v, inode, offset, len)| {
      assert Pointer(inode, Div(p, v.blockSize)) == r.blocks[Div(p, v.blockSize)];
      FileByteIs(v, inode, Div(p, v.blockSize), Mod(p, v.blockSize), p);
    }
  }

  lemma FileByteIs(v: Volume, inode: Inode, b: nat, m: nat, p: nat)
    requires b < 12 && p == StartOf(b, v.blockSize) + m
    ensures Pointer(inode, b) * v.blockSize + (p - b * v.blockSize) == StartOf(Pointer(inode, b), v.blockSize) + m
  {
  }

  // ---------------------------------------------------------------- directory records

  /** `ext2_dir_entry_t`: the fields of a record, whatever they hold, are at their own places. */
  lemma RecordFields(r: Record)
    requires r.WellFormed()
    ensures var s := r.Bytes();
            && |s| == 8 + |r.name| + |r.pad|
            && LittleEndian(s[0..4]) == r.inode && LittleEndian(s[4..6]) == |s|
            && s[6] == |r.name| && s[7] == r.fileType
            && s[8..8 + |r.name|] == r.name
    ensures RecordBytes([r]) == r.Bytes()
  {
    hide LittleEndian, Enc32, Enc16;
    assert [r][1..] == [];
    var s := r.Bytes();
    EncodersAreLittleEndian(r.Length(), r.inode, 0);
    assert s[0..4] == Enc32(r.inode) && s[4..6] == Enc16(r.Length());
  }

  /** Records follow one another in order, with nothing in between. */
  lemma {:induction false} RecordsInOrder(a: seq<Record>, b: seq<Record>)
    requires AllWellFormed(a) && AllWellFormed(b)
    ensures AllWellFormed(a + b) && RecordBytes(a + b) == RecordBytes(a) + RecordBytes(b)
    decreases a
  {
    hide Record.Bytes, Record.WellFormed;
    if a == [] {
      assert a + b == b;
    } else {
      RecordsInOrder(a[1..], b);
      assert (a + b)[1..] == a[1..] + b;
    }
  }

  /** Every inode record whose size is that of some blocks of records, whose direct pointers lead to the
      first of them or to nothing where there are none, is the inode of that directory. */
  lemma DirectoryOnDisk(v: Volume, dir: Inode, r: InodeRecord, blocks: seq<seq<Record>>)
    requires |r.blocks| == 12 && |r.osd2| == 12 && dir == r.Bytes()
    requires v.blockSize >= 512 && |v.image| < 0x1_0000_0000
    requires r.size == |blocks| * v.blockSize
    requires forall b: nat | b < 12 && b >= |blocks| :: r.blocks[b] == 0
    requires forall b: nat | b < 12 && b < |blocks| ::
               && AllWellFormed(blocks[b])
               && (r.blocks[b] == 0 ==> blocks[b] == [])
               && (r.blocks[b] != 0 ==>
                   && |RecordBytes(blocks[b])| == v.blockSize
                   && At(v.image, StartOf(r.blocks[b], v.blockSize), RecordBytes(blocks[b])))
    ensures IsDirectory(v, dir, blocks)
  {
    hide At, RecordBytes, AllWellFormed, Pointer, InodeRecord.Bytes;
    InodeReadsBack(dir, r);
  }

  /** Every inode record whose size is that of some contents, with each byte of them that the direct
      blocks reach in the block its pointer names, is the inode of that file. */
  lemma FileOnDisk(v: Volume, inode: Inode, r: InodeRecord, contents: seq<Byte>)
    requires |r.blocks| == 12 && |r.osd2| == 12 && inode == r.Bytes()
    requires v.blockSize > 0 && PointersFit(v, inode) && r.size == |contents|
    requires forall p: nat | p < |contents| && Div(p, v.blockSize) < 12 ::
               var b := Div(p, v.blockSize);
               contents[p] as int == if r.blocks[b] == 0 then 0
                                     else StoredByte(v.image, StartOf(r.blocks[b], v.blockSize) + Mod(p, v.blockSize))
    ensures IsFile(v, inode, contents)
  {
    hide InodeRecord.Bytes, PointersFit, FileSlice, Pointer, SizeLo, SectorCount, Div, Mod, StoredByte;
    InodeReadsBack(inode, r);
    var s := ReadResult(v, inode, 0, |contents|);
    forall k: nat | k < |s| ensures s[k] == contents[k] {
      FileReadsBack(v, inode, r, 0, |contents|, k);
    }
    assert s == contents[..|s|];
  }
}
