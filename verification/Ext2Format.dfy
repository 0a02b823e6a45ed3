/** The on-disk structures that source/system/filesystem/ext2/ext2.h describes, as bytes, and the
    arithmetic of ext2.c that finds its way among them ("The Second Extended File System: Internal
    Layout", sections "Superblock", "Block Group Descriptor Table" and "Locating an Inode"). */
module Ext2Format {
  import opened Words

  const SUPER_OFFSET: nat := 1024
  const SUPER_SIZE: nat := 84
  const SUPER_MAGIC: nat := 0xEF53
  const ROOT_INO: U32 := 2
  const INODE_SIZE: nat := 128
  const DIRECT_BLOCKS: nat := 12
  const MAX_LOG_BLOCK_SIZE: nat := 6

  // ---------------------------------------------------------------- superblock and groups

  type Super = s: seq<Byte> | |s| == SUPER_SIZE witness seq(SUPER_SIZE, _ => 0)

  function InodesCount(sb: Super): U32 { Le32(sb, 0) }
  function BlocksCount(sb: Super): U32 { Le32(sb, 4) }
  function FirstDataBlock(sb: Super): U32 { Le32(sb, 20) }
  function LogBlockSize(sb: Super): U32 { Le32(sb, 24) }
  function BlocksPerGroup(sb: Super): U32 { Le32(sb, 32) }
  function InodesPerGroup(sb: Super): U32 { Le32(sb, 40) }
  function Magic(sb: Super): nat { Le16(sb, 56) }

  /** `1024U << log`, one shift at a time */
  function BlockSize(log: nat): U32 {
    if log == 0 then 1024 else Wrap32(2 * BlockSize(log - 1))
  }

  /** `(blocks + per_group - 1) / per_group` */
  function Groups(sb: Super): nat
    requires BlocksPerGroup(sb) > 0
  {
    Div(Wrap32(BlocksCount(sb) + BlocksPerGroup(sb) - 1), BlocksPerGroup(sb))
  }

  /** `block_size * ((block_size == 1024) ? 2 : 1)` */
  function DescOffset(blockSize: U32): U32 {
    Wrap32(blockSize * (if blockSize == 1024 then 2 else 1))
  }

  /** What `ext2_mount` relies on: sizes that fit 32 bits and stay inside the image. */
  ghost predicate SuperFits(image: seq<Byte>, sb: Super) {
    && LogBlockSize(sb) <= MAX_LOG_BLOCK_SIZE
    && FirstDataBlock(sb) == (if LogBlockSize(sb) == 0 then 1 else 0)
    && BlocksPerGroup(sb) > 0 && InodesPerGroup(sb) > 0
    && BlocksCount(sb) + BlocksPerGroup(sb) - 1 < 0x1_0000_0000
    && |image| < 0x1_0000_0000
    && DescOffset(BlockSize(LogBlockSize(sb))) + Groups(sb) * 32 <= |image|
    && Groups(sb) * 32 <= 0x1_0000_0000 - 8192
  }

  /** The seven block sizes, from 1 KiB up. */
  lemma BlockSizes(log: nat)
    requires log <= MAX_LOG_BLOCK_SIZE
    ensures log < 7 && BlockSize(log) == [1024, 2048, 4096, 8192, 16384, 32768, 65536][log]
  {
    assert BlockSize(1) == 2048 && BlockSize(2) == 4096 && BlockSize(3) == 8192;
    assert BlockSize(4) == 16384 && BlockSize(5) == 32768 && BlockSize(6) == 65536;
  }

  /** The table sits in the block after the superblock's, and there are as many groups as it takes to
      hold the blocks. */
  lemma MountArithmetic(image: seq<Byte>, sb: Super)
    requires SuperFits(image, sb)
    ensures LogBlockSize(sb) < 7
    ensures var blockSize := [1024, 2048, 4096, 8192, 16384, 32768, 65536][LogBlockSize(sb)];
            && BlockSize(LogBlockSize(sb)) == blockSize
            && var at := (FirstDataBlock(sb) + 1) * blockSize;
               at == DescOffset(blockSize) && at + Groups(sb) * 32 <= |image|
               && DescTable(image, sb) == image[at..at + Groups(sb) * 32]
    ensures (Groups(sb) - 1) * BlocksPerGroup(sb) < BlocksCount(sb) <= Groups(sb) * BlocksPerGroup(sb)
            || BlocksCount(sb) == Groups(sb) == 0
  {
    hide Div, BlockSize;
    BlockSizes(LogBlockSize(sb));
    CeilingQuotient(BlocksCount(sb), BlocksPerGroup(sb));
  }

  lemma CeilingQuotient(n: nat, d: nat)
    requires d > 0
    ensures var q: int := Div(n + d - 1, d); (q - 1) * d < n <= q * d || (n == 0 && q == 0)
  {
    hide Div, Mod;
    var q: int := Div(n + d - 1, d);
    DivMod(n + d - 1, d);
    MulSum(q - 1, 1, d as int);
  }

  // ---------------------------------------------------------------- blocks

  lemma BlockOrder(a: nat, b: nat, blockSize: nat)
    requires a <= b
    ensures StartOf(a, blockSize) <= StartOf(b, blockSize)
    ensures blockSize > 0 ==> a <= StartOf(a, blockSize)
  {
    MulMono(a, b, blockSize);
    if blockSize > 0 {
      MulMono(1, blockSize, a);
    }
  }

  /** The block a byte is in and its place there. */
  lemma InWhichBlock(k: nat, blockSize: nat)
    requires blockSize > 0
    ensures k == StartOf(Div(k, blockSize), blockSize) + Mod(k, blockSize)
  {
    DivMod(k, blockSize);
  }

  lemma BlockAndPlace(block: nat, blockSize: nat, r: nat)
    requires r < blockSize
    ensures Div(StartOf(block, blockSize) + r, blockSize) == block
    ensures Mod(StartOf(block, blockSize) + r, blockSize) == r
  {
    DivModIs(block, blockSize, r);
  }

  // ---------------------------------------------------------------- a mounted volume

  /** What the reader works from: the image, and the superblock and descriptor table it copied. */
  datatype Volume = Volume(image: seq<Byte>, sb: Super, blockSize: U32, descs: seq<Byte>)

  function SuperOf(image: seq<Byte>): Super
    requires SUPER_OFFSET + SUPER_SIZE <= |image|
  {
    image[SUPER_OFFSET..SUPER_OFFSET + SUPER_SIZE]
  }

  /** The bytes of the descriptor table. */
  ghost function DescTable(image: seq<Byte>, sb: Super): (t: seq<Byte>)
    requires SuperFits(image, sb)
    ensures |t| == Groups(sb) * 32 <= 0x1_0000_0000 - 8192
  {
    var at := DescOffset(BlockSize(LogBlockSize(sb)));
    image[at..at + Groups(sb) * 32]
  }

  /** The bytes `ext2_mount` copies are that table, and lie inside the image. */
  lemma TableInImage(image: seq<Byte>, sb: Super)
    requires SuperFits(image, sb)
    ensures BlocksPerGroup(sb) > 0
    ensures var at := DescOffset(BlockSize(LogBlockSize(sb)));
            at + Groups(sb) * 32 <= |image| && image[at..at + Groups(sb) * 32] == DescTable(image, sb)
  {
  }

  lemma SupportedSize(image: seq<Byte>, sb: Super)
    requires SuperFits(image, sb)
    ensures LogBlockSize(sb) < 7
    ensures BlockSize(LogBlockSize(sb)) == [1024, 2048, 4096, 8192, 16384, 32768, 65536][LogBlockSize(sb)]
  {
    BlockSizes(LogBlockSize(sb));
  }

  /** The volume an image holds. */
  ghost function VolumeOf(image: seq<Byte>): Volume
    requires SUPER_OFFSET + SUPER_SIZE <= |image| && SuperFits(image, SuperOf(image))
  {
    var sb := SuperOf(image);
    Volume(image, sb, BlockSize(LogBlockSize(sb)), DescTable(image, sb))
  }

  /** The inode table of a group, as the descriptor names it. */
  function TableBlock(v: Volume, group: nat): U32
    requires 32 * group + 32 <= |v.descs|
  {
    Le32(v.descs, 32 * group + 8)
  }

  function Group(v: Volume, ino: U32): nat
    requires ino > 0 && InodesPerGroup(v.sb) > 0
  {
    Div(ino - 1, InodesPerGroup(v.sb))
  }

  function Index(v: Volume, ino: U32): nat
    requires ino > 0 && InodesPerGroup(v.sb) > 0
  {
    Mod(ino - 1, InodesPerGroup(v.sb))
  }

  /** Sound block size, inode tables inside an image below 4 GiB, and a descriptor for every inode. */
  ghost predicate WellFormed(v: Volume) {
    && v.blockSize in {1024, 2048, 4096, 8192, 16384, 32768, 65536}
    && InodesPerGroup(v.sb) > 0
    && |v.image| < 0x1_0000_0000
    && (forall g: nat | 32 * g + 32 <= |v.descs| ::
          StartOf(TableBlock(v, g), v.blockSize) + InodesPerGroup(v.sb) * 128 <= |v.image|)
    && (forall ino: U32 | 0 < ino <= InodesCount(v.sb) ::
          32 * Group(v, ino) + 32 <= |v.descs|)
  }

  ghost predicate IsInode(v: Volume, ino: U32) {
    0 < ino <= InodesCount(v.sb)
  }

  /** Where an inode is by definition of the layout. */
  ghost function InodeOffset(v: Volume, ino: U32): nat
    requires WellFormed(v) && IsInode(v, ino)
  {
    StartOf(TableBlock(v, Group(v, ino)), v.blockSize) + Index(v, ino) * 128
  }

  /** Where the source looks for it: whole blocks first, then the remainder, in 32 bits. */
  function ComputedOffset(table: U32, index: nat, blockSize: U32): U32
    requires blockSize >= INODE_SIZE
  {
    var perBlock := blockSize / 128;
    Wrap32(StartOf(Wrap32(table + Div(index, perBlock)), blockSize) + Mod(index, perBlock) * 128)
  }

  lemma InodesHaveTables(v: Volume, ino: U32)
    requires WellFormed(v) && IsInode(v, ino)
    ensures InodesPerGroup(v.sb) > 0 && v.blockSize >= 1024
    ensures Group(v, ino) * 32 + 32 <= |v.descs|
  {
    assert 32 * Group(v, ino) + 32 <= |v.descs|;
  }

  lemma InodeFits(v: Volume, ino: U32)
    requires WellFormed(v) && IsInode(v, ino)
    ensures var table := StartOf(TableBlock(v, Group(v, ino)), v.blockSize);
            && table <= InodeOffset(v, ino)
            && InodeOffset(v, ino) + INODE_SIZE <= table + InodesPerGroup(v.sb) * 128 <= |v.image|
  {
    assert 32 * Group(v, ino) + 32 <= |v.descs|;
  }

  /** For every supported block size the offset the source computes is exactly that of the inode in its
      group's table, and nothing wraps. */
  lemma InodeLocationExact(v: Volume, ino: U32)
    requires WellFormed(v) && IsInode(v, ino)
    ensures var offset := ComputedOffset(TableBlock(v, Group(v, ino)), Index(v, ino), v.blockSize);
            && offset == InodeOffset(v, ino)
            && var perGroup := InodesPerGroup(v.sb);
               0 <= (ino - 1) / perGroup && 32 * ((ino - 1) / perGroup) + 32 <= |v.descs|
               && offset == TableBlock(v, (ino - 1) / perGroup) * v.blockSize + (ino - 1) % perGroup * 128
  {
    InodeFits(v, ino);
    BlockAndRemainder(TableBlock(v, Group(v, ino)), Index(v, ino), v.blockSize);
    InodesHaveTables(v, ino);
  }

  lemma BlockAndRemainder(table: U32, index: nat, blockSize: U32)
    requires blockSize >= INODE_SIZE && blockSize % 128 == 0
    requires StartOf(table, blockSize) + index * 128 < 0x1_0000_0000
    ensures ComputedOffset(table, index, blockSize) == StartOf(table, blockSize) + index * 128
  {
    hide Div, Mod, StartOf;
    var perBlock := blockSize / 128;
    var q, r := Div(index, perBlock), Mod(index, perBlock);
    InWhichBlock(index, perBlock);
    Regroup(table, q, perBlock, blockSize);
    BlockOrder(table + q, table + q, blockSize);
  }

  lemma Regroup(table: nat, q: nat, perBlock: nat, blockSize: nat)
    requires blockSize == perBlock * 128
    ensures StartOf(table + q, blockSize) == StartOf(table, blockSize) + StartOf(q, perBlock) * 128
  {
    MulSum(table, q, blockSize);
    MulRegroup(q, perBlock, 128);
  }

  /** The byte range of a group's inode table. */
  ghost predicate TablesApart(v: Volume)
    requires InodesPerGroup(v.sb) > 0
  {
    forall g: nat, h: nat | g < h && 32 * h + 32 <= |v.descs| ::
      var a, b := StartOf(TableBlock(v, g), v.blockSize), StartOf(TableBlock(v, h), v.blockSize);
      var n := InodesPerGroup(v.sb) * 128;
      a + n <= b || b + n <= a
  }

  /** When the tables do not overlap, distinct inode numbers have disjoint 128-byte ranges. */
  lemma InodesDoNotAlias(v: Volume, i: U32, j: U32)
    requires WellFormed(v) && TablesApart(v) && IsInode(v, i) && IsInode(v, j) && i != j
    ensures InodeOffset(v, i) + INODE_SIZE <= InodeOffset(v, j) || InodeOffset(v, j) + INODE_SIZE <= InodeOffset(v, i)
  {
    InodeFits(v, i);
    InodeFits(v, j);
    DivMod(i - 1, InodesPerGroup(v.sb));
    DivMod(j - 1, InodesPerGroup(v.sb));
    hide Div, Mod, StartOf;
    assert 32 * Group(v, i) + 32 <= |v.descs|;
    assert 32 * Group(v, j) + 32 <= |v.descs|;
    if Group(v, i) == Group(v, j) {
      assert Index(v, i) != Index(v, j);
    }
  }

  // ---------------------------------------------------------------- inodes and file contents

  /** An inode is its 128 bytes. */
  type Inode = s: seq<Byte> | |s| == INODE_SIZE witness seq(INODE_SIZE, _ => 0)

  function SizeLo(inode: Inode): U32 { Le32(inode, 4) }
  function SectorCount(inode: Inode): U32 { Le32(inode, 28) }

  function Pointer(inode: Inode, b: nat): U32
    requires b < DIRECT_BLOCKS
  {
    Le32(inode, 40 + 4 * b)
  }

  /** An inode is the 128 bytes at its index in the table of its group. */
  lemma InodeBytes(v: Volume, ino: U32)
    requires WellFormed(v) && IsInode(v, ino)
    ensures var perGroup := InodesPerGroup(v.sb);
            && perGroup > 0 && 0 <= (ino - 1) / perGroup && 32 * ((ino - 1) / perGroup) + 32 <= |v.descs|
            && var at := TableBlock(v, (ino - 1) / perGroup) * v.blockSize + (ino - 1) % perGroup * 128;
               0 <= at && at + 128 <= |v.image| && InodeOf(v, ino) == v.image[at..at + 128]
  {
    InodeLocationExact(v, ino);
    InodeFits(v, ino);
  }

  ghost function InodeOf(v: Volume, ino: U32): Inode
    requires WellFormed(v) && IsInode(v, ino)
  {
    InodeFits(v, ino);
    v.image[InodeOffset(v, ino)..InodeOffset(v, ino) + INODE_SIZE]
  }

  /** Every direct block is a hole or lies inside an image below 4 GiB, and the file size leaves room
      to round up. */
  ghost predicate PointersFit(v: Volume, inode: Inode) {
    && |v.image| < 0x1_0000_0000
    && (forall b: nat | b < DIRECT_BLOCKS && Pointer(inode, b) != 0 ::
          StartOf(Pointer(inode, b), v.blockSize) + v.blockSize <= |v.image|)
    && SizeLo(inode) + v.blockSize < 0x1_0000_0000
  }

  /** The 32-bit product of pointer and block size does not wrap. */
  lemma BlockFits(v: Volume, inode: Inode, b: nat)
    requires PointersFit(v, inode) && b < DIRECT_BLOCKS && Pointer(inode, b) != 0
    ensures Wrap32(StartOf(Pointer(inode, b), v.blockSize)) == StartOf(Pointer(inode, b), v.blockSize)
    ensures StartOf(Pointer(inode, b), v.blockSize) + v.blockSize <= |v.image|
  {
  }

  /** Byte `k` of the flat file: a hole reads as zero. */
  ghost function FileByte(v: Volume, inode: Inode, k: nat): Byte
    requires v.blockSize > 0 && PointersFit(v, inode)
    requires Div(k, v.blockSize) < DIRECT_BLOCKS
  {
    var b := Div(k, v.blockSize);
    if Pointer(inode, b) == 0 then 0
    else v.image[StartOf(Pointer(inode, b), v.blockSize) + Mod(k, v.blockSize)]
  }

  /** How many bytes a read returns: up to the request, the size and the direct blocks. */
  function ReadLength(v: Volume, inode: Inode, offset: nat, len: nat): nat {
    Max(0, Min(Min(offset + len, SizeLo(inode)), StartOf(DIRECT_BLOCKS, v.blockSize)) - offset)
  }

  lemma DirectByte(k: nat, blockSize: nat)
    requires blockSize > 0 && k < StartOf(DIRECT_BLOCKS, blockSize)
    ensures Div(k, blockSize) < DIRECT_BLOCKS
  {
    hide Div, Mod, StartOf;
    InWhichBlock(k, blockSize);
    if Div(k, blockSize) >= DIRECT_BLOCKS {
      BlockOrder(DIRECT_BLOCKS, Div(k, blockSize), blockSize);
    }
  }

  /** `n` bytes of the flat file. */
  ghost function FileSlice(v: Volume, inode: Inode, offset: nat, n: nat): (s: seq<Byte>)
    requires v.blockSize > 0 && PointersFit(v, inode)
    requires n > 0 ==> offset + n <= StartOf(DIRECT_BLOCKS, v.blockSize)
    ensures |s| == n
  {
    if n == 0 then []
    else
      DirectByte(offset + n - 1, v.blockSize);
      FileSlice(v, inode, offset, n - 1) + [FileByte(v, inode, offset + n - 1)]
  }

  lemma {:induction false} SliceAt(v: Volume, inode: Inode, offset: nat, n: nat, k: nat)
    requires v.blockSize > 0 && PointersFit(v, inode)
    requires k < n && offset + n <= StartOf(DIRECT_BLOCKS, v.blockSize)
    ensures Div(offset + k, v.blockSize) < DIRECT_BLOCKS
    ensures FileSlice(v, inode, offset, n)[k] == FileByte(v, inode, offset + k)
  {
    hide Div, FileByte, PointersFit, StartOf;
    DirectByte(offset + k, v.blockSize);
    if k < n - 1 {
      SliceAt(v, inode, offset, n - 1, k);
    }
  }

  /** Byte by byte: a read returns what lies within the request, the size and 12 blocks, and each byte
      comes from its place in its block, or is zero in a hole. */
  lemma ReadByteByByte(v: Volume, inode: Inode, offset: nat, len: nat, k: nat)
    requires v.blockSize > 0 && PointersFit(v, inode)
    ensures var s, p := ReadResult(v, inode, offset, len), offset + k;
            && (k < |s| <==> k < len && p < SizeLo(inode) && p < 12 * v.blockSize)
            && (k < |s| ==>
                var b := Div(p, v.blockSize);
                && b < 12 && b * v.blockSize <= p < (b + 1) * v.blockSize
                && (if Pointer(inode, b) == 0 then s[k] == 0
                    else
                      var at := Pointer(inode, b) * v.blockSize + (p - b * v.blockSize);
                      at < |v.image| && s[k] == v.image[at]))
  {
    hide PointersFit, FileSlice, Div, Mod, Pointer;
    var n := ReadLength(v, inode, offset, len);
    if k < n {
      SliceAt(v, inode, offset, n, k);
      InWhichBlock(offset + k, v.blockSize);
      NextStart(Div(offset + k, v.blockSize), v.blockSize);
      if Pointer(inode, Div(offset + k, v.blockSize)) != 0 {
        BlockFits(v, inode, Div(offset + k, v.blockSize));
      }
    }
  }

  /** The bytes a read returns. */
  ghost function ReadResult(v: Volume, inode: Inode, offset: nat, len: nat): seq<Byte>
    requires v.blockSize > 0 && PointersFit(v, inode)
  {
    FileSlice(v, inode, offset, ReadLength(v, inode, offset, len))
  }

  /** Within one block the flat file is the block, or zeros for a hole. */
  ghost predicate IsBlockPart(v: Volume, inode: Inode, b: nat, r: nat, s: seq<Byte>)
    requires b < DIRECT_BLOCKS
  {
    if Pointer(inode, b) == 0 then s == seq(|s|, _ => 0)
    else At(v.image, StartOf(Pointer(inode, b), v.blockSize) + r, s)
  }

  lemma {:induction false} BlockSlice(v: Volume, inode: Inode, b: nat, r: nat, n: nat)
    requires v.blockSize > 0 && PointersFit(v, inode)
    requires b < DIRECT_BLOCKS && r + n <= v.blockSize
    ensures StartOf(b, v.blockSize) + v.blockSize <= StartOf(DIRECT_BLOCKS, v.blockSize)
    ensures IsBlockPart(v, inode, b, r, FileSlice(v, inode, StartOf(b, v.blockSize) + r, n))
  {
    hide Div, Mod, StartOf, Pointer;
    NextStart(b, v.blockSize);
    BlockOrder(b + 1, DIRECT_BLOCKS, v.blockSize);
    if n > 0 {
      BlockSlice(v, inode, b, r, n - 1);
      BlockAndPlace(b, v.blockSize, r + n - 1);
    }
  }

  lemma {:induction false} SlicesConcatenate(v: Volume, inode: Inode, offset: nat, m: nat, n: nat)
    requires v.blockSize > 0 && PointersFit(v, inode)
    requires m + n > 0 ==> offset + m + n <= StartOf(DIRECT_BLOCKS, v.blockSize)
    ensures FileSlice(v, inode, offset, m + n) == FileSlice(v, inode, offset, m) + FileSlice(v, inode, offset + m, n)
  {
    hide FileByte, PointersFit;
    if n > 0 {
      SlicesConcatenate(v, inode, offset, m, n - 1);
      assert offset + (m + n) - 1 == offset + m + n - 1;
    }
  }

  /** Reading `a` bytes and then `b` bytes is reading `a + b` bytes, wherever the file ends. */
  lemma ReadsConcatenate(v: Volume, inode: Inode, offset: nat, a: nat, b: nat)
    requires v.blockSize > 0 && PointersFit(v, inode)
    ensures ReadResult(v, inode, offset, a + b)
            == ReadResult(v, inode, offset, a) + ReadResult(v, inode, offset + a, b)
  {
    var m, n := ReadLength(v, inode, offset, a), ReadLength(v, inode, offset + a, b);
    assert ReadLength(v, inode, offset, a + b) == m + n;
    SlicesConcatenate(v, inode, offset, m, n);
    assert n > 0 ==> m == a;
  }
}
