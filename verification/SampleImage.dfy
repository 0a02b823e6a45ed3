/** A small image with one file, whose root directory may begin with a hole. It meets everything the
    end-to-end theorem asks for, and with the hole the file is not found. */
module SampleImage {
  import opened Words
  import opened Ext2Format
  import opened Directory
  import opened Loader

  /** Six blocks of 1 KiB: boot block, superblock, descriptors, inodes, the root directory's one block
      in use, and the file's. With a hole, the directory block is the second of two. */
  function ImageByte(holed: bool, i: nat): Byte {
    match i
    case 1024 => 8                         // s_inodes_count
    case 1028 => 6                         // s_blocks_count
    case 1044 => 1                         // s_first_data_block
    case 1056 => 8                         // s_blocks_per_group
    case 1064 => 8                         // s_inodes_per_group
    case 1080 => 0x53                      // s_magic
    case 1081 => 0xEF
    case 2056 => 3                         // bg_inode_table
    case 3205 => if holed then 8 else 4    // inode 2: i_size_lo
    case 3228 => 2                         //          i_blocks
    case 3240 => if holed then 0 else 4    //          i_block[0]
    case 3244 => if holed then 4 else 0    //          i_block[1]
    case 3332 => 1                         // inode 3: i_size_lo
    case 3356 => 2                         //          i_blocks
    case 3368 => 5                         //          i_block[0]
    case 4096 => 3                         // the record: inode
    case 4101 => 4                         //             rec_len
    case 4102 => 1                         //             name_len
    case 4103 => 1                         //             file_type
    case 4104 => 97                        //             name
    case 5120 => 42                        // the file
    case _ => 0
  }

  function Image(holed: bool): (s: seq<Byte>)
    ensures |s| == 6144
  {
    seq(6144, i requires 0 <= i < 6144 => ImageByte(holed, i))
  }

  /** The 16- and 32-bit fields of a structure that begins at `from`. */
  lemma Field16(holed: bool, from: nat, n: nat, k: nat)
    requires k + 2 <= n && from + n <= 6144
    ensures Le16(Image(holed)[from..from + n], k) == ImageByte(holed, from + k) + 0x100 * ImageByte(holed, from + k + 1)
  {
    hide ImageByte;
  }

  lemma Field32(holed: bool, from: nat, n: nat, k: nat)
    requires k + 4 <= n && from + n <= 6144
    ensures Le32(Image(holed)[from..from + n], k) ==
            ImageByte(holed, from + k) + 0x100 * ImageByte(holed, from + k + 1)
            + 0x1_0000 * (ImageByte(holed, from + k + 2) + 0x100 * ImageByte(holed, from + k + 3))
  {
    hide ImageByte;
    var part := Image(holed)[from..from + n];
    assert forall j | k <= j < k + 4 :: part[j] == ImageByte(holed, from + j);
  }

  function TheRecord(): (r: Record)
    ensures r.WellFormed() && r.Length() == 1024
  {
    Record(3, [97], 1, seq(1015, _ => 0))
  }

  function Root(holed: bool): seq<seq<Record>> {
    if holed then [[], [TheRecord()]] else [[TheRecord()]]
  }

  const FILES: seq<File> := [File([97], Some([42]))]

  lemma SuperFields(holed: bool)
    ensures var sb := SuperOf(Image(holed));
            && Magic(sb) == SUPER_MAGIC && LogBlockSize(sb) == 0 && FirstDataBlock(sb) == 1
            && BlocksCount(sb) == 6 && BlocksPerGroup(sb) == 8 && InodesPerGroup(sb) == 8 && InodesCount(sb) == 8
  {
    hide Image;
    Field16(holed, 1024, 84, 56);
    Field32(holed, 1024, 84, 0);
    Field32(holed, 1024, 84, 4);
    Field32(holed, 1024, 84, 20);
    Field32(holed, 1024, 84, 24);
    Field32(holed, 1024, 84, 32);
    Field32(holed, 1024, 84, 40);
  }

  lemma Mountable(holed: bool)
    ensures Magic(SuperOf(Image(holed))) == SUPER_MAGIC
    ensures SuperFits(Image(holed), SuperOf(Image(holed)))
    ensures var v := VolumeOf(Image(holed));
            && v.blockSize == 1024 && |v.descs| == 32 && TableBlock(v, 0) == 3
            && InodesPerGroup(v.sb) == 8 && InodesCount(v.sb) == 8
  {
    SuperFields(holed);
    Field32(holed, 2048, 32, 8);
    hide Image, ImageByte, SuperOf, Magic, FirstDataBlock, LogBlockSize, BlocksCount, BlocksPerGroup, InodesPerGroup,
      InodesCount, Le32, Div;
    assert Div(13, 8) == 1;
    assert BlockSize(0) == 1024 && DescOffset(1024) == 2048;
  }

  lemma Inodes(holed: bool)
    ensures SuperFits(Image(holed), SuperOf(Image(holed)))
    ensures var v := VolumeOf(Image(holed));
            && WellFormed(v) && (forall ino: U32 | 0 < ino <= 8 :: IsInode(v, ino))
            && InodeOf(v, 2) == Image(holed)[3200..3328] && InodeOf(v, 3) == Image(holed)[3328..3456]
  {
    Mountable(holed);
    hide SuperFits, TableBlock, Image;
    var v := VolumeOf(Image(holed));
    forall g: nat | 32 * g + 32 <= |v.descs|
      ensures StartOf(TableBlock(v, g), v.blockSize) + InodesPerGroup(v.sb) * 128 <= |v.image|
    {
      assert g == 0;
    }
    forall ino: U32 | 0 < ino <= 8 ensures Group(v, ino) == 0 && Index(v, ino) == ino - 1 {
    }
  }

  lemma Fields(holed: bool)
    ensures var dir, file: Inode := Image(holed)[3200..3328], Image(holed)[3328..3456];
            && SizeLo(dir) == (if holed then 2048 else 1024) && SectorCount(dir) == 2
            && Pointer(dir, 0) == (if holed then 0 else 4) && Pointer(dir, 1) == (if holed then 4 else 0)
            && (forall b: nat | 2 <= b < DIRECT_BLOCKS :: Pointer(dir, b) == 0)
            && SizeLo(file) == 1 && Pointer(file, 0) == 5
            && (forall b: nat | 1 <= b < DIRECT_BLOCKS :: Pointer(file, b) == 0)
  {
    hide Image;
    Field32(holed, 3200, 128, 4);
    Field32(holed, 3200, 128, 28);
    Field32(holed, 3200, 128, 40);
    Field32(holed, 3200, 128, 44);
    Field32(holed, 3328, 128, 4);
    Field32(holed, 3328, 128, 40);
    var dir, file: Inode := Image(holed)[3200..3328], Image(holed)[3328..3456];
    forall b: nat | 2 <= b < DIRECT_BLOCKS ensures Pointer(dir, b) == 0 {
      Field32(holed, 3200, 128, 40 + 4 * b);
    }
    forall b: nat | 1 <= b < DIRECT_BLOCKS ensures Pointer(file, b) == 0 {
      Field32(holed, 3328, 128, 40 + 4 * b);
    }
  }

  lemma DirectoryBlock(holed: bool)
    ensures RecordBytes([TheRecord()]) == Image(holed)[4096..5120]
  {
    var r := TheRecord();
    assert RecordBytes([r]) == r.Bytes() + RecordBytes([]);
    assert Enc32(3) == [3, 0, 0, 0] && Enc16(1024) == [0, 4];
    assert r.Bytes() == [3, 0, 0, 0, 0, 4, 1, 1, 97] + r.pad;
  }

  lemma RootIsDirectory(holed: bool)
    ensures SuperFits(Image(holed), SuperOf(Image(holed)))
    ensures var v := VolumeOf(Image(holed));
            WellFormed(v) && IsInode(v, ROOT_INO) && IsDirectory(v, InodeOf(v, ROOT_INO), Root(holed))
  {
    Mountable(holed);
    Inodes(holed);
    Fields(holed);
    DirectoryBlock(holed);
    hide SuperFits, Image, WellFormed, InodeOf, Pointer, SectorCount, SizeLo, RecordBytes, TheRecord;
    var v := VolumeOf(Image(holed));
    var dir := InodeOf(v, ROOT_INO);
    var blocks := Root(holed);
    forall b: nat | b < DIRECT_BLOCKS
      ensures if b < |blocks| then HoldsRecords(v, Pointer(dir, b), blocks[b]) else Pointer(dir, b) == 0
    {
    }
  }

  lemma FileContents(holed: bool)
    ensures SuperFits(Image(holed), SuperOf(Image(holed)))
    ensures var v := VolumeOf(Image(holed));
            WellFormed(v) && IsInode(v, 3) && IsFile(v, InodeOf(v, 3), [42])
  {
    Mountable(holed);
    Inodes(holed);
    Fields(holed);
    FileByteOf(holed);
    hide SuperFits, Image, ImageByte, WellFormed, InodeOf, Pointer, SizeLo, Le32;
    var v := VolumeOf(Image(holed));
    var file := InodeOf(v, 3);
    FirstByte(v, file, 5);
    assert StartOf(5, 1024) == 5120;
  }

  lemma FileByteOf(holed: bool)
    ensures Image(holed)[5120] == 42
  {
  }

  lemma FirstByte(v: Volume, file: Inode, block: U32)
    requires v.blockSize == 1024 && PointersFit(v, file) && SizeLo(file) == 1
    requires Pointer(file, 0) == block != 0
    ensures StartOf(block, 1024) < |v.image| && IsFile(v, file, [v.image[StartOf(block, 1024)]])
  {
    hide SizeLo, Pointer;
    assert Div(0, 1024) == 0 && Mod(0, 1024) == 0;
    assert FileSlice(v, file, 0, 1) == FileSlice(v, file, 0, 0) + [FileByte(v, file, 0)];
  }

  /** Everything `Loader.MountAndLoad` asks of an image holds. */
  lemma SampleEncodes(holed: bool)
    ensures Magic(SuperOf(Image(holed))) == SUPER_MAGIC && SuperFits(Image(holed), SuperOf(Image(holed)))
    ensures Encodes(VolumeOf(Image(holed)), Root(holed), FILES)
    ensures forall reach: nat, direct: nat :: Readable(FILES, reach, [97], direct, 1)
  {
    Mountable(holed);
    Inodes(holed);
    RootIsDirectory(holed);
    FileContents(holed);
    hide SuperFits, Image, WellFormed, InodeOf, IsDirectory, IsFile;
    TheEntries(holed);
  }

  lemma TheEntries(holed: bool)
    ensures LiveIn(Root(holed)) == [Entry([97], 3)]
    ensures FirstNamed(FileNames(FILES), [97]) == Some(0)
  {
    hide TheRecord;
    var r := TheRecord();
    assert Live([r]) == [Entry([97], 3)] + Live([]);
    assert LiveIn([[r]]) == Live([r]) + LiveIn([]);
    assert LiveIn([[], [r]]) == Live([]) + LiveIn([[r]]);
    assert FileNames(FILES)[0] == [97];
  }

  /** The file is the first of its name in the directory, and a load misses it exactly when the
      directory has the hole. */
  lemma HoleHidesFile(holed: bool)
    ensures SuperFits(Image(holed), SuperOf(Image(holed))) && Encodes(VolumeOf(Image(holed)), Root(holed), FILES)
    ensures FirstNamed(FileNames(FILES), [97]) == Some(0)
    ensures Reach(VolumeOf(Image(holed)), Root(holed)) == if holed then 0 else |FILES|
    ensures Accounted(InodeOf(VolumeOf(Image(holed)), ROOT_INO), 1024, |Root(holed)|)
  {
    SampleEncodes(holed);
    TheEntries(holed);
    Mountable(holed);
    Inodes(holed);
    Fields(holed);
    hide SuperFits, Encodes, Image, WellFormed, InodeOf, Pointer, SectorCount, SizeLo, VolumeOf, TheRecord, FirstNamed;
    var dir := InodeOf(VolumeOf(Image(holed)), ROOT_INO);
    SeenOfRoot(dir, holed);
    assert Allocated(dir, 1) == Allocated(dir, 0) + if holed then 0 else 1;
    assert Allocated(dir, 2) == Allocated(dir, 1) + if holed then 1 else 0;
  }

  lemma SeenOfRoot(dir: Inode, holed: bool)
    requires SectorCount(dir) == 2
    ensures |LiveIn(Reached(dir, 1024, Root(holed)))| == if holed then 0 else 1
  {
    hide SectorCount, TheRecord;
    TheEntries(false);
    assert Div(2, 2) == 1;
    assert Reached(dir, 1024, Root(holed)) == if holed then [[]] else Root(false);
    assert LiveIn([[]]) == Live([]) + LiveIn([]);
  }
}
