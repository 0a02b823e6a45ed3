/** The ext2 reader of source/system/filesystem/ext2/ext2.c. The managed memory the allocator hands
    out is `ram`, whose byte `k` has address `start + k`. */
module Ext2 {
  import opened Words
  import opened PhysicalMemory
  import opened AllocatorClients
  import opened Ext2Format

  // ---------------------------------------------------------------- memory

  ghost predicate Managed(alloc: Allocator, ram: array<Byte>)
    reads alloc
  {
    && alloc.Valid()
    && alloc.bitmap as object != ram as object
    && ram.Length == alloc.sectors * 8192
    && 0 < alloc.start && alloc.start + ram.Length <= 0x1_0000_0000
  }

  /** The number of sectors that hold `size` bytes, and at least one. */
  ghost predicate SectorsFor(size: nat, n: nat) {
    n >= 1 && size <= n * 8192 && (n == 1 || (n - 1) * 8192 < size)
  }

  /** There is one such number, `max(1, ceil(size / 8192))`. */
  lemma SectorsNeeded(size: nat, n: nat)
    ensures SectorsFor(size, n) <==> n == if size == 0 then 1 else (size + 8191) / 8192
  {
  }

  /** The scan that `kpmalloc` starts for `size` bytes stays in the bitmap. */
  ghost predicate CanScan(free: set<nat>, sectors: nat, size: nat) {
    forall n | SectorsFor(size, n) :: StaysInBitmap(free, sectors, n)
  }

  /** `kpmalloc`; within 8 KiB of 4 GiB the source's loop would not end. */
  method Kpmalloc(alloc: Allocator, size: U32) returns (addr: U32, ghost n: nat, ghost got: Option<nat>)
    requires alloc.Valid() && size <= 0x1_0000_0000 - PMM_SECTOR_SIZE
    requires CanScan(alloc.Free(), alloc.sectors, size)
    modifies alloc.bitmap
    ensures SectorsFor(size, n) && got == FirstFit(old(alloc.Free()), alloc.sectors, n)
    ensures got.None? ==> addr == 0 && alloc.bitmap[..] == old(alloc.bitmap[..])
    ensures got.Some? ==> addr == AddressAt(alloc.start, got.value)
                          && alloc.bitmap[..] == ClearedRun(old(alloc.bitmap[..]), got.value, n)
  {
    hide ClearedRun, FirstFit, Run, FreeSet, AddressAt;
    var numSect: nat := 1;
    while Wrap32(numSect * 8192) < size
      invariant 1 <= numSect && (numSect == 1 || (numSect - 1) * 8192 < size)
      invariant numSect * 8192 < 0x1_0000_0000
      decreases 0x1_0000_0000 - numSect
    {
      numSect := numSect + 1;
    }
    n := numSect;
    addr, got := alloc.AllocSectors(numSect);
  }

  method Kpmemcpy(dst: array<Byte>, at: nat, src: seq<Byte>)
    requires at + |src| <= dst.Length
    modifies dst
    ensures dst[at..at + |src|] == src
    ensures forall k | 0 <= k < dst.Length && !(at <= k < at + |src|) :: dst[k] == old(dst[k])
  {
    for i := 0 to |src|
      invariant forall k | 0 <= k < dst.Length ::
                  dst[k] == if at <= k < at + i then src[k - at] else old(dst[k])
    {
      dst[at + i] := src[i];
    }
  }

  method Kpmemset(dst: array<Byte>, at: nat, v: Byte, size: nat)
    requires at + size <= dst.Length
    modifies dst
    ensures forall k | 0 <= k < dst.Length :: dst[k] == if at <= k < at + size then v else old(dst[k])
  {
    for i := 0 to size
      invariant forall k | 0 <= k < dst.Length ::
                  dst[k] == if at <= k < at + i then v else old(dst[k])
    {
      dst[at + i] := v;
    }
  }

  /** Sectors `i` to `i + n` became one more live region, and only bytes of theirs were written, none
      of which had an owner. */
  ghost predicate Placed(live: seq<set<nat>>, i: nat, n: nat, bitmapBefore: seq<bv8>, bitmap: seq<bv8>,
                         ramBefore: seq<Byte>, ram: seq<Byte>)
  {
    && i + n <= 8 * |bitmapBefore| && bitmap == ClearedRun(bitmapBefore, i, n)
    && Partition(FreeSet(bitmap), live + [Run(i, n)])
    && |ram| == |ramBefore|
    && forall k: nat | k < |ram| && ram[k] != ramBefore[k] :: k / 8192 in Run(i, n) && !HasOwner(live, k / 8192)
  }

  // ---------------------------------------------------------------- the mounted filesystem

  class FileSystem {
    var sb: Super
    var blockSize: U32
    var bgdt: U32
    var image: seq<Byte>

    constructor ()
    {
      sb, blockSize, bgdt, image := seq(SUPER_SIZE, _ => 0), 0, 0, [];
    }

    /** The reader's state is exactly volume `v`: its copies and the table it keeps in `ram`. */
    ghost predicate Holds(v: Volume, start: U32, ram: array<Byte>)
      reads this, ram
    {
      && v.image == image && v.sb == sb && v.blockSize == blockSize
      && start <= bgdt && bgdt - start + |v.descs| <= ram.Length
      && ram[bgdt - start..bgdt - start + |v.descs|] == v.descs
    }

    /** `ext2_mount` succeeds exactly on the right magic number and a free run for the table. Among
        clients that own `live`, the run becomes one more region, and theirs are not written to; a
        mount that fails for want of memory finds every place for the table in somebody's hands. */
    method Mount(data: seq<Byte>, alloc: Allocator, ram: array<Byte>, ghost live: seq<set<nat>>)
      returns (ok: bool, ghost n: nat, ghost got: Option<nat>)
      requires Managed(alloc, ram) && Partition(alloc.Free(), live)
      requires SUPER_OFFSET + SUPER_SIZE <= |data|
      requires Magic(SuperOf(data)) == SUPER_MAGIC ==>
                 SuperFits(data, SuperOf(data)) && CanScan(alloc.Free(), alloc.sectors, Groups(SuperOf(data)) * 32)
      modifies this, alloc.bitmap, ram
      ensures Managed(alloc, ram)
      ensures Magic(SuperOf(data)) == SUPER_MAGIC ==>
                && SectorsFor(Groups(SuperOf(data)) * 32, n)
                && got == FirstFit(old(alloc.Free()), alloc.sectors, n)
      ensures ok == (Magic(SuperOf(data)) == SUPER_MAGIC && got.Some?)
      ensures !ok ==> alloc.bitmap[..] == old(alloc.bitmap[..]) && ram[..] == old(ram[..])
      ensures !ok && Magic(SuperOf(data)) == SUPER_MAGIC ==>
                forall i: nat | i + n <= alloc.sectors :: MeetsOwner(live, i, n)
      ensures ok ==>
                && LogBlockSize(SuperOf(data)) < 7
                && blockSize == [1024, 2048, 4096, 8192, 16384, 32768, 65536][LogBlockSize(SuperOf(data))]
                && Holds(VolumeOf(data), alloc.start, ram)
                && Placed(live, got.value, n, old(alloc.bitmap[..]), alloc.bitmap[..], old(ram[..]), ram[..])
    {
      hide SuperFits, SectorsFor, DescTable, Magic, Partition, HasOwner, Placed, MeetsOwner, CanScan;
      hide Groups, DescOffset, BlockSize, LogBlockSize, FirstFit, Run, FreeSet;
      n, got := 0, None;
      image := data;
      sb := data[SUPER_OFFSET..SUPER_OFFSET + SUPER_SIZE];
      assert sb == SuperOf(data);
      if Magic(sb) != SUPER_MAGIC {
        return false, n, got;
      }
      TableInImage(data, sb);
      SupportedSize(data, sb);
      blockSize := BlockSize(LogBlockSize(sb));
      var offset := DescOffset(blockSize);
      var groups := Groups(sb);
      var table := data[offset..offset + groups * 32];
      ok, n, got := LoadTable(table, alloc, ram, live);
    }

    /** Step 3 of `ext2_mount`: room for the descriptor table, and its copy. */
    method LoadTable(table: seq<Byte>, alloc: Allocator, ram: array<Byte>, ghost live: seq<set<nat>>)
      returns (ok: bool, ghost n: nat, ghost got: Option<nat>)
      requires Managed(alloc, ram) && Partition(alloc.Free(), live) && CanScan(alloc.Free(), alloc.sectors, |table|)
      requires |table| <= 0x1_0000_0000 - PMM_SECTOR_SIZE
      modifies this`bgdt, alloc.bitmap, ram
      ensures Managed(alloc, ram)
      ensures SectorsFor(|table|, n) && got == FirstFit(old(alloc.Free()), alloc.sectors, n) && ok == got.Some?
      ensures !ok ==> alloc.bitmap[..] == old(alloc.bitmap[..]) && ram[..] == old(ram[..])
      ensures !ok ==> forall i: nat | i + n <= alloc.sectors :: MeetsOwner(live, i, n)
      ensures ok ==>
                && Placed(live, got.value, n, old(alloc.bitmap[..]), alloc.bitmap[..], old(ram[..]), ram[..])
                && alloc.start <= bgdt && bgdt - alloc.start + |table| <= ram.Length
                && ram[bgdt - alloc.start..bgdt - alloc.start + |table|] == table
    {
      hide ClearedRun, FirstFit, Run, Partition, HasOwner, FreeSet;
      ghost var was := alloc.bitmap[..];
      bgdt, n, got := Kpmalloc(alloc, |table|);
      RunAvoidsLive(was, live, alloc.sectors, n);
      if got.Some? {
        RegionInRam(alloc, ram, got.value, n, |table|);
      }
      if bgdt == 0 {
        return false, n, got;
      }
      Kpmemcpy(ram, bgdt - alloc.start, table);
      return true, n, got;
    }

    // ---------------------------------------------------------------- inodes

    /** `ext2_read_inode` copies the 128 bytes the layout gives the inode; number 0 is refused. */
    method ReadInode(ino: U32, start: U32, ram: array<Byte>, ghost v: Volume) returns (ok: bool, inode: Inode)
      requires Holds(v, start, ram) && WellFormed(v)
      requires ino == 0 || IsInode(v, ino)
      ensures ok == (ino != 0)
      ensures ok ==> inode == InodeOf(v, ino)
    {
      if ino == 0 {
        return false, seq(INODE_SIZE, _ => 0);
      }
      hide Div, Mod, WellFormed, StartOf, InodeOffset, ComputedOffset, TableBlock;
      InodesHaveTables(v, ino);
      var group := Div(ino - 1, InodesPerGroup(sb));
      var index := Mod(ino - 1, InodesPerGroup(sb));
      var table := ReadDescriptor(group, start, ram, v);
      InodeLocationExact(v, ino);
      InodeFits(v, ino);
      var offset := ComputedOffset(table, index, blockSize);
      return true, image[offset..offset + INODE_SIZE];
    }

    /** `fs->bgdt[group].bg_inode_table` */
    method ReadDescriptor(group: nat, start: U32, ram: array<Byte>, ghost v: Volume) returns (table: U32)
      requires Holds(v, start, ram) && 32 * group + 32 <= |v.descs|
      ensures table == TableBlock(v, group)
    {
      hide Le32;
      FieldInside(ram[..], bgdt - start, v.descs, 32 * group + 8);
      table := Le32(ram[..], bgdt - start + (32 * group + 8));
    }

    // ---------------------------------------------------------------- file contents

    /** The source reads block by block; `v` is the volume whose image and block size these are. */
    ghost predicate Reads(v: Volume)
      reads this
    {
      image == v.image && blockSize == v.blockSize > 0
    }

    /** One turn of the loop of `ext2_read_file`: from place `copyOffset` of block `b`, at most up to
        the end of the block and of the request. It extends what is read of the flat file. */
    method ReadBlock(inode: Inode, b: nat, copyOffset: nat, out: array<Byte>, bytesRead: nat, bufLen: nat,
                     ghost v: Volume, ghost offset: nat)
      returns (n: nat)
      requires Reads(v) && PointersFit(v, inode)
      requires b < DIRECT_BLOCKS && copyOffset < blockSize
      requires offset + bytesRead == StartOf(b, blockSize) + copyOffset
      requires StartOf(b, blockSize) + blockSize <= StartOf(DIRECT_BLOCKS, blockSize)
      requires bytesRead < bufLen && bytesRead + Min(blockSize - copyOffset, bufLen - bytesRead) <= out.Length
      requires out[..bytesRead] == FileSlice(v, inode, offset, bytesRead)
      modifies out
      ensures n == Min(blockSize - copyOffset, bufLen - bytesRead) > 0
      ensures out[..bytesRead + n] == FileSlice(v, inode, offset, bytesRead + n)
      ensures forall k | bytesRead + n <= k < out.Length :: out[k] == old(out[k])
    {
      hide StartOf, FileSlice, Pointer, PointersFit, Wrap32;
      n := blockSize - copyOffset;
      if bytesRead + n > bufLen {
        n := bufLen - bytesRead;
      }
      BlockSlice(v, inode, b, copyOffset, n);
      SlicesConcatenate(v, inode, offset, bytesRead, n);
      ghost var before := out[..bytesRead];
      if Pointer(inode, b) == 0 {
        Kpmemset(out, bytesRead, 0, n);
      } else {
        BlockFits(v, inode, b);
        var block := Wrap32(StartOf(Pointer(inode, b), blockSize));
        Kpmemcpy(out, bytesRead, image[block + copyOffset..block + copyOffset + n]);
      }
      assert out[..bytesRead] == before;
      assert out[..bytesRead + n] == before + out[bytesRead..bytesRead + n];
    }

    /** `ext2_read_file` */
    method ReadFile(inode: Option<Inode>, out: array?<Byte>, bufLen: nat, offset: nat, ghost v: Volume)
      returns (bytesRead: nat)
      requires inode.Some? && out != null ==>
                 && Reads(v) && PointersFit(v, inode.value)
                 && offset + bufLen < 0x1_0000_0000
                 && ReadLength(v, inode.value, offset, bufLen) <= out.Length
      modifies if out == null then {} else {out}
      ensures inode.None? || out == null ==> bytesRead == 0
      ensures inode.Some? && out != null ==>
                && bytesRead == ReadLength(v, inode.value, offset, bufLen)
                && out[..bytesRead] == ReadResult(v, inode.value, offset, bufLen)
                && out[bytesRead..] == old(out[bytesRead..])
    {
      if inode.None? || out == null {
        return 0;
      }
      var node, size := inode.value, SizeLo(inode.value);
      if offset >= size {
        return 0;
      }
      var len := bufLen;
      if offset + len > size {
        len := size - offset;
      }
      bytesRead := ReadBlocks(node, out, len, offset, v);
    }

    /** The loop of `ext2_read_file`, for a request cut down to the file size. */
    method ReadBlocks(inode: Inode, out: array<Byte>, len: nat, offset: nat, ghost v: Volume) returns (bytesRead: nat)
      requires Reads(v) && PointersFit(v, inode) && offset + len <= SizeLo(inode)
      requires Fetched(v, offset, len) <= out.Length
      modifies out
      ensures bytesRead == Fetched(v, offset, len)
      ensures out[..bytesRead] == FileSlice(v, inode, offset, bytesRead)
      ensures out[bytesRead..] == old(out[bytesRead..])
    {
      hide StartOf, Div, Mod, FileSlice;
      assert Wrap32(offset + len + blockSize - 1) == offset + len + blockSize - 1;
      hide PointersFit, Wrap32;
      bytesRead := 0;
      var blocksToRead := Div(Wrap32(offset + len + blockSize - 1), blockSize);
      var startBlock := Div(offset, blockSize);
      var startOffset := Mod(offset, blockSize);
      InWhichBlock(offset, blockSize);
      InWhichBlock(offset + len + blockSize - 1, blockSize);
      NextStart(blocksToRead, blockSize);
      var b := startBlock;
      while b < DIRECT_BLOCKS && b < blocksToRead && bytesRead < len
        invariant startBlock <= b && bytesRead <= Fetched(v, offset, len)
        invariant bytesRead == 0 <==> b == startBlock
        invariant bytesRead < len ==>
                    offset + bytesRead == StartOf(b, blockSize) + if b == startBlock then startOffset else 0
        invariant out[..bytesRead] == FileSlice(v, inode, offset, bytesRead)
        invariant forall k | bytesRead <= k < out.Length :: out[k] == old(out[k])
        decreases DIRECT_BLOCKS - b
      {
        NextStart(b, blockSize);
        BlockOrder(b + 1, DIRECT_BLOCKS, blockSize);
        var n := ReadBlock(inode, b, if b == startBlock then startOffset else 0, out, bytesRead, len, v, offset);
        bytesRead := bytesRead + n;
        b := b + 1;
      }
      if b >= DIRECT_BLOCKS {
        BlockOrder(DIRECT_BLOCKS, b, blockSize);
      } else if b >= blocksToRead {
        BlockOrder(blocksToRead, b, blockSize);
      }
    }
  }

  /** How much of a request lies within the direct blocks. */
  ghost function Fetched(v: Volume, offset: nat, len: nat): nat {
    Max(0, Min(offset + len, StartOf(DIRECT_BLOCKS, v.blockSize)) - offset)
  }

  /** An allocated run lies in `ram`, at an address that is not null. */
  lemma RegionInRam(alloc: Allocator, ram: array<Byte>, i: nat, n: nat, size: nat)
    requires Managed(alloc, ram) && SectorsFor(size, n) && i + n <= alloc.sectors
    ensures var addr := AddressAt(alloc.start, i);
            && addr != 0
            && addr == alloc.start + i * 8192
            && addr - alloc.start + size <= ram.Length
    ensures forall k: nat | i * 8192 <= k < i * 8192 + size :: k / 8192 in Run(i, n)
  {
  }
}
