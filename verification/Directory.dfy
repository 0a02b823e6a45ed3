/** Directories as linked lists of records ("Linked List Directory" in the ext2 layout), and the walk
    of `ext2_read_dir` over them. */
module Directory {
  import opened Words
  import opened Ext2Format

  // ---------------------------------------------------------------- the layout

  /** A name as long as the one length byte of a record allows. */
  type Name = s: seq<Byte> | |s| < 0x100 witness []

  /** A directory record: its length covers the header, the name and whatever fills it up. */
  datatype Record = Record(inode: U32, name: Name, fileType: Byte, pad: seq<Byte>) {
    function Length(): nat {
      8 + |name| + |pad|
    }

    predicate WellFormed() {
      Length() < 0x1_0000
    }

    function Bytes(): (s: seq<Byte>)
      requires WellFormed()
      ensures |s| == Length()
    {
      Enc32(inode) + Enc16(Length()) + [|name|, fileType] + name + pad
    }
  }

  predicate AllWellFormed(records: seq<Record>) {
    forall i | 0 <= i < |records| :: records[i].WellFormed()
  }

  function RecordBytes(records: seq<Record>): seq<Byte>
    requires AllWellFormed(records)
  {
    if records == [] then [] else records[0].Bytes() + RecordBytes(records[1..])
  }

  /** A directory entry in use. */
  datatype Entry = Entry(name: Name, inode: U32)

  /** The entries in use, in record order. */
  function Live(records: seq<Record>): (entries: seq<Entry>)
    ensures forall i | 0 <= i < |entries| :: entries[i].inode != 0
  {
    if records == [] then []
    else if records[0].inode == 0 then Live(records[1..])
    else [Entry(records[0].name, records[0].inode)] + Live(records[1..])
  }

  function LiveIn(blocks: seq<seq<Record>>): (entries: seq<Entry>)
    ensures forall i | 0 <= i < |entries| :: entries[i].inode != 0
  {
    if blocks == [] then [] else Live(blocks[0]) + LiveIn(blocks[1..])
  }

  /** A record is left out for inode number 0 and for nothing else, and every other gives its own name
      and inode number. */
  lemma LiveSingle(r: Record)
    ensures Live([r]) == if r.inode != 0 then [Entry(r.name, r.inode)] else []
    ensures Live([]) == [] && LiveIn([]) == []
  {
    assert [r][1..] == [];
  }

  /** The records of a block, and the blocks of a directory, are gone through one after the other. */
  lemma {:induction false} LiveConcat(a: seq<Record>, b: seq<Record>)
    ensures Live(a + b) == Live(a) + Live(b)
    ensures LiveIn([a]) == Live(a)
    decreases a
  {
    assert [a][1..] == [];
    if a == [] {
      assert a + b == b;
    } else {
      LiveConcat(a[1..], b);
      assert (a + b)[1..] == a[1..] + b;
    }
  }

  lemma {:induction false} LiveInConcat(a: seq<seq<Record>>, b: seq<seq<Record>>)
    ensures LiveIn(a + b) == LiveIn(a) + LiveIn(b)
    decreases a
  {
    hide Live;
    if a == [] {
      assert a + b == b;
    } else {
      LiveInConcat(a[1..], b);
      assert (a + b)[1..] == a[1..] + b;
    }
  }

  /** Direct block `b` of a directory holds these records: they tile it exactly, and a hole holds none. */
  ghost predicate HoldsRecords(v: Volume, pointer: U32, records: seq<Record>) {
    && AllWellFormed(records)
    && if pointer == 0 then records == []
       else |RecordBytes(records)| == v.blockSize && At(v.image, StartOf(pointer, v.blockSize), RecordBytes(records))
  }

  /** `blocks` is the directory an inode stands for: as many blocks as its size says, the first 12 of
      them behind the direct pointers. Those behind the indirect ones hold any records. */
  ghost predicate IsDirectory(v: Volume, dir: Inode, blocks: seq<seq<Record>>) {
    && v.blockSize >= 512 && |v.image| < 0x1_0000_0000
    && SizeLo(dir) == StartOf(|blocks|, v.blockSize)
    && forall b: nat | b < DIRECT_BLOCKS ::
         if b < |blocks| then HoldsRecords(v, Pointer(dir, b), blocks[b]) else Pointer(dir, b) == 0
  }

  // ---------------------------------------------------------------- how far the walk gets

  /** `i_blocks / (block_size / 512)`, of which the walk takes the first 12 */
  function WalkLimit(dir: Inode, blockSize: nat): nat
    requires blockSize >= 512
  {
    Min(DIRECT_BLOCKS, Div(SectorCount(dir), blockSize / 512))
  }

  /** The part of a directory the walk gets to see. */
  function Reached(dir: Inode, blockSize: nat, blocks: seq<seq<Record>>): (r: seq<seq<Record>>)
    requires blockSize >= 512
    ensures r <= blocks
  {
    blocks[..Min(|blocks|, WalkLimit(dir, blockSize))]
  }

  /** Block `b` is seen if it is there, is one of the first 12, and the sectors up to its end are within
      `i_blocks`. */
  lemma ReachedBlocks(dir: Inode, blockSize: nat, blocks: seq<seq<Record>>, b: nat)
    requires blockSize >= 512
    ensures b < |Reached(dir, blockSize, blocks)| <==>
              b < |blocks| && b < 12 && (b + 1) * (blockSize / 512) <= SectorCount(dir)
  {
    hide SectorCount, Div, Mod;
    var n, d := SectorCount(dir), blockSize / 512;
    DivMod(n, d);
    var q := Div(n, d);
    if b + 1 <= q {
      MulMono(b + 1, q, d);
    } else {
      MulMono(q + 1, b + 1, d);
      MulSum(q, 1, d);
    }
  }

  ghost predicate NoHoles(dir: Inode, n: nat) {
    forall b: nat | b < n && b < DIRECT_BLOCKS :: Pointer(dir, b) != 0
  }

  /** How many of the first `n` direct pointers lead to a block. */
  function Allocated(dir: Inode, n: nat): (k: nat)
    requires n <= DIRECT_BLOCKS
    ensures k <= n
    ensures k == n <==> NoHoles(dir, n)
  {
    if n == 0 then 0
    else
      assert NoHoles(dir, n) <==> NoHoles(dir, n - 1) && Pointer(dir, n - 1) != 0;
      Allocated(dir, n - 1) + if Pointer(dir, n - 1) == 0 then 0 else 1
  }

  /** The sector count is that of the blocks in use, as long as the direct ones are all there is. */
  ghost predicate Accounted(dir: Inode, blockSize: nat, n: nat) {
    n <= DIRECT_BLOCKS ==> SectorCount(dir) == Allocated(dir, n) * (blockSize / 512)
  }

  /** The walk counts blocks in use but steps over holes, so it sees the whole of a directory exactly
      when there are no holes and at most 12 blocks. */
  lemma WholeIffNoHoles(v: Volume, dir: Inode, blocks: seq<seq<Record>>)
    requires IsDirectory(v, dir, blocks) && Accounted(dir, v.blockSize, |blocks|)
    ensures Reached(dir, v.blockSize, blocks) == blocks <==> |blocks| <= DIRECT_BLOCKS && NoHoles(dir, |blocks|)
  {
    if |blocks| <= DIRECT_BLOCKS {
      DivModIs(Allocated(dir, |blocks|), v.blockSize / 512, 0);
    }
  }

  /** Whatever the sector count, the entries seen are a prefix of the entries there are; they are all
      of them exactly when no later block holds one. */
  lemma ReachedEntries(dir: Inode, blockSize: nat, blocks: seq<seq<Record>>)
    requires blockSize >= 512
    ensures var seen := Reached(dir, blockSize, blocks);
            && LiveIn(seen) <= LiveIn(blocks)
            && (LiveIn(seen) == LiveIn(blocks) <==> forall b | |seen| <= b < |blocks| :: Live(blocks[b]) == [])
  {
    var seen := Reached(dir, blockSize, blocks);
    var rest := blocks[|seen|..];
    LiveInConcat(seen, rest);
    assert blocks == seen + rest;
    NoneLive(rest);
    assert forall b | |seen| <= b < |blocks| :: blocks[b] == rest[b - |seen|];
    assert forall b | 0 <= b < |rest| :: rest[b] == blocks[b + |seen|];
  }

  lemma {:induction false} NoneLive(blocks: seq<seq<Record>>)
    ensures LiveIn(blocks) == [] <==> forall b | 0 <= b < |blocks| :: Live(blocks[b]) == []
    decreases blocks
  {
    if blocks != [] {
      NoneLive(blocks[1..]);
    }
  }

  // ---------------------------------------------------------------- the callback

  /** What a callback is given: the name in a zeroed 256-byte buffer, and the inode number. */
  datatype CallArgs = CallArgs(name: seq<Byte>, inode: U32)

  function NameBuffer(name: Name): (b: seq<Byte>)
    ensures |b| == 0x100 && 0 in b
    ensures forall k | 0 <= k < 0x100 :: b[k] == if k < |name| then name[k] else 0
  {
    var b := name + seq(0x100 - |name|, _ => 0);
    assert b[0xFF] == 0;
    b
  }

  function ArgsOf(e: Entry): CallArgs {
    CallArgs(NameBuffer(e.name), e.inode)
  }

  /** Calling `cb` on each entry in turn, up to and including the first on which it returns false. */
  function Visit<C>(cb: (C, CallArgs) -> (C, bool), ctx: C, entries: seq<Entry>): (C, bool)
    decreases entries
  {
    if entries == [] then (ctx, true)
    else
      var (next, go) := cb(ctx, ArgsOf(entries[0]));
      if go then Visit(cb, next, entries[1..]) else (next, false)
  }

  lemma {:induction false} VisitConcat<C>(cb: (C, CallArgs) -> (C, bool), ctx: C, a: seq<Entry>, b: seq<Entry>)
    ensures var (mid, go) := Visit(cb, ctx, a);
            Visit(cb, ctx, a + b) == if go then Visit(cb, mid, b) else (mid, false)
    decreases a
  {
    if a == [] {
      assert a + b == b;
    } else {
      assert (a + b)[1..] == a[1..] + b;
      VisitConcat(cb, cb(ctx, ArgsOf(a[0])).0, a[1..], b);
    }
  }

  /** A callback that keeps a record of its calls. */
  function Recording(keep: CallArgs -> bool): (seq<CallArgs>, CallArgs) -> (seq<CallArgs>, bool) {
    (calls: seq<CallArgs>, c: CallArgs) => (calls + [c], keep(c))
  }

  function CallsFor(entries: seq<Entry>): seq<CallArgs> {
    seq(|entries|, i requires 0 <= i < |entries| => ArgsOf(entries[i]))
  }

  /** The calls made are those for the entries up to and including the first that is not kept. */
  lemma {:induction false} CallsMade(keep: CallArgs -> bool, calls: seq<CallArgs>, entries: seq<Entry>, n: nat)
    requires n <= |entries|
    requires forall i | 0 <= i < n :: keep(ArgsOf(entries[i]))
    requires n < |entries| ==> !keep(ArgsOf(entries[n]))
    ensures Visit(Recording(keep), calls, entries)
            == (calls + CallsFor(entries[..if n < |entries| then n + 1 else n]), n == |entries|)
    decreases entries
  {
    if entries == [] {
      assert calls + CallsFor(entries[..0]) == calls;
    } else {
      var first := ArgsOf(entries[0]);
      assert Recording(keep)(calls, first) == (calls + [first], keep(first));
      if n > 0 {
        CallsMade(keep, calls + [first], entries[1..], n - 1);
        var m := if n < |entries| then n + 1 else n;
        assert calls + [first] + CallsFor(entries[1..][..m - 1]) == calls + CallsFor(entries[..m]);
      } else {
        assert CallsFor(entries[..1]) == [first];
      }
    }
  }

  // ---------------------------------------------------------------- the walk

  lemma RecordAt(image: seq<Byte>, at: nat, r: Record)
    requires r.WellFormed() && At(image, at, r.Bytes())
    ensures at + 8 + |r.name| <= |image|
    ensures Le32(image, at) == r.inode && Le16(image, at + 4) == r.Length() && image[at + 6] == |r.name|
    ensures image[at + 8..at + 8 + |r.name|] == r.name
  {
    var header := Enc32(r.inode) + Enc16(r.Length()) + [|r.name|, r.fileType];
    assert r.Bytes() == header + r.name + r.pad;
    AtSplit(image, at, header + r.name, r.pad);
    AtSplit(image, at, header, r.name);
    AtSplit(image, at, Enc32(r.inode) + Enc16(r.Length()), [|r.name|, r.fileType]);
    AtSplit(image, at, Enc32(r.inode), Enc16(r.Length()));
    WordAt(image, at, r.inode);
    FieldInside(image, at + 4, Enc16(r.Length()), 0);
    assert image[at + 6..at + 8][0] == |r.name|;
  }

  /** The inner loop of `ext2_read_dir`, over one block. */
  method WalkBlock<C>(image: seq<Byte>, block: nat, blockSize: nat, cb: (C, CallArgs) -> (C, bool), ctx: C,
                      ghost records: seq<Record>)
    returns (c: C, go: bool)
    requires AllWellFormed(records) && |RecordBytes(records)| == blockSize && At(image, block, RecordBytes(records))
    ensures (c, go) == Visit(cb, ctx, Live(records))
  {
    hide Record.Bytes, Le32, Le16, At, NameBuffer;
    c, go := ctx, true;
    var offset := 0;
    ghost var left := records;
    while offset < blockSize
      invariant AllWellFormed(left) && offset + |RecordBytes(left)| == blockSize
      invariant offset >= 0 && At(image, block + offset, RecordBytes(left))
      invariant go && Visit(cb, ctx, Live(records)) == Visit(cb, c, Live(left))
      decreases blockSize - offset
    {
      var at := block + offset;
      ghost var r := left[0];
      AtSplit(image, at, r.Bytes(), RecordBytes(left[1..]));
      RecordAt(image, at, r);
      var inode := Le32(image, at);
      if inode != 0 {
        var name := NameBuffer(image[at + 8..at + 8 + image[at + 6]]);
        var next := cb(c, CallArgs(name, inode));
        c, go := next.0, next.1;
        if !go {
          return;
        }
      }
      var recLen := Le16(image, at + 4);
      if recLen == 0 {
        break;
      }
      offset := offset + recLen;
      left := left[1..];
    }
    assert left == [];
  }

  /** On every directory the walk ends, having called back with exactly the live entries of the part
      it reaches, in block and record order, up to and including the first refusal. */
  method ReadDir<C>(image: seq<Byte>, blockSize: U32, dir: Inode, cb: (C, CallArgs) -> (C, bool), ctx: C,
                    ghost v: Volume, ghost blocks: seq<seq<Record>>) returns (c: C)
    requires image == v.image && blockSize == v.blockSize && IsDirectory(v, dir, blocks)
    ensures c == Visit(cb, ctx, LiveIn(Reached(dir, blockSize, blocks))).0
  {
    hide At, Live, Visit, RecordBytes, AllWellFormed, Pointer, StartOf;
    c := ctx;
    ghost var seen := Reached(dir, blockSize, blocks);
    var count := Div(SectorCount(dir), blockSize / 512);
    var b := 0;
    while b < DIRECT_BLOCKS && b < count
      invariant 0 <= b
      invariant Visit(cb, ctx, LiveIn(seen)) == Visit(cb, c, LiveIn(seen[Min(b, |seen|)..]))
    {
      if b < |seen| {
        assert seen[b..][1..] == seen[b + 1..];
        VisitConcat(cb, c, Live(seen[b]), LiveIn(seen[b + 1..]));
      }
      if Pointer(dir, b) == 0 {
        NoEntries(cb, c);
      } else {
        BlockInImage(v, Pointer(dir, b), blocks[b]);
        var start := Wrap32(StartOf(Pointer(dir, b), blockSize));
        var go;
        c, go := WalkBlock(image, start, blockSize, cb, c, blocks[b]);
        if !go {
          return;
        }
      }
      b := b + 1;
    }
    NoEntries(cb, c);
  }

  /** The 32-bit product of pointer and block size does not wrap. */
  lemma BlockInImage(v: Volume, pointer: U32, records: seq<Record>)
    requires HoldsRecords(v, pointer, records) && pointer != 0 && |v.image| < 0x1_0000_0000
    ensures Wrap32(StartOf(pointer, v.blockSize)) == StartOf(pointer, v.blockSize)
  {
  }

  lemma NoEntries<C>(cb: (C, CallArgs) -> (C, bool), ctx: C)
    ensures Live([]) == []
    ensures Visit(cb, ctx, []) == (ctx, true)
  {
  }
}
