/** The memory-map walk of source/boot/multiboot.c over the tag list of the Multiboot2 information
    structure (Multiboot2 Specification version 2.0, sections 3.6.2 and 3.6.8). */
module Multiboot {
  import opened Words

  const MAGIC: U32 := 0x36d76289
  const TAG_END: U32 := 0
  const TAG_MMAP: U32 := 6
  const MEMORY_AVAILABLE: U32 := 1

  // ---------------------------------------------------------------- the layout

  /** A memory-map entry: base address, length, type, and whatever fills it up to the stride. */
  datatype Region = Region(base: U64, length: U64, kind: U32, rest: seq<Byte>) {
    function Bytes(): seq<Byte> {
      Enc64(base) + Enc64(length) + Enc32(kind) + rest
    }
  }

  datatype Tag =
    | MemoryMap(stride: U32, version: U32, regions: seq<Region>, pad: seq<Byte>)
    | Other(kind: U32, payload: seq<Byte>, pad: seq<Byte>)
  {
    function Kind(): U32 {
      if MemoryMap? then TAG_MMAP else kind
    }

    function Body(): seq<Byte> {
      if MemoryMap? then Enc32(stride) + Enc32(version) + RegionBytes(regions) else payload
    }

    function Size(): nat {
      8 + |Body()|
    }

    /** Strides of at least 24, sizes the walk can round up in 32 bits, padding to 8 bytes. */
    predicate WellFormed() {
      && Size() + 7 < 0x1_0000_0000
      && |pad| < 8 && (Size() + |pad|) % 8 == 0
      && match this
         case MemoryMap(stride, _, regions, _) =>
           stride >= 24 && forall i | 0 <= i < |regions| :: |regions[i].Bytes()| == stride
         case Other(kind, _, _) => kind != TAG_END && kind != TAG_MMAP
    }

    function Bytes(): seq<Byte>
      requires Size() < 0x1_0000_0000
    {
      Enc32(Kind()) + Enc32(Size()) + Body() + pad
    }
  }

  /** What a list of tags has to keep to: strides from 24 on, sizes that can be rounded up, and padding. */
  lemma WellFormedTags(stride: U32, version: U32, regions: seq<Region>, kind: U32, payload: seq<Byte>, pad: seq<Byte>)
    requires |pad| < 8
    ensures var n := 16 + |RegionBytes(regions)|;
            stride >= 24 && (forall i | 0 <= i < |regions| :: |regions[i].Bytes()| == stride)
            && n < 0xFFFF_FFF9 && (n + |pad|) % 8 == 0 ==>
              MemoryMap(stride, version, regions, pad).WellFormed()
    ensures var n := 8 + |payload|;
            kind != 0 && kind != 6 && n < 0xFFFF_FFF9 && (n + |pad|) % 8 == 0 ==>
              Other(kind, payload, pad).WellFormed()
  {
    hide Region.Bytes, RegionBytes;
  }

  function RegionBytes(regions: seq<Region>): seq<Byte> {
    if regions == [] then [] else regions[0].Bytes() + RegionBytes(regions[1..])
  }

  predicate AllWellFormed(tags: seq<Tag>) {
    forall i | 0 <= i < |tags| :: tags[i].WellFormed()
  }

  /** The tags one after the other, closed by an end tag of size 8. */
  function Layout(tags: seq<Tag>): seq<Byte>
    requires AllWellFormed(tags)
  {
    if tags == [] then Enc32(TAG_END) + Enc32(8) else tags[0].Bytes() + Layout(tags[1..])
  }

  // ---------------------------------------------------------------- what the walk computes

  function AvailableIn(regions: seq<Region>): nat {
    if regions == [] then 0
    else (if regions[0].kind == MEMORY_AVAILABLE then regions[0].length else 0) + AvailableIn(regions[1..])
  }

  /** The available lengths of the first memory map, or 0 without one. */
  function Available(tags: seq<Tag>): U64 {
    if tags == [] then 0
    else if tags[0].MemoryMap? then Wrap64(AvailableIn(tags[0].regions))
    else Available(tags[1..])
  }

  /** Only regions of type 1 count, each with its whole length, and the lengths add up. */
  lemma {:induction false} AvailableAddsUp(a: seq<Region>, b: seq<Region>, r: Region)
    ensures AvailableIn(a + b) == AvailableIn(a) + AvailableIn(b)
    ensures AvailableIn([r]) == if r.kind == 1 then r.length else 0
    ensures AvailableIn([]) == 0
    decreases a
  {
    assert [r][1..] == [];
    if a == [] {
      assert a + b == b;
    } else {
      AvailableAddsUp(a[1..], b, r);
      assert (a + b)[1..] == a[1..] + b;
    }
  }

  /** Tags before the first memory map are passed over, and those after it are not looked at. */
  lemma {:induction false} FirstMapCounts(others: seq<Tag>, found: Tag, rest: seq<Tag>)
    requires found.MemoryMap? && forall i | 0 <= i < |others| :: others[i].Other?
    ensures Available(others) == 0
    ensures Available(others + [found] + rest) == AvailableIn(found.regions) % 0x1_0000_0000_0000_0000
    decreases others
  {
    var all := others + [found] + rest;
    if others == [] {
      assert all[0] == found;
    } else {
      FirstMapCounts(others[1..], found, rest);
      assert all[1..] == others[1..] + [found] + rest;
    }
  }

  /** A region in memory: base, length and type, lowest byte first. */
  lemma RegionFields(r: Region)
    ensures var s := r.Bytes();
            && |s| == 20 + |r.rest|
            && LittleEndian(s[0..8]) == r.base && LittleEndian(s[8..16]) == r.length
            && LittleEndian(s[16..20]) == r.kind
  {
    hide LittleEndian, Enc32, Enc64;
    EncodersAreLittleEndian(0, r.kind, r.base);
    EncodersAreLittleEndian(0, r.kind, r.length);
    var s := r.Bytes();
    assert s[0..8] == Enc64(r.base) && s[8..16] == Enc64(r.length) && s[16..20] == Enc32(r.kind);
  }

  /** A tag in memory: type and size, lowest byte first, and padding to 8 bytes. */
  lemma TagFields(t: Tag)
    requires t.WellFormed()
    ensures |t.Bytes()| == 8 + |t.Body()| + |t.pad| && |t.Bytes()| % 8 == 0
    ensures LittleEndian(t.Bytes()[0..4]) == if t.MemoryMap? then 6 else t.kind
    ensures LittleEndian(t.Bytes()[4..8]) == 8 + |t.Body()|
    ensures t.Bytes()[8..8 + |t.Body()|] == t.Body()
  {
    hide LittleEndian, Enc32, Tag.Body;
    EncodersAreLittleEndian(0, t.Kind(), 0);
    EncodersAreLittleEndian(0, t.Size(), 0);
    var s := t.Bytes();
    assert s[0..4] == Enc32(t.Kind()) && s[4..8] == Enc32(t.Size());
  }

  /** A memory map has its stride before its regions. */
  lemma MapFields(t: Tag)
    requires t.MemoryMap?
    ensures |t.Body()| == 8 + |RegionBytes(t.regions)|
    ensures LittleEndian(t.Body()[0..4]) == t.stride && t.Body()[8..] == RegionBytes(t.regions)
  {
    hide LittleEndian, Enc32, RegionBytes;
    EncodersAreLittleEndian(0, t.stride, 0);
    assert t.Body()[0..4] == Enc32(t.stride);
  }

  /** Regions and tags follow one another in order, with nothing in between. */
  lemma InOrder(r: Region, regions: seq<Region>, t: Tag, tags: seq<Tag>)
    requires t.WellFormed() && AllWellFormed(tags)
    ensures RegionBytes([r] + regions) == r.Bytes() + RegionBytes(regions) && RegionBytes([]) == []
    ensures AllWellFormed([t] + tags) && Layout([t] + tags) == t.Bytes() + Layout(tags)
  {
    hide Region.Bytes, Tag.Bytes, Tag.WellFormed;
    assert ([r] + regions)[1..] == regions && ([t] + tags)[1..] == tags;
  }

  /** A list of tags ends in type 0 and size 8. */
  lemma EndTag()
    ensures |Layout([])| == 8 && LittleEndian(Layout([])[0..4]) == 0 && LittleEndian(Layout([])[4..8]) == 8
  {
    hide LittleEndian, Enc32;
    EncodersAreLittleEndian(0, 0, 0);
    EncodersAreLittleEndian(0, 8, 0);
    assert Layout([])[0..4] == Enc32(0) && Layout([])[4..8] == Enc32(8);
  }

  lemma RegionAt(s: seq<Byte>, at: nat, r: Region)
    requires At(s, at, r.Bytes())
    ensures at + 20 <= |s| && Le64(s, at + 8) == r.length && Le32(s, at + 16) == r.kind
  {
    AtSplit(s, at, Enc64(r.base) + Enc64(r.length) + Enc32(r.kind), r.rest);
    AtSplit(s, at, Enc64(r.base) + Enc64(r.length), Enc32(r.kind));
    AtSplit(s, at, Enc64(r.base), Enc64(r.length));
    LongAt(s, at + 8, r.length);
    WordAt(s, at + 16, r.kind);
  }

  lemma TagAt(s: seq<Byte>, at: nat, t: Tag)
    requires t.WellFormed() && At(s, at, t.Bytes())
    ensures at + 8 <= |s| && Le32(s, at) == t.Kind() && Le32(s, at + 4) == t.Size()
    ensures At(s, at + 8, t.Body())
    ensures t.MemoryMap? ==> at + 16 <= |s| && Le32(s, at + 8) == t.stride && At(s, at + 16, RegionBytes(t.regions))
  {
    hide Tag.Body;
    AtSplit(s, at, Enc32(t.Kind()) + Enc32(t.Size()) + t.Body(), t.pad);
    AtSplit(s, at, Enc32(t.Kind()) + Enc32(t.Size()), t.Body());
    AtSplit(s, at, Enc32(t.Kind()), Enc32(t.Size()));
    WordAt(s, at, t.Kind());
    WordAt(s, at + 4, t.Size());
    if t.MemoryMap? {
      MapBody(s, at + 8, t);
    }
  }

  lemma MapBody(s: seq<Byte>, at: nat, t: Tag)
    requires t.MemoryMap? && At(s, at, t.Body())
    ensures at + 8 <= |s| && Le32(s, at) == t.stride && At(s, at + 8, RegionBytes(t.regions))
  {
    AtSplit(s, at, Enc32(t.stride) + Enc32(t.version), RegionBytes(t.regions));
    AtSplit(s, at, Enc32(t.stride), Enc32(t.version));
    WordAt(s, at, t.stride);
  }

  /** `(size + 7) & ~7`, in 32 bits */
  function RoundUp(size: U32): nat {
    Wrap32(size + 7) / 8 * 8
  }

  lemma RoundUpIsPadding(size: U32, pad: nat)
    requires size + 7 < 0x1_0000_0000 && pad < 8 && (size + pad) % 8 == 0
    ensures RoundUp(size) == size + pad
  {
  }

  lemma PaddedSize(t: Tag)
    requires t.WellFormed()
    ensures RoundUp(t.Size()) == |t.Bytes()|
  {
    RoundUpIsPadding(t.Size(), |t.pad|);
  }

  // ---------------------------------------------------------------- the walk

  /** The inner loop: the entries of one memory map, added up modulo 2^64. */
  method SumRegions(info: seq<Byte>, first: nat, end: nat, stride: U32, ghost regions: seq<Region>) returns (sum: U64)
    requires At(info, first, RegionBytes(regions)) && end == first + |RegionBytes(regions)|
    requires stride >= 24 && forall i | 0 <= i < |regions| :: |regions[i].Bytes()| == stride
    ensures sum == Wrap64(AvailableIn(regions))
  {
    hide Region.Bytes, Le32, Le64;
    sum := 0;
    var entry := first;
    ghost var left := regions;
    while entry < end
      invariant At(info, entry, RegionBytes(left)) && end == entry + |RegionBytes(left)|
      invariant forall i | 0 <= i < |left| :: |left[i].Bytes()| == stride
      invariant Wrap64(sum + AvailableIn(left)) == Wrap64(AvailableIn(regions))
      decreases end - entry
    {
      assert left != [];
      AtSplit(info, entry, left[0].Bytes(), RegionBytes(left[1..]));
      RegionAt(info, entry, left[0]);
      if Le32(info, entry + 16) == MEMORY_AVAILABLE {
        WrapTwice(sum + left[0].length, AvailableIn(left[1..]));
        sum := Wrap64(sum + Le64(info, entry + 8));
      }
      entry := entry + stride;
      left := left[1..];
    }
    assert left == [];
  }

  lemma WrapTwice(a: nat, b: nat)
    ensures Wrap64(Wrap64(a) + b) == Wrap64(a + b)
  {
  }

  /** On every well-formed tag list the walk ends and returns the available memory of the first map;
      with another magic number it returns 0. `info` is memory from the structure's address on. */
  method GetMemory(magic: U32, info: seq<Byte>, ghost tags: seq<Tag>) returns (available: U64)
    requires magic == 0x36d76289 ==> AllWellFormed(tags) && At(info, 8, Layout(tags))
    ensures available == if magic == 0x36d76289 then Available(tags) else 0
  {
    if magic != MAGIC {
      return 0;
    }
    hide Layout, AllWellFormed, At, Le32, RoundUp, Tag.Size;
    var tag: nat := 8;
    available := 0;
    ghost var left := tags;
    HeadOf(info, tag, left);
    while Le32(info, tag) != TAG_END
      invariant AllWellFormed(left) && At(info, tag, Layout(left)) && tag + 8 <= |info|
      invariant left == [] <==> Le32(info, tag) == TAG_END
      invariant Available(left) == Available(tags)
      decreases left
    {
      HeadOf(info, tag, left);
      if Le32(info, tag) == TAG_MMAP {
        available := SumRegions(info, tag + 16, tag + Le32(info, tag + 4), Le32(info, tag + 8), left[0].regions);
        return;
      }
      tag := tag + RoundUp(Le32(info, tag + 4));
      left := left[1..];
      HeadOf(info, tag, left);
    }
  }

  /** What the walk reads at a tag: the end tag is the one tag of type 0, and the rounded size leads
      to the next tag. */
  lemma HeadOf(info: seq<Byte>, tag: nat, left: seq<Tag>)
    requires AllWellFormed(left) && At(info, tag, Layout(left))
    ensures tag + 8 <= |info|
    ensures left == [] <==> Le32(info, tag) == TAG_END
    ensures left != [] ==>
              && (Le32(info, tag) == TAG_MMAP <==> left[0].MemoryMap?)
              && AllWellFormed(left[1..])
              && At(info, tag + RoundUp(Le32(info, tag + 4)), Layout(left[1..]))
    ensures left != [] && left[0].MemoryMap? ==>
              && tag + 16 <= |info|
              && Le32(info, tag + 8) == left[0].stride >= 24
              && (forall i | 0 <= i < |left[0].regions| :: |left[0].regions[i].Bytes()| == left[0].stride)
              && At(info, tag + 16, RegionBytes(left[0].regions))
              && Le32(info, tag + 4) == 16 + |RegionBytes(left[0].regions)|
  {
    hide Le32, RoundUp, Enc32, At, Tag.Bytes, Tag.Body, Tag.Size, Region.Bytes;
    if left == [] {
      AtSplit(info, tag, Enc32(TAG_END), Enc32(8));
      WordAt(info, tag, TAG_END);
      AtInside(info, tag, Layout(left));
    } else {
      AtSplit(info, tag, left[0].Bytes(), Layout(left[1..]));
      TagAt(info, tag, left[0]);
      PaddedSize(left[0]);
      MapEnd(left[0]);
    }
  }

  lemma AtInside(s: seq<Byte>, at: nat, part: seq<Byte>)
    requires At(s, at, part)
    ensures at + |part| <= |s|
  {
  }

  lemma MapEnd(t: Tag)
    requires t.WellFormed()
    ensures t.MemoryMap? ==> t.Size() == 16 + |RegionBytes(t.regions)|
  {
  }
}
