/** The physical sector allocator of source/system/memory/physical.c.

    The representation is the source's: 8192 bytes, one bit a sector, a set bit
    meaning free. The abstract view is the set of free sectors, and `SameBitmap`
    shows that the view loses nothing. */
module PhysicalMemory {
  import opened Words

  const PMM_SECTORS: nat := 65536
  const PMM_SECTOR_SIZE: nat := 8192
  const MAP_BYTES: nat := 8192

  // ---------------------------------------------------------------- bits

  /** `c & (1 << b)` */
  predicate HasBit(c: bv8, b: nat)
    requires b < 8
  {
    c & (1 << b) != 0
  }

  /** `c &= ~(1 << b)` */
  function WithoutBit(c: bv8, b: nat): bv8
    requires b < 8
  {
    c & !(1 << b)
  }

  /** `c |= (1 << b)` */
  function WithBit(c: bv8, b: nat): bv8
    requires b < 8
  {
    c | (1 << b)
  }

  lemma BitOps(c: bv8, b: nat, k: nat)
    requires b < 8 && k < 8
    ensures HasBit(WithoutBit(c, b), k) <==> HasBit(c, k) && k != b
    ensures HasBit(WithBit(c, b), k) <==> HasBit(c, k) || k == b
  {
    OneBit(b, k);
    MaskAlgebra(c, 1 << b, 1 << k);
  }

  lemma OneBit(b: nat, k: nat)
    requires b < 8 && k < 8
    ensures (1 as bv8) << b in {1, 2, 4, 8, 16, 32, 64, 128} && (1 as bv8) << k in {1, 2, 4, 8, 16, 32, 64, 128}
    ensures b != k ==> (1 as bv8) << k != (1 as bv8) << b
  {
    MaskValues();
  }

  lemma MaskAlgebra(c: bv8, p: bv8, q: bv8)
    requires p in {1, 2, 4, 8, 16, 32, 64, 128} && q in {1, 2, 4, 8, 16, 32, 64, 128}
    ensures (c & !p) & q == if p == q then 0 else c & q
    ensures (c | p) & q == if p == q then q else c & q
  {
  }

  lemma MaskValues()
    ensures (1 as bv8) << 0 == 1 && (1 as bv8) << 1 == 2 && (1 as bv8) << 2 == 4 && (1 as bv8) << 3 == 8
    ensures (1 as bv8) << 4 == 16 && (1 as bv8) << 5 == 32 && (1 as bv8) << 6 == 64 && (1 as bv8) << 7 == 128
  {
  }

  lemma SameByte(c: bv8, d: bv8)
    requires forall b: nat | b < 8 :: HasBit(c, b) == HasBit(d, b)
    ensures c == d
  {
    MaskValues();
    assert HasBit(c, 0) == HasBit(d, 0);
    assert HasBit(c, 1) == HasBit(d, 1);
    assert HasBit(c, 2) == HasBit(d, 2);
    assert HasBit(c, 3) == HasBit(d, 3);
    assert HasBit(c, 4) == HasBit(d, 4);
    assert HasBit(c, 5) == HasBit(d, 5);
    assert HasBit(c, 6) == HasBit(d, 6);
    assert HasBit(c, 7) == HasBit(d, 7);
  }

  lemma ZeroByte(b: nat)
    requires b < 8
    ensures !HasBit(0, b) && HasBit(0xFF, b)
  {
    MaskValues();
  }

  // ---------------------------------------------------------------- the bitmap as a set

  predicate IsFree(m: seq<bv8>, i: nat)
    requires i < 8 * |m|
  {
    HasBit(m[i / 8], i % 8)
  }

  ghost function FreeSet(m: seq<bv8>): (free: set<nat>)
    ensures forall i | i in free :: i < 8 * |m|
  {
    set i: nat | i < 8 * |m| && IsFree(m, i)
  }

  /** Bit `b` counts from the low end of its byte. */
  lemma BitPlace(c: bv8, b: nat)
    requires b < 8
    ensures HasBit(c, b) <==> (c >> b) & 1 == 1
  {
    MaskValues();
    ShiftedMask(c);
  }

  lemma ShiftedMask(c: bv8)
    ensures c & 1 != 0 <==> (c >> 0) & 1 == 1
    ensures c & 2 != 0 <==> (c >> 1) & 1 == 1
    ensures c & 4 != 0 <==> (c >> 2) & 1 == 1
    ensures c & 8 != 0 <==> (c >> 3) & 1 == 1
    ensures c & 16 != 0 <==> (c >> 4) & 1 == 1
    ensures c & 32 != 0 <==> (c >> 5) & 1 == 1
    ensures c & 64 != 0 <==> (c >> 6) & 1 == 1
    ensures c & 128 != 0 <==> (c >> 7) & 1 == 1
  {
  }

  /** Sector `i` is free when bit `i % 8` of byte `i / 8` is set. */
  lemma BitSays(m: seq<bv8>, i: nat)
    requires i < 8 * |m|
    ensures i in FreeSet(m) <==> HasBit(m[i / 8], i % 8)
  {
  }

  function Cleared(m: seq<bv8>, i: nat): seq<bv8>
    requires i < 8 * |m|
  {
    m[i / 8 := WithoutBit(m[i / 8], i % 8)]
  }

  function Marked(m: seq<bv8>, i: nat): seq<bv8>
    requires i < 8 * |m|
  {
    m[i / 8 := WithBit(m[i / 8], i % 8)]
  }

  /** On the abstract view, clearing a bit removes one sector and marking it adds one. */
  lemma BitEffect(m: seq<bv8>, i: nat)
    requires i < 8 * |m|
    ensures FreeSet(Cleared(m, i)) == FreeSet(m) - {i}
    ensures FreeSet(Marked(m, i)) == FreeSet(m) + {i}
  {
    hide HasBit, WithoutBit, WithBit;
    forall k: nat | k < 8 * |m|
      ensures IsFree(Cleared(m, i), k) <==> IsFree(m, k) && k != i
      ensures IsFree(Marked(m, i), k) <==> IsFree(m, k) || k == i
    {
      BitOps(m[i / 8], i % 8, k % 8);
    }
  }

  function ClearedRun(m: seq<bv8>, i: nat, n: nat): (r: seq<bv8>)
    requires i + n <= 8 * |m|
    ensures |r| == |m|
  {
    if n == 0 then m else Cleared(ClearedRun(m, i, n - 1), i + n - 1)
  }

  lemma {:induction false} RunEffect(m: seq<bv8>, i: nat, n: nat)
    requires i + n <= 8 * |m|
    ensures FreeSet(ClearedRun(m, i, n)) == FreeSet(m) - Run(i, n)
  {
    hide FreeSet, Cleared, Marked, Run;
    if n > 0 {
      RunEffect(m, i, n - 1);
      BitEffect(ClearedRun(m, i, n - 1), i + n - 1);
    }
  }

  /** The set of free sectors determines the bitmap byte for byte. */
  lemma SameBitmap(m: seq<bv8>, n: seq<bv8>)
    requires |m| == |n|
    requires FreeSet(m) == FreeSet(n)
    ensures m == n
  {
    hide HasBit;
    forall k | 0 <= k < |m| ensures m[k] == n[k] {
      forall b: nat | b < 8 ensures HasBit(m[k], b) == HasBit(n[k], b) {
        assert (8 * k + b) / 8 == k && (8 * k + b) % 8 == b;
        assert IsFree(m, 8 * k + b) <==> 8 * k + b in FreeSet(m);
        assert IsFree(n, 8 * k + b) <==> 8 * k + b in FreeSet(n);
      }
      SameByte(m[k], n[k]);
    }
  }

  // ---------------------------------------------------------------- runs and first fit

  ghost function Run(i: nat, n: nat): (r: set<nat>)
    ensures forall k: nat :: k in r <==> i <= k < i + n
    ensures |r| == n
  {
    if n == 0 then {} else Run(i, n - 1) + {i + n - 1}
  }

  /** `i` starts the leftmost run of `n` free sectors that ends within `limit`. */
  ghost predicate IsFirstFit(free: set<nat>, limit: nat, n: nat, i: nat) {
    && i + n <= limit
    && Run(i, n) <= free
    && forall j: nat | j < i :: !(Run(j, n) <= free)
  }

  lemma {:induction false} LeastFit(free: set<nat>, limit: nat, n: nat, k: nat) returns (i: nat)
    requires k + n <= limit && Run(k, n) <= free
    ensures i <= k && IsFirstFit(free, limit, n, i)
  {
    i := k;
    if j: nat :| j < k && Run(j, n) <= free {
      i := LeastFit(free, limit, n, j);
    }
  }

  lemma FirstFitUnique(free: set<nat>, limit: nat, limit': nat, n: nat, i: nat, j: nat)
    requires IsFirstFit(free, limit, n, i) && IsFirstFit(free, limit', n, j)
    ensures i == j
  {
  }

  /** The start of the leftmost run of `n` free sectors below `limit`, if there is one. */
  ghost function FirstFit(free: set<nat>, limit: nat, n: nat): (r: Option<nat>)
    ensures r.Some? ==> IsFirstFit(free, limit, n, r.value) && (n > 0 ==> r.value + n - 1 in free)
    ensures r.None? ==> forall k: nat | k + n <= limit :: !(Run(k, n) <= free)
  {
    if k: nat :| k + n <= limit && Run(k, n) <= free then
      assert exists i: nat :: IsFirstFit(free, limit, n, i) by { var i := LeastFit(free, limit, n, k); }
      var i: nat :| IsFirstFit(free, limit, n, i);
      assert n > 0 ==> i + n - 1 in Run(i, n);
      Some(i)
    else
      None
  }

  /** A scan for `n` sectors stays in the bitmap: the managed range does, the request is refused at
      once, or the scan finds what it looks for before it gets to the end. */
  ghost predicate StaysInBitmap(free: set<nat>, sectors: nat, n: nat) {
    sectors <= PMM_SECTORS || n == 0 || n > sectors || FirstFit(free, PMM_SECTORS, n).Some?
  }

  /** In so many words: every sector of the run is free and it ends in range, and any place `j` further
      left, or any in range when there is no fit, has a taken sector. */
  lemma FirstFitMeaning(free: set<nat>, limit: nat, n: nat, j: nat)
    ensures match FirstFit(free, limit, n)
            case Some(i) =>
              && i + n <= limit && (forall k | i <= k < i + n :: k in free)
              && (j < i ==> exists k: nat :: j <= k < j + n && k !in free)
            case None =>
              j + n <= limit ==> exists k: nat :: j <= k < j + n && k !in free
  {
    hide FirstFit;
    var got := FirstFit(free, limit, n);
    if got.Some? {
      assert forall k: nat | got.value <= k < got.value + n :: k in Run(got.value, n);
    }
    if !(Run(j, n) <= free) {
      var k: nat :| k in Run(j, n) && k !in free;
    }
  }

  // ---------------------------------------------------------------- the allocator

  /** The address the source computes for a sector, in 32-bit arithmetic. */
  function AddressAt(start: U32, i: nat): U32 {
    Wrap32(start + 8192 * i)
  }

  /** The sector index the source computes for an address, in 32-bit arithmetic. */
  function SectorAt(start: U32, addr: U32): nat {
    Wrap32(addr - start) / 8192
  }

  class Allocator {
    const bitmap: array<bv8>   // mem_phys_map
    var start: U32          // mem_phys_start
    var sectors: nat        // mem_phys_sectors

    ghost predicate Valid()
      reads this
    {
      bitmap.Length == MAP_BYTES
    }

    ghost function Free(): set<nat>
      reads bitmap
    {
      FreeSet(bitmap[..])
    }

    constructor ()
      ensures Valid() && fresh(bitmap)
    {
      bitmap := new bv8[MAP_BYTES];
      start, sectors := 0, 0;
    }

    method Init(start: U32, totalSize: U32)
      requires Valid()
      modifies this, bitmap
      ensures Valid()
      ensures this.start == start && sectors == totalSize / 8192
      ensures Free() == Run(0, 65536)
    {
      hide HasBit, WithoutBit, WithBit;
      this.start := start;
      sectors := totalSize / 8192;
      for i := 0 to MAP_BYTES
        invariant this.start == start && sectors == totalSize / 8192
        invariant forall k | 0 <= k < i :: bitmap[k] == 0xFF
      {
        bitmap[i] := 0xFF;
      }
      forall k: nat | k < PMM_SECTORS ensures IsFree(bitmap[..], k) {
        ZeroByte(k % 8);
      }
    }

    /** The byte-skipping scan; it looks at the whole bitmap, whatever `sectors` is. */
    method Alloc() returns (addr: U32, ghost got: Option<nat>)
      requires Valid()
      modifies bitmap
      ensures got == FirstFit(old(Free()), PMM_SECTORS, 1)
      ensures got.None? ==> addr == 0 && bitmap[..] == old(bitmap[..])
      ensures got.Some? ==> addr == AddressAt(start, got.value) && bitmap[..] == Cleared(old(bitmap[..]), got.value)
    {
      hide HasBit, WithoutBit, WithBit;
      ghost var was := bitmap[..];
      for i := 0 to MAP_BYTES
        invariant bitmap[..] == was
        invariant forall k: nat | k < 8 * i :: k !in FreeSet(was)
      {
        var c := bitmap[i];
        if c == 0 {
          forall k: nat | 8 * i <= k < 8 * i + 8 ensures k !in FreeSet(was) {
            ZeroByte(k % 8);
          }
          continue;
        }
        for b := 0 to 8
          invariant bitmap[..] == was
          invariant forall k: nat | k < 8 * i + b :: k !in FreeSet(was)
        {
          assert (8 * i + b) / 8 == i && (8 * i + b) % 8 == b;
          if HasBit(c, b) {
            bitmap[i] := WithoutBit(bitmap[i], b);
            assert bitmap[..] == Cleared(was, 8 * i + b);
            SingleFirstFit(was, 8 * i + b);
            return AddressAt(start, i * 8 + b), Some(8 * i + b);
          }
        }
      }
      assert FreeSet(was) == {};
      forall k: nat | k + 1 <= PMM_SECTORS ensures !(Run(k, 1) <= FreeSet(was)) {
        assert k in Run(k, 1);
      }
      return 0, None;
    }

    method AllocSectors(n: nat) returns (addr: U32, ghost got: Option<nat>)
      requires Valid() && StaysInBitmap(Free(), sectors, n)
      modifies bitmap
      ensures got == if n == 0 then None else FirstFit(old(Free()), sectors, n)
      ensures got.None? ==> addr == 0 && bitmap[..] == old(bitmap[..])
      ensures got.Some? ==> addr == AddressAt(start, got.value)
                            && bitmap[..] == ClearedRun(old(bitmap[..]), got.value, n)
    {
      if n == 0 || n > sectors {
        return 0, None;
      }
      var max := sectors - n + 1;
      for i := 0 to max
        invariant bitmap[..] == old(bitmap[..])
        invariant forall k: nat | k < i :: !(Run(k, n) <= Free())
        invariant sectors > PMM_SECTORS ==> i <= FirstFit(Free(), PMM_SECTORS, n).value
      {
        var j := CountFree(i, n);
        if j == n {
          FirstFitUnique(Free(), sectors, sectors, n, i, FirstFit(Free(), sectors, n).value);
          ClearRun(i, n);
          return AddressAt(start, i), Some(i);
        }
        assert i + j in Run(i, n);
      }
      return 0, None;
    }

    /** The scan of one candidate run: how many free sectors it meets before the first taken one. */
    method CountFree(i: nat, n: nat) returns (j: nat)
      requires Valid() && i + n <= PMM_SECTORS
      ensures j <= n && Run(i, j) <= Free()
      ensures j < n ==> i + j !in Free()
    {
      hide HasBit, FreeSet;
      j := 0;
      while j < n
        invariant 0 <= j <= n
        invariant Run(i, j) <= Free()
      {
        var index := i + j;
        BitSays(bitmap[..], index);
        if !HasBit(bitmap[index / 8], index % 8) {
          break;
        }
        j := j + 1;
      }
    }

    /** The loop that takes a run it has found. */
    method ClearRun(i: nat, n: nat)
      requires Valid() && i + n <= PMM_SECTORS
      modifies bitmap
      ensures bitmap[..] == ClearedRun(old(bitmap[..]), i, n)
    {
      hide Cleared;
      var j := 0;
      while j < n
        invariant 0 <= j <= n
        invariant bitmap[..] == ClearedRun(old(bitmap[..]), i, j)
      {
        var index := i + j;
        ClearSector(index);
        j := j + 1;
      }
    }

    method ClearSector(index: nat)
      requires Valid() && index < PMM_SECTORS
      modifies bitmap
      ensures bitmap[..] == Cleared(old(bitmap[..]), index)
    {
      hide WithoutBit;
      bitmap[index / 8] := WithoutBit(bitmap[index / 8], index % 8);
    }

    /** The index the source computes must lie in the bitmap, or the write leaves it. */
    method FreeSector(addr: U32)
      requires Valid() && SectorAt(start, addr) < PMM_SECTORS
      modifies bitmap
      ensures bitmap[..] == Marked(old(bitmap[..]), SectorAt(start, addr))
    {
      var offset := Wrap32(addr - start) / 8192;
      var i, b := offset / 8, offset % 8;
      bitmap[i] := WithBit(bitmap[i], b);
    }
  }

  lemma SingleFirstFit(m: seq<bv8>, i: nat)
    requires |m| == MAP_BYTES && i in FreeSet(m)
    requires forall k: nat | k < i :: k !in FreeSet(m)
    ensures FirstFit(FreeSet(m), PMM_SECTORS, 1) == Some(i)
  {
    assert Run(i, 1) == {i};
    forall j: nat | j < i ensures !(Run(j, 1) <= FreeSet(m)) {
      assert j in Run(j, 1);
    }
    assert IsFirstFit(FreeSet(m), PMM_SECTORS, 1, i);
    FirstFitUnique(FreeSet(m), PMM_SECTORS, PMM_SECTORS, 1, i, FirstFit(FreeSet(m), PMM_SECTORS, 1).value);
  }
}
