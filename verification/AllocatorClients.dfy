/** What the allocator guarantees its clients, over every run of calls. */
module AllocatorClients {
  import opened Words
  import opened PhysicalMemory

  // ---------------------------------------------------------------- addresses

  /** Freeing an address that was handed out reaches the sector it stands for. */
  lemma AddressRoundTrip(start: U32, i: nat)
    requires i < PMM_SECTORS
    ensures SectorAt(start, AddressAt(start, i)) == i
  {
    var addr := AddressAt(start, i);
    assert addr == start + 8192 * i || addr == start + 8192 * i - 0x1_0000_0000;
    assert Wrap32(addr - start) == 8192 * i;
  }

  /** So does freeing any address inside it. */
  lemma InteriorAddress(start: U32, i: nat, r: nat)
    requires i < 65536 && r < 8192
    ensures SectorAt(start, Wrap32(AddressAt(start, i) + r)) == i
    ensures start + 8192 * i < 0x1_0000_0000 ==> AddressAt(start, i) == start + 8192 * i
  {
    var x, addr := start + 8192 * i, Wrap32(AddressAt(start, i) + r);
    assert AddressAt(start, i) == x || AddressAt(start, i) == x - 0x1_0000_0000;
    assert addr in {x + r, x + r - 0x1_0000_0000};
    assert Wrap32(addr - start) == 8192 * i + r;
  }

  /** A null result means failure except when the managed region starts at 0 or reaches the 4 GiB mark. */
  lemma NullIsFailure(start: U32, i: nat)
    requires i < PMM_SECTORS
    ensures AddressAt(start, i) == 0 <==> start + 8192 * i in {0, 0x1_0000_0000}
  {
    assert start + 8192 * i < 2 * 0x1_0000_0000;
  }

  // ---------------------------------------------------------------- fast scan against run scan

  /** The byte-skipping scan agrees with a one-sector run scan exactly when a sector in range
      is free, or none is free at all. Otherwise it hands out a sector beyond the managed range. */
  lemma FastScanRefinesRunScan(m: seq<bv8>, sectors: nat)
    requires |m| == MAP_BYTES && sectors <= PMM_SECTORS
    ensures var fast, slow := FirstFit(FreeSet(m), PMM_SECTORS, 1), FirstFit(FreeSet(m), sectors, 1);
            && (fast == slow <==> FreeSet(m) == {} || exists k :: k in FreeSet(m) && k < sectors)
            && (fast != slow ==> fast.Some? && fast.value >= sectors)
            && (fast == slow && fast.Some? ==> Cleared(m, fast.value) == ClearedRun(m, slow.value, 1))
  {
    hide IsFree;
    var free := FreeSet(m);
    forall k: nat ensures Run(k, 1) == {k} {}
    var fast, slow := FirstFit(free, PMM_SECTORS, 1), FirstFit(free, sectors, 1);
    if k :| k in free && k < sectors {
      assert Run(k, 1) <= free;
      FirstFitUnique(free, PMM_SECTORS, sectors, 1, fast.value, slow.value);
    } else if k :| k in free {
      assert Run(k, 1) <= free;
      assert fast.value in Run(fast.value, 1);
    }
    if fast.Some? {
      assert ClearedRun(m, fast.value, 1) == Cleared(ClearedRun(m, fast.value, 0), fast.value);
    }
  }

  /** A bitmap in which one sector is free. */
  function OnlyFree(k: nat): seq<bv8>
    requires k < PMM_SECTORS
  {
    Marked(seq(MAP_BYTES, _ => 0), k)
  }

  /** They do differ, for every size of the managed range: with all of it taken and the sector just
      beyond it free, the fast scan hands out that sector and the run scan refuses. */
  lemma FastScanLeavesRange(sectors: nat)
    requires sectors < PMM_SECTORS
    ensures FirstFit(FreeSet(OnlyFree(sectors)), PMM_SECTORS, 1) == Some(sectors)
    ensures FirstFit(FreeSet(OnlyFree(sectors)), sectors, 1) == None
  {
    hide HasBit, WithBit;
    var none: seq<bv8> := seq(MAP_BYTES, _ => 0);
    forall k: nat | k < PMM_SECTORS ensures k !in FreeSet(none) {
      ZeroByte(k % 8);
    }
    BitEffect(none, sectors);
    var free := FreeSet(OnlyFree(sectors));
    assert free == {sectors};
    hide FreeSet, Marked;
    FastScanRefinesRunScan(OnlyFree(sectors), sectors);
    var fast := FirstFit(free, PMM_SECTORS, 1);
    assert fast.value in Run(fast.value, 1);
  }

  // ---------------------------------------------------------------- free undoes alloc

  function Freed(m: seq<bv8>, order: seq<nat>): (r: seq<bv8>)
    requires forall j | 0 <= j < |order| :: order[j] < 8 * |m|
    ensures |r| == |m|
    decreases order
  {
    if order == [] then m else Freed(Marked(m, order[0]), order[1..])
  }

  lemma {:induction false} FreedSet(m: seq<bv8>, order: seq<nat>)
    requires forall j | 0 <= j < |order| :: order[j] < 8 * |m|
    ensures FreeSet(Freed(m, order)) == FreeSet(m) + set k | k in order
    decreases order
  {
    hide FreeSet, HasBit, WithBit;
    if order != [] {
      BitEffect(m, order[0]);
      FreedSet(Marked(m, order[0]), order[1..]);
      assert forall k :: k in order <==> k == order[0] || k in order[1..];
    }
  }

  /** Freeing every sector of an allocated run, in any order, restores the bitmap byte for byte. */
  lemma FreeUndoesAlloc(m: seq<bv8>, i: nat, n: nat, order: seq<nat>)
    requires i + n <= 8 * |m| && Run(i, n) <= FreeSet(m)
    requires (set k | k in order) == Run(i, n)
    ensures forall j | 0 <= j < |order| :: order[j] < 8 * |m|
    ensures Freed(ClearedRun(m, i, n), order) == m
  {
    forall j | 0 <= j < |order| ensures order[j] in Run(i, n) {
      assert order[j] in set k | k in order;
    }
    var taken := ClearedRun(m, i, n);
    RunEffect(m, i, n);
    FreedSet(taken, order);
    SameBitmap(Freed(taken, order), m);
  }

  // ---------------------------------------------------------------- every run of calls

  datatype Call =
    | Take
    | TakeRun(n: nat)
    | Give(region: nat, sector: nat)

  /** The bitmap together with the sectors each earlier allocation still owns. */
  datatype State = State(bitmap: seq<bv8>, live: seq<set<nat>>)

  /** Clients give back only sectors they own, and ask for runs that the scan can look for. */
  ghost predicate Legal(s: State, sectors: nat, c: Call) {
    match c
    case Take => true
    case TakeRun(n) => StaysInBitmap(FreeSet(s.bitmap), sectors, n)
    case Give(region, sector) => region < |s.live| && sector in s.live[region] && sector < PMM_SECTORS
  }

  ghost predicate HasOwner(live: seq<set<nat>>, k: nat) {
    exists i :: 0 <= i < |live| && k in live[i]
  }

  /** Some of the `n` sectors from `i` on belongs to somebody. */
  ghost predicate MeetsOwner(live: seq<set<nat>>, i: nat, n: nat) {
    exists k: nat :: i <= k < i + n && HasOwner(live, k)
  }

  /** Live regions are pairwise disjoint, and they and the free sectors partition the 65536. */
  ghost predicate Partition(free: set<nat>, live: seq<set<nat>>) {
    && (forall i | 0 <= i < |live| :: live[i] !! free)
    && (forall i, j | 0 <= i < j < |live| :: live[i] !! live[j])
    && (forall k | k in free :: k < PMM_SECTORS)
    && (forall i, k | 0 <= i < |live| && k in live[i] :: k < PMM_SECTORS)
    && (forall k: nat | k < PMM_SECTORS :: k in free || HasOwner(live, k))
    && |free| + Owned(live) == PMM_SECTORS
  }

  ghost predicate Partitioned(s: State) {
    |s.bitmap| == MAP_BYTES && Partition(FreeSet(s.bitmap), s.live)
  }

  function Owned(live: seq<set<nat>>): nat {
    if live == [] then 0 else Owned(live[..|live| - 1]) + |live[|live| - 1]|
  }

  /** What the call hands out: the leftmost fit, in the whole bitmap for one sector and in the
      managed range for a run. */
  ghost function Granted(s: State, sectors: nat, c: Call): Option<nat> {
    match c
    case Take => FirstFit(FreeSet(s.bitmap), PMM_SECTORS, 1)
    case TakeRun(n) => if n == 0 then None else FirstFit(FreeSet(s.bitmap), sectors, n)
    case Give(_, _) => None
  }

  ghost function FreeCount(s: State): nat {
    |FreeSet(s.bitmap)|
  }

  /** How the number of free sectors moves. */
  ghost function Change(s: State, sectors: nat, c: Call): int {
    match c
    case Take => if Granted(s, sectors, c).Some? then -1 else 0
    case TakeRun(n) => if Granted(s, sectors, c).Some? then 0 - n else 0
    case Give(_, _) => 1
  }

  ghost function Next(s: State, sectors: nat, c: Call): (r: State)
    requires |s.bitmap| == MAP_BYTES && Legal(s, sectors, c)
    ensures |r.bitmap| == MAP_BYTES
  {
    var got := Granted(s, sectors, c);
    match c
    case Take =>
      if got.None? then s else State(Cleared(s.bitmap, got.value), s.live + [Run(got.value, 1)])
    case TakeRun(n) =>
      if got.None? then s else State(ClearedRun(s.bitmap, got.value, n), s.live + [Run(got.value, n)])
    case Give(region, sector) =>
      State(Marked(s.bitmap, sector), s.live[region := s.live[region] - {sector}])
  }

  ghost predicate LegalRun(s: State, sectors: nat, calls: seq<Call>)
    requires |s.bitmap| == MAP_BYTES
    decreases calls
  {
    calls == [] || (Legal(s, sectors, calls[0]) && LegalRun(Next(s, sectors, calls[0]), sectors, calls[1..]))
  }

  ghost function After(s: State, sectors: nat, calls: seq<Call>): State
    requires |s.bitmap| == MAP_BYTES && LegalRun(s, sectors, calls)
    decreases calls
  {
    if calls == [] then s else After(Next(s, sectors, calls[0]), sectors, calls[1..])
  }

  lemma OwnedAppend(live: seq<set<nat>>, r: set<nat>)
    ensures Owned(live + [r]) == Owned(live) + |r|
  {
    assert (live + [r])[..|live|] == live;
  }

  lemma {:induction false} OwnedUpdate(live: seq<set<nat>>, i: nat, r: set<nat>)
    requires i < |live|
    ensures Owned(live[i := r]) == Owned(live) - |live[i]| + |r|
    decreases live
  {
    var n := |live| - 1;
    if i == n {
      assert live[i := r][..n] == live[..n];
    } else {
      OwnedUpdate(live[..n], i, r);
      assert live[i := r][..n] == live[..n][i := r];
    }
  }

  /** Granting a run of free sectors keeps the partition. */
  lemma GrantKeeps(free: set<nat>, live: seq<set<nat>>, r: set<nat>)
    requires Partition(free, live) && r <= free
    ensures Partition(free - r, live + [r])
  {
    OwnedAppend(live, r);
    var now := live + [r];
    forall k: nat | k < PMM_SECTORS ensures k in free - r || HasOwner(now, k) {
      if k in r {
        assert k in now[|live|];
      } else if k !in free {
        var j :| 0 <= j < |live| && k in live[j];
        assert k in now[j];
      }
    }
  }

  /** Taking back an owned sector keeps the partition. */
  lemma GiveKeeps(free: set<nat>, live: seq<set<nat>>, region: nat, sector: nat)
    requires Partition(free, live) && region < |live| && sector in live[region]
    ensures Partition(free + {sector}, live[region := live[region] - {sector}])
  {
    hide HasOwner;
    var now := live[region := live[region] - {sector}];
    OwnedUpdate(live, region, live[region] - {sector});
    forall k: nat | k < PMM_SECTORS ensures k in free + {sector} || HasOwner(now, k) {
      if k !in free && k != sector {
        StillOwned(live, region, sector, k);
      }
    }
  }

  lemma StillOwned(live: seq<set<nat>>, region: nat, sector: nat, k: nat)
    requires region < |live| && HasOwner(live, k) && k != sector
    ensures HasOwner(live[region := live[region] - {sector}], k)
  {
    var j :| 0 <= j < |live| && k in live[j];
    assert k in live[region := live[region] - {sector}][j];
  }

  /** One call keeps the partition and moves the free count by exactly -1, -n or +1. */
  lemma NextKeeps(s: State, sectors: nat, c: Call)
    requires Partitioned(s) && Legal(s, sectors, c)
    ensures Partitioned(Next(s, sectors, c))
    ensures FreeCount(Next(s, sectors, c)) == FreeCount(s) + Change(s, sectors, c)
  {
    hide FreeSet;
    var got := Granted(s, sectors, c);
    match c
    case Take =>
      if got.Some? {
        BitEffect(s.bitmap, got.value);
        assert Run(got.value, 1) == {got.value};
        GrantKeeps(FreeSet(s.bitmap), s.live, Run(got.value, 1));
      }
    case TakeRun(n) =>
      if got.Some? {
        RunEffect(s.bitmap, got.value, n);
        GrantKeeps(FreeSet(s.bitmap), s.live, Run(got.value, n));
      }
    case Give(region, sector) =>
      BitEffect(s.bitmap, sector);
      GiveKeeps(FreeSet(s.bitmap), s.live, region, sector);
  }

  /** Safety over every legal run of calls. */
  lemma {:induction false} EveryRunIsSafe(s: State, sectors: nat, calls: seq<Call>)
    requires Partitioned(s) && LegalRun(s, sectors, calls)
    ensures Partitioned(After(s, sectors, calls))
    decreases calls
  {
    if calls != [] {
      NextKeeps(s, sectors, calls[0]);
      EveryRunIsSafe(Next(s, sectors, calls[0]), sectors, calls[1..]);
    }
  }

  /** The allocator's own methods are these calls, and so keep the partition. */
  method Perform(a: Allocator, c: Call, ghost s: State)
    requires a.Valid() && s.bitmap == a.bitmap[..]
    requires Partitioned(s) && Legal(s, a.sectors, c)
    modifies a.bitmap
    ensures a.bitmap[..] == Next(s, a.sectors, c).bitmap
    ensures Partitioned(Next(s, a.sectors, c)) && a.Free() == FreeSet(Next(s, a.sectors, c).bitmap)
  {
    hide FreeSet, Cleared, ClearedRun, Marked, Partition;
    NextKeeps(s, a.sectors, c);
    match c
    case Take =>
      var _, _ := a.Alloc();
    case TakeRun(n) =>
      var _, _ := a.AllocSectors(n);
    case Give(_, sector) =>
      AddressRoundTrip(a.start, sector);
      a.FreeSector(AddressAt(a.start, sector));
  }

  /** The state `Allocator.Init` leaves behind is partitioned: everything is free, nothing is owned. */
  lemma InitialPartition(bitmap: seq<bv8>)
    requires |bitmap| == MAP_BYTES && FreeSet(bitmap) == Run(0, PMM_SECTORS)
    ensures Partitioned(State(bitmap, []))
  {
    hide FreeSet, Run;
  }

  /** A granted run joins the live regions and meets none of them; when a run is refused, every
      place in range for it meets one. */
  lemma RunAvoidsLive(m: seq<bv8>, live: seq<set<nat>>, sectors: nat, n: nat)
    requires |m| == MAP_BYTES && Partition(FreeSet(m), live)
    requires n > 0 && StaysInBitmap(FreeSet(m), sectors, n)
    ensures match FirstFit(FreeSet(m), sectors, n)
            case Some(i) =>
              && Partition(FreeSet(ClearedRun(m, i, n)), live + [Run(i, n)])
              && forall k | k in Run(i, n) :: !HasOwner(live, k)
            case None =>
              forall i: nat | i + n <= sectors :: MeetsOwner(live, i, n)
  {
    hide FreeSet, Run, ClearedRun;
    var got := FirstFit(FreeSet(m), sectors, n);
    if got.Some? {
      RunEffect(m, got.value, n);
      GrantKeeps(FreeSet(m), live, Run(got.value, n));
    } else {
      forall i: nat | i + n <= sectors ensures MeetsOwner(live, i, n) {
        var k: nat :| k in Run(i, n) && k !in FreeSet(m);
        assert HasOwner(live, k);
      }
    }
  }
}
