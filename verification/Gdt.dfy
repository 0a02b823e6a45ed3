/** The descriptor table of source/boot/gdt/gdt.c as the 48 bytes it is, its rotating checksum, and
    the table's life up to the installation of the TSS. */
module Gdt {
  import opened Words

  const GDT_ENTRIES_COUNT: int := 6
  const ENTRY_SIZE: int := 8
  const TABLE_SIZE: int := 48
  const GDT_KERNEL_CODE_ENTRY: int := 1
  const GDT_KERNEL_DATA_ENTRY: int := 2
  const GDT_USER_CODE_ENTRY: int := 3
  const GDT_USER_DATA_ENTRY: int := 4
  const GDT_TSS_ENTRY: int := 5
  const ACCESS_BYTE: int := 5

  /** `sizeof(tss_entry_t) - 1` */
  const TSS_LIMIT: U32 := 103

  // ---------------------------------------------------------------- the checksum

  /** `(x << 1) | (x >> 31)` */
  function Rotate(x: U32): U32 {
    if x < 0x8000_0000 then 2 * x else 2 * x - 0x1_0000_0000 + 1
  }

  /** `sum + b` in 32 bits */
  function AddByte(sum: U32, b: Byte): (r: U32)
    ensures r == Wrap32(sum + b)
  {
    if sum + b < 0x1_0000_0000 then sum + b else sum + b - 0x1_0000_0000
  }

  function Mix(sum: U32, b: Byte): U32 {
    Rotate(AddByte(sum, b))
  }

  function Checksum(sum: U32, bytes: seq<Byte>): U32
    decreases bytes
  {
    if bytes == [] then sum else Checksum(Mix(sum, bytes[0]), bytes[1..])
  }

  lemma {:induction false} ChecksumConcat(sum: U32, a: seq<Byte>, b: seq<Byte>)
    ensures Checksum(sum, a + b) == Checksum(Checksum(sum, a), b)
    decreases a
  {
    if a == [] {
      assert a + b == b;
    } else {
      ChecksumConcat(Mix(sum, a[0]), a[1..], b);
      assert (a + b)[1..] == a[1..] + b;
    }
  }

  /** Each step is a bijection of the state. */
  lemma MixInjective(s: U32, t: U32, b: Byte, c: Byte)
    requires Mix(s, b) == Mix(t, c)
    ensures s == t <==> b == c
  {
    assert AddByte(s, b) == AddByte(t, c);
  }

  lemma {:induction false} ChecksumInjective(s: U32, t: U32, bytes: seq<Byte>)
    requires Checksum(s, bytes) == Checksum(t, bytes)
    ensures s == t
    decreases bytes
  {
    if bytes != [] {
      ChecksumInjective(Mix(s, bytes[0]), Mix(t, bytes[0]), bytes[1..]);
      MixInjective(s, t, bytes[0], bytes[0]);
    }
  }

  /** Every change to a single byte of a table of any length changes the checksum. */
  lemma SingleByteChangeDetected(table: seq<Byte>, i: nat, b: Byte)
    requires i < |table|
    ensures Checksum(0, table[i := b]) == Checksum(0, table) <==> b == table[i]
  {
    assert table[i := table[i]] == table;
    if Checksum(0, table[i := b]) == Checksum(0, table) {
      var before, after := Checksum(0, table[..i]), table[i + 1..];
      SplitAt(table, i);
      SplitAt(table[i := b], i);
      assert table[i := b][..i] == table[..i] && table[i := b][i + 1..] == after;
      ChecksumInjective(Mix(before, b), Mix(before, table[i]), after);
      MixInjective(before, before, b, table[i]);
    }
  }

  lemma SplitAt(table: seq<Byte>, i: nat)
    requires i < |table|
    ensures Checksum(0, table) == Checksum(Mix(Checksum(0, table[..i]), table[i]), table[i + 1..])
  {
    ChecksumConcat(0, table[..i], table[i..]);
    assert table == table[..i] + table[i..];
    assert table[i..][1..] == table[i + 1..];
  }

  // ---------------------------------------------------------------- what two changes can hide

  predicate HighHalf(x: U32) {
    x >= 0x8000_0000
  }

  /** The unit that rotating brings round from the high end. */
  function Half(x: U32): nat {
    if HighHalf(x) then 1 else 0
  }

  lemma MixPair(s: U32, x: Byte, y: Byte, x': Byte, y': Byte)
    ensures Mix(Mix(s, x), y) == Mix(Mix(s, x'), y')
            <==> y - y' == 2 * (x' - x) + Half(AddByte(s, x')) - Half(AddByte(s, x))
  {
    MixSame(Mix(s, x), y, Mix(s, x'), y');
    MixValue(s, x);
    MixValue(s, x');
    hide Mix;
  }

  lemma MixSame(s: U32, x: Byte, s': U32, x': Byte)
    ensures Mix(s, x) == Mix(s', x') <==> s + x - s' - x' in {0, 0x1_0000_0000, -0x1_0000_0000}
  {
  }

  lemma MixValue(s: U32, x: Byte)
    ensures Mix(s, x) == 2 * AddByte(s, x) - 0xFFFF_FFFF * Half(AddByte(s, x))
  {
  }

  /** A change of two adjacent bytes goes unseen exactly when what the second byte loses is twice what
      the first one gains, up to the unit that rotation brings round. */
  lemma AdjacentChangesUnseen(table: seq<Byte>, i: nat, x: Byte, y: Byte)
    requires i + 1 < |table|
    ensures var sum := Checksum(0, table[..i]);
            Checksum(0, table[i := x][i + 1 := y]) == Checksum(0, table)
            <==> table[i + 1] - y == 2 * (x - table[i]) + Half(AddByte(sum, x)) - Half(AddByte(sum, table[i]))
  {
    var changed := table[i := x][i + 1 := y];
    var s, after := Checksum(0, table[..i]), table[i + 2..];
    SplitTwo(table, i);
    SplitTwo(changed, i);
    assert changed[..i] == table[..i] && changed[i + 2..] == after;
    MixPair(s, table[i], table[i + 1], x, y);
    if Checksum(0, changed) == Checksum(0, table) {
      ChecksumInjective(Mix(Mix(s, table[i]), table[i + 1]), Mix(Mix(s, x), y), after);
    }
  }

  /** Away from the middle and the end of the sum's range, so in the first 23 places of every table, the
      unseen changes are exactly those that raise a byte by `d` and lower the next by `2d`. */
  lemma EarlyChangesUnseen(table: seq<Byte>, i: nat, x: Byte, y: Byte)
    requires i <= 22 && i + 1 < |table|
    ensures Checksum(0, table[i := x][i + 1 := y]) == Checksum(0, table) <==> table[i + 1] - y == 2 * (x - table[i])
  {
    AdjacentChangesUnseen(table, i, x, y);
    EarlyState(table[..i]);
  }

  /** Later on there are others: after these 24 bytes, raising the next by 1 and lowering the one after
      it by 3 goes unseen. */
  lemma LateChangeUnseen(rest: seq<Byte>)
    ensures Checksum(0, LATE_PREFIX + [0, 10] + rest) == Checksum(0, LATE_PREFIX + [1, 7] + rest)
  {
    hide Checksum;
    var table := LATE_PREFIX + [0, 10] + rest;
    LateState();
    assert table[..24] == LATE_PREFIX;
    assert table[24 := 1][25 := 7] == LATE_PREFIX + [1, 7] + rest;
    AdjacentChangesUnseen(table, 24, 1, 7);
  }

  const LATE_PREFIX: seq<Byte> :=
    [130, 254, 254, 254] + [254, 254, 254, 254] +
    [254, 254, 254, 254] + [254, 254, 254, 254] +
    [255, 255, 255, 255] + [255, 255, 254, 255]

  lemma LateState()
    ensures Checksum(0, LATE_PREFIX) == 0x7FFF_FFFF
  {
    hide Checksum;
    FourBytes(0, 130, 254, 254, 254);
    FourBytes(0x1604, 254, 254, 254, 254);
    FourBytes(0x1_7E04, 254, 254, 254, 254);
    FourBytes(0x17_FE04, 254, 254, 254, 254);
    FourBytes(0x17F_FE04, 255, 255, 255, 255);
    FourBytes(0x17FF_FE22, 255, 255, 254, 255);
    var a, b, c := [130, 254, 254, 254], [254, 254, 254, 254], [255, 255, 255, 255];
    ChecksumConcat(0, a, b);
    ChecksumConcat(0, a + b, b);
    ChecksumConcat(0, a + b + b, b);
    ChecksumConcat(0, a + b + b + b, c);
    ChecksumConcat(0, a + b + b + b + c, [255, 255, 254, 255]);
  }

  lemma FourBytes(s: U32, a: Byte, b: Byte, c: Byte, d: Byte)
    ensures Checksum(s, [a, b, c, d]) == Mix(Mix(Mix(Mix(s, a), b), c), d)
  {
    hide Mix;
    assert [a, b, c, d][1..] == [b, c, d] && [b, c, d][1..] == [c, d] && [c, d][1..] == [d] && [d][1..] == [];
    assert Checksum(Mix(Mix(s, a), b), [c, d]) == Checksum(Mix(Mix(Mix(s, a), b), c), [d]);
  }

  lemma SplitTwo(table: seq<Byte>, i: nat)
    requires i + 1 < |table|
    ensures Checksum(0, table) == Checksum(Mix(Mix(Checksum(0, table[..i]), table[i]), table[i + 1]), table[i + 2..])
  {
    SplitAt(table, i);
    assert table[i + 1..][1..] == table[i + 2..];
  }

  lemma {:induction false} EarlySum(s: U32, bytes: seq<Byte>)
    requires Doubled(|bytes|) * (s + 0x1FE) <= 0x8000_0000
    ensures Checksum(s, bytes) + 0x1FE <= Doubled(|bytes|) * (s + 0x1FE)
    decreases bytes
  {
    if bytes != [] {
      var d := Doubled(|bytes| - 1);
      DoubledPositive(|bytes| - 1);
      EarlyBound(d, s + 0x1FE, 2 * (s + bytes[0]) + 0x1FE);
      hide Doubled;
      assert Mix(s, bytes[0]) == 2 * (s + bytes[0]);
      EarlySum(Mix(s, bytes[0]), bytes[1..]);
    }
  }

  lemma EarlyBound(d: nat, x: nat, y: nat)
    requires d > 0 && y <= 2 * x && 2 * d * x <= 0x8000_0000
    ensures d * y <= 2 * d * x && 2 * x <= 0x8000_0000
  {
    MulMono(y, 2 * x, d);
    MulMono(1, d, 2 * x);
  }

  lemma EarlyState(bytes: seq<Byte>)
    requires |bytes| <= 22
    ensures Checksum(0, bytes) + 0xFF < 0x8000_0000
  {
    hide Checksum, Doubled;
    DoubledMono(|bytes|, 22);
    DoubledValues();
    EarlySum(0, bytes);
  }

  // ---------------------------------------------------------------- overwriting zeros

  /** The modulus for which rotating is doubling. */
  const ROTATION_MODULUS: int := 0xFFFF_FFFF

  function Doubled(n: nat): nat {
    if n == 0 then 1 else 2 * Doubled(n - 1)
  }

  /** One step is doubling, up to the modulus and to one unit lost in a carry. */
  lemma MixModulo(s: U32, b: Byte) returns (e: nat, q: nat)
    ensures Mix(s, b) == 2 * (s + e) - ROTATION_MODULUS * q
    ensures b == 0 ==> e == 0
    ensures b > 0 ==> b - 1 <= e <= b
  {
    var k := if s + b < 0x1_0000_0000 then 0 else 1;
    e := b - k;
    q := 2 * k + if HighHalf(AddByte(s, b)) then 1 else 0;
  }

  lemma {:induction false} DoubledPositive(n: nat)
    ensures Doubled(n) > 0
  {
    if n > 0 {
      DoubledPositive(n - 1);
    }
  }

  predicate AllZero(bytes: seq<Byte>) {
    bytes == [] || (bytes[0] == 0 && AllZero(bytes[1..]))
  }

  /** Some byte is 2 or more. */
  predicate Weighty(bytes: seq<Byte>) {
    bytes != [] && (bytes[0] >= 2 || Weighty(bytes[1..]))
  }

  lemma {:induction false} ByteSums(bytes: seq<Byte>)
    ensures AllZero(bytes) <==> forall k | 0 <= k < |bytes| :: bytes[k] == 0
    ensures Weighty(bytes) <==> exists k :: 0 <= k < |bytes| && bytes[k] >= 2
    decreases bytes
  {
    if bytes != [] {
      ByteSums(bytes[1..]);
      assert forall k | 0 < k < |bytes| :: bytes[k] == bytes[1..][k - 1];
      assert forall k | 0 <= k < |bytes[1..]| :: bytes[1..][k] == bytes[k + 1];
    }
  }

  /** The sum of the bytes, each doubled once for every rotation it goes through. */
  function Weight(bytes: seq<Byte>): nat {
    if bytes == [] then 0 else bytes[0] * Doubled(|bytes|) + Weight(bytes[1..])
  }

  /** What carries can take off that at most: one unit, so doubled, for each byte that is not zero. */
  function CarryLoss(bytes: seq<Byte>): nat {
    if bytes == [] then 0 else (if bytes[0] == 0 then 0 else Doubled(|bytes|)) + CarryLoss(bytes[1..])
  }

  /** Modulo 2^32-1 the checksum is the doubled state plus the weight of the bytes, less at most one
      unit a carry. */
  lemma {:induction false} ChecksumModulo(s: U32, bytes: seq<Byte>) returns (w: nat, q: int)
    ensures Checksum(s, bytes) == Doubled(|bytes|) * s + w - ROTATION_MODULUS * q
    ensures Weight(bytes) - CarryLoss(bytes) <= w <= Weight(bytes)
    decreases bytes
  {
    if bytes == [] {
      w, q := 0, 0;
    } else {
      hide Mix, Checksum, Weight, CarryLoss, Doubled;
      FirstByte(s, bytes);
      var e, r := MixModulo(s, bytes[0]);
      var d := Doubled(|bytes| - 1);
      var v, p := ChecksumModulo(Mix(s, bytes[0]), bytes[1..]);
      w, q := e * (2 * d) + v, p + d * r;
      WeightStep(d, s, e, r, v, p);
      ByteStep(bytes[0], e, 2 * d);
    }
  }

  lemma FirstByte(s: U32, bytes: seq<Byte>)
    requires bytes != []
    ensures Checksum(s, bytes) == Checksum(Mix(s, bytes[0]), bytes[1..])
    ensures Doubled(|bytes|) == 2 * Doubled(|bytes| - 1)
    ensures Weight(bytes) == bytes[0] * Doubled(|bytes|) + Weight(bytes[1..])
    ensures CarryLoss(bytes) == (if bytes[0] == 0 then 0 else Doubled(|bytes|)) + CarryLoss(bytes[1..])
  {
  }

  lemma WeightStep(d: nat, s: nat, e: nat, r: nat, v: nat, p: int)
    ensures d * (2 * (s + e) - ROTATION_MODULUS * r) + v - ROTATION_MODULUS * p
            == 2 * d * s + (e * (2 * d) + v) - ROTATION_MODULUS * (p + d * r)
  {
    assert d * (2 * (s + e) - ROTATION_MODULUS * r) == d * (2 * s) + d * (2 * e) - d * (ROTATION_MODULUS * r);
    assert d * (ROTATION_MODULUS * r) == ROTATION_MODULUS * (d * r);
  }

  lemma ByteStep(b: Byte, e: nat, d: nat)
    requires b == 0 ==> e == 0
    requires b > 0 ==> b - 1 <= e <= b
    ensures b * d - (if b == 0 then 0 else d) <= e * d <= b * d
  {
    MulMono(e, b, d);
    if b > 0 {
      MulMono(b - 1, e, d);
      MulSum(b - 1, 1, d);
    }
  }

  lemma {:induction false} WeightFacts(bytes: seq<Byte>)
    ensures AllZero(bytes) ==> Weight(bytes) == 0
    ensures CarryLoss(bytes) <= Weight(bytes)
    ensures Weighty(bytes) ==> CarryLoss(bytes) < Weight(bytes)
    ensures Weight(bytes) <= 0xFF * (Doubled(|bytes| + 1) - 2)
    decreases bytes
  {
    if bytes != [] {
      var d := Doubled(|bytes|);
      WeightFacts(bytes[1..]);
      DoubledPositive(|bytes|);
      MulMono(bytes[0], 0xFF, d);
      if bytes[0] > 0 {
        MulMono(Min(bytes[0], 2), bytes[0], d);
      }
    }
  }

  lemma NoSmallMultiple(w: nat, q: int)
    requires w == ROTATION_MODULUS * q && w < ROTATION_MODULUS
    ensures w == 0
  {
  }

  /** Writing up to 22 bytes, one of them 2 or more, over zeros changes the checksum from every state. */
  lemma OverwritingZerosDetected(s: U32, bytes: seq<Byte>, zeros: seq<Byte>)
    requires |bytes| == |zeros| <= 22
    requires AllZero(zeros) && Weighty(bytes)
    ensures Checksum(s, bytes) != Checksum(s, zeros)
  {
    var w, q := ChecksumModulo(s, bytes);
    var w', q' := ChecksumModulo(s, zeros);
    WeightFacts(bytes);
    WeightFacts(zeros);
    DoubledMono(|bytes| + 1, 23);
    DoubledValues();
    if Checksum(s, bytes) == Checksum(s, zeros) {
      assert w == ROTATION_MODULUS * (q - q');
      NoSmallMultiple(w, q - q');
    }
  }

  lemma DoubledValues()
    ensures Doubled(22) == 0x40_0000 && Doubled(23) == 0x80_0000
  {
    assert Doubled(6) == 0x40;
    assert Doubled(12) == 0x1000;
    assert Doubled(18) == 0x4_0000;
  }

  lemma {:induction false} DoubledMono(m: nat, n: nat)
    requires m <= n
    ensures Doubled(m) <= Doubled(n)
  {
    if m < n {
      DoubledMono(m, n - 1);
    }
  }

  // ---------------------------------------------------------------- descriptors

  /** The eight bytes of a descriptor: limit 15..0, base 23..0, access, flags with limit 19..16, base 31..24. */
  function Descriptor(base: U32, limit: U32, access: Byte, gran: Byte): (d: seq<Byte>)
    ensures |d| == ENTRY_SIZE
  {
    [ByteAt(limit, 0), ByteAt(limit, 1),
     ByteAt(base, 0), ByteAt(base, 1), ByteAt(base, 2),
     access,
     GranularityByte(limit, gran),
     ByteAt(base, 3)]
  }

  /** `((limit >> 16) & 0x0F) | (gran & 0xF0)` */
  function GranularityByte(limit: U32, gran: Byte): Byte {
    ByteAt(limit, 2) % 0x10 + gran / 0x10 * 0x10
  }

  /** What the processor reads out of a descriptor. */
  function SegmentBase(d: seq<Byte>): nat
    requires |d| == ENTRY_SIZE
  {
    Le16(d, 2) + 0x1_0000 * d[4] as nat + 0x100_0000 * d[7] as nat
  }

  function SegmentLimit(d: seq<Byte>): nat
    requires |d| == ENTRY_SIZE
  {
    Le16(d, 0) + 0x1_0000 * (d[6] as nat % 0x10)
  }

  /** The processor reads back the base whole, the limit to 20 bits, the access byte and the flags. */
  lemma DescriptorReadsBack(base: U32, limit: U32, access: Byte, gran: Byte)
    ensures var d := Descriptor(base, limit, access, gran);
            && SegmentBase(d) == base
            && d[2] as nat + 0x100 * d[3] as nat + 0x1_0000 * d[4] as nat + 0x100_0000 * d[7] as nat == base
            && SegmentLimit(d) == limit % 0x10_0000
            && d[0] as nat + 0x100 * d[1] as nat + 0x1_0000 * (d[6] as nat % 0x10) == limit % 0x10_0000
            && d[5] == access
            && d[6] / 0x10 == gran / 0x10
  {
    BytesMakeWord(base);
    LimitReadsBack(limit, gran);
    hide ByteAt, GranularityByte;
  }

  lemma LimitReadsBack(limit: U32, gran: Byte)
    ensures ByteAt(limit, 0) as nat + 0x100 * ByteAt(limit, 1) as nat
            + 0x1_0000 * (GranularityByte(limit, gran) as nat % 0x10)
            == limit % 0x10_0000
    ensures GranularityByte(limit, gran) / 0x10 == gran / 0x10
  {
    hide ByteAt;
    BytesMakeWord(limit);
    var b2, b3 := ByteAt(limit, 2) as nat, ByteAt(limit, 3) as nat;
    LowTwentyBits(ByteAt(limit, 0) as nat + 0x100 * ByteAt(limit, 1) as nat, b2, b3);
    Nibbles(b2 % 0x10, gran / 0x10);
  }

  lemma LowTwentyBits(low: nat, b2: nat, b3: nat)
    requires low < 0x1_0000
    ensures (low + 0x1_0000 * (b2 + 0x100 * b3)) % 0x10_0000 == low + 0x1_0000 * (b2 % 0x10)
  {
    var q, r := b2 / 0x10, b2 % 0x10;
    assert b2 == 0x10 * q + r;
    QuotientRemainder(q + 0x10 * b3, 0x10_0000, low + 0x1_0000 * r);
  }

  lemma Nibbles(low: nat, high: nat)
    requires low < 0x10
    ensures (low + high * 0x10) % 0x10 == low && (low + high * 0x10) / 0x10 == high
  {
  }

  function Patched(table: seq<Byte>, index: int, d: seq<Byte>): (r: seq<Byte>)
    requires |table| == TABLE_SIZE && 0 <= index < GDT_ENTRIES_COUNT && |d| == ENTRY_SIZE
    ensures |r| == TABLE_SIZE
  {
    table[..8 * index] + d + table[8 * index + ENTRY_SIZE..]
  }

  function Entry(table: seq<Byte>, index: int): (d: seq<Byte>)
    requires |table| == TABLE_SIZE && 0 <= index < GDT_ENTRIES_COUNT
    ensures |d| == ENTRY_SIZE
  {
    table[8 * index..8 * index + ENTRY_SIZE]
  }

  lemma PatchedEntries(table: seq<Byte>, index: int, d: seq<Byte>)
    requires |table| == TABLE_SIZE && 0 <= index < GDT_ENTRIES_COUNT && |d| == ENTRY_SIZE
    ensures forall j | 0 <= j < GDT_ENTRIES_COUNT ::
              Entry(Patched(table, index, d), j) == if j == index then d else Entry(table, j)
  {
  }

  /** Installing an entry writes its eight bytes and leaves all others. */
  lemma PatchedBytes(table: seq<Byte>, index: int, d: seq<Byte>, k: nat)
    requires |table| == TABLE_SIZE && 0 <= index < GDT_ENTRIES_COUNT && |d| == ENTRY_SIZE && k < 48
    ensures Patched(table, index, d)[k] == if 8 * index <= k < 8 * index + 8 then d[k - 8 * index] else table[k]
    ensures k < 8 ==> Entry(table, index)[k] == table[8 * index + k]
  {
  }

  /** The checks on the null entry and on the access bytes, with and without the accessed bit. */
  predicate AccessFits(table: seq<Byte>)
    requires |table| == TABLE_SIZE
  {
    && Le16(Entry(table, 0), 0) == 0 && Le16(Entry(table, 0), 2) == 0 && Entry(table, 0)[ACCESS_BYTE] == 0
    && Entry(table, GDT_KERNEL_CODE_ENTRY)[ACCESS_BYTE] in {0x9A, 0x9B}
    && Entry(table, GDT_KERNEL_DATA_ENTRY)[ACCESS_BYTE] in {0x92, 0x93}
    && Entry(table, GDT_USER_CODE_ENTRY)[ACCESS_BYTE] in {0xFA, 0xFB}
    && Entry(table, GDT_USER_DATA_ENTRY)[ACCESS_BYTE] in {0xF2, 0xF3}
  }

  /** On the bytes of the table: the limit, base and access fields of entry 0 that are looked at are zero,
      and the access bytes of entries 1 to 4, but for their lowest bit, are 0x9A, 0x92, 0xFA and 0xF2. */
  lemma AccessBytes(t: seq<Byte>)
    requires |t| == 48
    ensures AccessFits(t) <==>
              && t[0] == t[1] == t[2] == t[3] == t[5] == 0
              && t[13] - t[13] % 2 == 0x9A && t[21] - t[21] % 2 == 0x92
              && t[29] - t[29] % 2 == 0xFA && t[37] - t[37] % 2 == 0xF2
  {
  }

  /** The table after the processor has set the accessed bits of the kernel code and data segments. */
  function WithAccessed(table: seq<Byte>, code: bool, data: bool): (r: seq<Byte>)
    requires |table| == TABLE_SIZE
    ensures |r| == TABLE_SIZE
  {
    var t := if code then table[8 * GDT_KERNEL_CODE_ENTRY + ACCESS_BYTE := 0x9B] else table;
    if data then t[8 * GDT_KERNEL_DATA_ENTRY + ACCESS_BYTE := 0x93] else t
  }

  lemma AccessedBytes(table: seq<Byte>, code: bool, data: bool, k: nat)
    requires |table| == 48 && k < 48
    ensures WithAccessed(table, code, data)[k] ==
            if code && k == 13 then 0x9B else if data && k == 21 then 0x93 else table[k]
  {
  }

  lemma AccessedStillFits(table: seq<Byte>, code: bool, data: bool)
    requires |table| == TABLE_SIZE && AccessFits(table)
    ensures AccessFits(WithAccessed(table, code, data))
    ensures Entry(WithAccessed(table, code, data), GDT_TSS_ENTRY) == Entry(table, GDT_TSS_ENTRY)
  {
  }

  /** For every address of the TSS, installing its descriptor over the zeroed entry 5
      changes the checksum. */
  lemma TssChangesChecksum(table: seq<Byte>, tss: U32)
    requires |table| == TABLE_SIZE && AllZero(Entry(table, GDT_TSS_ENTRY))
    ensures Checksum(0, Patched(table, GDT_TSS_ENTRY, Descriptor(tss, TSS_LIMIT, 0x89, 0))) != Checksum(0, table)
  {
    hide Checksum, Descriptor, Weighty, AllZero, Patched, Entry;
    var d := Descriptor(tss, TSS_LIMIT, 0x89, 0);
    TssDescriptorIsWeighty(tss);
    var before, last := table[..8 * GDT_TSS_ENTRY], Entry(table, GDT_TSS_ENTRY);
    LastEntry(table, d);
    ChecksumConcat(0, before, d);
    ChecksumConcat(0, before, last);
    OverwritingZerosDetected(Checksum(0, before), d, last);
  }

  lemma TssDescriptorIsWeighty(tss: U32)
    ensures Weighty(Descriptor(tss, TSS_LIMIT, 0x89, 0))
  {
    assert ByteAt(TSS_LIMIT, 0) == 103;
  }

  lemma LastEntry(table: seq<Byte>, d: seq<Byte>)
    requires |table| == TABLE_SIZE && |d| == ENTRY_SIZE
    ensures var before := table[..8 * GDT_TSS_ENTRY];
            table == before + Entry(table, GDT_TSS_ENTRY) && Patched(table, GDT_TSS_ENTRY, d) == before + d
  {
  }

  /** The table `gdt_setup` builds before it loads it. */
  function FlatTable(): seq<Byte> {
    var t0 := Patched(seq(TABLE_SIZE, _ => 0), 0, Descriptor(0, 0, 0, 0));
    var t1 := Patched(t0, GDT_KERNEL_CODE_ENTRY, Descriptor(0, 0xFFFFF, 0x9A, 0xCF));
    var t2 := Patched(t1, GDT_KERNEL_DATA_ENTRY, Descriptor(0, 0xFFFFF, 0x92, 0xCF));
    var t3 := Patched(t2, GDT_USER_CODE_ENTRY, Descriptor(0, 0xFFFFF, 0xFA, 0xCF));
    Patched(t3, GDT_USER_DATA_ENTRY, Descriptor(0, 0xFFFFF, 0xF2, 0xCF))
  }

  lemma FlatTableFits()
    ensures |FlatTable()| == TABLE_SIZE
    ensures AccessFits(FlatTable()) && AllZero(Entry(FlatTable(), GDT_TSS_ENTRY))
  {
    hide Entry, Patched, Le16, AllZero, Descriptor;
    var z := seq(TABLE_SIZE, _ => 0);
    var d0, d1 := Descriptor(0, 0, 0, 0), Descriptor(0, 0xFFFFF, 0x9A, 0xCF);
    var d2, d3 := Descriptor(0, 0xFFFFF, 0x92, 0xCF), Descriptor(0, 0xFFFFF, 0xFA, 0xCF);
    var d4 := Descriptor(0, 0xFFFFF, 0xF2, 0xCF);
    NullDescriptor();
    ZeroTable();
    AccessOf(0, 0xFFFFF, 0x9A, 0xCF);
    AccessOf(0, 0xFFFFF, 0x92, 0xCF);
    AccessOf(0, 0xFFFFF, 0xFA, 0xCF);
    AccessOf(0, 0xFFFFF, 0xF2, 0xCF);
    var t0 := Patched(z, 0, d0);
    var t1 := Patched(t0, 1, d1);
    var t2 := Patched(t1, 2, d2);
    var t3 := Patched(t2, 3, d3);
    PatchedEntries(z, 0, d0);
    PatchedEntries(t0, 1, d1);
    PatchedEntries(t1, 2, d2);
    PatchedEntries(t2, 3, d3);
    PatchedEntries(t3, 4, d4);
  }

  /** What the table means: four flat 4 GiB segments with 4 KiB granularity and 32-bit operands, kernel
      code and data then user code and data, between two null entries. */
  lemma FlatTableMeaning(i: int)
    requires 0 <= i < GDT_ENTRIES_COUNT
    ensures |FlatTable()| == TABLE_SIZE
    ensures var d := Entry(FlatTable(), i);
            if i == 0 || i == GDT_TSS_ENTRY then
              AllZero(d)
            else
              && SegmentBase(d) == 0 && SegmentLimit(d) == 0xF_FFFF && d[6] / 0x10 == 0xC
              && d[ACCESS_BYTE] == (if i == 1 then 0x9A else if i == 2 then 0x92 else if i == 3 then 0xFA else 0xF2)
  {
    hide Entry, Patched, AllZero, Descriptor, SegmentBase, SegmentLimit;
    var z := seq(TABLE_SIZE, _ => 0);
    var t0 := Patched(z, 0, Descriptor(0, 0, 0, 0));
    var t1 := Patched(t0, 1, Descriptor(0, 0xFFFFF, 0x9A, 0xCF));
    var t2 := Patched(t1, 2, Descriptor(0, 0xFFFFF, 0x92, 0xCF));
    var t3 := Patched(t2, 3, Descriptor(0, 0xFFFFF, 0xFA, 0xCF));
    NullIsZero(0, 0, Descriptor(0, 0, 0, 0));
    ZeroTable();
    DescriptorReadsBack(0, 0xFFFFF, 0x9A, 0xCF);
    DescriptorReadsBack(0, 0xFFFFF, 0x92, 0xCF);
    DescriptorReadsBack(0, 0xFFFFF, 0xFA, 0xCF);
    DescriptorReadsBack(0, 0xFFFFF, 0xF2, 0xCF);
    PatchedEntries(z, 0, Descriptor(0, 0, 0, 0));
    PatchedEntries(t0, 1, Descriptor(0, 0xFFFFF, 0x9A, 0xCF));
    PatchedEntries(t1, 2, Descriptor(0, 0xFFFFF, 0x92, 0xCF));
    PatchedEntries(t2, 3, Descriptor(0, 0xFFFFF, 0xFA, 0xCF));
    PatchedEntries(t3, 4, Descriptor(0, 0xFFFFF, 0xF2, 0xCF));
  }

  lemma NullIsZero(zero: U32, gran: Byte, d: seq<Byte>)
    requires zero == 0 && gran == 0 && d == Descriptor(zero, zero, gran, gran)
    ensures AllZero(d)
  {
    hide AllZero, ByteAt;
    BytesMakeWord(zero);
    ZerosAreAllZero(d);
  }

  lemma {:induction false} ZerosAreAllZero(s: seq<Byte>)
    requires forall k | 0 <= k < |s| :: s[k] == 0
    ensures AllZero(s)
    decreases s
  {
    if s != [] {
      ZerosAreAllZero(s[1..]);
    }
  }

  lemma AccessOf(base: U32, limit: U32, access: Byte, gran: Byte)
    ensures Descriptor(base, limit, access, gran)[ACCESS_BYTE] == access
  {
  }

  lemma NullDescriptor()
    ensures var d := Descriptor(0, 0, 0, 0); Le16(d, 0) == 0 && Le16(d, 2) == 0 && d[ACCESS_BYTE] == 0
  {
  }

  lemma ZeroTable()
    ensures AllZero(Entry(seq(TABLE_SIZE, _ => 0), GDT_TSS_ENTRY))
  {
    ZerosAreAllZero(Entry(seq(TABLE_SIZE, _ => 0), GDT_TSS_ENTRY));
  }

  // ---------------------------------------------------------------- the table in memory

  class DescriptorTable {
    const entries: array<Byte>   // gdt_entries
    const address: U32           // &gdt_entries
    var checksum: U32
    var initialized: bool
    var pointerBase: U32
    var pointerLimit: nat

    ghost predicate Valid()
      reads this
    {
      entries.Length == TABLE_SIZE
    }

    /** What `gdt_verify_integrity` decides. */
    predicate Intact()
      requires Valid()
      reads this, entries
    {
      && initialized
      && Checksum(0, entries[..]) == checksum
      && AccessFits(entries[..])
      && pointerBase == address && pointerLimit == TABLE_SIZE - 1
    }

    constructor (address: U32)
      ensures Valid() && fresh(entries) && !initialized
    {
      entries := new Byte[TABLE_SIZE];
      this.address := address;
      initialized, checksum, pointerBase, pointerLimit := false, 0, 0, 0;
    }

    method CalculateChecksum() returns (sum: U32)
      requires Valid()
      ensures sum == Checksum(0, entries[..])
    {
      sum := 0;
      for i := 0 to TABLE_SIZE
        invariant Checksum(sum, entries[i..]) == Checksum(0, entries[..])
      {
        sum := AddByte(sum, entries[i]);
        sum := Rotate(sum);
        assert entries[i..][1..] == entries[i + 1..];
      }
    }

    method SetEntry(index: int, base: U32, limit: U32, access: Byte, gran: Byte)
      requires Valid()
      modifies entries
      ensures entries[..] == if 0 <= index < GDT_ENTRIES_COUNT
                             then Patched(old(entries[..]), index, Descriptor(base, limit, access, gran))
                             else old(entries[..])
    {
      if index < 0 || index >= GDT_ENTRIES_COUNT {
        return;
      }
      Store(index, Descriptor(base, limit, access, gran));
    }

    /** The fields of one packed entry, in memory order. */
    method Store(index: int, d: seq<Byte>)
      requires Valid() && 0 <= index < GDT_ENTRIES_COUNT && |d| == ENTRY_SIZE
      modifies entries
      ensures entries[..] == Patched(old(entries[..]), index, d)
    {
      ghost var was := entries[..];
      var at := 8 * index;
      for k := 0 to ENTRY_SIZE
        invariant forall j | 0 <= j < TABLE_SIZE ::
                    entries[j] == if at <= j < at + k then d[j - at] else was[j]
      {
        entries[at + k] := d[k];
      }
    }

    /** Loading the segment registers may set the accessed bits of the two kernel segments. */
    method Load(codeAccessed: bool, dataAccessed: bool)
      requires Valid()
      modifies entries
      ensures entries[..] == WithAccessed(old(entries[..]), codeAccessed, dataAccessed)
    {
      if codeAccessed {
        entries[8 * GDT_KERNEL_CODE_ENTRY + ACCESS_BYTE] := 0x9B;
      }
      if dataAccessed {
        entries[8 * GDT_KERNEL_DATA_ENTRY + ACCESS_BYTE] := 0x93;
      }
    }

    method Verify() returns (ok: bool)
      requires Valid()
      ensures ok == Intact()
      ensures ok <==>
                && initialized && Checksum(0, entries[..]) == checksum
                && entries[0] == entries[1] == entries[2] == entries[3] == entries[5] == 0
                && entries[13] in {0x9A, 0x9B} && entries[21] in {0x92, 0x93}
                && entries[29] in {0xFA, 0xFB} && entries[37] in {0xF2, 0xF3}
                && pointerBase == address && pointerLimit == 47
    {
      if !initialized {
        return false;
      }
      var current := CalculateChecksum();
      return current == checksum && AccessFits(entries[..])
             && pointerBase == address && pointerLimit == TABLE_SIZE - 1;
    }

    /** After `gdt_setup` the table verifies, whatever loading it did to the accessed bits. */
    method Setup(codeAccessed: bool, dataAccessed: bool) returns (ok: bool)
      requires Valid()
      modifies this, entries
      ensures Valid() && ok && Intact()
      ensures entries[..] == WithAccessed(FlatTable(), codeAccessed, dataAccessed)
      ensures AllZero(Entry(entries[..], GDT_TSS_ENTRY))
    {
      hide FlatTable, WithAccessed, AccessFits, AllZero, Entry, Checksum;
      FlatTableFits();
      AccessedStillFits(FlatTable(), codeAccessed, dataAccessed);
      Fill();
      pointerLimit, pointerBase := TABLE_SIZE - 1, address;
      Load(codeAccessed, dataAccessed);
      checksum := CalculateChecksum();
      initialized := true;
      ok := Verify();
    }

    method Fill()
      requires Valid()
      modifies entries
      ensures entries[..] == FlatTable()
    {
      hide Patched, Descriptor;
      for i := 0 to TABLE_SIZE
        invariant forall k | 0 <= k < i :: entries[k] == 0
      {
        entries[i] := 0;
      }
      assert entries[..] == seq(TABLE_SIZE, _ => 0);
      SetEntry(0, 0, 0, 0, 0);
      SetEntry(GDT_KERNEL_CODE_ENTRY, 0, 0xFFFFF, 0x9A, 0xCF);
      SetEntry(GDT_KERNEL_DATA_ENTRY, 0, 0xFFFFF, 0x92, 0xCF);
      SetEntry(GDT_USER_CODE_ENTRY, 0, 0xFFFFF, 0xFA, 0xCF);
      SetEntry(GDT_USER_DATA_ENTRY, 0, 0xFFFFF, 0xF2, 0xCF);
    }

    /** The table entry `tss_setup` writes: the stored checksum no longer certifies the table. */
    method InstallTss(tss: U32)
      requires Valid() && Intact() && AllZero(Entry(entries[..], GDT_TSS_ENTRY))
      modifies entries
      ensures entries[..] == Patched(old(entries[..]), 5, Descriptor(tss, 103, 0x89, 0))
      ensures !Intact()
    {
      TssChangesChecksum(entries[..], tss);
      SetEntry(GDT_TSS_ENTRY, tss, TSS_LIMIT, 0x89, 0);
    }
  }

  /** The boot order: both checks before the interrupt table is set up succeed, and a check after it
      would fail, for every address of the TSS. */
  method Boot(table: DescriptorTable, codeAccessed: bool, dataAccessed: bool, tss: U32)
    returns (atSetup: bool, beforeTss: bool, afterTss: bool)
    requires table.Valid()
    modifies table, table.entries
    ensures atSetup && beforeTss && !afterTss
  {
    atSetup := table.Setup(codeAccessed, dataAccessed);
    beforeTss := table.Verify();
    table.InstallTss(tss);
    afterTss := table.Verify();
  }
}
