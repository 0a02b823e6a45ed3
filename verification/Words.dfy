/** Bytes, 32-bit machine words and the little-endian fields of packed structures. */
module Words {

  datatype Option<+T> = None | Some(value: T)

  type Byte = x: nat | x < 0x100
  type U32 = x: nat | x < 0x1_0000_0000
  type I32 = x: int | -0x8000_0000 <= x < 0x8000_0000

  /** The value a 32-bit unsigned register holds after computing `x`. */
  function Wrap32(x: int): U32 {
    x % 0x1_0000_0000
  }

  /** Little-endian fields at offset `i`. */
  function Le16(s: seq<Byte>, i: nat): (x: nat)
    requires i + 2 <= |s|
    ensures x < 0x1_0000
  {
    s[i] as nat + 0x100 * s[i + 1] as nat
  }

  function Le32(s: seq<Byte>, i: nat): U32
    requires i + 4 <= |s|
  {
    Le16(s, i) + 0x1_0000 * Le16(s, i + 2)
  }

  /** Byte `k` of a word, counted from the low end. */
  function ByteAt(x: U32, k: nat): Byte
    requires k < 4
  {
    if k == 0 then x % 0x100
    else if k == 1 then x / 0x100 % 0x100
    else if k == 2 then x / 0x1_0000 % 0x100
    else x / 0x100_0000
  }

  lemma BytesMakeWord(x: U32)
    ensures x == ByteAt(x, 0) as nat + 0x100 * ByteAt(x, 1) as nat
                 + 0x1_0000 * (ByteAt(x, 2) as nat + 0x100 * ByteAt(x, 3) as nat)
  {
    var a, b := x / 0x100, x / 0x1_0000;
    assert a / 0x100 == b && b / 0x100 == x / 0x100_0000;
  }

  function Enc16(x: nat): (b: seq<Byte>)
    requires x < 0x1_0000
    ensures |b| == 2 && Le16(b, 0) == x
  {
    [x % 0x100, x / 0x100]
  }

  function Enc32(x: U32): (b: seq<Byte>)
    ensures |b| == 4 && Le32(b, 0) == x
  {
    BytesMakeWord(x);
    [ByteAt(x, 0), ByteAt(x, 1), ByteAt(x, 2), ByteAt(x, 3)]
  }

  type U64 = x: nat | x < 0x1_0000_0000_0000_0000

  function Wrap64(x: nat): U64 {
    x % 0x1_0000_0000_0000_0000
  }

  function Le64(s: seq<Byte>, i: nat): U64
    requires i + 8 <= |s|
  {
    Le32(s, i) + 0x1_0000_0000 * Le32(s, i + 4) as nat
  }

  function Enc64(x: U64): (b: seq<Byte>)
    ensures |b| == 8
  {
    Enc32(x % 0x1_0000_0000) + Enc32(x / 0x1_0000_0000)
  }

  /** `part` stands in `s` at `at`. */
  ghost predicate At(s: seq<Byte>, at: nat, part: seq<Byte>) {
    at + |part| <= |s| && s[at..at + |part|] == part
  }

  lemma AtSplit(s: seq<Byte>, at: nat, a: seq<Byte>, b: seq<Byte>)
    requires At(s, at, a + b)
    ensures At(s, at, a) && At(s, at + |a|, b)
  {
    var whole := s[at..at + |a + b|];
    assert s[at..at + |a|] == whole[..|a|];
    assert s[at + |a|..at + |a| + |b|] == whole[|a|..];
  }

  /** A field of `part` reads the same where `part` stands in `whole`. */
  lemma FieldInside(whole: seq<Byte>, at: nat, part: seq<Byte>, i: nat)
    requires At(whole, at, part)
    ensures i + 2 <= |part| ==> Le16(whole, at + i) == Le16(part, i)
    ensures i + 4 <= |part| ==> Le32(whole, at + i) == Le32(part, i)
  {
    assert forall k | 0 <= k < |part| :: part[k] == whole[at + k];
  }

  lemma WordAt(s: seq<Byte>, at: nat, x: U32)
    requires At(s, at, Enc32(x))
    ensures Le32(s, at) == x
  {
    FieldInside(s, at, Enc32(x), 0);
  }

  lemma LongAt(s: seq<Byte>, at: nat, x: U64)
    requires At(s, at, Enc64(x))
    ensures Le64(s, at) == x
  {
    AtSplit(s, at, Enc32(x % 0x1_0000_0000), Enc32(x / 0x1_0000_0000));
    WordAt(s, at, x % 0x1_0000_0000);
    WordAt(s, at + 4, x / 0x1_0000_0000);
  }

  /** The int with the bits of `u`. */
  function AsSigned(u: U32): I32 {
    if u < 0x8000_0000 then u else u - 0x1_0000_0000
  }

  /** The characters of a C string: everything before the first zero byte. */
  function CString(memory: seq<Byte>): (s: seq<Byte>)
    requires 0 in memory
    ensures |s| < |memory| && s == memory[..|s|] && memory[|s|] == 0 && 0 !in s
  {
    if memory[0] == 0 then [] else [memory[0]] + CString(memory[1..])
  }

  function Min(a: int, b: int): int {
    if a <= b then a else b
  }

  function Max(a: int, b: int): int {
    if a <= b then b else a
  }

  /** Quotient and remainder are the only pair that fits. */
  lemma QuotientRemainder(q: int, m: nat, r: nat)
    requires r < m
    ensures (q * m + r) / m == q && (q * m + r) % m == r
  {
    var x := q * m + r;
    var q' := x / m;
    var d := q - q';
    assert x == q' * m + x % m;
    assert d * m == x % m - r by { assert d * m == q * m - q' * m; }
  }

  lemma DivNonNegative(a: nat, d: nat)
    requires d > 0
    ensures 0 <= a / d
  {
    assert a == (a / d) * d + a % d;
  }

  /** `a / d` and `a % d` of unsigned words. */
  function Div(a: nat, d: nat): nat
    requires d > 0
  {
    DivNonNegative(a, d);
    a / d
  }

  function Mod(a: nat, d: nat): (r: nat)
    requires d > 0
    ensures r < d
  {
    a % d
  }

  lemma DivMod(a: nat, d: nat)
    requires d > 0
    ensures a == Div(a, d) * d + Mod(a, d)
  {
  }

  lemma DivModIs(q: nat, d: nat, r: nat)
    requires r < d
    ensures Div(q * d + r, d) == q && Mod(q * d + r, d) == r
  {
    QuotientRemainder(q, d, r);
  }

  lemma MulMono(a: int, b: int, c: nat)
    requires a <= b
    ensures a * c <= b * c
  {
    assert (b - a) * c >= 0;
  }

  lemma MulRegroup(a: int, b: int, c: int)
    ensures (a * b) * c == a * (b * c) == a * (c * b)
  {
  }

  lemma MulSum(a: int, b: int, c: int)
    ensures (a + b) * c == a * c + b * c
  {
  }

  // ---------------------------------------------------------------- parts of one size

  /** Where part number `i` begins, a block of an image or a row of a screen: `i * size` */
  function StartOf(i: nat, size: nat): nat {
    i * size
  }

  lemma NextStart(i: nat, size: nat)
    ensures StartOf(i + 1, size) == StartOf(i, size) + size
    ensures StartOf(0, size) == 0
  {
    MulSum(i, 1, size);
  }

  // ---------------------------------------------------------------- the byte order

  /** The number whose bytes these are, lowest first. */
  function LittleEndian(s: seq<Byte>): nat {
    if s == [] then 0 else s[0] as nat + 0x100 * LittleEndian(s[1..])
  }

  lemma TwoMore(s: seq<Byte>)
    requires |s| >= 2
    ensures LittleEndian(s) == s[0] as nat + 0x100 * s[1] as nat + 0x1_0000 * LittleEndian(s[2..])
  {
    assert s[1..][1..] == s[2..];
  }

  /** The readers read fields in that order. */
  lemma ReadersAreLittleEndian(s: seq<Byte>, i: nat)
    ensures i + 2 <= |s| ==> Le16(s, i) == LittleEndian(s[i..i + 2])
    ensures i + 4 <= |s| ==> Le32(s, i) == LittleEndian(s[i..i + 4])
    ensures i + 8 <= |s| ==> Le64(s, i) == LittleEndian(s[i..i + 8])
  {
    hide LittleEndian;
    Nothing();
    if i + 2 <= |s| {
      TwoMore(s[i..i + 2]);
      assert s[i..i + 2][2..] == [];
    }
    if i + 4 <= |s| {
      FourAre(s, i);
    }
    if i + 8 <= |s| {
      FourAre(s, i + 4);
      TwoMore(s[i..i + 8]);
      TwoMore(s[i + 2..i + 8]);
      assert s[i..i + 8][2..] == s[i + 2..i + 8] && s[i + 2..i + 8][2..] == s[i + 4..i + 8];
    }
  }

  lemma Nothing()
    ensures LittleEndian([]) == 0
  {
  }

  lemma FourAre(s: seq<Byte>, i: nat)
    requires i + 4 <= |s|
    ensures Le32(s, i) == LittleEndian(s[i..i + 4])
  {
    hide LittleEndian;
    Nothing();
    TwoMore(s[i..i + 4]);
    TwoMore(s[i + 2..i + 4]);
    assert s[i..i + 4][2..] == s[i + 2..i + 4] && s[i + 2..i + 4][2..] == [];
  }

  /** And the encoders write them in it. */
  lemma EncodersAreLittleEndian(x16: nat, x32: U32, x64: U64)
    requires x16 < 0x1_0000
    ensures LittleEndian(Enc16(x16)) == x16 && LittleEndian(Enc32(x32)) == x32 && LittleEndian(Enc64(x64)) == x64
  {
    hide Enc16, Enc32, LittleEndian, Le16, Le32;
    var s16, s32, s64 := Enc16(x16), Enc32(x32), Enc64(x64);
    ReadersAreLittleEndian(s16, 0);
    ReadersAreLittleEndian(s32, 0);
    ReadersAreLittleEndian(s64, 0);
    assert s16[0..2] == s16 && s32[0..4] == s32 && s64[0..8] == s64;
    assert At(s64, 0, s64);
    LongAt(s64, 0, x64);
  }

  /** Registers keep a value modulo 2^32 and 2^64, and signed words are two's complement. */
  lemma RegistersWrap(x: nat, q: nat, u: U32)
    ensures x < 0x1_0000_0000 ==> Wrap32(x + q * 0x1_0000_0000) == x == Wrap32(x - q * 0x1_0000_0000)
    ensures x < 0x1_0000_0000_0000_0000 ==> Wrap64(x + q * 0x1_0000_0000_0000_0000) == x
    ensures Wrap32(AsSigned(u)) == u
  {
  }
}
