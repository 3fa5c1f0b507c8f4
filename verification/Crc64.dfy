/** The CRC-64 of `util/crc64.c`, its tables from `gen_crc64_table.py`, and the
    streaming context of `inc/crc64.h`, against a one-bit-at-a-time shift register. */
module Crc64 {
  import opened Pairs

  // The reversed "Jones" polynomial.
  const POLY: bv64 := 0x95ac9329ac4bc9b5
  const CRC64_INIT: bv64 := 0

  /* ---------- The reference: a shift register fed one message bit at a time ---------- */

  /** Addition in GF(2)^64. */
  function Xor(a: bv64, b: bv64): bv64 {
    a ^ b
  }

  function Shift(poly: bv64, crc: bv64): bv64 {
    if crc & 1 == 1 then poly ^ (crc >> 1) else crc >> 1
  }

  function Shifts(poly: bv64, crc: bv64, n: nat): bv64
    decreases n
  {
    if n == 0 then crc else Shifts(poly, Shift(poly, crc), n - 1)
  }

  function BitValue(bit: bool): bv64 {
    if bit then 1 else 0
  }

  /** Feeds `bits` into the register, first bit first. */
  function Register(poly: bv64, crc: bv64, bits: seq<bool>): bv64
    decreases |bits|
  {
    if bits == [] then crc else Register(poly, Shift(poly, Xor(crc, BitValue(bits[0]))), bits[1..])
  }

  /** The `n` lowest bits of a byte, least significant first. */
  function LowBits(b: byte, n: nat): (bits: seq<bool>)
    ensures |bits| == n
    decreases n
  {
    if n == 0 then [] else [b & 1 == 1] + LowBits(b >> 1, n - 1)
  }

  function ByteBits(b: byte): seq<bool> {
    LowBits(b, 8)
  }

  function Bits(data: seq<byte>): (bits: seq<bool>)
    ensures |bits| == 8 * |data|
  {
    if data == [] then [] else ByteBits(data[0]) + Bits(data[1..])
  }

  /** The register after all of `data`. */
  function Checksum(poly: bv64, init: bv64, data: seq<byte>): bv64 {
    Register(poly, init, Bits(data))
  }

  /* ---------- Facts about 64-bit words ---------- */

  lemma XorUnit(a: bv64)
    ensures Xor(a, 0) == a && Xor(0, a) == a
  {
  }

  lemma XorCommutes(a: bv64, b: bv64)
    ensures Xor(a, b) == Xor(b, a)
  {
  }

  lemma XorAssoc(a: bv64, b: bv64, c: bv64)
    ensures Xor(Xor(a, b), c) == Xor(a, Xor(b, c))
  {
    calc {
      Xor(Xor(a, b), c);
      Xor(a ^ b, c);
      (a ^ b) ^ c;
      a ^ (b ^ c);
      Xor(a, b ^ c);
      Xor(a, Xor(b, c));
    }
  }

  lemma XorSelf(a: bv64)
    ensures Xor(a, a) == 0
  {
  }

  lemma XorZero(a: bv64, b: bv64)
    ensures Xor(a, b) == 0 <==> a == b
  {
    hide Xor;
    XorSelf(a);
    XorSelf(b);
    XorAssoc(a, b, b);
    XorUnit(a);
    XorUnit(b);
  }

  lemma XorSwap(a: bv64, b: bv64, c: bv64, d: bv64)
    ensures Xor(Xor(a, b), Xor(c, d)) == Xor(Xor(a, c), Xor(b, d))
  {
    hide Xor;
    XorAssoc(a, b, Xor(c, d));
    XorAssoc(b, c, d);
    XorCommutes(b, c);
    XorAssoc(c, b, d);
    XorAssoc(a, c, Xor(b, d));
  }

  predicate Odd(w: bv64) {
    w & 1 == 1
  }

  function Half(w: bv64): bv64 {
    w >> 1
  }

  lemma OddXor(a: bv64, b: bv64)
    ensures Odd(Xor(a, b)) == (Odd(a) != Odd(b))
  {
  }

  lemma HalfXor(a: bv64, b: bv64)
    ensures Half(Xor(a, b)) == Xor(Half(a), Half(b))
  {
  }

  /* ---------- The register step is linear and injective over GF(2)^64 ---------- */

  lemma ShiftCases(poly: bv64, w: bv64)
    ensures Shift(poly, w) == if Odd(w) then Xor(poly, Half(w)) else Half(w)
  {
  }

  lemma ShiftLinear(poly: bv64, a: bv64, b: bv64)
    ensures Shift(poly, Xor(a, b)) == Xor(Shift(poly, a), Shift(poly, b))
  {
    hide Xor, Shift, Odd, Half;
    ShiftCases(poly, a);
    ShiftCases(poly, b);
    ShiftCases(poly, Xor(a, b));
    OddXor(a, b);
    HalfXor(a, b);
    XorSwap(poly, Half(a), poly, Half(b));
    XorSelf(poly);
    XorUnit(Xor(Half(a), Half(b)));
    XorAssoc(poly, Half(a), Half(b));
    XorSwap(0, Half(a), poly, Half(b));
    XorUnit(Half(a));
    XorUnit(poly);
  }

  lemma {:induction false} ShiftsLinear(poly: bv64, a: bv64, b: bv64, n: nat)
    ensures Shifts(poly, Xor(a, b), n) == Xor(Shifts(poly, a, n), Shifts(poly, b, n))
    decreases n
  {
    hide Xor, Shift;
    if n > 0 {
      ShiftLinear(poly, a, b);
      ShiftsLinear(poly, Shift(poly, a), Shift(poly, b), n - 1);
    }
  }

  lemma {:induction false} ShiftsAdd(poly: bv64, crc: bv64, m: nat, n: nat)
    ensures Shifts(poly, crc, m + n) == Shifts(poly, Shifts(poly, crc, m), n)
    decreases m
  {
    hide Shift;
    if m > 0 {
      ShiftsAdd(poly, Shift(poly, crc), m - 1, n);
    }
  }

  /** The polynomial has the full degree. */
  predicate TopSet(poly: bv64) {
    poly >> 63 == 1
  }

  lemma ShiftZero(poly: bv64, crc: bv64)
    requires TopSet(poly)
    ensures Shift(poly, crc) == 0 <==> crc == 0
  {
  }

  /** Without it one register is lost. */
  lemma ShiftLoses(poly: bv64)
    requires !TopSet(poly)
    ensures Shift(poly, (poly << 1) | 1) == 0 && (poly << 1) | 1 != 0
  {
    assert ((poly << 1) | 1) & 1 == 1 && ((poly << 1) | 1) >> 1 == poly;
    assert poly ^ poly == 0;
  }

  /** The step can be undone exactly if the polynomial has its top bit set. */
  lemma ShiftInjectiveExact(poly: bv64)
    ensures TopSet(poly) <==> forall w :: Shift(poly, w) == 0 <==> w == 0
  {
    hide Shift, TopSet;
    if TopSet(poly) {
      forall w
        ensures Shift(poly, w) == 0 <==> w == 0
      {
        ShiftZero(poly, w);
      }
    } else {
      ShiftLoses(poly);
    }
  }

  /** If the top bit is set, the bit that falls out can be read back. */
  lemma {:induction false} ShiftsInjective(poly: bv64, crc: bv64, n: nat)
    requires TopSet(poly)
    ensures Shifts(poly, crc, n) == 0 <==> crc == 0
    decreases n
  {
    hide Shift;
    if n > 0 {
      ShiftZero(poly, crc);
      ShiftsInjective(poly, Shift(poly, crc), n - 1);
    }
  }

  /* ---------- Feeding at most 64 bits is one addition and as many shifts ---------- */

  /** One place up. */
  function Up(w: bv64): bv64 {
    w << 1
  }

  /** The word whose low bits are `bits`, first bit lowest. */
  function Word(bits: seq<bool>): bv64 {
    if bits == [] then 0 else Xor(BitValue(bits[0]), Up(Word(bits[1..])))
  }

  function Push(mask: bv64): bv64 {
    (mask << 1) | 1
  }

  /** The `n` lowest bits. */
  function Mask(n: nat): bv64 {
    if n == 0 then 0 else Push(Mask(n - 1))
  }

  /** `w` has no bit outside `mask`. */
  predicate Within(w: bv64, mask: bv64) {
    w & !mask == 0
  }

  lemma WithinXor(a: bv64, b: bv64, mask: bv64)
    requires Within(a, mask) && Within(b, mask)
    ensures Within(Xor(a, b), mask)
  {
  }

  lemma WithinUp(w: bv64, mask: bv64)
    requires Within(w, mask)
    ensures Within(Up(w), Push(mask))
  {
  }

  lemma WithinBit(bit: bool, mask: bv64)
    ensures Within(BitValue(bit), Push(mask))
  {
  }

  lemma WithinStep(bit: bool, w: bv64, mask: bv64)
    requires Within(w, mask)
    ensures Within(Xor(BitValue(bit), Up(w)), Push(mask))
  {
    hide Within, Xor, BitValue, Up, Push;
    WithinUp(w, mask);
    WithinBit(bit, mask);
    WithinXor(BitValue(bit), Up(w), Push(mask));
  }

  lemma WithinZero(a: bv64)
    ensures Within(0, a)
  {
  }

  lemma WithinTrans(a: bv64, b: bv64, c: bv64)
    requires Within(a, b) && Within(b, c)
    ensures Within(a, c)
  {
  }

  lemma WithinPush(a: bv64, b: bv64)
    requires Within(a, b)
    ensures Within(Push(a), Push(b))
  {
  }

  lemma {:induction false} WordWithin(bits: seq<bool>)
    ensures Within(Word(bits), Mask(|bits|))
  {
    hide Within, Xor, Up, Push, BitValue;
    if bits == [] {
      WithinZero(0);
    } else {
      WordWithin(bits[1..]);
      WithinStep(bits[0], Word(bits[1..]), Mask(|bits| - 1));
    }
  }

  lemma {:induction false} MaskMonotone(m: nat, n: nat)
    requires m <= n
    ensures Within(Mask(m), Mask(n))
  {
    hide Within, Push;
    if m == 0 {
      WithinZero(Mask(n));
    } else {
      MaskMonotone(m - 1, n - 1);
      WithinPush(Mask(m - 1), Mask(n - 1));
    }
  }

  lemma Push7(m: bv64)
    ensures Push(Push(Push(Push(Push(Push(Push(m))))))) == (m << 7) | 0x7f
  {
  }

  lemma Mask7(n: nat, m: bv64)
    requires Mask(n) == m
    ensures Mask(n + 7) == (m << 7) | 0x7f
  {
    assert Push(Push(Push(Push(Push(Push(Push(m))))))) == (m << 7) | 0x7f by { Push7(m); }
    hide Push;
    assert Mask(n + 1) == Push(m);
    assert Mask(n + 2) == Push(Push(m));
    assert Mask(n + 3) == Push(Push(Push(m)));
    assert Mask(n + 4) == Push(Push(Push(Push(m))));
    assert Mask(n + 5) == Push(Push(Push(Push(Push(m)))));
    assert Mask(n + 6) == Push(Push(Push(Push(Push(Push(m))))));
  }

  lemma Mask63()
    ensures Mask(63) == 0x7fff_ffff_ffff_ffff
  {
    hide Mask;
    assert Mask(0) == 0 by { MaskZero(); }
    Mask7(0, 0);
    Mask7(7, 0x7f);
    Mask7(14, 0x3fff);
    Mask7(21, 0x1f_ffff);
    Mask7(28, 0xfff_ffff);
    Mask7(35, 0x7_ffff_ffff);
    Mask7(42, 0x3ff_ffff_ffff);
    Mask7(49, 0x1_ffff_ffff_ffff);
    Mask7(56, 0xff_ffff_ffff_ffff);
  }

  lemma MaskZero()
    ensures Mask(0) == 0
  {
  }

  lemma UpRoom(w: bv64)
    requires w & !0x7fff_ffff_ffff_ffff == 0
    ensures (w << 1) & 1 == 0 && (w << 1) >> 1 == w
  {
  }

  lemma ShiftUp(poly: bv64, w: bv64)
    requires Within(w, 0x7fff_ffff_ffff_ffff)
    ensures Shift(poly, Up(w)) == w
  {
    UpRoom(w);
    calc {
      Shift(poly, Up(w));
      Shift(poly, w << 1);
      (w << 1) >> 1;
      w;
    }
  }

  lemma HalfUp(w: bv64)
    requires Within(w, 0x7fff_ffff_ffff_ffff)
    ensures Half(Up(w)) == w
  {
    UpRoom(w);
  }

  lemma WordRoom(poly: bv64, bits: seq<bool>)
    requires |bits| <= 63
    ensures Shift(poly, Up(Word(bits))) == Word(bits) && Half(Up(Word(bits))) == Word(bits)
  {
    hide Within, Shift, Word, Mask, Up, Half;
    WordWithin(bits);
    MaskMonotone(|bits|, 63);
    Mask63();
    WithinTrans(Word(bits), Mask(|bits|), Mask(63));
    ShiftUp(poly, Word(bits));
    HalfUp(Word(bits));
  }

  lemma {:induction false} Absorb(poly: bv64, crc: bv64, bits: seq<bool>)
    requires |bits| <= 64
    ensures Register(poly, crc, bits) == Shifts(poly, Xor(crc, Word(bits)), |bits|)
    decreases |bits|
  {
    hide Xor, Shift, BitValue, Up;
    if bits == [] {
      XorUnit(crc);
    } else {
      var bit, rest := BitValue(bits[0]), bits[1..];
      var fed := Xor(crc, bit);
      Absorb(poly, Shift(poly, fed), rest);
      WordRoom(poly, rest);
      ShiftLinear(poly, fed, Up(Word(rest)));
      XorAssoc(crc, bit, Up(Word(rest)));
    }
  }

  /* ---------- One byte at a time ---------- */

  function Wide(b: byte): bv64 {
    b as bv64
  }

  function Low(w: bv64): byte {
    (w & 0xff) as byte
  }

  function Up8(w: bv64): bv64 {
    w << 8
  }

  function Down8(w: bv64): bv64 {
    w >> 8
  }

  lemma SplitLow(w: bv64)
    ensures w == Xor(Wide(Low(w)), Up8(Down8(w)))
    ensures Within(Down8(w), 0xff_ffff_ffff_ffff)
  {
    assert w == (w & 0xff) ^ ((w >> 8) << 8);
    assert (w >> 8) & !0xff_ffff_ffff_ffff == 0;
  }

  lemma Climb(w: bv64)
    requires Within(w, 0xff_ffff_ffff_ffff)
    ensures var top := 0x7fff_ffff_ffff_ffff;
      Within(w, top) && Within(Up(w), top) && Within(Up(Up(w)), top) && Within(Up(Up(Up(w))), top)
    ensures var top, v := 0x7fff_ffff_ffff_ffff, Up(Up(Up(Up(w))));
      Within(v, top) && Within(Up(v), top) && Within(Up(Up(v)), top) && Within(Up(Up(Up(v))), top)
  {
  }

  lemma ShiftsUp8(poly: bv64, w: bv64)
    requires Within(w, 0xff_ffff_ffff_ffff)
    ensures Shifts(poly, Up8(w), 8) == w
  {
    hide Within, Up, Up8, Shift;
    Climb(w);
    Up8IsEightUps(w);
    var v := Up(Up(Up(Up(w))));
    ShiftUp(poly, Up(Up(Up(v))));
    ShiftUp(poly, Up(Up(v)));
    ShiftUp(poly, Up(v));
    ShiftUp(poly, v);
    ShiftUp(poly, Up(Up(Up(w))));
    ShiftUp(poly, Up(Up(w)));
    ShiftUp(poly, Up(w));
    ShiftUp(poly, w);
    assert Shifts(poly, Up8(w), 8) == Shifts(poly, Up(Up(v)), 6) == Shifts(poly, v, 4) == Shifts(poly, Up(Up(w)), 2);
  }

  /** Eight steps move the word down a byte and add what the lost byte leaves behind. */
  lemma ByteStep(poly: bv64, w: bv64)
    ensures Shifts(poly, w, 8) == Xor(Down8(w), Shifts(poly, Wide(Low(w)), 8))
  {
    hide Within, Xor, Up8, Down8, Low, Wide, Shifts;
    SplitLow(w);
    ShiftsLinear(poly, Wide(Low(w)), Up8(Down8(w)), 8);
    ShiftsUp8(poly, Down8(w));
    XorCommutes(Shifts(poly, Wide(Low(w)), 8), Down8(w));
  }

  /** The same when more steps follow: this is what one more table buys. */
  lemma SliceStep(poly: bv64, w: bv64, n: nat)
    ensures Shifts(poly, w, n + 8) == Xor(Shifts(poly, Down8(w), n), Shifts(poly, Wide(Low(w)), n + 8))
  {
    hide Xor, Down8, Low, Wide, Shifts;
    var low := Wide(Low(w));
    ByteStep(poly, w);
    ShiftsAdd(poly, w, 8, n);
    ShiftsAdd(poly, low, 8, n);
    ShiftsLinear(poly, Down8(w), Shifts(poly, low, 8), n);
  }

  lemma WordCons(bit: bool, rest: seq<bool>)
    ensures Word([bit] + rest) == Xor(BitValue(bit), Up(Word(rest)))
  {
    hide Xor, Up, BitValue;
    assert ([bit] + rest)[1..] == rest;
  }

  function Ups(w: bv64, n: nat): bv64 {
    if n == 0 then w else Up(Ups(w, n - 1))
  }

  predicate Small(b: byte, n: nat)
    decreases n
  {
    if n == 0 then b == 0 else Small(b >> 1, n - 1)
  }

  lemma ByteIsSmall(b: byte)
    ensures Small(b, 8)
  {
    assert b >> 1 >> 1 >> 1 >> 1 >> 1 >> 1 >> 1 >> 1 == 0;
    assert Small(b >> 1 >> 1 >> 1 >> 1 >> 1 >> 1, 2);
    assert Small(b >> 1 >> 1 >> 1 >> 1, 4);
    assert Small(b >> 1 >> 1, 6);
  }

  lemma UpXor(a: bv64, b: bv64)
    ensures Up(Xor(a, b)) == Xor(Up(a), Up(b))
  {
  }

  lemma WideStep(b: byte)
    ensures Xor(BitValue(b & 1 == 1), Up(Wide(b >> 1))) == Wide(b)
  {
  }

  lemma {:induction false} WordOfLowBits(b: byte, n: nat, rest: seq<bool>)
    requires Small(b, n)
    ensures Word(LowBits(b, n) + rest) == Xor(Wide(b), Ups(Word(rest), n))
    decreases n
  {
    hide Xor, Up, Wide, BitValue, Word;
    if n == 0 {
      assert Wide(b) == 0 by { WideZero(); }
      XorUnit(Word(rest));
      assert LowBits(b, n) + rest == rest;
    } else {
      var tail := LowBits(b >> 1, n - 1) + rest;
      assert LowBits(b, n) + rest == [b & 1 == 1] + tail;
      WordCons(b & 1 == 1, tail);
      WordOfLowBits(b >> 1, n - 1, rest);
      UpXor(Wide(b >> 1), Ups(Word(rest), n - 1));
      XorAssoc(BitValue(b & 1 == 1), Up(Wide(b >> 1)), Ups(Word(rest), n));
      WideStep(b);
    }
  }

  lemma WideZero()
    ensures Wide(0) == 0
  {
  }

  lemma WordOfByte(b: byte, rest: seq<bool>)
    ensures Word(ByteBits(b) + rest) == Xor(Wide(b), Up8(Word(rest)))
  {
    hide Xor, Wide, Up8, Word, Up, Small, LowBits;
    ByteIsSmall(b);
    WordOfLowBits(b, 8, rest);
    var w := Word(rest);
    assert Ups(w, 1) == Up(Ups(w, 0));
    assert Ups(w, 2) == Up(Ups(w, 1));
    assert Ups(w, 4) == Up(Up(Ups(w, 2)));
    assert Ups(w, 6) == Up(Up(Ups(w, 4)));
    assert Ups(w, 8) == Up(Up(Ups(w, 6)));
    Up8IsEightUps(w);
  }

  lemma Up8IsEightUps(w: bv64)
    ensures Up8(w) == Up(Up(Up(Up(Up(Up(Up(Up(w))))))))
  {
  }

  lemma {:induction false} RegisterConcat(poly: bv64, crc: bv64, a: seq<bool>, b: seq<bool>)
    ensures Register(poly, crc, a + b) == Register(poly, Register(poly, crc, a), b)
    decreases |a|
  {
    hide Xor, Shift, BitValue;
    if a == [] {
      assert a + b == b;
    } else {
      assert (a + b)[1..] == a[1..] + b;
      RegisterConcat(poly, Shift(poly, Xor(crc, BitValue(a[0]))), a[1..], b);
    }
  }

  lemma {:induction false} BitsConcat(a: seq<byte>, b: seq<byte>)
    ensures Bits(a + b) == Bits(a) + Bits(b)
  {
    hide ByteBits;
    if a == [] {
      assert a + b == b;
    } else {
      assert (a + b)[1..] == a[1..] + b;
      BitsConcat(a[1..], b);
    }
  }

  /** Checksums stream: the result does not depend on where a message is cut. */
  lemma ChecksumConcat(poly: bv64, init: bv64, a: seq<byte>, b: seq<byte>)
    ensures Checksum(poly, init, a + b) == Checksum(poly, Checksum(poly, init, a), b)
  {
    hide Register, Bits;
    BitsConcat(a, b);
    RegisterConcat(poly, init, Bits(a), Bits(b));
  }

  /** What one byte does to the register. */
  lemma ChecksumByte(poly: bv64, crc: bv64, b: byte)
    ensures Checksum(poly, crc, [b]) == Shifts(poly, Xor(crc, Wide(b)), 8)
  {
    hide Xor, Wide, Up8, Shifts, Word, Register, ByteBits;
    assert Bits([b]) == ByteBits(b) + [];
    Absorb(poly, crc, ByteBits(b) + []);
    WordOfByte(b, []);
    assert Up8(Word([])) == 0 by { UpEmpty(); }
    XorUnit(Wide(b));
  }

  lemma UpEmpty()
    ensures Up8(Word([])) == 0
  {
  }

  /** A load from memory on a little-endian machine: the first byte is the lowest. */
  function LoadLe(d: seq<byte>): bv64 {
    if d == [] then 0 else Xor(Wide(d[0]), Up8(LoadLe(d[1..])))
  }

  lemma {:induction false} WordIsLoad(d: seq<byte>)
    ensures Word(Bits(d)) == LoadLe(d)
  {
    hide Xor, Wide, Up8, ByteBits;
    if d != [] {
      hide Word;
      WordOfByte(d[0], Bits(d[1..]));
      WordIsLoad(d[1..]);
    }
  }

  /** Eight bytes at once. */
  lemma ChecksumWord(poly: bv64, crc: bv64, d: seq<byte>)
    requires |d| == 8
    ensures Checksum(poly, crc, d) == Shifts(poly, Xor(LoadLe(d), crc), 64)
  {
    hide Xor, Word, Bits, LoadLe, Register, Shifts;
    Absorb(poly, crc, Bits(d));
    WordIsLoad(d);
    XorCommutes(crc, LoadLe(d));
  }

  /* ---------- The tables ---------- */

  /** `row` starts the table of what a byte leaves in the register after `n` steps. */
  ghost predicate IsRow(poly: bv64, row: seq<bv64>, n: nat) {
    |row| <= 256 && forall i :: 0 <= i < |row| ==> row[i] == Shifts(poly, Wide(i as byte), n)
  }

  /** Table k holds, for every byte, the register after that byte and k zero bytes. */
  ghost predicate IsCrcTables(poly: bv64, t: seq<seq<bv64>>) {
    |t| == 8 && forall k :: 0 <= k < 8 ==> |t[k]| == 256 && IsRow(poly, t[k], 8 * k + 8)
  }

  lemma ByteIndex(b: byte)
    ensures (b as int) as byte == b
  {
  }

  lemma RowAt(poly: bv64, row: seq<bv64>, n: nat, b: byte)
    requires |row| == 256 && IsRow(poly, row, n)
    ensures row[b as int] == Shifts(poly, Wide(b), n)
  {
    hide Shifts, Wide;
    ByteIndex(b);
  }

  method GenTable(poly: bv64) returns (table: seq<seq<bv64>>)
    ensures IsCrcTables(poly, table)
  {
    hide Shifts, Wide, Xor, Shift;
    var first: seq<bv64> := [];
    for b := 0 to 256
      invariant |first| == b && IsRow(poly, first, 8)
    {
      var crc := GenEntry(poly, b as byte);
      first := first + [crc];
    }
    table := [first];
    for i := 1 to 8
      invariant |table| == i && forall k :: 0 <= k < i ==> |table[k]| == 256 && IsRow(poly, table[k], 8 * k + 8)
    {
      var row := GenRow(poly, table[0], table[i - 1], 8 * i);
      table := table + [row];
    }
  }

  /** The innermost loop over a table: eight more steps for each entry of the one before. */
  method GenRow(ghost poly: bv64, first: seq<bv64>, last: seq<bv64>, ghost n: nat) returns (row: seq<bv64>)
    requires |first| == |last| == 256 && IsRow(poly, first, 8) && IsRow(poly, last, n)
    ensures |row| == 256 && IsRow(poly, row, n + 8)
  {
    hide Shifts, Wide, Xor, Shift;
    row := [];
    for pos := 0 to 256
      invariant |row| == pos && IsRow(poly, row, n + 8)
    {
      var x := last[pos];
      ByteStep(poly, x);
      RowAt(poly, first, 8, Low(x));
      ShiftsAdd(poly, Wide(pos as byte), n, 8);
      row := row + [Xor(Down8(x), first[Low(x) as int])];
    }
  }

  method GenEntry(poly: bv64, b: byte) returns (crc: bv64)
    ensures crc == Shifts(poly, Wide(b), 8)
  {
    hide Shifts, Wide, Shift;
    crc := Wide(b);
    assert crc == Shifts(poly, Wide(b), 0) by { ShiftsZero(poly, crc); }
    for j := 0 to 8
      invariant crc == Shifts(poly, Wide(b), j)
    {
      ShiftsLast(poly, Wide(b), j);
      crc := Shift(poly, crc);
    }
  }

  lemma ShiftsZero(poly: bv64, w: bv64)
    ensures Shifts(poly, w, 0) == w
  {
  }

  lemma ShiftsLast(poly: bv64, w: bv64, n: nat)
    ensures Shifts(poly, w, n + 1) == Shift(poly, Shifts(poly, w, n))
  {
    ShiftsAdd(poly, w, n, 1);
  }

  /* ---------- Slicing by eight ---------- */

  /** One step of the main loop: eight table entries added up. */
  function Slice8(t: seq<seq<bv64>>, word: bv64): bv64
    requires |t| == 8 && forall k :: 0 <= k < 8 ==> |t[k]| == 256
  {
    Xor(Xor(Xor(Xor(Xor(Xor(Xor(
      t[0][Low(word >> 56) as int],
      t[1][Low(word >> 48) as int]),
      t[2][Low(word >> 40) as int]),
      t[3][Low(word >> 32) as int]),
      t[4][Low(word >> 24) as int]),
      t[5][Low(word >> 16) as int]),
      t[6][Low(word >> 8) as int]),
      t[7][Low(word) as int])
  }

  lemma Downs(w: bv64)
    ensures Down8(w) == w >> 8 && Down8(w >> 8) == w >> 16 && Down8(w >> 16) == w >> 24 && Down8(w >> 24) == w >> 32
    ensures Down8(w >> 32) == w >> 40 && Down8(w >> 40) == w >> 48 && Down8(w >> 48) == w >> 56 && Down8(w >> 56) == 0
  {
  }

  /** One more lookup: the register eight steps further. */
  lemma SliceMore(poly: bv64, row: seq<bv64>, before: bv64, w: bv64, n: nat)
    requires |row| == 256 && IsRow(poly, row, n + 8)
    requires before == Shifts(poly, Down8(w), n)
    ensures Xor(before, row[Low(w) as int]) == Shifts(poly, w, n + 8)
  {
    hide Shifts, Wide, Xor, Down8, Low, IsRow;
    SliceStep(poly, w, n);
    RowAt(poly, row, n + 8, Low(w));
  }

  lemma SliceFirst(poly: bv64, row: seq<bv64>, w: bv64)
    requires |row| == 256 && IsRow(poly, row, 8) && Down8(w) == 0
    ensures row[Low(w) as int] == Shifts(poly, w, 8)
  {
    hide Shifts, Wide, Xor, Down8, Low, IsRow;
    ShiftsZero(poly, 0);
    SliceMore(poly, row, 0, w, 0);
    XorUnit(row[Low(w) as int]);
  }

  /** The eight lookups are the 64 steps of the register. */
  lemma SliceIsShifts(poly: bv64, t: seq<seq<bv64>>, word: bv64)
    requires IsCrcTables(poly, t)
    ensures Slice8(t, word) == Shifts(poly, word, 64)
  {
    hide Shifts, Xor, Down8, Low, IsRow;
    Downs(word);
    var p0 := t[0][Low(word >> 56) as int];
    SliceFirst(poly, t[0], word >> 56);
    var p1 := Xor(p0, t[1][Low(word >> 48) as int]);
    SliceMore(poly, t[1], p0, word >> 48, 8);
    var p2 := Xor(p1, t[2][Low(word >> 40) as int]);
    SliceMore(poly, t[2], p1, word >> 40, 16);
    var p3 := Xor(p2, t[3][Low(word >> 32) as int]);
    SliceMore(poly, t[3], p2, word >> 32, 24);
    var p4 := Xor(p3, t[4][Low(word >> 24) as int]);
    SliceMore(poly, t[4], p3, word >> 24, 32);
    var p5 := Xor(p4, t[5][Low(word >> 16) as int]);
    SliceMore(poly, t[5], p4, word >> 16, 40);
    var p6 := Xor(p5, t[6][Low(word >> 8) as int]);
    SliceMore(poly, t[6], p5, word >> 8, 48);
    SliceMore(poly, t[7], p6, word, 56);
  }

  lemma ByteLookup(poly: bv64, t: seq<seq<bv64>>, crc: bv64, b: byte)
    requires IsCrcTables(poly, t)
    ensures Xor(t[0][(Low(crc) ^ b) as int], Down8(crc)) == Checksum(poly, crc, [b])
  {
    assert Low(Xor(crc, Wide(b))) == Low(crc) ^ b;
    assert Down8(Xor(crc, Wide(b))) == Down8(crc);
    hide Shifts, Wide, Xor, Down8, Low;
    RowAt(poly, t[0], 8, Low(crc) ^ b);
    ByteStep(poly, Xor(crc, Wide(b)));
    ChecksumByte(poly, crc, b);
    XorCommutes(Down8(crc), t[0][(Low(crc) ^ b) as int]);
  }

  lemma ChecksumSlice(poly: bv64, init: bv64, data: seq<byte>, at: nat, end: nat)
    requires at <= end <= |data|
    ensures Checksum(poly, init, data[..end]) == Checksum(poly, Checksum(poly, init, data[..at]), data[at..end])
  {
    hide Checksum;
    assert data[..at] + data[at..end] == data[..end];
    ChecksumConcat(poly, init, data[..at], data[at..end]);
  }

  /** What a round of the main loop does to the checksum of the bytes before `at`. */
  lemma WordRound(poly: bv64, t: seq<seq<bv64>>, init: bv64, data: seq<byte>, at: nat, crc: bv64)
    requires IsCrcTables(poly, t) && at + 8 <= |data| && crc == Checksum(poly, init, data[..at])
    ensures Slice8(t, Xor(LoadLe(data[at..at + 8]), crc)) == Checksum(poly, init, data[..at + 8])
  {
    hide Checksum, Xor, LoadLe, Slice8, Shifts, IsRow;
    var d := data[at..at + 8];
    SliceIsShifts(poly, t, Xor(LoadLe(d), crc));
    ChecksumWord(poly, crc, d);
    ChecksumSlice(poly, init, data, at, at + 8);
  }

  /** And one that takes a single byte. */
  lemma ByteRound(poly: bv64, t: seq<seq<bv64>>, init: bv64, data: seq<byte>, at: nat, crc: bv64)
    requires IsCrcTables(poly, t) && at < |data| && crc == Checksum(poly, init, data[..at])
    ensures Xor(t[0][(Low(crc) ^ data[at]) as int], Down8(crc)) == Checksum(poly, init, data[..at + 1])
  {
    hide Checksum, Xor, Low, Down8, IsRow;
    ByteLookup(poly, t, crc, data[at]);
    ChecksumSlice(poly, init, data, at, at + 1);
    assert data[at..at + 1] == [data[at]];
  }

  /** `__crc64`: eight bytes at a time, then the rest byte by byte. */
  method Crc64(ghost poly: bv64, table: seq<seq<bv64>>, init: bv64, data: seq<byte>) returns (crc: bv64)
    requires IsCrcTables(poly, table)
    ensures crc == Checksum(poly, init, data)
  {
    hide Checksum, Xor, Low, Down8, LoadLe, Slice8, IsRow;
    crc := init;
    var at, size := 0, |data|;
    assert Checksum(poly, init, data[..0]) == init by { ChecksumEmpty(poly, init); }
    while size >= 8
      invariant 0 <= size && at + size == |data|
      invariant crc == Checksum(poly, init, data[..at])
    {
      WordRound(poly, table, init, data, at, crc);
      crc := Slice8(table, Xor(LoadLe(data[at..at + 8]), crc));
      at, size := at + 8, size - 8;
    }
    while size > 0
      invariant 0 <= size && at + size == |data|
      invariant crc == Checksum(poly, init, data[..at])
    {
      ByteRound(poly, table, init, data, at, crc);
      crc := Xor(table[0][(Low(crc) ^ data[at]) as int], Down8(crc));
      at, size := at + 1, size - 1;
    }
    assert data[..at] == data;
  }

  /** The commented-out reference in the source: one table, one byte at a time. */
  method Crc64Bytewise(ghost poly: bv64, table: seq<seq<bv64>>, init: bv64, data: seq<byte>) returns (crc: bv64)
    requires IsCrcTables(poly, table)
    ensures crc == Checksum(poly, init, data)
  {
    hide Checksum, Xor, Low, Down8, IsRow;
    crc := init;
    assert Checksum(poly, init, data[..0]) == init by { ChecksumEmpty(poly, init); }
    for at := 0 to |data|
      invariant crc == Checksum(poly, init, data[..at])
    {
      ByteRound(poly, table, init, data, at, crc);
      crc := Xor(table[0][(Low(crc) ^ data[at]) as int], Down8(crc));
    }
    assert data[..|data|] == data;
  }

  lemma ChecksumEmpty(poly: bv64, init: bv64)
    ensures Checksum(poly, init, []) == init
  {
  }

  /* ---------- Streaming ---------- */

  /** `struct crc64_ctx`. */
  class Context {
    var crc: bv64

    constructor ()
      ensures crc == CRC64_INIT
    {
      crc := CRC64_INIT;
    }

    method Update(ghost poly: bv64, table: seq<seq<bv64>>, data: seq<byte>)
      requires IsCrcTables(poly, table)
      modifies this
      ensures crc == Checksum(poly, old(crc), data)
    {
      crc := Crc64(poly, table, crc, data);
    }
  }

  function Concat(chunks: seq<seq<byte>>): seq<byte> {
    if chunks == [] then [] else chunks[0] + Concat(chunks[1..])
  }

  /** Feeding a message in any pieces gives the checksum of the whole. */
  method Stream(ghost poly: bv64, table: seq<seq<bv64>>, chunks: seq<seq<byte>>) returns (csum: bv64)
    requires IsCrcTables(poly, table)
    ensures csum == Checksum(poly, CRC64_INIT, Concat(chunks))
  {
    hide Checksum, IsCrcTables;
    var ctx := new Context();
    ChecksumEmpty(poly, CRC64_INIT);
    assert chunks[..0] == [];
    for i := 0 to |chunks|
      invariant ctx.crc == Checksum(poly, CRC64_INIT, Concat(chunks[..i]))
    {
      ConcatLast(chunks[..i], chunks[i]);
      assert chunks[..i] + [chunks[i]] == chunks[..i + 1];
      ChecksumConcat(poly, CRC64_INIT, Concat(chunks[..i]), chunks[i]);
      ctx.Update(poly, table, chunks[i]);
    }
    assert chunks[..|chunks|] == chunks;
    csum := ctx.crc;
  }

  lemma {:induction false} ConcatLast(chunks: seq<seq<byte>>, last: seq<byte>)
    ensures Concat(chunks + [last]) == Concat(chunks) + last
  {
    if chunks == [] {
      assert chunks + [last] == [last];
    } else {
      assert (chunks + [last])[1..] == chunks[1..] + [last];
      ConcatLast(chunks[1..], last);
    }
  }

  /* ---------- A known checksum ---------- */

  /** Eight steps written out. */
  lemma EightSteps(poly: bv64, c: bv64)
    ensures Shifts(poly, c, 8) == Shift(poly, Shift(poly, Shift(poly, Shift(poly, Shift(poly, Shift(poly, Shift(poly, Shift(poly, c))))))))
  {
    hide Shift;
    assert Shifts(poly, c, 8) == Shifts(poly, Shift(poly, Shift(poly, c)), 6);
    var d := Shift(poly, Shift(poly, c));
    assert Shifts(poly, d, 6) == Shifts(poly, Shift(poly, Shift(poly, d)), 4);
    var e := Shift(poly, Shift(poly, d));
    assert Shifts(poly, e, 4) == Shifts(poly, Shift(poly, Shift(poly, e)), 2);
  }

  lemma CheckByte(s: seq<byte>, before: bv64, b: byte, fed: bv64, after: bv64)
    returns (t: seq<byte>)
    requires Checksum(POLY, CRC64_INIT, s) == before && Xor(before, Wide(b)) == fed
    requires Shift(POLY, Shift(POLY, Shift(POLY, Shift(POLY, Shift(POLY, Shift(POLY, Shift(POLY, Shift(POLY, fed)))))))) == after
    ensures t == s + [b] && Checksum(POLY, CRC64_INIT, t) == after
  {
    hide Checksum, Shift, Shifts, Xor, Wide;
    EightSteps(POLY, fed);
    ChecksumByte(POLY, before, b);
    ChecksumConcat(POLY, CRC64_INIT, s, [b]);
    t := s + [b];
  }

  /** The checksum of the nine digits 1 to 9. */
  lemma CheckValue()
    ensures Checksum(POLY, CRC64_INIT, [0x31, 0x32, 0x33, 0x34, 0x35, 0x36, 0x37, 0x38, 0x39]) == 0xe9c6d914c4b8d9ca
  {
    hide Checksum;
    ChecksumEmpty(POLY, CRC64_INIT);
    var s := CheckByte([], 0x0, 0x31, 0x31, 0xfdc17184a9f739fa);
    s := CheckByte(s, 0xfdc17184a9f739fa, 0x32, 0xfdc17184a9f739c8, 0xe10364513a98ed96);
    s := CheckByte(s, 0xe10364513a98ed96, 0x33, 0xe10364513a98eda5, 0xd5bcfb814479b1ac);
    s := CheckByte(s, 0xd5bcfb814479b1ac, 0x34, 0xd5bcfb814479b198, 0x43593c5dcda521f0);
    s := CheckByte(s, 0x43593c5dcda521f0, 0x35, 0x43593c5dcda521c5, 0xf0758513239c7e0d);
    s := CheckByte(s, 0xf0758513239c7e0d, 0x36, 0xf0758513239c7e3b, 0xa3a90925b2ab4903);
    s := CheckByte(s, 0xa3a90925b2ab4903, 0x37, 0xa3a90925b2ab4934, 0x47824d362431ad45);
    s := CheckByte(s, 0x47824d362431ad45, 0x38, 0x47824d362431ad7d, 0x49ec20b315e86dc2);
    s := CheckByte(s, 0x49ec20b315e86dc2, 0x39, 0x49ec20b315e86dfb, 0xe9c6d914c4b8d9ca);
    assert s == [0x31, 0x32, 0x33, 0x34, 0x35, 0x36, 0x37, 0x38, 0x39];
  }

  /* ---------- Error detection ---------- */

  lemma {:induction false} WordInjective(a: seq<bool>, b: seq<bool>)
    requires |a| == |b| <= 64
    ensures Word(a) == Word(b) <==> a == b
  {
    if a != [] {
      WordInjective(a[1..], b[1..]);
      WordRoom(0, a[1..]);
      WordRoom(0, b[1..]);
      WordHead(a[0], Word(a[1..]), b[0], Word(b[1..]));
      assert a == [a[0]] + a[1..] && b == [b[0]] + b[1..];
    }
  }

  lemma OddWord(bit: bool, w: bv64)
    ensures Odd(Xor(BitValue(bit), Up(w))) == bit
  {
  }

  lemma HalfWord(bit: bool, w: bv64)
    ensures Half(Xor(BitValue(bit), Up(w))) == Half(Up(w))
  {
  }

  lemma WordHead(a: bool, v: bv64, b: bool, w: bv64)
    requires Half(Up(v)) == v && Half(Up(w)) == w
    ensures Xor(BitValue(a), Up(v)) == Xor(BitValue(b), Up(w)) <==> a == b && v == w
  {
    hide Xor, Up, Odd, Half, BitValue;
    OddWord(a, v);
    OddWord(b, w);
    HalfWord(a, v);
    HalfWord(b, w);
  }

  /** Different registers stay different whatever follows. */
  lemma {:induction false} RegisterInjective(poly: bv64, c: bv64, d: bv64, bits: seq<bool>)
    requires TopSet(poly)
    ensures Register(poly, c, bits) == Register(poly, d, bits) <==> c == d
    decreases |bits|
  {
    hide Xor, Shift, BitValue;
    if bits != [] {
      var bit := BitValue(bits[0]);
      RegisterInjective(poly, Shift(poly, Xor(c, bit)), Shift(poly, Xor(d, bit)), bits[1..]);
      ShiftsInjectivePair(poly, Xor(c, bit), Xor(d, bit), 1);
      assert Shifts(poly, Xor(c, bit), 1) == Shift(poly, Xor(c, bit)) && Shifts(poly, Xor(d, bit), 1) == Shift(poly, Xor(d, bit));
      XorCancelRight(c, d, bit);
    }
  }

  lemma XorCancelRight(a: bv64, b: bv64, c: bv64)
    ensures Xor(a, c) == Xor(b, c) <==> a == b
  {
    hide Xor;
    XorSelf(c);
    XorAssoc(a, c, c);
    XorAssoc(b, c, c);
    XorUnit(a);
    XorUnit(b);
  }

  lemma ShiftsInjectivePair(poly: bv64, a: bv64, b: bv64, n: nat)
    requires TopSet(poly)
    ensures Shifts(poly, a, n) == Shifts(poly, b, n) <==> a == b
  {
    hide Xor, Shifts;
    ShiftsLinear(poly, a, b, n);
    ShiftsInjective(poly, Xor(a, b), n);
    XorZero(a, b);
    XorZero(Shifts(poly, a, n), Shifts(poly, b, n));
  }

  /** Two messages that differ at most inside a window of 64 consecutive bits, wherever it
      starts, have the same register exactly when they are the same message. */
  lemma BurstDetected(poly: bv64, init: bv64, before: seq<bool>, v: seq<bool>, w: seq<bool>, after: seq<bool>)
    requires TopSet(poly) && |v| == |w| <= 64
    ensures Register(poly, init, before + v + after) == Register(poly, init, before + w + after) <==> v == w
  {
    hide Register, Xor, Word, Shifts;
    var c := Register(poly, init, before);
    RegisterConcat(poly, init, before + v, after);
    RegisterConcat(poly, init, before + w, after);
    RegisterConcat(poly, init, before, v);
    RegisterConcat(poly, init, before, w);
    RegisterInjective(poly, Register(poly, c, v), Register(poly, c, w), after);
    Absorb(poly, c, v);
    Absorb(poly, c, w);
    ShiftsInjectivePair(poly, Xor(c, Word(v)), Xor(c, Word(w)), |v|);
    XorCommutes(c, Word(v));
    XorCommutes(c, Word(w));
    XorCancelRight(Word(v), Word(w), c);
    WordInjective(v, w);
  }

  lemma {:induction false} BitsInjective(a: seq<byte>, b: seq<byte>)
    requires |a| == |b|
    ensures Bits(a) == Bits(b) <==> a == b
  {
    if a != [] {
      BitsInjective(a[1..], b[1..]);
      ByteBitsInjective(a[0], b[0]);
      assert Bits(a)[..8] == ByteBits(a[0]) && Bits(b)[..8] == ByteBits(b[0]);
      assert Bits(a)[8..] == Bits(a[1..]) && Bits(b)[8..] == Bits(b[1..]);
      assert a == [a[0]] + a[1..] && b == [b[0]] + b[1..];
    }
  }

  lemma ByteBitsInjective(a: byte, b: byte)
    ensures ByteBits(a) == ByteBits(b) <==> a == b
  {
    hide Xor, Wide, Up8, Word, ByteBits;
    WordOfByte(a, []);
    WordOfByte(b, []);
    XorCancelRight(Wide(a), Wide(b), Up8(Word([])));
    WideInjective(a, b);
  }

  lemma WideInjective(a: byte, b: byte)
    ensures Wide(a) == Wide(b) <==> a == b
  {
  }

  /** The byte-level reading: damage inside any eight consecutive bytes is always noticed. */
  lemma WindowDetected(poly: bv64, init: bv64, before: seq<byte>, v: seq<byte>, w: seq<byte>, after: seq<byte>)
    requires TopSet(poly) && |v| == |w| <= 8
    ensures Checksum(poly, init, before + v + after) == Checksum(poly, init, before + w + after) <==> v == w
  {
    hide Register, Bits;
    BitsConcat(before + v, after);
    BitsConcat(before, v);
    BitsConcat(before + w, after);
    BitsConcat(before, w);
    BitsInjective(v, w);
    BurstDetected(poly, init, Bits(before), Bits(v), Bits(w), Bits(after));
  }
}
