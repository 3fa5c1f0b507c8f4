/** The bytes of a tree node and of a pointer to one: `inc/aulsmfs.h` and the encoding and parsing
    half of `lib/ctree.c`. */
module Codec {
  import opened Pairs
  import opened Crc64
  import opened Io

  /* ---------- Little-endian numbers ---------- */

  function Bit(on: bool, mask: byte): byte {
    if on then mask else 0
  }

  function Digit(on: bool, w: nat): (d: nat)
    ensures d <= w
  {
    if on then w else 0
  }

  function Weight(b: byte, mask: byte, w: nat): (d: nat)
    ensures d <= w
  {
    Digit(b & mask != 0, w)
  }

  function OfBits(b0: bool, b1: bool, b2: bool, b3: bool, b4: bool, b5: bool, b6: bool, b7: bool): byte {
    Bit(b0, 1) | Bit(b1, 2) | Bit(b2, 4) | Bit(b3, 8) | Bit(b4, 16) | Bit(b5, 32) | Bit(b6, 64) | Bit(b7, 128)
  }

  function Half(n: nat): nat {
    n / 2
  }

  predicate Odd(n: nat) {
    n % 2 == 1
  }

  /** The byte whose value is `n`, bit by bit. */
  function ToByte(n: nat): byte {
    var n1 := Half(n); var n2 := Half(n1); var n3 := Half(n2); var n4 := Half(n3);
    var n5 := Half(n4); var n6 := Half(n5); var n7 := Half(n6);
    OfBits(Odd(n), Odd(n1), Odd(n2), Odd(n3), Odd(n4), Odd(n5), Odd(n6), Odd(n7))
  }

  function FromByte(b: byte): (n: nat)
    ensures n < 256
  {
    Weight(b, 1, 1) + Weight(b, 2, 2) + Weight(b, 4, 4) + Weight(b, 8, 8)
    + Weight(b, 16, 16) + Weight(b, 32, 32) + Weight(b, 64, 64) + Weight(b, 128, 128)
  }

  lemma BitsBack(b0: bool, b1: bool, b2: bool, b3: bool, b4: bool, b5: bool, b6: bool, b7: bool)
    ensures var b := OfBits(b0, b1, b2, b3, b4, b5, b6, b7);
            && (b & 1 != 0 <==> b0) && (b & 2 != 0 <==> b1) && (b & 4 != 0 <==> b2) && (b & 8 != 0 <==> b3)
            && (b & 16 != 0 <==> b4) && (b & 32 != 0 <==> b5) && (b & 64 != 0 <==> b6) && (b & 128 != 0 <==> b7)
  {
  }

  lemma HalfOdd(n: nat, w: nat) returns (h: nat)
    ensures h == Half(n) && w * n == 2 * w * h + Digit(Odd(n), w)
  {
    h := Half(n);
    assert n == 2 * h + if Odd(n) then 1 else 0;
  }

  lemma Binary(n: nat) returns (n1: nat, n2: nat, n3: nat, n4: nat, n5: nat, n6: nat, n7: nat)
    requires n < 256
    ensures n1 == Half(n) && n2 == Half(n1) && n3 == Half(n2) && n4 == Half(n3)
    ensures n5 == Half(n4) && n6 == Half(n5) && n7 == Half(n6)
    ensures n == Digit(Odd(n), 1) + Digit(Odd(n1), 2) + Digit(Odd(n2), 4) + Digit(Odd(n3), 8)
                 + Digit(Odd(n4), 16) + Digit(Odd(n5), 32) + Digit(Odd(n6), 64) + Digit(Odd(n7), 128)
  {
    hide Half, Odd, Digit;
    n1 := HalfOdd(n, 1);
    n2 := HalfOdd(n1, 2);
    n3 := HalfOdd(n2, 4);
    n4 := HalfOdd(n3, 8);
    n5 := HalfOdd(n4, 16);
    n6 := HalfOdd(n5, 32);
    n7 := HalfOdd(n6, 64);
    var n8 := HalfOdd(n7, 128);
  }

  lemma ByteRoundTrip(n: nat)
    requires n < 256
    ensures FromByte(ToByte(n)) == n
  {
    hide Half, Odd, OfBits, Digit;
    var n1, n2, n3, n4, n5, n6, n7 := Binary(n);
    BitsBack(Odd(n), Odd(n1), Odd(n2), Odd(n3), Odd(n4), Odd(n5), Odd(n6), Odd(n7));
  }

  lemma HalfByte(b: byte)
    ensures b as int == 2 * ((b >> 1) as int) + Digit(b & 1 != 0, 1)
  {
  }

  lemma ByteMasks(b: byte)
    ensures (b >> 1) & 1 != 0 <==> b & 2 != 0
    ensures (b >> 2) & 1 != 0 <==> b & 4 != 0
    ensures (b >> 3) & 1 != 0 <==> b & 8 != 0
    ensures (b >> 4) & 1 != 0 <==> b & 16 != 0
    ensures (b >> 5) & 1 != 0 <==> b & 32 != 0
    ensures (b >> 6) & 1 != 0 <==> b & 64 != 0
    ensures (b >> 7) & 1 != 0 <==> b & 128 != 0
    ensures (b >> 1) >> 1 == b >> 2 && (b >> 2) >> 1 == b >> 3 && (b >> 3) >> 1 == b >> 4
    ensures (b >> 4) >> 1 == b >> 5 && (b >> 5) >> 1 == b >> 6 && (b >> 6) >> 1 == b >> 7 && (b >> 7) >> 1 == 0
  {
  }

  /** The number read from a byte is the value of the byte. */
  lemma FromByteIs(b: byte)
    ensures FromByte(b) == b as int
  {
    HalfByte(b);
    HalfByte(b >> 1);
    HalfByte(b >> 2);
    HalfByte(b >> 3);
    HalfByte(b >> 4);
    HalfByte(b >> 5);
    HalfByte(b >> 6);
    HalfByte(b >> 7);
    ByteMasks(b);
    hide Digit;
  }

  /** The byte written for a number has that value. */
  lemma ToByteIs(n: nat)
    requires n < 256
    ensures ToByte(n) as int == n
  {
    ByteRoundTrip(n);
    FromByteIs(ToByte(n));
  }

  function Pow256(n: nat): nat {
    if n == 0 then 1 else 256 * Pow256(n - 1)
  }

  /** `htole16`, `htole64`: the low `n` bytes, lowest first. */
  function Le(x: nat, n: nat): (bytes: Bytes)
    ensures |bytes| == n
    decreases n
  {
    if n == 0 then [] else [ToByte(x % 256)] + Le(x / 256, n - 1)
  }

  /** `le16toh`, `le64toh`. */
  function FromLe(bytes: Bytes): nat {
    if bytes == [] then 0 else FromByte(bytes[0]) + 256 * FromLe(bytes[1..])
  }

  lemma LeFirst(x: nat, n: nat)
    requires n > 0
    ensures Le(x, n)[0] == ToByte(x % 256) && Le(x, n)[1..] == Le(x / 256, n - 1)
  {
  }

  lemma FromLeFirst(x: nat, n: nat)
    requires n > 0
    ensures FromLe(Le(x, n)) == x % 256 + 256 * FromLe(Le(x / 256, n - 1))
  {
    ByteRoundTrip(x % 256);
    hide ToByte, FromByte;
    LeFirst(x, n);
    hide Le;
  }

  lemma Digits(low: nat, rest: nat, back: nat, p: nat)
    requires low < 256
    ensures low + 256 * rest < 256 * p ==> rest < p
    ensures back < p ==> low + 256 * back < 256 * p
  {
  }

  lemma {:induction false} LeRoundTrip(x: nat, n: nat)
    ensures x < Pow256(n) ==> FromLe(Le(x, n)) == x
    ensures FromLe(Le(x, n)) < Pow256(n)
    decreases n
  {
    if n > 0 {
      hide Le, FromLe;
      LeRoundTrip(x / 256, n - 1);
      FromLeFirst(x, n);
      Digits(x % 256, x / 256, FromLe(Le(x / 256, n - 1)), Pow256(n - 1));
    }
  }

  lemma PowPositive(n: nat)
    ensures Pow256(n) > 0
  {
  }

  lemma DivideTwice(x: nat, p: nat)
    requires p > 0
    ensures (x / 256) / p == x / (256 * p)
  {
    var q, r := x / 256 / p, x / 256 % p;
    assert x / 256 == q * p + r;
    var s := x % 256;
    assert x == 256 * (q * p + r) + s == q * (256 * p) + (256 * r + s);
    assert 0 <= 256 * r + s < 256 * p;
    DivideIs(x, 256 * p, q, 256 * r + s);
  }

  lemma DivideIs(x: nat, d: nat, q: nat, r: nat)
    requires d > 0 && x == q * d + r && r < d
    ensures x / d == q
  {
    var k := x / d;
    assert (q - k) * d == x % d - r;
    if q != k { NoMultiple(q - k, d); }
  }

  lemma {:induction false} AtLeast(m: nat, d: nat)
    requires m > 0
    ensures m * d >= d
  {
    if m > 1 { AtLeast(m - 1, d); }
  }

  lemma NoMultiple(m: int, d: int)
    requires m != 0 && d > 0
    ensures m * d >= d || m * d <= -d
  {
    if m > 0 {
      AtLeast(m, d);
    } else {
      AtLeast(-m, d);
    }
  }

  /** Byte `i` of the encoded number holds its digit of weight `256^i`. */
  lemma {:induction false} LeAt(x: nat, n: nat, i: nat)
    requires i < n
    ensures Pow256(i) > 0 && Le(x, n)[i] as int == (x / Pow256(i)) % 256
    decreases n
  {
    hide ToByte;
    PowPositive(i);
    LeFirst(x, n);
    ToByteIs(x % 256);
    if i > 0 {
      LeAt(x / 256, n - 1, i - 1);
      DivideTwice(x, Pow256(i - 1));
      hide Le;
      assert Le(x, n)[i] == Le(x, n)[1..][i - 1];
    }
  }

  lemma PowersOf256()
    ensures Pow256(2) == 0x1_0000 && Pow256(8) == LIMIT
  {
    assert Pow256(2) == 256 * Pow256(1) == 256 * 256 * Pow256(0);
    assert Pow256(4) == 256 * Pow256(3) == 256 * 256 * Pow256(2);
    assert Pow256(6) == 256 * Pow256(5) == 256 * 256 * Pow256(4);
    assert Pow256(8) == 256 * Pow256(7) == 256 * 256 * Pow256(6);
  }

  /** A 64-bit store, the inverse of `LoadLe`. */
  function StoreLe(w: bv64, n: nat): (bytes: Bytes)
    ensures |bytes| == n
    decreases n
  {
    if n == 0 then [] else [Low(w)] + StoreLe(Down8(w), n - 1)
  }

  ghost function Downs(w: bv64, n: nat): bv64
    decreases n
  {
    if n == 0 then w else Downs(Down8(w), n - 1)
  }

  lemma {:induction false} LoadStore(w: bv64, n: nat)
    requires Downs(w, n) == 0
    ensures LoadLe(StoreLe(w, n)) == w
    decreases n
  {
    hide Xor, Wide, Up8, Low, Down8;
    if n > 0 {
      LoadStore(Down8(w), n - 1);
      SplitLow(w);
      assert StoreLe(w, n)[1..] == StoreLe(Down8(w), n - 1);
    }
  }

  /** The bytes of a stored word, lowest first. */
  lemma StoreAt(w: bv64)
    ensures var s := StoreLe(w, 8);
            && s[0] == (w & 0xff) as byte && s[1] == ((w >> 8) & 0xff) as byte
            && s[2] == ((w >> 16) & 0xff) as byte && s[3] == ((w >> 24) & 0xff) as byte
            && s[4] == ((w >> 32) & 0xff) as byte && s[5] == ((w >> 40) & 0xff) as byte
            && s[6] == ((w >> 48) & 0xff) as byte && s[7] == ((w >> 56) & 0xff) as byte
  {
    Crc64.Downs(w);
    hide Down8;
    StoreNext(w, 8);
    StoreNext(w >> 8, 7);
    StoreNext(w >> 16, 6);
    StoreNext(w >> 24, 5);
    StoreNext(w >> 32, 4);
    StoreNext(w >> 40, 3);
    StoreNext(w >> 48, 2);
    StoreNext(w >> 56, 1);
    hide StoreLe;
    var s := StoreLe(w, 8);
    assert s[1..] == StoreLe(w >> 8, 7) && s[2..] == s[1..][1..] && s[3..] == s[2..][1..] && s[4..] == s[3..][1..];
    assert s[5..] == s[4..][1..] && s[6..] == s[5..][1..] && s[7..] == s[6..][1..];
  }

  lemma StoreNext(w: bv64, n: nat)
    requires n > 0
    ensures StoreLe(w, n)[0] == (w & 0xff) as byte && StoreLe(w, n)[1..] == StoreLe(Down8(w), n - 1)
  {
  }

  lemma EightDowns(w: bv64)
    ensures Downs(w, 8) == 0
  {
    Crc64.Downs(w);
    hide Down8;
    assert Downs(w >> 56, 1) == Downs(Down8(w >> 56), 0) == 0;
    assert Downs(w >> 48, 2) == Downs(w >> 56, 1);
    assert Downs(w >> 40, 3) == Downs(w >> 48, 2);
    assert Downs(w >> 32, 4) == Downs(w >> 40, 3);
    assert Downs(w >> 24, 5) == Downs(w >> 32, 4);
    assert Downs(w >> 16, 6) == Downs(w >> 24, 5);
    assert Downs(w >> 8, 7) == Downs(w >> 16, 6);
  }

  /* ---------- Pointers ---------- */

  /** `struct aulsmfs_ptr`. */
  datatype Ptr = Ptr(offs: nat, size: nat, csum: bv64)

  const PTR_SIZE: nat := 24

  function EncodePtr(p: Ptr): (bytes: Bytes)
    ensures |bytes| == PTR_SIZE
    ensures bytes[..8] == Le(p.offs, 8) && bytes[8..16] == Le(p.size, 8) && bytes[16..] == StoreLe(p.csum, 8)
  {
    Le(p.offs, 8) + Le(p.size, 8) + StoreLe(p.csum, 8)
  }

  function DecodePtr(bytes: Bytes): Ptr
    requires |bytes| == PTR_SIZE
  {
    Ptr(FromLe(bytes[..8]), FromLe(bytes[8..16]), LoadLe(bytes[16..]))
  }

  lemma PtrRoundTrip(p: Ptr)
    requires p.offs < LIMIT && p.size < LIMIT
    ensures DecodePtr(EncodePtr(p)) == p
  {
    PowersOf256();
    LeRoundTrip(p.offs, 8);
    LeRoundTrip(p.size, 8);
    EightDowns(p.csum);
    LoadStore(p.csum, 8);
    hide Le, FromLe, LoadLe, StoreLe;
    var bytes := EncodePtr(p);
    assert bytes[..8] == Le(p.offs, 8) && bytes[8..16] == Le(p.size, 8) && bytes[16..] == StoreLe(p.csum, 8);
  }

  /* ---------- Nodes ---------- */

  // Sizes of struct aulsmfs_node_header and struct aulsmfs_node_entry.
  const HEADER: nat := 16
  const ENTRY: nat := 4

  function EncodedSize(p: Pair): nat {
    ENTRY + |p.key| + |p.val|
  }

  /** One entry: the two 16-bit sizes, then the key and the value. */
  function EncodePair(p: Pair): (bytes: Bytes)
    ensures |bytes| == EncodedSize(p)
  {
    Le(|p.key|, 2) + Le(|p.val|, 2) + p.key + p.val
  }

  /** Where the parts of an entry are. */
  lemma EntryLayout(p: Pair)
    ensures var bytes := EncodePair(p);
            && bytes[..2] == Le(|p.key|, 2) && bytes[2..4] == Le(|p.val|, 2)
            && bytes[4..4 + |p.key|] == p.key && bytes[4 + |p.key|..] == p.val
  {
    hide Le;
  }

  function EncodePairs(s: seq<Pair>): Bytes {
    if s == [] then [] else EncodePairs(s[..|s| - 1]) + EncodePair(s[|s| - 1])
  }

  lemma EncodeAppend(s: seq<Pair>, p: Pair)
    ensures EncodePairs(s + [p]) == EncodePairs(s) + EncodePair(p)
  {
    assert (s + [p])[..|s|] == s;
  }

  lemma ConcatAssoc<T>(a: seq<T>, b: seq<T>, c: seq<T>)
    ensures (a + b) + c == a + (b + c)
  {
  }

  lemma {:induction false} EncodeConcat(s: seq<Pair>, t: seq<Pair>)
    ensures EncodePairs(s + t) == EncodePairs(s) + EncodePairs(t)
  {
    if t == [] {
      assert s + t == s;
    } else {
      var u, p := t[..|t| - 1], t[|t| - 1];
      hide *;
      assert t == u + [p];
      calc {
        EncodePairs(s + t);
        { ConcatAssoc(s, u, [p]); }
        EncodePairs((s + u) + [p]);
        { EncodeAppend(s + u, p); EncodeConcat(s, u); }
        (EncodePairs(s) + EncodePairs(u)) + EncodePair(p);
        { ConcatAssoc(EncodePairs(s), EncodePairs(u), EncodePair(p)); }
        EncodePairs(s) + (EncodePairs(u) + EncodePair(p));
        { EncodeAppend(u, p); }
        EncodePairs(s) + EncodePairs(t);
      }
    }
  }

  lemma EncodeFirst(s: seq<Pair>)
    requires s != []
    ensures EncodePairs(s) == EncodePair(s[0]) + EncodePairs(s[1..])
  {
    hide EncodePair;
    assert EncodePairs([s[0]]) == EncodePairs([]) + EncodePair(s[0]);
    EncodeConcat([s[0]], s[1..]);
    assert s == [s[0]] + s[1..];
  }

  /** What the two 16-bit sizes of an entry say. */
  function KeySize(buf: Bytes, offs: nat): nat
    requires offs + ENTRY <= |buf|
  {
    FromLe(buf[offs..offs + 2])
  }

  function ValSize(buf: Bytes, offs: nat): nat
    requires offs + ENTRY <= |buf|
  {
    FromLe(buf[offs + 2..offs + 4])
  }

  /** The entries that a buffer spells from `offs` to `bytes`, or nothing if they do not fit. */
  function ParseFrom(buf: Bytes, bytes: nat, offs: nat): Option<seq<Pair>>
    requires bytes <= |buf|
    decreases if offs <= bytes then bytes - offs else 0
  {
    if offs == bytes then Some([])
    else if offs + ENTRY > bytes then None
    else
      var ks, vs := KeySize(buf, offs), ValSize(buf, offs);
      var k := offs + ENTRY;
      if k + ks + vs > bytes then None
      else match ParseFrom(buf, bytes, k + ks + vs)
        case None => None
        case Some(rest) => Some([Pair(buf[k..k + ks], buf[k + ks..k + ks + vs])] + rest)
  }

  /** Both sizes of a pair fit into 16 bits. */
  predicate Short(p: Pair) {
    |p.key| < 0x1_0000 && |p.val| < 0x1_0000
  }

  predicate AllShort(s: seq<Pair>) {
    forall i :: 0 <= i < |s| ==> Short(s[i])
  }

  lemma SizesRoundTrip(p: Pair)
    requires Short(p)
    ensures FromLe(EncodePair(p)[..2]) == |p.key| && FromLe(EncodePair(p)[2..4]) == |p.val|
  {
    PowersOf256();
    LeRoundTrip(|p.key|, 2);
    LeRoundTrip(|p.val|, 2);
    EntryParts(p);
  }

  lemma EntryParts(p: Pair)
    ensures EncodePair(p)[..2] == Le(|p.key|, 2) && EncodePair(p)[2..4] == Le(|p.val|, 2)
    ensures EncodePair(p)[4..4 + |p.key|] == p.key && EncodePair(p)[4 + |p.key|..] == p.val
  {
    hide Le;
  }

  lemma SliceOfSlice(buf: Bytes, lo: nat, e: Bytes, i: nat, j: nat)
    requires lo + |e| <= |buf| && buf[lo..lo + |e|] == e && i <= j <= |e|
    ensures buf[lo + i..lo + j] == e[i..j]
  {
    var s, t := e[i..j], buf[lo + i..lo + j];
    assert forall k :: 0 <= k < |s| ==> s[k] == e[i + k] == buf[lo + i + k] == t[k];
  }

  lemma EntryPieces(buf: Bytes, offs: nat, e: Bytes, v: nat)
    requires offs + |e| <= |buf| && buf[offs..offs + |e|] == e && ENTRY <= v <= |e|
    ensures buf[offs..offs + 2] == e[..2] && buf[offs + 2..offs + 4] == e[2..4]
    ensures buf[offs + ENTRY..offs + v] == e[4..v] && buf[offs + v..offs + |e|] == e[v..]
  {
    SliceOfSlice(buf, offs, e, 0, 2);
    SliceOfSlice(buf, offs, e, 2, 4);
    SliceOfSlice(buf, offs, e, 4, v);
    SliceOfSlice(buf, offs, e, v, |e|);
  }

  /** An encoded pair at `offs` is read back if its sizes fit. */
  lemma EntryRoundTrip(buf: Bytes, offs: nat, p: Pair)
    requires offs + EncodedSize(p) <= |buf| && buf[offs..offs + EncodedSize(p)] == EncodePair(p) && Short(p)
    ensures KeySize(buf, offs) == |p.key| && ValSize(buf, offs) == |p.val|
    ensures var k := offs + ENTRY; Pair(buf[k..k + |p.key|], buf[k + |p.key|..k + |p.key| + |p.val|]) == p
  {
    hide Le, FromLe, EncodePair, Short;
    SizesRoundTrip(p);
    EntryParts(p);
    var e := EncodePair(p);
    EntryPieces(buf, offs, e, ENTRY + |p.key|);
  }

  lemma ParseEntry(buf: Bytes, bytes: nat, offs: nat, v: nat, next: nat, p: Pair, rest: seq<Pair>)
    requires offs + ENTRY <= v <= next <= bytes <= |buf|
    requires KeySize(buf, offs) == v - offs - ENTRY && ValSize(buf, offs) == next - v
    requires ParseFrom(buf, bytes, next) == Some(rest) && Pair(buf[offs + ENTRY..v], buf[v..next]) == p
    ensures ParseFrom(buf, bytes, offs) == Some([p] + rest)
  {
    hide KeySize, ValSize;
  }

  lemma ParseStep(buf: Bytes, bytes: nat, offs: nat, p: Pair, rest: seq<Pair>)
    requires offs + EncodedSize(p) <= bytes <= |buf| && buf[offs..offs + EncodedSize(p)] == EncodePair(p) && Short(p)
    requires ParseFrom(buf, bytes, offs + EncodedSize(p)) == Some(rest)
    ensures ParseFrom(buf, bytes, offs) == Some([p] + rest)
  {
    hide KeySize, ValSize, EncodePair, Short, ParseFrom;
    EntryRoundTrip(buf, offs, p);
    ParseEntry(buf, bytes, offs, offs + ENTRY + |p.key|, offs + EncodedSize(p), p, rest);
  }

  lemma {:induction false} ParseEncoded(buf: Bytes, bytes: nat, offs: nat, s: seq<Pair>)
    requires offs <= bytes <= |buf| && buf[offs..bytes] == EncodePairs(s) && AllShort(s)
    ensures ParseFrom(buf, bytes, offs) == Some(s)
    decreases |s|
  {
    hide *;
    if s == [] {
      ParseNothing(buf, bytes, offs);
    } else {
      var next, p, rest := SplitEncoded(buf, bytes, offs, s);
      ParseEncoded(buf, bytes, next, rest);
      ParseStep(buf, bytes, offs, p, rest);
    }
  }

  lemma ParseNothing(buf: Bytes, bytes: nat, offs: nat)
    requires offs <= bytes <= |buf| && buf[offs..bytes] == EncodePairs([])
    ensures ParseFrom(buf, bytes, offs) == Some([])
  {
    assert |buf[offs..bytes]| == 0;
  }

  lemma SplitEncoded(buf: Bytes, bytes: nat, offs: nat, s: seq<Pair>) returns (next: nat, p: Pair, rest: seq<Pair>)
    requires s != [] && offs <= bytes <= |buf| && buf[offs..bytes] == EncodePairs(s) && AllShort(s)
    ensures s == [p] + rest && |rest| < |s| && next == offs + EncodedSize(p) && next <= bytes && Short(p) &&
        AllShort(rest)
    ensures buf[offs..next] == EncodePair(p) && buf[next..bytes] == EncodePairs(rest)
  {
    p, rest := s[0], s[1..];
    next := offs + EncodedSize(p);
    EncodeFirst(s);
    hide EncodePairs, EncodePair, EncodedSize, Short;
    SplitSlice(buf, offs, next, bytes, EncodePair(p), EncodePairs(rest));
  }

  lemma SplitSlice(buf: Bytes, lo: nat, mid: nat, hi: nat, a: Bytes, b: Bytes)
    requires lo <= mid && hi <= |buf| && mid - lo == |a| && lo <= hi && buf[lo..hi] == a + b
    ensures mid <= hi && buf[lo..mid] == a && buf[mid..hi] == b
  {
    var e := buf[lo..hi];
    assert |e| == hi - lo && lo + |e| == hi;
    SliceOfSlice(buf, lo, e, 0, |a|);
    SliceOfSlice(buf, lo, e, |a|, |e|);
    assert e[..|a|] == a && e[|a|..] == b;
  }

  /** A parsed entry always has 16-bit sizes. */
  lemma {:induction false} ParsedIsShort(buf: Bytes, bytes: nat, offs: nat)
    requires bytes <= |buf|
    ensures ParseFrom(buf, bytes, offs).Some? ==> AllShort(ParseFrom(buf, bytes, offs).value)
    decreases if offs <= bytes then bytes - offs else 0
  {
    if offs != bytes && offs + ENTRY <= bytes {
      var ks, vs := KeySize(buf, offs), ValSize(buf, offs);
      assert ks < 0x1_0000 && vs < 0x1_0000 by {
        FromLeBound(buf[offs..offs + 2]);
        FromLeBound(buf[offs + 2..offs + 4]);
        PowersOf256();
      }
      if offs + ENTRY + ks + vs <= bytes {
        ParsedIsShort(buf, bytes, offs + ENTRY + ks + vs);
      }
    }
  }

  lemma {:induction false} FromLeBound(bytes: Bytes)
    ensures FromLe(bytes) < Pow256(|bytes|)
  {
    if bytes != [] {
      FromLeBound(bytes[1..]);
    }
  }

  /** The entries come back exactly when every size fits into its 16 bits. */
  lemma NodeRoundTrip(buf: Bytes, bytes: nat, offs: nat, s: seq<Pair>)
    requires offs <= bytes <= |buf| && buf[offs..bytes] == EncodePairs(s)
    ensures ParseFrom(buf, bytes, offs) == Some(s) <==> AllShort(s)
  {
    if AllShort(s) {
      ParseEncoded(buf, bytes, offs, s);
    } else {
      ParsedIsShort(buf, bytes, offs);
    }
  }

  /** What `ctree_node_read` and `ctree_node_parse` accept: the checksum matches the pointer, the
      header gives the expected level and a size within the pages, and the entries fit. */
  function DecodeNode(buf: Bytes, ptr: Ptr, level: nat): Option<seq<Pair>> {
    if Checksum(POLY, CRC64_INIT, buf) != ptr.csum || |buf| < HEADER then None
    else if FromLe(buf[..8]) > |buf| || buf[8..12] != Le(level, 4) then None
    else ParseFrom(buf, FromLe(buf[..8]), HEADER)
  }

  /** The node on the disk that a pointer leads to. */
  function NodeAt(d: Disk, ptr: Ptr, level: nat): Option<seq<Pair>> {
    DecodeNode(ReadAt(d, ptr.offs, ptr.size), ptr, level)
  }
}
