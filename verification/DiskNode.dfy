/** `struct ctree_node` of `lib/ctree.c`: the buffer that a node is built in or read into. */
module DiskNode {
  import opened Pairs
  import opened Crc64
  import opened Io
  import opened Codec

  const MIN_FANOUT: nat := 100

  /** `struct ctree_entry`: where a key and its value stand in the buffer. */
  datatype Entry = Entry(keyOffs: nat, keySize: nat, valOffs: nat, valSize: nat)

  predicate Inside(e: Entry, bytes: nat) {
    HEADER <= e.keyOffs && e.keyOffs + e.keySize == e.valOffs && e.valOffs + e.valSize <= bytes
  }

  predicate AllInside(entry: seq<Entry>, bytes: nat) {
    forall i :: 0 <= i < |entry| ==> Inside(entry[i], bytes)
  }

  function Item(buf: Bytes, e: Entry): Pair
    requires Inside(e, |buf|)
  {
    Pair(buf[e.keyOffs..e.valOffs], buf[e.valOffs..e.valOffs + e.valSize])
  }

  /** What the entries spell in the buffer. */
  function Items(buf: Bytes, entry: seq<Entry>): (s: seq<Pair>)
    requires AllInside(entry, |buf|)
    ensures |s| == |entry|
  {
    if entry == [] then [] else
      var n := |entry| - 1;
      assert AllInside(entry[..n], |buf|);
      Items(buf, entry[..n]) + [Item(buf, entry[n])]
  }

  lemma {:induction false} ItemsAt(buf: Bytes, entry: seq<Entry>, i: nat)
    requires AllInside(entry, |buf|) && i < |entry|
    ensures Items(buf, entry)[i] == Item(buf, entry[i])
  {
    var n := |entry| - 1;
    assert AllInside(entry[..n], |buf|);
    if i < n {
      ItemsAt(buf, entry[..n], i);
    }
  }

  lemma AllInsideMore(entry: seq<Entry>, bytes: nat, more: nat)
    requires AllInside(entry, bytes) && bytes <= more
    ensures AllInside(entry, more)
  {
  }

  /** Bytes outside `HEADER..bytes` do not matter to what the entries spell. */
  lemma {:induction false} ItemsSame(buf: Bytes, buf': Bytes, entry: seq<Entry>, bytes: nat)
    requires HEADER <= bytes <= |buf| && bytes <= |buf'| && buf[HEADER..bytes] == buf'[HEADER..bytes]
    requires AllInside(entry, bytes) && AllInside(entry, |buf|) && AllInside(entry, |buf'|)
    ensures Items(buf, entry) == Items(buf', entry)
  {
    if entry != [] {
      var n := |entry| - 1;
      assert AllInside(entry[..n], bytes) && AllInside(entry[..n], |buf|) && AllInside(entry[..n], |buf'|);
      ItemSame(buf, buf', entry[n], bytes);
      hide Inside, AllInside, Item;
      ItemsSame(buf, buf', entry[..n], bytes);
    }
  }

  lemma ItemSame(buf: Bytes, buf': Bytes, e: Entry, bytes: nat)
    requires HEADER <= bytes <= |buf| && bytes <= |buf'| && buf[HEADER..bytes] == buf'[HEADER..bytes]
    requires Inside(e, bytes)
    ensures Inside(e, |buf|) && Inside(e, |buf'|) && Item(buf, e) == Item(buf', e)
  {
    var s := buf[HEADER..bytes];
    SliceOfSlice(buf, HEADER, s, e.keyOffs - HEADER, e.valOffs - HEADER);
    SliceOfSlice(buf', HEADER, s, e.keyOffs - HEADER, e.valOffs - HEADER);
    SliceOfSlice(buf, HEADER, s, e.valOffs - HEADER, e.valOffs + e.valSize - HEADER);
    SliceOfSlice(buf', HEADER, s, e.valOffs - HEADER, e.valOffs + e.valSize - HEADER);
  }

  /** `ctree_node_can_append` on the counters of a node. */
  predicate Room(ps: nat, entries: nat, bytes: nat, count: nat, size: nat)
    requires ps > 0
  {
    entries + count <= MIN_FANOUT || IoPages(ps, bytes + count * ENTRY + size) == IoPages(ps, bytes)
  }

  function Min(a: nat, b: nat): nat {
    if a < b then a else b
  }

  function Zeros(n: nat): (s: Bytes)
    ensures |s| == n && forall i :: 0 <= i < n ==> s[i] == 0
  {
    seq(n, _ => 0)
  }

  function NoEntries(n: nat): (s: seq<Entry>)
    ensures |s| == n && forall i :: 0 <= i < n ==> s[i] == Entry(0, 0, 0, 0)
  {
    seq(n, _ => Entry(0, 0, 0, 0))
  }

  /** A whole number of pages. */
  predicate Paged(ps: nat, n: nat)
    requires ps > 0
  {
    n == IoAlign(ps, n)
  }

  lemma PagedSizes(ps: nat, m: nat, n: nat)
    requires ps > 0
    ensures Paged(ps, IoAlign(ps, n)) && (Paged(ps, m) ==> Paged(ps, 2 * m))
  {
    PagedMultiple(ps, IoPages(ps, n));
    if Paged(ps, m) {
      PagedMultiple(ps, 2 * IoPages(ps, m));
      BytesMonotone(ps, IoPages(ps, m), 2 * IoPages(ps, m));
    }
  }

  lemma AlignHolds(ps: nat, n: nat)
    requires ps > 0
    ensures n <= IoAlign(ps, n)
  {
    PagesHold(ps, n);
  }

  lemma PagedMultiple(ps: nat, k: nat)
    requires ps > 0
    ensures Paged(ps, IoBytes(ps, k))
  {
    PagesExact(ps, IoBytes(ps, k), k);
    PagesHold(ps, IoBytes(ps, k));
    if IoPages(ps, IoBytes(ps, k)) < k {
      BytesMonotone(ps, IoPages(ps, IoBytes(ps, k)) + 1, k);
    }
  }

  lemma PagedHolds(ps: nat, m: nat, n: nat)
    requires ps > 0 && Paged(ps, m) && n <= m
    ensures IoAlign(ps, n) <= m
  {
    PagesMonotone(ps, n, m);
    BytesMonotone(ps, IoPages(ps, n), IoPages(ps, m));
  }

  /** `memcpy(buf + offs, data, |data|)`. */
  function Blit(buf: Bytes, offs: nat, data: Bytes): (r: Bytes)
    requires offs + |data| <= |buf|
    ensures |r| == |buf|
  {
    buf[..offs] + data + buf[offs + |data|..]
  }

  lemma BlitTwice(buf: Bytes, offs: nat, a: Bytes, b: Bytes)
    requires offs + |a| + |b| <= |buf|
    ensures Blit(Blit(buf, offs, a), offs + |a|, b) == Blit(buf, offs, a + b)
  {
    assert Blit(buf, offs, a)[..offs + |a|] == buf[..offs] + a;
    assert Blit(buf, offs, a)[offs + |a| + |b|..] == buf[offs + |a| + |b|..];
  }

  lemma BlitParts(buf: Bytes, offs: nat, data: Bytes)
    requires offs + |data| <= |buf|
    ensures Blit(buf, offs, data)[..offs] == buf[..offs]
    ensures Blit(buf, offs, data)[offs..offs + |data|] == data
  {
  }

  /** What a node does not use is zero. */
  ghost predicate Padded(buf: Bytes, bytes: nat) {
    forall i :: bytes <= i < |buf| ==> buf[i] == 0
  }

  lemma PaddedBlit(buf: Bytes, offs: nat, data: Bytes, bytes: nat)
    requires offs + |data| <= |buf| && Padded(buf, bytes) && bytes <= offs + |data|
    ensures Padded(Blit(buf, offs, data), offs + |data|)
  {
  }

  lemma PaddedHeader(buf: Bytes, data: Bytes, bytes: nat)
    requires |data| <= bytes <= |buf| && Padded(buf, bytes)
    ensures Padded(Blit(buf, 0, data), bytes)
  {
  }

  lemma PaddedMore(buf: Bytes, n: nat, bytes: nat)
    requires Padded(buf, bytes)
    ensures Padded(buf + Zeros(n), bytes)
  {
  }

  /** Entries that spell what `HEADER..bytes` of the buffer encodes. */
  ghost predicate Spelled(buf: Bytes, bytes: nat, entry: seq<Entry>) {
    && HEADER <= bytes <= |buf| && AllInside(entry, bytes) && AllInside(entry, |buf|)
    && buf[HEADER..bytes] == EncodePairs(Items(buf, entry))
  }

  /** Writing an encoded pair behind the others, and an entry for it. */
  lemma SpelledAppend(buf: Bytes, buf': Bytes, bytes: nat, entry: seq<Entry>, e: Entry, p: Pair)
    requires Spelled(buf, bytes, entry)
    requires bytes + EncodedSize(p) <= |buf'| && buf'[..bytes] == buf[..bytes]
    requires buf'[bytes..bytes + EncodedSize(p)] == EncodePair(p)
    requires e == Entry(bytes + ENTRY, |p.key|, bytes + ENTRY + |p.key|, |p.val|)
    ensures Spelled(buf', bytes + EncodedSize(p), entry + [e])
    ensures AllInside(entry + [e], |buf'|) && Items(buf', entry + [e]) == Items(buf, entry) + [p]
  {
    hide EncodePair, EncodePairs, Item;
    var end := bytes + EncodedSize(p);
    InsideAppend(entry, e, bytes, end, |buf'|);
    SamePrefix(buf, buf', HEADER, bytes);
    ItemsAppend(buf, buf', bytes, entry, e);
    ItemWritten(buf', bytes, e, p);
    EncodeAppend(Items(buf, entry), p);
    JoinSlices(buf', HEADER, bytes, end);
  }

  lemma JoinSlices(buf: Bytes, lo: nat, mid: nat, hi: nat)
    requires lo <= mid <= hi <= |buf|
    ensures buf[lo..hi] == buf[lo..mid] + buf[mid..hi]
  {
  }

  lemma InsideAppend(entry: seq<Entry>, e: Entry, bytes: nat, end: nat, more: nat)
    requires AllInside(entry, bytes) && bytes <= end <= more && Inside(e, end)
    ensures AllInside(entry, more) && AllInside(entry + [e], end) && AllInside(entry + [e], more)
  {
  }

  lemma ItemsAppend(buf: Bytes, buf': Bytes, bytes: nat, entry: seq<Entry>, e: Entry)
    requires HEADER <= bytes <= |buf| && bytes <= |buf'| && buf[HEADER..bytes] == buf'[HEADER..bytes]
    requires AllInside(entry, bytes) && AllInside(entry, |buf|) && AllInside(entry, |buf'|) &&
        AllInside(entry + [e], |buf'|)
    requires Inside(e, |buf'|)
    ensures Items(buf', entry + [e]) == Items(buf, entry) + [Item(buf', e)]
  {
    assert (entry + [e])[..|entry|] == entry && (entry + [e])[|entry|] == e;
    hide AllInside, Inside, Item;
    ItemsSame(buf, buf', entry, bytes);
  }

  lemma SamePrefix(buf: Bytes, buf': Bytes, lo: nat, hi: nat)
    requires lo <= hi <= |buf| && hi <= |buf'| && buf[..hi] == buf'[..hi]
    ensures buf[lo..hi] == buf'[lo..hi]
  {
    assert buf[lo..hi] == buf[..hi][lo..] && buf'[lo..hi] == buf'[..hi][lo..];
  }

  lemma ItemWritten(buf: Bytes, bytes: nat, e: Entry, p: Pair)
    requires HEADER <= bytes && bytes + EncodedSize(p) <= |buf| && buf[bytes..bytes + EncodedSize(p)] == EncodePair(p)
    requires e == Entry(bytes + ENTRY, |p.key|, bytes + ENTRY + |p.key|, |p.val|)
    ensures Item(buf, e) == p
  {
    EntryParts(p);
    var d := EncodePair(p);
    hide EncodePair;
    EntryPieces(buf, bytes, d, ENTRY + |p.key|);
  }

  lemma SpelledGrow(buf: Bytes, more: Bytes, bytes: nat, entry: seq<Entry>)
    requires Spelled(buf, bytes, entry)
    ensures Spelled(buf + more, bytes, entry)
    ensures AllInside(entry, |buf + more|) && Items(buf + more, entry) == Items(buf, entry)
    ensures (buf + more)[..bytes] == buf[..bytes]
  {
    var buf' := buf + more;
    assert buf'[..bytes] == buf[..bytes];
    SamePrefix(buf, buf', HEADER, bytes);
    AllInsideMore(entry, bytes, |buf'|);
    hide Items, AllInside;
    ItemsSame(buf, buf', entry, bytes);
  }

  lemma AppendBlits(buf: Bytes, offs: nat, p: Pair)
    requires offs + EncodedSize(p) <= |buf|
    ensures var sizes := Le(|p.key|, 2) + Le(|p.val|, 2); var k := offs + ENTRY;
            Blit(Blit(Blit(buf, offs, sizes), k, p.key), k + |p.key|, p.val) == Blit(buf, offs, EncodePair(p))
  {
    hide Le, Blit;
    var sizes := Le(|p.key|, 2) + Le(|p.val|, 2);
    BlitTwice(buf, offs, sizes, p.key);
    BlitTwice(buf, offs, sizes + p.key, p.val);
  }

  /** The header is outside what the entries spell. */
  lemma SpelledHeader(buf: Bytes, bytes: nat, entry: seq<Entry>, header: Bytes)
    requires Spelled(buf, bytes, entry) && |header| == HEADER
    ensures var buf' := Blit(buf, 0, header);
            Spelled(buf', bytes, entry) && Items(buf', entry) == Items(buf, entry) && buf'[..HEADER] == header
  {
    var buf' := Blit(buf, 0, header);
    assert buf'[HEADER..bytes] == buf[HEADER..bytes];
    assert buf'[..HEADER] == header;
    hide Blit, Items, AllInside;
    ItemsSame(buf, buf', entry, bytes);
  }

  lemma {:induction false} LePrefix(x: nat, m: nat, n: nat)
    requires m <= n
    ensures Le(x, n)[..m] == Le(x, m)
    decreases m
  {
    if m > 0 {
      hide ToByte;
      LePrefix(x / 256, m - 1, n - 1);
      var t := Le(x / 256, n - 1);
      assert ([ToByte(x % 256)] + t)[..m] == [ToByte(x % 256)] + t[..m - 1];
    }
  }

  /** The header as it is read. */
  lemma HeaderRoundTrip(buf: Bytes, bytes: nat, level: nat)
    requires |buf| >= HEADER && buf[..HEADER] == Le(bytes, 8) + Le(level, 8) && bytes < LIMIT
    ensures FromLe(buf[..8]) == bytes && buf[8..12] == Le(level, 4)
  {
    hide Le, FromLe, Pow256;
    PowersOf256();
    LeRoundTrip(bytes, 8);
    LePrefix(level, 4, 8);
    var h := buf[..HEADER];
    SliceOfSlice(buf, 0, h, 0, 8);
    SliceOfSlice(buf, 0, h, 8, 12);
    HeaderParts(Le(bytes, 8), Le(level, 8));
  }

  lemma HeaderParts(size: Bytes, level: Bytes)
    requires |size| == 8 && |level| == 8
    ensures (size + level)[..8] == size && (size + level)[8..12] == level[..4] && (size + level)[8..] == level
  {
  }

  /** The two numbers of a header, the entries behind it and the padding. */
  lemma WrittenParts(buf: Bytes, full: Bytes, bytes: nat, level: nat, entries: Bytes)
    requires HEADER <= bytes <= |buf| <= |full| && buf == full[..|buf|] && Padded(full, bytes)
    requires full[..HEADER] == Le(bytes, 8) + Le(level, 8) && full[HEADER..bytes] == entries
    ensures buf[..8] == Le(bytes, 8) && buf[8..16] == Le(level, 8) && buf[HEADER..bytes] == entries
    ensures forall i :: bytes <= i < |buf| ==> buf[i] == 0
  {
    hide Le;
    SamePrefix(buf, full, 0, HEADER);
    SamePrefix(buf, full, HEADER, bytes);
    HeaderParts(Le(bytes, 8), Le(level, 8));
    SliceOfSlice(buf, 0, buf[..HEADER], 0, 8);
    SliceOfSlice(buf, 0, buf[..HEADER], 8, 16);
  }

  /** Pages that hold a node and its header are read back exactly if every size fits. */
  lemma WrittenNode(d: Disk, ptr: Ptr, buf: Bytes, bytes: nat, level: nat, s: seq<Pair>, full: Bytes)
    requires HEADER <= bytes <= |buf| <= |full| && bytes < LIMIT && buf == full[..|buf|]
    requires ReadAt(d, ptr.offs, ptr.size) == buf && ptr.csum == Checksum(POLY, CRC64_INIT, buf)
    requires full[..HEADER] == Le(bytes, 8) + Le(level, 8) && full[HEADER..bytes] == EncodePairs(s)
    ensures NodeAt(d, ptr, level) == Some(s) <==> AllShort(s)
  {
    hide Checksum, ReadAt, EncodePairs, AllShort, Le, FromLe, ParseFrom;
    SamePrefix(buf, full, 0, HEADER);
    SamePrefix(buf, full, HEADER, bytes);
    HeaderRoundTrip(buf, bytes, level);
    NodeRoundTrip(buf, bytes, HEADER, s);
  }

  /** Entries read so far, and what is still to be read. */
  function Prepend(s: seq<Pair>, rest: Option<seq<Pair>>): Option<seq<Pair>> {
    match rest
    case None => None
    case Some(t) => Some(s + t)
  }

  lemma SpelledBytes(buf: Bytes, bytes: nat, entry: seq<Entry>)
    requires Spelled(buf, bytes, entry)
    ensures HEADER <= bytes <= |buf|
    ensures AllInside(entry, |buf|) && buf[HEADER..bytes] == EncodePairs(Items(buf, entry))
  {
  }

  /** The bytes of the entries grow by those of the new one. */
  lemma BytesGrown(was: Bytes, buf: Bytes, bytes: nat, used: seq<Entry>, entry: seq<Entry>, p: Pair)
    requires Spelled(was, bytes, used) && Spelled(buf, bytes + EncodedSize(p), entry)
    requires AllInside(used, |was|) && AllInside(entry, |buf|) && Items(buf, entry) == Items(was, used) + [p]
    ensures HEADER <= bytes <= |was| && bytes + EncodedSize(p) <= |buf|
    ensures buf[HEADER..bytes + EncodedSize(p)] == was[HEADER..bytes] + EncodePair(p)
  {
    hide Spelled, AllInside, Items, EncodePair, EncodePairs;
    SpelledBytes(was, bytes, used);
    SpelledBytes(buf, bytes + EncodedSize(p), entry);
    EncodeAppend(Items(was, used), p);
  }

  lemma PagedFits(ps: nat, m: nat, n: nat)
    requires ps > 0 && Paged(ps, m) && n <= m
    ensures n <= IoBytes(ps, IoPages(ps, n)) <= m
  {
    PagesHold(ps, n);
    PagedHolds(ps, m, n);
  }

  lemma PrependNothing(s: seq<Pair>, rest: Option<seq<Pair>>)
    ensures Prepend([], rest) == rest && Prepend(s, Some([])) == Some(s)
  {
    assert s + [] == s;
    match rest
    case None =>
    case Some(t) => assert [] + t == t;
  }

  /** One round of the loop of `ctree_node_parse`. */
  lemma ParseAdvance(buf: Bytes, bytes: nat, offs: nat, entry: seq<Entry>, e: Entry)
    requires HEADER <= offs && offs + ENTRY <= bytes <= |buf| && AllInside(entry, |buf|)
    requires e == Entry(offs + ENTRY, KeySize(buf, offs), offs + ENTRY + KeySize(buf, offs), ValSize(buf, offs))
    ensures var next := e.valOffs + e.valSize;
            if next > bytes then ParseFrom(buf, bytes, offs) == None
            else && AllInside(entry + [e], |buf|)
                 && Prepend(Items(buf, entry), ParseFrom(buf, bytes, offs)) == Prepend(Items(buf, entry + [e]),
                     ParseFrom(buf, bytes, next))
  {
    hide KeySize, ValSize;
    var next := e.valOffs + e.valSize;
    if next <= bytes {
      assert (entry + [e])[..|entry|] == entry && (entry + [e])[|entry|] == e;
      match ParseFrom(buf, bytes, next)
      case None =>
      case Some(t) => ConcatAssoc(Items(buf, entry), [Item(buf, e)], t);
    }
  }

  class CtreeNode {
    var buf: Bytes          // as long as max_bytes
    var bytes: nat
    var entry: seq<Entry>   // as long as max_entries
    var entries: nat
    var ptr: Ptr
    var level: nat

    ghost predicate Valid()
      reads this
    {
      entries <= |entry| && AllInside(entry[..entries], |buf|)
    }

    ghost function Pairs(): (s: seq<Pair>)
      requires Valid()
      reads this
      ensures |s| == entries
    {
      Items(buf, entry[..entries])
    }

    /** A node that is being built: the buffer encodes its pairs. */
    ghost predicate Built(ps: nat)
      reads this
    {
      ps > 0 && Valid() && Spelled(buf, bytes, entry[..entries]) && Padded(buf, bytes) && Paged(ps, |buf|)
    }

    /** `ctree_node_create`. */
    constructor ()
      ensures buf == [] && entry == [] && entries == 0
    {
      buf, bytes, entry, entries, ptr, level := [], 0, [], 0, Ptr(0, 0, 0), 0;
    }

    /** `ctree_node_setup`. */
    method Setup(ps: nat)
      requires ps > 0
      modifies this
      ensures Built(ps) && Pairs() == [] && bytes == HEADER
      ensures |buf| == IoAlign(ps, 4096) && |entry| == MIN_FANOUT == 100
    {
      buf, entry := Zeros(IoAlign(ps, 4096)), NoEntries(MIN_FANOUT);
      PagesHold(ps, 4096);
      PagedSizes(ps, 0, 4096);
      Reset(ps);
    }

    /** `ctree_node_reset`. */
    method Reset(ps: nat)
      requires ps > 0 && |buf| >= HEADER && Paged(ps, |buf|)
      modifies this
      ensures Built(ps) && Pairs() == [] && bytes == HEADER
      ensures |buf| == old(|buf|) && |entry| == old(|entry|)
    {
      entry, entries := NoEntries(|entry|), 0;
      buf, bytes := Zeros(|buf|), HEADER;
    }

    predicate CanAppend(ps: nat, count: nat, size: nat)
      requires ps > 0
      reads this
    {
      Room(ps, entries, bytes, count, size)
    }

    /** `ctree_ensure_entries`: both arrays grow to the smaller of twice their size and what is
        needed, so what is needed is there only if it is at most twice the old size. */
    method EnsureEntries(ps: nat, count: nat, size: nat)
      requires Built(ps)
      modifies this`buf, this`entry
      ensures Built(ps) && Pairs() == old(Pairs()) && buf[..bytes] == old(buf[..bytes]) &&
          entry[..entries] == old(entry[..entries])
      ensures |entry| >= entries + count <==> entries + count <= 2 * old(|entry|)
      ensures |buf| >= bytes + size <==> bytes + size <= 2 * old(|buf|)
      ensures var need := entries + count;
              |entry| == if old(|entry|) >= need then old(|entry|) else if 2 * old(|entry|) < need then 2 * old(|entry|) else need
      ensures var need := IoAlign(ps, bytes + size);
              |buf| == if old(|buf|) >= need then old(|buf|) else if 2 * old(|buf|) < need then 2 * old(|buf|) else need
    {
      hide Paged, IoAlign, IoBytes, IoPages, Spelled, AllInside, Items, Padded;
      var need := IoAlign(ps, bytes + size);
      AlignHolds(ps, bytes + size);
      PagedSizes(ps, |buf|, bytes + size);
      if |entry| < entries + count {
        var next := Min(2 * |entry|, entries + count);
        ghost var used := entry[..entries];
        entry := entry + NoEntries(next - |entry|);
        assert entry[..entries] == used;
      }
      if |buf| < need {
        var next := Min(2 * |buf|, need);
        SpelledGrow(buf, Zeros(next - |buf|), bytes, entry[..entries]);
        PaddedMore(buf, next - |buf|, bytes);
        buf := buf + Zeros(next - |buf|);
      }
    }

    /** `ctree_node_append`. */
    method Append(ps: nat, key: Bytes, val: Bytes)
      requires Built(ps)
      requires bytes + ENTRY + |key| + |val| <= 2 * |buf| && entries + 1 <= 2 * |entry|
      modifies this`buf, this`bytes, this`entry, this`entries
      ensures Built(ps) && Pairs() == old(Pairs()) + [Pair(key, val)]
      ensures bytes == old(bytes) + EncodedSize(Pair(key, val))
      ensures |buf| >= old(|buf|) && |entry| >= old(|entry|)
      ensures HEADER <= old(bytes) <= bytes <= |buf| && buf[HEADER..bytes] == old(buf[HEADER..bytes]) + EncodePair(Pair(key, val))
    {
      hide Spelled, AllInside, Items, Blit, EncodePair, Paged, Le, Padded;
      var size := ENTRY + |key| + |val|;
      EnsureEntries(ps, 1, size);
      ghost var was, used, p := buf, entry[..entries], Pair(key, val);
      SpelledBytes(buf, bytes, used);
      var k := bytes + ENTRY;
      var v := k + |key|;
      AppendBlits(buf, bytes, p);
      buf := Blit(buf, bytes, Le(|key|, 2) + Le(|val|, 2));
      buf := Blit(buf, k, key);
      buf := Blit(buf, v, val);
      var e := Entry(k, |key|, v, |val|);
      entry := entry[entries := e];
      BlitParts(was, bytes, EncodePair(p));
      PaddedBlit(was, bytes, EncodePair(p), bytes);
      SpelledAppend(was, buf, bytes, used, e, p);
      assert entry[..entries + 1] == used + [e];
      bytes := bytes + size;
      entries := entries + 1;
      BytesGrown(was, buf, bytes - size, used, entry[..entries], p);
    }

    /** `ctree_node_write`. The node comes back from the disk if every size fits into its 16 bits. */
    method Write(io: Io, offs: nat, level: nat) returns (rc: int)
      requires Built(io.pageSize) && io.Valid()
      modifies this, io
      ensures Built(io.pageSize) && Pairs() == old(Pairs()) && bytes == old(bytes)
      ensures |buf| == old(|buf|) && entry == old(entry) && entries == old(entries)
      ensures io.Valid() && (rc == 0 || rc == -EIO) && Earned(rc, old(io.failures), io.failures)
      ensures forall p :: p !in PageRange(offs, IoPages(io.pageSize, bytes)) ==> io.content(p) == old(io.content)(p)
      ensures rc == 0 ==> ptr.offs == offs && ptr.size == IoPages(io.pageSize, bytes) && this.level == level
      ensures rc == 0 ==> (var b := ReadAt(io.content, ptr.offs, ptr.size); 16 <= bytes <= |b| && b[..8] == Le(bytes, 8) && b[8..16] == Le(level, 8))
      ensures rc == 0 ==> ReadAt(io.content, ptr.offs, ptr.size)[16..bytes] == EncodePairs(Pairs())
      ensures rc == 0 ==> (var b := ReadAt(io.content, ptr.offs, ptr.size); forall i :: bytes <= i < |b| ==> b[i] == 0)
      ensures rc == 0 ==> ptr.csum == Checksum(POLY, CRC64_INIT, ReadAt(io.content, ptr.offs, ptr.size))
      ensures rc == 0 && bytes < LIMIT ==> (NodeAt(io.content, ptr, level) == Some(Pairs()) <==> AllShort(Pairs()))
    {
      hide Spelled, AllInside, Items, Blit, EncodePair, EncodePairs, Paged, Le, NodeAt, Checksum, IoPages, IoBytes, ReadAt;
      hide PageRange, Padded;
      var ps := io.pageSize;
      var size := IoPages(ps, bytes);
      SpelledBytes(buf, bytes, entry[..entries]);
      PagedFits(ps, |buf|, bytes);
      SpelledHeader(buf, bytes, entry[..entries], Le(bytes, 8) + Le(level, 8));
      PaddedHeader(buf, Le(bytes, 8) + Le(level, 8), bytes);
      buf := Blit(buf, 0, Le(bytes, 8) + Le(level, 8));
      rc := io.Write(buf, size, offs);
      if rc < 0 { return; }
      ptr := Ptr(offs, size, Checksum(POLY, CRC64_INIT, buf[..IoBytes(ps, size)]));
      this.level := level;
      SpelledBytes(buf, bytes, entry[..entries]);
      WrittenParts(buf[..IoBytes(ps, size)], buf, bytes, level, EncodePairs(Pairs()));
      if bytes < LIMIT {
        WrittenNode(io.content, ptr, buf[..IoBytes(ps, size)], bytes, level, Pairs(), buf);
      }
    }

    /** `ctree_node_parse`, on a buffer of the pages that were read. */
    method Parse() returns (rc: int)
      requires |buf| >= HEADER && entries == 0
      modifies this`entry, this`entries
      ensures Valid() && (rc == 0 || rc == -EIO)
      ensures rc == 0 <==> FromLe(buf[..8]) <= |buf| && buf[8..12] == Le(level, 4) && ParseFrom(buf, FromLe(buf[..8]), HEADER).Some?
      ensures rc == 0 ==> ParseFrom(buf, FromLe(buf[..8]), HEADER) == Some(Pairs())
    {
      hide AllInside, Inside, Items, Item, Le, FromLe;
      var bytes := FromLe(buf[..8]);
      assert AllInside(entry[..0], |buf|) by { NothingInside(buf, entry[..0]); }
      if bytes > |buf| { return -EIO; }
      if buf[8..12] != Le(level, 4) { return -EIO; }
      var offs := HEADER;
      PrependNothing([], ParseFrom(buf, bytes, HEADER));
      while offs != bytes
        invariant HEADER <= offs && (offs <= bytes || offs == HEADER)
        invariant Valid()
        invariant ParseFrom(buf, bytes, HEADER) == Prepend(Pairs(), ParseFrom(buf, bytes, offs))
        decreases if offs <= bytes then bytes - offs else 0
      {
        if offs + ENTRY > bytes { return -EIO; }
        var keySize, valSize := KeySize(buf, offs), ValSize(buf, offs);
        var e := Entry(offs + ENTRY, keySize, offs + ENTRY + keySize, valSize);
        ghost var used := entry[..entries];
        ParseAdvance(buf, bytes, offs, used, e);
        hide KeySize, ValSize, ParseFrom;
        if offs + ENTRY + keySize + valSize > bytes { return -EIO; }
        if entries == |entry| {
          var more := if |entry| > 0 then |entry| * 2 else MIN_FANOUT;
          entry := entry + NoEntries(more - |entry|);
        }
        assert entry[..entries] == used;
        entry := entry[entries := e];
        entries := entries + 1;
        assert entry[..entries] == used + [e];
        offs := offs + ENTRY + keySize + valSize;
      }
      PrependNothing(Pairs(), None);
      rc := 0;
    }

    /** `ctree_node_read`: the node that the pointer leads to, or an error. A pointer covers a header. */
    method Read(io: Io, ptr: Ptr, level: nat) returns (rc: int)
      requires io.Valid() && IoBytes(io.pageSize, ptr.size) >= HEADER && entries == 0
      modifies this, io`failures
      ensures if io.failures == old(io.failures) then rc == (if NodeAt(io.content, ptr, level).Some? then 0 else -EIO)
              else rc == -EIO && io.failures > old(io.failures)
      ensures rc == 0 ==> Valid() && this.ptr == ptr && NodeAt(io.content, ptr, level) == Some(Pairs())
    {
      hide Checksum, ReadAt, IoBytes, Le, FromLe, ParseFrom, Items, AllInside;
      var data;
      rc, data := io.Read(ptr.size, ptr.offs);
      if rc < 0 { return; }
      ReadLength(io.content, io.pageSize, ptr.offs, ptr.size);
      buf := data;
      if Checksum(POLY, CRC64_INIT, buf) != ptr.csum { return -EIO; }
      this.ptr, this.level := ptr, level;
      rc := Parse();
    }

    /** `ctree_node_key`. */
    function Key(pos: nat): (key: Bytes)
      requires Valid() && pos < entries
      reads this
      ensures key == Pairs()[pos].key
    {
      ItemsAt(buf, entry[..entries], pos);
      assert Inside(entry[..entries][pos], |buf|);
      buf[entry[pos].keyOffs..entry[pos].keyOffs + entry[pos].keySize]
    }

    /** `ctree_node_val`. */
    function Val(pos: nat): (val: Bytes)
      requires Valid() && pos < entries
      reads this
      ensures val == Pairs()[pos].val
    {
      ItemsAt(buf, entry[..entries], pos);
      assert Inside(entry[..entries][pos], |buf|);
      buf[entry[pos].valOffs..entry[pos].valOffs + entry[pos].valSize]
    }

    /** `ctree_node_ptr`. */
    method Child(pos: nat) returns (rc: int, ptr: Ptr)
      requires Valid() && pos < entries
      ensures rc == if |Pairs()[pos].val| == PTR_SIZE then 0 else -ENOBUFS
      ensures rc == 0 ==> ptr == DecodePtr(Pairs()[pos].val)
    {
      hide DecodePtr, Items;
      var val := Val(pos);
      if |val| != PTR_SIZE { return -ENOBUFS, Ptr(0, 0, 0); }
      rc, ptr := 0, DecodePtr(val);
    }

    /** `__ctree_node_lower_bound`. */
    method LowerBound(ord: Order, key: Bytes) returns (pos: nat)
      requires Valid()
      ensures pos == Lb(ord, Pairs(), ord(key))
    {
      hide Items, AllInside, Lb;
      pos := 0;
      while pos != entries
        invariant pos <= entries && forall i :: 0 <= i < pos ==> ord(Pairs()[i].key) < ord(key)
      {
        var nodeKey := Key(pos);
        if Cmp(ord, nodeKey, key) >= 0 { break; }
        pos := pos + 1;
      }
      LbIs(ord, Pairs(), ord(key), pos);
    }

    /** `__ctree_node_upper_bound`. */
    method UpperBound(ord: Order, key: Bytes) returns (pos: nat)
      requires Valid()
      ensures pos <= |Pairs()| && (forall i :: 0 <= i < pos ==> ord(Pairs()[i].key) <= ord(key))
      ensures pos < |Pairs()| ==> ord(key) < ord(Pairs()[pos].key)
    {
      hide Items, AllInside;
      pos := 0;
      while pos != entries
        invariant pos <= entries && forall i :: 0 <= i < pos ==> ord(Pairs()[i].key) <= ord(key)
      {
        var nodeKey := Key(pos);
        if Cmp(ord, nodeKey, key) > 0 { return; }
        pos := pos + 1;
      }
    }
  }

  lemma NothingInside(buf: Bytes, entry: seq<Entry>)
    requires entry == []
    ensures AllInside(entry, |buf|) && Items(buf, entry) == []
  {
  }

  /** Damage within 8 neighbouring bytes of a stored node is always noticed. */
  lemma DamageNoticed(d: Disk, d': Disk, ptr: Ptr, level: nat, at: nat)
    requires NodeAt(d, ptr, level).Some?
    requires var m, m' := ReadAt(d, ptr.offs, ptr.size), ReadAt(d', ptr.offs, ptr.size);
             |m| == |m'| && m != m' && forall i :: 0 <= i < |m| && !(at <= i < at + 8) ==> m[i] == m'[i]
    ensures NodeAt(d', ptr, level) == None
  {
    hide Checksum, ReadAt, ParseFrom, FromLe, Le;
    DamageChangesChecksum(ReadAt(d, ptr.offs, ptr.size), ReadAt(d', ptr.offs, ptr.size), at);
  }

  lemma DamageChangesChecksum(m: Bytes, m': Bytes, at: nat)
    requires |m| == |m'| && m != m' && forall i :: 0 <= i < |m| && !(at <= i < at + 8) ==> m[i] == m'[i]
    ensures Checksum(POLY, CRC64_INIT, m) != Checksum(POLY, CRC64_INIT, m')
  {
    hide Checksum;
    var lo, hi := Min(at, |m|), Min(at + 8, |m|);
    assert m == m[..lo] + m[lo..hi] + m[hi..] && m' == m'[..lo] + m'[lo..hi] + m'[hi..];
    assert m[..lo] == m'[..lo] && m[hi..] == m'[hi..];
    WindowDetected(POLY, CRC64_INIT, m[..lo], m[lo..hi], m'[lo..hi], m[hi..]);
  }
}
