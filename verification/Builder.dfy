/** `struct ctree_builder` of `lib/ctree.c`: a disk tree built bottom-up from pairs in order. */
module Builder {
  import opened Pairs
  import opened Io
  import opened Codec
  import opened DiskNode
  import opened BTree
  import opened Shelf

  const PAGE_LIMIT: nat := 0x1_0000_0000
  const MAX_ENTRY: nat := ENTRY + 2 * 0xFFFF

  /** Its sizes fit into 16 bits, and an entry with its key and a pointer fits into a new buffer. */
  predicate KeyFits(ps: nat, p: Pair)
    requires ps > 0
  {
    Short(p) && ENTRY + |p.key| + PTR_SIZE <= IoAlign(ps, 4096)
  }

  predicate KeysFit(ps: nat, s: seq<Pair>)
    requires ps > 0
  {
    forall i :: 0 <= i < |s| ==> KeyFits(ps, s[i])
  }

  /** A pair that the builder can take in every state: it fits into a new buffer itself, too. */
  predicate Fits(ps: nat, p: Pair)
    requires ps > 0
  {
    KeyFits(ps, p) && EncodedSize(p) <= IoAlign(ps, 4096)
  }

  predicate AllFit(ps: nat, s: seq<Pair>)
    requires ps > 0
  {
    forall i :: 0 <= i < |s| ==> Fits(ps, s[i])
  }

  /** All pairs went into one leaf: it never had to be written before the last one came. */
  predicate OneLeaf(ps: nat, s: seq<Pair>)
    requires ps > 0
  {
    s == [] ||
    (var n := |s| - 1;
     OneLeaf(ps, s[..n]) && Room(ps, n, HEADER + |EncodePairs(s[..n])|, 1, |s[n].key| + |s[n].val|))
  }

  lemma {:induction false} EncodedMonotone(s: seq<Pair>, n: nat)
    requires n <= |s|
    ensures |EncodePairs(s[..n])| <= |EncodePairs(s)|
  {
    if n < |s| {
      EncodedMonotone(s[..|s| - 1], n);
      assert s[..|s| - 1][..n] == s[..n];
    } else {
      assert s[..n] == s;
    }
  }

  /** The pages of a leaf with these pairs. */
  function LeafPages(ps: nat, s: seq<Pair>): nat
    requires ps > 0
  {
    IoPages(ps, HEADER + |EncodePairs(s)|)
  }

  lemma LeafPagesMonotone(ps: nat, s: seq<Pair>, n: nat)
    requires ps > 0 && n <= |s|
    ensures LeafPages(ps, s[..n]) <= LeafPages(ps, s)
  {
    EncodedMonotone(s, n);
    PagesMonotone(ps, HEADER + |EncodePairs(s[..n])|, HEADER + |EncodePairs(s)|);
  }

  lemma OneMore(ps: nat, s: seq<Pair>)
    requires ps > 0 && s != []
    ensures var n := |s| - 1;
            OneLeaf(ps, s) <==> OneLeaf(ps, s[..n]) && (n < MIN_FANOUT || LeafPages(ps, s) == LeafPages(ps, s[..n]))
  {
    hide IoPages, EncodePairs;
    EncodedOne(s);
  }

  lemma EncodedOne(s: seq<Pair>)
    requires s != []
    ensures var n := |s| - 1; |EncodePairs(s)| == |EncodePairs(s[..n])| + ENTRY + |s[n].key| + |s[n].val|
  {
  }

  /** One leaf takes all pairs exactly if there are at most a hundred, or if those after the hundredth
      add no page. */
  lemma {:induction false} OneLeafExact(ps: nat, s: seq<Pair>)
    requires ps > 0
    ensures OneLeaf(ps, s) <==> (|s| <= 100 || LeafPages(ps, s) == LeafPages(ps, s[..100]))
  {
    hide LeafPages;
    if s != [] {
      var n := |s| - 1;
      OneMore(ps, s);
      hide OneLeaf;
      OneLeafExact(ps, s[..n]);
      LeafPagesMonotone(ps, s, n);
      if n >= MIN_FANOUT {
        assert s[..n][..MIN_FANOUT] == s[..MIN_FANOUT];
        LeafPagesMonotone(ps, s[..n], MIN_FANOUT);
      }
    }
  }

  /** The size of a node is bounded, since entries beyond the hundredth never add a page. */
  predicate Bounded(ps: nat, entries: nat, bytes: nat)
    requires ps > 0
  {
    && (entries <= MIN_FANOUT ==> bytes <= HEADER + entries * MAX_ENTRY)
    && IoPages(ps, bytes) <= IoPages(ps, HEADER + MIN_FANOUT * MAX_ENTRY)
  }

  lemma BoundedAppend(ps: nat, entries: nat, bytes: nat, p: Pair)
    requires ps > 0 && Bounded(ps, entries, bytes) && Short(p) && Room(ps, entries, bytes, 1, |p.key| + |p.val|)
    ensures Bounded(ps, entries + 1, bytes + EncodedSize(p))
  {
    hide IoPages;
    if entries + 1 <= MIN_FANOUT {
      PagesMonotone(ps, bytes + EncodedSize(p), HEADER + MIN_FANOUT * MAX_ENTRY);
    }
  }

  lemma BoundedBytes(ps: nat, entries: nat, bytes: nat)
    requires 0 < ps <= PAGE_LIMIT && Bounded(ps, entries, bytes)
    ensures bytes < LIMIT && IoPages(ps, bytes) < LIMIT
  {
    var most := HEADER + MIN_FANOUT * MAX_ENTRY;
    PagesHold(ps, bytes);
    PagesHold(ps, most);
    hide IoPages;
    BytesMonotone(ps, IoPages(ps, bytes), IoPages(ps, most));
    hide IoBytes;
  }

  /** `struct range`. */
  datatype Range = Range(begin: nat, end: nat)

  /** The ranges with another one, which goes on the last one if it starts where that ends. */
  function Joined(rs: seq<Range>, r: Range): seq<Range> {
    if rs != [] && rs[|rs| - 1].end == r.begin then rs[|rs| - 1 := Range(rs[|rs| - 1].begin, r.end)] else rs + [r]
  }

  function RangePages(rs: seq<Range>): set<nat> {
    if rs == [] then {} else
      var r := rs[|rs| - 1];
      RangePages(rs[..|rs| - 1]) + if r.begin <= r.end then PageRange(r.begin, r.end - r.begin) else {}
  }

  lemma RangesAppend(rs: seq<Range>, offs: nat, size: nat)
    ensures RangePages(rs + [Range(offs, offs + size)]) == RangePages(rs) + PageRange(offs, size)
  {
    hide PageRange;
    assert (rs + [Range(offs, offs + size)])[..|rs|] == rs;
  }

  lemma RangesNone(rs: seq<Range>)
    ensures RangePages(rs[..0]) == {}
  {
  }

  lemma RangesNext(rs: seq<Range>, i: nat)
    requires i < |rs| && rs[i].begin <= rs[i].end
    ensures RangePages(rs[..i + 1]) == RangePages(rs[..i]) + PageRange(rs[i].begin, rs[i].end - rs[i].begin)
  {
    hide PageRange;
    assert rs[..i + 1][..i] == rs[..i];
  }

  lemma RangesExtend(rs: seq<Range>, size: nat)
    requires rs != [] && rs[|rs| - 1].begin <= rs[|rs| - 1].end
    ensures var r := rs[|rs| - 1];
            RangePages(rs[|rs| - 1 := Range(r.begin, r.end + size)]) == RangePages(rs) + PageRange(r.end, size)
  {
    hide PageRange;
    var n := |rs| - 1;
    var r := rs[n];
    assert rs[n := Range(r.begin, r.end + size)][..n] == rs[..n];
    assert PageRange(r.begin, r.end + size - r.begin) == PageRange(r.begin, r.end - r.begin) + PageRange(r.end, size);
  }

  lemma MorePages(base: set<nat>, held: set<nat>, more: set<nat>)
    requires base !! held && more !! base + held
    ensures base !! held + more && more !! held && |held + more| == |held| + |more|
    ensures (base + held) + more == base + (held + more)
  {
    assert held * more == {};
  }

  /** The same bytes on all other pages. */
  ghost predicate SameBut(d: Disk, d': Disk, pages: set<nat>) {
    forall p :: p !in pages ==> d'(p) == d(p)
  }

  lemma Untouched(d: Disk, d': Disk, pages: set<nat>, others: set<nat>, some: set<nat>)
    requires SameBut(d, d', pages) && pages !! others && some <= others
    ensures SameOn(d, d', others) && SameOn(d, d', some)
  {
  }

  lemma SameOnFewer(d: Disk, d': Disk, pages: set<nat>, some: set<nat>)
    requires SameOn(d, d', pages) && some <= pages
    ensures SameOn(d, d', some)
  {
  }

  ghost function LevelOf(n: CtreeNode, kids: seq<BTree>): Level
    reads n
  {
    if n.Valid() then Level(n.Pairs(), kids) else EMPTY
  }

  ghost function ShelfOf(node: seq<CtreeNode>, kids: seq<seq<BTree>>): (s: seq<Level>)
    requires |kids| == |node|
    reads set n | n in node
    ensures |s| == |node| && forall l :: 0 <= l < |s| ==> s[l] == LevelOf(node[l], kids[l])
  {
    seq(|node|, l requires 0 <= l < |node| reads set n | n in node => LevelOf(node[l], kids[l]))
  }

  /** A node that can take any pair there is room for. */
  ghost predicate Fit(n: CtreeNode, ps: nat)
    reads n
  {
    && n.Built(ps) && Bounded(ps, n.entries, n.bytes) && KeysFit(ps, n.Pairs())
    && |n.buf| >= IoAlign(ps, 4096) && |n.entry| >= MIN_FANOUT
  }

  /** A shelf between two appends of pairs: full subtrees only, and a second level exactly if one
      leaf could not take all the pairs. */
  ghost predicate Between(d: Disk, ps: nat, ls: seq<Level>, held: set<nat>, added: seq<Pair>)
    requires ps > 0
  {
    && LevelsOk(d, ls) && held == AllPages(ls) && PackedFrom(ls, 0)
    && (forall l :: 0 <= l < |ls| ==> ls[l].pairs != [])
    && Above(ls, 0) == added && KeysFit(ps, added)
    && (|ls| <= 1 <==> OneLeaf(ps, added))
  }

  lemma BetweenTaking(d: Disk, ps: nat, ls: seq<Level>, held: set<nat>, added: seq<Pair>, p: Pair)
    requires ps > 0 && Between(d, ps, ls, held, added)
    ensures Taking(d, ls, held, {}, 0, p, None)
  {
  }

  lemma BetweenFinishing(d: Disk, ps: nat, ls: seq<Level>, held: set<nat>, added: seq<Pair>)
    requires ps > 0 && Between(d, ps, ls, held, added) && ls != []
    ensures Finishing(d, ls, held, 0, false, added)
  {
  }

  /** One leaf or none: nothing was written. */
  lemma BetweenSmall(d: Disk, ps: nat, ls: seq<Level>, held: set<nat>, added: seq<Pair>)
    requires ps > 0 && Between(d, ps, ls, held, added) && |ls| <= 1
    ensures held == {} && OneLeaf(ps, added) && (added == [] <==> ls == [])
    ensures added == if ls == [] then [] else ls[0].pairs
  {
    if ls != [] {
      AboveSplit(ls, 0);
      assert Above(ls, 1) == [];
      assert [] + ls[0].pairs == ls[0].pairs;
    }
  }

  lemma BetweenLarge(d: Disk, ps: nat, ls: seq<Level>, held: set<nat>, added: seq<Pair>)
    requires ps > 0 && Between(d, ps, ls, held, added) && |ls| > 1
    ensures !OneLeaf(ps, added)
  {
  }

  lemma BetweenNext(d: Disk, d': Disk, ps: nat, ls: seq<Level>, ls': seq<Level>, held: set<nat>, held': set<nat>,
      added: seq<Pair>, p: Pair, top: nat, room: bool)
    requires ps > 0 && Between(d, ps, ls, held, added) && KeyFits(ps, p)
    requires Taken(d', ls, ls', held', {}, 0, p, None, top) && (top == 0 <==> ls == [] || room)
    requires |ls| == 1 ==> (room <==> Room(ps, |added|, HEADER + |EncodePairs(added)|, 1, |p.key| + |p.val|))
    ensures Between(d', ps, ls', held', added + [p])
  {
    hide LevelsOk, AllPages, Above, Ending, KeyFits, OneLeaf, Room;
    if |ls| <= 1 { BetweenSmall(d, ps, ls, held, added); }
    LeafNext(ps, ls, ls', added, p, top, room);
    PackedNext(ls');
  }

  lemma PackedNext(ls: seq<Level>)
    requires PackedFrom(ls, 1)
    ensures PackedFrom(ls, 0)
  {
    forall i | 0 <= i < |ls|
      ensures Packed(ls[i], i)
    {
    }
  }

  /** A second level comes exactly when the leaf is full. */
  lemma LeafNext(ps: nat, ls: seq<Level>, ls': seq<Level>, added: seq<Pair>, p: Pair, top: nat, room: bool)
    requires ps > 0 && Grew(ls, ls', 0, top) && (top == 0 <==> ls == [] || room) && (ls == [] ==> added == [])
    requires |ls| <= 1 <==> OneLeaf(ps, added)
    requires |ls| == 1 ==> (room <==> Room(ps, |added|, HEADER + |EncodePairs(added)|, 1, |p.key| + |p.val|))
    ensures |ls'| <= 1 <==> OneLeaf(ps, added + [p])
  {
    hide Room, OneLeaf, EncodePairs;
    OneLeafMore(ps, added, p);
    if added == [] { FirstFits(ps, p); }
  }

  lemma OneLeafMore(ps: nat, s: seq<Pair>, p: Pair)
    requires ps > 0
    ensures OneLeaf(ps, s + [p]) <==> (OneLeaf(ps, s) && Room(ps, |s|, HEADER + |EncodePairs(s)|, 1, |p.key| + |p.val|))
  {
    hide Room, EncodePairs;
    assert (s + [p])[..|s|] == s;
  }

  lemma FirstFits(ps: nat, p: Pair)
    requires ps > 0
    ensures Room(ps, 0, HEADER + |EncodePairs([])|, 1, |p.key| + |p.val|)
  {
  }

  /** The tree that a successful build leaves: all the pairs in order, on exactly the pages that are
      held, every node but the last of a level with a hundred entries, and at least two in the root. */
  ghost predicate Finished(d: Disk, t: BTree, height: nat, ptr: Ptr, added: seq<Pair>, held: set<nat>) {
    && height >= 2 && t.ptr == ptr && Stored(d, t, height - 1) && Flat(t, height - 1) == added
    && PagesOf(t, height - 1) == held && Spine(t, height - 1) && |t.pairs| >= 2
  }

  /** What the leaves of the result hold, from left to right. */
  ghost function Spelt(height: nat, t: BTree): seq<Pair> {
    if height == 0 then [] else Flat(t, height - 1)
  }

  lemma FinishedSpelt(d: Disk, t: BTree, height: nat, ptr: Ptr, added: seq<Pair>, held: set<nat>)
    requires Finished(d, t, height, ptr, added, held)
    ensures height > 0 && Spelt(height, t) == added
  {
    hide Stored, Flat, PagesOf, Spine;
  }

  /** Such a tree of height `h` has more than `100^(h - 1)` pairs. */
  lemma FinishedHeight(d: Disk, t: BTree, height: nat, ptr: Ptr, added: seq<Pair>, held: set<nat>)
    requires Finished(d, t, height, ptr, added, held)
    ensures |added| >= Pow100(height - 1) + 1
  {
    hide Stored, Flat, PagesOf, Spine, Pow100;
    HeightBound(d, t, height - 1);
  }

  lemma RootTree(d: Disk, d': Disk, ls: seq<Level>, held: set<nat>, held': set<nat>, level: nat, grown: bool,
      added: seq<Pair>, ptr: Ptr)
    returns (t: BTree)
    requires Finishing(d, ls, held, level, grown, added) && 0 < level == |ls| - 1
    requires LevelsOk(d', ls) && held' == held + PageRange(ptr.offs, ptr.size)
    requires NodeAt(d', ptr, level) == Some(ls[level].pairs) && ptr.offs < LIMIT && ptr.size < LIMIT
    ensures Finished(d', t, level + 1, ptr, added, held')
  {
    hide Stored, NodeAt, PageRange, Content, LevelPages, Ending, LevelOk, AllPages, Above, Packed;
    FinishTop(d, ls, held, level, grown, added);
    ghost var p;
    t, p := WrittenTree(d', ls[level], level, ptr);
  }

  class CtreeBuilder {
    const io: Io
    const alloc: Alloc
    ghost const base: set<nat>   // pages that others hold

    var node: seq<CtreeNode>
    var reserved: seq<Range>
    var pages: nat
    var ptr: Ptr
    var height: nat
    ghost var kids: seq<seq<BTree>>
    ghost var added: seq<Pair>

    /** `ctree_builder_setup`. */
    constructor (io: Io, alloc: Alloc)
      requires io.Valid() && io.pageSize <= PAGE_LIMIT
      ensures this.io == io && this.alloc == alloc && node == [] && base == alloc.reserved
      ensures Building() && added == []
    {
      this.io, this.alloc := io, alloc;
      base := alloc.reserved;
      node, reserved, pages, ptr, height := [], [], 0, Ptr(0, 0, 0), 0;
      kids, added := [], [];
    }

    ghost function Nodes(): set<CtreeNode>
      reads this`node
    {
      set n | n in node
    }

    ghost function Shelf(): (s: seq<Level>)
      requires |kids| == |node|
      reads this`node, this`kids, Nodes()
      ensures |s| == |node|
    {
      ShelfOf(node, kids)
    }

    /** Every page that was reserved is in one of the ranges, and is counted once. */
    ghost predicate Accounted()
      reads this`reserved, this`pages, alloc
    {
      && Ordered() && alloc.reserved == base + Held() && base !! Held() && |Held()| == pages
    }

    ghost predicate Ordered()
      reads this`reserved
    {
      forall i :: 0 <= i < |reserved| ==> reserved[i].begin <= reserved[i].end
    }

    ghost function Held(): set<nat>
      reads this`reserved
    {
      RangePages(reserved)
    }

    /** How often the device or the allocator has failed. */
    ghost function Faults(): Errors
      reads io`failures, alloc`refusals
    {
      Errors(io.failures, alloc.refusals)
    }

    ghost predicate NodesOk()
      reads this`node, this`kids, Nodes()
    {
      && 0 < io.pageSize <= PAGE_LIMIT && |kids| == |node|
      && (forall i, j :: 0 <= i < j < |node| ==> node[i] != node[j])
      && (forall l :: 0 <= l < |node| ==> Fit(node[l], io.pageSize))
    }

    ghost predicate Ok()
      reads this, io`content, alloc, Nodes()
    {
      io.Valid() && Accounted() && NodesOk() && LevelsOk(io.content, Shelf())
    }

    /** Between two appends. */
    ghost predicate Building()
      reads this, io`content, alloc, Nodes()
    {
      io.Valid() && Accounted() && NodesOk() && Between(io.content, io.pageSize, Shelf(), Held(), added)
    }

    /** The node of a level can take the pair, if need be after it was written out. */
    predicate Ample(level: nat, p: Pair)
      requires io.pageSize > 0 && level <= |node|
      reads this`node, Nodes()
    {
      var size := EncodedSize(p);
      if level == |node| then HEADER + size <= 2 * IoAlign(io.pageSize, 4096)
      else if node[level].CanAppend(io.pageSize, 1, |p.key| + |p.val|) then node[level].bytes + size <= 2 * |node[level].buf|
      else HEADER + size <= 2 * |node[level].buf|
    }

    /** What fits into a new buffer can always be taken. */
    lemma AlwaysAmple(level: nat, p: Pair)
      requires NodesOk() && level <= |node| && EncodedSize(p) <= IoAlign(io.pageSize, 4096)
      ensures Ample(level, p)
    {
      hide Bounded, KeysFit, Room, IoPages, IoBytes;
      PagesHold(io.pageSize, 4096);
      if level < |node| { BuiltSizes(node[level], io.pageSize); }
    }

    /** The buffers of the levels below are as large as before. */
    twostate predicate SameBuffers(level: nat)
      reads this`node, Nodes()
    {
      && old(node) <= node && level <= |old(node)|
      && forall l :: 0 <= l < level ==> |node[l].buf| == old(|node[l].buf|)
    }

    /** `ctree_builder_alloc`. */
    method Reserve(size: nat) returns (rc: int, offs: nat)
      requires Accounted()
      modifies this`reserved, this`pages, alloc
      ensures Blameless(rc, old(Faults()), Faults())
      ensures Accounted() && rc <= 0 && old(alloc.reserved) <= alloc.reserved
      ensures rc == 0 ==> offs + size < LIMIT && PageRange(offs, size) !! old(alloc.reserved)
      ensures Held() == old(Held()) + if rc == 0 then PageRange(offs, size) else {}
      ensures reserved == if rc == 0 then Joined(old(reserved), Range(offs, offs + size)) else old(reserved)
    {
      hide PageRange, Ordered, Held;
      ghost var held, was := Held(), alloc.reserved;
      rc, offs := alloc.Reserve(size);
      if rc < 0 { return; }
      ghost var more := PageRange(offs, size);
      assert was == base + held && alloc.reserved == was + more;
      MorePages(base, held, more);
      pages := pages + size;
      Record(size, offs);
    }

    /** The range of the new pages: the last one goes on, or another one is added. */
    method Record(size: nat, offs: nat)
      requires Ordered()
      modifies this`reserved
      ensures Ordered() && Held() == old(Held()) + PageRange(offs, size)
      ensures reserved == Joined(old(reserved), Range(offs, offs + size))
    {
      hide PageRange, RangePages;
      if |reserved| > 0 {
        var last := reserved[|reserved| - 1];
        if last.end == offs {
          RangesExtend(reserved, size);
          reserved := reserved[|reserved| - 1 := Range(last.begin, offs + size)];
          return;
        }
      }
      RangesAppend(reserved, offs, size);
      reserved := reserved + [Range(offs, offs + size)];
    }

    /** `ctree_builder_cancel`: everything that was reserved is free again. */
    method Cancel()
      requires Accounted()
      modifies alloc
      ensures alloc.reserved == base && alloc.refusals == old(alloc.refusals)
    {
      hide PageRange, RangePages;
      var i := 0;
      assert RangePages(reserved[..0]) == {} by { RangesNone(reserved); }
      while i != |reserved|
        invariant i <= |reserved| && alloc.reserved == base + RangePages(reserved) - RangePages(reserved[..i])
        invariant alloc.refusals == old(alloc.refusals)
      {
        var range := reserved[i];
        RangesNext(reserved, i);
        alloc.Cancel(range.end - range.begin, range.begin);
        i := i + 1;
      }
      assert reserved[..i] == reserved;
    }

    /** `ctree_builder_ensure_level`, for a level that is there or the next one. */
    method EnsureLevel(level: nat)
      requires NodesOk() && level <= |node|
      modifies this`node, this`kids
      ensures NodesOk() && level < |node| && fresh(Nodes() - old(Nodes())) && old(node) <= node
      ensures level < old(|node|) ==> node == old(node) && kids == old(kids)
      ensures level == old(|node|) ==> |node| == level + 1 && Shelf() == old(Shelf()) + [EMPTY]
      ensures level == old(|node|) ==> node[level].entries == 0 && node[level].bytes == HEADER && |node[level].buf| == IoAlign(io.pageSize, 4096)
    {
      hide Fit, LevelOf, ShelfOf, IoAlign;
      if level < |node| { return; }
      ghost var shelf := Shelf();
      while |node| <= level
        invariant NodesOk() && fresh(Nodes() - old(Nodes())) && old(node) <= node
        invariant level <= |node| <= level + 1
        invariant if |node| == level then Shelf() == shelf else Shelf() == shelf + [EMPTY] && node[level].entries == 0
        invariant |node| > level ==> node[level].bytes == HEADER && |node[level].buf| == IoAlign(io.pageSize, 4096)
        decreases level + 1 - |node|
      {
        AddNode();
      }
    }

    method AddNode()
      requires NodesOk()
      modifies this`node, this`kids
      ensures NodesOk() && |node| == old(|node|) + 1 && old(node) <= node && fresh(Nodes() - old(Nodes()))
      ensures Shelf() == old(Shelf()) + [EMPTY] && node[|node| - 1].entries == 0
      ensures node[|node| - 1].bytes == HEADER && |node[|node| - 1].buf| == IoAlign(io.pageSize, 4096)
    {
      hide Fit, LevelOf, ShelfOf;
      ghost var shelf, was := Shelf(), Nodes();
      var n := NewNode(io.pageSize);
      assert Nodes() == was && Shelf() == shelf;
      node, kids := node + [n], kids + [[]];
      assert Shelf() == shelf + [EMPTY];
    }

    /** Appends to a node with room. */
    method Put(level: nat, p: Pair, ghost kid: Option<BTree>)
      requires NodesOk() && level < |node| && KeyFits(io.pageSize, p)
      requires node[level].CanAppend(io.pageSize, 1, |p.key| + |p.val|)
      requires node[level].bytes + EncodedSize(p) <= 2 * |node[level].buf|
      modifies this`kids, node[level]
      ensures NodesOk() && Shelf() == old(Shelf())[level := Added(old(Shelf()[level]), p, kid)]
      ensures SameBuffers(level)
    {
      hide Fit, Room, KeyFits, ShelfOf;
      ghost var shelf, n := Shelf(), node[level];
      LevelIs(node[level], io.pageSize, kids[level]);
      Store(node[level], io.pageSize, p);
      if kid.Some? { kids := kids[level := kids[level] + [kid.value]]; }
      LevelIs(node[level], io.pageSize, kids[level]);
      hide LevelOf;
      assert Shelf() == shelf[level := Added(shelf[level], p, kid)];
    }

    method Clear(level: nat)
      requires NodesOk() && level < |node|
      modifies this`kids, node[level]
      ensures NodesOk() && Shelf() == old(Shelf())[level := EMPTY] && node[level].entries == 0
      ensures node[level].bytes == HEADER && |node[level].buf| == old(|node[level].buf|)
    {
      hide Fit, ShelfOf;
      ghost var shelf := Shelf();
      Empty(node[level], io.pageSize);
      kids := kids[level := []];
      LevelIs(node[level], io.pageSize, kids[level]);
      hide LevelOf;
      assert Shelf() == shelf[level := EMPTY];
    }

    method WriteNode(level: nat, offs: nat) returns (rc: int)
      requires NodesOk() && level < |node| && io.Valid()
      modifies io, node[level]
      ensures Earned(rc, old(io.failures), io.failures)
      ensures NodesOk() && io.Valid() && Shelf() == old(Shelf()) && (rc == 0 || rc == -EIO)
      ensures |node[level].buf| == old(|node[level].buf|)
      ensures SameBut(old(io.content), io.content, PageRange(offs, old(IoPages(io.pageSize, node[level].bytes))))
      ensures rc == 0 ==> NodeAt(io.content, node[level].ptr, level) == Some(Shelf()[level].pairs)
      ensures rc == 0 ==> node[level].ptr.offs == offs && node[level].ptr.size == old(IoPages(io.pageSize, node[level].bytes)) < LIMIT
    {
      hide Fit, ShelfOf, PageRange, IoPages, NodeAt;
      ghost var shelf := Shelf();
      LevelIs(node[level], io.pageSize, kids[level]);
      rc := WriteOut(node[level], io, offs, level);
      LevelIs(node[level], io.pageSize, kids[level]);
      hide LevelOf;
      assert Shelf() == shelf;
    }

    /** Reserves pages for the node of a level and writes it there. */
    method WriteLevel(level: nat) returns (rc: int)
      requires Ok() && level < |node| && AllPages(Shelf()) <= Held()
      modifies this`reserved, this`pages, alloc, io, node[level]
      ensures Blameless(rc, old(Faults()), Faults())
      ensures rc <= 0 && Kept(node, old(io.content), old(alloc.reserved))
      ensures |node[level].buf| == old(|node[level].buf|)
      ensures rc == 0 ==> Ok() && Shelf() == old(Shelf()) && Held() == old(Held()) + PageRange(node[level].ptr.offs, node[level].ptr.size)
      ensures rc == 0 ==> NodeAt(io.content, node[level].ptr, level) == Some(Shelf()[level].pairs)
      ensures rc == 0 ==> node[level].ptr.offs < LIMIT && node[level].ptr.size < LIMIT
    {
      hide NodesOk, ShelfOf, PageRange, IoPages, LevelsOk, NodeAt, AllPages, Accounted, Held, SameBut;
      BasicOk();
      ghost var shelf, nodes, was, d := Shelf(), Nodes(), alloc.reserved, io.content;
      HeldReserved();
      var size := IoPages(io.pageSize, node[level].bytes);
      var offs;
      rc, offs := Reserve(size);
      assert Shelf() == shelf && Nodes() == nodes;
      if rc < 0 { return; }
      rc := WriteNode(level, offs);
      Untouched(d, io.content, PageRange(offs, size), was, AllPages(shelf));
      if rc < 0 { return; }
      LevelsSame(d, io.content, shelf);
    }

    lemma HeldReserved()
      requires Accounted()
      ensures Held() <= alloc.reserved
    {
    }

    lemma BasicOk()
      requires NodesOk()
      ensures 0 < io.pageSize <= PAGE_LIMIT && |kids| == |node|
    {
    }

    /** `__ctree_builder_append`: a pair for a level, and the subtree that it points to. */
    method AppendAt(level: nat, p: Pair, ghost kid: Option<BTree>, ghost extra: set<nat>) returns (rc: int,
        ghost top: nat)
      requires io.Valid() && Accounted() && NodesOk() && level <= |node| && KeyFits(io.pageSize, p) && Ample(level, p)
      requires Taking(io.content, Shelf(), Held(), extra, level, p, kid)
      modifies this`node, this`kids, this`reserved, this`pages, io, alloc, Nodes()
      ensures Blameless(rc, old(Faults()), Faults())
      ensures rc <= 0 && Kept(old(node), old(io.content), old(alloc.reserved)) && fresh(Nodes() - old(Nodes()))
      ensures rc == 0 ==> NodesOk() && Taken(io.content, old(Shelf()), Shelf(), Held(), extra, level, p, kid, top)
      ensures rc == 0 ==> SameBuffers(level)
      ensures rc == 0 ==> (top == level <==> level == old(|node|) || old(level < |node| &&
          node[level].CanAppend(io.pageSize, 1, |p.key| + |p.val|)))
      decreases if level < |node| then 2 * (|node| - level) + 1 else 0, 0
    {
      hide NodesOk, Accounted, Taking, Taken, Shelf, ShelfOf, Held, KeyFits, Room;
      rc, top := 0, level;
      BasicOk();
      ghost var ls, held, d := Shelf(), Held(), io.content;
      EnsureLevel(level);
      LevelFits(level);
      if !node[level].CanAppend(io.pageSize, 1, |p.key| + |p.val|) {
        rc, top := FlushFor(level, p, kid, extra);
        if rc < 0 { return; }
        LevelFits(level);
      } else if level < |ls| {
        TakeDirect(d, ls, held, extra, level, p, kid);
      } else {
        TakeNew(d, ls, held, extra, level, p, kid);
      }
      Put(level, p, kid);
    }

    /** Makes room for an item. */
    method FlushFor(level: nat, p: Pair, ghost kid: Option<BTree>, ghost extra: set<nat>) returns (rc: int,
        ghost top: nat)
      requires io.Valid() && Accounted() && NodesOk() && level < |node|
      requires Taking(io.content, Shelf(), Held(), extra, level, p, kid) && |Shelf()[level].pairs| >= MIN_FANOUT
      modifies this`node, this`kids, this`reserved, this`pages, io, alloc, Nodes()
      ensures Blameless(rc, old(Faults()), Faults())
      ensures rc <= 0 && Kept(old(node), old(io.content), old(alloc.reserved)) && fresh(Nodes() - old(Nodes()))
      ensures rc == 0 ==> NodesOk() && level < |node| && node[level].entries == 0 && top > level
      ensures rc == 0 ==> SameBuffers(level + 1) && node[level].bytes == HEADER
      ensures rc == 0 ==> Taken(io.content, old(Shelf()), Shelf()[level := Added(Shelf()[level], p, kid)], Held(),
          extra, level, p, kid, top)
      decreases 2 * (|node| - level), 2
    {
      hide NodesOk, Accounted, Taking, Taken, Flushing, Flushed, ShelfOf, Held, SameOn;
      BasicOk();
      HeldReserved();
      ghost var ls, held, d, was := Shelf(), Held(), io.content, alloc.reserved;
      TakingFlush(d, ls, held, extra, level, p, kid);
      FlushingOk(d, ls, held, extra + ItemPages(kid, level), level);
      LevelFits(level);
      rc, top := Flush(level, extra + ItemPages(kid, level));
      if rc < 0 { return; }
      BasicOk();
      SameOnFewer(d, io.content, was, held);
      TakenAfter(d, io.content, ls, Shelf(), held, Held(), extra, level, p, kid, top);
    }

    /** The node of a level is written, and becomes an item for the level above. */
    method WriteItem(level: nat, ghost extra: set<nat>) returns (rc: int, p: Pair, ghost t: BTree)
      requires io.Valid() && Accounted() && NodesOk() && level < |node|
      requires Flushing(io.content, Shelf(), Held(), extra, level)
      modifies this`reserved, this`pages, io, alloc, node[level]
      ensures Blameless(rc, old(Faults()), Faults())
      ensures rc <= 0 && Kept(node, old(io.content), old(alloc.reserved))
      ensures |node[level].buf| == old(|node[level].buf|)
      ensures rc == 0 ==> NodesOk() && Shelf() == old(Shelf()) && Fits(io.pageSize, p)
      ensures rc == 0 ==> Taking(io.content, Shelf(), Held(), extra, level + 1, p, Some(t)) && Carries(Shelf()[level], level, p, t)
    {
      hide NodesOk, Accounted, Taking, Flushing, ShelfOf, Held, Fits, AllPages, Fit, Carries;
      BasicOk();
      ghost var ls, held, d := Shelf(), Held(), io.content;
      FlushingOk(d, ls, held, extra, level);
      var n := node[level];
      rc := WriteLevel(level);
      p, t := Pair([], []), BTree(n.ptr, [], []);
      if rc < 0 { return; }
      LevelFits(level);
      ghost var item;
      t, item := FlushItem(d, io.content, ls, held, Held(), extra, level, n.ptr);
      PtrFits(io.pageSize, n.Pairs()[0], n.ptr);
      p := Pair(n.Key(0), EncodePtr(n.ptr));
    }

    /** The node of a level is written, and the level above gets its first key and a pointer to it. */
    method FlushUp(level: nat, ghost extra: set<nat>) returns (rc: int, ghost top: nat)
      requires io.Valid() && Accounted() && NodesOk() && level < |node|
      requires Flushing(io.content, Shelf(), Held(), extra, level)
      modifies this`node, this`kids, this`reserved, this`pages, io, alloc, Nodes()
      ensures Blameless(rc, old(Faults()), Faults())
      ensures rc <= 0 && Kept(old(node), old(io.content), old(alloc.reserved)) && fresh(Nodes() - old(Nodes()))
      ensures rc == 0 ==> NodesOk() && level < |node| && Flushed(io.content, old(Shelf()), Shelf()[level := EMPTY], Held(), extra, level, top)
      ensures rc == 0 ==> SameBuffers(level + 1)
      ensures rc == 0 ==> old(level + 1 < |node| && |Shelf()[level + 1].pairs| < MIN_FANOUT) ==> top == level + 1
      decreases 2 * (|node| - level), 0
    {
      hide NodesOk, Accounted, Taking, Taken, Flushing, Flushed, ShelfOf, Held, Fits, Carries, Shelf;
      BasicOk();
      ghost var ls := Shelf();
      var p;
      ghost var t;
      rc, p, t := WriteItem(level, extra);
      top := level;
      if rc < 0 { return; }
      if level + 1 < |node| { LevelFits(level + 1); }
      FitsFacts(p);
      AlwaysAmple(level + 1, p);
      rc, top := AppendAt(level + 1, p, Some(t), extra);
      if rc < 0 { return; }
      BasicOk();
      FlushDone(io.content, ls, Shelf(), Held(), extra, level, p, t, top);
    }

    lemma FitsFacts(p: Pair)
      requires io.pageSize > 0 && Fits(io.pageSize, p)
      ensures KeyFits(io.pageSize, p) && EncodedSize(p) <= IoAlign(io.pageSize, 4096)
    {
    }

    /** `ctree_builder_flush`. */
    method Flush(level: nat, ghost extra: set<nat>) returns (rc: int, ghost top: nat)
      requires io.Valid() && Accounted() && NodesOk() && level < |node|
      requires node[level].entries != 0 ==> Flushing(io.content, Shelf(), Held(), extra, level)
      modifies this`node, this`kids, this`reserved, this`pages, io, alloc, Nodes()
      ensures Blameless(rc, old(Faults()), Faults())
      ensures rc <= 0 && Kept(old(node), old(io.content), old(alloc.reserved)) && fresh(Nodes() - old(Nodes()))
      ensures old(node[level].entries) == 0 ==> rc == 0 && unchanged(this) && unchanged(io) && unchanged(alloc)
      ensures rc == 0 && old(node[level].entries) != 0 ==>
                NodesOk() && Flushed(io.content, old(Shelf()), Shelf(), Held(), extra, level, top)
      ensures rc == 0 ==> level < |node| && node[level].entries == 0
      ensures rc == 0 ==> SameBuffers(level + 1) && (old(node[level].entries) > 0 ==> node[level].bytes == HEADER)
      ensures rc == 0 && old(node[level].entries) != 0 && old(level + 1 < |node| && |Shelf()[level + 1].pairs| < MIN_FANOUT) ==>
                top == level + 1
      decreases 2 * (|node| - level), 1
    {
      hide NodesOk, Accounted, Flushing, Flushed, Shelf, ShelfOf, Held;
      rc, top := 0, level;
      BasicOk();
      LevelFits(level);
      if node[level].entries == 0 { return; }
      rc, top := FlushUp(level, extra);
      if rc < 0 { return; }
      Clear(level);
    }

    lemma FitsAmple(p: Pair)
      requires Building() && Fits(io.pageSize, p)
      ensures KeyFits(io.pageSize, p) && Ample(0, p)
    {
      hide Accounted, Between, Shelf, ShelfOf, Held, Ample;
      BasicOk();
      AlwaysAmple(0, p);
    }

    lemma BuildingFacts()
      requires Building()
      ensures io.Valid() && Accounted() && base <= alloc.reserved && 0 < io.pageSize <= PAGE_LIMIT
    {
      hide Shelf, ShelfOf, Held, LevelsOk, OneLeaf;
    }

    lemma Grown()
      requires Accounted()
      ensures base <= alloc.reserved && alloc.reserved == base + Held()
    {
      hide Held;
    }

    /** The pages of others are as they were. */
    lemma OthersKept(was: seq<CtreeNode>, d: Disk, d': Disk, others: set<nat>)
      requires Kept(was, d', others) && base <= others && SameOn(d, d', base)
      ensures io.Valid() && Accounted() && base <= alloc.reserved && SameOn(d, io.content, base)
    {
      hide Held;
    }

    /** `ctree_builder_append`. */
    method Append(p: Pair) returns (rc: int)
      requires Building() && KeyFits(io.pageSize, p) && Ample(0, p)
      modifies this`node, this`kids, this`reserved, this`pages, this`added, io, alloc, Nodes()
      ensures Blameless(rc, old(Faults()), Faults())
      ensures rc <= 0 && Kept(old(node), old(io.content), old(alloc.reserved)) && fresh(Nodes() - old(Nodes()))
      ensures rc == 0 ==> Building() && added == old(added) + [p]
    {
      hide NodesOk, Accounted, Shelf, ShelfOf, Held, Between, Taking, Taken, KeyFits, Room;
      BasicOk();
      ghost var ls, held, d, top := Shelf(), Held(), io.content, 0;
      ghost var room := |node| > 0 && node[0].CanAppend(io.pageSize, 1, |p.key| + |p.val|);
      BetweenTaking(d, io.pageSize, ls, held, added, p);
      if |node| == 1 { LeafRoom(p); }
      rc, top := AppendAt(0, p, None, {});
      if rc < 0 { return; }
      BasicOk();
      BetweenNext(d, io.content, io.pageSize, ls, Shelf(), held, Held(), added, p, top, room);
      added := added + [p];
    }

    /** The only leaf holds all the pairs. */
    lemma LeafRoom(p: Pair)
      requires Building() && |node| == 1
      ensures node[0].CanAppend(io.pageSize, 1, |p.key| + |p.val|) <==>
              Room(io.pageSize, |added|, HEADER + |EncodePairs(added)|, 1, |p.key| + |p.val|)
    {
      hide NodesOk, Shelf, ShelfOf, Held, Accounted, Between, Room, EncodePairs;
      BasicOk();
      BetweenSmall(io.content, io.pageSize, Shelf(), Held(), added);
      LevelFits(0);
      LeafBytes();
    }

    lemma LeafBytes()
      requires NodesOk() && |node| == 1
      ensures node[0].Valid() && node[0].bytes == HEADER + |EncodePairs(node[0].Pairs())|
    {
      hide Bounded, KeysFit;
      BuiltBytes(node[0], io.pageSize);
    }

    /** `ctree_builder_finish`. A tree comes out only if a second level was started. */
    method Finish() returns (rc: int, ghost tree: BTree)
      requires Building()
      modifies this`node, this`kids, this`reserved, this`pages, this`ptr, this`height, io, alloc, Nodes()
      ensures Blameless(rc, old(Faults()), Faults())
      ensures rc <= 0 && Kept(old(node), old(io.content), old(alloc.reserved)) && fresh(Nodes() - old(Nodes()))
      ensures rc == 0 ==> (height == 0 <==> OneLeaf(io.pageSize, added))
      ensures rc == 0 && height == 0 ==> Held() == {} && ptr == Ptr(0, 0, 0)
      ensures rc == 0 && height > 0 ==> Finished(io.content, tree, height, ptr, added, Held())
      ensures rc == 0 ==> (Spelt(height, tree) == added <==> added == [] || !OneLeaf(io.pageSize, added))
    {
      hide NodesOk, Accounted, Shelf, ShelfOf, Held, Between, Finishing, Finished, Kept, SameOn, OneLeaf;
      BasicOk();
      KeptStart();
      ghost var nodes := Nodes();
      tree := BTree(ptr, [], []);
      var level := 0;
      ghost var grown := false;
      if |node| <= 1 {
        BetweenSmall(io.content, io.pageSize, Shelf(), Held(), added);
      } else {
        BetweenLarge(io.content, io.pageSize, Shelf(), Held(), added);
      }
      if |node| > 0 {
        BetweenFinishing(io.content, io.pageSize, Shelf(), Held(), added);
        rc, level, grown := FlushAll();
        if rc < 0 { return; }
      }
      if level == 0 {
        ptr, height := Ptr(0, 0, 0), 0;
        return 0, tree;
      }
      ghost var node1, d1, others1 := node, io.content, alloc.reserved;
      KeptFacts(old(node), old(io.content), old(alloc.reserved));
      ghost var nodes1 := Nodes();
      assert fresh(nodes1 - nodes) && node[level] in nodes1;
      rc, tree := FinishRoot(level, grown);
      assert Nodes() == nodes1;
      KeptOn(old(node), old(io.content), old(alloc.reserved), node1, d1, others1);
      if rc == 0 { FinishedSpelt(io.content, tree, height, ptr, added, Held()); }
    }

    /** The last part of `ctree_builder_finish`. */
    method FinishRoot(level: nat, ghost grown: bool) returns (rc: int, ghost tree: BTree)
      requires io.Valid() && Accounted() && NodesOk() && 0 < level == |node| - 1
      requires Finishing(io.content, Shelf(), Held(), level, grown, added)
      modifies this`kids, this`reserved, this`pages, this`ptr, this`height, io, alloc, node[level]
      ensures Blameless(rc, old(Faults()), Faults())
      ensures rc <= 0 && Kept(node, old(io.content), old(alloc.reserved))
      ensures rc == 0 ==> height == level + 1 && Finished(io.content, tree, height, ptr, added, Held())
    {
      hide NodesOk, Accounted, Shelf, ShelfOf, Held, Finishing, Finished, Kept;
      rc, tree := WriteRoot(level, grown);
      if rc < 0 { return; }
      ghost var nodes := Nodes();
      ptr, height := node[level].ptr, level + 1;
      assert Nodes() == nodes;
      Clear(level);
    }

    lemma KeptStart()
      requires io.Valid() && Accounted()
      ensures Kept(node, io.content, alloc.reserved)
    {
    }

    lemma KeptFacts(was: seq<CtreeNode>, d: Disk, others: set<nat>)
      requires Kept(was, d, others)
      ensures io.Valid() && Accounted() && was <= node && others <= alloc.reserved && SameOn(d, io.content, others)
    {
    }

    /** One operation after another. */
    lemma KeptOn(was: seq<CtreeNode>, d: Disk, others: set<nat>, was': seq<CtreeNode>, d': Disk, others': set<nat>)
      requires was <= was' && SameOn(d, d', others) && others <= others' && Kept(was', d', others')
      ensures Kept(was, d, others)
    {
    }

    /** The loop of `ctree_builder_finish`: all levels but the last are written. */
    method FlushAll() returns (rc: int, level: nat, ghost grown: bool)
      requires io.Valid() && Accounted() && NodesOk() && |node| > 0
      requires Finishing(io.content, Shelf(), Held(), 0, false, added)
      modifies this`node, this`kids, this`reserved, this`pages, io, alloc, Nodes()
      ensures Blameless(rc, old(Faults()), Faults())
      ensures rc <= 0 && Kept(old(node), old(io.content), old(alloc.reserved)) && fresh(Nodes() - old(Nodes()))
      ensures rc == 0 ==> NodesOk() && level == |node| - 1 && (level == 0 <==> old(|node|) == 1)
      ensures rc == 0 ==> Finishing(io.content, Shelf(), Held(), level, grown, added)
      ensures rc == 0 && level == 0 ==> Held() == old(Held())
    {
      hide NodesOk, Accounted, Shelf, ShelfOf, Held, Finishing, Flushing, Flushed;
      BasicOk();
      ghost var nodes := Nodes();
      rc, level, grown := 0, 0, false;
      while level < |node| - 1
        invariant rc == 0 && NodesOk() && |kids| == |node| &&
            Kept(old(node), old(io.content), old(alloc.reserved)) && fresh(Nodes() - nodes)
        invariant level < |node| && Finishing(io.content, Shelf(), Held(), level, grown, added)
        invariant Faults() == old(Faults())
        invariant level == 0 ==> node == old(node) && Held() == old(Held())
        invariant level > 0 ==> old(|node|) > 1
        decreases if grown then 0 else 1, |node| - level
      {
        ghost var ls, held, d := Shelf(), Held(), io.content;
        FinishFlush(d, ls, held, level, grown, added);
        ghost var top;
        FlushingOk(d, ls, held, {}, level);
        LevelFits(level);
        LevelFits(level + 1);
        rc, top := Flush(level, {});
        if rc < 0 { return; }
        BasicOk();
        FinishStep(d, io.content, ls, Shelf(), held, Held(), level, grown, added, top);
        grown := grown || |node| > |ls|;
        level := level + 1;
      }
    }

    method WriteRoot(level: nat, ghost grown: bool) returns (rc: int, ghost tree: BTree)
      requires io.Valid() && Accounted() && NodesOk() && 0 < level == |node| - 1
      requires Finishing(io.content, Shelf(), Held(), level, grown, added)
      modifies this`reserved, this`pages, io, alloc, node[level]
      ensures Blameless(rc, old(Faults()), Faults())
      ensures rc <= 0 && Kept(node, old(io.content), old(alloc.reserved))
      ensures rc == 0 ==> NodesOk() && Finished(io.content, tree, level + 1, node[level].ptr, added, Held())
    {
      hide NodesOk, Accounted, Shelf, ShelfOf, Held, Finishing, Finished, Flushing, AllPages;
      BasicOk();
      ghost var ls, held, d := Shelf(), Held(), io.content;
      FinishFlush(d, ls, held, level, grown, added);
      FlushingOk(d, ls, held, {}, level);
      tree := BTree(ptr, [], []);
      rc := WriteLevel(level);
      if rc < 0 { return; }
      tree := RootTree(d, io.content, ls, held, Held(), level, grown, added, node[level].ptr);
    }

    /** The node of a level and what the shelf says of it. */
    lemma LevelFits(level: nat)
      requires NodesOk() && level < |node|
      ensures node[level].Valid() && Shelf()[level] == Level(node[level].Pairs(), kids[level])
      ensures |Shelf()[level].pairs| == node[level].entries && KeysFit(io.pageSize, Shelf()[level].pairs)
      ensures node[level].entries < MIN_FANOUT ==> forall size: nat :: node[level].CanAppend(io.pageSize, 1, size)
    {
      hide Fit;
      LevelIs(node[level], io.pageSize, kids[level]);
    }

    /** What holds whether or not an operation failed: pages are accounted for, nobody else's pages
        were written, and the nodes are still there. */
    ghost predicate Kept(was: seq<CtreeNode>, d: Disk, others: set<nat>)
      reads this`node, this`reserved, this`pages, io`content, alloc
    {
      io.Valid() && Accounted() && was <= node && others <= alloc.reserved && SameOn(d, io.content, others)
    }
  }

  /** An entry for the level above fits too. */
  lemma PtrFits(ps: nat, p: Pair, ptr: Ptr)
    requires ps > 0 && KeyFits(ps, p)
    ensures Fits(ps, Pair(p.key, EncodePtr(ptr)))
  {
    hide IoAlign;
  }

  lemma LevelIs(n: CtreeNode, ps: nat, kids: seq<BTree>)
    requires Fit(n, ps)
    ensures n.Valid() && LevelOf(n, kids) == Level(n.Pairs(), kids) && |n.Pairs()| == n.entries && KeysFit(ps, n.Pairs())
  {
  }

  /** `ctree_node_append` on a node with room: nothing is written beyond its buffer. */
  method Store(n: CtreeNode, ps: nat, p: Pair)
    requires Fit(n, ps) && ps > 0 && KeyFits(ps, p) && n.CanAppend(ps, 1, |p.key| + |p.val|)
    requires n.bytes + EncodedSize(p) <= 2 * |n.buf|
    modifies n
    ensures Fit(n, ps) && n.Pairs() == old(n.Pairs()) + [p]
  {
    hide IoAlign, IoPages, Items, Bounded, Short, Room, CtreeNode.Built, CtreeNode.Valid, CtreeNode.Pairs;
    BuiltSizes(n, ps);
    BoundedAppend(ps, n.entries, n.bytes, p);
    n.Append(ps, p.key, p.val);
  }

  lemma BuiltBytes(n: CtreeNode, ps: nat)
    requires Fit(n, ps)
    ensures n.bytes == HEADER + |EncodePairs(n.Pairs())|
  {
  }

  lemma BuiltSizes(n: CtreeNode, ps: nat)
    requires n.Built(ps)
    ensures n.bytes <= |n.buf| && n.entries <= |n.entry|
  {
  }

  /** `ctree_node_write`: afterwards the pointer leads to the node's pairs. */
  method WriteOut(n: CtreeNode, io: Io, offs: nat, level: nat) returns (rc: int)
    requires Fit(n, io.pageSize) && 0 < io.pageSize <= PAGE_LIMIT && io.Valid()
    modifies n, io
    ensures Earned(rc, old(io.failures), io.failures)
    ensures Fit(n, io.pageSize) && n.Pairs() == old(n.Pairs()) && n.bytes == old(n.bytes) && |n.buf| == old(|n.buf|)
    ensures io.Valid() && (rc == 0 || rc == -EIO)
    ensures forall p :: p !in PageRange(offs, IoPages(io.pageSize, n.bytes)) ==> io.content(p) == old(io.content)(p)
    ensures rc == 0 ==> n.ptr.offs == offs && n.ptr.size == IoPages(io.pageSize, n.bytes) < LIMIT
    ensures rc == 0 ==> NodeAt(io.content, n.ptr, level) == Some(n.Pairs())
  {
    hide IoAlign, IoPages, Items, Bounded, Short, NodeAt, PageRange;
    BoundedBytes(io.pageSize, n.entries, n.bytes);
    assert AllShort(n.Pairs());
    rc := n.Write(io, offs, level);
  }

  /** `ctree_node_reset`. */
  method Empty(n: CtreeNode, ps: nat)
    requires Fit(n, ps) && ps > 0
    modifies n
    ensures Fit(n, ps) && n.Pairs() == [] && n.entries == 0 && n.bytes == HEADER && |n.buf| == old(|n.buf|)
  {
    hide IoAlign, IoPages, Items;
    BuiltSizes(n, ps);
    assert |n.buf| >= HEADER;
    PagesMonotone(ps, HEADER, HEADER + MIN_FANOUT * MAX_ENTRY);
    n.Reset(ps);
  }

  /** `ctree_node_create` and `ctree_node_setup`. */
  method NewNode(ps: nat) returns (n: CtreeNode)
    requires ps > 0
    ensures fresh(n) && Fit(n, ps) && n.entries == 0 && LevelOf(n, []) == EMPTY
    ensures n.bytes == HEADER && |n.buf| == IoAlign(ps, 4096)
  {
    hide Bounded, IoPages, IoAlign;
    n := new CtreeNode();
    n.Setup(ps);
    NewNodeFits(n, ps);
  }

  lemma NewNodeFits(n: CtreeNode, ps: nat)
    requires ps > 0 && n.Built(ps) && n.Pairs() == [] && n.bytes == HEADER && |n.buf| == IoAlign(ps, 4096) &&
        |n.entry| == MIN_FANOUT
    ensures Fit(n, ps)
  {
    hide IoPages, IoAlign;
    PagesMonotone(ps, HEADER, HEADER + MIN_FANOUT * MAX_ENTRY);
  }
}
