/** What a tree builder holds: for each level the node that is being filled, as values. */
module Shelf {
  import opened Pairs
  import opened Io
  import opened Codec
  import opened BTree

  /** The pairs of the node being filled and, above the leaves, the written subtrees they point to. */
  datatype Level = Level(pairs: seq<Pair>, kids: seq<BTree>)

  const EMPTY: Level := Level([], [])

  /** The subtrees are on the disk and the pairs point to them. */
  ghost predicate LevelOk(d: Disk, lv: Level, l: nat) {
    if l == 0 then lv.kids == [] else AllHung(lv.pairs, lv.kids) && StoredAll(d, lv.kids, l - 1)
  }

  ghost predicate LevelsOk(d: Disk, ls: seq<Level>) {
    forall l :: 0 <= l < |ls| ==> LevelOk(d, ls[l], l)
  }

  ghost function Content(lv: Level, l: nat): seq<Pair> {
    if l == 0 then lv.pairs else FlatAll(lv.kids, l - 1)
  }

  /** The pairs at level `l` and above it, in order: higher levels come first. */
  ghost function Above(ls: seq<Level>, l: nat): seq<Pair>
    decreases |ls| - l
  {
    if l >= |ls| then [] else Above(ls, l + 1) + Content(ls[l], l)
  }

  ghost function LevelPages(lv: Level, l: nat): set<nat> {
    if l == 0 then {} else PagesOfAll(lv.kids, l - 1)
  }

  ghost function AllPages(ls: seq<Level>): set<nat> {
    set l, p | 0 <= l < |ls| && p in LevelPages(ls[l], l) :: p
  }

  /** All subtrees of a level are full. */
  ghost predicate Packed(lv: Level, l: nat) {
    l > 0 ==> forall i :: 0 <= i < |lv.kids| ==> Full(lv.kids[i], l - 1)
  }

  ghost predicate PackedFrom(ls: seq<Level>, l: nat) {
    forall i :: l <= i < |ls| ==> Packed(ls[i], i)
  }

  /** All are full but the last one, which may end early. */
  ghost predicate Ending(lv: Level, l: nat) {
    l > 0 ==> Leaning(lv.kids, l - 1) && (lv.kids != [] ==> Spine(lv.kids[|lv.kids| - 1], l - 1))
  }

  /** A pair for level `l`, with the subtree it points to. */
  ghost predicate ItemOk(d: Disk, p: Pair, kid: Option<BTree>, l: nat) {
    if l == 0 then kid == None else kid.Some? && Hung(p, kid.value) && Stored(d, kid.value, l - 1)
  }

  ghost function ItemPairs(p: Pair, kid: Option<BTree>, l: nat): seq<Pair> {
    if l == 0 || kid.None? then [p] else Flat(kid.value, l - 1)
  }

  ghost function ItemPages(kid: Option<BTree>, l: nat): set<nat> {
    if l == 0 || kid.None? then {} else PagesOf(kid.value, l - 1)
  }

  ghost predicate ItemEnding(kid: Option<BTree>, l: nat) {
    l > 0 && kid.Some? ==> Spine(kid.value, l - 1)
  }

  ghost predicate ItemFull(kid: Option<BTree>, l: nat) {
    l > 0 && kid.Some? ==> Full(kid.value, l - 1)
  }

  ghost function Added(lv: Level, p: Pair, kid: Option<BTree>): Level {
    Level(lv.pairs + [p], if kid.Some? then lv.kids + [kid.value] else lv.kids)
  }

  lemma AddedOk(d: Disk, lv: Level, l: nat, p: Pair, kid: Option<BTree>)
    requires LevelOk(d, lv, l) && ItemOk(d, p, kid, l)
    ensures LevelOk(d, Added(lv, p, kid), l)
    ensures Content(Added(lv, p, kid), l) == Content(lv, l) + ItemPairs(p, kid, l)
    ensures LevelPages(Added(lv, p, kid), l) == LevelPages(lv, l) + ItemPages(kid, l)
    ensures Packed(lv, l) && ItemEnding(kid, l) ==> Ending(Added(lv, p, kid), l)
    ensures Packed(lv, l) && ItemFull(kid, l) ==> Packed(Added(lv, p, kid), l)
  {
    hide Stored, Hung, Flat, PagesOf, Full, Spine;
    if l > 0 {
      FlatAppend(lv.kids, kid.value, l - 1);
      hide FlatAll, PagesOfAll;
    }
  }

  lemma {:induction false} AboveSame(ls: seq<Level>, ls': seq<Level>, l: nat)
    requires |ls| == |ls'| && forall i :: l <= i < |ls| ==> ls[i] == ls'[i]
    ensures Above(ls, l) == Above(ls', l)
    decreases |ls| - l
  {
    hide Content;
    if l < |ls| { AboveSame(ls, ls', l + 1); }
  }

  /** One level changed. */
  lemma AboveSet(ls: seq<Level>, l: nat, lv: Level)
    requires l < |ls|
    ensures Above(ls[l := lv], l) == Above(ls, l + 1) + Content(lv, l)
    ensures forall k :: k > l ==> Above(ls[l := lv], k) == Above(ls, k)
  {
    hide Content;
    forall k: nat | k > l
      ensures Above(ls[l := lv], k) == Above(ls, k)
    {
      AboveSame(ls, ls[l := lv], k);
    }
  }

  lemma {:induction false} AboveMore(ls: seq<Level>, l: nat)
    requires l <= |ls|
    ensures Above(ls + [EMPTY], l) == Above(ls, l)
    decreases |ls| - l
  {
    var more := ls + [EMPTY];
    assert Content(EMPTY, |ls|) == [];
    hide Content;
    if l == |ls| {
      assert Above(more, l + 1) == [];
    } else {
      AboveMore(ls, l + 1);
    }
  }

  lemma LevelSame(d: Disk, d': Disk, lv: Level, l: nat)
    requires LevelOk(d, lv, l) && SameOn(d, d', LevelPages(lv, l))
    ensures LevelOk(d', lv, l)
  {
    hide AllHung, StoredAll, PagesOfAll, SameOn;
    if l > 0 { StoredAllSame(d, d', lv.kids, l - 1); }
  }

  lemma LevelsSame(d: Disk, d': Disk, ls: seq<Level>)
    requires LevelsOk(d, ls) && SameOn(d, d', AllPages(ls))
    ensures LevelsOk(d', ls)
  {
    hide LevelOk, LevelPages;
    forall l | 0 <= l < |ls|
      ensures LevelOk(d', ls[l], l)
    {
      assert forall p :: p in LevelPages(ls[l], l) ==> p in AllPages(ls);
      LevelSame(d, d', ls[l], l);
    }
  }

  lemma PagesSet(ls: seq<Level>, l: nat, lv: Level, more: set<nat>)
    requires l < |ls| && LevelPages(lv, l) == LevelPages(ls[l], l) + more
    ensures AllPages(ls[l := lv]) == AllPages(ls) + more
  {
    hide LevelPages;
    var ls' := ls[l := lv];
    forall p
      ensures p in AllPages(ls') <==> p in AllPages(ls) + more
    {
      if p in AllPages(ls') {
        var k :| 0 <= k < |ls'| && p in LevelPages(ls'[k], k);
        assert k != l ==> p in LevelPages(ls[k], k);
      }
      if p in AllPages(ls) {
        var k :| 0 <= k < |ls| && p in LevelPages(ls[k], k);
        assert p in LevelPages(ls'[k], k);
      }
      if p in more { assert p in LevelPages(ls'[l], l); }
    }
  }

  /** Emptying a level whose pages are held above. */
  lemma PagesEmptied(ls: seq<Level>, l: nat)
    requires l + 1 < |ls| && LevelPages(ls[l], l) <= LevelPages(ls[l + 1], l + 1)
    ensures AllPages(ls[l := EMPTY]) == AllPages(ls)
  {
    assert LevelPages(EMPTY, l) == {};
    hide LevelPages;
    var ls' := ls[l := EMPTY];
    forall p
      ensures p in AllPages(ls') <==> p in AllPages(ls)
    {
      if p in AllPages(ls') {
        var k :| 0 <= k < |ls'| && p in LevelPages(ls'[k], k);
        assert p in LevelPages(ls[k], k);
      }
      if p in AllPages(ls) {
        var k :| 0 <= k < |ls| && p in LevelPages(ls[k], k);
        assert p in LevelPages(ls'[if k == l then l + 1 else k], if k == l then l + 1 else k);
      }
    }
  }

  lemma PagesMore(ls: seq<Level>)
    ensures AllPages(ls + [EMPTY]) == AllPages(ls)
  {
    assert LevelPages(EMPTY, |ls|) == {};
    hide LevelPages;
    var ls' := ls + [EMPTY];
    forall p
      ensures p in AllPages(ls') <==> p in AllPages(ls)
    {
      if p in AllPages(ls) {
        var k :| 0 <= k < |ls| && p in LevelPages(ls[k], k);
        assert p in LevelPages(ls'[k], k);
      }
    }
  }

  /** Writing a level's node makes a tree of it, and an item for the level above. */
  lemma WrittenTree(d: Disk, lv: Level, l: nat, ptr: Ptr) returns (t: BTree, p: Pair)
    requires LevelOk(d, lv, l) && lv.pairs != [] && NodeAt(d, ptr, l) == Some(lv.pairs)
    requires ptr.offs < LIMIT && ptr.size < LIMIT
    ensures t == BTree(ptr, lv.pairs, lv.kids) && p == Pair(lv.pairs[0].key, EncodePtr(ptr))
    ensures ItemOk(d, p, Some(t), l + 1) && Stored(d, t, l)
    ensures ItemPairs(p, Some(t), l + 1) == Content(lv, l) == Flat(t, l)
    ensures ItemPages(Some(t), l + 1) == PageRange(ptr.offs, ptr.size) + LevelPages(lv, l) == PagesOf(t, l)
    ensures Ending(lv, l) ==> ItemEnding(Some(t), l + 1)
    ensures Packed(lv, l) && |lv.pairs| >= 100 ==> ItemFull(Some(t), l + 1)
  {
    hide NodeAt, PageRange, EncodePtr, DecodePtr, FlatAll, PagesOfAll;
    t, p := BTree(ptr, lv.pairs, lv.kids), Pair(lv.pairs[0].key, EncodePtr(ptr));
    PtrRoundTrip(ptr);
    EndingSpine(d, lv, l, t);
  }

  lemma EndingSpine(d: Disk, lv: Level, l: nat, t: BTree)
    requires LevelOk(d, lv, l) && lv.pairs != [] && t.kids == lv.kids && t.pairs == lv.pairs
    ensures Ending(lv, l) ==> Spine(t, l)
    ensures Packed(lv, l) && |lv.pairs| >= 100 ==> Full(t, l)
  {
    hide StoredAll, Hung;
  }

  /** A full tree ends late enough. */
  lemma {:induction false} FullSpine(d: Disk, t: BTree, l: nat)
    requires Stored(d, t, l) && Full(t, l)
    ensures Spine(t, l)
    decreases l
  {
    hide Stored;
    StoredKids(d, t, l);
    if l > 0 {
      StoredKid(d, t, l, |t.kids| - 1);
      FullSpine(d, t.kids[|t.kids| - 1], l - 1);
    }
  }

  lemma PackedEnding(d: Disk, lv: Level, l: nat)
    requires LevelOk(d, lv, l) && Packed(lv, l)
    ensures Ending(lv, l)
  {
    hide Stored, Full, Spine;
    if l > 0 && lv.kids != [] {
      FullSpine(d, lv.kids[|lv.kids| - 1], l - 1);
    }
  }

  /* ---------- Appending and flushing ---------- */

  /** What an item for level `l` does to the counts: the levels below `top` are written out and
      start again with one entry, and `top` takes an entry more, as a new level if need be. */
  ghost predicate Grew(ls: seq<Level>, ls': seq<Level>, l: nat, top: nat) {
    && l <= top < |ls'| && l <= |ls| && (forall i :: 0 <= i < l ==> ls'[i] == ls[i])
    && (forall i :: l <= i < top ==> |ls'[i].pairs| == 1)
    && (if top < |ls| then |ls'| == |ls| && |ls'[top].pairs| == |ls[top].pairs| + 1
        else |ls'| == |ls| + 1 == top + 1 && |ls'[top].pairs| == 1)
    && (forall i :: top < i < |ls| ==> ls'[i] == ls[i])
  }

  /** An item may be put in at level `l`. Besides the pages of the shelf and of the item's subtree,
      `extra` pages are held. */
  ghost predicate Taking(d: Disk, ls: seq<Level>, held: set<nat>, extra: set<nat>, l: nat, p: Pair,
      kid: Option<BTree>) {
    && l <= |ls| && LevelsOk(d, ls) && ItemOk(d, p, kid, l)
    && held == AllPages(ls) + ItemPages(kid, l) + extra
    && PackedFrom(ls, l) && ItemEnding(kid, l)
  }

  /** The item was put in. */
  ghost predicate Taken(d: Disk, ls: seq<Level>, ls': seq<Level>, held: set<nat>, extra: set<nat>, l: nat, p: Pair,
      kid: Option<BTree>, top: nat) {
    && Grew(ls, ls', l, top) && LevelsOk(d, ls')
    && held == AllPages(ls') + extra
    && Above(ls', l) == Above(ls, l) + ItemPairs(p, kid, l)
    && PackedFrom(ls', l + 1) && Ending(ls'[l], l) && (ItemFull(kid, l) ==> Packed(ls'[l], l))
    && (kid.Some? ==> ls'[l].kids != [] && ls'[l].kids[|ls'[l].kids| - 1] == kid.value)
  }

  /** Level `l` may be written out. */
  ghost predicate Flushing(d: Disk, ls: seq<Level>, held: set<nat>, extra: set<nat>, l: nat) {
    && l < |ls| && ls[l].pairs != [] && LevelsOk(d, ls) && held == AllPages(ls) + extra
    && PackedFrom(ls, l + 1) && Ending(ls[l], l)
  }

  /** Level `l` was written out and is empty; what stands at and above it did not change. */
  ghost predicate Flushed(d: Disk, ls: seq<Level>, ls': seq<Level>, held: set<nat>, extra: set<nat>, l: nat, top: nat) {
    && l < |ls| && Grew(ls[l := EMPTY], ls', l + 1, top) && LevelsOk(d, ls')
    && held == AllPages(ls') + extra
    && Above(ls', l) == Above(ls, l)
    && PackedFrom(ls', l + 2) && Ending(ls'[l + 1], l + 1)
    && (Packed(ls[l], l) && |ls[l].pairs| >= 100 ==> Packed(ls'[l + 1], l + 1))
  }

  /** With room at the level. */
  lemma TakeDirect(d: Disk, ls: seq<Level>, held: set<nat>, extra: set<nat>, l: nat, p: Pair, kid: Option<BTree>)
    requires Taking(d, ls, held, extra, l, p, kid) && l < |ls|
    ensures Taken(d, ls, ls[l := Added(ls[l], p, kid)], held, extra, l, p, kid, l)
  {
    hide LevelOk, ItemPairs, ItemPages, ItemOk, Packed, Ending, LevelPages, AllPages, Above, Content, ItemFull;
    hide ItemEnding;
    var lv := Added(ls[l], p, kid);
    AddedOk(d, ls[l], l, p, kid);
    AboveSet(ls, l, lv);
    PagesSet(ls, l, lv, ItemPages(kid, l));
    AboveSplit(ls, l);
    ConcatAssoc(Above(ls, l + 1), Content(ls[l], l), ItemPairs(p, kid, l));
  }

  /** On a new level. */
  lemma TakeNew(d: Disk, ls: seq<Level>, held: set<nat>, extra: set<nat>, l: nat, p: Pair, kid: Option<BTree>)
    requires Taking(d, ls, held, extra, l, p, kid) && l == |ls|
    ensures Taken(d, ls, (ls + [EMPTY])[l := Added(EMPTY, p, kid)], held, extra, l, p, kid, l)
  {
    hide LevelOk, ItemPairs, ItemPages, ItemOk, Packed, Ending, LevelPages, AllPages, Above, ItemFull, ItemEnding;
    EmptyLevel(d, l);
    AboveMore(ls, l);
    PagesMore(ls);
    TakeDirect(d, ls + [EMPTY], held, extra, l, p, kid);
  }

  lemma EmptyLevel(d: Disk, l: nat)
    ensures LevelOk(d, EMPTY, l) && Packed(EMPTY, l) && Content(EMPTY, l) == []
  {
  }

  lemma AboveSplit(ls: seq<Level>, l: nat)
    requires l < |ls|
    ensures Above(ls, l) == Above(ls, l + 1) + Content(ls[l], l)
  {
  }

  /** After the level was written out. */
  lemma TakeFlushed(d: Disk, d': Disk, ls: seq<Level>, ls': seq<Level>, held: set<nat>, held': set<nat>,
      extra: set<nat>,
                    l: nat, p: Pair, kid: Option<BTree>, top: nat)
    requires Taking(d, ls, held, extra, l, p, kid) && l < |ls| && |ls[l].pairs| >= 100
    requires Flushed(d', ls, ls', held', extra + ItemPages(kid, l), l, top)
    requires ItemOk(d', p, kid, l)
    ensures l < |ls'| && Taken(d', ls, ls'[l := Added(ls'[l], p, kid)], held', extra, l, p, kid, top)
  {
    hide LevelOk, ItemPairs, ItemPages, ItemOk, Packed, Ending, LevelPages, AllPages, Above, ItemFull, ItemEnding;
    EmptyLevel(d', l);
    AddedOk(d', EMPTY, l, p, kid);
    AboveSet(ls', l, Added(EMPTY, p, kid));
    PagesSet(ls', l, Added(EMPTY, p, kid), ItemPages(kid, l));
    AboveSplit(ls', l);
    assert Above(ls', l + 1) + [] == Above(ls', l + 1);
    assert [] + ItemPairs(p, kid, l) == ItemPairs(p, kid, l);
  }

  /** The subtree holds what the level held. */
  ghost predicate Carries(lv: Level, l: nat, p: Pair, t: BTree) {
    && ItemPairs(p, Some(t), l + 1) == Content(lv, l) && LevelPages(lv, l) <= PagesOf(t, l)
    && (Packed(lv, l) && |lv.pairs| >= 100 ==> ItemFull(Some(t), l + 1))
  }

  /** The written node is an item for the level above. */
  lemma FlushItem(d: Disk, d': Disk, ls: seq<Level>, held: set<nat>, held': set<nat>, extra: set<nat>, l: nat, ptr: Ptr)
    returns (t: BTree, p: Pair)
    requires Flushing(d, ls, held, extra, l) && LevelsOk(d', ls) && held' == held + PageRange(ptr.offs, ptr.size)
    requires NodeAt(d', ptr, l) == Some(ls[l].pairs) && ptr.offs < LIMIT && ptr.size < LIMIT
    ensures t == BTree(ptr, ls[l].pairs, ls[l].kids) && p == Pair(ls[l].pairs[0].key, EncodePtr(ptr))
    ensures Taking(d', ls, held', extra, l + 1, p, Some(t)) && Stored(d', t, l)
    ensures Carries(ls[l], l, p, t)
  {
    hide Stored, NodeAt, PageRange, LevelOk, ItemOk, ItemPairs, LevelPages, Content, Packed, Ending, ItemEnding;
    hide ItemFull, ItemPages, PagesOf;
    t, p := WrittenTree(d', ls[l], l, ptr);
    LevelAmong(ls, l);
  }

  lemma LevelAmong(ls: seq<Level>, l: nat)
    requires l < |ls|
    ensures LevelPages(ls[l], l) <= AllPages(ls)
  {
    hide LevelPages;
  }

  lemma FlushDone(d: Disk, ls: seq<Level>, ls': seq<Level>, held: set<nat>, extra: set<nat>, l: nat, p: Pair,
      t: BTree, top: nat)
    requires l < |ls| && Taken(d, ls, ls', held, extra, l + 1, p, Some(t), top) && Carries(ls[l], l, p, t)
    ensures l + 1 < |ls'| && Flushed(d, ls, ls'[l := EMPTY], held, extra, l, top)
  {
    hide LevelOk, ItemPairs, Content, Packed, Ending, AllPages, Above, ItemFull, PagesOf;
    EmptyLevel(d, l);
    AboveSet(ls', l, EMPTY);
    AboveSplit(ls, l);
    PagesAmong(ls'[l + 1].kids, l, |ls'[l + 1].kids| - 1);
    PagesEmptied(ls', l);
    assert Above(ls', l + 1) + [] == Above(ls', l + 1);
  }

  /** A level without room may be written out. */
  lemma TakingFlush(d: Disk, ls: seq<Level>, held: set<nat>, extra: set<nat>, l: nat, p: Pair, kid: Option<BTree>)
    requires Taking(d, ls, held, extra, l, p, kid) && l < |ls| && |ls[l].pairs| >= 100
    ensures Flushing(d, ls, held, extra + ItemPages(kid, l), l)
  {
    hide LevelOk, ItemPages, ItemOk, Packed, Ending, AllPages, ItemEnding;
    PackedEnding(d, ls[l], l);
  }

  lemma ItemSame(d: Disk, d': Disk, p: Pair, kid: Option<BTree>, l: nat)
    requires ItemOk(d, p, kid, l) && SameOn(d, d', ItemPages(kid, l))
    ensures ItemOk(d', p, kid, l)
  {
    hide Stored, Hung, PagesOf, SameOn;
    if l > 0 { StoredSame(d, d', kid.value, l - 1); }
  }

  lemma FlushingOk(d: Disk, ls: seq<Level>, held: set<nat>, extra: set<nat>, l: nat)
    requires Flushing(d, ls, held, extra, l)
    ensures l < |ls| && ls[l].pairs != [] && LevelsOk(d, ls) && AllPages(ls) <= held
  {
  }

  lemma TakenAfter(d: Disk, d': Disk, ls: seq<Level>, ls': seq<Level>, held: set<nat>, held': set<nat>, extra: set<nat>,
                   l: nat, p: Pair, kid: Option<BTree>, top: nat)
    requires Taking(d, ls, held, extra, l, p, kid) && l < |ls| && |ls[l].pairs| >= 100
    requires Flushed(d', ls, ls', held', extra + ItemPages(kid, l), l, top) && SameOn(d, d', held)
    ensures l < |ls'| && Taken(d', ls, ls'[l := Added(ls'[l], p, kid)], held', extra, l, p, kid, top) && top > l
  {
    assert ItemOk(d', p, kid, l) by {
      hide ItemOk, ItemPages, AllPages;
      ItemSame(d, d', p, kid, l);
    }
    hide ItemOk, ItemPairs, ItemPages, ItemFull, LevelsOk, Above, PackedFrom, Ending, Packed;
    TakeFlushed(d, d', ls, ls', held, held', extra, l, p, kid, top);
  }

  /* ---------- Finishing ---------- */

  /** The levels below `level` have been written out, and no level above has been since it was
      created in case one was (`grown`). */
  ghost predicate Finishing(d: Disk, ls: seq<Level>, held: set<nat>, level: nat, grown: bool, added: seq<Pair>) {
    && level < |ls| && LevelsOk(d, ls) && held == AllPages(ls) && Above(ls, level) == added
    && PackedFrom(ls, level + 1) && Ending(ls[level], level)
    && (forall i :: 0 <= i < level ==> ls[i] == EMPTY)
    && (forall i :: level <= i < |ls| ==> ls[i].pairs != [])
    && (grown ==> forall i :: level < i < |ls| ==> |ls[i].pairs| <= 1)
    && (level > 0 && level == |ls| - 1 ==> |ls[level].pairs| >= 2)
  }

  lemma FinishFlush(d: Disk, ls: seq<Level>, held: set<nat>, level: nat, grown: bool, added: seq<Pair>)
    requires Finishing(d, ls, held, level, grown, added)
    ensures Flushing(d, ls, held, {}, level)
  {
  }

  /** One round of the loop: the flush adds at most one level over all rounds. */
  lemma FinishStep(d: Disk, d': Disk, ls: seq<Level>, ls': seq<Level>, held: set<nat>, held': set<nat>, level: nat,
      grown: bool, added: seq<Pair>, top: nat)
    requires Finishing(d, ls, held, level, grown, added) && level < |ls| - 1
    requires Flushed(d', ls, ls', held', {}, level, top) && (|ls[level + 1].pairs| < 100 ==> top == level + 1)
    ensures Finishing(d', ls', held', level + 1, grown || |ls'| > |ls|, added)
    ensures level + 1 < |ls'| <= |ls| + 1 && (grown ==> |ls'| == |ls|)
  {
    hide LevelOk, AllPages, Above, Packed, Ending;
    AboveSplit(ls', level);
    EmptyLevel(d', level);
    assert Above(ls', level + 1) + [] == Above(ls', level + 1);
  }

  /** The top level holds everything when all others are empty. */
  lemma FinishTop(d: Disk, ls: seq<Level>, held: set<nat>, level: nat, grown: bool, added: seq<Pair>)
    requires Finishing(d, ls, held, level, grown, added) && level == |ls| - 1
    ensures Content(ls[level], level) == added && LevelPages(ls[level], level) == held
  {
    hide LevelOk, Packed, Ending, Content;
    AboveSplit(ls, level);
    assert Above(ls, level + 1) == [];
    assert [] + Content(ls[level], level) == Content(ls[level], level);
    forall p
      ensures p in LevelPages(ls[level], level) <==> p in AllPages(ls)
    {
      if p in AllPages(ls) {
        var k :| 0 <= k < |ls| && p in LevelPages(ls[k], k);
        if k < level { EmptyPages(k); }
      }
    }
  }

  lemma EmptyPages(l: nat)
    ensures LevelPages(EMPTY, l) == {}
  {
  }
}
