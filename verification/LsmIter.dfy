/** `struct lsm_iter` of `lib/lsm.c`: one cursor over the two memory trees and the three disk trees. */
module LsmIter {
  import opened Pairs
  import opened Io
  import opened Merged
  import MTree
  import BTree
  import Cursor

  const MAX_DISK_TREES: nat := 3
  const LAST: nat := MAX_DISK_TREES + 1

  /* ---------- One component ---------- */

  /** The loop of `lsm_next` over a memory tree: past all keys up to `key`. */
  method AdvanceMem(it: MTree.MtreeIter, ord: Order, item0: Option<Pair>, key: Bytes) returns (item: Option<Pair>)
    requires it.Valid() && it.mtree.ord == ord && item0 == ItemAt(it.Contents(), it.at)
    requires forall i :: 0 <= i < it.at ==> ord(it.Contents()[i].key) <= ord(key)
    modifies it
    ensures it.Valid() && item == ItemAt(it.Contents(), it.at) && Past(ord, it.Contents(), it.at, ord(key))
  {
    hide MTree.MtreeIter.Valid;
    item := item0;
    ghost var s := it.Contents();
    MemPlace(it);
    while item.Some?
      invariant it.Valid() && it.Contents() == s && it.at <= |s| && item == ItemAt(s, it.at)
      invariant forall i :: 0 <= i < it.at ==> ord(s[i].key) <= ord(key)
      decreases |s| - it.at
    {
      if Cmp(ord, item.value.key, key) > 0 { break; }
      var rc := it.Next();
      item := it.Item();
    }
  }

  lemma MemPlace(it: MTree.MtreeIter)
    requires it.Valid()
    ensures it.at <= |it.Contents()|
  {
  }

  /** The same over a disk tree. */
  method AdvanceDisk(it: Cursor.CtreeIter, item0: Option<Pair>, key: Bytes) returns (rc: int, item: Option<Pair>)
    requires it.Placed() && it.Ready() && item0 == ItemAt(it.Contents(), it.At())
    requires forall i :: 0 <= i < it.At() ==> it.ord(it.Contents()[i].key) <= it.ord(key)
    modifies it, it.io`failures
    ensures it.Sound() && fresh(it.Nodes() - old(it.Nodes())) && (rc == 0 || rc == -EIO)
    ensures Earned(rc, old(it.io.failures), it.io.failures)
    ensures rc == 0 ==> it.Placed() && item == ItemAt(it.Contents(), it.At()) && Past(it.ord, it.Contents(), it.At(), it.ord(key))
  {
    hide Cursor.CtreeIter.Placed, Cursor.CtreeIter.Sound, Cursor.CtreeIter.Reaching, Cursor.CtreeIter.Ready;
    hide Cursor.CtreeIter.At, Cursor.CtreeIter.Contents;
    rc, item := 0, item0;
    ghost var nodes, s := it.Nodes(), it.Contents();
    DiskPlace(it);
    while item.Some?
      invariant rc == 0 && it.Placed() && it.Ready() && fresh(it.Nodes() - nodes) && it.Sound()
      invariant it.io.failures == old(it.io.failures)
      invariant it.At() <= |s| && item == ItemAt(s, it.At())
      invariant forall i :: 0 <= i < it.At() ==> it.ord(s[i].key) <= it.ord(key)
      decreases |s| - it.At()
    {
      if Cmp(it.ord, item.value.key, key) > 0 { break; }
      DiskPlace(it);
      rc := it.Next();
      if rc < 0 && rc != -ENOENT { return; }
      DiskPlace(it);
      rc := 0;
      ghost var nodes', at := it.Nodes(), it.At();
      item := it.Item();
      assert it.Nodes() == nodes' && it.At() == at;
    }
  }

  lemma DiskPlace(it: Cursor.CtreeIter)
    requires it.Placed()
    ensures it.At() <= |it.Contents()| && it.Sound() && it.Reaching() && Sorted(it.ord, it.Contents())
  {
  }

  /** The loop of `lsm_prev` over a memory tree: back before `key`, or to the first pair. */
  method RetreatMem(it: MTree.MtreeIter, ord: Order, item0: Option<Pair>,
      key: Option<Bytes>) returns (item: Option<Pair>, moved: bool)
    requires it.Valid() && it.mtree.ord == ord && item0 == ItemAt(it.Contents(), it.at)
    modifies it
    ensures it.Valid() && item == ItemAt(it.Contents(), it.at)
    ensures Back(ord, it.Contents(), old(it.at), it.at, KeyRank(ord, key)) && (moved <==>
        Lb(ord, it.Contents(), KeyRank(ord, key)) > 0)
  {
    hide MTree.MtreeIter.Valid, Lb;
    item, moved := item0, false;
    ghost var s, r, at := it.Contents(), KeyRank(ord, key), it.at;
    MemPlace(it);
    MemSorted(it);
    while true
      invariant it.Valid() && it.Contents() == s && it.at <= |s| && item == ItemAt(s, it.at)
      invariant it.at == at || (it.at < at && Lb(ord, s, r) <= it.at + 1)
      decreases it.at
    {
      BackStep(ord, s, at, it.at, r);
      if item.Some? && key.None? {
        moved := true;
        break;
      }
      if item.Some? && Cmp(ord, item.value.key, key.value) < 0 {
        moved := true;
        break;
      }
      var rc := it.Prev();
      item := it.Item();
      if rc < 0 { break; }
    }
  }

  lemma MemSorted(it: MTree.MtreeIter)
    requires it.Valid()
    ensures Sorted(it.mtree.ord, it.Contents())
  {
    hide MTree.RbTree.RbTree.Valid;
    it.mtree.ContentsSorted();
  }

  /** The rank of the current key; behind the last pair there is none. */
  ghost function KeyRank(ord: Order, key: Option<Bytes>): real {
    if key.None? then TOP else ord(key.value)
  }

  /** Where going back stops. */
  lemma BackStep(ord: Order, s: seq<Pair>, at0: nat, at: nat, r: real)
    requires Sorted(ord, s) && at <= |s| && (at == at0 || (at < at0 && Lb(ord, s, r) <= at + 1)) && r <= TOP
    ensures at < |s| && ord(s[at].key) < r ==> Back(ord, s, at0, at, r) && Lb(ord, s, r) > 0
    ensures !(at < |s| && ord(s[at].key) < r) ==> Lb(ord, s, r) <= at
  {
  }

  /** The same over a disk tree. */
  method RetreatDisk(it: Cursor.CtreeIter, item0: Option<Pair>, key: Option<Bytes>) returns (rc: int,
      item: Option<Pair>, moved: bool)
    requires it.Placed() && it.Ready() && item0 == ItemAt(it.Contents(), it.At())
    modifies it, it.io`failures
    ensures it.Sound() && fresh(it.Nodes() - old(it.Nodes())) && (rc == 0 || rc == -EIO)
    ensures Earned(rc, old(it.io.failures), it.io.failures)
    ensures rc == 0 ==> it.Placed() && item == ItemAt(it.Contents(), it.At())
    ensures rc == 0 ==> Back(it.ord, it.Contents(), old(it.At()), it.At(), KeyRank(it.ord, key)) && (moved <==>
        Lb(it.ord, it.Contents(), KeyRank(it.ord, key)) > 0)
  {
    hide Cursor.CtreeIter.Placed, Cursor.CtreeIter.Sound, Cursor.CtreeIter.Reaching, Cursor.CtreeIter.Ready;
    hide Cursor.CtreeIter.At, Cursor.CtreeIter.Contents, Lb;
    rc, item, moved := 0, item0, false;
    ghost var nodes, s, r, at := it.Nodes(), it.Contents(), KeyRank(it.ord, key), it.At();
    DiskPlace(it);
    while true
      invariant rc == 0 && it.Placed() && it.Ready() && fresh(it.Nodes() - nodes) && it.Sound()
      invariant it.io.failures == old(it.io.failures)
      invariant it.At() <= |s| && item == ItemAt(s, it.At())
      invariant it.At() == at || (it.At() < at && Lb(it.ord, s, r) <= it.At() + 1)
      decreases it.At()
    {
      BackStep(it.ord, s, at, it.At(), r);
      if item.Some? && key.None? {
        moved := true;
        break;
      }
      if item.Some? && Cmp(it.ord, item.value.key, key.value) < 0 {
        moved := true;
        break;
      }
      rc := it.Prev();
      if rc == -ENOENT {
        rc := 0;
        break;
      }
      if rc < 0 { return; }
      DiskPlace(it);
      ghost var nodes', at' := it.Nodes(), it.At();
      item := it.Item();
      assert it.Nodes() == nodes' && it.At() == at';
    }
  }

  /** `mtree_begin`, `mtree_end` and `mtree_lower_bound` by the place they lead to. */
  method BeginMem(it: MTree.MtreeIter)
    requires it.Valid()
    modifies it
    ensures it.Valid() && it.at == 0
  {
    it.Begin();
  }

  method EndMem(it: MTree.MtreeIter)
    requires it.Valid()
    modifies it
    ensures it.Valid() && it.at == |it.Contents()|
  {
    it.End();
  }

  method SearchMem(it: MTree.MtreeIter, ord: Order, key: Bytes)
    requires it.Valid() && it.mtree.ord == ord
    modifies it
    ensures it.Valid() && it.at == Lb(ord, it.Contents(), ord(key))
  {
    it.LowerBound(key);
  }

  /* ---------- All components ---------- */

  /** The components from `from` to `to`. */
  ghost function Cut<T>(s: seq<T>, from: nat, to: nat): (c: seq<T>)
    requires from <= to < |s|
    ensures |c| == to + 1 - from && forall i :: 0 <= i < |c| ==> c[i] == s[from + i]
  {
    s[from..to + 1]
  }

  /** `ctree_iter_setup`. */
  method SetupDisk(c: Cursor.Ctree) returns (it: Cursor.CtreeIter)
    requires c.Valid()
    ensures fresh(it) && it.Sound() && it.Ready() && it.io == c.io && it.ord == c.ord &&
        it.Contents() == c.Contents() && it.Nodes() == {}
    ensures it.height == c.height && it.tree == c.tree && it.disk == c.io.content
  {
    hide BTree.Stored, BTree.Flat, Sorted, Cursor.CtreeIter.Sound, Cursor.CtreeIter.Ready;
    it := new Cursor.CtreeIter(c.io, c.ord, c.ptr, c.height, c.tree);
  }

  ghost function Min(a: nat, b: nat): nat {
    if a < b then a else b
  }

  /** The smallest of the first `n` items, the first one of equals. */
  ghost predicate SmallestOf(ord: Order, xs: seq<Option<Pair>>, n: nat, best: Option<Pair>, b: nat)
    requires n <= |xs|
  {
    && (best.None? ==> forall i :: 0 <= i < n ==> xs[i].None?)
    && (best.Some? ==>
          && b < n && xs[b] == best
          && (forall i :: 0 <= i < n && xs[i].Some? ==> RankOf(ord, best) <= RankOf(ord, xs[i]))
          && (forall i :: 0 <= i < b && xs[i].Some? ==> RankOf(ord, best) < RankOf(ord, xs[i])))
  }

  /** The largest of the first `n` items below `r`, the first one of equals. */
  ghost predicate LargestOf(ord: Order, xs: seq<Option<Pair>>, n: nat, r: real, best: Option<Pair>, b: nat)
    requires n <= |xs|
  {
    && (best.None? ==> forall i :: 0 <= i < n && xs[i].Some? ==> RankOf(ord, xs[i]) >= r)
    && (best.Some? ==>
          && b < n && xs[b] == best && RankOf(ord, best) < r
          && (forall i :: 0 <= i < n && xs[i].Some? && RankOf(ord, xs[i]) < r ==>
              RankOf(ord, xs[i]) <= RankOf(ord, best))
          && (forall i :: 0 <= i < b && xs[i].Some? && RankOf(ord, xs[i]) < r ==>
              RankOf(ord, xs[i]) < RankOf(ord, best)))
  }

  lemma LargestNone(ord: Order, xs: seq<Option<Pair>>, r: real)
    ensures LargestOf(ord, xs, 0, r, None, 0)
  {
  }

  lemma LargestNext(ord: Order, xs: seq<Option<Pair>>, n: nat, r: real, best: Option<Pair>, b: nat)
    requires n < |xs| && LargestOf(ord, xs, n, r, best, b)
    ensures if xs[n].Some? && RankOf(ord, xs[n]) < r && (best.None? || RankOf(ord, best) < RankOf(ord, xs[n]))
            then LargestOf(ord, xs, n + 1, r, xs[n], n) else LargestOf(ord, xs, n + 1, r, best, b)
  {
  }

  /** The items are those under the cursors. */
  ghost predicate Under(cs: seq<seq<Pair>>, ps: seq<nat>, xs: seq<Option<Pair>>) {
    |cs| == |ps| == |xs| && forall i :: 0 <= i < |xs| ==> xs[i] == ItemAt(cs[i], ps[i])
  }

  lemma SmallestUnder(ord: Order, cs: seq<seq<Pair>>, ps: seq<nat>, xs: seq<Option<Pair>>, best: Option<Pair>, b: nat)
    requires Under(cs, ps, xs) && SmallestOf(ord, xs, |xs|, best, b)
    ensures Smallest(ord, cs, ps, best, b)
  {
    forall i | 0 <= i < |xs|
      ensures xs[i] == ItemAt(cs[i], ps[i])
    {
    }
  }

  lemma LargestUnder(ord: Order, cs: seq<seq<Pair>>, ps: seq<nat>, xs: seq<Option<Pair>>, r: real,
      best: Option<Pair>, b: nat)
    requires Under(cs, ps, xs) && LargestOf(ord, xs, |xs|, r, best, b) && best.Some?
    ensures Largest(ord, cs, ps, r, best, b)
  {
    forall i | 0 <= i < |xs|
      ensures xs[i] == ItemAt(cs[i], ps[i])
    {
    }
  }

  class LsmIter {
    const ord: Order
    const io: Io
    const from: nat
    const to: nat
    const it0: MTree.MtreeIter
    const it1: MTree.MtreeIter
    const iti: seq<Cursor.CtreeIter>

    // keyi and vali, which are always set together; then key and val, copies of the chosen ones.
    var items: seq<Option<Pair>>
    var item: Option<Pair>
    var bufSize: nat

    ghost predicate Set()
      reads iti
    {
      && it0 != it1 && it0.mtree.ord == ord == it1.mtree.ord && |iti| == MAX_DISK_TREES
      && (forall j :: 0 <= j < |iti| ==> iti[j].ord == ord && iti[j].io == io)
      && (forall j, k :: 0 <= j < k < |iti| ==> iti[j] != iti[k])
      && from <= to <= LAST
    }

    ghost function Nodes(): set<object>
      reads iti
    {
      set j, n | 0 <= j < |iti| && n in iti[j].Nodes() :: n
    }

    ghost function Cells(): set<object> {
      if |iti| == MAX_DISK_TREES then {it0, it1, iti[0], iti[1], iti[2]} else {}
    }

    ghost predicate Whole()
      reads this`items, it0, it0.mtree, it0.mtree.tree, it0.mtree.tree.nodes, it1, it1.mtree, it1.mtree.tree,
          it1.mtree.tree.nodes
      reads iti, Nodes()
    {
      Set() && MemOk() && DiskOk() && |items| == LAST + 1
    }

    ghost predicate MemOk()
      reads it0, it0.mtree, it0.mtree.tree, it0.mtree.tree.nodes, it1, it1.mtree, it1.mtree.tree, it1.mtree.tree.nodes
    {
      it0.Valid() && it1.Valid()
    }

    ghost predicate DiskOk()
      reads iti, Nodes()
    {
      forall j :: 0 <= j < |iti| ==> iti[j].Sound()
    }

    ghost predicate Ready()
      reads io`content
    {
      forall j :: 0 <= j < |iti| ==> iti[j].io == io && iti[j].Ready()
    }

    /** What the five components hold, newest first. */
    ghost function Comps(): (cs: seq<seq<Pair>>)
      requires |iti| == MAX_DISK_TREES
      reads it0.mtree, it0.mtree.tree, it1.mtree, it1.mtree.tree
      ensures |cs| == LAST + 1
    {
      [it0.Contents(), it1.Contents(), iti[0].Contents(), iti[1].Contents(), iti[2].Contents()]
    }

    /** Where the five cursors stand. */
    ghost function Places(): (ps: seq<nat>)
      requires |iti| == MAX_DISK_TREES
      reads it0, it1, iti
      ensures |ps| == LAST + 1
    {
      [it0.at, it1.at, iti[0].At(), iti[1].At(), iti[2].At()]
    }

    ghost predicate PlacedAt(i: nat)
      reads iti, Nodes()
    {
      2 <= i < 2 + |iti| ==> iti[i - 2].Placed()
    }

    /** The components whose cursors have a place. */
    ghost function Placed(): set<nat>
      reads iti, Nodes()
    {
      set i: nat | i <= LAST && PlacedAt(i)
    }

    /** Only the cursor of component `i` has moved. */
    ghost predicate MovedOnly(i: nat, cs: seq<seq<Pair>>, ps: seq<nat>, placed: set<nat>)
      requires |ps| == LAST + 1 && i <= LAST
      reads this`items, it0, it0.mtree, it0.mtree.tree, it0.mtree.tree.nodes, it1, it1.mtree, it1.mtree.tree,
          it1.mtree.tree.nodes
      reads iti, Nodes(), io`content
    {
      Whole() && Ready() && Comps() == cs && Places() == ps[i := Places()[i]] && placed - {i} <= Placed()
    }

    lemma Parts()
      requires Whole()
      ensures Set() && MemOk() && DiskOk() && |items| == LAST + 1 && it0.Valid() && it1.Valid()
    {
    }

    /** The memory trees among the components. */
    lemma MemView()
      requires |iti| == MAX_DISK_TREES
      ensures Comps()[0] == it0.Contents() && Comps()[1] == it1.Contents() && Places()[0] == it0.at && Places()[1] == it1.at
      ensures forall k :: 2 <= k <= LAST ==> Places()[k] == iti[k - 2].At()
    {
    }

    lemma OnlyMoved(i: nat, cs: seq<seq<Pair>>, ps: seq<nat>, placed: set<nat>)
      requires |ps| == LAST + 1 && i <= LAST && Set() && MemOk() && DiskOk() && Ready() && |items| == LAST + 1
      requires Comps() == cs && Placed() == placed && forall k :: 0 <= k <= LAST && k != i ==> Places()[k] == ps[k]
      ensures MovedOnly(i, cs, ps, placed)
    {
      hide MemOk, DiskOk, Ready, Placed, Comps, Places;
    }

    /** What every operation on one component keeps, and whose fault an error is. */
    twostate predicate Moved(i: nat, rc: int)
      requires |iti| == MAX_DISK_TREES && i <= LAST
      reads this, it0, it0.mtree, it0.mtree.tree, it0.mtree.tree.nodes, it1, it1.mtree, it1.mtree.tree,
          it1.mtree.tree.nodes
      reads iti, Nodes(), io
    {
      && unchanged(this) && MovedOnly(i, old(Comps()), old(Places()), old(Placed()))
      && fresh(Nodes() - old(Nodes())) && (rc == 0 || rc == -EIO) && Earned(rc, old(io.failures), io.failures)
    }

    constructor (ord: Order, io: Io, from: nat, to: nat, it0: MTree.MtreeIter, it1: MTree.MtreeIter,
        iti: seq<Cursor.CtreeIter>)
      ensures this.ord == ord && this.io == io && this.from == from && this.to == to
      ensures this.it0 == it0 && this.it1 == it1 && this.iti == iti && |items| == LAST + 1 && item == None && bufSize == 0
    {
      this.ord, this.io, this.from, this.to := ord, io, from, to;
      this.it0, this.it1, this.iti := it0, it1, iti;
      items, item, bufSize := [None, None, None, None, None], None, 0;
    }

    /** `lsm_iter_setup`, with the range that the caller sets. */
    static method Setup(ord: Order, io: Io, from: nat, to: nat, c0: MTree.MTree, c1: MTree.MTree,
        ci: seq<Cursor.Ctree>) returns (it: LsmIter)
      requires from <= to <= LAST && io.Valid() && |ci| == MAX_DISK_TREES
      requires c0.Valid() && c1.Valid() && c0.ord == ord == c1.ord
      requires forall j :: 0 <= j < |ci| ==> ci[j].Valid() && ci[j].io == io && ci[j].ord == ord
      ensures fresh(it) && it.Whole() && it.Ready() && it.ord == ord && it.io == io && it.from == from && it.to == to
      ensures it.it0.mtree == c0 && it.it1.mtree == c1 && fresh(it.Cells()) && it.Nodes() == {} && it.item == None && it.bufSize == 0
      ensures it.Comps() == [c0.Contents(), c1.Contents(), ci[0].Contents(), ci[1].Contents(), ci[2].Contents()]
      ensures forall j :: 0 <= j < |ci| ==> it.iti[j].height == ci[j].height && it.iti[j].tree == ci[j].tree && it.iti[j].disk == io.content
    {
      hide MTree.MTree.Valid, MTree.MTree.Contents, MTree.MtreeIter.Valid, Cursor.CtreeIter.Sound;
      hide Cursor.CtreeIter.Ready, Cursor.CtreeIter.Contents, Cursor.Ctree.Contents, Cursor.Ctree.Valid;
      var it0 := new MTree.MtreeIter(c0);
      var it1 := new MTree.MtreeIter(c1);
      var iti := SetupDisks(ci, io, ord);
      it := new LsmIter(ord, io, from, to, it0, it1, iti);
    }

    static method SetupDisks(ci: seq<Cursor.Ctree>, io: Io, ord: Order) returns (iti: seq<Cursor.CtreeIter>)
      requires |ci| == MAX_DISK_TREES && forall j :: 0 <= j < |ci| ==> ci[j].Valid() && ci[j].io == io && ci[j].ord == ord
      ensures |iti| == |ci| && forall j :: 0 <= j < |iti| ==> fresh(iti[j]) && iti[j].Sound() && iti[j].Ready()
      ensures forall j :: 0 <= j < |iti| ==> iti[j].io == io && iti[j].ord == ord
      ensures forall j :: 0 <= j < |iti| ==> iti[j].Contents() == ci[j].Contents() && iti[j].Nodes() == {}
      ensures forall j, k :: 0 <= j < k < |iti| ==> iti[j] != iti[k]
      ensures forall j :: 0 <= j < |iti| ==> iti[j].height == ci[j].height && iti[j].tree == ci[j].tree && iti[j].disk == io.content
    {
      hide Cursor.CtreeIter.Sound, Cursor.CtreeIter.Ready, Cursor.CtreeIter.Contents, Cursor.Ctree.Contents;
      hide Cursor.Ctree.Valid;
      var d0 := SetupDisk(ci[0]);
      var d1 := SetupDisk(ci[1]);
      assert d0.Nodes() == {};
      var d2 := SetupDisk(ci[2]);
      assert d0.Nodes() == {} && d1.Nodes() == {};
      iti := [d0, d1, d2];
    }

    /** `lsm_next` in one component; the source spells out the first two. */
    method AdvanceAt(i: nat, key: Bytes) returns (rc: int, x: Option<Pair>)
      requires Whole() && Ready() && i in Placed() && i <= LAST && items[i] == ItemAt(Comps()[i], Places()[i])
      requires Places()[i] <= |Comps()[i]| && forall k :: 0 <= k < Places()[i] ==> ord(Comps()[i][k].key) <= ord(key)
      modifies Cells(), io`failures
      ensures Moved(i, rc)
      ensures rc == 0 ==> i in Placed() && x == ItemAt(Comps()[i], Places()[i]) && Past(ord, Comps()[i], Places()[i], ord(key))
    {
      hide MTree.MtreeIter.Valid, MTree.MtreeIter.Contents, Cursor.CtreeIter.Sound, Cursor.CtreeIter.Placed;
      hide Cursor.CtreeIter.Ready;
      hide Cursor.CtreeIter.At, Cursor.CtreeIter.Contents, Past, ItemAt;
      if i < 2 {
        x := AdvanceMemAt(i, key);
        rc := 0;
      } else {
        rc, x := AdvanceDiskAt(i, key);
      }
    }

    method AdvanceMemAt(i: nat, key: Bytes) returns (x: Option<Pair>)
      requires Whole() && Ready() && i < 2 && items[i] == ItemAt(Comps()[i], Places()[i])
      requires Places()[i] <= |Comps()[i]| && forall k :: 0 <= k < Places()[i] ==> ord(Comps()[i][k].key) <= ord(key)
      modifies it0, it1
      ensures Moved(i, 0) && Nodes() == old(Nodes())
      ensures x == ItemAt(Comps()[i], Places()[i]) && Past(ord, Comps()[i], Places()[i], ord(key))
    {
      hide MTree.MtreeIter.Valid, MTree.MtreeIter.Contents, DiskOk, Ready, PlacedAt, Cursor.CtreeIter.Placed;
      hide Cursor.CtreeIter.At, Cursor.CtreeIter.Contents, Past, ItemAt;
      ghost var nodes, placed := Nodes(), Placed();
      x := AdvanceMem(if i == 0 then it0 else it1, ord, items[i], key);
      assert Nodes() == nodes && Placed() == placed;
    }

    method AdvanceDiskAt(i: nat, key: Bytes) returns (rc: int, x: Option<Pair>)
      requires Whole() && Ready() && i in Placed() && 2 <= i <= LAST && items[i] == ItemAt(Comps()[i], Places()[i])
      requires Places()[i] <= |Comps()[i]| && forall k :: 0 <= k < Places()[i] ==> ord(Comps()[i][k].key) <= ord(key)
      modifies iti[i - 2], io`failures
      ensures Moved(i, rc)
      ensures rc == 0 ==> i in Placed() && x == ItemAt(Comps()[i], Places()[i]) && Past(ord, Comps()[i], Places()[i], ord(key))
    {
      hide MTree.MtreeIter.Valid, MTree.MtreeIter.Contents, Cursor.CtreeIter.Sound, Cursor.CtreeIter.Placed;
      hide Cursor.CtreeIter.Ready;
      hide Cursor.CtreeIter.At, Cursor.CtreeIter.Contents, Past, ItemAt, MemOk;
      ghost var n0, n1, n2 := iti[0].Nodes(), iti[1].Nodes(), iti[2].Nodes();
      rc, x := AdvanceDisk(iti[i - 2], items[i], key);
      assert i != 2 ==> iti[0].Nodes() == n0;
      assert i != 3 ==> iti[1].Nodes() == n1;
      assert i != 4 ==> iti[2].Nodes() == n2;
    }

    /** `lsm_prev` in one component. */
    method RetreatAt(i: nat, key: Option<Bytes>) returns (rc: int, x: Option<Pair>, moved: bool)
      requires Whole() && Ready() && i <= LAST && i in Placed() && items[i] == ItemAt(Comps()[i], Places()[i])
      modifies Cells(), io`failures
      ensures Moved(i, rc)
      ensures rc == 0 ==> i in Placed() && x == ItemAt(Comps()[i], Places()[i])
      ensures rc == 0 ==> Back(ord, Comps()[i], old(Places()[i]), Places()[i], KeyRank(ord, key))
      ensures rc == 0 ==> (moved <==> Lb(ord, Comps()[i], KeyRank(ord, key)) > 0)
    {
      hide MTree.MtreeIter.Valid, MTree.MtreeIter.Contents, Cursor.CtreeIter.Sound, Cursor.CtreeIter.Placed;
      hide Cursor.CtreeIter.Ready;
      hide Cursor.CtreeIter.At, Cursor.CtreeIter.Contents, Past, Prior, ItemAt, Lb;
      if i < 2 {
        x, moved := RetreatMemAt(i, key);
        rc := 0;
      } else {
        rc, x, moved := RetreatDiskAt(i, key);
      }
    }

    method RetreatMemAt(i: nat, key: Option<Bytes>) returns (x: Option<Pair>, moved: bool)
      requires Whole() && Ready() && i < 2 && items[i] == ItemAt(Comps()[i], Places()[i])
      modifies it0, it1
      ensures Moved(i, 0) && Nodes() == old(Nodes()) && x == ItemAt(Comps()[i], Places()[i]) &&
          Back(ord, Comps()[i], old(Places()[i]), Places()[i], KeyRank(ord, key)) && (moved <==>
          Lb(ord, Comps()[i], KeyRank(ord, key)) > 0)
    {
      hide MTree.MtreeIter.Valid, MTree.MtreeIter.Contents, DiskOk, Ready, PlacedAt, Cursor.CtreeIter.Placed;
      hide Cursor.CtreeIter.At, Cursor.CtreeIter.Contents, Past, Prior, ItemAt, Lb;
      ghost var nodes, placed := Nodes(), Placed();
      var it := if i == 0 then it0 else it1;
      x, moved := RetreatMem(it, ord, items[i], key);
      assert Nodes() == nodes && Placed() == placed;
    }

    method RetreatDiskAt(i: nat, key: Option<Bytes>) returns (rc: int, x: Option<Pair>, moved: bool)
      requires Whole() && Ready() && 2 <= i <= LAST && i in Placed() && items[i] == ItemAt(Comps()[i], Places()[i])
      modifies iti[i - 2], io`failures
      ensures Moved(i, rc)
      ensures rc == 0 ==> i in Placed() && x == ItemAt(Comps()[i], Places()[i])
      ensures rc == 0 ==> Back(ord, Comps()[i], old(Places()[i]), Places()[i], KeyRank(ord, key))
      ensures rc == 0 ==> (moved <==> Lb(ord, Comps()[i], KeyRank(ord, key)) > 0)
    {
      hide MTree.MtreeIter.Valid, MTree.MtreeIter.Contents, Cursor.CtreeIter.Sound, Cursor.CtreeIter.Placed;
      hide Cursor.CtreeIter.Ready;
      hide Cursor.CtreeIter.At, Cursor.CtreeIter.Contents, Past, Prior, ItemAt, Lb, MemOk;
      ghost var n0, n1, n2 := iti[0].Nodes(), iti[1].Nodes(), iti[2].Nodes();
      rc, x, moved := RetreatDisk(iti[i - 2], items[i], key);
      assert i != 2 ==> iti[0].Nodes() == n0;
      assert i != 3 ==> iti[1].Nodes() == n1;
      assert i != 4 ==> iti[2].Nodes() == n2;
    }

    /** `mtree_begin` or `ctree_begin`. */
    method BeginAt(i: nat) returns (rc: int)
      requires Whole() && Ready() && i <= LAST
      modifies Cells(), io`failures
      ensures Moved(i, rc)
      ensures rc == 0 ==> i in Placed() && Places()[i] == 0
    {
      hide MTree.MtreeIter.Valid, MTree.MtreeIter.Contents, Cursor.CtreeIter.Sound, Cursor.CtreeIter.Placed;
      hide Cursor.CtreeIter.Ready;
      hide Cursor.CtreeIter.At, Cursor.CtreeIter.Contents, Past, Prior, ItemAt, Lb;
      if i < 2 {
        BeginMemAt(i);
        rc := 0;
      } else {
        rc := BeginDiskAt(i);
      }
    }

    method BeginMemAt(i: nat)
      requires Whole() && Ready() && i < 2
      modifies it0, it1
      ensures Moved(i, 0) && Nodes() == old(Nodes()) && Places()[i] == 0
    {
      hide MTree.MtreeIter.Valid, MTree.MtreeIter.Contents, Whole, DiskOk, Ready, Placed, PlacedAt, Comps, Places, MovedOnly;
      Parts();
      MemView();
      ghost var cs, ps := Comps(), Places();
      hide Cursor.CtreeIter.At, Cursor.CtreeIter.Contents, Past, Prior, ItemAt, Lb;
      ghost var nodes, placed := Nodes(), Placed();
      BeginMem(if i == 0 then it0 else it1);
      assert Nodes() == nodes && Placed() == placed && Comps() == cs;
      MemView();
      OnlyMoved(i, cs, ps, placed);
    }

    method BeginDiskAt(i: nat) returns (rc: int)
      requires Whole() && Ready() && 2 <= i <= LAST
      modifies iti[i - 2], io`failures
      ensures Moved(i, rc)
      ensures rc == 0 ==> i in Placed() && Places()[i] == 0
    {
      hide MTree.MtreeIter.Valid, MTree.MtreeIter.Contents, Cursor.CtreeIter.Sound, Cursor.CtreeIter.Placed;
      hide Cursor.CtreeIter.Ready;
      hide Cursor.CtreeIter.At, Cursor.CtreeIter.Contents, Past, Prior, ItemAt, Lb, MemOk;
      ghost var n0, n1, n2 := iti[0].Nodes(), iti[1].Nodes(), iti[2].Nodes();
      rc := iti[i - 2].Begin();
      assert i != 2 ==> iti[0].Nodes() == n0;
      assert i != 3 ==> iti[1].Nodes() == n1;
      assert i != 4 ==> iti[2].Nodes() == n2;
    }

    /** `mtree_end` or `ctree_end`. */
    method EndAt(i: nat) returns (rc: int)
      requires Whole() && Ready() && i <= LAST
      modifies Cells(), io`failures
      ensures Moved(i, rc)
      ensures rc == 0 ==> i in Placed() && Places()[i] == |Comps()[i]|
    {
      hide MTree.MtreeIter.Valid, MTree.MtreeIter.Contents, Cursor.CtreeIter.Sound, Cursor.CtreeIter.Placed;
      hide Cursor.CtreeIter.Ready;
      hide Cursor.CtreeIter.At, Cursor.CtreeIter.Contents, Past, Prior, ItemAt, Lb;
      if i < 2 {
        EndMemAt(i);
        rc := 0;
      } else {
        rc := EndDiskAt(i);
      }
    }

    method EndMemAt(i: nat)
      requires Whole() && Ready() && i < 2
      modifies it0, it1
      ensures Moved(i, 0) && Nodes() == old(Nodes()) && Places()[i] == |Comps()[i]|
    {
      hide MTree.MtreeIter.Valid, MTree.MtreeIter.Contents, Whole, DiskOk, Ready, Placed, PlacedAt, Comps, Places, MovedOnly;
      Parts();
      MemView();
      ghost var cs, ps := Comps(), Places();
      hide Cursor.CtreeIter.At, Cursor.CtreeIter.Contents, Past, Prior, ItemAt, Lb;
      ghost var nodes, placed := Nodes(), Placed();
      EndMem(if i == 0 then it0 else it1);
      assert Nodes() == nodes && Placed() == placed && Comps() == cs;
      MemView();
      OnlyMoved(i, cs, ps, placed);
    }

    method EndDiskAt(i: nat) returns (rc: int)
      requires Whole() && Ready() && 2 <= i <= LAST
      modifies iti[i - 2], io`failures
      ensures Moved(i, rc)
      ensures rc == 0 ==> i in Placed() && Places()[i] == |Comps()[i]|
    {
      hide MTree.MtreeIter.Valid, MTree.MtreeIter.Contents, Cursor.CtreeIter.Sound, Cursor.CtreeIter.Placed;
      hide Cursor.CtreeIter.Ready;
      hide Cursor.CtreeIter.At, Cursor.CtreeIter.Contents, Past, Prior, ItemAt, Lb, MemOk;
      ghost var n0, n1, n2 := iti[0].Nodes(), iti[1].Nodes(), iti[2].Nodes();
      rc := iti[i - 2].MoveToEnd();
      assert i != 2 ==> iti[0].Nodes() == n0;
      assert i != 3 ==> iti[1].Nodes() == n1;
      assert i != 4 ==> iti[2].Nodes() == n2;
    }

    /** `mtree_lower_bound` or `ctree_lower_bound`. */
    method SearchAt(i: nat, key: Bytes) returns (rc: int)
      requires Whole() && Ready() && i <= LAST
      modifies Cells(), io`failures
      ensures Moved(i, rc)
      ensures rc == 0 ==> i in Placed() && Places()[i] == Lb(ord, Comps()[i], ord(key))
    {
      hide MTree.MtreeIter.Valid, MTree.MtreeIter.Contents, Cursor.CtreeIter.Sound, Cursor.CtreeIter.Placed;
      hide Cursor.CtreeIter.Ready;
      hide Cursor.CtreeIter.At, Cursor.CtreeIter.Contents, Past, Prior, ItemAt, Lb;
      if i < 2 {
        SearchMemAt(i, key);
        rc := 0;
      } else {
        rc := SearchDiskAt(i, key);
      }
    }

    method SearchMemAt(i: nat, key: Bytes)
      requires Whole() && Ready() && i < 2
      modifies it0, it1
      ensures Moved(i, 0) && Nodes() == old(Nodes()) && Places()[i] == Lb(ord, Comps()[i], ord(key))
    {
      hide MTree.MtreeIter.Valid, MTree.MtreeIter.Contents, Whole, DiskOk, Ready, Placed, PlacedAt, Comps, Places, MovedOnly;
      Parts();
      MemView();
      ghost var cs, ps := Comps(), Places();
      hide Cursor.CtreeIter.At, Cursor.CtreeIter.Contents, Past, Prior, ItemAt, Lb;
      ghost var nodes, placed := Nodes(), Placed();
      SearchMem(if i == 0 then it0 else it1, ord, key);
      assert Nodes() == nodes && Placed() == placed && Comps() == cs;
      MemView();
      OnlyMoved(i, cs, ps, placed);
    }

    method SearchDiskAt(i: nat, key: Bytes) returns (rc: int)
      requires Whole() && Ready() && 2 <= i <= LAST
      modifies iti[i - 2], io`failures
      ensures Moved(i, rc)
      ensures rc == 0 ==> i in Placed() && Places()[i] == Lb(ord, Comps()[i], ord(key))
    {
      hide MTree.MtreeIter.Valid, MTree.MtreeIter.Contents, Cursor.CtreeIter.Sound, Cursor.CtreeIter.Placed;
      hide Cursor.CtreeIter.Ready;
      hide Cursor.CtreeIter.At, Cursor.CtreeIter.Contents, Past, Prior, ItemAt, Lb, MemOk;
      ghost var n0, n1, n2 := iti[0].Nodes(), iti[1].Nodes(), iti[2].Nodes();
      rc := iti[i - 2].LowerBound(key);
      assert i != 2 ==> iti[0].Nodes() == n0;
      assert i != 3 ==> iti[1].Nodes() == n1;
      assert i != 4 ==> iti[2].Nodes() == n2;
    }

    /** The choice of `lsm_set_the_smallest`. */
    method PickSmallest() returns (best: Option<Pair>, ghost b: nat)
      requires from <= to <= LAST && |items| == LAST + 1
      ensures SmallestOf(ord, Cut(items, from, to), to + 1 - from, best, b)
    {
      best, b := None, 0;
      var i := from;
      while i <= to
        invariant from <= i <= to + 1 && SmallestOf(ord, Cut(items, from, to), i - from, best, b)
      {
        if items[i].Some? {
          if best.None? || Cmp(ord, best.value.key, items[i].value.key) > 0 {
            best, b := items[i], i - from;
          }
        }
        i := i + 1;
      }
    }

    /** The choice of `lsm_set_prev`. */
    method PickPrev(last: Option<Pair>) returns (best: Option<Pair>, ghost b: nat)
      requires from <= to <= LAST && |items| == LAST + 1
      ensures LargestOf(ord, Cut(items, from, to), to + 1 - from, RankOf(ord, last), best, b)
    {
      hide LargestOf;
      best, b := None, 0;
      var i := from;
      LargestNone(ord, Cut(items, from, to), RankOf(ord, last));
      while i <= to
        invariant from <= i <= to + 1 && LargestOf(ord, Cut(items, from, to), i - from, RankOf(ord, last), best, b)
      {
        LargestNext(ord, Cut(items, from, to), i - from, RankOf(ord, last), best, b);
        if items[i].Some? && !(last.Some? && Cmp(ord, last.value.key, items[i].value.key) <= 0) {
          if best.None? || Cmp(ord, best.value.key, items[i].value.key) < 0 {
            best, b := items[i], i - from;
          }
        }
        i := i + 1;
      }
    }

    /** The copy that `lsm_set_the_smallest` and `lsm_set_prev` make: an item without a byte is lost
        exactly if the buffer was never needed. */
    method SetItem(best: Option<Pair>)
      modifies this`item, this`bufSize
      ensures item == if best.Some? && (|best.value.key| + |best.value.val| > 0 || old(bufSize) > 0) then best else None
      ensures item == Copied(best, old(bufSize)) && Backed() && bufSize >= old(bufSize)
    {
      item := None;
      if best.Some? {
        var size := |best.value.key| + |best.value.val|;
        if size > bufSize { bufSize := size; }
        if bufSize > 0 { item := best; }
      }
    }

    ghost function Cs(): seq<seq<Pair>>
      requires |iti| == MAX_DISK_TREES && from <= to <= LAST
      reads it0.mtree, it0.mtree.tree, it1.mtree, it1.mtree.tree
    {
      Cut(Comps(), from, to)
    }

    ghost function Ps(): seq<nat>
      requires |iti| == MAX_DISK_TREES && from <= to <= LAST
      reads it0, it1, iti
    {
      Cut(Places(), from, to)
    }

    /** What the cursor runs over: the sorted union of the components of its range. */
    ghost function Union(): seq<Pair>
      requires |iti| == MAX_DISK_TREES && from <= to <= LAST
      reads it0.mtree, it0.mtree.tree, it1.mtree, it1.mtree.tree
    {
      Merge(ord, Cs())
    }

    /** The place of the cursor in the union. */
    ghost function At(): nat
      requires |iti| == MAX_DISK_TREES && from <= to <= LAST
      reads this`item, it0.mtree, it0.mtree.tree, it1.mtree, it1.mtree.tree
    {
      Lb(ord, Union(), RankOf(ord, item))
    }

    /** The copy shown is in the buffer. */
    ghost predicate Backed()
      reads this`item, this`bufSize
    {
      item.Some? ==> bufSize > 0 && |item.value.key| + |item.value.val| <= bufSize
    }

    /** The cursors of the range have places, and the items are those under them. */
    ghost predicate Loaded()
      reads this`items, it0, it0.mtree, it0.mtree.tree, it0.mtree.tree.nodes, it1, it1.mtree, it1.mtree.tree,
          it1.mtree.tree.nodes
      reads iti, Nodes(), io`content
    {
      && Whole() && Ready() && Under(Cs(), Ps(), Cut(items, from, to))
      && forall i :: from <= i <= to ==> i in Placed()
    }

    /** The invariant of a cursor that is in use. */
    ghost predicate Standing()
      reads this`items, this`item, this`bufSize, it0, it0.mtree, it0.mtree.tree, it0.mtree.tree.nodes, it1, it1.mtree,
          it1.mtree.tree, it1.mtree.tree.nodes
      reads iti, Nodes(), io`content
    {
      && Loaded() && Backed()
      && Steady(ord, Cs(), Ps(), RankOf(ord, item)) && Current(ord, Cs(), RankOf(ord, item), item)
    }

    lemma CompsSorted()
      requires Whole()
      ensures AllSorted(ord, Cs())
    {
      hide MTree.MtreeIter.Valid, MTree.MtreeIter.Contents;
      MemSorted(it0);
      MemSorted(it1);
      forall j | 0 <= j < |iti|
        ensures Sorted(ord, iti[j].Contents())
      {
        assert iti[j].Sound();
      }
    }

    /** Whether every component of the range has a place and its item is the one under its cursor,
        with places `ps` from component `n` on. */
    ghost predicate Going(cs: seq<seq<Pair>>, ps: seq<nat>, n: nat)
      requires |ps| == |cs| == LAST + 1
      reads this`items, it0, it0.mtree, it0.mtree.tree, it0.mtree.tree.nodes, it1, it1.mtree, it1.mtree.tree,
          it1.mtree.tree.nodes
      reads iti, Nodes(), io`content
    {
      && Whole() && Ready() && Comps() == cs
      && (forall k :: from <= k <= to ==> k in Placed() && items[k] == ItemAt(cs[k], Places()[k]))
      && (forall k :: n <= k <= LAST ==> Places()[k] == ps[k])
    }

    lemma GoingStart()
      requires Loaded()
      ensures Going(Comps(), Places(), from)
    {
      hide Whole, Ready, Placed, Comps, Places;
      LoadedItems();
    }

    lemma LoadedItems()
      requires Loaded()
      ensures Whole() && Ready() && forall k :: from <= k <= to ==> items[k] == ItemAt(Comps()[k], Places()[k]) && k in Placed()
    {
      hide MemOk, DiskOk, Ready, Placed, Comps, Places, ItemAt;
      forall k | from <= k <= to
        ensures items[k] == ItemAt(Comps()[k], Places()[k])
      {
        assert Cut(items, from, to)[k - from] == ItemAt(Cs()[k - from], Ps()[k - from]);
      }
    }

    lemma GoingEnd(cs: seq<seq<Pair>>, ps: seq<nat>, n: nat)
      requires |ps| == |cs| == LAST + 1 && Going(cs, ps, n)
      ensures Loaded()
    {
      hide MemOk, DiskOk, Ready, Placed, Comps, Places, ItemAt;
    }

    /** The components before `n` have been moved past the key. */
    ghost predicate Passed(cs: seq<seq<Pair>>, ps: seq<nat>, n: nat, r: real)
      requires |ps| == |cs| == LAST + 1
      reads this`items, it0, it0.mtree, it0.mtree.tree, it0.mtree.tree.nodes, it1, it1.mtree, it1.mtree.tree,
          it1.mtree.tree.nodes
      reads iti, Nodes(), io`content
    {
      && Going(cs, ps, n) && (forall k :: from <= k <= to && k < n ==> Past(ord, cs[k], Places()[k], r))
      && (forall k :: from <= k <= to ==> StandsAt(ord, cs[k], ps[k], r))
    }

    method AdvanceOne(i: nat, key: Bytes, ghost cs: seq<seq<Pair>>, ghost ps: seq<nat>) returns (rc: int)
      requires |ps| == |cs| == LAST + 1 && Passed(cs, ps, i, ord(key)) && from <= i <= to
      modifies this`items, Cells(), io`failures
      ensures Whole() && Ready() && Comps() == cs && fresh(Nodes() - old(Nodes())) && (rc == 0 || rc == -EIO)
      ensures Earned(rc, old(io.failures), io.failures)
      ensures unchanged(`item, `bufSize)
      ensures rc == 0 ==> Passed(cs, ps, i + 1, ord(key))
    {
      hide Nodes, Cells, Whole, MovedOnly, Ready, Placed, Comps, Places, Past, StandsAt, ItemAt;
      Basics();
      StandsBefore(ord, cs[i], ps[i], ord(key));
      var x;
      ghost var ps', placed := Places(), Placed();
      rc, x := AdvanceAt(i, key);
      MovedFacts(i, cs, ps', placed);
      if rc < 0 { return; }
      Note(i, x);
    }

    lemma Basics()
      requires Whole()
      ensures Set() && |items| == LAST + 1
    {
    }

    lemma MovedFacts(i: nat, cs: seq<seq<Pair>>, ps: seq<nat>, placed: set<nat>)
      requires |ps| == LAST + 1 && i <= LAST && MovedOnly(i, cs, ps, placed)
      ensures Whole() && Ready() && Comps() == cs && Places() == ps[i := Places()[i]] && placed - {i} <= Placed()
    {
    }

    /** Keeps the item under the cursor of a component. */
    method Note(i: nat, x: Option<Pair>)
      requires Whole() && Ready() && i <= LAST
      modifies this`items
      ensures Whole() && Ready() && Comps() == old(Comps()) && Places() == old(Places()) &&
          Placed() == old(Placed()) && Nodes() == old(Nodes())
      ensures items == old(items)[i := x]
    {
      hide MemOk, DiskOk, Ready, PlacedAt, Comps, Places;
      ghost var nodes, placed := Nodes(), Placed();
      items := items[i := x];
      assert Nodes() == nodes && Placed() == placed;
    }

    lemma PassedStart(r: real)
      requires Loaded() && Steady(ord, Cs(), Ps(), r)
      ensures Passed(Comps(), Places(), from, r)
    {
      hide MemOk, DiskOk, Ready, Placed, Comps, Places, Past, StandsAt, ItemAt;
      GoingStart();
      StandsAll(ord, Comps(), Places(), from, to, r);
    }

    lemma PassedEnd(cs: seq<seq<Pair>>, ps: seq<nat>, r: real)
      requires |ps| == |cs| == LAST + 1 && Passed(cs, ps, to + 1, r)
      ensures Loaded() && Whole() && Ready() && Comps() == cs && AllPast(ord, Cs(), Ps(), r)
    {
      hide MemOk, DiskOk, Ready, Placed, Comps, Places, Past, StandsAt, ItemAt;
      GoingEnd(cs, ps, to + 1);
    }

    /** The loops of `lsm_next`. */
    method AdvanceAll(key: Bytes) returns (rc: int)
      requires Set() && Loaded() && Steady(ord, Cs(), Ps(), ord(key))
      modifies this`items, Cells(), io`failures
      ensures Whole() && Ready() && Comps() == old(Comps()) && fresh(Nodes() - old(Nodes())) && (rc == 0 || rc == -EIO)
      ensures Earned(rc, old(io.failures), io.failures)
      ensures unchanged(`item, `bufSize)
      ensures rc == 0 ==> Loaded() && AllPast(ord, Cs(), Ps(), ord(key))
    {
      hide Cells, Whole, Ready, Comps, Places, Past, Steady, AllPast, Passed, Loaded, Cs, Ps, Placed;
      LoadedItems();
      Basics();
      ghost var cs, ps, nodes := Comps(), Places(), Nodes();
      PassedStart(ord(key));
      var i := from;
      rc := 0;
      while i <= to
        invariant io.failures == old(io.failures)
        invariant from <= i <= to + 1 && rc == 0 && Passed(cs, ps, i, ord(key)) && fresh(Nodes() - nodes)
        invariant unchanged(`item, `bufSize)
      {
        ghost var before := Nodes();
        rc := AdvanceOne(i, key, cs, ps);
        ghost var after := Nodes();
        MoreNew(nodes, before, after);
        assert fresh(after - nodes);
        if rc < 0 { return; }
        i := i + 1;
      }
      PassedEnd(cs, ps, ord(key));
    }

    /** `lsm_set_the_smallest`. */
    method SetTheSmallest() returns (ghost best: Option<Pair>, ghost b: nat)
      requires Loaded()
      modifies this`item, this`bufSize
      ensures Smallest(ord, Cs(), Ps(), best, b)
      ensures item == Copied(best, old(bufSize)) && Backed()
    {
      hide Smallest, SmallestOf, Under, Cells, MemOk, DiskOk, Ready, Placed, Comps, Places;
      var x;
      x, b := PickSmallest();
      best := x;
      SmallestUnder(ord, Cs(), Ps(), Cut(items, from, to), best, b);
      SetItem(x);
    }

    ghost predicate HasItem()
      requires |items| == LAST + 1 && to <= LAST
      reads this`items
    {
      exists i :: from <= i <= to && items[i].Some?
    }

    /** The last loop of `lsm_next`. */
    method AnyItem() returns (any: bool)
      requires from <= to <= LAST && |items| == LAST + 1
      ensures any <==> HasItem()
    {
      var i := from;
      while i <= to
        invariant from <= i <= to + 1 && forall k :: from <= k < i ==> items[k].None?
      {
        if items[i].Some? { return true; }
        i := i + 1;
      }
      any := false;
    }

    lemma NoItem(any: bool, best: Option<Pair>, b: nat)
      requires Loaded() && Smallest(ord, Cs(), Ps(), best, b) && (any <==> HasItem())
      ensures any <==> best.Some?
    {
      hide MemOk, DiskOk, Ready, Placed, Comps, Places;
      LoadedItems();
      if any {
        var i :| from <= i <= to && items[i].Some?;
        assert Ps()[i - from] < |Cs()[i - from]|;
      }
      if best.Some? {
        assert Cut(items, from, to)[b] == ItemAt(Cs()[b], Ps()[b]);
        assert items[from + b] == best;
      }
    }

    /** Whether the smallest item is there; if none is, nothing is shown. */
    method ShowNext() returns (any: bool, ghost best: Option<Pair>, ghost b: nat)
      requires Loaded() && bufSize > 0
      modifies this`item, this`bufSize
      ensures Smallest(ord, Cs(), Ps(), best, b) && item == best && (any <==> best.Some?) && Backed()
    {
      hide Smallest, Cells, Whole, Ready, Placed, Comps, Places, Under, Loaded;
      LoadedItems();
      Basics();
      ghost var nodes, placed := Nodes(), Placed();
      any := AnyItem();
      assert Nodes() == nodes && Placed() == placed;
      if any {
        best, b := SetTheSmallest();
        assert Nodes() == nodes && Placed() == placed;
        NoItem(any, best, b);
      } else {
        ghost var x;
        x, b := PickNothing();
        best := x;
        NoItem(any, best, b);
        item := None;
      }
    }

    lemma PickNothing() returns (best: Option<Pair>, b: nat)
      requires Loaded() && forall i :: from <= i <= to ==> items[i].None?
      ensures best == None && Smallest(ord, Cs(), Ps(), best, b)
    {
      hide MemOk, DiskOk, Ready, Placed, Comps, Places;
      best, b := None, 0;
      SmallestUnder(ord, Cs(), Ps(), Cut(items, from, to), best, b);
    }

    /** `lsm_next`: one place on; it says so when it comes to the end or is there. A cursor that shows no
        item stays as it is. */
    method Next() returns (rc: int)
      requires Whole() && Ready() && (item == None || Standing())
      modifies this, Cells(), io`failures
      ensures old(item) == None ==> rc == -ENOENT && unchanged(this, Cells())
      ensures Whole() && Ready() && Comps() == old(Comps()) && fresh(Nodes() - old(Nodes())) &&
          (rc == 0 || rc == -ENOENT || rc == -EIO)
      ensures Earned(rc, old(io.failures), io.failures)
      ensures rc != -EIO && old(Standing()) ==> Standing() && At() == Min(old(At()) + 1, |Union()|)
      ensures rc != -EIO && old(Standing()) ==> (rc == -ENOENT <==> old(At()) + 1 >= |Union()|)
    {
      hide Cells, Whole, Ready, Loaded, Comps, Steady, Current, AllPast, Smallest, Merge, Lb, Placed, Ps;
      if Standing() {
        StandingFacts();
        PlaceOf(ord, Cs(), item);
      }
      if item.None? { return -ENOENT; }
      ghost var cs, r := Cs(), ord(item.value.key);
      rc := AdvanceAll(item.value.key);
      if rc < 0 { return; }
      var any;
      ghost var best, b;
      any, best, b := ShowNext();
      NextCurrent(ord, Cs(), Ps(), r, best, b);
      PlaceOf(ord, Cs(), item);
      if !any { return -ENOENT; }
    }

    lemma StandingFacts()
      requires Standing()
      ensures Whole() && Ready() && Set() && |items| == LAST + 1 && AllSorted(ord, Cs()) && (item.Some? ==> bufSize > 0)
      ensures item.Some? ==> GetIn(ord, Cs(), ord(item.value.key)).Some?
    {
      hide MemOk, DiskOk, Ready, Placed, Comps, Places;
      CompsSorted();
    }

    /* ---------- Placing the cursor ---------- */

    /** The components before `n` are at the place of `r`, and those before `m` have their item noted. */
    ghost predicate Located(cs: seq<seq<Pair>>, n: nat, m: nat, r: real)
      requires |cs| == LAST + 1
      reads this`items, it0, it0.mtree, it0.mtree.tree, it0.mtree.tree.nodes, it1, it1.mtree, it1.mtree.tree,
          it1.mtree.tree.nodes
      reads iti, Nodes(), io`content
    {
      && Whole() && Ready() && Comps() == cs
      && (forall k :: from <= k <= to && k < n ==> k in Placed() && Places()[k] == Lb(ord, cs[k], r))
      && (forall k :: from <= k <= to && k < m ==> items[k] == ItemAt(cs[k], Places()[k]))
    }

    lemma LocatedEnd(cs: seq<seq<Pair>>, r: real)
      requires |cs| == LAST + 1 && Located(cs, to + 1, to + 1, r)
      ensures Whole() && Ready() && Loaded() && Comps() == cs && AllLb(ord, Cs(), Ps(), r)
    {
      hide MemOk, DiskOk, Ready, Placed, Comps, Places, ItemAt;
    }

    lemma LocatedFacts(cs: seq<seq<Pair>>, n: nat, m: nat, r: real)
      requires |cs| == LAST + 1 && Located(cs, n, m, r)
      ensures Whole() && Ready() && Comps() == cs
      ensures forall k :: from <= k <= to && k < n ==> k in Placed() && Places()[k] == Lb(ord, cs[k], r)
      ensures forall k :: from <= k <= to && k < m ==> items[k] == ItemAt(cs[k], Places()[k])
    {
    }

    /** One more component is at the place. */
    lemma LocatedMore(i: nat, m: nat, cs: seq<seq<Pair>>, ps: seq<nat>, placed: set<nat>, r: real)
      requires |cs| == |ps| == LAST + 1 && from <= i <= to <= LAST && m <= i && Whole() && Ready() && Comps() == cs
      requires Places() == ps[i := Places()[i]] && placed - {i} <= Placed() && i in Placed() && Places()[i] == Lb(ord, cs[i], r)
      requires forall k :: from <= k <= to && k < i ==> k in placed && ps[k] == Lb(ord, cs[k], r)
      requires forall k :: from <= k <= to && k < m ==> items[k] == ItemAt(cs[k], ps[k])
      ensures Located(cs, i + 1, m, r)
    {
      hide MemOk, DiskOk, Ready, Placed, Comps, Places, ItemAt, Lb;
    }

    lemma LocatedStart(r: real)
      requires Whole() && Ready()
      ensures Located(Comps(), from, from, r)
    {
    }

    /** `mtree_key` or `ctree_key`. */
    method ItemOf(i: nat) returns (x: Option<Pair>)
      requires Whole() && i <= LAST && i in Placed()
      ensures x == ItemAt(Comps()[i], Places()[i])
    {
      hide MTree.MtreeIter.Valid, MTree.MtreeIter.Contents, Cursor.CtreeIter.Sound, Cursor.CtreeIter.Placed;
      hide Cursor.CtreeIter.At, Cursor.CtreeIter.Contents;
      if i == 0 {
        x := it0.Item();
      } else if i == 1 {
        x := it1.Item();
      } else {
        x := iti[i - 2].Item();
      }
    }

    /** Keeps the item under the cursor of component `i`. */
    method NoteItem(i: nat, ghost cs: seq<seq<Pair>>, n: nat, ghost r: real)
      requires |cs| == LAST + 1 && Located(cs, n, i, r) && from <= i <= to && i < n
      modifies this`items
      ensures Located(cs, n, i + 1, r) && Nodes() == old(Nodes())
    {
      hide MemOk, DiskOk, Ready, Placed, Comps, Places, ItemAt, Lb;
      ghost var nodes, placed, ps, cs' := Nodes(), Placed(), Places(), Comps();
      var x := ItemOf(i);
      assert Nodes() == nodes && Placed() == placed && Places() == ps && Comps() == cs';
      Note(i, x);
    }

    /** `lsm_set_items`. */
    method SetItems(ghost cs: seq<seq<Pair>>, ghost r: real)
      requires |cs| == LAST + 1 && Located(cs, to + 1, from, r) && from <= to <= LAST
      modifies this`items
      ensures Located(cs, to + 1, to + 1, r) && Nodes() == old(Nodes())
    {
      hide Located, Cells;
      ghost var nodes := Nodes();
      var i := from;
      while i <= to
        invariant from <= i <= to + 1 && Located(cs, to + 1, i, r) && Nodes() == nodes
      {
        NoteItem(i, cs, to + 1, r);
        i := i + 1;
      }
    }

    lemma LbEnds(s: seq<Pair>)
      ensures Lb(ord, s, 0.0) == 0 && Lb(ord, s, TOP) == |s|
    {
      LbIs(ord, s, TOP, |s|);
    }

    method BeginOne(i: nat, ghost cs: seq<seq<Pair>>) returns (rc: int)
      requires |cs| == LAST + 1 && Located(cs, i, from, 0.0) && from <= i <= to
      modifies Cells(), io`failures
      ensures Whole() && Ready() && Comps() == cs && fresh(Nodes() - old(Nodes())) && (rc == 0 || rc == -EIO) &&
          unchanged(this)
      ensures Earned(rc, old(io.failures), io.failures)
      ensures rc == 0 ==> Located(cs, i + 1, from, 0.0)
    {
      hide Whole, Ready, Placed, Comps, Places, ItemAt, Lb, MovedOnly, Located;
      LocatedFacts(cs, i, from, 0.0);
      Basics();
      LbEnds(cs[i]);
      ghost var ps, placed := Places(), Placed();
      rc := BeginAt(i);
      MovedFacts(i, cs, ps, placed);
      if rc == 0 { LocatedMore(i, from, cs, ps, placed, 0.0); }
    }

    method EndOne(i: nat, ghost cs: seq<seq<Pair>>) returns (rc: int)
      requires |cs| == LAST + 1 && Located(cs, i, from, TOP) && from <= i <= to
      modifies Cells(), io`failures
      ensures Whole() && Ready() && Comps() == cs && fresh(Nodes() - old(Nodes())) && (rc == 0 || rc == -EIO) &&
          unchanged(this)
      ensures Earned(rc, old(io.failures), io.failures)
      ensures rc == 0 ==> Located(cs, i + 1, from, TOP)
    {
      hide Whole, Ready, Placed, Comps, Places, ItemAt, Lb, MovedOnly, Located;
      LocatedFacts(cs, i, from, TOP);
      Basics();
      LbEnds(cs[i]);
      ghost var ps, placed := Places(), Placed();
      rc := EndAt(i);
      MovedFacts(i, cs, ps, placed);
      if rc == 0 { LocatedMore(i, from, cs, ps, placed, TOP); }
    }

    method SearchOne(i: nat, key: Bytes, ghost cs: seq<seq<Pair>>) returns (rc: int)
      requires |cs| == LAST + 1 && Located(cs, i, i, ord(key)) && from <= i <= to
      modifies this`items, Cells(), io`failures
      ensures Whole() && Ready() && Comps() == cs && fresh(Nodes() - old(Nodes())) && (rc == 0 || rc == -EIO)
      ensures Earned(rc, old(io.failures), io.failures)
      ensures unchanged(`item, `bufSize)
      ensures rc == 0 ==> Located(cs, i + 1, i + 1, ord(key))
    {
      hide Whole, Ready, Placed, Comps, Places, ItemAt, Lb, MovedOnly;
      LocatedFacts(cs, i, i, ord(key));
      Basics();
      ghost var ps, placed := Places(), Placed();
      rc := SearchAt(i, key);
      MovedFacts(i, cs, ps, placed);
      if rc < 0 { return; }
      NoteItem(i, cs, i + 1, ord(key));
      LocatedFacts(cs, i + 1, i + 1, ord(key));
    }

    /** Shows the smallest item after the components have been placed. */
    method ShowFirst(ghost cs: seq<seq<Pair>>, ghost r: real)
      requires |cs| == LAST + 1 && Located(cs, to + 1, to + 1, r) && Set() && r <= TOP
      modifies this`item, this`bufSize
      ensures Whole() && Ready() && Comps() == cs && Loaded() && AllLb(ord, Cs(), Ps(), r) && Nodes() == old(Nodes())
      ensures item == Copied(ItemAt(Union(), Lb(ord, Union(), r)), old(bufSize))
      ensures item.Some? || Lb(ord, Union(), r) == |Union()| ==> Standing() && At() == Lb(ord, Union(), r)
    {
      hide Whole, Ready, Loaded, Comps, Steady, Current, AllLb, Smallest, Merge, Lb, Placed, Places, Located;
      LocatedEnd(cs, r);
      ghost var nodes := Nodes();
      ghost var best, b := SetTheSmallest();
      assert Nodes() == nodes;
      CompsSorted();
      FirstCurrent(ord, Cs(), Ps(), r, best, b);
      PlaceOf(ord, Cs(), best);
    }

    /** The loops of `lsm_begin`. */
    method BeginAll() returns (rc: int)
      requires Set() && Whole() && Ready()
      modifies Cells(), io`failures
      ensures Whole() && Ready() && Comps() == old(Comps()) && fresh(Nodes() - old(Nodes())) && (rc == 0 || rc == -EIO)
      ensures Earned(rc, old(io.failures), io.failures)
      ensures unchanged(this) && (rc == 0 ==> Located(Comps(), to + 1, from, 0.0))
    {
      hide Cells, Whole, Ready, Comps, Located;
      ghost var cs, nodes := Comps(), Nodes();
      LocatedStart(0.0);
      var i := from;
      rc := 0;
      while i <= to
        invariant io.failures == old(io.failures)
        invariant from <= i <= to + 1 && rc == 0 && Located(cs, i, from, 0.0) && fresh(Nodes() - nodes) &&
            unchanged(this)
      {
        ghost var before := Nodes();
        rc := BeginOne(i, cs);
        ghost var after := Nodes();
        MoreNew(nodes, before, after);
        assert fresh(after - nodes);
        if rc < 0 { return; }
        i := i + 1;
      }
      LocatedFacts(cs, i, from, 0.0);
    }

    /** `lsm_begin`: the first pair of the union, unless its copy is lost. */
    method Begin() returns (rc: int)
      requires Set() && Whole() && Ready()
      modifies this, Cells(), io`failures
      ensures Whole() && Ready() && Comps() == old(Comps()) && fresh(Nodes() - old(Nodes())) && (rc == 0 || rc == -EIO)
      ensures Earned(rc, old(io.failures), io.failures)
      ensures rc == 0 ==> Loaded() && AllLb(ord, Cs(), Ps(), 0.0) && item == Copied(ItemAt(Union(), 0), old(bufSize))
      ensures rc == 0 && (item.Some? || Union() == []) ==> Standing() && At() == 0
    {
      hide Cells, Whole, Ready, Comps, Located, Standing, Loaded, AllLb, Merge;
      ghost var cs := Comps();
      rc := BeginAll();
      if rc < 0 { return; }
      SetItems(cs, 0.0);
      LocatedFacts(cs, to + 1, to + 1, 0.0);
      ShowFirst(cs, 0.0);
      LbEnds(Union());
    }

    /** The loops of `lsm_end`. */
    method EndAll() returns (rc: int)
      requires Set() && Whole() && Ready()
      modifies Cells(), io`failures
      ensures Whole() && Ready() && Comps() == old(Comps()) && fresh(Nodes() - old(Nodes())) && (rc == 0 || rc == -EIO)
      ensures Earned(rc, old(io.failures), io.failures)
      ensures unchanged(this) && (rc == 0 ==> Located(Comps(), to + 1, from, TOP))
    {
      hide Cells, Whole, Ready, Comps, Located;
      ghost var cs, nodes := Comps(), Nodes();
      LocatedStart(TOP);
      var i := from;
      rc := 0;
      while i <= to
        invariant io.failures == old(io.failures)
        invariant from <= i <= to + 1 && rc == 0 && Located(cs, i, from, TOP) && fresh(Nodes() - nodes) &&
            unchanged(this)
      {
        ghost var before := Nodes();
        rc := EndOne(i, cs);
        ghost var after := Nodes();
        MoreNew(nodes, before, after);
        assert fresh(after - nodes);
        if rc < 0 { return; }
        i := i + 1;
      }
      LocatedFacts(cs, i, from, TOP);
    }

    /** `lsm_end`. It leaves the item shown before in place: exactly a cursor that shows none is at the
        end of the union afterwards. */
    method End() returns (rc: int)
      requires Set() && Whole() && Ready()
      modifies this`items, Cells(), io`failures
      ensures Whole() && Ready() && Comps() == old(Comps()) && fresh(Nodes() - old(Nodes())) && (rc == 0 || rc == -EIO)
      ensures Earned(rc, old(io.failures), io.failures)
      ensures unchanged(`item, `bufSize)
      ensures rc == 0 ==> Loaded() && AllLb(ord, Cs(), Ps(), TOP) && NotBefore()
      ensures rc == 0 ==> (item == None <==> Standing()) && (item == None ==> At() == |Union()|)
      ensures old(Standing()) ==> (item == None <==> At() == |Union()|)
    {
      hide Standing, NotBefore, AllLb, Cells, Whole, Ready, Comps, Located, Loaded, Lb, Merge;
      ghost var cs := Comps();
      if Standing() { StandingPlace(); }
      rc := EndAll();
      if rc < 0 { return; }
      SetItems(cs, TOP);
      LocatedEnd(cs, TOP);
      EndStanding();
    }

    lemma StandingPlace()
      requires Standing()
      ensures Set() && (item == None <==> At() == |Union()|)
    {
      hide Loaded, Steady, Current, Comps, Lb, Merge;
      StandingFacts();
      StandingCurrent();
      PlaceOf(ord, Cs(), item);
    }

    lemma EndStanding()
      requires Set() && Loaded() && AllLb(ord, Cs(), Ps(), TOP)
      ensures NotBefore() && (item == None <==> Standing()) && (item == None ==> At() == |Union()|)
    {
      if item.Some? && Standing() { ShownBeforeEnd(); }
      hide MemOk, DiskOk, Ready, Placed, Comps, Places, Lb, Merge, Has;
      LbEnds(Union());
      forall i | 0 <= i < |Cs()|
        ensures Lb(ord, Cs()[i], RankOf(ord, item)) <= Ps()[i] + 1
      {
        LbEnds(Cs()[i]);
      }
    }

    /** A cursor that shows an item is not at the end of every component. */
    lemma ShownBeforeEnd()
      requires Standing() && item.Some?
      ensures !AllLb(ord, Cs(), Ps(), TOP)
    {
      hide MemOk, DiskOk, Ready, Placed, Comps, Places, Lb;
      var r := RankOf(ord, item);
      InOne(ord, Cs(), r);
      var i :| 0 <= i < |Cs()| && Has(ord, Cs()[i], r);
      LbEnds(Cs()[i]);
      assert StandsAt(ord, Cs()[i], Ps()[i], r);
    }

    /** The loops of `lsm_lower_bound`. */
    method SearchAll(key: Bytes) returns (rc: int)
      requires Set() && Whole() && Ready()
      modifies this`items, Cells(), io`failures
      ensures Whole() && Ready() && Comps() == old(Comps()) && fresh(Nodes() - old(Nodes())) && (rc == 0 || rc == -EIO)
      ensures Earned(rc, old(io.failures), io.failures)
      ensures unchanged(`item, `bufSize) && (rc == 0 ==> Located(Comps(), to + 1, to + 1, ord(key)))
    {
      hide Cells, Whole, Ready, Comps, Located;
      ghost var cs, nodes := Comps(), Nodes();
      LocatedStart(ord(key));
      var i := from;
      rc := 0;
      while i <= to
        invariant io.failures == old(io.failures)
        invariant from <= i <= to + 1 && rc == 0 && Located(cs, i, i, ord(key)) && fresh(Nodes() - nodes) &&
            unchanged(`item, `bufSize)
      {
        ghost var before := Nodes();
        rc := SearchOne(i, key, cs);
        ghost var after := Nodes();
        MoreNew(nodes, before, after);
        assert fresh(after - nodes);
        if rc < 0 { return; }
        i := i + 1;
      }
      LocatedFacts(cs, i, i, ord(key));
    }

    /** `lsm_lower_bound`: the first pair of the union whose key is not below `key`, unless its copy is
        lost. */
    method LowerBound(key: Bytes) returns (rc: int)
      requires Set() && Whole() && Ready()
      modifies this, Cells(), io`failures
      ensures Whole() && Ready() && Comps() == old(Comps()) && fresh(Nodes() - old(Nodes())) && (rc == 0 || rc == -EIO)
      ensures Earned(rc, old(io.failures), io.failures)
      ensures rc == 0 ==> Loaded() && AllLb(ord, Cs(), Ps(), ord(key))
      ensures rc == 0 ==> item == Copied(ItemAt(Union(), Lb(ord, Union(), ord(key))), old(bufSize))
      ensures rc == 0 && (item.Some? || Lb(ord, Union(), ord(key)) == |Union()|) ==>
                Standing() && At() == Lb(ord, Union(), ord(key))
    {
      hide Cells, Whole, Ready, Comps, Located, Standing, Loaded, AllLb, Lb, Merge;
      ghost var cs := Comps();
      rc := SearchAll(key);
      if rc < 0 { return; }
      ShowFirst(cs, ord(key));
    }

    /** `lsm_lookup`: 1 exactly if the union has the key and the copy of its pair is not lost; the cursor
        shows it then. */
    method Lookup(key: Bytes) returns (found: int)
      requires Set() && Whole() && Ready()
      modifies this, Cells(), io`failures
      ensures Whole() && Ready() && Comps() == old(Comps()) && fresh(Nodes() - old(Nodes())) &&
          (found == 0 || found == 1 || found == -EIO)
      ensures Earned(found, old(io.failures), io.failures)
      ensures found >= 0 ==> (found == 1 <==> Copied(GetIn(ord, Cs(), ord(key)), old(bufSize)).Some?)
      ensures found == 1 ==> item == GetIn(ord, Cs(), ord(key))
      ensures found >= 0 ==> Loaded() && AllLb(ord, Cs(), Ps(), ord(key))
      ensures found >= 0 ==> item == Copied(ItemAt(Union(), Lb(ord, Union(), ord(key))), old(bufSize))
      ensures found >= 0 && (item.Some? || Lb(ord, Union(), ord(key)) == |Union()|) ==>
                Standing() && At() == Lb(ord, Union(), ord(key))
    {
      hide Cells, Whole, Ready, Comps, Loaded, Standing, AllLb, Lb, Merge, GetIn;
      found := LowerBound(key);
      if found < 0 { return; }
      CompsSorted();
      MergeGet(ord, Cs(), ord(key));
      if item.None? { return 0; }
      if Cmp(ord, item.value.key, key) != 0 { return 0; }
      found := 1;
    }

    /** The invariant, but for the disk: it holds while others write to their own pages. */
    ghost predicate Waiting()
      reads this`items, this`item, this`bufSize, it0, it0.mtree, it0.mtree.tree, it0.mtree.tree.nodes, it1, it1.mtree,
          it1.mtree.tree, it1.mtree.tree.nodes
      reads iti, Nodes()
    {
      && Whole() && Under(Cs(), Ps(), Cut(items, from, to)) && (forall i :: from <= i <= to ==> i in Placed())
      && Backed() && Steady(ord, Cs(), Ps(), RankOf(ord, item)) && Current(ord, Cs(), RankOf(ord, item), item)
    }

    lemma WaitingWhole()
      requires Waiting()
      ensures Whole() && Set() && |items| == LAST + 1
    {
      hide MemOk, DiskOk, Under, Steady, Current, Placed, Comps, Places;
    }

    lemma WaitingReady()
      ensures Waiting() && Ready() <==> Standing()
    {
      hide Whole, Ready, Backed, Under, Steady, Current, Placed, Comps, Places;
    }

    /** What the cursor shows. */
    lemma Shown()
      requires Waiting()
      ensures At() <= |Union()| && (item.None? <==> At() == |Union()|) && (item.Some? ==> item.value == Union()[At()])
      ensures item.Some? ==> exists i :: from <= i <= to && item.value in Comps()[i]
    {
      hide MemOk, DiskOk, Placed, Comps, Places, Lb, Merge;
      CompsSorted();
      PlaceOf(ord, Cs(), item);
      if item.Some? {
        var r := ord(item.value.key);
        InOne(ord, Cs(), r);
        var i := PairOf(ord, Cs(), r);
        assert Cs()[i] == Comps()[from + i];
      }
    }

    /** The trees were on this disk when the cursor was set up, on pages among these. */
    ghost predicate Anchored(d: Disk, pages: set<nat>) {
      forall j :: 0 <= j < |iti| ==> iti[j].disk == d && (iti[j].height > 0 ==>
          BTree.PagesOf(iti[j].tree, iti[j].height - 1) <= pages)
    }

    /** The trees stay readable when others write elsewhere. */
    lemma StillReady(d: Disk, pages: set<nat>)
      requires Whole() && Anchored(d, pages) && io.Valid() && SameOn(d, io.content, pages)
      ensures Ready()
    {
      hide BTree.Stored, BTree.PagesOf, Cursor.Cached, MemOk;
      forall j | 0 <= j < |iti|
        ensures iti[j].io == io && iti[j].Ready()
      {
        var it := iti[j];
        assert it.Sound();
        if it.height > 0 {
          SameOnPart(d, io.content, BTree.PagesOf(it.tree, it.height - 1), pages);
          BTree.StoredSame(d, io.content, it.tree, it.height - 1);
        }
      }
    }

    /* ---------- Going back ---------- */

    /** No cursor stands more than one place before the current key. */
    ghost predicate NotBefore()
      requires Set()
      reads iti, this`item, it0, it0.mtree, it0.mtree.tree, it1, it1.mtree, it1.mtree.tree
    {
      forall i :: 0 <= i < |Cs()| ==> Lb(ord, Cs()[i], RankOf(ord, item)) <= Ps()[i] + 1
    }

    /** The components before `n` have been moved back before the key; `moved` says whether one of them
        has a pair there. */
    ghost predicate Receded(cs: seq<seq<Pair>>, ps: seq<nat>, n: nat, r: real, moved: bool)
      requires |ps| == |cs| == LAST + 1
      reads this`items, it0, it0.mtree, it0.mtree.tree, it0.mtree.tree.nodes, it1, it1.mtree, it1.mtree.tree,
          it1.mtree.tree.nodes
      reads iti, Nodes(), io`content
    {
      && Going(cs, ps, n) && (forall k :: from <= k <= to && k < n ==> Back(ord, cs[k], ps[k], Places()[k], r))
      && (moved <==> exists k :: from <= k <= to && k < n && Lb(ord, cs[k], r) > 0)
    }

    lemma RecededStart(r: real)
      requires Loaded()
      ensures Receded(Comps(), Places(), from, r, false)
    {
      hide MemOk, DiskOk, Ready, Placed, Comps, Places, Back, ItemAt, Lb;
      GoingStart();
    }

    lemma RecededEnd(cs: seq<seq<Pair>>, ps: seq<nat>, r: real, moved: bool)
      requires |ps| == |cs| == LAST + 1 && Receded(cs, ps, to + 1, r, moved)
      ensures Loaded() && Whole() && Ready() && Comps() == cs && AllBack(ord, Cs(), Cut(ps, from, to), Ps(), r)
      ensures moved <==> exists i :: 0 <= i < |Cs()| && Lb(ord, Cs()[i], r) > 0
    {
      hide MemOk, DiskOk, Ready, Placed, Comps, Places, Back, ItemAt, Lb;
      GoingEnd(cs, ps, to + 1);
      if moved {
        var k :| from <= k <= to && Lb(ord, cs[k], r) > 0;
        assert Lb(ord, Cs()[k - from], r) > 0;
      }
    }

    method RetreatOne(i: nat, key: Option<Bytes>, moved: bool, ghost cs: seq<seq<Pair>>,
        ghost ps: seq<nat>) returns (rc: int, moved': bool)
      requires |ps| == |cs| == LAST + 1 && Receded(cs, ps, i, KeyRank(ord, key), moved) && from <= i <= to
      modifies this`items, Cells(), io`failures
      ensures Whole() && Ready() && Comps() == cs && fresh(Nodes() - old(Nodes())) && (rc == 0 || rc == -EIO)
      ensures Earned(rc, old(io.failures), io.failures)
      ensures unchanged(`item, `bufSize)
      ensures rc == 0 ==> Receded(cs, ps, i + 1, KeyRank(ord, key), moved')
    {
      hide Nodes, Whole, MovedOnly, Ready, Placed, Comps, Places, Back, ItemAt, Lb, KeyRank;
      Basics();
      ghost var ps', placed := Places(), Placed();
      var x, here;
      rc, x, here := RetreatAt(i, key);
      moved' := moved || here;
      MovedFacts(i, cs, ps', placed);
      if rc < 0 { return; }
      Note(i, x);
    }

    /** The loops of `lsm_prev`. */
    method RetreatAll(key: Option<Bytes>) returns (rc: int, moved: bool)
      requires Set() && Loaded()
      modifies this`items, Cells(), io`failures
      ensures Whole() && Ready() && Comps() == old(Comps()) && fresh(Nodes() - old(Nodes())) && (rc == 0 || rc == -EIO)
      ensures Earned(rc, old(io.failures), io.failures)
      ensures unchanged(`item, `bufSize)
      ensures rc == 0 ==> Loaded() && AllBack(ord, Cs(), old(Ps()), Ps(), KeyRank(ord, key))
      ensures rc == 0 ==> (moved <==> exists i :: 0 <= i < |Cs()| && Lb(ord, Cs()[i], KeyRank(ord, key)) > 0)
    {
      hide Cells, Whole, Ready, Comps, Places, Receded, Loaded, Cs, Placed, AllBack, KeyRank, NotBefore;
      LoadedItems();
      ghost var cs, ps, nodes := Comps(), Places(), Nodes();
      RecededStart(KeyRank(ord, key));
      var i := from;
      rc, moved := 0, false;
      while i <= to
        invariant io.failures == old(io.failures)
        invariant from <= i <= to + 1 && rc == 0 && Receded(cs, ps, i, KeyRank(ord, key), moved) &&
            fresh(Nodes() - nodes)
        invariant unchanged(`item, `bufSize)
      {
        ghost var before := Nodes();
        rc, moved := RetreatOne(i, key, moved, cs, ps);
        ghost var after := Nodes();
        MoreNew(nodes, before, after);
        assert fresh(after - nodes);
        if rc < 0 { return; }
        i := i + 1;
      }
      RecededEnd(cs, ps, KeyRank(ord, key), moved);
    }

    /** `lsm_set_prev`. */
    method SetPrev(last: Option<Pair>) returns (ghost best: Option<Pair>, ghost b: nat)
      requires Loaded() && (exists ps0 :: AllBack(ord, Cs(), ps0, Ps(), RankOf(ord, last)))
      requires exists i :: 0 <= i < |Cs()| && Lb(ord, Cs()[i], RankOf(ord, last)) > 0
      modifies this`item, this`bufSize
      ensures Largest(ord, Cs(), Ps(), RankOf(ord, last), best, b) && Nodes() == old(Nodes())
      ensures item == Copied(best, old(bufSize)) && Backed()
    {
      hide Largest, LargestOf, Under, Cells, Whole, Ready, Placed, Comps, Places, AllBack, Lb;
      Basics();
      ghost var nodes, placed := Nodes(), Placed();
      var x;
      x, b := PickPrev(last);
      assert Nodes() == nodes && Placed() == placed;
      best := x;
      SomeBefore(last, best, b);
      LargestUnder(ord, Cs(), Ps(), Cut(items, from, to), RankOf(ord, last), best, b);
      SetItem(x);
      assert Nodes() == nodes;
    }

    /** There is an item before the key. */
    lemma SomeBefore(last: Option<Pair>, best: Option<Pair>, b: nat)
      requires Loaded() && (exists ps0 :: AllBack(ord, Cs(), ps0, Ps(), RankOf(ord, last)))
      requires exists i :: 0 <= i < |Cs()| && Lb(ord, Cs()[i], RankOf(ord, last)) > 0
      requires LargestOf(ord, Cut(items, from, to), to + 1 - from, RankOf(ord, last), best, b)
      ensures best.Some?
    {
      hide MemOk, DiskOk, Ready, Placed, Comps, Places;
      CompsSorted();
      var i :| 0 <= i < |Cs()| && Lb(ord, Cs()[i], RankOf(ord, last)) > 0;
      var ps0 :| AllBack(ord, Cs(), ps0, Ps(), RankOf(ord, last));
      assert Back(ord, Cs()[i], ps0[i], Ps()[i], RankOf(ord, last));
      assert Cut(items, from, to)[i] == ItemAt(Cs()[i], Ps()[i]);
    }

    /** `lsm_prev`: every component goes back before the key that is shown, and the largest item before
        it is shown, unless its copy is lost. That is one place back in the union for every cursor that
        is not further back already; on the first place it stays and says so. */
    method Prev() returns (rc: int)
      requires Set() && Loaded()
      modifies this, Cells(), io`failures
      ensures Whole() && Ready() && Comps() == old(Comps()) && fresh(Nodes() - old(Nodes())) &&
          (rc == 0 || rc == -ENOENT || rc == -EIO)
      ensures Earned(rc, old(io.failures), io.failures)
      ensures rc != -EIO ==> (rc == -ENOENT <==> old(At()) == 0)
      ensures rc != -EIO ==> Loaded() && AllBack(ord, Cs(), old(Ps()), Ps(), old(RankOf(ord, item)))
      ensures rc == 0 ==> exists best, b :: Largest(ord, Cs(), Ps(), old(RankOf(ord, item)), best, b) && item == Copied(best, old(bufSize))
      ensures rc == 0 && old(NotBefore()) ==> item == Copied(ItemAt(Union(), old(At()) - 1), old(bufSize))
      ensures rc == 0 && old(NotBefore() && Backed()) ==> NotBefore() && Backed()
      ensures rc == 0 && old(NotBefore()) && item.Some? ==> Standing() && At() == old(At()) - 1
      ensures rc == -ENOENT ==> item == old(item) && (old(Standing()) ==> Standing())
    {
      hide Nodes, Standing, Current, Cells, Whole, Ready, Loaded, Comps, Steady, Current, AllBack, AllPrior;
      hide Largest, Merge, Lb, Placed, Ps, GetIn, NotBefore;
      ghost var was, near, ps := Standing(), NotBefore(), Ps();
      if was { StandingCurrent(); }
      var moved;
      rc, moved := GoBack();
      if rc < 0 { return; }
      if !moved {
        StillSteady(ord, Cs(), ps, Ps(), RankOf(ord, item));
        StillStanding(was);
        return -ENOENT;
      }
      ShowPrev(ps, near);
    }

    /** The loops of `lsm_prev`, and what they mean. */
    method GoBack() returns (rc: int, moved: bool)
      requires Set() && Loaded()
      modifies this`items, Cells(), io`failures
      ensures Whole() && Ready() && Comps() == old(Comps()) && fresh(Nodes() - old(Nodes())) && (rc == 0 || rc == -EIO)
      ensures Earned(rc, old(io.failures), io.failures)
      ensures unchanged(`item, `bufSize)
      ensures rc == 0 ==> Loaded() && AllSorted(ord, Cs()) && AllBack(ord, Cs(), old(Ps()), Ps(), RankOf(ord, item))
      ensures rc == 0 ==> (moved <==> exists i :: 0 <= i < |Cs()| && Lb(ord, Cs()[i], RankOf(ord, item)) > 0)
      ensures rc == 0 ==> (moved <==> At() > 0)
      ensures rc == 0 && old(NotBefore()) ==> AllPrior(ord, Cs(), Ps(), RankOf(ord, item))
    {
      hide Nodes, Cells, Whole, Ready, Loaded, Comps, AllBack, AllPrior, Merge, Lb, Placed, Ps;
      LoadedItems();
      ghost var cs, ps, near := Cs(), Ps(), NotBefore();
      rc, moved := RetreatAll(if item.None? then None else Some(item.value.key));
      if rc < 0 { return; }
      CompsSorted();
      AnyBefore(RankOf(ord, item), moved);
      assert Cs() == cs;
      if near { NearPrior(ord, cs, ps, Ps(), RankOf(ord, item)); }
    }

    lemma AnyBefore(r: real, moved: bool)
      requires Set() && AllSorted(ord, Cs()) && (moved <==> exists i :: 0 <= i < |Cs()| && Lb(ord, Cs()[i], r) > 0)
      ensures moved <==> Lb(ord, Union(), r) > 0
    {
      hide Comps, Lb, Merge;
      if moved {
        SomethingBefore(ord, Cs(), r);
      } else {
        NothingBefore(ord, Cs(), r);
      }
    }

    lemma StandingCurrent()
      requires Standing()
      ensures Set() && Current(ord, Cs(), RankOf(ord, item), item) && Backed()
    {
      hide Loaded, Comps, Current;
      LoadedItems();
    }

    lemma StillStanding(was: bool)
      requires Loaded() && Steady(ord, Cs(), Ps(), RankOf(ord, item))
      requires was ==> Current(ord, Cs(), RankOf(ord, item), item) && Backed()
      ensures was ==> Standing()
    {
    }

    /** A cursor in use may go back. */
    lemma StandingBack()
      requires Standing()
      ensures Set() && Loaded() && NotBefore()
    {
      hide MemOk, DiskOk, Ready, Placed, Comps, Places, Lb, Has;
      forall i | 0 <= i < |Cs()|
        ensures Lb(ord, Cs()[i], RankOf(ord, item)) <= Ps()[i] + 1
      {
        assert StandsAt(ord, Cs()[i], Ps()[i], RankOf(ord, item));
      }
    }

    /** Shows the largest item before the key. */
    method ShowPrev(ghost ps0: seq<nat>, ghost near: bool)
      requires Set() && Loaded() && AllBack(ord, Cs(), ps0, Ps(), RankOf(ord, item)) && AllSorted(ord, Cs())
      requires near ==> AllPrior(ord, Cs(), Ps(), RankOf(ord, item))
      requires exists i :: 0 <= i < |Cs()| && Lb(ord, Cs()[i], RankOf(ord, item)) > 0
      modifies this`item, this`bufSize
      ensures Whole() && Ready() && Comps() == old(Comps()) && Nodes() == old(Nodes()) && Loaded() && Ps() == old(Ps())
      ensures exists best, b :: Largest(ord, Cs(), Ps(), old(RankOf(ord, item)), best, b) && item == Copied(best, old(bufSize))
      ensures Backed() && (near && old(Backed()) ==> NotBefore())
      ensures near ==> old(At()) > 0 && item == Copied(ItemAt(Union(), old(At()) - 1), old(bufSize))
      ensures near && item.Some? ==> Standing() && At() == old(At()) - 1
    {
      hide Cells, Whole, Ready, Loaded, Comps, Steady, Current, AllPrior, AllBack, Largest, Merge, Lb, Placed, Ps;
      hide GetIn, NotBefore;
      LoadedItems();
      ghost var r, nodes := RankOf(ord, item), Nodes();
      ghost var best, b := SetPrev(item);
      assert Nodes() == nodes;
      if near {
        PrevCurrent(ord, Cs(), Ps(), r, best, b);
        PlaceOf(ord, Cs(), best);
        if item == best || r == TOP { StillNear(r, best); }
      }
    }

    /** Before the key is where a cursor that shows the pair before it, or no pair, may go back from. */
    lemma StillNear(r: real, best: Option<Pair>)
      requires Set() && AllPrior(ord, Cs(), Ps(), r) && Steady(ord, Cs(), Ps(), RankOf(ord, best))
      requires item == best || (item == None && r == TOP)
      ensures NotBefore()
    {
      hide Comps, Ps, Lb, Has;
      forall i | 0 <= i < |Cs()|
        ensures Lb(ord, Cs()[i], RankOf(ord, item)) <= Ps()[i] + 1
      {
        assert Prior(ord, Cs()[i], Ps()[i], r) && StandsAt(ord, Cs()[i], Ps()[i], RankOf(ord, best));
      }
    }
  }

  lemma MoreNew(a: set<object>, b: set<object>, c: set<object>)
    ensures c - a <= (c - b) + (b - a)
  {
  }

  lemma SameOnPart(d: Disk, d': Disk, some: set<nat>, pages: set<nat>)
    requires SameOn(d, d', pages) && some <= pages
    ensures SameOn(d, d', some)
  {
  }

  /** Cursors that are at the start because nothing is before the key are where they should be. */
  lemma StillSteady(ord: Order, cs: seq<seq<Pair>>, ps0: seq<nat>, ps: seq<nat>, r: real)
    requires AllBack(ord, cs, ps0, ps, r) && forall i :: 0 <= i < |cs| ==> Lb(ord, cs[i], r) == 0
    ensures Steady(ord, cs, ps, r)
  {
    forall i | 0 <= i < |cs|
      ensures StandsAt(ord, cs[i], ps[i], r)
    {
      assert Back(ord, cs[i], ps0[i], ps[i], r);
    }
  }

  /** From places that are not further back, going back leads to the place just before the key. */
  lemma NearPrior(ord: Order, cs: seq<seq<Pair>>, ps0: seq<nat>, ps: seq<nat>, r: real)
    requires AllBack(ord, cs, ps0, ps, r) && forall i :: 0 <= i < |cs| ==> Lb(ord, cs[i], r) <= ps0[i] + 1
    ensures AllPrior(ord, cs, ps, r)
  {
    hide Lb;
    forall i | 0 <= i < |cs|
      ensures Prior(ord, cs[i], ps[i], r)
    {
      assert Back(ord, cs[i], ps0[i], ps[i], r);
    }
  }

  lemma StandsAll(ord: Order, cs: seq<seq<Pair>>, ps: seq<nat>, from: nat, to: nat, r: real)
    requires from <= to < |cs| == |ps| && Steady(ord, Cut(cs, from, to), Cut(ps, from, to), r)
    ensures forall k :: from <= k <= to ==> StandsAt(ord, cs[k], ps[k], r)
  {
    hide StandsAt;
    forall k | from <= k <= to
      ensures StandsAt(ord, cs[k], ps[k], r)
    {
      assert StandsAt(ord, Cut(cs, from, to)[k - from], Cut(ps, from, to)[k - from], r);
    }
  }

  lemma StandsBefore(ord: Order, s: seq<Pair>, k: nat, r: real)
    requires StandsAt(ord, s, k, r)
    ensures k <= |s| && forall i :: 0 <= i < k ==> ord(s[i].key) <= r
    ensures Lb(ord, s, r) <= k + 1
  {
  }
}
