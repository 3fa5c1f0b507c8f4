/** The store of `lib/lsm.c`: two memory trees over three disk trees, and merging one into the next. */
module Lsm {
  import opened Pairs
  import opened Io
  import opened Merged
  import opened Store
  import BTree
  import Builder
  import Codec
  import Cursor
  import LsmIter
  import MTree

  lemma EmitNext(drop: bool, deleted: Deleted, s: seq<Pair>, n: nat)
    requires n < |s|
    ensures Emit(drop, deleted, s[..n + 1]) == Emit(drop, deleted, s[..n]) + if drop && deleted(s[n]) then []
        else [s[n]]
  {
    assert s[..n + 1][..n] == s[..n];
  }

  lemma {:induction false} FilterHas(deleted: Deleted, s: seq<Pair>, k: nat)
    requires k < |s| && !deleted(s[k])
    ensures s[k] in Filter(deleted, s)
  {
    if k < |s| - 1 { FilterHas(deleted, s[..|s| - 1], k); }
  }

  /** A pair that is not dropped fits if all that are to be appended do. */
  lemma EmitFits(ps: nat, drop: bool, deleted: Deleted, m: seq<Pair>, k: nat)
    requires ps > 0 && Builder.AllFit(ps, Emit(drop, deleted, m)) && k < |m| && !(drop && deleted(m[k]))
    ensures Builder.Fits(ps, m[k])
  {
    hide Filter, Builder.Fits;
    if drop { FilterHas(deleted, m, k); }
  }

  lemma EmitAll(drop: bool, deleted: Deleted, s: seq<Pair>)
    ensures Emit(drop, deleted, s[..|s|]) == Emit(drop, deleted, s) && Emit(drop, deleted, s[..0]) == []
  {
    assert s[..|s|] == s;
  }

  /** A cursor and a builder on the same device, with different nodes. */
  ghost predicate Separate(iter: LsmIter.LsmIter, builder: Builder.CtreeBuilder)
    reads iter.iti, builder`node
  {
    && iter.io == builder.io
    && forall n :: n in builder.Nodes() ==> n !in iter.Nodes()
  }

  /** Appends a pair while a cursor is in use. */
  method Push(iter: LsmIter.LsmIter, builder: Builder.CtreeBuilder, p: Pair, ghost d: Disk) returns (rc: int)
    requires iter.Waiting() && iter.Ready() && builder.Building() && Separate(iter, builder) &&
        Builder.Fits(builder.io.pageSize, p)
    requires iter.Anchored(d, builder.base) && SameOn(d, iter.io.content, builder.base)
    modifies builder, builder.io, builder.alloc, builder.Nodes()
    ensures Blameless(rc, old(builder.Faults()), builder.Faults())
    ensures rc <= 0 && builder.Accounted() && builder.io.Valid() && SameOn(d, iter.io.content, builder.base)
    ensures fresh(builder.Nodes() - old(builder.Nodes())) && Separate(iter, builder)
    ensures iter.Waiting() && iter.Ready() && iter.Nodes() == old(iter.Nodes()) && iter.Whole()
    ensures rc == 0 ==> builder.Building() && builder.added == old(builder.added) + [p]
  {
    hide LsmIter.LsmIter.Ready, LsmIter.LsmIter.Waiting, LsmIter.LsmIter.Anchored, LsmIter.LsmIter.Whole;
    hide Builder.CtreeBuilder.Building, Builder.CtreeBuilder.Accounted, Builder.CtreeBuilder.Kept, Builder.Fits, SameOn;
    ghost var nodes, was, d', others := iter.Nodes(), builder.node, builder.io.content, builder.alloc.reserved;
    builder.BuildingFacts();
    builder.FitsAmple(p);
    rc := builder.Append(p);
    builder.OthersKept(was, d, d', others);
    assert iter.Nodes() == nodes;
    iter.WaitingWhole();
    iter.StillReady(d, builder.base);
  }

  /** The builder can take what a merge appends. */
  ghost predicate Takes(ord: Order, deleted: Deleted, cs: seq<seq<Pair>>, tree: nat, ps: nat)
    requires |cs| == COMPS && tree <= LsmIter.MAX_DISK_TREES && ps > 0
  {
    if tree == 0 then Builder.AllFit(ps, Emitted(ord, deleted, Frozen(cs), 1))
    else cs[tree + 1] == [] || Builder.AllFit(ps, Emitted(ord, deleted, cs, tree))
  }

  /** One round of `lsm_build_default`: append the pair under the cursor unless it is dropped, and go on. */
  method Round(iter: LsmIter.LsmIter, builder: Builder.CtreeBuilder, drop: bool, deleted: Deleted, ghost d: Disk,
      ghost m: seq<Pair>)
    returns (rc: int)
    requires iter.Set() && iter.Waiting() && iter.Ready() && builder.Building() && Separate(iter, builder) &&
        iter.item.Some?
    requires iter.Anchored(d, builder.base) && SameOn(d, iter.io.content, builder.base)
    requires builder.io.pageSize > 0 && Builder.AllFit(builder.io.pageSize, Emit(drop, deleted, m))
    requires iter.Union() == m && iter.At() < |m| && builder.added == Emit(drop, deleted, m[..iter.At()])
    modifies iter, iter.Cells(), builder, builder.io, builder.alloc, builder.Nodes()
    ensures Blameless(rc, old(builder.Faults()), builder.Faults())
    ensures rc <= 0 && builder.Accounted() && builder.io.Valid() && SameOn(d, iter.io.content, builder.base)
    ensures fresh(builder.Nodes() - old(builder.Nodes())) && fresh(iter.Nodes() - old(iter.Nodes()))
    ensures iter.Comps() == old(iter.Comps()) && Separate(iter, builder)
    ensures rc == 0 ==> iter.Waiting() && iter.Ready() && builder.Building()
    ensures rc == 0 ==> iter.At() == old(iter.At()) + 1 && builder.added == Emit(drop, deleted, m[..iter.At()])
  {
    hide LsmIter.LsmIter.Ready, LsmIter.LsmIter.Waiting, LsmIter.LsmIter.Anchored, LsmIter.LsmIter.Whole;
    hide LsmIter.LsmIter.Comps;
    hide Builder.CtreeBuilder.Building, Builder.CtreeBuilder.Accounted, SameOn, Emit, Builder.AllFit, Merge, Lb;
    rc := EmitOne(iter, builder, drop, deleted, d, m);
    if rc < 0 { return; }
    rc := GoOn(iter, builder);
  }

  method EmitOne(iter: LsmIter.LsmIter, builder: Builder.CtreeBuilder, drop: bool, deleted: Deleted, ghost d: Disk,
      ghost m: seq<Pair>)
    returns (rc: int)
    requires iter.Set() && iter.Waiting() && iter.Ready() && builder.Building() && Separate(iter, builder) &&
        iter.item.Some?
    requires iter.Anchored(d, builder.base) && SameOn(d, iter.io.content, builder.base)
    requires builder.io.pageSize > 0 && Builder.AllFit(builder.io.pageSize, Emit(drop, deleted, m))
    requires iter.Union() == m && iter.At() < |m| && builder.added == Emit(drop, deleted, m[..iter.At()])
    modifies builder, builder.io, builder.alloc, builder.Nodes()
    ensures Blameless(rc, old(builder.Faults()), builder.Faults())
    ensures rc <= 0 && builder.Accounted() && builder.io.Valid() && SameOn(d, iter.io.content, builder.base)
    ensures fresh(builder.Nodes() - old(builder.Nodes())) && Separate(iter, builder)
    ensures iter.Waiting() && iter.Ready() && iter.Nodes() == old(iter.Nodes()) && iter.Comps() == old(iter.Comps())
    ensures rc == 0 ==> builder.Building() && builder.added == Emit(drop, deleted, m[..iter.At() + 1])
  {
    hide LsmIter.LsmIter.Ready, LsmIter.LsmIter.Waiting, LsmIter.LsmIter.Anchored, LsmIter.LsmIter.Whole;
    hide LsmIter.LsmIter.Comps;
    hide Builder.CtreeBuilder.Building, Builder.CtreeBuilder.Accounted, Builder.Fits, SameOn, Emit, Builder.AllFit;
    hide Merge, Lb;
    ghost var nodes, cs := iter.Nodes(), iter.Comps();
    builder.BuildingFacts();
    iter.WaitingWhole();
    iter.Shown();
    EmitNext(drop, deleted, m, iter.At());
    rc := 0;
    if !drop || !deleted(iter.item.value) {
      EmitFits(builder.io.pageSize, drop, deleted, m, iter.At());
      rc := Push(iter, builder, iter.item.value, d);
    }
    assert iter.Nodes() == nodes && iter.Comps() == cs;
  }

  method GoOn(iter: LsmIter.LsmIter, builder: Builder.CtreeBuilder) returns (rc: int)
    requires iter.Set() && iter.Waiting() && iter.Ready() && builder.Building() && Separate(iter, builder) &&
        iter.At() < |iter.Union()|
    modifies iter, iter.Cells(), iter.io`failures
    ensures Earned(rc, old(iter.io.failures), iter.io.failures)
    ensures (rc == 0 || rc == -EIO) && builder.Building() && fresh(iter.Nodes() - old(iter.Nodes())) &&
        Separate(iter, builder)
    ensures iter.Comps() == old(iter.Comps())
    ensures rc == 0 ==> iter.Waiting() && iter.Ready() && iter.At() == old(iter.At()) + 1
  {
    hide LsmIter.LsmIter.Ready, LsmIter.LsmIter.Waiting, LsmIter.LsmIter.Standing, LsmIter.LsmIter.Whole;
    hide LsmIter.LsmIter.Comps, LsmIter.LsmIter.At, LsmIter.LsmIter.Anchored, LsmIter.LsmIter.Backed;
    hide Builder.CtreeBuilder.Building, Merge, Lb;
    ghost var mine := builder.Nodes();
    iter.WaitingReady();
    iter.WaitingWhole();
    rc := iter.Next();
    assert builder.Nodes() == mine;
    if rc == -ENOENT { rc := 0; }
    iter.WaitingReady();
  }

  /** `lsm_build_default`: exactly the pairs of the union in order, without the dropped ones; nothing if
      the cursor shows no item. */
  method BuildDefault(iter: LsmIter.LsmIter, builder: Builder.CtreeBuilder, drop: bool, deleted: Deleted, ghost d: Disk)
    returns (rc: int)
    requires iter.Set() && iter.Whole() && iter.Ready() && (iter.item.Some? ==> iter.Standing() && iter.At() == 0)
    requires builder.Building() && builder.added == [] && Separate(iter, builder)
    requires iter.Anchored(d, builder.base) && SameOn(d, iter.io.content, builder.base) && builder.io.pageSize > 0
    requires iter.item.Some? ==> Builder.AllFit(builder.io.pageSize, Emit(drop, deleted, iter.Union()))
    modifies iter, iter.Cells(), builder, builder.io, builder.alloc, builder.Nodes()
    ensures Blameless(rc, old(builder.Faults()), builder.Faults())
    ensures rc <= 0 && builder.Accounted() && builder.io.Valid() && SameOn(d, iter.io.content, builder.base)
    ensures fresh(builder.Nodes() - old(builder.Nodes()))
    ensures rc == 0 ==> builder.Building()
    ensures rc == 0 ==> builder.added == if old(iter.item).Some? then Emit(drop, deleted, old(iter.Union())) else []
  {
    hide LsmIter.LsmIter.Ready, LsmIter.LsmIter.Waiting, LsmIter.LsmIter.Standing, LsmIter.LsmIter.Anchored;
    hide LsmIter.LsmIter.Whole, LsmIter.LsmIter.Comps;
    hide Builder.CtreeBuilder.Building, Builder.CtreeBuilder.Accounted, SameOn, Emit, Builder.AllFit, Merge, Lb;
    ghost var m, cs, mine, nodes := iter.Union(), iter.Comps(), builder.Nodes(), iter.Nodes();
    builder.BuildingFacts();
    rc := 0;
    if iter.item.None? { return; }
    EmitAll(drop, deleted, m);
    iter.WaitingReady();
    iter.Shown();
    while iter.item.Some?
      invariant rc == 0 && iter.Waiting() && iter.Ready() && builder.Building() && Separate(iter, builder) &&
          iter.Comps() == cs
      invariant SameOn(d, iter.io.content, builder.base) && builder.io.Valid() && builder.Accounted()
      invariant fresh(builder.Nodes() - mine) && fresh(iter.Nodes() - nodes)
      invariant builder.Faults() == old(builder.Faults())
      invariant iter.At() <= |m| && (iter.item.None? <==> iter.At() == |m|) &&
          builder.added == Emit(drop, deleted, m[..iter.At()])
      decreases |m| - iter.At()
    {
      rc := Round(iter, builder, drop, deleted, d, m);
      if rc < 0 { return; }
      iter.Shown();
    }
  }

  /** `lsm_call_build`. */
  method CallBuild(iter: LsmIter.LsmIter, builder: Builder.CtreeBuilder, drop: bool, deleted: Deleted, ghost d: Disk)
    returns (rc: int, ghost tree: BTree.BTree)
    requires iter.Set() && iter.Whole() && iter.Ready() && iter.bufSize == 0 && builder.Building() &&
        builder.added == [] && Separate(iter, builder)
    requires iter.Anchored(d, builder.base) && SameOn(d, iter.io.content, builder.base) && builder.io.pageSize > 0
    requires Legible(iter.Union()) ==> Builder.AllFit(builder.io.pageSize, Emit(drop, deleted, iter.Union()))
    modifies iter, iter.Cells(), builder, builder.io, builder.alloc, builder.Nodes()
    ensures Blameless(rc, old(builder.Faults()), builder.Faults())
    ensures rc <= 0 && builder.Accounted() && builder.io.Valid() && SameOn(d, iter.io.content, builder.base)
    ensures fresh(builder.Nodes() - old(builder.Nodes()))
    ensures rc == 0 ==> builder.added == if Legible(old(iter.Union())) then Emit(drop, deleted, old(iter.Union())) else []
    ensures rc == 0 ==> (builder.height == 0 <==> Builder.OneLeaf(builder.io.pageSize, builder.added))
    ensures rc == 0 && builder.height == 0 ==> builder.Held() == {}
    ensures rc == 0 && builder.height > 0 ==>
              Builder.Finished(builder.io.content, tree, builder.height, builder.ptr, builder.added, builder.Held())
  {
    hide LsmIter.LsmIter.Ready, LsmIter.LsmIter.Standing, LsmIter.LsmIter.Anchored, LsmIter.LsmIter.Whole;
    hide LsmIter.LsmIter.Comps, LsmIter.LsmIter.Loaded, AllLb;
    hide Builder.CtreeBuilder.Building, Builder.CtreeBuilder.Accounted, Builder.CtreeBuilder.Held;
    hide Builder.CtreeBuilder.Kept, Builder.Finished, SameOn, Emit, Builder.AllFit, Merge, Builder.OneLeaf;
    ghost var mine, nodes, m := builder.Nodes(), iter.Nodes(), iter.Union();
    EmitNothing(drop, deleted);
    tree := BTree.BTree(builder.ptr, [], []);
    builder.BuildingFacts();
    rc := iter.Begin();
    assert builder.Nodes() == mine;
    if rc < 0 { return; }
    rc := BuildDefault(iter, builder, drop, deleted, d);
    if rc < 0 { return; }
    ghost var mine' := builder.Nodes();
    rc, tree := FinishBuild(builder, d);
    assert builder.Nodes() - mine <= (builder.Nodes() - mine') + (mine' - mine);
  }

  lemma EmitNothing(drop: bool, deleted: Deleted)
    ensures Emit(drop, deleted, []) == []
  {
  }

  method FinishBuild(builder: Builder.CtreeBuilder, ghost d: Disk) returns (rc: int, ghost tree: BTree.BTree)
    requires builder.Building() && SameOn(d, builder.io.content, builder.base)
    modifies builder, builder.io, builder.alloc, builder.Nodes()
    ensures Blameless(rc, old(builder.Faults()), builder.Faults())
    ensures rc <= 0 && builder.Accounted() && builder.io.Valid() && SameOn(d, builder.io.content, builder.base)
    ensures fresh(builder.Nodes() - old(builder.Nodes())) && builder.added == old(builder.added) &&
        builder.io.pageSize > 0
    ensures rc == 0 ==> (builder.height == 0 <==> Builder.OneLeaf(builder.io.pageSize, builder.added))
    ensures rc == 0 && builder.height == 0 ==> builder.Held() == {}
    ensures rc == 0 && builder.height > 0 ==>
              Builder.Finished(builder.io.content, tree, builder.height, builder.ptr, builder.added, builder.Held())
  {
    hide Builder.CtreeBuilder.Building, Builder.CtreeBuilder.Accounted, Builder.CtreeBuilder.Held;
    hide Builder.CtreeBuilder.Kept, Builder.Finished, SameOn, Builder.OneLeaf;
    builder.BuildingFacts();
    ghost var was, d', others := builder.node, builder.io.content, builder.alloc.reserved;
    rc, tree := builder.Finish();
    builder.OthersKept(was, d, d', others);
  }

  /* ---------- The store ---------- */

  ghost predicate TreeOn(c: Cursor.Ctree, d: Disk, pages: set<nat>)
    reads c
  {
    && (c.height > 0 ==> c.tree.ptr == c.ptr && BTree.Stored(d, c.tree, c.height - 1)) && Sorted(c.ord, c.Contents())
    && c.Pages() <= pages
  }

  lemma TreeValid(c: Cursor.Ctree, pages: set<nat>)
    requires c.io.Valid()
    ensures TreeOn(c, c.io.content, pages) <==> c.Valid() && c.Pages() <= pages
  {
    hide BTree.Stored, Sorted, Cursor.Ctree.Contents, Cursor.Ctree.Pages;
  }

  lemma TreeStays(c: Cursor.Ctree, d: Disk, d': Disk, pages: set<nat>, more: set<nat>)
    requires TreeOn(c, d, pages) && SameOn(d, d', pages) && pages <= more
    ensures TreeOn(c, d', more)
  {
    hide BTree.Stored, Sorted;
    if c.height > 0 {
      LsmIter.SameOnPart(d, d', c.Pages(), pages);
      BTree.StoredSame(d, d', c.tree, c.height - 1);
    }
  }

  /** Places `i` and `i + 1` exchanged. */
  function Exchanged(s: seq<nat>, i: nat): (r: seq<nat>)
    requires i + 1 < |s|
    ensures |r| == |s| && r[i] == s[i + 1] && r[i + 1] == s[i]
    ensures forall j :: 0 <= j < |s| && j != i && j != i + 1 ==> r[j] == s[j]
  {
    s[i := s[i + 1]][i + 1 := s[i]]
  }

  /** The counts after a merge: trees change places, or the target counts `held` and the source nothing. */
  function Recount(counts: seq<nat>, tree: nat, empty: bool, held: nat): (r: seq<nat>)
    requires |counts| == COMPS && tree <= LsmIter.MAX_DISK_TREES
    ensures |r| == COMPS
    ensures tree > 0 && empty ==> r[tree] == counts[tree + 1] && r[tree + 1] == counts[tree]
    ensures tree > 0 && !empty ==> r[tree] == 0 && r[tree + 1] == held
    ensures tree == 0 ==> r[0] == counts[1] && r[1] == 0 && r[2] == held
    ensures forall j :: 0 <= j < COMPS && j != tree && j != tree + 1 && (tree > 0 || j != 2) ==> r[j] == counts[j]
  {
    if tree == 0 then Exchanged(counts, 0)[1 := 0][2 := held]
    else if empty then Exchanged(counts, tree)
    else counts[tree := 0][tree + 1 := held]
  }

  class Lsm {
    const io: Io
    const alloc: Alloc
    const ord: Order
    const c0: MTree.MTree
    const c1: MTree.MTree
    const ci: seq<Cursor.Ctree>
    /** The calls so far, and the components before each of them and after the last. */
    ghost var log: seq<Op>
    ghost var past: seq<seq<seq<Pair>>>

    ghost predicate Apart() {
      && 0 < io.pageSize <= Builder.PAGE_LIMIT
      && c0 != c1 && c0.tree != c1.tree && c0.ord == ord == c1.ord && |ci| == LsmIter.MAX_DISK_TREES
      && (forall j :: 0 <= j < |ci| ==> ci[j].io == io && ci[j].ord == ord)
      && (forall j, k :: 0 <= j < k < |ci| ==> ci[j] != ci[k])
    }

    ghost predicate MemOk()
      reads c0, c0.tree, c0.tree.nodes, c1, c1.tree, c1.tree.nodes
    {
      c0.Valid() && c1.Valid() && c0.tree.nodes !! c1.tree.nodes
    }

    /** How often the device or the allocator has failed. */
    ghost function Faults(): Errors
      reads io`failures, alloc`refusals
    {
      Errors(io.failures, alloc.refusals)
    }

    /** The trees are on a disk, on pages among these. */
    ghost predicate OnDisk(d: Disk, pages: set<nat>)
      reads ci
    {
      forall j :: 0 <= j < |ci| ==> TreeOn(ci[j], d, pages)
    }

    ghost predicate DiskOk()
      reads ci, io`content, alloc
    {
      io.Valid() && OnDisk(io.content, alloc.reserved)
    }

    ghost predicate Valid()
      reads io`content, alloc, c0, c0.tree, c0.tree.nodes, c1, c1.tree, c1.tree.nodes, ci
    {
      Apart() && MemOk() && DiskOk()
    }

    /** The calls form a run from the empty store that ends with these components. */
    ghost predicate Recorded(deleted: Deleted)
      requires io.pageSize > 0 && |ci| == LsmIter.MAX_DISK_TREES
      reads this, c0, c0.tree, c1, c1.tree, ci
    {
      RunTo(ord, io.pageSize, deleted, past, log, Comps())
    }

    /** What the components say of their sizes: bytes of the memory trees, pages of the disk trees. */
    ghost function Counts(): (s: seq<nat>)
      requires |ci| == LsmIter.MAX_DISK_TREES
      reads c0, c1, ci
      ensures |s| == COMPS
    {
      [c0.bytes, c1.bytes, ci[0].pages, ci[1].pages, ci[2].pages]
    }

    /** The five components, newest first. */
    ghost function Comps(): (cs: seq<seq<Pair>>)
      requires |ci| == LsmIter.MAX_DISK_TREES
      reads c0, c0.tree, c1, c1.tree, ci
      ensures |cs| == COMPS
    {
      [c0.Contents(), c1.Contents(), ci[0].Contents(), ci[1].Contents(), ci[2].Contents()]
    }

    constructor (io: Io, alloc: Alloc, ord: Order, c0: MTree.MTree, c1: MTree.MTree, ci: seq<Cursor.Ctree>)
      ensures this.io == io && this.alloc == alloc && this.ord == ord && this.c0 == c0 && this.c1 == c1 && this.ci == ci
      ensures log == [] && past == [[[], [], [], [], []]]
    {
      this.io, this.alloc, this.ord, this.c0, this.c1, this.ci := io, alloc, ord, c0, c1, ci;
      log, past := [], [[[], [], [], [], []]];
    }

    /** `lsm_setup`. */
    static method Setup(io: Io, alloc: Alloc, ord: Order) returns (lsm: Lsm)
      requires io.Valid() && io.pageSize <= Builder.PAGE_LIMIT
      ensures fresh(lsm) && lsm.Valid() && lsm.Comps() == [[], [], [], [], []] && lsm.io == io &&
          lsm.alloc == alloc && lsm.ord == ord
      ensures lsm.log == [] && (forall deleted :: lsm.Recorded(deleted)) && lsm.Counts() == [0, 0, 0, 0, 0]
      ensures fresh(lsm.c0) && fresh(lsm.c0.tree) && fresh(lsm.c1) && fresh(lsm.c1.tree) && fresh(lsm.ci)
      ensures lsm.c0.tree.nodes == {} && lsm.c1.tree.nodes == {}
    {
      hide MTree.MTree.Valid, Cursor.Ctree.Valid, MTree.MTree.Contents, Cursor.Ctree.Contents;
      hide Cursor.Ctree.Pages, TreeOn;
      var c0 := new MTree.MTree(ord);
      var c1 := new MTree.MTree(ord);
      var ci := SetupDisks(io, ord);
      forall j | 0 <= j < |ci|
        ensures TreeOn(ci[j], io.content, alloc.reserved)
      {
        TreeValid(ci[j], alloc.reserved);
      }
      lsm := new Lsm(io, alloc, ord, c0, c1, ci);
    }

    static method SetupDisks(io: Io, ord: Order) returns (ci: seq<Cursor.Ctree>)
      requires io.Valid()
      ensures |ci| == LsmIter.MAX_DISK_TREES && forall j, k :: 0 <= j < k < |ci| ==> ci[j] != ci[k]
      ensures forall j :: 0 <= j < |ci| ==> fresh(ci[j]) && ci[j].io == io && ci[j].ord == ord && ci[j].Valid()
      ensures forall j :: 0 <= j < |ci| ==> ci[j].Contents() == [] && ci[j].Pages() == {} && ci[j].pages == 0
    {
      hide Cursor.Ctree.Valid, Cursor.Ctree.Contents, Cursor.Ctree.Pages;
      var x := new Cursor.Ctree(io, ord);
      var y := new Cursor.Ctree(io, ord);
      var z := new Cursor.Ctree(io, ord);
      ci := [x, y, z];
    }

    /** `lsm_add`. */
    method Add(key: Bytes, val: Bytes)
      requires Valid()
      modifies this, c0, c0.tree, c0.tree.nodes
      ensures Valid() && Comps() == old(Comps())[0 := Put(ord, old(Comps())[0], Pair(key, val))]
      ensures Counts() == old(Counts())[0 := old(c0.bytes) + |key| + |val|]
      ensures log == old(log) + [Op.Add(Pair(key, val))] && fresh(c0.tree.nodes - old(c0.tree.nodes))
      ensures forall deleted :: old(Recorded(deleted)) ==> Recorded(deleted)
    {
      hide MTree.MTree.Valid, MTree.MTree.Contents, Cursor.Ctree.Contents, DiskOk, Put, RunTo;
      ghost var cs, t := Comps(), c1.Contents();
      c0.Add(key, val);
      assert c1.Contents() == t && c1.Valid();
      assert Comps() == cs[0 := Put(ord, cs[0], Pair(key, val))];
      Record(Op.Add(Pair(key, val)), cs);
    }

    /** Puts a call on the record. */
    ghost method Record(op: Op, cs: seq<seq<Pair>>)
      requires io.pageSize > 0 && |ci| == LsmIter.MAX_DISK_TREES && |cs| == COMPS
      modifies `log, `past
      ensures log == old(log) + [op] && past == old(past) + [Comps()]
      ensures forall deleted | RunTo(ord, io.pageSize, deleted, old(past), old(log), cs) &&
          Step(ord, io.pageSize, deleted, cs, op, Comps()) && SafeStep(ord, io.pageSize, deleted, cs, op) :: Recorded(deleted)
    {
      hide Comps, RunTo, Step, SafeStep;
      ghost var was, ops, cs' := past, log, Comps();
      log, past := log + [op], past + [cs'];
      forall deleted | RunTo(ord, io.pageSize, deleted, was, ops, cs) &&
          Step(ord, io.pageSize, deleted, cs, op, cs') && SafeStep(ord, io.pageSize, deleted, cs, op)
        ensures RunTo(ord, io.pageSize, deleted, past, log, cs')
      {
        RunMore(ord, io.pageSize, deleted, was, ops, cs, op, cs');
      }
    }

    /** A store with one pair that the builder can take may be merged. */
    lemma OneAdded(p: Pair)
      requires Apart() && AllSorted(ord, Comps()) && Comps() == [[p], [], [], [], []] && Builder.Fits(io.pageSize, p)
      ensures CanMerge(Comps(), 0) && Takes(ord, NEVER, Comps(), 0, io.pageSize)
    {
      hide Builder.Fits, Takes, Sorted;
      FineTakes(ord, io.pageSize, NEVER, Comps(), 0);
    }

    lemma TreesValid()
      requires Apart() && DiskOk()
      ensures forall j :: 0 <= j < |ci| ==> ci[j].Valid() && ci[j].Pages() <= alloc.reserved
    {
      hide TreeOn, Cursor.Ctree.Valid, Cursor.Ctree.Pages;
      forall j | 0 <= j < |ci|
        ensures ci[j].Valid() && ci[j].Pages() <= alloc.reserved
      {
        TreeValid(ci[j], alloc.reserved);
      }
    }

    lemma TreesStay(d: Disk, pages: set<nat>)
      requires OnDisk(d, pages) && SameOn(d, io.content, pages) && pages <= alloc.reserved && io.Valid()
      ensures DiskOk()
    {
      hide TreeOn, SameOn;
      forall j | 0 <= j < |ci|
        ensures TreeOn(ci[j], io.content, alloc.reserved)
      {
        TreeStays(ci[j], d, io.content, pages, alloc.reserved);
      }
    }

    /** `lsm_drop_deleted`. */
    method DropDeleted(tree: nat) returns (drop: bool)
      requires Valid() && 1 <= tree <= LsmIter.MAX_DISK_TREES
      ensures drop <==> forall i :: tree + 2 <= i <= LsmIter.LAST ==> Comps()[i] == []
      ensures drop <==> Drops(Comps(), tree)
    {
      hide Valid, Comps;
      ValidFacts();
      ghost var cs := Comps();
      var i := tree + 2;
      while i < LsmIter.MAX_DISK_TREES + 2
        invariant tree + 2 <= i <= LsmIter.MAX_DISK_TREES + 2 && forall k :: tree + 2 <= k < i ==> cs[k] == []
        invariant Valid() && Comps() == cs
      {
        var empty := IsEmptyTree(i);
        if !empty { return false; }
        i := i + 1;
      }
      drop := true;
    }

    method IsEmptyTree(i: nat) returns (empty: bool)
      requires Valid() && 2 <= i <= LsmIter.LAST
      ensures empty <==> Comps()[i] == []
    {
      hide MemOk, TreeOn, MTree.MTree.Contents, Cursor.Ctree.Valid, Cursor.Ctree.Contents;
      TreesValid();
      empty := ci[i - 2].IsEmpty();
    }

    /** The cursor that a merge reads from. */
    method Reader(tree: nat) returns (iter: LsmIter.LsmIter)
      requires Valid() && tree + 1 <= LsmIter.LAST
      ensures fresh(iter) && fresh(iter.Cells()) && iter.Set() && iter.Whole() && iter.Ready() && iter.bufSize == 0 &&
          iter.Nodes() == {}
      ensures iter.io == io && iter.from == tree && iter.to == tree + 1 && iter.Comps() == Comps()
      ensures iter.Anchored(io.content, alloc.reserved)
      ensures iter.Union() == Merged.Merge(ord, Comps()[tree..tree + 2])
    {
      hide MTree.MTree.Valid, MTree.MTree.Contents, Cursor.Ctree.Contents, Cursor.Ctree.Valid, TreeOn;
      hide BTree.PagesOf, Merged.Merge, LsmIter.LsmIter.Ready;
      TreesValid();
      iter := LsmIter.LsmIter.Setup(ord, io, tree, tree + 1, c0, c1, ci);
      assert LsmIter.Cut(Comps(), tree, tree + 1) == Comps()[tree..tree + 2];
    }

    /** The first half of `__lsm_merge`: the union of two components, built on new pages. */
    method BuildMerged(tree: nat, deleted: Deleted) returns (rc: int, builder: Builder.CtreeBuilder,
        ghost t: BTree.BTree)
      requires Valid() && 1 <= tree <= LsmIter.MAX_DISK_TREES && Builder.AllFit(io.pageSize, Emitted(ord, deleted, Comps(), tree))
      modifies io, alloc
      ensures Blameless(rc, old(Faults()), Faults())
      ensures rc <= 0 && fresh(builder) && builder.io == io && builder.alloc == alloc &&
          builder.base == old(alloc.reserved)
      ensures builder.Accounted() && io.Valid() && SameOn(old(io.content), io.content, old(alloc.reserved))
      ensures rc == 0 ==> builder.added == Emitted(ord, deleted, old(Comps()), tree)
      ensures rc == 0 ==> (builder.height == 0 <==> Builder.OneLeaf(io.pageSize, builder.added))
      ensures rc == 0 && builder.height == 0 ==> builder.Held() == {}
      ensures rc == 0 && builder.height > 0 ==>
                Builder.Finished(io.content, t, builder.height, builder.ptr, builder.added, builder.Held())
    {
      hide MemOk, Comps, Builder.AllFit, TreeOn, LsmIter.LsmIter.Ready, LsmIter.LsmIter.Whole;
      hide LsmIter.LsmIter.Comps, LsmIter.LsmIter.Anchored, LsmIter.LsmIter.Nodes;
      hide Builder.CtreeBuilder.Building, Builder.CtreeBuilder.Accounted, Builder.CtreeBuilder.Held;
      hide Builder.Finished, Builder.OneLeaf, Merged.Merge, Emit, Legible, Drops;
      ghost var d, pages, cs := io.content, alloc.reserved, Comps();
      var drop := DropDeleted(tree);
      builder := new Builder.CtreeBuilder(io, alloc);
      ghost var none := builder.Nodes();
      var iter := Reader(tree);
      assert builder.Nodes() == none == {};
      rc, t := CallBuild(iter, builder, drop, deleted, d);
    }

    /** The second half of `__lsm_merge`: the new tree takes the place of what went into it. */
    method Install(tree: nat, ptr: Codec.Ptr, height: nat, pages: nat, ghost t: BTree.BTree, ghost s: seq<Pair>)
      requires Valid() && 1 <= tree <= LsmIter.MAX_DISK_TREES && Sorted(ord, s) && (height == 0 ==> s == [])
      requires height > 0 ==> t.ptr == ptr && BTree.Stored(io.content, t, height - 1) && BTree.Flat(t, height - 1) == s
      requires height > 0 ==> BTree.PagesOf(t, height - 1) <= alloc.reserved
      modifies c1, c1.tree, ci
      ensures c1.tree.nodes <= old(c1.tree.nodes)
      ensures Valid() && Comps() == old(Comps())[tree := []][tree + 1 := s]
      ensures ci[tree - 1].Pages() == if height == 0 then {} else BTree.PagesOf(t, height - 1)
      ensures Counts() == old(Counts())[tree := 0][tree + 1 := pages]
    {
      hide MTree.MTree.Valid, MTree.MTree.Contents, Cursor.Ctree.Contents, Cursor.Ctree.Pages;
      hide Cursor.Ctree.Valid, TreeOn, Sorted;
      hide BTree.Stored, BTree.Flat, BTree.PagesOf;
      ghost var cs := Comps();
      TreesValid();
      ci[tree - 1].Reset(Some(ptr), height, pages, t);
      ClearOld(tree, t);
      forall j | 0 <= j < |ci|
        ensures TreeOn(ci[j], io.content, alloc.reserved)
      {
        TreeValid(ci[j], alloc.reserved);
      }
    }

    /** The last loop of `__lsm_merge`: what went into the new tree is dropped. */
    method ClearOld(tree: nat, ghost t: BTree.BTree)
      requires Apart() && MemOk() && io.Valid() && 1 <= tree <= LsmIter.MAX_DISK_TREES
      requires forall j :: 0 <= j < |ci| ==> ci[j].Valid() && ci[j].Pages() <= alloc.reserved
      modifies c1, c1.tree, ci
      ensures MemOk() && c1.tree.nodes <= old(c1.tree.nodes) && unchanged(ci[tree - 1])
      ensures forall j :: 0 <= j < |ci| ==> ci[j].Valid() && ci[j].Pages() <= alloc.reserved
      ensures Comps() == old(Comps())[tree := []] && Counts() == old(Counts())[tree := 0]
    {
      hide MTree.MTree.Valid, MTree.MTree.Contents, Cursor.Ctree.Contents, Cursor.Ctree.Pages;
      hide Cursor.Ctree.Valid, BTree.Stored, BTree.Flat, BTree.PagesOf;
      ghost var cs, counts := Comps(), Counts();
      var i := tree;
      while i >= tree
        invariant tree - 1 <= i <= tree && MemOk() && c1.tree.nodes <= old(c1.tree.nodes) && unchanged(ci[tree - 1])
        invariant forall j :: 0 <= j < |ci| ==> ci[j].Valid() && ci[j].Pages() <= alloc.reserved
        invariant Comps() == (if i == tree then cs else cs[tree := []]) && Counts() == if i == tree then counts else counts[tree := 0]
      {
        if i == 1 {
          c1.Reset();
        } else {
          ci[i - 2].Reset(None, 0, 0, t);
        }
        i := i - 1;
      }
    }

    /** `__lsm_merge`. A failure frees every page that was reserved and changes nothing; a success
        holds exactly the pages of the new tree besides the old ones. */
    method MergeInto(tree: nat, deleted: Deleted) returns (rc: int)
      requires Valid() && 1 <= tree <= LsmIter.MAX_DISK_TREES && Builder.AllFit(io.pageSize, Emitted(ord, deleted, Comps(), tree))
      modifies io, alloc, c1, c1.tree, ci
      ensures c1.tree.nodes <= old(c1.tree.nodes)
      ensures Blameless(rc, old(Faults()), Faults())
      ensures Valid() && rc <= 0
      ensures rc < 0 ==> Comps() == old(Comps()) && alloc.reserved == old(alloc.reserved) && Counts() == old(Counts())
      ensures rc == 0 ==> Counts() == old(Counts())[tree := 0][tree + 1 := |ci[tree - 1].Pages()|]
      ensures rc == 0 ==> Comps() == Rebuilt(ord, io.pageSize, deleted, old(Comps()), tree)
      ensures rc == 0 ==> alloc.reserved == old(alloc.reserved) + ci[tree - 1].Pages()
    {
      hide MemOk, DiskOk, OnDisk, Comps, Builder.AllFit, Emitted, Sorted, AllSorted, SameOn;
      hide Builder.OneLeaf, Builder.Finished, Builder.CtreeBuilder.Held, Builder.CtreeBuilder.Accounted;
      hide Cursor.Ctree.Pages;
      ghost var d, pages, cs := io.content, alloc.reserved, Comps();
      ValidFacts();
      EmittedSorted(ord, deleted, cs, tree);
      var builder;
      ghost var t;
      rc, builder, t := BuildMerged(tree, deleted);
      assert Comps() == cs && MemOk() && OnDisk(d, pages);
      if rc < 0 {
        Undo(builder, d);
        return;
      }
      builder.Grown();
      TreesStay(d, pages);
      InstallBuilt(tree, builder, t, Emitted(ord, deleted, cs, tree));
    }

    lemma ValidFacts()
      requires Valid()
      ensures Apart() && AllSorted(ord, Comps()) && OnDisk(io.content, alloc.reserved) && io.Valid()
    {
      CompsSorted();
    }

    /** After a failure everything that was reserved is free again. */
    method Undo(builder: Builder.CtreeBuilder, ghost d: Disk)
      requires builder.Accounted() && builder.alloc == alloc && io.Valid() && OnDisk(d, builder.base) &&
          SameOn(d, io.content, builder.base)
      modifies alloc
      ensures alloc.refusals == old(alloc.refusals)
      ensures DiskOk() && alloc.reserved == builder.base
    {
      hide OnDisk, Builder.CtreeBuilder.Accounted, SameOn;
      builder.Cancel();
      TreesStay(d, builder.base);
    }

    /** What comes out of the builder takes its place. */
    method InstallBuilt(tree: nat, builder: Builder.CtreeBuilder, ghost t: BTree.BTree, ghost s: seq<Pair>)
      requires Valid() && 1 <= tree <= LsmIter.MAX_DISK_TREES && Sorted(ord, s) && builder.io == io && builder.alloc == alloc &&
          builder.Accounted() && builder.added == s
      requires builder.height == 0 <==> Builder.OneLeaf(io.pageSize, s)
      requires builder.height == 0 ==> builder.Held() == {}
      requires builder.height > 0 ==> Builder.Finished(io.content, t, builder.height, builder.ptr, s, builder.Held())
      modifies c1, c1.tree, ci
      ensures c1.tree.nodes <= old(c1.tree.nodes)
      ensures Valid() && Comps() == old(Comps())[tree := []][tree + 1 := Outcome(io.pageSize, s)]
      ensures alloc.reserved == builder.base + ci[tree - 1].Pages()
      ensures Counts() == old(Counts())[tree := 0][tree + 1 := |ci[tree - 1].Pages()|]
    {
      hide MTree.MTree.Valid, MTree.MTree.Contents, MemOk, DiskOk, Comps, Sorted;
      hide Builder.OneLeaf, Builder.CtreeBuilder.Held;
      hide BTree.Stored, BTree.Flat, BTree.PagesOf, BTree.Spine, Cursor.Ctree.Pages;
      SortedNothing(ord);
      Install(tree, builder.ptr, builder.height, builder.pages, t, Outcome(io.pageSize, s));
    }

    lemma CompsSorted()
      requires Valid()
      ensures AllSorted(ord, Comps())
    {
      hide MTree.MTree.Valid, MTree.MTree.Contents, Cursor.Ctree.Contents, Cursor.Ctree.Pages, Sorted;
      c0.ContentsSorted();
      c1.ContentsSorted();
      assert TreeOn(ci[0], io.content, alloc.reserved) && TreeOn(ci[1], io.content, alloc.reserved) &&
          TreeOn(ci[2], io.content, alloc.reserved);
    }

    /** The component that a merge fills. */
    function Target(tree: nat): nat {
      if tree == 0 then 2 else tree + 1
    }

    /** The pages of the disk tree that a merge fills. */
    ghost function Filled(tree: nat): set<nat>
      requires |ci| == LsmIter.MAX_DISK_TREES && tree <= LsmIter.MAX_DISK_TREES
      reads ci
    {
      ci[Target(tree) - 2].Pages()
    }

    /** `lsm_merge`, on the record. A failure only puts the memory tree aside. */
    method Merge(tree: nat, deleted: Deleted) returns (rc: int)
      requires Valid() && tree <= 3
      requires if tree == 0 then Comps()[1] == [] else tree == 1 ==> Comps()[2] != []
      requires Takes(ord, deleted, Comps(), tree, io.pageSize)
      modifies this, io, alloc, c0, c0.tree, c1, c1.tree, ci
      ensures Blameless(rc, old(Faults()), Faults())
      ensures Valid() && rc <= 0
      ensures rc < 0 ==> alloc.reserved == old(alloc.reserved)
      ensures rc < 0 ==> Comps() == if tree == 0 then old(Comps())[0 := []][1 := old(Comps())[0]] else old(Comps())
      ensures rc < 0 ==> Counts() == if tree == 0 then Exchanged(old(Counts()), 0) else old(Counts())
      ensures rc == 0 ==> Carried(ord, deleted, old(Comps()), Comps(), tree, Target(tree), Safe(ord, io.pageSize, deleted, old(Comps()), tree))
      ensures rc == 0 ==> Comps() == AfterMerge(ord, io.pageSize, deleted, old(Comps()), tree)
      ensures rc == 0 ==> Counts() == Recount(old(Counts()), tree, old(Comps()[Target(tree)]) == [], |Filled(tree)|)
      ensures rc == 0 ==> alloc.reserved == old(alloc.reserved) + if tree > 0 && old(Comps()[Target(tree)]) == [] then {} else Filled(tree)
      ensures c0.tree.nodes + c1.tree.nodes <= old(c0.tree.nodes + c1.tree.nodes)
      ensures log == old(log) + [if rc == 0 then MergeTree(tree) else FailedMerge(tree)]
      ensures old(Recorded(deleted)) && (rc == 0 ==> Safe(ord, io.pageSize, deleted, old(Comps()), tree)) ==> Recorded(deleted)
    {
      hide MemOk, DiskOk, Comps, Counts, Takes, RunTo, AfterMerge, Safe, Carried, Exchanged, Recount, Filled;
      ValidFacts();
      ghost var cs := Comps();
      MergedContents(ord, io.pageSize, deleted, cs, tree, Target(tree));
      rc := MergeTrees(tree, deleted);
      Record(if rc == 0 then MergeTree(tree) else FailedMerge(tree), cs);
    }

    method MergeTrees(tree: nat, deleted: Deleted) returns (rc: int)
      requires Valid() && CanMerge(Comps(), tree) && Takes(ord, deleted, Comps(), tree, io.pageSize)
      modifies io, alloc, c0, c0.tree, c1, c1.tree, ci
      ensures Blameless(rc, old(Faults()), Faults())
      ensures Valid() && rc <= 0
      ensures rc < 0 ==> Comps() == (if tree == 0 then Frozen(old(Comps())) else old(Comps())) && alloc.reserved == old(alloc.reserved)
      ensures rc < 0 ==> Counts() == if tree == 0 then Exchanged(old(Counts()), 0) else old(Counts())
      ensures rc == 0 ==> Comps() == AfterMerge(ord, io.pageSize, deleted, old(Comps()), tree)
      ensures rc == 0 ==> Counts() == Recount(old(Counts()), tree, old(Comps()[Target(tree)]) == [], |Filled(tree)|)
      ensures rc == 0 ==> alloc.reserved == old(alloc.reserved) + if tree > 0 && old(Comps()[Target(tree)]) == [] then {} else Filled(tree)
      ensures c0.tree.nodes + c1.tree.nodes <= old(c0.tree.nodes + c1.tree.nodes)
    {
      hide MTree.MTree.Valid, MTree.MTree.Contents, Cursor.Ctree.Contents, Cursor.Ctree.Pages;
      hide Cursor.Ctree.Valid, Builder.AllFit, Emitted, TreeOn, Rebuilt, Counts;
      ghost var cs := Comps();
      if tree == 0 {
        Freeze();
        rc := MergeInto(1, deleted);
        return;
      }
      var empty := IsEmptyTree(tree + 1);
      if empty {
        SwapTrees(tree);
        return 0;
      }
      rc := MergeInto(tree, deleted);
    }

    /** `lsm_lookup` with a new cursor over all components: the newest pair of the key if it has a byte,
        or none. */
    method Find(key: Bytes) returns (found: int, item: Option<Pair>)
      requires Valid()
      modifies io`failures
      ensures Earned(found, old(io.failures), io.failures)
      ensures found == 0 || found == 1 || found == -EIO
      ensures found >= 0 ==> item == Copied(GetIn(ord, Comps(), ord(key)), 0) && (found == 1 <==> item.Some?)
      ensures found >= 0 ==> (var p := GetIn(ord, Comps(), ord(key)); found == 1 <==> p.Some? && |p.value.key| + |p.value.val| > 0)
      ensures found >= 0 ==> forall deleted :: Recorded(deleted) ==> Live(deleted, item) == Live(deleted, Copied(LastAdded(ord, log, ord(key)), 0))
    {
      hide MTree.MTree.Valid, MTree.MTree.Contents, Cursor.Ctree.Contents, Cursor.Ctree.Valid, TreeOn;
      hide GetIn, LastAdded, Run, LsmIter.LsmIter.Ready, LsmIter.LsmIter.MemOk, LsmIter.LsmIter.DiskOk;
      TreesValid();
      ghost var cs := Comps();
      var iter := LsmIter.LsmIter.Setup(ord, io, 0, LsmIter.LAST, c0, c1, ci);
      assert LsmIter.Cut(cs, 0, LsmIter.LAST) == cs;
      found := iter.Lookup(key);
      item := if found == 1 then iter.item else None;
      forall deleted | Recorded(deleted)
        ensures Live(deleted, GetIn(ord, cs, ord(key))) == Live(deleted, LastAdded(ord, log, ord(key)))
      {
        RunView(ord, io.pageSize, deleted, past, log, ord(key));
      }
    }

    /** The memory tree becomes the second one, which was empty. */
    method Freeze()
      requires Valid() && Comps()[1] == []
      modifies c0, c0.tree, c1, c1.tree
      ensures c0.tree.nodes == old(c1.tree.nodes) && c1.tree.nodes == old(c0.tree.nodes) && Counts() == Exchanged(old(Counts()), 0)
      ensures Valid() && Comps() == Frozen(old(Comps()))
    {
      hide MTree.MTree.Valid, MTree.MTree.Contents, Cursor.Ctree.Contents, OnDisk;
      ghost var cs := Comps();
      c0.Swap(c1);
      assert Comps() == Frozen(cs);
    }

    /** The next tree is empty: the two change places. */
    method SwapTrees(tree: nat)
      requires Valid() && 2 <= tree <= LsmIter.MAX_DISK_TREES && Comps()[tree + 1] == []
      modifies ci
      ensures Valid() && Comps() == old(Comps())[tree := []][tree + 1 := old(Comps())[tree]]
      ensures Counts() == Exchanged(old(Counts()), tree)
    {
      hide MTree.MTree.Valid, MTree.MTree.Contents, Cursor.Ctree.Contents, Cursor.Ctree.Pages;
      hide Cursor.Ctree.Valid, TreeOn, MemOk;
      ghost var cs := Comps();
      TreesValid();
      ci[tree - 1].Swap(ci[tree - 2]);
      assert Comps() == cs[tree := []][tree + 1 := cs[tree]];
      forall j | 0 <= j < |ci|
        ensures TreeOn(ci[j], io.content, alloc.reserved)
      {
        TreeValid(ci[j], alloc.reserved);
      }
    }
  }

  lemma EmittedSorted(ord: Order, deleted: Deleted, cs: seq<seq<Pair>>, t: nat)
    requires t + 1 < |cs| && AllSorted(ord, cs)
    ensures Sorted(ord, Emitted(ord, deleted, cs, t))
  {
    hide Wanted, Legible, Merge;
    WantedView(ord, deleted, cs, t, 0.0);
  }

  /** The builder can take every pair of the store. */
  predicate AllFine(ps: nat, cs: seq<seq<Pair>>)
    requires ps > 0
  {
    forall i :: 0 <= i < |cs| ==> Builder.AllFit(ps, cs[i])
  }

  /** As long as only pairs are added that the builder can take, every merge can be built. */
  lemma {:induction false} RunFine(ord: Order, ps: nat, deleted: Deleted, states: seq<seq<seq<Pair>>>, ops: seq<Op>,
      n: nat)
    requires ps > 0 && Run(ord, ps, deleted, states, ops) && n <= |ops|
    requires forall i :: 0 <= i < |ops| && ops[i].Add? ==> Builder.Fits(ps, ops[i].pair)
    ensures AllFine(ps, states[n]) && AllSorted(ord, states[n])
    ensures forall tree :: 0 <= tree <= LsmIter.MAX_DISK_TREES ==> Takes(ord, deleted, states[n], tree, ps)
  {
    hide Builder.Fits, Step, SafeStep, Sorted, Takes;
    if n == 0 {
      SortedNothing(ord);
    } else {
      RunFine(ord, ps, deleted, states, ops, n - 1);
      StepView(ord, ps, deleted, states[n - 1], ops[n - 1], states[n], 0.0);
      StepFine(ord, ps, deleted, states[n - 1], ops[n - 1], states[n]);
    }
    forall tree: nat | tree <= LsmIter.MAX_DISK_TREES
      ensures Takes(ord, deleted, states[n], tree, ps)
    {
      FineTakes(ord, ps, deleted, states[n], tree);
    }
  }

  lemma FineTakes(ord: Order, ps: nat, deleted: Deleted, cs: seq<seq<Pair>>, tree: nat)
    requires |cs| == COMPS && ps > 0 && AllFine(ps, cs) && AllSorted(ord, cs) && tree <= LsmIter.MAX_DISK_TREES
    ensures Takes(ord, deleted, cs, tree, ps)
  {
    hide Builder.Fits, Emitted, Sorted;
    if tree == 0 {
      FrozenSorted(ord, cs);
      EmittedFit(ord, deleted, Frozen(cs), 1, ps);
    } else {
      EmittedFit(ord, deleted, cs, tree, ps);
    }
  }

  lemma StepFine(ord: Order, ps: nat, deleted: Deleted, cs: seq<seq<Pair>>, op: Op, cs': seq<seq<Pair>>)
    requires |cs| == COMPS && ps > 0 && AllFine(ps, cs) && AllSorted(ord, cs) && Step(ord, ps, deleted, cs, op, cs')
    requires op.Add? ==> Builder.Fits(ps, op.pair)
    ensures AllFine(ps, cs')
  {
    hide Builder.Fits, Emitted, Builder.OneLeaf, Put, Sorted;
    if op.Add? { PutFit(ps, ord, cs[0], op.pair); }
    if op.MergeTree? && op.tree == 0 {
      FrozenSorted(ord, cs);
      EmittedFit(ord, deleted, Frozen(cs), 1, ps);
    }
    if op.MergeTree? && op.tree > 0 { EmittedFit(ord, deleted, cs, op.tree, ps); }
  }

  lemma FrozenSorted(ord: Order, cs: seq<seq<Pair>>)
    requires |cs| == COMPS && AllSorted(ord, cs)
    ensures AllSorted(ord, Frozen(cs))
  {
    SortedNothing(ord);
  }

  /** Whatever a rebuild emits was in a component. */
  lemma EmittedFit(ord: Order, deleted: Deleted, cs: seq<seq<Pair>>, t: nat, ps: nat)
    requires ps > 0 && t + 1 < |cs| && AllFine(ps, cs) && AllSorted(ord, cs)
    ensures Builder.AllFit(ps, Emitted(ord, deleted, cs, t))
  {
    hide Builder.Fits, Merge, GetIn, Sorted, Filter, Get, Legible;
    var two := cs[t..t + 2];
    assert two == [cs[t], cs[t + 1]];
    var m := Merge(ord, two);
    MergeGet(ord, two, 0.0);
    forall k | 0 <= k < |m|
      ensures Builder.Fits(ps, m[k])
    {
      var r := ord(m[k].key);
      HasAt(ord, m, k);
      MergeGet(ord, two, r);
      var i := PairOf(ord, two, r);
      assert two[i] == cs[t + i] && Builder.AllFit(ps, cs[t + i]);
    }
    FilterFit(ps, deleted, m);
  }

  lemma {:induction false} FilterFit(ps: nat, deleted: Deleted, s: seq<Pair>)
    requires ps > 0 && Builder.AllFit(ps, s)
    ensures Builder.AllFit(ps, Filter(deleted, s))
  {
    hide Builder.Fits;
    if s != [] {
      FilterFit(ps, deleted, s[..|s| - 1]);
    }
  }

  lemma PutFit(ps: nat, ord: Order, s: seq<Pair>, p: Pair)
    requires ps > 0 && Builder.AllFit(ps, s) && Builder.Fits(ps, p)
    ensures Builder.AllFit(ps, Put(ord, s, p))
  {
    hide Builder.Fits, Lb;
  }

  /* ---------- A run of calls ---------- */

  const NEVER: Deleted := p => false

  /** The components after one pair was added and merged. */
  ghost function Flushed(ord: Order, ps: nat, p: Pair): seq<seq<Pair>>
    requires ps > 0
  {
    AfterMerge(ord, ps, NEVER, [[p], [], [], [], []], 0)
  }

  /** A new store, an addition and a merge of the memory tree. */
  method AddAndMerge(io: Io, alloc: Alloc, ord: Order, first: Pair) returns (rc: int, store: Lsm)
    requires io.Valid() && io.pageSize <= Builder.PAGE_LIMIT && Builder.Fits(io.pageSize, first)
    modifies io, alloc
    ensures fresh(store) && fresh(store.c0) && fresh(store.c0.tree) && fresh(store.c0.tree.nodes)
    ensures |store.ci| == LsmIter.MAX_DISK_TREES && store.Valid() && store.io == io && store.ord == ord && AllSorted(ord, store.Comps())
    ensures io.failures >= old(io.failures)
    ensures store.Comps() == if rc == 0 then Flushed(ord, io.pageSize, first) else [[], [first], [], [], []]
  {
    hide Lsm.Valid, Lsm.Comps, Lsm.MemOk, Lsm.DiskOk, Lsm.OnDisk, Lsm.Recorded, Lsm.Counts, Cursor.Ctree.Pages;
    hide Builder.Fits, RunTo, Takes, AfterMerge, Safe, Put, GetIn, LastAdded, Live, AllSorted;
    hide Carried, Recount, Exchanged, Lsm.Filled;
    store := Lsm.Setup(io, alloc, ord);
    store.ValidFacts();
    store.Add(first.key, first.val);
    store.ValidFacts();
    assert store.Comps() == [[first], [], [], [], []] by { PutNothing(ord, first); }
    store.OneAdded(first);
    rc := store.Merge(0, NEVER);
    store.ValidFacts();
  }

  /** Two additions with a merge in between: the second pair is found, and the first one exactly if the
      merge failed, because a single leaf is lost. */
  method TwoAdditions(io: Io, alloc: Alloc, ord: Order, first: Pair, second: Pair)
    returns (rc: int, found: int, newer: Option<Pair>, found': int, older: Option<Pair>)
    requires io.Valid() && io.pageSize <= Builder.PAGE_LIMIT && Builder.Fits(io.pageSize, first)
    requires ord(first.key) != ord(second.key)
    modifies io, alloc
    ensures found >= 0 ==> newer == Copied(Some(second), 0)
    ensures found' >= 0 ==> older == if rc == 0 then None else Copied(Some(first), 0)
    ensures io.failures == old(io.failures) ==> found >= 0 && found' >= 0
  {
    hide Lsm.Valid, Lsm.Comps, Lsm.Counts, Lsm.Recorded, Builder.Fits, Flushed, Put, GetIn, LastAdded, Live, AllSorted;
    var store;
    rc, store := AddAndMerge(io, alloc, ord, first);
    store.ValidFacts();
    ghost var cs := store.Comps();
    store.Add(second.key, second.val);
    AfterTwo(ord, io.pageSize, first, second, cs, rc == 0);
    found, newer := store.Find(second.key);
    found', older := store.Find(first.key);
  }

  lemma PutNothing(ord: Order, p: Pair)
    ensures Put(ord, [], p) == [p]
  {
  }

  /** What is in the store after the second addition. */
  lemma AfterTwo(ord: Order, ps: nat, first: Pair, second: Pair, cs: seq<seq<Pair>>, merged: bool)
    requires ps > 0 && |cs| == COMPS && AllSorted(ord, cs) && ord(first.key) != ord(second.key)
    requires cs == if merged then Flushed(ord, ps, first) else [[], [first], [], [], []]
    ensures var cs' := cs[0 := Put(ord, cs[0], second)];
            GetIn(ord, cs', ord(second.key)) == Some(second) &&
            GetIn(ord, cs', ord(first.key)) == if merged then None else Some(first)
  {
    hide AfterMerge, Put, GetIn;
    var was: seq<seq<Pair>> := [[first], [], [], [], []];
    assert Frozen(was) == [[], [first], [], [], []];
    AddView(ord, NEVER, cs, second, ord(second.key));
    AddView(ord, NEVER, cs, second, ord(first.key));
    assert AllSorted(ord, was);
    SmallMergeLoses(ord, ps, NEVER, [first], ord(first.key));
    FreezeKeepsView(ord, NEVER, was, ord(first.key));
  }
}
