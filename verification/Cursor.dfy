/** `struct ctree` and `struct ctree_iter` of `lib/ctree.c`: a disk tree and a cursor in it, which
    is a stack of nodes and of positions, one for each level. */
module Cursor {
  import opened Pairs
  import opened Io
  import opened Codec
  import opened DiskNode
  import opened BTree

  /** What a node holds, and where it came from. */
  datatype Image = Image(ptr: Ptr, pairs: seq<Pair>)

  ghost function ImageOf(n: CtreeNode?): Option<Image>
    reads if n == null then {} else {n}
  {
    if n == null || !n.Valid() then None else Some(Image(n.ptr, n.Pairs()))
  }

  ghost function NodesIn(node: seq<CtreeNode?>): set<CtreeNode> {
    set l | 0 <= l < |node| && node[l] != null :: node[l]
  }

  ghost function ImagesOf(node: seq<CtreeNode?>): (s: seq<Option<Image>>)
    reads NodesIn(node)
    ensures |s| == |node| && forall l :: 0 <= l < |s| ==> s[l] == ImageOf(node[l])
  {
    seq(|node|, l requires 0 <= l < |node| reads NodesIn(node) => ImageOf(node[l]))
  }

  /** Whatever node is kept for a level is what its pointer leads to. */
  ghost predicate Cached(d: Disk, images: seq<Option<Image>>) {
    forall l :: 0 <= l < |images| && images[l].Some? ==>
        NodeAt(d, images[l].value.ptr, l) == Some(images[l].value.pairs)
  }

  /** The nodes of the levels from `lo` are those of the path. */
  ghost predicate Shown(images: seq<Option<Image>>, subs: seq<BTree>, lo: nat) {
    |images| == |subs| && forall l :: lo <= l < |subs| ==> images[l] == Some(Image(subs[l].ptr, subs[l].pairs))
  }

  /** The place that a way down keeps: the end of what it is in, or the start. */
  ghost function Mark(subs: seq<BTree>, pos: seq<nat>, l: nat, last: bool): nat
    requires l < |subs| == |pos|
  {
    if last then Stop(subs, pos, l) else Start(subs, pos, l)
  }

  lemma NodeCovers(d: Disk, ps: nat, ptr: Ptr, level: nat)
    requires DiskOk(d, ps) && NodeAt(d, ptr, level).Some?
    ensures IoBytes(ps, ptr.size) >= HEADER
  {
    ReadLength(d, ps, ptr.offs, ptr.size);
  }

  lemma StoredNode(d: Disk, t: BTree, level: nat)
    requires Stored(d, t, level)
    ensures NodeAt(d, t.ptr, level) == Some(t.pairs) && t.pairs != []
  {
  }

  class CtreeIter {
    const io: Io
    const ord: Order
    const ptr: Ptr
    const height: nat
    ghost const tree: BTree
    ghost const disk: Disk   // as it was when the cursor was set up

    // Empty until the cursor is first placed.
    var node: seq<CtreeNode?>
    var pos: seq<nat>
    ghost var subs: seq<BTree>

    ghost function Nodes(): set<CtreeNode>
      reads this`node
    {
      NodesIn(node)
    }

    ghost function Images(): (s: seq<Option<Image>>)
      reads this`node, Nodes()
      ensures |s| == |node|
    {
      ImagesOf(node)
    }

    /** The pairs that the cursor runs over. */
    ghost function Contents(): seq<Pair> {
      if height == 0 then [] else Flat(tree, height - 1)
    }

    /** What holds of the cursor whatever happened to it. */
    ghost predicate Sound()
      reads this, Nodes()
    {
      && (height > 0 ==> tree.ptr == ptr && Stored(disk, tree, height - 1))
      && Sorted(ord, Contents())
      && (node == [] || |node| == height) && |pos| == |subs| == |node|
      && (forall l :: 0 <= l < |node| && node[l] != null ==> node[l].Valid())
      && Cached(disk, Images())
    }

    /** The tree is still on the disk. */
    ghost predicate Ready()
      reads io`content
    {
      io.Valid() && (height > 0 ==> Stored(io.content, tree, height - 1))
    }

    /** The path leads to a leaf and a place in it, or behind its last pair. */
    ghost predicate Reaching()
      reads this, Nodes()
    {
      |node| == |pos| == |subs| == height && (height > 0 ==> Path(tree, subs, pos, 0) && Shown(Images(), subs, 0) && pos[0] <= |subs[0].pairs|)
    }

    /** The place of the cursor: an index into the contents. */
    ghost function At(): nat
      reads this
    {
      if height == 0 || |subs| != height || |pos| != height then 0 else Start(subs, pos, 0)
    }

    /** A cursor that has a place: behind the last pair of a leaf only at the very end. */
    ghost predicate Placed()
      reads this, Nodes()
    {
      Sound() && Reaching() && At() <= |Contents()| && (height > 0 && pos[0] == |subs[0].pairs| ==>
          At() == |Contents()|)
    }

    /** `ctree_iter_setup`. */
    constructor (io: Io, ord: Order, ptr: Ptr, height: nat, ghost tree: BTree)
      requires io.Valid() && (height > 0 ==> tree.ptr == ptr && Stored(io.content, tree, height - 1) && Sorted(ord, Flat(tree, height - 1)))
      ensures Sound() && Ready() && Nodes() == {} && this.io == io && this.ord == ord
      ensures Contents() == if height == 0 then [] else Flat(tree, height - 1)
      ensures this.height == height && this.tree == tree && disk == io.content
    {
      this.io, this.ord, this.ptr, this.height := io, ord, ptr, height;
      this.tree, disk := tree, io.content;
      node, pos, subs := [], [], [];
    }

    /** `ctree_iter_prepare`. */
    method Prepare()
      requires Sound()
      modifies this
      ensures Sound() && |node| == |pos| == |subs| == height && Nodes() <= old(Nodes())
      ensures forall l :: 0 <= l < height ==> subs[l] == tree
    {
      hide Stored, Sorted;
      subs := seq(height, _ => tree);
      if node != [] { return; }
      node, pos := seq(height, _ => null), seq(height, _ => 0);
    }

    /** `ctree_node_create` and `ctree_node_read` for the subtree `t` at `level`. */
    method Fetch(ptr: Ptr, level: nat, ghost t: BTree) returns (rc: int, child: CtreeNode)
      requires io.Valid() && Stored(io.content, t, level) && t.ptr == ptr
      modifies io`failures
      ensures fresh(child) && (rc == 0 || rc == -EIO) && Earned(rc, old(io.failures), io.failures)
      ensures rc == 0 ==> child.Valid() && ImageOf(child) == Some(Image(t.ptr, t.pairs))
    {
      StoredNode(io.content, t, level);
      NodeCovers(io.content, io.pageSize, ptr, level);
      hide Stored, NodeAt, ReadAt, IoBytes, ImageOf;
      child := new CtreeNode();
      rc := child.Read(io, ptr, level);
      if rc == 0 { ImageIs(child); }
    }

    /** Puts the node of the subtree `t` into the stack, at its place `p`. */
    method Keep(level: nat, child: CtreeNode, ghost t: BTree, p: nat, ghost subs': seq<BTree>)
      requires Sound() && |node| == height == |subs'| && level < height && Stored(disk, t, level)
      requires child.Valid() && ImageOf(child) == Some(Image(t.ptr, t.pairs))
      modifies this
      ensures Sound() && |node| == height && Nodes() <= old(Nodes()) + {child}
      ensures pos == old(pos)[level := p] && subs == subs'
      ensures Images() == old(Images())[level := Some(Image(t.ptr, t.pairs))]
    {
      hide Stored, Sorted, NodeAt, Flat, Cached, ImageOf;
      ghost var images := Images();
      CachedPut(disk, images, level, t);
      node := node[level := child];
      pos, subs := pos[level := p], subs';
      assert Images() == images[level := Some(Image(t.ptr, t.pairs))];
    }

    /** On the way down: the path leads to `level`, and the nodes are there from level `shown`. */
    ghost predicate Sinking(level: nat, shown: nat)
      reads this, Nodes()
    {
      |node| == |pos| == |subs| == height && Path(tree, subs, pos, level) && Shown(Images(), subs, shown)
    }

    /** The subtree that the path has reached is on the disk. */
    lemma Reached(level: nat, shown: nat)
      requires Sound() && Ready() && Sinking(level, shown)
      ensures height > 0 && Stored(io.content, subs[level], level) && Stored(disk, subs[level], level)
      ensures subs[level].pairs != [] && |subs[level].kids| == if level == 0 then 0 else |subs[level].pairs|
    {
      hide Stored, Flat, Sorted;
      PathStored(io.content, tree, subs, pos, level, level);
      PathStored(disk, tree, subs, pos, level, level);
      StoredKids(disk, subs[level], level);
    }

    /** The node at a level is the one of the path. */
    lemma ShownAt(level: nat, shown: nat)
      requires |node| == |subs| == height && Shown(Images(), subs, shown) && shown <= level < height
      ensures node[level] != null && node[level].Valid() && node[level].Pairs() == subs[level].pairs
      ensures node[level].entries == |subs[level].pairs|
    {
      hide Path;
      assert Images()[level] == ImageOf(node[level]);
    }

    /** The pointer to the child at `pos[level]`. */
    method ChildPtr(level: nat) returns (rc: int, p: Ptr, ghost kid: BTree)
      requires Sound() && Ready() && Sinking(level, level) && 0 < level < height && pos[level] < |subs[level].pairs|
      ensures rc == 0 && pos[level] < |subs[level].kids| && kid == subs[level].kids[pos[level]] && kid.ptr == p
      ensures Stored(io.content, kid, level - 1) && Stored(disk, kid, level - 1)
    {
      hide Stored, Sound, Path, Shown, ImagesOf, DecodePtr, Hung;
      ghost var nodes, images := Nodes(), Images();
      Reached(level, level);
      ShownAt(level, level);
      kid := subs[level].kids[pos[level]];
      StoredKid(io.content, subs[level], level, pos[level]);
      StoredKid(disk, subs[level], level, pos[level]);
      HungPtr(subs[level].pairs[pos[level]], kid);
      rc, p := node[level].Child(pos[level]);
      assert Nodes() == nodes && Images() == images;
    }

    /** The path leads to a pair of a node at `level`. */
    ghost predicate Poised(level: nat)
      reads this, Nodes()
    {
      level < height && Sinking(level, level) && pos[level] < |subs[level].pairs|
    }

    ghost function MarkAt(level: nat, last: bool): nat
      reads this
    {
      if level < |subs| == |pos| then Mark(subs, pos, level, last) else 0
    }

    /** One round of the last loop of `ctree_next` and of `ctree_prev`: read the child at
        `pos[level]`, and stand at its first or its last pair. */
    method LoadChild(level: nat, last: bool) returns (rc: int)
      requires Sound() && Ready() && 0 < level && Poised(level)
      modifies this, io`failures
      ensures Sound() && fresh(Nodes() - old(Nodes())) && (rc == 0 || rc == -EIO)
      ensures Earned(rc, old(io.failures), io.failures)
      ensures rc == 0 ==> Poised(level - 1) && MarkAt(level - 1, last) == old(MarkAt(level, last))
    {
      hide Mark, Stored, Sound, Path, ImagesOf, Shown, Start, Stop;
      var p, child;
      ghost var kid;
      ghost var nodes, images := Nodes(), Images();
      rc, p, kid := ChildPtr(level);
      assert Nodes() == nodes && Images() == images;
      if rc < 0 { return; }
      rc, child := Fetch(p, level - 1, kid);
      assert Nodes() == nodes && Images() == images;
      if rc < 0 { return; }
      ghost var subs', pos' := EnterKid(disk, tree, subs, pos, Images(), level, last, kid);
      EntriesOf(child, kid);
      Keep(level - 1, child, kid, if last then child.entries - 1 else 0, subs');
    }

    /** The loop of `ctree_next` and of `ctree_prev` that reads a node for every level below. */
    method Dive(level: nat, last: bool) returns (rc: int)
      requires Sound() && Ready() && Poised(level)
      modifies this, io`failures
      ensures Sound() && fresh(Nodes() - old(Nodes())) && (rc == 0 || rc == -EIO)
      ensures Earned(rc, old(io.failures), io.failures)
      ensures rc == 0 ==> Poised(0) && MarkAt(0, last) == old(MarkAt(level, last))
    {
      hide Poised, MarkAt, Ready, Sound;
      ghost var nodes, want := Nodes(), MarkAt(level, last);
      var i := level;
      rc := 0;
      while i != 0
        invariant 0 <= i <= level && rc == 0 && Sound() && Ready() && fresh(Nodes() - nodes)
        invariant io.failures == old(io.failures)
        invariant Poised(i) && want == MarkAt(i, last)
      {
        rc := LoadChild(i, last);
        if rc < 0 { return; }
        i := i - 1;
      }
    }

    /** Drops the nodes below `level` and puts the position there to `p`. */
    method Turn(level: nat, p: nat)
      requires Sound() && |node| == height && level < height
      modifies this
      ensures Sound() && |node| == height && Nodes() <= old(Nodes())
      ensures pos == old(pos)[level := p] && subs == old(subs)
      ensures forall l :: level <= l < height ==> Images()[l] == old(Images())[l]
      ensures forall l :: 0 <= l < level ==> node[l] == null
    {
      hide Stored, Sorted, NodeAt, Flat;
      var i := 0;
      while i != level
        invariant i <= level && Sound() && |node| == height && Nodes() <= old(Nodes())
        invariant forall l :: i <= l < height ==> Images()[l] == old(Images())[l]
        invariant pos == old(pos) && subs == old(subs) && forall l :: 0 <= l < i ==> node[l] == null
      {
        node := node[i := null];
        i := i + 1;
      }
      pos := pos[level := p];
    }

    /** Another child at `level`, and all the way down from there. */
    method Move(level: nat, p: nat, last: bool) returns (rc: int)
      requires Sound() && Ready() && Reaching() && level < height && p < |subs[level].pairs|
      requires Path(tree, subs, pos[level := p], level)
      modifies this, io`failures
      ensures Sound() && fresh(Nodes() - old(Nodes())) && (rc == 0 || rc == -EIO)
      ensures Earned(rc, old(io.failures), io.failures)
      ensures rc == 0 ==> Reaching() && pos[0] < |subs[0].pairs|
      ensures rc == 0 ==> Mark(subs, pos, 0, last) == old(Mark(subs, pos[level := p], level, last))
    {
      hide Mark, Stored, Sound, Path, Shown, ImagesOf, Start, Stop;
      ghost var images := Images();
      Turn(level, p);
      ShownStill(images, Images(), subs, level);
      rc := Dive(level, last);
    }

    /** The place after this one; behind the last pair of a leaf it is where the next leaf starts. */
    ghost function After(): nat
      reads this
    {
      if height == 0 || |subs| != height || |pos| != height then 0
      else Base(subs, pos, 0) + if pos[0] < |subs[0].pairs| then pos[0] + 1 else |subs[0].pairs|
    }

    /** The lowest level at which the path can go on, or the height. */
    method Forward() returns (level: nat)
      requires Sound() && Reaching()
      ensures level <= height && forall i :: 0 <= i < level ==> pos[i] + 1 >= |subs[i].pairs|
      ensures level < height ==> pos[level] + 1 < |subs[level].pairs|
    {
      hide Stored, Sound, Path, Shown, ImagesOf;
      ghost var nodes, images := Nodes(), Images();
      level := 0;
      while level != height
        invariant level <= height && forall i :: 0 <= i < level ==> pos[i] + 1 >= |subs[i].pairs|
        invariant Nodes() == nodes && Images() == images
      {
        ShownAt(level, 0);
        if pos[level] + 1 < node[level].entries { return; }
        level := level + 1;
      }
    }

    /** Going on at the lowest level that can leads to the next place. */
    lemma Onwards(level: nat)
      requires Sound() && Reaching() && level < height && pos[level] + 1 < |subs[level].pairs|
      requires forall i :: 0 <= i < level ==> pos[i] + 1 >= |subs[i].pairs|
      ensures Path(tree, subs, pos[level := pos[level] + 1], level)
      ensures Mark(subs, pos[level := pos[level] + 1], level, false) == After()
    {
      hide Stored, Sound, Path, Shown, ImagesOf, Start, Base, End;
      TreeStored();
      NextPlace(disk, tree, subs, pos, level);
    }

    /** On a pair of a leaf the cursor has a place. */
    lemma Landed()
      requires Sound() && Reaching() && height > 0 && pos[0] < |subs[0].pairs|
      ensures Placed() && At() == Mark(subs, pos, 0, false) < |Contents()|
    {
      hide Stored, Sound, Path, Shown, ImagesOf, Start;
      TreeStored();
      InLeaf(disk, tree, subs, pos);
    }

    /** `ctree_next`. */
    method Next() returns (rc: int)
      requires Sound() && Ready() && Reaching()
      modifies this, io`failures
      ensures Sound() && fresh(Nodes() - old(Nodes())) && (rc == 0 || rc == -ENOENT || rc == -EIO)
      ensures Earned(rc, old(io.failures), io.failures)
      ensures rc != -EIO ==> Placed() && At() == old(After()) && (rc == -ENOENT <==> old(After()) == |Contents()|)
      ensures rc != -EIO && old(Placed()) ==> At() == Min(old(At()) + 1, |Contents()|) && (rc == -ENOENT <==>
          old(At()) + 1 >= |Contents()|)
    {
      hide Sound, Path, Shown, ImagesOf, Mark, After, At, Ready;
      if Placed() { AfterPlaced(); }
      ghost var nodes, images := Nodes(), Images();
      var level := Forward();
      assert Nodes() == nodes && Images() == images;
      if level == height {
        AtLast();
        return -ENOENT;
      }
      Onwards(level);
      rc := Move(level, pos[level] + 1, false);
      if rc < 0 { return; }
      Landed();
    }

    /** `ctree_next` behind or at the last pair. */
    method AtLast()
      requires Sound() && Ready() && Reaching() && forall i :: 0 <= i < height ==> pos[i] + 1 >= |subs[i].pairs|
      modifies this`pos
      ensures Placed() && At() == old(After()) == |Contents()| && Nodes() == old(Nodes())
    {
      hide Stored, Sound, Path, Shown, ImagesOf, End;
      if height > 0 {
        TreeStored();
        NextPlace(disk, tree, subs, pos, height);
        ShownAt(0, 0);
        if pos[0] != node[0].entries {
          Bump();
        }
      }
    }

    lemma NoTree()
      requires Sound() && height == 0
      ensures Placed() && At() == Lb(ord, Contents(), 0.5) == 0 && Contents() == []
    {
    }

    lemma AfterPlaced()
      requires Placed()
      ensures After() == Min(At() + 1, |Contents()|)
    {
      hide Stored, Sound, Path, Shown, ImagesOf, Base;
      if height > 0 {
        TreeStored();
        InLeaf(disk, tree, subs, pos);
      }
    }

    lemma TreeStored()
      requires Sound() && height > 0
      ensures Stored(disk, tree, height - 1) && tree.ptr == ptr && Contents() == Flat(tree, height - 1)
    {
    }

    /** The lowest level at which the path can go back, or the height. */
    method Rewind() returns (level: nat)
      requires Reaching()
      ensures level <= height && forall i :: 0 <= i < level ==> pos[i] == 0
      ensures level < height ==> pos[level] > 0
    {
      level := 0;
      while level != height && pos[level] == 0
        invariant level <= height && forall i :: 0 <= i < level ==> pos[i] == 0
      {
        level := level + 1;
      }
    }

    /** `ctree_prev`. */
    method Prev() returns (rc: int)
      requires Placed() && Ready()
      modifies this, io`failures
      ensures Sound() && fresh(Nodes() - old(Nodes())) && (rc == 0 || rc == -ENOENT || rc == -EIO)
      ensures Earned(rc, old(io.failures), io.failures)
      ensures rc != -EIO ==> Placed() && At() == (if old(At()) > 0 then old(At()) - 1 else 0) && (rc == -ENOENT <==> old(At()) == 0)
    {
      hide Stored, Sound, Path, Shown, ImagesOf, Start, Stop, Base, End;
      ghost var nodes, images := Nodes(), Images();
      var level := Rewind();
      assert Nodes() == nodes && Images() == images;
      if height > 0 {
        TreeStored();
        PrevPlace(disk, tree, subs, pos, level);
        PathKids(disk, tree, subs, pos);
      }
      if level == height { return -ENOENT; }
      rc := Move(level, pos[level] - 1, true);
      if rc < 0 { return; }
      StopStart(subs, pos);
      InLeaf(disk, tree, subs, pos);
    }

    /** The first round of the loop of `ctree_begin` and of `ctree_end`: the root. */
    method LoadRoot(last: bool) returns (rc: int)
      requires Sound() && Ready() && height > 0
      modifies this, io`failures
      ensures Sound() && fresh(Nodes() - old(Nodes())) && (rc == 0 || rc == -EIO)
      ensures Earned(rc, old(io.failures), io.failures)
      ensures rc == 0 ==> Sinking(height - 1, height - 1) && pos[height - 1] < |subs[height - 1].pairs|
      ensures rc == 0 ==> Mark(subs, pos, height - 1, last) == if last then |Contents()| else 0
    {
      hide Mark, Stored, Sound, Path, Shown, ImagesOf, ImageOf;
      TreeStored();
      Prepare();
      ghost var nodes, images := Nodes(), Images();
      var child;
      rc, child := Fetch(ptr, height - 1, tree);
      assert Nodes() == nodes && Images() == images;
      if rc < 0 { return; }
      EntriesOf(child, tree);
      ghost var pos' := pos[height - 1 := if last then |tree.pairs| - 1 else 0];
      Rooted(disk, tree, subs, pos', images, last);
      Keep(height - 1, child, tree, if last then child.entries - 1 else 0, subs);
    }

    /** The way down of `ctree_begin` and of `ctree_end`, with the first or the last position
        everywhere. */
    method Plunge(last: bool) returns (rc: int)
      requires Sound() && Ready() && height > 0
      modifies this, io`failures
      ensures Sound() && fresh(Nodes() - old(Nodes())) && (rc == 0 || rc == -EIO)
      ensures Earned(rc, old(io.failures), io.failures)
      ensures rc == 0 ==> Reaching() && pos[0] < |subs[0].pairs|
      ensures rc == 0 ==> Mark(subs, pos, 0, last) == if last then |Contents()| else 0
    {
      hide Mark, Stored, Sound, Path, Shown, ImagesOf;
      rc := LoadRoot(last);
      if rc < 0 { return; }
      rc := Dive(height - 1, last);
    }

    /** `ctree_begin`. */
    method Begin() returns (rc: int)
      requires Sound() && Ready()
      modifies this, io`failures
      ensures Sound() && fresh(Nodes() - old(Nodes())) && (rc == 0 || rc == -EIO)
      ensures Earned(rc, old(io.failures), io.failures)
      ensures rc == 0 ==> Placed() && At() == 0
    {
      hide Stored, Sound, Path, Shown, ImagesOf, Start, Stop;
      if height == 0 {
        Prepare();
        return 0;
      }
      rc := Plunge(false);
      if rc < 0 { return; }
      TreeStored();
    }

    /** `ctree_end`. */
    method MoveToEnd() returns (rc: int)
      requires Sound() && Ready()
      modifies this, io`failures
      ensures Sound() && fresh(Nodes() - old(Nodes())) && (rc == 0 || rc == -EIO)
      ensures Earned(rc, old(io.failures), io.failures)
      ensures rc == 0 ==> Placed() && At() == |Contents()|
    {
      hide Stored, Sound, Path, Shown, ImagesOf, Base;
      if height == 0 {
        Prepare();
        return 0;
      }
      rc := Plunge(true);
      if rc < 0 { return; }
      Bump();
    }

    /** `__ctree_get_node`: the node that is kept for the level serves if its pointer is the same. */
    method GetNode(p: Ptr, level: nat, ghost t: BTree) returns (rc: int)
      requires Sound() && Ready() && |node| == height && level < height
      requires Stored(io.content, t, level) && Stored(disk, t, level) && t.ptr == p
      modifies this, io`failures
      ensures Sound() && fresh(Nodes() - old(Nodes())) && (rc == 0 || rc == -EIO)
      ensures Earned(rc, old(io.failures), io.failures)
      ensures |node| == height && pos == old(pos) && subs == old(subs)
      ensures old(node[level] != null && node[level].ptr == p) ==> rc == 0 && node == old(node)
      ensures rc == 0 ==> Images() == old(Images())[level := Some(Image(t.ptr, t.pairs))]
    {
      hide Stored, Sound, ImagesOf, ImageOf;
      SoundSizes();
      ghost var nodes, images := Nodes(), Images();
      if node[level] != null && node[level].ptr == p {
        CachedIs(level, t);
        return 0;
      }
      var child;
      rc, child := Fetch(p, level, t);
      assert Nodes() == nodes && Images() == images;
      if rc < 0 { return; }
      Keep(level, child, t, pos[level], subs);
    }

    lemma SoundSizes()
      requires Sound()
      ensures |node| == |pos| == |subs|
    {
    }

    /** A kept node with the pointer of a subtree is the node of the subtree. */
    lemma CachedIs(level: nat, t: BTree)
      requires Sound() && level < |node| && node[level] != null && node[level].ptr == t.ptr && Stored(disk, t, level)
      ensures Images()[level] == Some(Image(t.ptr, t.pairs))
    {
      StoredNode(disk, t, level);
      hide Stored, NodeAt, Sorted, Flat;
      ImageIs(node[level]);
    }

    /** On the way down in search of `r`: the place of `r` is below the subtree reached. */
    ghost predicate Seeking(level: nat, r: real)
      reads this, Nodes()
    {
      && Sinking(level, level + 1)
      && Sorted(ord, Flat(subs[level], level))
      && Base(subs, pos, level) + Lb(ord, Flat(subs[level], level), r) == Lb(ord, Contents(), r)
    }

    lemma SeekStart(r: real)
      requires Sound() && |node| == height > 0 && subs[height - 1] == tree
      ensures Seeking(height - 1, r)
    {
      hide Stored, Lb;
      RootEnd(subs, pos);
    }

    method Aim(level: nat, p: nat, ghost subs': seq<BTree>)
      requires Sound() && level < |pos| && |subs'| == |subs|
      modifies this`pos, this`subs
      ensures Sound() && Nodes() == old(Nodes()) && Images() == old(Images())
      ensures pos == old(pos)[level := p] && subs == subs'
    {
      hide Stored, Cached, Sorted, Flat, ImagesOf;
      ghost var images := Images();
      pos, subs := pos[level := p], subs';
      assert Images() == images;
    }

    /** Loads the node at `level` and picks the last child whose key is not above, or the first. */
    method PickChild(level: nat, p: Ptr, key: Bytes) returns (rc: int, at: nat)
      requires Sound() && Ready() && level < height && Sinking(level, level + 1) && p == subs[level].ptr
      modifies this, io`failures
      ensures Sound() && fresh(Nodes() - old(Nodes())) && (rc == 0 || rc == -EIO)
      ensures Earned(rc, old(io.failures), io.failures)
      ensures pos == old(pos) && subs == old(subs)
      ensures rc == 0 ==> Sinking(level, level) && at < |subs[level].pairs|
      ensures rc == 0 ==> at == 0 || ord(subs[level].pairs[at].key) <= ord(key)
      ensures rc == 0 ==> at + 1 < |subs[level].pairs| ==>
          ord(key) < ord(subs[level].pairs[at + 1].key) || ord(key) < ord(subs[level].pairs[at].key)
    {
      hide Stored, Sound, Path, Shown, ImagesOf;
      at := 0;
      Reached(level, level + 1);
      ghost var images := Images();
      rc := GetNode(p, level, subs[level]);
      if rc < 0 { return; }
      ShownMore(images, subs, level);
      ghost var nodes := Nodes();
      images := Images();
      ShownAt(level, level);
      at := node[level].UpperBound(ord, key);
      assert Nodes() == nodes && Images() == images;
      if at > 0 { at := at - 1; }
    }

    /** One round of the loop of `__ctree_lookup`. */
    method SeekStep(level: nat, p: Ptr, key: Bytes) returns (rc: int, q: Ptr)
      requires Sound() && Ready() && 0 < level < height && Seeking(level, ord(key)) && p == subs[level].ptr
      modifies this, io`failures
      ensures Sound() && fresh(Nodes() - old(Nodes())) && (rc == 0 || rc == -EIO)
      ensures Earned(rc, old(io.failures), io.failures)
      ensures rc == 0 ==> Seeking(level - 1, ord(key)) && |subs| == height && q == subs[level - 1].ptr
    {
      hide Stored, Sound, Path, Shown, ImagesOf, Lb, Base, Flat, Sorted;
      q := p;
      var at;
      rc, at := PickChild(level, p, key);
      if rc < 0 { return; }
      Reached(level, level);
      ghost var kid, was := subs[level], pos;
      SeekDown(disk, ord, tree, subs, was, Images(), level, ord(key), at);
      Aim(level, at, subs);
      ghost var nodes, images := Nodes(), Images();
      rc, q, kid := ChildPtr(level);
      assert Nodes() == nodes && Images() == images;
      if rc < 0 { return; }
      Aim(level, pos[level], subs[level - 1 := kid]);
      assert pos == was[level := at];
    }

    /** The last step of `__ctree_lookup`. */
    method SeekLeaf(p: Ptr, key: Bytes) returns (rc: int)
      requires Sound() && Ready() && 0 < height && Seeking(0, ord(key)) && p == subs[0].ptr
      modifies this, io`failures
      ensures Sound() && fresh(Nodes() - old(Nodes())) && (rc == 0 || rc == -EIO)
      ensures Earned(rc, old(io.failures), io.failures)
      ensures rc == 0 ==> Reaching() && At() == Lb(ord, Contents(), ord(key))
    {
      hide Stored, Sound, Path, Shown, ImagesOf, Lb, Base, Sorted;
      Reached(0, 1);
      ghost var images := Images();
      rc := GetNode(p, 0, subs[0]);
      if rc < 0 { return; }
      ShownMore(images, subs, 0);
      ghost var nodes := Nodes();
      images := Images();
      ShownAt(0, 0);
      var at := node[0].LowerBound(ord, key);
      assert Nodes() == nodes && Images() == images;
      PathLowest(tree, subs, pos, 0, at);
      Aim(0, at, subs);
    }

    /** `__ctree_lookup`. */
    method Descend(key: Bytes) returns (rc: int)
      requires Sound() && Ready() && height > 0
      modifies this, io`failures
      ensures Sound() && fresh(Nodes() - old(Nodes())) && (rc == 0 || rc == -EIO)
      ensures Earned(rc, old(io.failures), io.failures)
      ensures rc == 0 ==> Reaching() && At() == Lb(ord, Contents(), ord(key))
    {
      hide Stored, Sound, Path, Shown, ImagesOf, Seeking;
      ghost var r := ord(key);
      Prepare();
      SeekStart(r);
      TreeStored();
      ghost var nodes := Nodes();
      var level := height - 1;
      var p := ptr;
      while level != 0
        invariant 0 <= level < height && Sound() && Ready() && fresh(Nodes() - nodes)
        invariant io.failures == old(io.failures)
        invariant Seeking(level, r) && |subs| == height && p == subs[level].ptr
      {
        rc, p := SeekStep(level, p, key);
        if rc < 0 { return; }
        level := level - 1;
      }
      rc := SeekLeaf(p, key);
    }

    /** `ctree_lower_bound`: the first pair whose key is not below `key`, or the end. */
    method LowerBound(key: Bytes) returns (rc: int)
      requires Sound() && Ready()
      modifies this, io`failures
      ensures Sound() && fresh(Nodes() - old(Nodes())) && (rc == 0 || rc == -EIO)
      ensures Earned(rc, old(io.failures), io.failures)
      ensures rc == 0 ==> Placed() && At() == Lb(ord, Contents(), ord(key))
    {
      hide Stored, Sound, Path, Shown, ImagesOf, Lb, Base;
      if height == 0 {
        NoTree();
        return 0;
      }
      rc := Descend(key);
      if rc < 0 { return; }
      rc := Settle();
    }

    /** Behind the last pair of a leaf the next leaf starts. */
    method Settle() returns (rc: int)
      requires Sound() && Ready() && Reaching() && height > 0
      modifies this, io`failures
      ensures Sound() && fresh(Nodes() - old(Nodes())) && (rc == 0 || rc == -EIO)
      ensures Earned(rc, old(io.failures), io.failures)
      ensures rc == 0 ==> Placed() && At() == old(At())
    {
      hide Stored, Sound, Path, Shown, ImagesOf, Base;
      ShownAt(0, 0);
      TreeStored();
      InLeaf(disk, tree, subs, pos);
      if pos[0] == node[0].entries {
        rc := Next();
        if rc == -ENOENT { return 0; }
        return;
      }
      rc := 0;
    }

    /** `ctree_upper_bound`: the first pair whose key is above `key`, or the end; that the match was the
        last pair counts as an error. */
    method UpperBound(key: Bytes) returns (rc: int)
      requires Sound() && Ready()
      modifies this, io`failures
      ensures Sound() && fresh(Nodes() - old(Nodes())) && (rc == 0 || rc == -ENOENT || rc == -EIO)
      ensures Earned(rc, old(io.failures), io.failures)
      ensures rc != -EIO ==> Placed() && At() == Ub(ord, Contents(), ord(key))
      ensures rc != -EIO ==> (rc == -ENOENT <==> Contents() != [] && ord(Contents()[|Contents()| - 1].key) == ord(key))
    {
      hide Stored, Sound, Path, Shown, ImagesOf, Lb, Base, Start, Ub, Placed, At;
      UbNothing(ord, ord(key));
      if height == 0 {
        NoTree();
        return 0;
      }
      rc := LowerBound(key);
      if rc < 0 { return; }
      PlacedSorted();
      LbThenUb(ord, Contents(), ord(key));
      var more := NotAbove(key);
      if !more { return 0; }
      rc := Next();
    }

    lemma PlacedSorted()
      requires Placed()
      ensures Sorted(ord, Contents()) && Sound() && Reaching()
    {
    }

    /** Whether there is a pair under the cursor, and its key is not above `key`. */
    method NotAbove(key: Bytes) returns (more: bool)
      requires Placed() && height > 0
      ensures more <==> At() < |Contents()| && ord(Contents()[At()].key) <= ord(key)
    {
      hide Stored, Sound, Path, Shown, ImagesOf, Start, Items;
      TreeStored();
      ShownAt(0, 0);
      InLeaf(disk, tree, subs, pos);
      if pos[0] == node[0].entries { return false; }
      more := !(Cmp(ord, node[0].Key(pos[0]), key) > 0);
    }

    /** `ctree_lookup`: 1 exactly if there is a pair with this key, and the cursor is on it then. */
    method Lookup(key: Bytes) returns (found: int)
      requires Sound() && Ready()
      modifies this, io`failures
      ensures Sound() && fresh(Nodes() - old(Nodes())) && (found == 0 || found == 1 || found == -EIO)
      ensures Earned(found, old(io.failures), io.failures)
      ensures found >= 0 ==> (found == 1 <==> Get(ord, Contents(), ord(key)).Some?)
      ensures found >= 0 ==> Placed() && At() == Lb(ord, Contents(), ord(key))
    {
      hide Stored, Sound, Path, Shown, ImagesOf, Lb, Base, Start;
      if height == 0 {
        NoTree();
        return 0;
      }
      found := LowerBound(key);
      if found < 0 { return; }
      found := Compare(key);
    }

    /** Whether the pair under the cursor has this key. */
    method Compare(key: Bytes) returns (found: int)
      requires Placed() && height > 0
      ensures found == if At() < |Contents()| && ord(Contents()[At()].key) == ord(key) then 1 else 0
    {
      hide Stored, Sound, Path, Shown, ImagesOf, Start, Items;
      TreeStored();
      ShownAt(0, 0);
      InLeaf(disk, tree, subs, pos);
      if pos[0] == node[0].entries { return 0; }
      found := if Cmp(ord, node[0].Key(pos[0]), key) == 0 then 1 else 0;
    }

    /** `ctree_key` and `ctree_val`. */
    method Item() returns (item: Option<Pair>)
      requires Placed()
      ensures item == if At() < |Contents()| then Some(Contents()[At()]) else None
    {
      hide Stored, Sound, Path, Shown, ImagesOf, Start, Items;
      if height == 0 { return None; }
      TreeStored();
      ShownAt(0, 0);
      InLeaf(disk, tree, subs, pos);
      if pos[0] == node[0].entries { return None; }
      item := Some(Pair(node[0].Key(pos[0]), node[0].Val(pos[0])));
    }

    /** `++iter->pos[0]`. */
    method Bump()
      requires Sound() && Reaching() && height > 0 && pos[0] < |subs[0].pairs|
      modifies this`pos
      ensures Sound() && Reaching() && Nodes() == old(Nodes()) && Images() == old(Images())
      ensures pos == old(pos)[0 := old(pos[0]) + 1]
      ensures Base(subs, pos, 0) == old(Base(subs, pos, 0))
    {
      hide Stored, Base, Path, Shown, Cached, Sorted, Flat, ImagesOf;
      ghost var images := Images();
      PathLowest(tree, subs, pos, 0, pos[0] + 1);
      pos := pos[0 := pos[0] + 1];
      assert Images() == images;
    }
  }

  lemma ShownStill(images: seq<Option<Image>>, images': seq<Option<Image>>, subs: seq<BTree>, lo: nat)
    requires Shown(images, subs, 0) && |images'| == |images| && forall l :: lo <= l < |images| ==>
        images'[l] == images[l]
    ensures Shown(images', subs, lo)
  {
  }

  lemma StopStart(subs: seq<BTree>, pos: seq<nat>)
    requires 0 < |subs| == |pos|
    ensures Stop(subs, pos, 0) == Start(subs, pos, 0) + 1
  {
  }

  /** At the root. */
  lemma Rooted(d: Disk, t: BTree, subs: seq<BTree>, pos: seq<nat>, images: seq<Option<Image>>, last: bool)
    requires 0 < |subs| == |pos| == |images| && Stored(d, t, |subs| - 1) && subs[|subs| - 1] == t
    requires pos[|subs| - 1] == if last then |t.pairs| - 1 else 0
    ensures var l := |subs| - 1;
            && Path(t, subs, pos, l) && Shown(images[l := Some(Image(t.ptr, t.pairs))], subs, l) && t.pairs != []
            && Mark(subs, pos, l, last) == if last then |Flat(t, l)| else 0
  {
    hide Stored, Flat, Start, Stop;
    var l := |subs| - 1;
    StoredKids(d, t, l);
    RootEnd(subs, pos);
    if last {
      LastPlace(d, subs, pos, l);
    } else {
      FirstPlace(subs, pos, l);
    }
  }

  lemma ShownMore(images: seq<Option<Image>>, subs: seq<BTree>, level: nat)
    requires Shown(images, subs, level + 1) && level < |subs|
    ensures Shown(images[level := Some(Image(subs[level].ptr, subs[level].pairs))], subs, level)
  {
  }

  lemma SeekDown(d: Disk, ord: Order, t: BTree, subs: seq<BTree>, pos: seq<nat>, images: seq<Option<Image>>,
      l: nat, r: real, at: nat)
    requires 0 < l && Path(t, subs, pos, l) && Shown(images, subs, l) && Stored(d, subs[l], l)
    requires Sorted(ord, Flat(subs[l], l)) && at < |subs[l].pairs|
    requires at == 0 || ord(subs[l].pairs[at].key) <= r
    requires at + 1 < |subs[l].pairs| ==> r < ord(subs[l].pairs[at + 1].key) || r < ord(subs[l].pairs[at].key)
    ensures Path(t, subs, pos[l := at], l) && |subs[l].kids| == |subs[l].pairs|
    ensures var kid := subs[l].kids[at]; var subs', pos' := subs[l - 1 := kid], pos[l := at];
            && Path(t, subs', pos', l - 1) && Shown(images, subs', l) && Sorted(ord, Flat(kid, l - 1))
            && Base(subs', pos', l - 1) + Lb(ord, Flat(kid, l - 1), r) == Base(subs, pos, l) + Lb(ord,
                Flat(subs[l], l), r)
  {
    hide Stored, Lb, Flat, FlatAll, Base, Sorted;
    StoredKids(d, subs[l], l);
    PathLowest(t, subs, pos, l, at);
    var pos' := pos[l := at];
    LbDown(d, ord, subs[l], l, r, at);
    Enter(t, subs, pos', l, pos'[l - 1]);
    assert pos'[l - 1 := pos'[l - 1]] == pos';
  }

  lemma EntriesOf(child: CtreeNode, t: BTree)
    requires child.Valid() && ImageOf(child) == Some(Image(t.ptr, t.pairs))
    ensures child.entries == |t.pairs|
  {
  }

  lemma EnterKid(d: Disk, t: BTree, subs: seq<BTree>, pos: seq<nat>, images: seq<Option<Image>>, l: nat,
      last: bool, kid: BTree)
    returns (subs': seq<BTree>, pos': seq<nat>)
    requires 0 < l && Path(t, subs, pos, l) && Shown(images, subs, l) && pos[l] < |subs[l].kids|
    requires kid == subs[l].kids[pos[l]] && Stored(d, kid, l - 1)
    ensures kid.pairs != [] && subs' == subs[l - 1 := kid] && pos' == pos[l - 1 := if last then |kid.pairs| - 1 else 0]
    ensures Path(t, subs', pos', l - 1) && Shown(images[l - 1 := Some(Image(kid.ptr, kid.pairs))], subs', l - 1)
    ensures Mark(subs', pos', l - 1, last) == Mark(subs, pos, l, last)
  {
    hide Stored, Flat, Base, End, Start, Stop;
    StoredKids(d, kid, l - 1);
    var p := if last then |kid.pairs| - 1 else 0;
    subs', pos' := subs[l - 1 := kid], pos[l - 1 := p];
    Enter(t, subs, pos, l, p);
    if last {
      LastPlace(d, subs', pos', l - 1);
    } else {
      FirstPlace(subs', pos', l - 1);
    }
  }

  lemma HungPtr(p: Pair, kid: BTree)
    requires Hung(p, kid)
    ensures |p.val| == PTR_SIZE && DecodePtr(p.val) == kid.ptr
  {
  }

  lemma ImageIs(n: CtreeNode)
    requires n.Valid()
    ensures ImageOf(n) == Some(Image(n.ptr, n.Pairs()))
  {
  }

  lemma CachedPut(d: Disk, images: seq<Option<Image>>, level: nat, t: BTree)
    requires Cached(d, images) && level < |images| && Stored(d, t, level)
    ensures Cached(d, images[level := Some(Image(t.ptr, t.pairs))])
  {
    StoredNode(d, t, level);
    hide Stored, NodeAt;
  }

  lemma UbNothing(ord: Order, r: real)
    ensures Ub(ord, [], r) == 0
  {
  }

  /** From the first key not below to the first one above. */
  lemma LbThenUb(ord: Order, s: seq<Pair>, r: real)
    requires Sorted(ord, s)
    ensures var k := Lb(ord, s, r);
            Ub(ord, s, r) == if k < |s| && ord(s[k].key) <= r then k + 1 else k
    ensures var k := Lb(ord, s, r);
            k < |s| && ord(s[k].key) <= r && k + 1 >= |s| <==> s != [] && ord(s[|s| - 1].key) == r
  {
    var k := Lb(ord, s, r);
    if s != [] && ord(s[|s| - 1].key) == r { LbIs(ord, s, r, |s| - 1); }
  }

  /** `struct ctree`: where the root of a tree is, and how high the tree. No height means no tree. */
  class Ctree {
    const io: Io
    const ord: Order
    var ptr: Ptr
    var height: nat
    var pages: nat
    ghost var tree: BTree

    ghost predicate Valid()
      reads this, io`content
    {
      io.Valid() && (height > 0 ==> tree.ptr == ptr && Stored(io.content, tree, height - 1)) && Sorted(ord, Contents())
    }

    ghost function Contents(): seq<Pair>
      reads this
    {
      if height == 0 then [] else Flat(tree, height - 1)
    }

    ghost function Pages(): set<nat>
      reads this
    {
      if height == 0 then {} else PagesOf(tree, height - 1)
    }

    /** `ctree_setup`. */
    constructor (io: Io, ord: Order)
      requires io.Valid()
      ensures Valid() && Contents() == [] && Pages() == {} && this.io == io && this.ord == ord
      ensures ptr == Ptr(0, 0, 0) && height == pages == 0
    {
      this.io, this.ord := io, ord;
      ptr, height, pages, tree := Ptr(0, 0, 0), 0, 0, BTree(Ptr(0, 0, 0), [], []);
    }

    /** `ctree_reset`: another tree, or none. */
    method Reset(ptr: Option<Ptr>, height: nat, pages: nat, ghost tree: BTree)
      requires io.Valid()
      requires ptr.Some? && height > 0 ==> tree.ptr == ptr.value && Stored(io.content, tree, height - 1) && Sorted(ord, Flat(tree, height - 1))
      modifies this
      ensures Valid() && this.pages == pages
      ensures this.ptr == (if ptr == None then Ptr(0, 0, 0) else ptr.value) && this.height == if ptr == None then 0 else height
      ensures Contents() == if ptr == None || height == 0 then [] else Flat(tree, height - 1)
      ensures Pages() == if ptr == None || height == 0 then {} else PagesOf(tree, height - 1)
    {
      hide Stored, Flat, PagesOf;
      this.pages, this.tree := pages, tree;
      if ptr == None {
        this.ptr, this.height := Ptr(0, 0, 0), 0;
        return;
      }
      this.ptr, this.height := ptr.value, height;
    }

    /** `ctree_is_empty`: a tree has a pair. */
    method IsEmpty() returns (empty: bool)
      requires Valid()
      ensures empty == (height == 0) == (Contents() == [])
    {
      hide Stored, Flat;
      empty := height == 0;
      if height > 0 { FlatFirst(io.content, tree, height - 1); }
    }

    /** `ctree_swap`. */
    method Swap(other: Ctree)
      requires Valid() && other.Valid() && io == other.io && ord == other.ord
      modifies this, other
      ensures Valid() && other.Valid()
      ensures Contents() == old(other.Contents()) && other.Contents() == old(Contents())
      ensures Pages() == old(other.Pages()) && other.Pages() == old(Pages())
      ensures ptr == old(other.ptr) && height == old(other.height) && pages == old(other.pages)
      ensures other.ptr == old(ptr) && other.height == old(height) && other.pages == old(pages)
    {
      hide Stored, Flat, PagesOf;
      ptr, height, pages, tree, other.ptr, other.height, other.pages, other.tree :=
        other.ptr, other.height, other.pages, other.tree, ptr, height, pages, tree;
    }
  }
}
