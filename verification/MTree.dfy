/** The memory tree of `lib/mtree.c`: a sorted map kept in a red-black tree, and its cursor. */
module MTree {
  import opened Pairs
  import opened RbShape
  import opened RbRules
  import opened RbTree

  ghost function PairsOf(order: seq<Node>): (s: seq<Pair>)
    ensures |s| == |order| && forall i :: 0 <= i < |s| ==> s[i] == order[i].pair
  {
    seq(|order|, i requires 0 <= i < |order| => order[i].pair)
  }

  class MTree {
    const ord: Order
    const tree: RbTree
    var bytes: nat

    ghost predicate Valid()
      reads this, tree, tree.nodes
    {
      tree.Valid() && forall n :: n in tree.nodes ==> n.pos == ord(n.pair.key)
    }

    /** The pairs in the tree, in the order of their keys. */
    ghost function Contents(): seq<Pair>
      reads this, tree`shape
    {
      PairsOf(tree.Order())
    }

    constructor (ord: Order)
      ensures Valid() && Contents() == [] && bytes == 0 && this.ord == ord && fresh(tree) && tree.nodes == {}
    {
      this.ord := ord;
      tree := new RbTree();
      bytes := 0;
    }

    /** Where a descent stands: `t` is the subtree still to search, and `lower` follows it. */
    ghost predicate Searching(t: Shape, path: Path, p: Node?, r: real, lower: Node?)
      reads this, tree, tree.nodes
    {
      && At(tree.Links(), t, path, tree.root) && Zip(path, t) == tree.shape && p == Root(t)
      && Narrowed(tree.Order(), |Before(path)|, |Before(path)| + |InOrder(t)|, r, lower)
    }

    lemma SearchStep(t: Shape, path: Path, p: Node, r: real, lower: Node?)
      requires Valid() && Searching(t, path, p, r, lower)
      ensures t.Branch? && p.pos == ord(p.pair.key)
      ensures if p.pos < r then Searching(t.right, Step(path, p, t.red, false, t.left), p.right, r, lower)
              else Searching(t.left, Step(path, p, t.red, true, t.right), p.left, r, p)
    {
      hide *;
      KeyOfRoot(t, path, p, r, lower);
      var lo, k, hi := tree.Places(t, path);
      NarrowStep(ord, tree.Order(), lo, hi, k, r, lower);
      SearchMoves(t, path, r, lower, lo, k, hi);
    }

    lemma KeyOfRoot(t: Shape, path: Path, p: Node, r: real, lower: Node?)
      requires Valid() && Searching(t, path, p, r, lower)
      ensures t.Branch? && t.n == p == Root(t) && Zip(path, t) == tree.shape && p.pos == ord(p.pair.key) &&
          Keyed(ord, tree.Order())
      ensures Narrowed(tree.Order(), |Before(path)|, |Before(path)| + |InOrder(t)|, r, lower)
    {
      tree.Descend(t, path);
      ContentsSorted();
    }

    lemma SearchMoves(t: Shape, path: Path, r: real, lower: Node?, lo: nat, k: nat, hi: nat)
      requires Searching(t, path, Root(t), r, lower) && t.Branch?
      requires k == lo + |InOrder(t.left)| && hi == k + 1 + |InOrder(t.right)|
      requires |Before(Step(path, t.n, t.red, true, t.right))| == lo &&
          |Before(Step(path, t.n, t.red, false, t.left))| == k + 1
      ensures Narrowed(tree.Order(), k + 1, hi, r, lower) ==>
          Searching(t.right, Step(path, t.n, t.red, false, t.left), t.n.right, r, lower)
      ensures Narrowed(tree.Order(), lo, k, r, t.n) ==>
          Searching(t.left, Step(path, t.n, t.red, true, t.right), t.n.left, r, t.n)
    {
      hide At, IsTree, IsPath, Zip, InOrder, Before, Narrowed;
      tree.Descend(t, path);
    }

    lemma SearchStart(r: real)
      requires Valid()
      ensures Searching(tree.shape, Top, tree.root, r, null)
    {
      tree.Start();
    }

    lemma SearchEnd(t: Shape, path: Path, r: real, lower: Node?)
      requires Valid() && Searching(t, path, null, r, lower)
      ensures |Before(path)| == Lb(ord, Contents(), r)
      ensures var k := |Before(path)|; k <= |Contents()| && lower == if k < |Contents()| then tree.Order()[k] else null
    {
      ContentsSorted();
      LbIs(ord, Contents(), r, |Before(path)|);
    }

    /** The descent of `mtree_lower_bound`. */
    method Search(key: Bytes) returns (lower: Node?, ghost k: nat)
      requires Valid()
      ensures k == Lb(ord, Contents(), ord(key)) && lower == if k < |Contents()| then tree.Order()[k] else null
    {
      var p: Node? := tree.root;
      lower := null;
      ghost var t, path := tree.shape, Top;
      SearchStart(ord(key));
      hide Searching;
      while p != null
        invariant Searching(t, path, p, ord(key), lower)
        decreases t
      {
        SearchStep(t, path, p, ord(key), lower);
        var cmp := Cmp(ord, p.pair.key, key);
        if cmp >= 0 {
          t, path := t.left, Step(path, p, t.red, true, t.right);
          lower := p;
          p := p.left;
        } else {
          t, path := t.right, Step(path, p, t.red, false, t.left);
          p := p.right;
        }
      }
      k := |Before(path)|;
      SearchEnd(t, path, ord(key), lower);
    }

    /** The same for the other descent: `upper` comes before the subtree still to search. */
    ghost predicate SearchingUp(t: Shape, path: Path, p: Node?, r: real, upper: Node?)
      reads this, tree, tree.nodes
    {
      && At(tree.Links(), t, path, tree.root) && Zip(path, t) == tree.shape && p == Root(t)
      && NarrowedUp(tree.Order(), |Before(path)|, |Before(path)| + |InOrder(t)|, r, upper)
    }

    lemma UpStep(t: Shape, path: Path, p: Node, r: real, upper: Node?)
      requires Valid() && SearchingUp(t, path, p, r, upper)
      ensures t.Branch? && p.pos == ord(p.pair.key)
      ensures if p.pos <= r then SearchingUp(t.right, Step(path, p, t.red, false, t.left), p.right, r, p)
              else SearchingUp(t.left, Step(path, p, t.red, true, t.right), p.left, r, upper)
    {
      hide At, IsTree, IsPath, Zip, InOrder, Before, NarrowedUp, Valid;
      ContentsSorted();
      tree.Descend(t, path);
      var lo, k, hi := tree.Places(t, path);
      NarrowUpStep(ord, tree.Order(), lo, hi, k, r, upper);
    }

    lemma UpEnd(t: Shape, path: Path, r: real, upper: Node?)
      requires Valid() && SearchingUp(t, path, null, r, upper)
      ensures |Before(path)| == Ub(ord, Contents(), r)
      ensures var k := |Before(path)|; upper == if k > 0 then tree.Order()[k - 1] else null
    {
      hide Ub, At, Zip;
      ContentsSorted();
      UbIs(ord, Contents(), r, |Before(path)|);
    }

    /** The descent of `mtree_upper_bound`: the last node whose key is not above `key`. */
    method SearchUp(key: Bytes) returns (upper: Node?, ghost k: nat)
      requires Valid()
      ensures k == Ub(ord, Contents(), ord(key)) && upper == if k > 0 then tree.Order()[k - 1] else null
    {
      var p: Node? := tree.root;
      upper := null;
      ghost var t, path := tree.shape, Top;
      tree.Start();
      hide SearchingUp;
      assert SearchingUp(t, path, p, ord(key), upper) by { UpStart(ord(key)); }
      while p != null
        invariant SearchingUp(t, path, p, ord(key), upper)
        decreases t
      {
        UpStep(t, path, p, ord(key), upper);
        var cmp := Cmp(ord, p.pair.key, key);
        if cmp <= 0 {
          t, path := t.right, Step(path, p, t.red, false, t.left);
          upper := p;
          p := p.right;
        } else {
          t, path := t.left, Step(path, p, t.red, true, t.right);
          p := p.left;
        }
      }
      k := |Before(path)|;
      UpEnd(t, path, ord(key), upper);
    }

    lemma UpStart(r: real)
      requires Valid()
      ensures SearchingUp(tree.shape, Top, tree.root, r, null)
    {
      tree.Start();
    }

    lemma ContentsSorted()
      requires Valid()
      ensures Sorted(ord, Contents())
      ensures Keyed(ord, tree.Order())
    {
      tree.NodesOfLinks();
    }

    /** `mtree_reset`. */
    method Reset()
      modifies this, tree
      ensures Valid() && Contents() == [] && bytes == 0 && tree.nodes == {}
    {
      tree.root, tree.nodes, tree.shape := null, {}, Leaf;
      bytes := 0;
    }

    method IsEmpty() returns (empty: bool)
      requires Valid()
      ensures empty == (Contents() == [])
    {
      empty := tree.root == null;
    }

    /** `mtree_swap`. */
    method Swap(other: MTree)
      requires Valid() && other.Valid() && ord == other.ord && this != other && tree != other.tree
      modifies this, other, tree, other.tree
      ensures Valid() && other.Valid()
      ensures Contents() == old(other.Contents()) && other.Contents() == old(Contents())
      ensures tree.nodes == old(other.tree.nodes) && other.tree.nodes == old(tree.nodes)
      ensures bytes == old(other.bytes) && other.bytes == old(bytes)
    {
      bytes, other.bytes := other.bytes, bytes;
      tree.Swap(other.tree);
    }

    /** `mtree_add`. */
    method Add(key: Bytes, val: Bytes)
      requires Valid()
      modifies this, tree, tree.nodes
      ensures Valid() && Contents() == Put(ord, old(Contents()), Pair(key, val))
      ensures bytes == old(bytes) + |key| + |val|
      ensures fresh(tree.nodes - old(tree.nodes))
    {
      var node := new Node(Pair(key, val), ord(key));
      Insert(node);
      bytes := bytes + |key| + |val|;
    }

    /** `__mtree_insert`. */
    method Insert(node: Node)
      requires Valid() && node !in tree.nodes && node.pos == ord(node.pair.key)
      modifies tree, tree.nodes, node
      ensures Valid() && Contents() == Put(ord, old(Contents()), node.pair)
      ensures tree.nodes <= old(tree.nodes) + {node}
    {
      hide At, IsTree, IsPath, IsRb, Zip, InOrder, Keyed, Put;
      ghost var order := tree.Order();
      ghost var t, p := tree.shape, Top;
      var parent: Node?, asLeft, old' := null, false, tree.root;
      ContentsSorted();
      tree.Start();
      while old' != null
        invariant At(tree.Links(), t, p, tree.root) && Zip(p, t) == tree.shape
        invariant old' == Root(t) && parent == Above(p) && (p.Step? ==> asLeft == p.goLeft)
        invariant Lo(p) < node.pos < Hi(p)
        modifies {}
        decreases t
      {
        tree.Descend(t, p);
        var cmp := Cmp(ord, old'.pair.key, node.pair.key);
        if cmp == 0 {
          break;
        }
        parent := old';
        if cmp < 0 {
          asLeft, old' := false, parent.right;
          t, p := t.right, Step(p, t.n, t.red, false, t.left);
        } else {
          asLeft, old' := true, parent.left;
          t, p := t.left, Step(p, t.n, t.red, true, t.right);
        }
      }
      if old' != null {
        tree.Descend(t, p);
        ghost var k := tree.SwapNodes(old', node);
        PutBySwap(ord, order, k, node);
      } else {
        ghost var k := tree.Add(node, parent, asLeft, p);
        tree.NodesOfLinks();
        PutByAdd(ord, order, k, node);
      }
    }
  }

  ghost predicate Keyed(ord: Order, order: seq<Node>) {
    Increasing(order) && forall i :: 0 <= i < |order| ==> order[i].pos == ord(order[i].pair.key)
  }

  lemma PutBySwap(ord: Order, order: seq<Node>, k: nat, node: Node)
    requires Keyed(ord, order) && k < |order| && node.pos == ord(node.pair.key) == order[k].pos
    ensures PairsOf(order[k := node]) == Put(ord, PairsOf(order), node.pair)
  {
    LbIs(ord, PairsOf(order), node.pos, k);
  }

  lemma InsertIncreasing(order: seq<Node>, k: nat, node: Node)
    requires k <= |order| && Increasing(order[..k] + [node] + order[k..])
    ensures forall i :: 0 <= i < k ==> order[i].pos < node.pos
    ensures k < |order| ==> node.pos < order[k].pos
  {
    var s := order[..k] + [node] + order[k..];
    assert s[k] == node && (k < |order| ==> s[k + 1] == order[k]);
    assert forall i :: 0 <= i < k ==> s[i] == order[i];
  }

  lemma PairsOfInsert(order: seq<Node>, k: nat, node: Node)
    requires k <= |order|
    ensures PairsOf(order[..k] + [node] + order[k..]) == PairsOf(order)[..k] + [node.pair] + PairsOf(order)[k..]
  {
  }

  lemma PutByAdd(ord: Order, order: seq<Node>, k: nat, node: Node)
    requires k <= |order| && Keyed(ord, order) && node.pos == ord(node.pair.key)
    requires Increasing(order[..k] + [node] + order[k..])
    ensures PairsOf(order[..k] + [node] + order[k..]) == Put(ord, PairsOf(order), node.pair)
  {
    InsertIncreasing(order, k, node);
    hide Increasing;
    LbIs(ord, PairsOf(order), node.pos, k);
    PairsOfInsert(order, k, node);
  }

  /** `struct mtree_iter`. `at` is the place of the cursor in the order; the place after the last
      pair is the end, where there is no node. */
  class MtreeIter {
    const mtree: MTree
    var node: Node?
    ghost var at: nat

    ghost predicate Valid()
      reads this, mtree, mtree.tree, mtree.tree.nodes
    {
      && mtree.Valid()
      && at <= |mtree.tree.Order()|
      && node == if at < |mtree.tree.Order()| then mtree.tree.Order()[at] else null
    }

    ghost function Contents(): seq<Pair>
      reads mtree, mtree.tree
    {
      mtree.Contents()
    }

    /** `mtree_iter_setup`. */
    constructor (mtree: MTree)
      requires mtree.Valid()
      ensures Valid() && this.mtree == mtree && at == |mtree.Contents()|
    {
      this.mtree := mtree;
      node, at := null, |mtree.tree.Order()|;
    }

    method Begin()
      requires Valid()
      modifies this
      ensures Valid() && at == 0
    {
      node := mtree.tree.Leftmost();
      at := 0;
    }

    method End()
      requires Valid()
      modifies this
      ensures Valid() && at == |Contents()|
    {
      node, at := null, |mtree.tree.Order()|;
    }

    /** `mtree_lower_bound`: the first pair whose key is not below `key`. */
    method LowerBound(key: Bytes)
      requires Valid()
      modifies this
      ensures Valid() && at == Lb(mtree.ord, Contents(), mtree.ord(key))
    {
      hide MTree.Valid, RbTree.Order, PairsOf, Lb;
      node, at := mtree.Search(key);
    }

    /** `mtree_upper_bound`: the last pair whose key is not above `key`, or the end if there is none. */
    method UpperBound(key: Bytes)
      requires Valid()
      modifies this
      ensures var k := Ub(mtree.ord, Contents(), mtree.ord(key));
              Valid() && at == if k > 0 then k - 1 else |Contents()|
    {
      hide MTree.Valid, RbTree.Order, PairsOf, Ub;
      ghost var k;
      node, k := mtree.SearchUp(key);
      at := if k > 0 then k - 1 else |mtree.tree.Order()|;
    }

    /** `mtree_lookup`. */
    method Lookup(key: Bytes) returns (found: int)
      requires Valid()
      modifies this
      ensures Valid() && found == if Get(mtree.ord, Contents(), mtree.ord(key)).Some? then 1 else 0
      ensures at == if found == 1 then Lb(mtree.ord, Contents(), mtree.ord(key)) else |Contents()|
    {
      hide MTree.Valid, RbTree.Order, PairsOf, Lb;
      LowerBound(key);
      if node != null && Cmp(mtree.ord, node.pair.key, key) != 0 {
        node, at := null, |mtree.tree.Order()|;
      }
      found := if node != null then 1 else 0;
    }

    /** `mtree_next`: one place on; at the end it stays and says so. */
    method Next() returns (rc: int)
      requires Valid()
      modifies this
      ensures Valid() && at == (if old(at) < |Contents()| then old(at) + 1 else old(at))
      ensures rc == if old(at) < |Contents()| then 0 else -ENOENT
    {
      if node == null { return -ENOENT; }
      var n := Forward();
      node, at := n, at + 1;
      rc := 0;
    }

    method Forward() returns (n: Node?)
      requires Valid() && node != null
      ensures n == if at + 1 < |mtree.tree.Order()| then mtree.tree.Order()[at + 1] else null
    {
      mtree.tree.NodesOfLinks();
      hide At, IsRb, Members, Increasing, InOrder;
      ghost var place;
      n, place := mtree.tree.Next(node);
      SamePlace(mtree.tree.Order(), place, at);
    }

    /** `mtree_prev`: one place back; on the first place, or in an empty tree, it stays and says so. */
    method Prev() returns (rc: int)
      requires Valid()
      modifies this
      ensures Valid() && at == (if old(at) > 0 then old(at) - 1 else 0)
      ensures rc == if old(at) > 0 then 0 else -ENOENT
    {
      var n: Node?;
      ghost var k;
      rc, n, k := Back();
      node, at := n, k;
    }

    method Back() returns (rc: int, n: Node?, ghost k: nat)
      requires Valid()
      ensures k == (if at > 0 then at - 1 else 0) && rc == if at > 0 then 0 else -ENOENT
      ensures n == if k < |mtree.tree.Order()| then mtree.tree.Order()[k] else null
    {
      ghost var order := mtree.tree.Order();
      mtree.tree.NodesOfLinks();
      hide At, IsRb, Members, Increasing, InOrder;
      n, k := node, at;
      var first := mtree.tree.Leftmost();
      if node == first {
        if node != null { SamePlace(order, 0, at); }
        return -ENOENT, n, k;
      }
      if node == null {
        n := mtree.tree.Rightmost();
      } else {
        ghost var place;
        n, place := mtree.tree.Prev(node);
        SamePlace(order, place, at);
      }
      rc, k := 0, at - 1;
    }

    /** `mtree_key` and `mtree_val`. */
    method Item() returns (item: Option<Pair>)
      requires Valid()
      ensures item == if at < |Contents()| then Some(Contents()[at]) else None
    {
      item := if node == null then None else Some(node.pair);
    }
  }

  /** The wanted place is one of `lo` to `hi`, and `lower` is the node at `hi`. */
  ghost predicate Narrowed(order: seq<Node>, lo: nat, hi: nat, r: real, lower: Node?) {
    && lo <= hi <= |order|
    && (forall i :: 0 <= i < lo ==> order[i].pos < r)
    && if hi == |order| then lower == null else lower == order[hi] && r <= order[hi].pos
  }

  lemma NarrowStep(ord: Order, order: seq<Node>, lo: nat, hi: nat, k: nat, r: real, lower: Node?)
    requires Narrowed(order, lo, hi, r, lower) && lo <= k < hi && Keyed(ord, order)
    ensures if order[k].pos < r then Narrowed(order, k + 1, hi, r, lower) else Narrowed(order, lo, k, r, order[k])
  {
  }

  /** The nodes before `lo` are not above `r`, those from `hi` are, and `upper` comes just before `lo`. */
  ghost predicate NarrowedUp(order: seq<Node>, lo: nat, hi: nat, r: real, upper: Node?) {
    && lo <= hi <= |order|
    && (forall i :: 0 <= i < lo ==> order[i].pos <= r) && (hi < |order| ==> r < order[hi].pos)
    && upper == if lo > 0 then order[lo - 1] else null
  }

  lemma NarrowUpStep(ord: Order, order: seq<Node>, lo: nat, hi: nat, k: nat, r: real, upper: Node?)
    requires NarrowedUp(order, lo, hi, r, upper) && lo <= k < hi && Keyed(ord, order)
    ensures if order[k].pos <= r then NarrowedUp(order, k + 1, hi, r, order[k]) else NarrowedUp(order, lo, k, r, upper)
  {
  }

  lemma SamePlace(order: seq<Node>, i: nat, j: nat)
    requires Increasing(order) && i < |order| && j < |order| && order[i] == order[j]
    ensures i == j
  {
  }
}
