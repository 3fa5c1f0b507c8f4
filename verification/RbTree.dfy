/** The red-black tree of `util/rbtree.c`, in place on heap nodes. */
module RbTree {
  import opened Pairs
  import opened RbShape
  import opened RbRules
  import opened RbErase

  class RbTree {
    var root: Node?
    ghost var nodes: set<Node>
    ghost var shape: Shape

    /** What the links of all nodes say now. */
    ghost function Links(): Store
      reads this`nodes, nodes
    {
      map n | n in nodes :: RbShape.Links(n.left, n.right, n.parent, n.red)
    }

    constructor ()
      ensures root == null && nodes == {} && shape == Leaf
    {
      root, nodes, shape := null, {}, Leaf;
    }

    /** `rb_rotate_left`: the assignments, and exactly what they change. */
    method RelinkLeft(x: Node)
      requires x in nodes && x.right != null && x.right in nodes && x != x.right
      requires x.right.left != null ==> x.right.left in nodes && x.right.left != x && x.right.left != x.right
      requires x.parent != null ==> x.parent in nodes && x.parent != x && x.parent != x.right && x.parent != x.right.left
      modifies this`root, nodes
      ensures Rotated(old(Links()), Links(), true, x, old(x.right), old(root), root)
    {
      var p := x.parent;
      var r := x.right;
      x.right := r.left;
      if x.right != null { x.right.parent := x; }
      r.left := x;
      r.parent := p;
      if p != null {
        if p.left == x { p.left := r; } else { p.right := r; }
      } else {
        root := r;
      }
      x.parent := r;
    }

    /** `rb_rotate_right`. */
    method RelinkRight(x: Node)
      requires x in nodes && x.left != null && x.left in nodes && x != x.left
      requires x.left.right != null ==> x.left.right in nodes && x.left.right != x && x.left.right != x.left
      requires x.parent != null ==> x.parent in nodes && x.parent != x && x.parent != x.left && x.parent != x.left.right
      modifies this`root, nodes
      ensures Rotated(old(Links()), Links(), false, x, old(x.left), old(root), root)
    {
      var p := x.parent;
      var l := x.left;
      x.left := l.right;
      if x.left != null { x.left.parent := x; }
      l.right := x;
      l.parent := p;
      if p != null {
        if p.left == x { p.left := l; } else { p.right := l; }
      } else {
        root := l;
      }
      x.parent := l;
    }

    method RotateLeft(x: Node, ghost t: Shape, ghost p: Path)
      requires At(Links(), t, p, root) && t.Branch? && t.n == x && t.right.Branch?
      modifies this`root, nodes
      ensures At(Links(), RotL(t), p, root)
    {
      ghost var m := Links();
      RotateLeftFacts(m, t, p, root);
      hide At, Rotated;
      RelinkLeft(x);
      RotateLeftAt(m, Links(), t, p, old(root), root);
    }

    method RotateRight(x: Node, ghost t: Shape, ghost p: Path)
      requires At(Links(), t, p, root) && t.Branch? && t.n == x && t.left.Branch?
      modifies this`root, nodes
      ensures At(Links(), RotR(t), p, root)
    {
      ghost var m := Links();
      RotateRightFacts(m, t, p, root);
      hide At, Rotated;
      RelinkRight(x);
      RotateRightAt(m, Links(), t, p, old(root), root);
    }

    static lemma RotateLeftFacts(m: Store, t: Shape, p: Path, root: Node?)
      requires At(m, t, p, root) && t.Branch? && t.right.Branch?
      ensures t.n in m && t.right.n in m && m[t.n].right == t.right.n && t.n != t.right.n
      ensures var b := m[t.right.n].left; b != null ==> b in m && b != t.n && b != t.right.n
      ensures var q := m[t.n].parent; q != null ==> q in m && q != t.n && q != t.right.n && q != m[t.right.n].left
    {
      RootIn(m, t.right, t.n, t.n.pos, Hi(p));
      RootIn(m, t.right.left, t.right.n, t.n.pos, t.right.n.pos);
      PathEnds(m, p, t.n, root);
    }

    static lemma RotateRightFacts(m: Store, t: Shape, p: Path, root: Node?)
      requires At(m, t, p, root) && t.Branch? && t.left.Branch?
      ensures t.n in m && t.left.n in m && m[t.n].left == t.left.n && t.n != t.left.n
      ensures var b := m[t.left.n].right; b != null ==> b in m && b != t.n && b != t.left.n
      ensures var q := m[t.n].parent; q != null ==> q in m && q != t.n && q != t.left.n && q != m[t.left.n].right
    {
      RootIn(m, t.left, t.n, Lo(p), t.n.pos);
      RootIn(m, t.left.right, t.left.n, t.left.n.pos, t.n.pos);
      PathEnds(m, p, t.n, root);
    }
 
    /* ---------- Linking and inserting ---------- */

    /** `rb_link`: hangs a new red node at an empty place. */
    method Link(node: Node, parent: Node?, asLeft: bool, ghost p: Path)
      requires At(Links(), Leaf, p, root) && node !in nodes && Lo(p) < node.pos < Hi(p)
      requires parent == Above(p) && (p.Step? ==> asLeft == p.goLeft)
      modifies this, node, nodes
      ensures nodes == old(nodes) + {node} && shape == old(shape)
      ensures At(Links(), Branch(Leaf, node, true, Leaf), p, root)
    {
      ghost var m := Links();
      PathEnds(m, p, null, root);
      hide At;
      node.parent, node.red := parent, true;
      node.left, node.right := null, null;
      if parent == null {
        root := node;
      } else if asLeft {
        parent.left := node;
      } else {
        parent.right := node;
      }
      nodes := nodes + {node};
      LinkAt(m, Links(), node, p, old(root), root);
    }

    static lemma LinkAt(m: Store, m': Store, node: Node, p: Path, root: Node?, root': Node?)
      requires At(m, Leaf, p, root) && Lo(p) < node.pos < Hi(p)
      requires node in m' && m'[node] == RbShape.Links(null, null, Above(p), true)
      requires forall n :: n in m && n != node && n != Above(p) ==> n in m' && m'[n] == m[n]
      requires if p.Top? then root' == node
               else root' == root && p.n in m && p.n in m' &&
                    m'[p.n] == if p.goLeft then m[p.n].(left := node) else m[p.n].(right := node)
      ensures At(m', Branch(Leaf, node, true, Leaf), p, root')
    {
      RehangHole(m, m', p, null, node, root, root');
    }

    /** What the code reads on its way up from a subtree. */
    static lemma View(m: Store, t: Shape, p: Path, root: Node?)
      requires At(m, t, p, root)
      ensures t.Branch? ==> t.n in m && m[t.n] == RbShape.Links(Root(t.left), Root(t.right), Above(p), t.red)
      ensures p.Step? ==> p.n in m && m[p.n].red == p.red && m[p.n].parent == Above(p.up)
      ensures p.Step? && p.goLeft ==> m[p.n].left == Root(t) && m[p.n].right == Root(p.sib)
      ensures p.Step? && !p.goLeft ==> m[p.n].right == Root(t) && m[p.n].left == Root(p.sib)
      ensures p.Step? && (t.Branch? || p.sib.Branch?) ==> Root(t) != Root(p.sib)
      ensures p.Step? && p.sib.Branch? ==>
                p.sib.n in m && m[p.sib.n] == RbShape.Links(Root(p.sib.left), Root(p.sib.right), p.n, p.sib.red) &&
                    p.sib.n != p.n
      ensures p.Top? ==> root == Root(t)
    {
      RootIn(m, t, Above(p), Lo(p), Hi(p));
      if p.Step? {
        if p.goLeft {
          RootIn(m, p.sib, p.n, p.n.pos, Hi(p.up));
        } else {
          RootIn(m, p.sib, p.n, Lo(p.up), p.n.pos);
        }
      }
    }
 
    /** The subtree two steps up, and the nodes in it that an insertion step recolours. */
    static lemma Ascend2(m: Store, t: Shape, p: Path, root: Node?)
      requires At(m, t, p, root) && p.Step? && p.up.Step?
      ensures At(m, Fill(p.up, Fill(p, t)), p.up.up, root)
    {
      hide At;
      Ascend(m, t, p, root);
      Ascend(m, Fill(p, t), p.up, root);
    }

    /** Three calls of `rb_set_color`. */
    method Paint3(n: Node, l: Node?, r: Node?, red: bool, leftRed: bool, rightRed: bool)
      requires n in nodes && (l != null ==> l in nodes && l != n && l != r) && (r != null ==> r in nodes && r != n)
      modifies nodes
      ensures Dyed(old(Links()), Links(), n, red)
      ensures Dyed(old(Links()), Links(), l, leftRed) && Dyed(old(Links()), Links(), r, rightRed)
      ensures forall o :: o in nodes && o != n && o != l && o != r ==> Links()[o] == old(Links())[o]
    {
      n.red := red;
      if l != null { l.red := leftRed; }
      if r != null { r.red := rightRed; }
    }

    /** `rb_set_color`. */
    method DyeNode(n: Node, red: bool, ghost t: Shape, ghost p: Path)
      requires At(Links(), t, p, root) && t.Branch? && t.n == n
      modifies nodes
      ensures At(Links(), Dye(t, red), p, root)
    {
      ghost var m := Links();
      View(m, t, p, root);
      hide At, Dye;
      n.red := red;
      DyeOneAt(m, Links(), t, p, root, red);
    }

    /** Dyes a node and its two children. */
    method Dye3Nodes(n: Node, red: bool, leftRed: bool, rightRed: bool, ghost t: Shape, ghost p: Path)
      requires At(Links(), t, p, root) && t.Branch? && t.n == n
      modifies nodes
      ensures At(Links(), Dye3(t, red, leftRed, rightRed), p, root)
    {
      ghost var m := Links();
      View(m, t, p, root);
      Kids(m, t, p, root);
      hide At, Dye3, Dyed;
      Paint3(n, n.left, n.right, red, leftRed, rightRed);
      DyeAt(m, Links(), t, p, root, red, leftRed, rightRed);
    }

    static lemma Kids(m: Store, t: Shape, p: Path, root: Node?)
      requires At(m, t, p, root) && t.Branch?
      ensures t.left.Branch? ==> t.left.n in m && t.left.n != t.n && t.left.n != Root(t.right) && m[t.left.n].red == t.left.red
      ensures t.right.Branch? ==> t.right.n in m && t.right.n != t.n && m[t.right.n].red == t.right.red
    {
      RootIn(m, t.left, t.n, Lo(p), t.n.pos);
      RootIn(m, t.right, t.n, t.n.pos, Hi(p));
    }
 
    /* ---------- rb_insert ---------- */

    /** One turn of the loop with a red uncle: the conflict moves two levels up. */
    method InsertFlip(g: Node, ghost t: Shape, ghost p: Path)
      requires At(Links(), t, p, root) && p.Step? && p.up.Step? && g == p.up.n
      modifies nodes
      ensures At(Links(), Flipped(t, p), p.up.up, root)
    {
      Ascend2(Links(), t, p, root);
      Dye3Nodes(g, true, false, false, Fill(p.up, Fill(p, t)), p.up.up);
    }

    /** The last turn when the parent is a left child: one or two rotations. */
    method InsertTurnLeft(node: Node, parent: Node, g: Node, ghost t: Shape, ghost path: Path)
      requires At(Links(), t, path, root) && t.Branch? && t.n == node
      requires path.Step? && path.up.Step? && path.up.goLeft && parent == path.n && g == path.up.n
      modifies this`root, nodes
      ensures At(Links(), Turned(t, path), path.up.up, root)
    {
      var p := parent;
      View(Links(), t, path, root);
      Ascend(Links(), t, path, root);
      hide At, IsTree, IsPath;
      if node == p.right {
        RotateLeft(p, Fill(path, t), path.up);
        p := node;
      }
      ghost var s := Fill(path.up, Straight(t, path));
      Ascend(Links(), Straight(t, path), path.up, root);
      RotateRight(g, s, path.up.up);
      View(Links(), RotR(s), path.up.up, root);
      Kids(Links(), RotR(s), path.up.up, root);
      Dye3Nodes(p, false, p.left.red, true, RotR(s), path.up.up);
    }

    /** The same when the parent is a right child. */
    method InsertTurnRight(node: Node, parent: Node, g: Node, ghost t: Shape, ghost path: Path)
      requires At(Links(), t, path, root) && t.Branch? && t.n == node
      requires path.Step? && path.up.Step? && !path.up.goLeft && parent == path.n && g == path.up.n
      modifies this`root, nodes
      ensures At(Links(), Turned(t, path), path.up.up, root)
    {
      var p := parent;
      View(Links(), t, path, root);
      Ascend(Links(), t, path, root);
      hide At, IsTree, IsPath;
      if node == p.left {
        RotateRight(p, Fill(path, t), path.up);
        p := node;
      }
      ghost var s := Fill(path.up, Straight(t, path));
      Ascend(Links(), Straight(t, path), path.up, root);
      RotateLeft(g, s, path.up.up);
      View(Links(), RotL(s), path.up.up, root);
      Kids(Links(), RotL(s), path.up.up, root);
      Dye3Nodes(p, false, true, p.right.red, RotL(s), path.up.up);
    }

    function Red(n: Node?): bool
      reads n
    {
      n != null && n.red
    }

    /** `rb_insert`: repairs a tree in which the red `node` may hang under a red parent. */
    method Insert(start: Node, ghost t0: Shape, ghost p0: Path)
      requires At(Links(), t0, p0, root) && t0.Branch? && t0.n == start && InsertInv(t0, p0)
      modifies this`root, this`shape, nodes
      ensures At(Links(), shape, Top, root) && IsRb(shape)
      ensures InOrder(shape) == Before(p0) + InOrder(t0) + After(p0)
    {
      hide At, IsTree, IsPath, Settled, InsertInv, Flipped, Turned, InOrder, Zip, Fill;
      ghost var t, path := t0, p0;
      View(Links(), t, path, root);
      var node := start;
      var p := node.parent;
      while Red(p)
        invariant At(Links(), t, path, root) && t.Branch? && t.n == node && p == Above(path)
        invariant InsertInv(t, path) && InOrder(Zip(path, t)) == InOrder(Zip(p0, t0))
        decreases path
      {
        InsertView(Links(), t, path, root);
        var g := p.parent;
        if p == g.left {
          var r := g.right;
          if Red(r) {
            InsertFlip(g, t, path);
            FlipKeeps(t, path);
            node := g;
          } else {
            InsertTurnLeft(node, p, g, t, path);
            TurnRestores(t, path);
            t, path := Turned(t, path), path.up.up;
            break;
          }
        } else {
          var l := g.left;
          if Red(l) {
            InsertFlip(g, t, path);
            FlipKeeps(t, path);
            node := g;
          } else {
            InsertTurnRight(node, p, g, t, path);
            TurnRestores(t, path);
            t, path := Turned(t, path), path.up.up;
            break;
          }
        }
        FlippedRoot(t, path);
        t, path := Flipped(t, path), path.up.up;
        View(Links(), t, path, root);
        p := node.parent;
      }
      if !Settled(t, path) {
        View(Links(), t, path, root);
        InsertSettled(t, path);
      }
      BlackenRoot(t, path);
      ZipOrder(p0, t0);
    }

    method BlackenRoot(ghost t: Shape, ghost path: Path)
      requires At(Links(), t, path, root) && Settled(t, path)
      modifies this`shape, nodes
      ensures At(Links(), shape, Top, root) && IsRb(shape) && InOrder(shape) == InOrder(Zip(path, t))
    {
      hide At, IsTree, IsPath, Settled, Zip;
      SettledRb(t, path);
      ZipAt(Links(), t, path, root);
      View(Links(), Zip(path, t), Top, root);
      DyeNode(root, false, Zip(path, t), Top);
      shape := Dye(Zip(path, t), false);
    }

    /** What a turn of the insertion loop reads. */
    static lemma InsertView(m: Store, t: Shape, p: Path, root: Node?)
      requires At(m, t, p, root) && InsertInv(t, p) && p.Step? && m[p.n].red
      ensures p.red && p.up.Step? && p.up.n in m && m[p.n].parent == p.up.n && (m[p.up.n].left == p.n <==> p.up.goLeft)
      ensures var u := if p.up.goLeft then m[p.up.n].right else m[p.up.n].left;
              u == Root(p.up.sib) && (u != null ==> u in m && m[u].red == p.up.sib.red)
    {
      hide At, IsTree, IsPath, InsertInv;
      View(m, t, p, root);
      InsertHasGrandparent(t, p);
      Ascend(m, t, p, root);
      View(m, Fill(p, t), p.up, root);
    }

    static lemma FlippedRoot(t: Shape, p: Path)
      requires p.Step? && p.up.Step?
      ensures Flipped(t, p).Branch? && Flipped(t, p).n == p.up.n
    {
    }
 
    /* ---------- rb_erase ---------- */

    /** Red sibling: recolour and rotate, so that the child gets a black one. `left` says on which
        side of `parent` the child hangs. */
    method FixRedSib(parent: Node, left: bool, ghost t: Shape, ghost path: Path)
      requires At(Links(), t, path, root) && FixInv(t, path) && !IsRed(t)
      requires path.Step? && path.n == parent && path.goLeft == left && IsRed(path.sib)
      modifies this`root, nodes
      ensures At(Links(), t, BlackSib(path), root)
      ensures FixInv(t, BlackSib(path)) && !IsRed(BlackSib(path).sib)
      ensures InOrder(Zip(BlackSib(path), t)) == InOrder(Zip(path, t))
    {
      hide At, IsTree, IsPath, FixInv, RotAt;
      ghost var s := Fill(path, t);
      BlackSibKeeps(t, path);
      SibExists(t, path);
      Ascend(Links(), t, path, root);
      Dye3Nodes(parent, true, false, false, s, path.up);
      if left {
        RotateLeft(parent, Dye3(s, true, false, false), path.up);
      } else {
        RotateRight(parent, Dye3(s, true, false, false), path.up);
      }
      BlackSibAt(Links(), t, path, root);
    }
 
    static lemma BlackSibAt(m: Store, t: Shape, p: Path, root: Node?)
      requires p.Step? && p.sib.Branch? && !IsRed(t)
      requires At(m, RotAt(p, Dye3(Fill(p, t), true, false, false)), p.up, root)
      ensures At(m, t, BlackSib(p), root)
    {
      var r := RotAt(p, Dye3(Fill(p, t), true, false, false));
      var b := p.sib;
      assert Dye(t, false) == t;
      if p.goLeft {
        assert r == Branch(Branch(t, p.n, true, b.left), b.n, false, b.right);
        hide At;
        DescendLeft(m, r, p.up, root);
        DescendLeft(m, r.left, BlackSib(p).up, root);
      } else {
        assert r == Branch(b.left, b.n, false, Branch(b.right, p.n, true, t));
        hide At;
        DescendRight(m, r, p.up, root);
        DescendRight(m, r.right, BlackSib(p).up, root);
      }
    }

    /** Black sibling with black children: it turns red. */
    method FixReddenSib(b: Node, ghost t: Shape, ghost path: Path)
      requires At(Links(), t, path, root) && path.Step? && path.sib.Branch? && path.sib.n == b
      modifies nodes
      ensures At(Links(), RedSib(t, path), path.up, root)
    {
      hide At;
      ToSib(Links(), t, path, root);
      DyeNode(b, true, path.sib, Across(t, path));
      ToSib(Links(), Dye(path.sib, true), Across(t, path), root);
      Ascend(Links(), t, path.(sib := Dye(path.sib, true)), root);
    }

    /** Black sibling whose far child is black: rotate it, so that the far child is red. */
    method FixRotateSib(b: Node, left: bool, ghost t: Shape, ghost path: Path)
      requires At(Links(), t, path, root) && path.Step? && path.goLeft == left
      requires path.sib.Branch? && path.sib.n == b && Near(path).Branch?
      modifies this`root, nodes
      ensures At(Links(), t, path.(sib := FarSib(path)), root)
    {
      hide At;
      ghost var s, q := path.sib, Across(t, path);
      ToSib(Links(), t, path, root);
      Kids(Links(), s, q, root);
      View(Links(), s, q, root);
      if left {
        var far := Red(b.right);
        Dye3Nodes(b, true, false, far, s, q);
        RotateRight(b, Dye3(s, true, false, far), q);
      } else {
        var far := Red(b.left);
        Dye3Nodes(b, true, far, false, s, q);
        RotateLeft(b, Dye3(s, true, far, false), q);
      }
      ToSib(Links(), FarSib(path), q, root);
    }

    /** Black sibling whose far child is red: the last rotation pays the missing black node. */
    method FixLast(parent: Node, b: Node, left: bool, ghost t: Shape, ghost path: Path)
      requires At(Links(), t, path, root) && path.Step? && path.n == parent && path.goLeft == left
      requires path.sib.Branch? && path.sib.n == b
      modifies this`root, nodes
      ensures At(Links(), Repaired(t, path), path.up, root)
    {
      hide At;
      ghost var s, q := path.sib, Across(t, path);
      View(Links(), t, path, root);
      ToSib(Links(), t, path, root);
      Kids(Links(), s, q, root);
      View(Links(), s, q, root);
      if left {
        Dye3Nodes(b, parent.red, Red(b.left), false, s, q);
      } else {
        Dye3Nodes(b, parent.red, false, Red(b.right), s, q);
      }
      ToSib(Links(), LastSib(path), q, root);
      ghost var p' := path.(sib := LastSib(path));
      Ascend(Links(), t, p', root);
      DyeNode(parent, false, Fill(p', t), path.up);
      if left {
        RotateLeft(parent, Fill(p'.(red := false), t), path.up);
      } else {
        RotateRight(parent, Fill(p'.(red := false), t), path.up);
      }
    }
 
    /** What a turn of the repair loop reads. */
    static lemma FixView(m: Store, t: Shape, p: Path, root: Node?)
      requires At(m, t, p, root) && FixInv(t, p)
      ensures t.Branch? ==> t.n in m && m[t.n].red == t.red
      ensures Root(t) == root <==> p.Top?
      ensures p.Step? ==> p.n in m && m[p.n].parent == Above(p.up) && m[p.n].red == p.red && p.sib.Branch?
      ensures p.Step? ==> (Root(t) == m[p.n].left <==> p.goLeft) && p.sib.n in m
      ensures p.Step? ==> p.sib.n == (if p.goLeft then m[p.n].right else m[p.n].left) && m[p.sib.n].red == p.sib.red
      ensures p.Step? ==> m[p.sib.n].left == Root(p.sib.left) && m[p.sib.n].right == Root(p.sib.right)
      ensures p.Step? && p.sib.left.Branch? ==> p.sib.left.n in m && m[p.sib.left.n].red == p.sib.left.red
      ensures p.Step? && p.sib.right.Branch? ==> p.sib.right.n in m && m[p.sib.right.n].red == p.sib.right.red
    {
      View(m, t, p, root);
      if p.Step? {
        SibExists(t, p);
        ToSib(m, t, p, root);
        hide FixInv;
        Kids(m, p.sib, Across(t, p), root);
        RootOut(m, p, Root(t), root);
        RootIn(m, t, Above(p), Lo(p), Hi(p));
      }
    }

    /** Black sibling with a red child: the loop ends with two rotations at most. */
    method FixTurn(parent: Node, sib: Node, left: bool, ghost t: Shape, ghost path: Path) returns (ghost s: Shape)
      requires At(Links(), t, path, root) && FixInv(t, path) && !IsRed(t)
      requires path.Step? && path.n == parent && path.goLeft == left
      requires path.sib.Branch? && path.sib.n == sib && !IsRed(path.sib) &&
          (IsRed(path.sib.left) || IsRed(path.sib.right))
      modifies this`root, nodes
      ensures At(Links(), s, Top, root) && FixInv(s, Top) && InOrder(s) == InOrder(Zip(path, t))
    {
      hide At, IsTree, IsPath, FixInv, FarSib, Repaired, InOrder, Zip;
      var b := sib;
      ghost var p := path;
      FixView(Links(), t, p, root);
      if !Red(if left then b.right else b.left) {
        FarSibKeeps(t, p);
        FixRotateSib(b, left, t, p);
        p := p.(sib := FarSib(p));
        FixView(Links(), t, p, root);
        b := if left then parent.right else parent.left;
      }
      RepairRestores(t, p);
      FixLast(parent, b, left, t, p);
      ZipAt(Links(), Repaired(t, p), p.up, root);
      s := Zip(p.up, Repaired(t, p));
    }

    /** The blackening after the loop. */
    method FixBlacken(child: Node?, ghost t: Shape, ghost path: Path)
      requires At(Links(), t, path, root) && FixInv(t, path) && (IsRed(t) || path.Top?) && child == Root(t)
      modifies this`shape, nodes
      ensures At(Links(), shape, Top, root) && IsRb(shape) && InOrder(shape) == InOrder(Zip(path, t))
    {
      hide At, IsTree, IsPath, FixInv, InOrder, Zip;
      FixDone(t, path);
      if child != null {
        DyeNode(child, false, t, path);
      } else {
        assert Dye(t, false) == t;
      }
      ZipAt(Links(), Dye(t, false), path, root);
      shape := Zip(path, Dye(t, false));
    }

    /** `rb_erase_fix`: one black node is missing on every way through `child`, which may be null. */
    method EraseFix(child0: Node?, parent0: Node?, ghost t0: Shape, ghost path0: Path)
      requires At(Links(), t0, path0, root) && FixInv(t0, path0)
      requires child0 == Root(t0) && parent0 == Above(path0)
      modifies this`root, this`shape, nodes
      ensures At(Links(), shape, Top, root) && IsRb(shape)
      ensures InOrder(shape) == Before(path0) + InOrder(t0) + After(path0)
    {
      hide *;
      var child, parent := child0, parent0;
      ghost var t, path := t0, path0;
      FixLook(child, parent, t, path);
      while !Red(child) && child != root
        invariant At(Links(), t, path, root) && FixInv(t, path)
        invariant child == Root(t) && parent == Above(path)
        invariant Red(child) == IsRed(t) && (child == root <==> path.Top?)
        invariant InOrder(Zip(path, t)) == InOrder(Zip(path0, t0))
        decreases Depth(path), if IsRed(t) then 0 else 1
      {
        FixLook(child, parent, t, path);
        var left := child == parent.left;
        var b := if left then parent.right else parent.left;
        if Red(b) {
          BlackSibDepth(path);
          FixRedSib(parent, left, t, path);
          path := BlackSib(path);
          FixLook(child, parent, t, path);
          b := if left then parent.right else parent.left;
        }
        if !Red(b.left) && !Red(b.right) {
          RedSibKeeps(t, path);
          DepthUp(path);
          FixReddenSib(b, t, path);
          t, path := RedSib(t, path), path.up;
          ParentIs(parent, t, path);
          child, parent := parent, parent.parent;
          FixLook(child, parent, t, path);
        } else {
          t := FixTurn(parent, b, left, t, path);
          path, child := Top, root;
          TopIs(t);
          break;
        }
      }
      FixBlacken(child, t, path);
      ZipOrder(path0, t0);
    }

    /** What a turn of the repair loop reads. */
    lemma FixLook(child: Node?, parent: Node?, t: Shape, path: Path)
      requires At(Links(), t, path, root) && FixInv(t, path) && child == Root(t) && parent == Above(path)
      ensures Red(child) == IsRed(t) && (child == root <==> path.Top?)
      ensures path.Step? ==> parent == path.n && (child == parent.left <==> path.goLeft) && path.sib.Branch?
      ensures path.Step? ==> path.sib.n == (if path.goLeft then parent.right else parent.left)
      ensures path.Step? ==> Red(path.sib.n) == IsRed(path.sib)
      ensures path.Step? ==> Red(path.sib.n.left) == IsRed(path.sib.left) && Red(path.sib.n.right) == IsRed(path.sib.right)
    {
      hide At, IsTree, IsPath, FixInv;
      FixView(Links(), t, path, root);
    }

    lemma ParentIs(child: Node, t: Shape, path: Path)
      requires At(Links(), t, path, root) && Root(t) == child
      ensures child.parent == Above(path)
    {
      hide At, IsTree, IsPath;
      View(Links(), t, path, root);
    }

    lemma TopIs(t: Shape)
      requires At(Links(), t, Top, root)
      ensures root == Root(t) && Zip(Top, t) == t
    {
      hide At, IsTree, IsPath;
      View(Links(), t, Top, root);
    }

    static lemma BlackSibDepth(p: Path)
      requires p.Step? && p.sib.Branch?
      ensures BlackSib(p).Step? && BlackSib(p).red && Depth(BlackSib(p)) == Depth(p) + 1 &&
          Above(BlackSib(p)) == BlackSib(p).n == p.n
      ensures BlackSib(p).goLeft == p.goLeft
    {
    }

    static lemma DepthUp(p: Path)
      requires p.Step?
      ensures Depth(p.up) == Depth(p) - 1
    {
    }
 
    /* ---------- The tree as a sequence ---------- */

    ghost predicate Valid()
      reads this, nodes
    {
      && At(Links(), shape, Top, root) && IsRb(shape)
      && nodes == Members(InOrder(shape))
    }

    ghost function Order(): seq<Node>
      reads this`shape
    {
      InOrder(shape)
    }

    /** `__rb_leftmost`. */
    method LeftmostFrom(start: Node, ghost t0: Shape, ghost p0: Path) returns (node: Node)
      requires At(Links(), t0, p0, root) && t0.Branch? && t0.n == start
      ensures node == InOrder(t0)[0]
    {
      hide At, IsTree, IsPath;
      node := start;
      ghost var t, p := t0, p0;
      View(Links(), t, p, root);
      while node.left != null
        invariant At(Links(), t, p, root) && t.Branch? && t.n == node
        invariant node.left == Root(t.left) && InOrder(t)[0] == InOrder(t0)[0]
        decreases t
      {
        node := node.left;
        DescendLeft(Links(), t, p, root);
        t, p := t.left, Step(p, t.n, t.red, true, t.right);
        View(Links(), t, p, root);
      }
    }

    /** `__rb_rightmost`. */
    method RightmostFrom(start: Node, ghost t0: Shape, ghost p0: Path) returns (node: Node)
      requires At(Links(), t0, p0, root) && t0.Branch? && t0.n == start
      ensures node == InOrder(t0)[|InOrder(t0)| - 1]
    {
      hide At, IsTree, IsPath;
      node := start;
      ghost var t, p := t0, p0;
      View(Links(), t, p, root);
      while node.right != null
        invariant At(Links(), t, p, root) && t.Branch? && t.n == node
        invariant node.right == Root(t.right) && InOrder(t)[|InOrder(t)| - 1] == InOrder(t0)[|InOrder(t0)| - 1]
        decreases t
      {
        node := node.right;
        DescendRight(Links(), t, p, root);
        t, p := t.right, Step(p, t.n, t.red, false, t.left);
        View(Links(), t, p, root);
      }
    }

    method Leftmost() returns (node: Node?)
      requires Valid()
      ensures if Order() == [] then node == null else node == Order()[0]
    {
      hide At, IsTree, IsPath, IsRb;
      View(Links(), shape, Top, root);
      if root == null { return null; }
      node := LeftmostFrom(root, shape, Top);
    }

    method Rightmost() returns (node: Node?)
      requires Valid()
      ensures if Order() == [] then node == null else node == Order()[|Order()| - 1]
    {
      hide At, IsTree, IsPath, IsRb;
      View(Links(), shape, Top, root);
      if root == null { return null; }
      node := RightmostFrom(root, shape, Top);
    }

    /** `rb_next`. */
    method Next(node: Node) returns (next: Node?, ghost k: nat)
      requires Valid() && node in nodes
      ensures k < |Order()| && Order()[k] == node
      ensures next == if k + 1 < |Order()| then Order()[k + 1] else null
    {
      hide At, IsTree, IsPath, IsRb, Zip, Before;
      ghost var t, p := Locate(Links(), shape, Top, root, node);
      assert Zip(Top, shape) == shape by { TopIs(shape); }
      View(Links(), t, p, root);
      k := |Before(p)| + |InOrder(t.left)|;
      PlaceWithin(t, p, |InOrder(t.left)|);
      if node.right != null {
        DescendRight(Links(), t, p, root);
        PlaceWithin(t, p, |InOrder(t.left)| + 1);
        next := LeftmostFrom(node.right, t.right, Step(p, t.n, t.red, false, t.left));
        return;
      }
      var n := node;
      next := n.parent;
      while next != null && next.right == n
        invariant At(Links(), t, p, root) && Zip(p, t) == shape && t.Branch? && t.n == n && next == Above(p)
        invariant k + 1 == |Before(p)| + |InOrder(t)|
        decreases p
      {
        View(Links(), t, p, root);
        ClimbFromRight(t, p);
        Ascend(Links(), t, p, root);
        assert Zip(p.up, Fill(p, t)) == shape by { ZipUp(t, p); }
        t, p := Fill(p, t), p.up;
        View(Links(), t, p, root);
        n := next;
        next := n.parent;
      }
      View(Links(), t, p, root);
      PlaceAfter(t, p);
    }

    /** `rb_prev`. */
    method Prev(node: Node) returns (prev: Node?, ghost k: nat)
      requires Valid() && node in nodes
      ensures k < |Order()| && Order()[k] == node
      ensures prev == if k > 0 then Order()[k - 1] else null
    {
      hide At, IsTree, IsPath, IsRb, Zip, Before;
      ghost var t, p := Locate(Links(), shape, Top, root, node);
      assert Zip(Top, shape) == shape by { TopIs(shape); }
      View(Links(), t, p, root);
      k := |Before(p)| + |InOrder(t.left)|;
      PlaceWithin(t, p, |InOrder(t.left)|);
      if node.left != null {
        DescendLeft(Links(), t, p, root);
        PlaceWithin(t, p, |InOrder(t.left)| - 1);
        prev := RightmostFrom(node.left, t.left, Step(p, t.n, t.red, true, t.right));
        return;
      }
      var n := node;
      prev := n.parent;
      while prev != null && prev.left == n
        invariant At(Links(), t, p, root) && Zip(p, t) == shape && t.Branch? && t.n == n && prev == Above(p)
        invariant k == |Before(p)|
        decreases p
      {
        View(Links(), t, p, root);
        ClimbFromLeft(t, p);
        Ascend(Links(), t, p, root);
        assert Zip(p.up, Fill(p, t)) == shape by { ZipUp(t, p); }
        t, p := Fill(p, t), p.up;
        View(Links(), t, p, root);
        n := prev;
        prev := n.parent;
      }
      View(Links(), t, p, root);
      PlaceBefore(t, p);
    }

    static lemma ZipUp(t: Shape, p: Path)
      requires p.Step?
      ensures Zip(p.up, Fill(p, t)) == Zip(p, t)
    {
    }
 
    /* ---------- rb_swap_nodes ---------- */

    /** The assignments of `rb_swap_nodes`. */
    method RelinkSwap(old': Node, new': Node)
      requires old' in nodes && new' !in nodes
      requires old'.left != null ==> old'.left in nodes && old'.left != old' && old'.left != old'.right
      requires old'.right != null ==> old'.right in nodes && old'.right != old'
      requires var p := old'.parent; p != null ==> p in nodes && p != old' && p != old'.left && p != old'.right
      modifies this`root, this`nodes, nodes, new'
      ensures nodes == old(nodes) - {old'} + {new'}
      ensures Links()[new'] == old(Links())[old']
      ensures Reparented(old(Links()), Links(), old(old'.left), new') &&
          Reparented(old(Links()), Links(), old(old'.right), new')
      ensures Rehung(old(Links()), Links(), old(old'.parent), old', new', old(root), root)
      ensures forall n :: n in old(nodes) && n != old' && n != old(old'.left) && n != old(old'.right) && n != old(old'.parent) ==>
                            Links()[n] == old(Links())[n]
    {
      var parent := old'.parent;
      new'.left, new'.right, new'.parent, new'.red := old'.left, old'.right, old'.parent, old'.red;
      if new'.left != null { new'.left.parent := new'; }
      if new'.right != null { new'.right.parent := new'; }
      if parent != null {
        if parent.left == old' { parent.left := new'; } else { parent.right := new'; }
      } else {
        root := new';
      }
      nodes := nodes - {old'} + {new'};
    }

    /** Puts `new'` where `old'` is: same place, same shape, same colour. */
    method SwapNodes(old': Node, new': Node) returns (ghost k: nat)
      requires Valid() && old' in nodes && new' !in nodes && new'.pos == old'.pos
      modifies this, nodes, new'
      ensures Valid() && nodes == old(nodes) - {old'} + {new'}
      ensures k < |old(Order())| && old(Order())[k] == old' && Order() == old(Order())[k := new']
    {
      hide At, IsTree, IsPath, IsRb, Zip, InOrder, Members, Increasing;
      ghost var t, p := Find(old');
      k := SwapFacts(t, p, new');
      SwapHere(old', new', t, p);
      ZipAt(Links(), t.(n := new'), p, root);
      shape := Zip(p, t.(n := new'));
    }

    lemma SwapFacts(t: Shape, p: Path, new': Node) returns (k: nat)
      requires Valid() && t.Branch? && Zip(p, t) == shape
      ensures k < |Order()| && Order()[k] == t.n && IsRb(Zip(p, t.(n := new')))
      ensures InOrder(Zip(p, t.(n := new'))) == Order()[k := new']
      ensures Members(Order()[k := new']) == nodes - {t.n} + {new'}
    {
      hide At, Zip;
      NodesOfLinks();
      k := SwapOrder(t, p, new');
      MembersOfChange(Order(), k, new');
      SwapRb(t, p, new');
    }

    method SwapHere(old': Node, new': Node, ghost t: Shape, ghost p: Path)
      requires At(Links(), t, p, root) && t.Branch? && t.n == old' && new' !in nodes && new'.pos == old'.pos
      modifies this`root, this`nodes, nodes, new'
      ensures At(Links(), t.(n := new'), p, root) && nodes == old(nodes) - {old'} + {new'}
    {
      ghost var m := Links();
      View(m, t, p, root);
      Kids(m, t, p, root);
      FamilyApart(m, t, p, root);
      hide At, IsTree, IsPath, Rehung, Reparented;
      RelinkSwap(old', new');
      SwapAt(m, Links(), t, p, new', old(root), root);
    }

    /** Where a node is. */
    lemma Find(node: Node) returns (t: Shape, p: Path)
      requires Valid() && node in nodes
      ensures At(Links(), t, p, root) && Zip(p, t) == shape && t.Branch? && t.n == node
      ensures node.left == Root(t.left) && node.right == Root(t.right) && node.parent == Above(p) && node.red == t.red
      ensures t.left.Branch? ==> t.left.n in nodes
      ensures t.right.Branch? ==> t.right.n in nodes
      ensures p.Step? ==> p.n in nodes
      ensures Increasing(Order()) && nodes == Members(Order())
    {
      hide At, IsTree, IsPath, IsRb;
      t, p := Locate(Links(), shape, Top, root, node);
      TopIs(shape);
      View(Links(), t, p, root);
      Kids(Links(), t, p, root);
      NodesOfLinks();
    }

    static lemma FamilyApart(m: Store, t: Shape, p: Path, root: Node?)
      requires At(m, t, p, root) && t.Branch?
      ensures p.Step? ==> p.n in m && p.n != t.n && p.n != Root(t.left) && p.n != Root(t.right)
      ensures t.left.Branch? ==> t.left.n != t.n && t.left.n != Root(t.right)
      ensures t.right.Branch? ==> t.right.n != t.n
    {
      PathEnds(m, p, t.n, root);
      RootIn(m, t.left, t.n, Lo(p), t.n.pos);
      RootIn(m, t.right, t.n, t.n.pos, Hi(p));
    }

    lemma NodesOfLinks()
      requires Valid()
      ensures Increasing(Order()) && forall n :: n in Order() <==> n in nodes
    {
      TreeIncreasing(Links(), shape, null, 0.0, 1.0);
    }
 
    /* ---------- rb_erase: taking the node out ---------- */

    /** The assignments for a node with at most one child. */
    method RelinkOnly(node: Node) returns (c: Node?, p: Node?)
      requires node in nodes && (node.left == null || node.right == null)
      requires node.left != null ==> node.left in nodes && node.left != node
      requires node.right != null ==> node.right in nodes && node.right != node
      requires node.parent != null ==>
                 node.parent in nodes && node.parent != node && node.parent != node.left && node.parent != node.right
      modifies this`root, this`nodes, nodes
      ensures c == old(if node.left != null then node.left else node.right) && p == old(node.parent)
      ensures nodes == old(nodes) - {node}
      ensures Reparented(old(Links()), Links(), c, p) && Rehung(old(Links()), Links(), p, node, c, old(root), root)
      ensures forall n :: n in old(nodes) && n != node && n != c && n != p ==> Links()[n] == old(Links())[n]
    {
      p := node.parent;
      c := if node.left != null then node.left else node.right;
      if c != null { c.parent := p; }
      if p != null {
        if p.left == node { p.left := c; } else { p.right := c; }
      } else {
        root := c;
      }
      nodes := nodes - {node};
    }

    /** The end of `rb_erase`: what hung `node` up now hangs `x` up. */
    method Rehook(node: Node, x: Node)
      requires node in nodes && (node.parent != null ==> node.parent in nodes && node.parent != node)
      modifies this`root, this`nodes, nodes
      ensures nodes == old(nodes) - {node} && Rehooked(old(Links()), Links(), node, x, old(root), root)
    {
      if node.parent != null {
        if node.parent.left == node { node.parent.left := x; } else { node.parent.right := x; }
      } else {
        root := x;
      }
      nodes := nodes - {node};
    }

    /** `x`, the right child of `node` and its successor, takes over its links. */
    method MoveAdjacent(node: Node, x: Node) returns (c: Node?, p: Node)
      requires node in nodes && x in nodes && node.left != null && node.left in nodes && node.right != null &&
          node.right in nodes
      requires node.left.pos < node.pos < x.pos && x.left == null
      requires x.right != null ==> x.right in nodes && x.pos < x.right.pos
      requires x == node.right
      modifies nodes
      ensures c == old(x.right) && p == x && Moved(old(Links()), Links(), node, x)
    {
      c := x.right;
      p := x;
      x.left := node.left;
      x.parent, x.red := node.parent, node.red;
      x.left.parent := x;
    }

    /** `x`, the successor of `node` deeper down, takes over its links and leaves its own place to
        its right child. */
    method MoveDeep(node: Node, x: Node) returns (c: Node?, p: Node)
      requires node in nodes && x in nodes && node.left != null && node.left in nodes && node.right != null &&
          node.right in nodes
      requires node.left.pos < node.pos < x.pos && x.left == null
      requires x.right != null ==> x.right in nodes && x.pos < x.right.pos
      requires x != node.right && x.pos < node.right.pos && x.right != node.right
      requires x.parent != null && x.parent in nodes && x.parent.left == x && x.pos < x.parent.pos &&
          x.parent != x.right
      modifies nodes
      ensures c == old(x.right) && p == old(x.parent) && Moved(old(Links()), Links(), node, x)
    {
      c := x.right;
      p := x.parent;
      x.left, x.right, x.parent, x.red := node.left, node.right, node.parent, node.red;
      p.left := c;
      if c != null { c.parent := p; }
      x.left.parent := x;
      x.right.parent := x;
    }
 
    method TakeOnly(node: Node, ghost t: Shape, ghost q: Path) returns (c: Node?, p: Node?)
      requires At(Links(), t, q, root) && t.Branch? && t.n == node && (t.left.Leaf? || t.right.Leaf?)
      modifies this`root, this`nodes, nodes
      ensures nodes == old(nodes) - {node} && c == Root(OnlyChild(t)) && p == Above(q)
      ensures At(Links(), OnlyChild(t), q, root)
    {
      ghost var m := Links();
      View(m, t, q, root);
      Kids(m, t, q, root);
      FamilyApart(m, t, q, root);
      hide At, IsTree, IsPath, Rehung, Reparented;
      c, p := RelinkOnly(node);
      SpliceAt(m, Links(), t, q, old(root), root);
    }

    method TakeNext(node: Node, x: Node, ghost t: Shape, ghost q: Path, ghost s: Shape, ghost inner: Path)
        returns (c: Node?, p: Node, color: bool, ghost path: Path)
      requires NextBelow(Links(), t, q, s, inner, root) && t.n == node && s.n == x
      modifies this`root, this`nodes, nodes
      ensures nodes == old(nodes) - {node} && path == Append(inner, Step(q, x, t.red, false, t.left))
      ensures c == Root(s.right) && p == Above(path) && color == s.red
      ensures At(Links(), s.right, path, root)
    {
      hide At, IsTree, IsPath, NextBelow, Moved, Rehooked, Replaced, Append;
      ghost var m := Links();
      NextFacts(m, t, q, s, inner, root);
      color := x.red;
      c, p := TakePlace(node, x, t, q, s, inner);
      ghost var mid := Links();
      Rehook(node, x);
      ReplacedInSteps(m, mid, Links(), node, x, old(root), root);
      ReplaceAt(m, Links(), t, q, s, inner, old(root), root);
      path := Append(inner, Step(q, x, t.red, false, t.left));
    }

    /** The successor takes over the links of the node, and leaves its own place. */
    method TakePlace(node: Node, x: Node, ghost t: Shape, ghost q: Path, ghost s: Shape,
        ghost inner: Path) returns (c: Node?, p: Node)
      requires NextBelow(Links(), t, q, s, inner, root) && t.n == node && s.n == x
      modifies nodes
      ensures Moved(old(Links()), Links(), node, x) && Links()[node] == old(Links())[node]
      ensures c == Root(s.right) && p == Above(Append(inner, Step(q, x, t.red, false, t.left)))
    {
      hide At, IsTree, IsPath, NextBelow, Moved;
      ghost var m := Links();
      NextFacts(m, t, q, s, inner, root);
      if x == node.right {
        c, p := MoveAdjacent(node, x);
      } else {
        c, p := MoveDeep(node, x);
      }
      MovedKeeps(m, Links(), node, x);
    }

    static lemma MovedKeeps(m: Store, m': Store, node: Node, x: Node)
      requires node in m && x in m && Moved(m, m', node, x)
      requires x != node && m[node].left != node && m[x].right != node && (x != m[node].right ==>
          m[node].right != node && m[x].parent != node)
      ensures node in m' && m'[node] == m[node]
    {
    }

    /** The successor of a node with two children, and the way down to it. */
    lemma Successor(t: Shape, q: Path) returns (s: Shape, inner: Path)
      requires Valid() && At(Links(), t, q, root) && Zip(q, t) == shape
      requires t.Branch? && t.left.Branch? && t.right.Branch?
      ensures NextBelow(Links(), t, q, s, inner, root)
      ensures Zip(Append(inner, Step(q, t.n, t.red, false, t.left)), s) == Zip(q, t)
      ensures forall k :: 0 <= k < |Order()| && Order()[k] == t.n ==> k + 1 < |Order()| && Order()[k + 1] == s.n
    {
      hide At, IsTree, IsPath, IsRb;
      var outer := Step(q, t.n, t.red, false, t.left);
      DescendRight(Links(), t, q, root);
      s, inner := LeftmostWay(Links(), t.right, outer, root);
      assert Zip(outer, t.right) == Zip(q, t);
      PlaceWithin(t, q, |InOrder(t.left)|);
      PlaceWithin(t, q, |InOrder(t.left)| + 1);
      NodesOfLinks();
    }

    /** What is left after `node` is out: a subtree hanging at `path`, one black node short when the
        place that was given up was black. */
    ghost predicate Pending(c: Node?, p: Node?, color: bool, below: Shape, path: Path)
      reads this, nodes
    {
      && At(Links(), below, path, root) && c == Root(below) && p == Above(path)
      && if color then IsRb(Zip(path, below)) else FixInv(below, path)
    }

    method TakeOutOnly(node: Node) returns (c: Node?, p: Node?, color: bool, ghost below: Shape, ghost path: Path,
        ghost k: nat)
      requires Valid() && node in nodes && (node.left == null || node.right == null)
      modifies this`root, this`nodes, nodes
      ensures nodes == old(nodes) - {node} && Pending(c, p, color, below, path)
      ensures k < |Order()| && Order()[k] == node && Before(path) + InOrder(below) + After(path) == Without(Order(), k)
    {
      ghost var t, q := Find(node);
      SpliceRb(t, q);
      k := SpliceOrder(t, q);
      color := node.red;
      below, path := OnlyChild(t), q;
      hide At, IsTree, IsPath, IsRb, FixInv, Zip, InOrder, Before, After, OnlyChild, Without, Members;
      c, p := TakeOnly(node, t, q);
    }

    method TakeOutNext(node: Node) returns (c: Node?, p: Node?, color: bool, ghost below: Shape, ghost path: Path,
        ghost k: nat)
      requires Valid() && node in nodes && node.left != null && node.right != null
      modifies this`root, this`nodes, nodes
      ensures nodes == old(nodes) - {node} && Pending(c, p, color, below, path)
      ensures k < |Order()| && Order()[k] == node && Before(path) + InOrder(below) + After(path) == Without(Order(), k)
    {
      ghost var t, q := Find(node);
      ghost var s, inner := Successor(t, q);
      var x, place := Next(node);
      assert t.Branch? && s.Branch? && s.left.Leaf? && AllLeft(inner) && IsRb(Zip(q, t));
      hide At, IsTree, IsPath, IsRb, FixInv, Zip, InOrder, Before, After, Without, Members, NextBelow, Append;
      ReplaceRb(t, q, s, inner);
      k := ReplaceOrder(t, q, s, inner);
      below := s.right;
      c, p, color, path := TakeNext(node, x, t, q, s, inner);
    }

    /** The repair, if the place that was given up was black. */
    method FinishErase(c: Node?, p: Node?, color: bool, ghost below: Shape, ghost path: Path)
      requires Pending(c, p, color, below, path)
      modifies this`root, this`shape, nodes
      ensures At(Links(), shape, Top, root) && IsRb(shape) &&
          InOrder(shape) == Before(path) + InOrder(below) + After(path)
    {
      hide At, IsTree, IsPath, IsRb, FixInv, Zip, InOrder, Before, After;
      if !color {
        EraseFix(c, p, below, path);
      } else {
        ZipAt(Links(), below, path, root);
        shape := Zip(path, below);
        ZipOrder(path, below);
      }
    }

    /** `rb_erase`: removes exactly `node` from the order and leaves a red-black tree. */
    method Erase(node: Node) returns (ghost k: nat)
      requires Valid() && node in nodes
      modifies this, nodes
      ensures Valid() && nodes == old(nodes) - {node}
      ensures k < |old(Order())| && old(Order())[k] == node && Order() == Without(old(Order()), k)
    {
      ghost var order := Order();
      NodesOfLinks();
      assert nodes == Members(order);
      hide At, IsTree, IsPath, IsRb, Zip, InOrder, Before, After, Without, Members, Pending, Increasing;
      var c: Node?, p: Node?, color: bool;
      ghost var below, path;
      if node.left != null && node.right != null {
        c, p, color, below, path, k := TakeOutNext(node);
      } else {
        c, p, color, below, path, k := TakeOutOnly(node);
      }
      FinishErase(c, p, color, below, path);
      MembersOfChange(order, k, node);
    }
 
    /* ---------- rb_link and rb_insert together ---------- */

    /** Hangs `node` at an empty place found by a descent and repairs the tree. */
    method Add(node: Node, parent: Node?, asLeft: bool, ghost p: Path) returns (ghost k: nat)
      requires Valid() && At(Links(), Leaf, p, root) && Zip(p, Leaf) == shape
      requires node !in nodes && Lo(p) < node.pos < Hi(p) && parent == Above(p) && (p.Step? ==> asLeft == p.goLeft)
      modifies this, nodes, node
      ensures Valid() && nodes == old(nodes) + {node} && k == |Before(p)|
      ensures k <= |old(Order())| && Order() == old(Order())[..k] + [node] + old(Order())[k..]
    {
      UnzipRb(p, Leaf);
      ZipOrder(p, Leaf);
      k := |Before(p)|;
      var t := Branch(Leaf, node, true, Leaf);
      assert InsertInv(t, p) && InOrder(t) == [node];
      ghost var order := Order();
      assert order[..k] == Before(p) && order[k..] == After(p);
      MembersOfInsert(order, k, node);
      hide At, IsTree, IsPath, IsRb, Zip, InOrder, Before, After, Members, InsertInv;
      Link(node, parent, asLeft, p);
      Insert(node, t, p);
    }
 
    /** Swapping what two roots own, as a copy of the two structures does. */
    method Swap(other: RbTree)
      requires Valid() && other.Valid() && this != other
      modifies this, other
      ensures Valid() && other.Valid()
      ensures nodes == old(other.nodes) && other.nodes == old(nodes)
      ensures Order() == old(other.Order()) && other.Order() == old(Order())
    {
      hide At, IsRb;
      ghost var m, m' := Links(), other.Links();
      root, other.root := other.root, root;
      nodes, other.nodes := other.nodes, nodes;
      shape, other.shape := other.shape, shape;
      assert Links() == m' && other.Links() == m;
    }

    /** One step of a descent. */
    lemma Descend(t: Shape, p: Path)
      requires At(Links(), t, p, root) && t.Branch? && Zip(p, t) == shape
      ensures t.n in nodes && t.n.left == Root(t.left) && t.n.right == Root(t.right)
      ensures var q := Step(p, t.n, t.red, true, t.right); At(Links(), t.left, q, root) && Zip(q, t.left) == shape
      ensures var q := Step(p, t.n, t.red, false, t.left); At(Links(), t.right, q, root) && Zip(q, t.right) == shape
    {
      View(Links(), t, p, root);
      DescendLeft(Links(), t, p, root);
      DescendRight(Links(), t, p, root);
    }

    /** The place of a subtree's root, and of what lies on both sides of it. */
    lemma Places(t: Shape, p: Path) returns (lo: nat, k: nat, hi: nat)
      requires t.Branch? && Zip(p, t) == shape
      ensures lo == |Before(p)| && k == lo + |InOrder(t.left)| && hi == lo + |InOrder(t)| == k + 1 + |InOrder(t.right)|
      ensures k < |Order()| && Order()[k] == t.n
      ensures |Before(Step(p, t.n, t.red, true, t.right))| == lo &&
          |Before(Step(p, t.n, t.red, false, t.left))| == k + 1
    {
      PlaceWithin(t, p, |InOrder(t.left)|);
      lo, k, hi := |Before(p)|, |Before(p)| + |InOrder(t.left)|, |Before(p)| + |InOrder(t)|;
    }

    /** Where every descent starts. */
    lemma Start()
      requires Valid()
      ensures At(Links(), shape, Top, root) && Zip(Top, shape) == shape && root == Root(shape)
    {
      View(Links(), shape, Top, root);
    }
  }
}
