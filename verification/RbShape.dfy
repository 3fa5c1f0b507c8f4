/** The shape of a red-black tree: what the links between nodes spell, the red-black rules,
    and why each repair step of `util/rbtree.c` keeps them. Nothing here touches the heap. */
module RbShape {
  import opened Pairs

  /** A node of `struct rb_node` with the pair that `struct mtree_node` wraps around it.
      `pos` is the node's place in the order; it is fixed when the node is made. */
  class Node {
    const pair: Pair
    ghost const pos: Rank
    var left: Node?
    var right: Node?
    var parent: Node?
    var red: bool

    constructor (pair: Pair, ghost pos: Rank)
      ensures this.pair == pair && this.pos == pos
    {
      this.pair := pair;
      this.pos := pos;
      left, right, parent, red := null, null, null, true;
    }
  }

  datatype Links = Links(left: Node?, right: Node?, parent: Node?, red: bool)
  type Store = map<Node, Links>

  datatype Shape = Leaf | Branch(left: Shape, n: Node, red: bool, right: Shape)

  /** The way from the root down to a subtree, innermost step first. `sib` is what hangs on the
      other side of `n`. */
  datatype Path = Top | Step(up: Path, n: Node, red: bool, goLeft: bool, sib: Shape)

  ghost function Root(t: Shape): Node? {
    if t.Leaf? then null else t.n
  }

  ghost function Above(p: Path): Node? {
    if p.Top? then null else p.n
  }

  ghost function Fill(p: Path, t: Shape): Shape
    requires p.Step?
  {
    if p.goLeft then Branch(t, p.n, p.red, p.sib) else Branch(p.sib, p.n, p.red, t)
  }

  ghost function Zip(p: Path, t: Shape): Shape
    decreases p
  {
    if p.Top? then t else Zip(p.up, Fill(p, t))
  }

  /* ---------- Links spell a shape ---------- */

  ghost predicate IsTree(m: Store, t: Shape, parent: Node?, lo: real, hi: real) {
    match t
    case Leaf => true
    case Branch(l, n, red, r) =>
      n in m && m[n] == Links(Root(l), Root(r), parent, red) && lo < n.pos < hi &&
      IsTree(m, l, n, lo, n.pos) && IsTree(m, r, n, n.pos, hi)
  }

  /** The open interval of places that a path leaves for what hangs at its end. */
  ghost function Lo(p: Path): real {
    if p.Top? then 0.0 else if p.goLeft then Lo(p.up) else p.n.pos
  }

  ghost function Hi(p: Path): real {
    if p.Top? then 1.0 else if p.goLeft then p.n.pos else Hi(p.up)
  }

  ghost predicate IsSib(m: Store, p: Path)
    requires p.Step?
  {
    if p.goLeft then IsTree(m, p.sib, p.n, p.n.pos, Hi(p.up)) else IsTree(m, p.sib, p.n, Lo(p.up), p.n.pos)
  }

  ghost predicate IsPath(m: Store, p: Path, hole: Node?, root: Node?) {
    match p
    case Top => root == hole
    case Step(up, n, red, goLeft, s) =>
      n in m && m[n] == Links(if goLeft then hole else Root(s), if goLeft then Root(s) else hole, Above(up), red) &&
      Lo(up) < n.pos < Hi(up) && IsSib(m, p) && IsPath(m, up, n, root)
  }

  /** The whole tree is `t` hanging at the end of `p`. */
  ghost predicate At(m: Store, t: Shape, p: Path, root: Node?) {
    IsTree(m, t, Above(p), Lo(p), Hi(p)) && IsPath(m, p, Root(t), root)
  }

  ghost predicate SameIn(m: Store, m': Store, lo: real, hi: real) {
    forall n :: n in m && lo < n.pos < hi ==> n in m' && m[n] == m'[n]
  }

  lemma {:induction false} FrameTree(m: Store, m': Store, t: Shape, parent: Node?, lo: real, hi: real)
    requires IsTree(m, t, parent, lo, hi) && SameIn(m, m', lo, hi)
    ensures IsTree(m', t, parent, lo, hi)
  {
    if t.Branch? {
      FrameTree(m, m', t.left, t.n, lo, t.n.pos);
      FrameTree(m, m', t.right, t.n, t.n.pos, hi);
    }
  }

  /** Nothing outside the hole of `p` has changed, except perhaps the node right above it. */
  ghost predicate SameOut(m: Store, m': Store, p: Path) {
    forall n :: n in m && (n.pos <= Lo(p) || Hi(p) <= n.pos) && n != Above(p) ==> n in m' && m[n] == m'[n]
  }

  lemma {:induction false} FramePath(m: Store, m': Store, p: Path, hole: Node?, root: Node?)
    requires IsPath(m, p, hole, root) && SameOut(m, m', p)
    requires p.Step? ==> p.n in m' && m'[p.n] == m[p.n]
    ensures IsPath(m', p, hole, root)
  {
    if p.Step? {
      if p.goLeft {
        FrameTree(m, m', p.sib, p.n, p.n.pos, Hi(p.up));
      } else {
        FrameTree(m, m', p.sib, p.n, Lo(p.up), p.n.pos);
      }
      FramePath(m, m', p.up, p.n, root);
    }
  }

  /** Only the parent link of `c` has changed, to `p`. */
  ghost predicate Reparented(m: Store, m': Store, c: Node?, p: Node?) {
    c != null ==> c in m && c in m' && m'[c] == m[c].(parent := p)
  }

  /** The link of `p` that led to `was`, or the root when there is no `p`, now leads to `now`. */
  ghost predicate Rehung(m: Store, m': Store, p: Node?, was: Node?, now: Node?, root: Node?, root': Node?) {
    if p == null then root' == now
    else
      root' == root && p in m && p in m' &&
      m'[p] == if m[p].left == was then m[p].(left := now) else m[p].(right := now)
  }

  lemma Reparent(m: Store, m': Store, t: Shape, was: Node?, now: Node?, lo: real, hi: real)
    requires IsTree(m, t, was, lo, hi) && Reparented(m, m', Root(t), now)
    requires forall n :: n in m && lo < n.pos < hi && n != Root(t) ==> n in m' && m[n] == m'[n]
    ensures IsTree(m', t, now, lo, hi)
  {
    if t.Branch? {
      FrameTree(m, m', t.left, t.n, lo, t.n.pos);
      FrameTree(m, m', t.right, t.n, t.n.pos, hi);
    }
  }

  /** The same when the hole is told by its side. */
  lemma RehangHole(m: Store, m': Store, p: Path, was: Node?, now: Node?, root: Node?, root': Node?)
    requires IsPath(m, p, was, root) && SameOut(m, m', p)
    requires if p.Top? then root' == now
             else root' == root && p.n in m && p.n in m' &&
                  m'[p.n] == if p.goLeft then m[p.n].(left := now) else m[p.n].(right := now)
    ensures IsPath(m', p, now, root')
  {
    if p.Step? {
      if p.goLeft {
        FrameTree(m, m', p.sib, p.n, p.n.pos, Hi(p.up));
      } else {
        FrameTree(m, m', p.sib, p.n, Lo(p.up), p.n.pos);
      }
      FramePath(m, m', p.up, p.n, root);
    }
  }

  lemma Rehang(m: Store, m': Store, p: Path, was: Node, now: Node?, root: Node?, root': Node?)
    requires IsPath(m, p, was, root) && Lo(p) < was.pos < Hi(p)
    requires SameOut(m, m', p) && Rehung(m, m', Above(p), was, now, root, root')
    ensures IsPath(m', p, now, root')
  {
    if p.Step? {
      SibIn(m, p, was, root);
    }
    RehangHole(m, m', p, was, now, root, root');
  }

  /** The sibling's root is not in the hole. */
  lemma SibIn(m: Store, p: Path, hole: Node?, root: Node?)
    requires IsPath(m, p, hole, root) && p.Step?
    ensures p.sib.Branch? ==> p.sib.n in m && (p.sib.n.pos <= Lo(p) || Hi(p) <= p.sib.n.pos) && p.sib.n != p.n
  {
    if p.goLeft {
      RootIn(m, p.sib, p.n, p.n.pos, Hi(p.up));
    } else {
      RootIn(m, p.sib, p.n, Lo(p.up), p.n.pos);
    }
  }

  /* ---------- Moving the focus ---------- */

  lemma Ascend(m: Store, t: Shape, p: Path, root: Node?)
    requires At(m, t, p, root) && p.Step?
    ensures At(m, Fill(p, t), p.up, root)
  {
  }

  lemma DescendLeft(m: Store, t: Shape, p: Path, root: Node?)
    requires At(m, t, p, root) && t.Branch?
    ensures At(m, t.left, Step(p, t.n, t.red, true, t.right), root)
  {
  }

  lemma DescendRight(m: Store, t: Shape, p: Path, root: Node?)
    requires At(m, t, p, root) && t.Branch?
    ensures At(m, t.right, Step(p, t.n, t.red, false, t.left), root)
  {
  }

  /** The path to the sibling. */
  ghost function Across(t: Shape, p: Path): Path
    requires p.Step?
  {
    Step(p.up, p.n, p.red, !p.goLeft, t)
  }

  lemma ToSib(m: Store, t: Shape, p: Path, root: Node?)
    requires At(m, t, p, root) && p.Step?
    ensures At(m, p.sib, Across(t, p), root)
  {
  }

  lemma {:induction false} RootOut(m: Store, p: Path, hole: Node?, root: Node?)
    requires IsPath(m, p, hole, root) && p.Step?
    ensures root != null && root in m && (root.pos <= Lo(p) || Hi(p) <= root.pos)
  {
    if p.up.Step? {
      RootOut(m, p.up, p.n, root);
    }
  }

  lemma {:induction false} ZipAt(m: Store, t: Shape, p: Path, root: Node?)
    requires At(m, t, p, root)
    ensures At(m, Zip(p, t), Top, root)
    decreases p
  {
    if p.Step? {
      Ascend(m, t, p, root);
      ZipAt(m, Fill(p, t), p.up, root);
    }
  }

  /* ---------- Rotations and recolouring ---------- */

  ghost function RotL(t: Shape): Shape
    requires t.Branch? && t.right.Branch?
  {
    var Branch(a, x, xc, Branch(b, r, rc, c)) := t;
    Branch(Branch(a, x, xc, b), r, rc, c)
  }

  ghost function RotR(t: Shape): Shape
    requires t.Branch? && t.left.Branch?
  {
    var Branch(Branch(c, l, lc, b), x, xc, a) := t;
    Branch(c, l, lc, Branch(b, x, xc, a))
  }

  /** What the six assignments of a rotation at `x` do, `y` being the child that rises and `left`
      saying that it was the right child. */
  ghost predicate Rotated(m: Store, m': Store, left: bool, x: Node, y: Node, root: Node?, root': Node?)
    requires x in m && y in m
  {
    && m.Keys == m'.Keys
    && (var b := if left then m[y].left else m[y].right;
        && m'[x] == (if left then m[x].(right := b, parent := y) else m[x].(left := b, parent := y))
        && m'[y] == (if left then m[y].(left := x, parent := m[x].parent) else m[y].(right := x, parent := m[x].parent))
        && Reparented(m, m', b, x)
        && Rehung(m, m', m[x].parent, x, y, root, root')
        && forall n :: n in m && n != x && n != y && n != b && n != m[x].parent ==> m[n] == m'[n])
  }

  lemma RotateLeftTree(m: Store, m': Store, t: Shape, p: Node?, lo: real, hi: real, root: Node?, root': Node?)
    requires IsTree(m, t, p, lo, hi) && t.Branch? && t.right.Branch?
    requires IsTree(m, t.right, t.n, t.n.pos, hi)
    requires Rotated(m, m', true, t.n, t.right.n, root, root')
    requires p != null ==> p.pos <= lo || hi <= p.pos
    ensures IsTree(m', RotL(t), p, lo, hi)
  {
    var Branch(a, x, xc, Branch(b, r, rc, c)) := t;
    FrameTree(m, m', a, x, lo, x.pos);
    Reparent(m, m', b, r, x, x.pos, r.pos);
    FrameTree(m, m', c, r, r.pos, hi);
    assert IsTree(m', Branch(a, x, xc, b), r, lo, r.pos);
  }

  lemma RotateRightTree(m: Store, m': Store, t: Shape, p: Node?, lo: real, hi: real, root: Node?, root': Node?)
    requires IsTree(m, t, p, lo, hi) && t.Branch? && t.left.Branch?
    requires IsTree(m, t.left, t.n, lo, t.n.pos)
    requires Rotated(m, m', false, t.n, t.left.n, root, root')
    requires p != null ==> p.pos <= lo || hi <= p.pos
    ensures IsTree(m', RotR(t), p, lo, hi)
  {
    var Branch(Branch(c, l, lc, b), x, xc, a) := t;
    FrameTree(m, m', a, x, x.pos, hi);
    Reparent(m, m', b, l, x, l.pos, x.pos);
    FrameTree(m, m', c, l, lo, l.pos);
    assert IsTree(m', Branch(b, x, xc, a), l, l.pos, hi);
  }

  lemma RotateLeftAt(m: Store, m': Store, t: Shape, p: Path, root: Node?, root': Node?)
    requires At(m, t, p, root) && t.Branch? && t.right.Branch? && t.right.n in m
    requires Rotated(m, m', true, t.n, t.right.n, root, root')
    ensures At(m', RotL(t), p, root')
  {
    assert IsTree(m, t.right, t.n, t.n.pos, Hi(p));
    assert m[t.n].parent == Above(p) && m[t.n].right == t.right.n && m[t.right.n].left == Root(t.right.left);
    RotateLeftTree(m, m', t, Above(p), Lo(p), Hi(p), root, root');
    RootIn(m, t.right.left, t.right.n, t.n.pos, t.right.n.pos);
    hide IsTree;
    Rehang(m, m', p, t.n, t.right.n, root, root');
  }

  lemma RotateRightAt(m: Store, m': Store, t: Shape, p: Path, root: Node?, root': Node?)
    requires At(m, t, p, root) && t.Branch? && t.left.Branch? && t.left.n in m
    requires Rotated(m, m', false, t.n, t.left.n, root, root')
    ensures At(m', RotR(t), p, root')
  {
    assert IsTree(m, t.left, t.n, Lo(p), t.n.pos);
    assert m[t.n].parent == Above(p) && m[t.n].left == t.left.n && m[t.left.n].right == Root(t.left.right);
    RotateRightTree(m, m', t, Above(p), Lo(p), Hi(p), root, root');
    RootIn(m, t.left.right, t.left.n, t.left.n.pos, t.n.pos);
    hide IsTree;
    Rehang(m, m', p, t.n, t.left.n, root, root');
  }

  ghost function Dye(t: Shape, red: bool): Shape {
    if t.Leaf? then t else t.(red := red)
  }

  /** The subtree with its root and both children dyed. */
  ghost function Dye3(t: Shape, red: bool, leftRed: bool, rightRed: bool): Shape {
    if t.Leaf? then t else Branch(Dye(t.left, leftRed), t.n, red, Dye(t.right, rightRed))
  }

  ghost predicate Dyed(m: Store, m': Store, n: Node?, red: bool) {
    n != null ==> n in m && n in m' && m'[n] == m[n].(red := red)
  }

  ghost predicate Dyed3(m: Store, m': Store, t: Shape, red: bool, leftRed: bool, rightRed: bool)
    requires t.Branch?
  {
    && Dyed(m, m', t.n, red) && Dyed(m, m', Root(t.left), leftRed) && Dyed(m, m', Root(t.right), rightRed)
    && forall n :: n in m && n != t.n && n != Root(t.left) && n != Root(t.right) ==> n in m' && m[n] == m'[n]
  }

  lemma DyeAt(m: Store, m': Store, t: Shape, p: Path, root: Node?, red: bool, leftRed: bool, rightRed: bool)
    requires At(m, t, p, root) && t.Branch? && Dyed3(m, m', t, red, leftRed, rightRed)
    ensures At(m', Dye3(t, red, leftRed, rightRed), p, root)
  {
    DyeTop(m, m', t, Above(p), Lo(p), Hi(p), red, leftRed, rightRed);
    RootIn(m, t, Above(p), Lo(p), Hi(p));
    RootIn(m, t.left, t.n, Lo(p), t.n.pos);
    RootIn(m, t.right, t.n, t.n.pos, Hi(p));
    hide IsTree;
    PathEnds(m, p, t.n, root);
    FramePath(m, m', p, t.n, root);
  }

  lemma DyeTop(m: Store, m': Store, t: Shape, parent: Node?, lo: real, hi: real, red: bool, leftRed: bool,
      rightRed: bool)
    requires IsTree(m, t, parent, lo, hi) && t.Branch? && Dyed3(m, m', t, red, leftRed, rightRed)
    ensures IsTree(m', Dye3(t, red, leftRed, rightRed), parent, lo, hi)
  {
    RootIn(m, t, parent, lo, hi);
    RootIn(m, t.left, t.n, lo, t.n.pos);
    RootIn(m, t.right, t.n, t.n.pos, hi);
    DyeTree(m, m', t.left, t.n, lo, t.n.pos, leftRed);
    DyeTree(m, m', t.right, t.n, t.n.pos, hi, rightRed);
  }

  lemma RootIn(m: Store, t: Shape, parent: Node?, lo: real, hi: real)
    requires IsTree(m, t, parent, lo, hi)
    ensures t.Branch? ==> t.n in m && lo < t.n.pos < hi
  {
  }

  lemma DyeOneAt(m: Store, m': Store, t: Shape, p: Path, root: Node?, red: bool)
    requires At(m, t, p, root) && t.Branch? && Dyed(m, m', t.n, red)
    requires forall n :: n in m && n != t.n ==> n in m' && m[n] == m'[n]
    ensures At(m', Dye(t, red), p, root)
  {
    DyeTree(m, m', t, Above(p), Lo(p), Hi(p), red);
    PathEnds(m, p, t.n, root);
    RootIn(m, t, Above(p), Lo(p), Hi(p));
    hide IsTree;
    FramePath(m, m', p, t.n, root);
  }

  lemma DyeTree(m: Store, m': Store, t: Shape, parent: Node?, lo: real, hi: real, red: bool)
    requires IsTree(m, t, parent, lo, hi) && Dyed(m, m', Root(t), red)
    requires forall n :: n in m && lo < n.pos < hi && n != Root(t) ==> n in m' && m[n] == m'[n]
    ensures IsTree(m', Dye(t, red), parent, lo, hi)
  {
    if t.Branch? {
      FrameTree(m, m', t.left, t.n, lo, t.n.pos);
      FrameTree(m, m', t.right, t.n, t.n.pos, hi);
    }
  }

  /** The node above the hole lies outside the hole. */
  lemma PathEnds(m: Store, p: Path, hole: Node?, root: Node?)
    requires IsPath(m, p, hole, root)
    ensures p.Step? ==> p.n in m && (p.n.pos <= Lo(p) || Hi(p) <= p.n.pos)
  {
  }
}
