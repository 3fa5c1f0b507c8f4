/** Taking one node out of a red-black shape: the part of `rb_erase` before the repair. */
module RbErase {
  import opened RbShape
  import opened RbRules

  /** `inner` continued by `outer`. */
  ghost function Append(inner: Path, outer: Path): Path {
    if inner.Top? then outer else Step(Append(inner.up, outer), inner.n, inner.red, inner.goLeft, inner.sib)
  }

  ghost predicate AllLeft(p: Path) {
    p.Step? ==> p.goLeft && AllLeft(p.up)
  }

  /** The outermost node of a path. */
  ghost function First(p: Path): Node
    requires p.Step?
  {
    if p.up.Top? then p.n else First(p.up)
  }

  /* ---------- Finding the node ---------- */

  lemma {:induction false} Locate(m: Store, t: Shape, p: Path, root: Node?, n: Node) returns (s: Shape, q: Path)
    requires At(m, t, p, root) && n in InOrder(t)
    ensures At(m, s, q, root) && s.Branch? && s.n == n && Zip(q, s) == Zip(p, t)
    decreases t
  {
    if t.n == n {
      s, q := t, p;
    } else if n in InOrder(t.left) {
      DescendLeft(m, t, p, root);
      s, q := Locate(m, t.left, Step(p, t.n, t.red, true, t.right), root, n);
    } else {
      DescendRight(m, t, p, root);
      s, q := Locate(m, t.right, Step(p, t.n, t.red, false, t.left), root, n);
    }
  }

  lemma {:induction false} Widen(m: Store, t: Shape, parent: Node?, lo: real, hi: real, lo': real, hi': real)
    requires IsTree(m, t, parent, lo, hi) && lo' <= lo && hi <= hi'
    ensures IsTree(m, t, parent, lo', hi')
  {
    if t.Branch? {
      Widen(m, t.left, t.n, lo, t.n.pos, lo', t.n.pos);
      Widen(m, t.right, t.n, t.n.pos, hi, t.n.pos, hi');
    }
  }

  /* ---------- At most one child: the child takes the node's place ---------- */

  ghost function OnlyChild(t: Shape): Shape
    requires t.Branch?
  {
    if t.left.Branch? then t.left else t.right
  }

  lemma SpliceAt(m: Store, m': Store, t: Shape, p: Path, root: Node?, root': Node?)
    requires At(m, t, p, root) && t.Branch? && (t.left.Leaf? || t.right.Leaf?)
    requires Reparented(m, m', Root(OnlyChild(t)), Above(p)) &&
        Rehung(m, m', Above(p), t.n, Root(OnlyChild(t)), root, root')
    requires forall n :: n in m && n != t.n && n != Root(OnlyChild(t)) && n != Above(p) ==> n in m' && m[n] == m'[n]
    ensures At(m', OnlyChild(t), p, root')
  {
    var c := OnlyChild(t);
    var lo, hi := if t.left.Branch? then Lo(p) else t.n.pos, if t.left.Branch? then t.n.pos else Hi(p);
    PathEnds(m, p, t.n, root);
    Reparent(m, m', c, t.n, Above(p), lo, hi);
    Widen(m', c, Above(p), lo, hi, Lo(p), Hi(p));
    RootIn(m, c, t.n, lo, hi);
    hide IsTree;
    Rehang(m, m', p, t.n, Root(c), root, root');
  }

  /** Without the node the tree is still a red-black one if the node was red, and short of one
      black node if it was black. */
  lemma SpliceRb(t: Shape, p: Path)
    requires IsRb(Zip(p, t)) && t.Branch? && (t.left.Leaf? || t.right.Leaf?)
    ensures t.red ==> IsRb(Zip(p, OnlyChild(t)))
    ensures !t.red ==> FixInv(OnlyChild(t), p)
  {
    UnzipRb(p, t);
    var c := OnlyChild(t);
    assert Balanced(c) && RedOk(c) && Bh(t.left) == Bh(t.right) == Bh(c) == 0;
    if t.red {
      assert p.Step?;
      ZipRb(p, c);
    }
  }

  /* ---------- Two children: the successor takes the node's place ---------- */

  /** The leftmost node below a subtree's root. */
  lemma {:induction false} LeftmostWay(m: Store, t: Shape, p: Path, root: Node?) returns (s: Shape, inner: Path)
    requires At(m, t, p, root) && t.Branch?
    ensures AllLeft(inner) && At(m, s, Append(inner, p), root) && s.Branch? && s.left.Leaf?
    ensures Zip(Append(inner, p), s) == Zip(p, t)
    ensures if inner.Top? then s == t else First(inner) == t.n
    ensures InOrder(t)[0] == s.n
    decreases t
  {
    if t.left.Leaf? {
      s, inner := t, Top;
    } else {
      DescendLeft(m, t, p, root);
      var step := Step(Top, t.n, t.red, true, t.right);
      var i;
      s, i := LeftmostWay(m, t.left, Step(p, t.n, t.red, true, t.right), root);
      inner := Append(i, step);
      AppendAssoc(i, step, p);
    }
  }

  lemma {:induction false} AppendAssoc(i: Path, j: Path, p: Path)
    requires AllLeft(i) && AllLeft(j) && j.Step? && j.up.Top?
    ensures Append(Append(i, j), p) == Append(i, Append(j, p))
    ensures AllLeft(Append(i, j)) && Append(i, j).Step? && First(Append(i, j)) == j.n
  {
    if i.Step? {
      AppendAssoc(i.up, j, p);
    }
  }

  lemma {:induction false} AppendBounds(inner: Path, p: Path)
    requires AllLeft(inner)
    ensures Lo(Append(inner, p)) == Lo(p)
    ensures Hi(Append(inner, p)) == if inner.Top? then Hi(p) else inner.n.pos
  {
    if inner.Step? {
      AppendBounds(inner.up, p);
    }
  }

  lemma {:induction false} FirstIsLast(m: Store, inner: Path, p: Path, hole: Node?, root: Node?)
    requires AllLeft(inner) && inner.Step? && IsPath(m, Append(inner, p), hole, root)
    ensures inner.n.pos <= First(inner).pos < Hi(p)
    ensures inner.up.Step? ==> inner.n.pos < inner.up.n.pos <= First(inner).pos
    ensures First(inner) in m && m[First(inner)].parent == Above(p)
  {
    AppendBounds(inner.up, p);
    if inner.up.Step? {
      FirstIsLast(m, inner.up, p, inner.n, root);
    }
  }

  /** The path above the erased node, with another node in its place. */
  lemma OuterAt(m: Store, m': Store, q: Path, node: Node, x: Node, red: bool, l: Shape,
                hole: Node?, hole': Node?, root: Node?, root': Node?)
    requires IsPath(m, Step(q, node, red, false, l), hole, root) && node.pos < x.pos < Hi(q)
    requires x in m' && m'[x] == Links(Root(l), hole', Above(q), red)
    requires Reparented(m, m', Root(l), x) && Rehung(m, m', Above(q), node, x, root, root')
    requires SameOut(m, m', q)
    requires forall n :: n in m && Lo(q) < n.pos < node.pos && n != Root(l) ==> n in m' && m[n] == m'[n]
    ensures IsPath(m', Step(q, x, red, false, l), hole', root')
  {
    Reparent(m, m', l, node, x, Lo(q), node.pos);
    Widen(m', l, x, Lo(q), node.pos, Lo(q), x.pos);
    hide IsTree;
    Rehang(m, m', q, node, x, root, root');
  }

  /** The way from the right child down to the successor: only its two ends change. */
  lemma {:induction false} SegmentAt(m: Store, m': Store, inner: Path, q: Path, node: Node, x: Node, red: bool,
      l: Shape,
                                     hole: Node?, hole': Node?, root: Node?, root': Node?)
    requires AllLeft(inner) && inner.Step?
    requires IsPath(m, Append(inner, Step(q, node, red, false, l)), hole, root) && node.pos < x.pos < inner.n.pos
    requires inner.n in m' &&
             m'[inner.n] == Links(hole', Root(inner.sib), if inner.up.Top? then x else Above(inner.up), inner.red)
    requires forall n :: n in m && inner.n.pos < n.pos < Hi(q) ==>
               n in m' && m'[n] == if n == First(inner) then m[n].(parent := x) else m[n]
    requires IsPath(m', Step(q, x, red, false, l), First(inner), root')
    ensures IsPath(m', Append(inner, Step(q, x, red, false, l)), hole', root')
  {
    var old', new' := Step(q, node, red, false, l), Step(q, x, red, false, l);
    AppendBounds(inner.up, old');
    AppendBounds(inner.up, new');
    FirstIsLast(m, inner, old', hole, root);
    FrameTree(m, m', inner.sib, inner.n, inner.n.pos, Hi(Append(inner.up, old')));
    if inner.up.Step? {
      SegmentAt(m, m', inner.up, q, node, x, red, l, inner.n, inner.n, root, root');
    }
  }

  /** What the assignments of `rb_erase` change below `node` when `x`, its successor, replaces it. */
  ghost predicate Moved(m: Store, m': Store, node: Node, x: Node)
    requires node in m && x in m
  {
    var l, r, c, p := m[node].left, m[node].right, m[x].right, m[x].parent;
    && Reparented(m, m', l, x)
    && x in m'
    && (if x == r then m'[x] == m[node].(right := c) else
        && m'[x] == m[node]
        && Reparented(m, m', c, p)
        && p != null && p in m && p in m' && r != null && r in m && r in m'
        && m'[p] == (if p == r then m[p].(left := c, parent := x) else m[p].(left := c))
        && (p != r ==> m'[r] == m[r].(parent := x)))
    && forall n :: n in m && n != x && n != l && (x != r ==> n != r && n != c && n != p) ==> n in m' && m'[n] == m[n]
  }

  /** ... and above it. */
  ghost predicate Rehooked(m: Store, m': Store, node: Node, x: Node, root: Node?, root': Node?)
    requires node in m
  {
    && Rehung(m, m', m[node].parent, node, x, root, root')
    && forall n :: n in m && n != node && n != m[node].parent ==> n in m' && m'[n] == m[n]
  }

  ghost predicate Replaced(m: Store, m': Store, node: Node, x: Node, root: Node?, root': Node?)
    requires node in m && x in m
  {
    var l, r, c, p := m[node].left, m[node].right, m[x].right, m[x].parent;
    && Reparented(m, m', l, x)
    && Rehung(m, m', m[node].parent, node, x, root, root')
    && x in m'
    && (if x == r then m'[x] == m[node].(right := c) else
        && m'[x] == m[node]
        && Reparented(m, m', c, p)
        && p != null && p in m && p in m' && r != null && r in m && r in m'
        && m'[p] == (if p == r then m[p].(left := c, parent := x) else m[p].(left := c))
        && (p != r ==> m'[r] == m[r].(parent := x)))
    && forall n :: n in m && n != node && n != x && n != l && n != m[node].parent && (x != r ==> n != r && n != c && n != p) ==>
         n in m' && m'[n] == m[n]
  }

  lemma ReplacedInSteps(m: Store, mid: Store, m': Store, node: Node, x: Node, root: Node?, root': Node?)
    requires node in m && x in m && node in mid && Moved(m, mid, node, x) && Rehooked(mid, m', node, x, root, root')
    requires x != node && m[node].left != node && m[x].right != node && (x != m[node].right ==>
        m[node].right != node && m[x].parent != node)
    requires var q := m[node].parent;
             q != null ==> q in m && q != x && q != m[node].left && q != m[node].right && q != m[x].right && q != m[x].parent
    ensures Replaced(m, m', node, x, root, root')
  {
  }

  /** The situation of an erase with two children: `s` hangs below `t`, its root comes next. */
  ghost predicate NextBelow(m: Store, t: Shape, q: Path, s: Shape, inner: Path, root: Node?) {
    && At(m, t, q, root) && t.Branch? && t.left.Branch? && t.right.Branch?
    && AllLeft(inner) && s.Branch? && s.left.Leaf?
    && At(m, s, Append(inner, Step(q, t.n, t.red, false, t.left)), root)
    && if inner.Top? then s == t.right else First(inner) == t.right.n
  }

  lemma NextFacts(m: Store, t: Shape, q: Path, s: Shape, inner: Path, root: Node?)
    requires NextBelow(m, t, q, s, inner, root)
    ensures t.Branch? && t.left.Branch? && t.right.Branch? && s.Branch?
    ensures t.n in m && m[t.n] == Links(t.left.n, t.right.n, Above(q), t.red) &&
        Lo(q) < t.left.n.pos < t.n.pos < s.n.pos < Hi(q)
    ensures s.n in m && m[s.n] == Links(null, Root(s.right), if inner.Top? then t.n else inner.n, s.red) &&
        t.left.n in m
    ensures s.right.Branch? ==> s.right.n in m && s.n.pos < s.right.n.pos < if inner.Top? then Hi(q) else inner.n.pos
    ensures inner.Top? <==> s.n == t.right.n
    ensures inner.Step? ==> inner.n in m && s.n.pos < inner.n.pos <= t.right.n.pos < Hi(q) && t.right.n in m && m[t.right.n].parent == t.n
    ensures inner.Step? ==> m[inner.n] == Links(s.n, Root(inner.sib), if inner.up.Top? then t.n
        else inner.up.n, inner.red)
    ensures inner.Step? && inner.up.Step? ==> inner.n.pos < t.right.n.pos
    ensures q.Step? ==> q.n in m && (q.n.pos <= Lo(q) || Hi(q) <= q.n.pos)
  {
    var outer := Step(q, t.n, t.red, false, t.left);
    AppendBounds(inner, outer);
    RootIn(m, t.left, t.n, Lo(q), t.n.pos);
    RootIn(m, s.right, s.n, s.n.pos, Hi(Append(inner, outer)));
    PathEnds(m, q, t.n, root);
    if inner.Step? {
      FirstIsLast(m, inner, outer, s.n, root);
      AppendBounds(inner.up, outer);
    }
  }

  lemma ReplaceHere(m: Store, m': Store, t: Shape, q: Path, root: Node?, root': Node?)
    requires t.Branch? && t.right.Branch? && NextBelow(m, t, q, t.right, Top, root) && t.n in m && t.right.n in m
    requires Replaced(m, m', t.n, t.right.n, root, root')
    ensures At(m', t.right.right, Step(q, t.right.n, t.red, false, t.left), root')
  {
    var node, x, c := t.n, t.right.n, t.right.right;
    NextFacts(m, t, q, t.right, Top, root);
    assert IsPath(m, Step(q, node, t.red, false, t.left), x, root) && IsTree(m, c, x, x.pos, Hi(q));
    FrameTree(m, m', c, x, x.pos, Hi(q));
    hide IsTree;
    OuterAt(m, m', q, node, x, t.red, t.left, x, Root(c), root, root');
  }

  lemma ReplaceOuter(m: Store, m': Store, t: Shape, q: Path, s: Shape, inner: Path, root: Node?, root': Node?)
    requires NextBelow(m, t, q, s, inner, root) && inner.Step? && t.n in m && s.n in m
    requires Replaced(m, m', t.n, s.n, root, root')
    ensures IsPath(m', Step(q, s.n, t.red, false, t.left), t.right.n, root')
  {
    NextFacts(m, t, q, s, inner, root);
    assert IsPath(m, Step(q, t.n, t.red, false, t.left), t.right.n, root);
    hide IsTree, IsPath, NextBelow;
    OuterAt(m, m', q, t.n, s.n, t.red, t.left, t.right.n, t.right.n, root, root');
  }

  lemma ReplaceDeep(m: Store, m': Store, t: Shape, q: Path, s: Shape, inner: Path, root: Node?, root': Node?)
    requires NextBelow(m, t, q, s, inner, root) && inner.Step? && t.n in m && s.n in m
    requires Replaced(m, m', t.n, s.n, root, root')
    ensures At(m', s.right, Append(inner, Step(q, s.n, t.red, false, t.left)), root')
  {
    var node, x, c := t.n, s.n, s.right;
    var outer, outer' := Step(q, node, t.red, false, t.left), Step(q, x, t.red, false, t.left);
    NextFacts(m, t, q, s, inner, root);
    ReplaceOuter(m, m', t, q, s, inner, root, root');
    AppendBounds(inner, outer);
    AppendBounds(inner, outer');
    assert IsPath(m, Append(inner, outer), x, root) && IsTree(m, c, x, x.pos, inner.n.pos);
    hide IsTree, IsPath, NextBelow, Lo, Hi;
    Reparent(m, m', c, x, inner.n, x.pos, inner.n.pos);
    SegmentAt(m, m', inner, q, node, x, t.red, t.left, x, Root(c), root, root');
  }

  lemma ReplaceAt(m: Store, m': Store, t: Shape, q: Path, s: Shape, inner: Path, root: Node?, root': Node?)
    requires NextBelow(m, t, q, s, inner, root) && t.n in m && s.n in m
    requires Replaced(m, m', t.n, s.n, root, root')
    ensures At(m', s.right, Append(inner, Step(q, s.n, t.red, false, t.left)), root')
  {
    hide At, Replaced;
    if inner.Top? {
      ReplaceHere(m, m', t, q, root, root');
    } else {
      ReplaceDeep(m, m', t, q, s, inner, root, root');
    }
  }

  /* ---------- The rules and the order after the replacement ---------- */

  lemma {:induction false} AppendRb(inner: Path, p: Path, p': Path, h: nat)
    requires p.Step? && p'.Step? && p' == p.(n := p'.n) && PathRb(Append(inner, p), h)
    ensures PathRb(Append(inner, p'), h)
  {
    if inner.Step? {
      AppendRb(inner.up, p, p', h + if inner.red then 0 else 1);
    }
  }

  lemma {:induction false} AppendOrder(inner: Path, p: Path) returns (mid: seq<Node>)
    requires AllLeft(inner)
    ensures Before(Append(inner, p)) == Before(p) && After(Append(inner, p)) == mid + After(p)
    ensures forall p' :: Before(Append(inner, p')) == Before(p') && After(Append(inner, p')) == mid + After(p')
  {
    if inner.Top? {
      mid := [];
    } else {
      var m := AppendOrder(inner.up, p);
      mid := [inner.n] + InOrder(inner.sib) + m;
      forall p'
        ensures Before(Append(inner, p')) == Before(p') && After(Append(inner, p')) == mid + After(p')
      {
        assert [inner.n] + InOrder(inner.sib) + (m + After(p')) == mid + After(p');
      }
    }
  }

  lemma SpliceOrder(t: Shape, p: Path) returns (k: nat)
    requires t.Branch? && (t.left.Leaf? || t.right.Leaf?)
    ensures var order := InOrder(Zip(p, t));
            k < |order| && order[k] == t.n && Before(p) + InOrder(OnlyChild(t)) + After(p) == Without(order, k)
  {
    ZipOrder(p, t);
    k := |Before(p)| + |InOrder(t.left)|;
    assert InOrder(t) == InOrder(t.left) + [t.n] + InOrder(t.right);
    OnlyChildOrder(t);
    hide InOrder, Before, After, Zip, OnlyChild, Without;
    DropInside(Before(p), InOrder(t.left), t.n, InOrder(t.right), After(p));
  }

  lemma OnlyChildOrder(t: Shape)
    requires t.Branch? && (t.left.Leaf? || t.right.Leaf?)
    ensures InOrder(OnlyChild(t)) == InOrder(t.left) + InOrder(t.right)
  {
  }

  lemma DropInside(b: seq<Node>, l: seq<Node>, n: Node, r: seq<Node>, a: seq<Node>)
    ensures var order, k := b + (l + [n] + r) + a, |b| + |l|;
            k < |order| && order[k] == n && Without(order, k) == b + (l + r) + a
  {
    Regroup(b, l, [n] + r, a);
    Regroup(b, l, r, a);
    Reassoc([n], r, a);
    Reassoc(l, [n], r);
    Reassoc(b + l, [n], r + a);
    DropAt(b + l, n, r + a);
  }

  lemma Reassoc(a: seq<Node>, b: seq<Node>, c: seq<Node>)
    ensures (a + b) + c == a + (b + c)
  {
  }

  lemma Regroup(b: seq<Node>, l: seq<Node>, r: seq<Node>, a: seq<Node>)
    ensures b + (l + r) + a == (b + l) + (r + a)
  {
    Reassoc(b, l, r);
    Reassoc(b + l, r, a);
  }

  lemma DropBefore(b: seq<Node>, n: Node, x: Node, r: seq<Node>, a: seq<Node>)
    ensures var order, k := (b + [n]) + ([x] + r) + a, |b|;
            k < |order| && order[k] == n && Without(order, k) == (b + [x]) + r + a
  {
    Reassoc(b + [n], [x] + r, a);
    Reassoc(b, [x], r);
    Reassoc(b, [x] + r, a);
    DropAt(b, n, [x] + r + a);
  }

  lemma DropAt(front: seq<Node>, n: Node, back: seq<Node>)
    ensures Without(front + [n] + back, |front|) == front + back
  {
  }

  /** After a replacement the old order lacks exactly the replaced node. */
  lemma ReplaceOrder(t: Shape, q: Path, s: Shape, inner: Path) returns (k: nat)
    requires t.Branch? && s.Branch? && s.left.Leaf? && AllLeft(inner)
    requires Zip(Append(inner, Step(q, t.n, t.red, false, t.left)), s) == Zip(q, t)
    ensures var order, path := InOrder(Zip(q, t)), Append(inner, Step(q, s.n, t.red, false, t.left));
            k < |order| && order[k] == t.n && Before(path) + InOrder(s.right) + After(path) == Without(order, k)
  {
    var outer, outer' := Step(q, t.n, t.red, false, t.left), Step(q, s.n, t.red, false, t.left);
    ZipOrder(Append(inner, outer), s);
    var front, back := AroundNext(t, q, s, inner);
    k := |front|;
    assert InOrder(s) == [s.n] + InOrder(s.right);
    hide InOrder, Before, After, Zip, Append, AllLeft, Without;
    DropBefore(front, t.n, s.n, InOrder(s.right), back);
  }

  /** What lies before the replaced node and behind the successor's subtree, with either of them in
      its place. */
  lemma AroundNext(t: Shape, q: Path, s: Shape, inner: Path) returns (front: seq<Node>, back: seq<Node>)
    requires t.Branch? && s.Branch? && AllLeft(inner)
    ensures var path, path' := Append(inner, Step(q, t.n, t.red, false, t.left)), Append(inner, Step(q, s.n, t.red, false, t.left));
            && Before(path) == front + [t.n] && Before(path') == front + [s.n]
            && After(path) == After(path') == back
  {
    var outer, outer' := Step(q, t.n, t.red, false, t.left), Step(q, s.n, t.red, false, t.left);
    var mid := AppendOrder(inner, outer);
    front, back := Before(q) + InOrder(t.left), After(Append(inner, outer'));
  }

  lemma ReplaceRb(t: Shape, q: Path, s: Shape, inner: Path)
    requires t.Branch? && s.Branch? && s.left.Leaf?
    requires Zip(Append(inner, Step(q, t.n, t.red, false, t.left)), s) == Zip(q, t) && IsRb(Zip(q, t))
    ensures var path := Append(inner, Step(q, s.n, t.red, false, t.left));
            if s.red then IsRb(Zip(path, s.right)) else FixInv(s.right, path)
  {
    var outer, outer' := Step(q, t.n, t.red, false, t.left), Step(q, s.n, t.red, false, t.left);
    UnzipRb(Append(inner, outer), s);
    AppendRb(inner, outer, outer', Bh(s));
    assert Balanced(s.right) && RedOk(s.right) && Bh(s.left) == Bh(s.right) == 0;
    if s.red {
      ZipRb(Append(inner, outer'), s.right);
    }
  }

  /* ---------- One node for another in the same place ---------- */

  lemma SwapAt(m: Store, m': Store, t: Shape, p: Path, new': Node, root: Node?, root': Node?)
    requires At(m, t, p, root) && t.Branch? && new'.pos == t.n.pos && t.n in m
    requires new' in m' && m'[new'] == m[t.n]
    requires Reparented(m, m', Root(t.left), new') && Reparented(m, m', Root(t.right), new')
    requires Rehung(m, m', Above(p), t.n, new', root, root')
    requires forall n :: n in m && n != t.n && n != Root(t.left) && n != Root(t.right) && n != Above(p) ==>
               n in m' && m'[n] == m[n]
    ensures At(m', t.(n := new'), p, root')
  {
    hide IsTree, IsPath, Reparented;
    Parts(m, t, p, root);
    SwapParts(m, m', t, p, root);
    SwapTree(m, m', t, p, new', root);
    Rehang(m, m', p, t.n, new', root, root');
  }

  /** Where the neighbours of a node are. */
  lemma Parts(m: Store, t: Shape, p: Path, root: Node?)
    requires At(m, t, p, root) && t.Branch?
    ensures IsPath(m, p, t.n, root) && Lo(p) < t.n.pos < Hi(p)
    ensures IsTree(m, t.left, t.n, Lo(p), t.n.pos) && IsTree(m, t.right, t.n, t.n.pos, Hi(p))
    ensures m[t.n] == Links(Root(t.left), Root(t.right), Above(p), t.red)
  {
    hide IsPath, Lo, Hi;
  }

  lemma SwapParts(m: Store, m': Store, t: Shape, p: Path, root: Node?)
    requires At(m, t, p, root) && t.Branch?
    requires forall n :: n in m && n != t.n && n != Root(t.left) && n != Root(t.right) && n != Above(p) ==>
               n in m' && m'[n] == m[n]
    ensures SameOut(m, m', p) && (p.Step? ==> p.n.pos <= Lo(p) || Hi(p) <= p.n.pos)
    ensures t.left.Branch? ==> Lo(p) < t.left.n.pos < t.n.pos
    ensures t.right.Branch? ==> t.n.pos < t.right.n.pos < Hi(p)
  {
    hide IsPath, IsTree, Lo, Hi;
    Parts(m, t, p, root);
    PathEnds(m, p, t.n, root);
    RootIn(m, t.left, t.n, Lo(p), t.n.pos);
    RootIn(m, t.right, t.n, t.n.pos, Hi(p));
  }

  lemma SwapTree(m: Store, m': Store, t: Shape, p: Path, new': Node, root: Node?)
    requires t.Branch? && new'.pos == t.n.pos && t.n in m && new' in m' && m'[new'] == m[t.n]
    requires IsTree(m, t.left, t.n, Lo(p), t.n.pos) && IsTree(m, t.right, t.n, t.n.pos, Hi(p))
    requires m[t.n] == Links(Root(t.left), Root(t.right), Above(p), t.red) && Lo(p) < t.n.pos < Hi(p)
    requires p.Step? ==> (p.n.pos <= Lo(p) || Hi(p) <= p.n.pos)
    requires t.left.Branch? ==> Lo(p) < t.left.n.pos < t.n.pos
    requires t.right.Branch? ==> t.n.pos < t.right.n.pos < Hi(p)
    requires Reparented(m, m', Root(t.left), new') && Reparented(m, m', Root(t.right), new')
    requires forall n :: n in m && n != t.n && n != Root(t.left) && n != Root(t.right) && n != Above(p) ==>
               n in m' && m'[n] == m[n]
    ensures IsTree(m', t.(n := new'), Above(p), Lo(p), Hi(p))
  {
    hide Reparented, Lo, Hi;
    SwapSide(m, m', t.left, t, p, new', Lo(p), t.n.pos);
    SwapSide(m, m', t.right, t, p, new', t.n.pos, Hi(p));
  }

  lemma SwapSide(m: Store, m': Store, side: Shape, t: Shape, p: Path, new': Node, lo: real, hi: real)
    requires t.Branch? && IsTree(m, side, t.n, lo, hi) && Reparented(m, m', Root(side), new')
    requires forall n :: n in m && lo < n.pos < hi ==> n != t.n && n != Above(p)
    requires forall n :: n in m && lo < n.pos < hi && n != Root(side) ==> n != Root(t.left) && n != Root(t.right)
    requires forall n :: n in m && n != t.n && n != Root(t.left) && n != Root(t.right) && n != Above(p) ==>
               n in m' && m'[n] == m[n]
    ensures IsTree(m', side, new', lo, hi)
  {
    hide IsTree, Reparented;
    Reparent(m, m', side, t.n, new', lo, hi);
  }

  lemma SwapRb(t: Shape, p: Path, new': Node)
    requires t.Branch? && IsRb(Zip(p, t))
    ensures IsRb(Zip(p, t.(n := new')))
  {
    UnzipRb(p, t);
    ZipRb(p, t.(n := new'));
  }

  lemma SwapOrder(t: Shape, p: Path, new': Node) returns (k: nat)
    requires t.Branch?
    ensures var order := InOrder(Zip(p, t)); k < |order| && order[k] == t.n && InOrder(Zip(p, t.(n := new'))) == order[k := new']
  {
    ZipOrder(p, t);
    ZipOrder(p, t.(n := new'));
    k := |Before(p)| + |InOrder(t.left)|;
  }
}
