/** The red-black rules, and why each repair step of `util/rbtree.c` keeps or restores them. */
module RbRules {
  import opened RbShape

  ghost predicate IsRed(t: Shape) {
    t.Branch? && t.red
  }

  /** Black nodes on the way down, leftmost way. */
  ghost function Bh(t: Shape): nat {
    if t.Leaf? then 0 else Bh(t.left) + if t.red then 0 else 1
  }

  ghost predicate Balanced(t: Shape) {
    t.Branch? ==> Balanced(t.left) && Balanced(t.right) && Bh(t.left) == Bh(t.right)
  }

  /** No red node has a red child. */
  ghost predicate RedOk(t: Shape) {
    t.Branch? ==> RedOk(t.left) && RedOk(t.right) && (t.red ==> !IsRed(t.left) && !IsRed(t.right))
  }

  ghost predicate IsRb(t: Shape) {
    Balanced(t) && RedOk(t) && !IsRed(t)
  }

  /* ---------- The same rules for a path ---------- */

  /** The path is balanced around a hole of black height `h`. */
  ghost predicate PathBalanced(p: Path, h: nat) {
    p.Step? ==> Balanced(p.sib) && Bh(p.sib) == h && PathBalanced(p.up, h + if p.red then 0 else 1)
  }

  /** The path has no red node under a red one when what hangs at its end is black. */
  ghost predicate PathRedOk(p: Path) {
    p.Step? ==> RedOk(p.sib) && PathRedOk(p.up) && (p.red ==> !IsRed(p.sib) && !(p.up.Step? && p.up.red))
  }

  ghost predicate TopBlack(p: Path) {
    p.Step? ==> TopBlack(p.up) && (p.up.Top? ==> !p.red)
  }

  ghost predicate PathRb(p: Path, h: nat) {
    PathBalanced(p, h) && PathRedOk(p) && TopBlack(p)
  }

  lemma {:induction false} ZipRb(p: Path, t: Shape)
    requires Balanced(t) && RedOk(t) && PathRb(p, Bh(t)) && (p.Step? && p.red ==> !IsRed(t))
    ensures Balanced(Zip(p, t)) && RedOk(Zip(p, t)) && (p.Step? ==> !IsRed(Zip(p, t)))
    decreases p
  {
    if p.Step? {
      ZipRb(p.up, Fill(p, t));
    }
  }

  lemma {:induction false} UnzipRb(p: Path, t: Shape)
    requires IsRb(Zip(p, t))
    ensures Balanced(t) && RedOk(t) && PathRb(p, Bh(t)) && (p.Step? && p.red ==> !IsRed(t)) && (p.Top? ==> !IsRed(t))
    decreases p
  {
    if p.Step? {
      UnzipRb(p.up, Fill(p, t));
    }
  }

  lemma DyeBlack(t: Shape)
    requires Balanced(t) && RedOk(t)
    ensures IsRb(Dye(t, false))
  {
  }

  /* ---------- Height ---------- */

  ghost function Height(t: Shape): nat {
    if t.Leaf? then 0 else 1 + if Height(t.left) < Height(t.right) then Height(t.right) else Height(t.left)
  }

  ghost function Pow2(n: nat): nat {
    if n == 0 then 1 else 2 * Pow2(n - 1)
  }

  lemma {:induction false} HeightBound(t: Shape)
    requires Balanced(t) && RedOk(t)
    ensures Height(t) <= 2 * Bh(t) + if IsRed(t) then 1 else 0
    ensures Pow2(Bh(t)) <= |InOrder(t)| + 1
  {
    if t.Branch? {
      HeightBound(t.left);
      HeightBound(t.right);
    }
  }

  lemma {:induction false} Pow2Monotone(m: nat, n: nat)
    requires m <= n
    ensures Pow2(m) <= Pow2(n)
  {
    if m < n {
      Pow2Monotone(m, n - 1);
    }
  }

  /** A red-black tree of n nodes is at most 2 log2(n + 1) high. */
  lemma RbIsShallow(t: Shape)
    requires IsRb(t)
    ensures Pow2((Height(t) + 1) / 2) <= |InOrder(t)| + 1
  {
    HeightBound(t);
    Pow2Monotone((Height(t) + 1) / 2, Bh(t));
  }

  /* ---------- The order of the nodes ---------- */

  ghost function InOrder(t: Shape): seq<Node> {
    if t.Leaf? then [] else InOrder(t.left) + [t.n] + InOrder(t.right)
  }

  ghost function Before(p: Path): seq<Node> {
    if p.Top? then [] else if p.goLeft then Before(p.up) else Before(p.up) + InOrder(p.sib) + [p.n]
  }

  ghost function After(p: Path): seq<Node> {
    if p.Top? then [] else if p.goLeft then [p.n] + InOrder(p.sib) + After(p.up) else After(p.up)
  }

  lemma Regroup(a: seq<Node>, x: seq<Node>, b: seq<Node>, y: seq<Node>, c: seq<Node>)
    ensures a + x + (b + y + c) == (a + x + b) + y + c
  {
  }

  lemma {:induction false} ZipOrder(p: Path, t: Shape)
    ensures InOrder(Zip(p, t)) == Before(p) + InOrder(t) + After(p)
    decreases p
  {
    if p.Step? {
      ZipOrder(p.up, Fill(p, t));
      StepOrder(p, InOrder(t), InOrder(p.sib), Before(p.up), After(p.up));
    } else {
      assert [] + InOrder(t) + [] == InOrder(t);
    }
  }

  lemma StepOrder(p: Path, s: seq<Node>, sib: seq<Node>, before: seq<Node>, after: seq<Node>)
    requires p.Step?
    ensures before + (if p.goLeft then s + [p.n] + sib else sib + [p.n] + s) + after
         == (if p.goLeft then before else before + sib + [p.n]) + s + (if p.goLeft then [p.n] + sib + after else after)
  {
  }

  lemma ZipSameOrder(p: Path, s: Shape, t: Shape)
    requires InOrder(s) == InOrder(t)
    ensures InOrder(Zip(p, s)) == InOrder(Zip(p, t))
  {
    ZipOrder(p, s);
    ZipOrder(p, t);
  }

  lemma RotLOrder(t: Shape)
    requires t.Branch? && t.right.Branch?
    ensures InOrder(RotL(t)) == InOrder(t)
  {
    var Branch(a, x, _, Branch(b, r, _, c)) := t;
    Regroup(InOrder(a), [x], InOrder(b), [r], InOrder(c));
  }

  lemma RotROrder(t: Shape)
    requires t.Branch? && t.left.Branch?
    ensures InOrder(RotR(t)) == InOrder(t)
  {
    var Branch(Branch(c, l, _, b), x, _, a) := t;
    Regroup(InOrder(c), [l], InOrder(b), [x], InOrder(a));
  }

  lemma DyeOrder(t: Shape, red: bool)
    ensures InOrder(Dye(t, red)) == InOrder(t)
  {
  }

  lemma Dye3Order(t: Shape, red: bool, leftRed: bool, rightRed: bool)
    ensures InOrder(Dye3(t, red, leftRed, rightRed)) == InOrder(t)
  {
    if t.Branch? {
      DyeOrder(t.left, leftRed);
      DyeOrder(t.right, rightRed);
    }
  }

  /* ---------- Insertion: a red subtree, everything else in order ---------- */

  ghost predicate InsertInv(t: Shape, p: Path) {
    IsRed(t) && Balanced(t) && RedOk(t) && PathRb(p, Bh(t))
  }

  /** No two red nodes meet; at most the root is red. */
  ghost predicate Settled(t: Shape, p: Path) {
    t.Branch? && Balanced(t) && RedOk(t) && PathRb(p, Bh(t)) && (p.Step? && p.red ==> !IsRed(t))
  }

  lemma SettledRb(t: Shape, p: Path)
    requires Settled(t, p)
    ensures var s := Zip(p, t); s.Branch? && IsRb(Dye(s, false)) && InOrder(Dye(s, false)) == InOrder(s)
  {
    ZipRb(p, t);
    ZipOrder(p, t);
    DyeBlack(Zip(p, t));
    DyeOrder(Zip(p, t), false);
    assert t.n in InOrder(Zip(p, t));
  }

  /** A red parent is not the root. */
  lemma RedHasParent(p: Path)
    requires TopBlack(p) && p.Step? && p.red
    ensures p.up.Step?
  {
  }

  lemma InsertHasGrandparent(t: Shape, p: Path)
    requires InsertInv(t, p) && p.Step? && p.red
    ensures p.up.Step?
  {
    RedHasParent(p);
  }

  lemma InsertSettled(t: Shape, p: Path)
    requires InsertInv(t, p) && !(p.Step? && p.red)
    ensures Settled(t, p)
  {
  }

  /** Red uncle: the grandparent turns red, its children black. */
  ghost function Flipped(t: Shape, p: Path): Shape
    requires p.Step? && p.up.Step?
  {
    Dye3(Fill(p.up, Fill(p, t)), true, false, false)
  }

  lemma FlipKeeps(t: Shape, p: Path)
    requires InsertInv(t, p) && p.Step? && p.red && p.up.Step? && IsRed(p.up.sib)
    ensures InsertInv(Flipped(t, p), p.up.up)
    ensures InOrder(Zip(p.up.up, Flipped(t, p))) == InOrder(Zip(p, t))
  {
    var f := Fill(p, t);
    assert Bh(f) == Bh(t) && Balanced(f) && PathRb(p.up, Bh(f));
    var d := Dye(f, false);
    assert Balanced(d) && RedOk(d) && Bh(d) == Bh(t) + 1;
    var u := Dye(p.up.sib, false);
    assert Balanced(u) && RedOk(u) && Bh(u) == Bh(t) + 1;
    Dye3Order(Fill(p.up, f), true, false, false);
    ZipSameOrder(p.up.up, Flipped(t, p), Fill(p.up, f));
  }

  /** Black uncle: the parent's subtree with the new node on the outer side. */
  ghost function Straight(t: Shape, p: Path): Shape
    requires p.Step? && p.up.Step? && t.Branch?
  {
    var s := Fill(p, t);
    if p.goLeft == p.up.goLeft then s else if p.goLeft then RotR(s) else RotL(s)
  }

  /** ... and then the grandparent's subtree after the second rotation and the recolouring. */
  ghost function Turned(t: Shape, p: Path): Shape
    requires p.Step? && p.up.Step? && t.Branch?
  {
    var s := Fill(p.up, Straight(t, p));
    if p.up.goLeft then var r := RotR(s); Dye3(r, false, r.left.red, true)
    else var r := RotL(s); Dye3(r, false, true, r.right.red)
  }

  lemma TurnedOrder(t: Shape, p: Path)
    requires p.Step? && p.up.Step? && t.Branch?
    ensures InOrder(Turned(t, p)) == InOrder(Fill(p.up, Fill(p, t)))
  {
    var f := Fill(p, t);
    var s := Straight(t, p);
    assert InOrder(s) == InOrder(f) by {
      if p.goLeft != p.up.goLeft {
        if p.goLeft { RotROrder(f); } else { RotLOrder(f); }
      }
    }
    var g := Fill(p.up, s);
    assert InOrder(g) == InOrder(Fill(p.up, f));
    if p.up.goLeft {
      RotROrder(g);
      Dye3Order(RotR(g), false, RotR(g).left.red, true);
    } else {
      RotLOrder(g);
      Dye3Order(RotL(g), false, true, RotL(g).right.red);
    }
  }

  lemma TurnRestores(t: Shape, p: Path)
    requires InsertInv(t, p) && p.Step? && p.red && p.up.Step? && !IsRed(p.up.sib)
    ensures Settled(Turned(t, p), p.up.up)
    ensures InOrder(Zip(p.up.up, Turned(t, p))) == InOrder(Zip(p, t))
  {
    TurnedOrder(t, p);
    ZipSameOrder(p.up.up, Turned(t, p), Fill(p.up, Fill(p, t)));
    var f, r := Fill(p, t), Turned(t, p);
    assert PathRb(p.up, Bh(f)) && Bh(f) == Bh(t);
    assert Balanced(r.left) && RedOk(r.left) && Bh(r.left) == Bh(t);
    assert Balanced(r.right) && RedOk(r.right) && Bh(r.right) == Bh(t);
  }

  /* ---------- Erasure: one black node missing at the end of the path ---------- */

  ghost predicate FixInv(t: Shape, p: Path) {
    && Balanced(t) && (t.Branch? ==> RedOk(t.left) && RedOk(t.right))
    && PathRb(p, Bh(t) + 1)
  }

  ghost function Depth(p: Path): nat {
    if p.Top? then 0 else 1 + Depth(p.up)
  }

  lemma FixDone(t: Shape, p: Path)
    requires FixInv(t, p) && (IsRed(t) || p.Top?)
    ensures IsRb(Zip(p, Dye(t, false))) && InOrder(Zip(p, Dye(t, false))) == InOrder(Zip(p, t))
  {
    ZipRb(p, Dye(t, false));
    DyeOrder(t, false);
    ZipOrder(p, t);
    ZipOrder(p, Dye(t, false));
  }

  lemma SibExists(t: Shape, p: Path)
    requires FixInv(t, p) && p.Step?
    ensures p.sib.Branch?
    ensures IsRed(p.sib) ==> p.sib.left.Branch? && p.sib.right.Branch? && !p.red
  {
  }

  /** Red sibling: after the rotation the child has a black one. */
  ghost function BlackSib(p: Path): Path
    requires p.Step? && p.sib.Branch?
  {
    var b := p.sib;
    if p.goLeft then Step(Step(p.up, b.n, false, true, b.right), p.n, true, true, b.left)
    else Step(Step(p.up, b.n, false, false, b.left), p.n, true, false, b.right)
  }

  ghost function RotAt(p: Path, s: Shape): Shape
    requires p.Step? && s.Branch? && (if p.goLeft then s.right.Branch? else s.left.Branch?)
  {
    if p.goLeft then RotL(s) else RotR(s)
  }

  lemma RotAtOrder(p: Path, s: Shape)
    requires p.Step? && s.Branch? && (if p.goLeft then s.right.Branch? else s.left.Branch?)
    ensures InOrder(RotAt(p, s)) == InOrder(s)
  {
    if p.goLeft { RotLOrder(s); } else { RotROrder(s); }
  }

  lemma BlackSibKeeps(t: Shape, p: Path)
    requires FixInv(t, p) && p.Step? && !IsRed(t) && IsRed(p.sib)
    ensures FixInv(t, BlackSib(p)) && !IsRed(BlackSib(p).sib)
    ensures var q := BlackSib(p); Fill(q.up, Fill(q, t)) == RotAt(p, Dye3(Fill(p, t), true, false, false))
    ensures InOrder(Zip(BlackSib(p), t)) == InOrder(Zip(p, t))
  {
    ZipSameOrder(p.up, RotAt(p, Dye3(Fill(p, t), true, false, false)), Fill(p, t));
    SibExists(t, p);
    var s := Fill(p, t);
    assert Dye(t, false) == t;
    RotAtOrder(p, Dye3(s, true, false, false));
    Dye3Order(s, true, false, false);
  }

  /** Black sibling with black children: it turns red and the loss moves up. */
  ghost function RedSib(t: Shape, p: Path): Shape
    requires p.Step?
  {
    Fill(p.(sib := Dye(p.sib, true)), t)
  }

  lemma RedSibKeeps(t: Shape, p: Path)
    requires FixInv(t, p) && p.Step? && !IsRed(t) && p.sib.Branch? && !IsRed(p.sib)
    requires !IsRed(p.sib.left) && !IsRed(p.sib.right)
    ensures FixInv(RedSib(t, p), p.up) && InOrder(Zip(p.up, RedSib(t, p))) == InOrder(Zip(p, t))
    ensures Root(RedSib(t, p)) == p.n && IsRed(RedSib(t, p)) == p.red
  {
    ZipSameOrder(p.up, RedSib(t, p), Fill(p, t));
    DyeOrder(p.sib, true);
  }

  ghost function Far(p: Path): Shape
    requires p.Step? && p.sib.Branch?
  {
    if p.goLeft then p.sib.right else p.sib.left
  }

  ghost function Near(p: Path): Shape
    requires p.Step? && p.sib.Branch?
  {
    if p.goLeft then p.sib.left else p.sib.right
  }

  /** Black sibling whose near child is red: rotated, its far child is. */
  ghost function FarSib(p: Path): Shape
    requires p.Step? && p.sib.Branch? && Near(p).Branch?
  {
    if p.goLeft then RotR(Dye3(p.sib, true, false, IsRed(p.sib.right)))
        else RotL(Dye3(p.sib, true, IsRed(p.sib.left), false))
  }

  lemma FarSibKeeps(t: Shape, p: Path)
    requires FixInv(t, p) && p.Step? && p.sib.Branch? && !IsRed(p.sib) && IsRed(Near(p)) && !IsRed(Far(p))
    ensures var q := p.(sib := FarSib(p)); FixInv(t, q) && q.sib.Branch? && !IsRed(q.sib) && IsRed(Far(q))
    ensures InOrder(Zip(p.(sib := FarSib(p)), t)) == InOrder(Zip(p, t))
  {
    var near, s := Near(p), FarSib(p);
    assert Balanced(near) && RedOk(near) && Bh(near) == Bh(t) && Balanced(Far(p)) && RedOk(Far(p));
    if p.goLeft {
      var d := Dye3(p.sib, true, false, IsRed(p.sib.right));
      assert s == Branch(near.left, near.n, false, Branch(near.right, p.sib.n, true, p.sib.right));
      RotROrder(d);
      Dye3Order(p.sib, true, false, IsRed(p.sib.right));
    } else {
      var d := Dye3(p.sib, true, IsRed(p.sib.left), false);
      assert s == Branch(Branch(p.sib.left, p.sib.n, true, near.left), near.n, false, near.right);
      RotLOrder(d);
      Dye3Order(p.sib, true, IsRed(p.sib.left), false);
    }
    ZipSameOrder(p.up, Fill(p.(sib := FarSib(p)), t), Fill(p, t));
  }

  /** Black sibling whose far child is red: the sibling with its final colours ... */
  ghost function LastSib(p: Path): Shape
    requires p.Step? && p.sib.Branch?
  {
    if p.goLeft then Dye3(p.sib, p.red, IsRed(p.sib.left), false) else Dye3(p.sib, p.red, false, IsRed(p.sib.right))
  }

  /** ... and the parent's subtree after the last rotation. */
  ghost function Repaired(t: Shape, p: Path): Shape
    requires p.Step? && p.sib.Branch?
  {
    RotAt(p, Fill(p.(red := false, sib := LastSib(p)), t))
  }

  lemma RepairRestores(t: Shape, p: Path)
    requires FixInv(t, p) && p.Step? && !IsRed(t) && p.sib.Branch? && !IsRed(p.sib) && IsRed(Far(p))
    ensures FixInv(Zip(p.up, Repaired(t, p)), Top)
    ensures InOrder(Zip(p.up, Repaired(t, p))) == InOrder(Zip(p, t))
  {
    var r := Repaired(t, p);
    var near, far := Near(p), Dye(Far(p), false);
    assert Balanced(near) && RedOk(near) && Bh(near) == Bh(t);
    assert Balanced(Far(p)) && RedOk(Far(p)) && Bh(Far(p)) == Bh(t);
    assert r == if p.goLeft then Branch(Branch(t, p.n, false, near), p.sib.n, p.red, far)
                else Branch(far, p.sib.n, p.red, Branch(near, p.n, false, t));
    ZipRb(p.up, r);
    if p.goLeft {
      Dye3Order(p.sib, p.red, IsRed(p.sib.left), false);
    } else {
      Dye3Order(p.sib, p.red, false, IsRed(p.sib.right));
    }
    RotAtOrder(p, Fill(p.(red := false, sib := LastSib(p)), t));
    ZipSameOrder(p.up, Repaired(t, p), Fill(p, t));
  }

  /* ---------- Places in the order ---------- */

  /** Climbing from a right child leaves the place after the subtree alone. */
  lemma ClimbFromRight(t: Shape, p: Path)
    requires p.Step? && !p.goLeft
    ensures |Before(p.up)| + |InOrder(Fill(p, t))| == |Before(p)| + |InOrder(t)|
  {
  }

  lemma ClimbFromLeft(t: Shape, p: Path)
    requires p.Step? && p.goLeft
    ensures |Before(p.up)| == |Before(p)|
  {
  }

  /** The node after a subtree. */
  lemma PlaceAfter(t: Shape, p: Path)
    ensures var order, i := InOrder(Zip(p, t)), |Before(p)| + |InOrder(t)|;
            if p.Top? then i == |order| else p.goLeft ==> i < |order| && order[i] == p.n
  {
    ZipOrder(p, t);
  }

  /** The node before a subtree. */
  lemma PlaceBefore(t: Shape, p: Path)
    ensures var order, i := InOrder(Zip(p, t)), |Before(p)|;
            if p.Top? then i == 0 else !p.goLeft ==> 0 < i <= |order| && order[i - 1] == p.n
  {
    ZipOrder(p, t);
  }

  /** The places of a subtree's own nodes. */
  lemma PlaceWithin(t: Shape, p: Path, i: nat)
    requires i < |InOrder(t)|
    ensures |Before(p)| + i < |InOrder(Zip(p, t))| && InOrder(Zip(p, t))[|Before(p)| + i] == InOrder(t)[i]
  {
    ZipOrder(p, t);
  }

  /** In-order nodes have increasing places, so none occurs twice. */
  ghost predicate Increasing(s: seq<Node>) {
    forall i, j :: 0 <= i < j < |s| ==> s[i].pos < s[j].pos
  }

  ghost function Members(s: seq<Node>): set<Node> {
    set n | n in s
  }

  /** `order` with the node at place `k` left out. */
  ghost function Without(order: seq<Node>, k: nat): seq<Node>
    requires k < |order|
  {
    order[..k] + order[k + 1..]
  }

  lemma MembersOfChange(order: seq<Node>, k: nat, n: Node)
    requires Increasing(order) && k < |order|
    ensures Members(order[k := n]) == Members(order) - {order[k]} + {n}
    ensures Members(Without(order, k)) == Members(order) - {order[k]}
  {
    forall i | 0 <= i < |order| && i != k
      ensures order[i] in order[k := n] && order[i] in Without(order, k) && order[i] != order[k]
    {
      assert order[k := n][i] == order[i];
      assert Without(order, k)[if i < k then i else i - 1] == order[i];
    }
    assert order[k := n][k] == n;
  }

  lemma MembersOfInsert(order: seq<Node>, k: nat, n: Node)
    requires k <= |order|
    ensures Members(order[..k] + [n] + order[k..]) == Members(order) + {n}
  {
    forall m
      ensures m in order[..k] + [n] + order[k..] <==> m in order || m == n
    {
      assert order == order[..k] + order[k..];
    }
  }

  lemma {:induction false} TreeIncreasing(m: Store, t: Shape, parent: Node?, lo: real, hi: real)
    requires IsTree(m, t, parent, lo, hi)
    ensures Increasing(InOrder(t)) && forall i :: 0 <= i < |InOrder(t)| ==> lo < InOrder(t)[i].pos < hi
  {
    if t.Branch? {
      TreeIncreasing(m, t.left, t.n, lo, t.n.pos);
      TreeIncreasing(m, t.right, t.n, t.n.pos, hi);
    }
  }
}
