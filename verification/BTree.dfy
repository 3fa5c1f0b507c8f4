/** The disk tree of `lib/ctree.c` as a value: what a pointer and a height lead to, and the flat
    sequence of pairs that it stands for. */
module BTree {
  import opened Pairs
  import opened Io
  import opened Codec

  /** A node and what hangs below it; leaves have no `kids`. */
  datatype BTree = BTree(ptr: Ptr, pairs: seq<Pair>, kids: seq<BTree>)

  /** An inner pair: the first key of the child, and the pointer to the child. */
  predicate Hung(p: Pair, kid: BTree) {
    kid.pairs != [] && p.key == kid.pairs[0].key && |p.val| == PTR_SIZE && DecodePtr(p.val) == kid.ptr
  }

  predicate AllHung(pairs: seq<Pair>, kids: seq<BTree>) {
    |pairs| == |kids| && forall i :: 0 <= i < |kids| ==> Hung(pairs[i], kids[i])
  }

  /** The tree is on the disk, its root at `level`. */
  ghost predicate Stored(d: Disk, t: BTree, level: nat)
    decreases level, 0
  {
    && NodeAt(d, t.ptr, level) == Some(t.pairs) && t.pairs != []
    && if level == 0 then t.kids == [] else AllHung(t.pairs, t.kids) && StoredAll(d, t.kids, level - 1)
  }

  ghost predicate StoredAll(d: Disk, ts: seq<BTree>, level: nat)
    decreases level, 1
  {
    forall i :: 0 <= i < |ts| ==> Stored(d, ts[i], level)
  }

  /** The pairs in the leaves, from left to right. */
  ghost function Flat(t: BTree, level: nat): seq<Pair>
    decreases level, 0
  {
    if level == 0 then t.pairs else FlatAll(t.kids, level - 1)
  }

  ghost function FlatAll(ts: seq<BTree>, level: nat): seq<Pair>
    decreases level, |ts|
  {
    if ts == [] then [] else FlatAll(ts[..|ts| - 1], level) + Flat(ts[|ts| - 1], level)
  }

  ghost function PagesOf(t: BTree, level: nat): set<nat>
    decreases level, 0
  {
    PageRange(t.ptr.offs, t.ptr.size) + if level == 0 then {} else PagesOfAll(t.kids, level - 1)
  }

  ghost function PagesOfAll(ts: seq<BTree>, level: nat): set<nat>
    decreases level, |ts|
  {
    if ts == [] then {} else PagesOfAll(ts[..|ts| - 1], level) + PagesOf(ts[|ts| - 1], level)
  }

  lemma FlatAppend(ts: seq<BTree>, t: BTree, level: nat)
    ensures FlatAll(ts + [t], level) == FlatAll(ts, level) + Flat(t, level)
    ensures PagesOfAll(ts + [t], level) == PagesOfAll(ts, level) + PagesOf(t, level)
  {
    assert (ts + [t])[..|ts|] == ts;
  }

  /* ---------- The tree stays when its pages stay ---------- */

  lemma {:induction false} StoredSame(d: Disk, d': Disk, t: BTree, level: nat)
    requires Stored(d, t, level) && SameOn(d, d', PagesOf(t, level))
    ensures Stored(d', t, level)
    decreases level, 0
  {
    hide NodeAt, AllHung, StoredAll;
    NodeSame(d, d', t.ptr, level);
    if level > 0 {
      StoredAllSame(d, d', t.kids, level - 1);
    }
  }

  lemma NodeSame(d: Disk, d': Disk, ptr: Ptr, level: nat)
    requires SameOn(d, d', PageRange(ptr.offs, ptr.size))
    ensures NodeAt(d, ptr, level) == NodeAt(d', ptr, level)
  {
    hide DecodeNode, SameOn;
    ReadSame(d, d', ptr.offs, ptr.size);
  }

  lemma {:induction false} StoredAllSame(d: Disk, d': Disk, ts: seq<BTree>, level: nat)
    requires StoredAll(d, ts, level) && SameOn(d, d', PagesOfAll(ts, level))
    ensures StoredAll(d', ts, level)
    decreases level, 1
  {
    forall i | 0 <= i < |ts|
      ensures Stored(d', ts[i], level)
    {
      PagesAmong(ts, level, i);
      hide Stored, PagesOf, PagesOfAll;
      StoredSame(d, d', ts[i], level);
    }
  }

  lemma {:induction false} PagesAmong(ts: seq<BTree>, level: nat, i: nat)
    requires i < |ts|
    ensures PagesOf(ts[i], level) <= PagesOfAll(ts, level)
    decreases |ts|
  {
    hide PagesOf;
    if i < |ts| - 1 {
      PagesAmong(ts[..|ts| - 1], level, i);
    }
  }

  /* ---------- The flat sequence ---------- */

  lemma StoredKid(d: Disk, t: BTree, level: nat, i: nat)
    requires Stored(d, t, level) && level > 0 && i < |t.pairs|
    ensures |t.kids| == |t.pairs| && Stored(d, t.kids[i], level - 1) && Hung(t.pairs[i], t.kids[i])
    ensures FlatAll(t.kids, level - 1) == Flat(t, level)
  {
    hide NodeAt, Hung;
  }

  lemma {:induction false} FlatFirst(d: Disk, t: BTree, level: nat)
    requires Stored(d, t, level)
    ensures Flat(t, level) != [] && t.pairs != [] && Flat(t, level)[0].key == t.pairs[0].key
    decreases level
  {
    hide Hung, NodeAt;
    if level > 0 {
      StoredKid(d, t, level, 0);
      FlatFirst(d, t.kids[0], level - 1);
      hide Stored;
      KidSpan(t.kids, level - 1, 0);
      assert t.pairs[0].key == t.kids[0].pairs[0].key by { HungKey(t.pairs[0], t.kids[0]); }
    }
  }

  lemma HungKey(p: Pair, kid: BTree)
    requires Hung(p, kid)
    ensures kid.pairs != [] && p.key == kid.pairs[0].key
  {
  }

  /** Where the pairs below child `i` stand among those below all children. */
  lemma KidSpan(ts: seq<BTree>, level: nat, i: nat)
    requires i < |ts|
    ensures var a, n := |FlatAll(ts[..i], level)|, |Flat(ts[i], level)|;
            && a + n == |FlatAll(ts[..i + 1], level)| <= |FlatAll(ts, level)|
            && FlatAll(ts, level)[a..a + n] == Flat(ts[i], level)
            && FlatAll(ts, level)[..a] == FlatAll(ts[..i], level)
    ensures i == 0 ==> FlatAll(ts[..i], level) == []
    ensures i == |ts| - 1 ==> FlatAll(ts[..i + 1], level) == FlatAll(ts, level)
  {
    hide Flat;
    FlatSplit(ts, level, i);
    if i == |ts| - 1 { assert ts[..i + 1] == ts; }
  }

  lemma {:induction false} FlatSplit(ts: seq<BTree>, level: nat, i: nat)
    requires i < |ts|
    ensures FlatAll(ts[..i + 1], level) == FlatAll(ts[..i], level) + Flat(ts[i], level)
    ensures FlatAll(ts[..i + 1], level) <= FlatAll(ts, level)
    decreases |ts|
  {
    hide Flat;
    assert ts[..i + 1][..i] == ts[..i];
    if i == |ts| - 1 {
      assert ts[..i + 1] == ts;
    } else {
      var us := ts[..|ts| - 1];
      FlatSplit(us, level, i);
      assert us[..i + 1] == ts[..i + 1] && us[..i] == ts[..i];
    }
  }

  /* ---------- Paths from the root ---------- */

  predicate Steps(subs: seq<BTree>, pos: seq<nat>, l: nat)
    requires 0 < l < |subs| == |pos|
  {
    pos[l] < |subs[l].kids| && subs[l - 1] == subs[l].kids[pos[l]]
  }

  /** `subs` are the subtrees met on the way from the root `t` down to level `lo`, and `pos` says
      which child is taken at each level above `lo`. */
  predicate Path(t: BTree, subs: seq<BTree>, pos: seq<nat>, lo: nat) {
    lo < |subs| == |pos| && subs[|subs| - 1] == t && forall l :: lo < l < |subs| ==> Steps(subs, pos, l)
  }

  /** How many pairs stand before the subtree at level `l`. */
  ghost function Base(subs: seq<BTree>, pos: seq<nat>, l: nat): nat
    requires l < |subs| == |pos|
    decreases |subs| - l
  {
    if l == |subs| - 1 || pos[l + 1] > |subs[l + 1].kids| then 0
    else Base(subs, pos, l + 1) + |FlatAll(subs[l + 1].kids[..pos[l + 1]], l)|
  }

  ghost function End(subs: seq<BTree>, pos: seq<nat>, l: nat): nat
    requires l < |subs| == |pos|
  {
    Base(subs, pos, l) + |Flat(subs[l], l)|
  }

  lemma {:induction false} BaseSame(subs: seq<BTree>, pos: seq<nat>, subs': seq<BTree>, pos': seq<nat>, l: nat)
    requires l < |subs| == |pos| == |subs'| == |pos'| && subs[l + 1..] == subs'[l + 1..] &&
        pos[l + 1..] == pos'[l + 1..]
    ensures Base(subs, pos, l) == Base(subs', pos', l)
    decreases |subs| - l
  {
    if l < |subs| - 1 {
      assert subs[l + 1] == subs[l + 1..][0] == subs'[l + 1] && pos[l + 1] == pos[l + 1..][0] == pos'[l + 1];
      assert subs[l + 2..] == subs[l + 1..][1..] && subs'[l + 2..] == subs'[l + 1..][1..];
      assert pos[l + 2..] == pos[l + 1..][1..] && pos'[l + 2..] == pos'[l + 1..][1..];
      BaseSame(subs, pos, subs', pos', l + 1);
    }
  }

  lemma {:induction false} PathStored(d: Disk, t: BTree, subs: seq<BTree>, pos: seq<nat>, lo: nat, l: nat)
    requires Path(t, subs, pos, lo) && lo <= l < |subs| && Stored(d, t, |subs| - 1)
    ensures Stored(d, subs[l], l)
    decreases |subs| - l
  {
    hide Stored;
    if l < |subs| - 1 {
      PathStored(d, t, subs, pos, lo, l + 1);
      assert Steps(subs, pos, l + 1);
      StoredKids(d, subs[l + 1], l + 1);
      StoredKid(d, subs[l + 1], l + 1, pos[l + 1]);
    }
  }

  lemma StoredKids(d: Disk, t: BTree, level: nat)
    requires Stored(d, t, level)
    ensures t.pairs != [] && |t.kids| == if level == 0 then 0 else |t.pairs|
    ensures Flat(t, level) == if level == 0 then t.pairs else FlatAll(t.kids, level - 1)
  {
    hide NodeAt;
  }

  /** What a path leads to stands in the flat sequence from `Base` to `End`. */
  lemma {:induction false} Span(t: BTree, subs: seq<BTree>, pos: seq<nat>, lo: nat, l: nat)
    requires Path(t, subs, pos, lo) && lo <= l < |subs|
    ensures var s := Flat(t, |subs| - 1);
            Base(subs, pos, l) <= End(subs, pos, l) <= |s| &&
                s[Base(subs, pos, l)..End(subs, pos, l)] == Flat(subs[l], l)
    decreases |subs| - l
  {
    if l < |subs| - 1 {
      var s := Flat(t, |subs| - 1);
      var sub, b, e := subs[l + 1], Base(subs, pos, l + 1), End(subs, pos, l + 1);
      assert Steps(subs, pos, l + 1);
      Span(t, subs, pos, lo, l + 1);
      KidSpan(sub.kids, l, pos[l + 1]);
      var a, n := |FlatAll(sub.kids[..pos[l + 1]], l)|, |Flat(subs[l], l)|;
      assert Flat(sub, l + 1) == FlatAll(sub.kids, l);
      hide *;
      SliceIn(s, b, e, a, a + n);
    }
  }

  lemma SliceIn<T>(s: seq<T>, b: nat, e: nat, i: nat, j: nat)
    requires b <= e <= |s| && i <= j <= e - b
    ensures b + j <= |s| && s[b..e][i..j] == s[b + i..b + j]
  {
    var u, v := s[b..e][i..j], s[b + i..b + j];
    assert forall k :: 0 <= k < |u| ==> u[k] == s[b..e][i + k] == s[b + i + k] == v[k];
  }

  /** One level down: where child `pos[l]` starts and ends. */
  lemma StepDown(t: BTree, subs: seq<BTree>, pos: seq<nat>, l: nat)
    requires 0 < l < |subs| && Path(t, subs, pos, l - 1)
    ensures pos[l] < |subs[l].kids|
    ensures Base(subs, pos, l - 1) == Base(subs, pos, l) + |FlatAll(subs[l].kids[..pos[l]], l - 1)|
    ensures pos[l] == 0 ==> Base(subs, pos, l - 1) == Base(subs, pos, l)
    ensures pos[l] == |subs[l].kids| - 1 ==> End(subs, pos, l - 1) == End(subs, pos, l)
    ensures End(subs, pos, l - 1) <= End(subs, pos, l)
  {
    assert Steps(subs, pos, l);
    KidSpan(subs[l].kids, l - 1, pos[l]);
  }

  /** Last children all the way down: the ends meet. */
  lemma {:induction false} EndsMeet(t: BTree, subs: seq<BTree>, pos: seq<nat>, l: nat)
    requires Path(t, subs, pos, 0) && l < |subs|
    requires forall i :: 0 < i <= l ==> pos[i] + 1 == |subs[i].kids|
    ensures End(subs, pos, 0) == End(subs, pos, l)
  {
    hide End;
    if l > 0 {
      EndsMeet(t, subs, pos, l - 1);
      StepDown(t, subs, pos, l);
    }
  }

  /** First children all the way down: the starts meet. */
  lemma {:induction false} StartsMeet(t: BTree, subs: seq<BTree>, pos: seq<nat>, l: nat)
    requires Path(t, subs, pos, 0) && l < |subs| && forall i :: 0 < i <= l ==> pos[i] == 0
    ensures Base(subs, pos, 0) == Base(subs, pos, l)
  {
    hide Base;
    if l > 0 {
      StartsMeet(t, subs, pos, l - 1);
      StepDown(t, subs, pos, l);
    }
  }

  /** Where the pair or the child at `pos[l]` starts, and where it ends. */
  ghost function Start(subs: seq<BTree>, pos: seq<nat>, l: nat): nat
    requires l < |subs| == |pos|
  {
    if l == 0 then Base(subs, pos, 0) + pos[0]
    else if pos[l] > |subs[l].kids| then 0 else Base(subs, pos, l) + |FlatAll(subs[l].kids[..pos[l]], l - 1)|
  }

  ghost function Stop(subs: seq<BTree>, pos: seq<nat>, l: nat): nat
    requires l < |subs| == |pos|
  {
    if l == 0 then Base(subs, pos, 0) + pos[0] + 1
    else if pos[l] >= |subs[l].kids| then 0 else Base(subs, pos, l) + |FlatAll(subs[l].kids[..pos[l] + 1], l - 1)|
  }

  /** Only the positions above matter to a path. */
  lemma PathLowest(t: BTree, subs: seq<BTree>, pos: seq<nat>, l: nat, p: nat)
    requires Path(t, subs, pos, l)
    ensures Path(t, subs, pos[l := p], l) && Base(subs, pos[l := p], l) == Base(subs, pos, l)
  {
    var pos' := pos[l := p];
    forall i | l < i < |subs|
      ensures Steps(subs, pos', i)
    {
      assert Steps(subs, pos, i);
    }
    assert pos'[l + 1..] == pos[l + 1..];
    BaseSame(subs, pos, subs, pos', l);
  }

  lemma PathShorter(t: BTree, subs: seq<BTree>, pos: seq<nat>, lo: nat, l: nat)
    requires Path(t, subs, pos, lo) && lo <= l < |subs|
    ensures Path(t, subs, pos, l)
  {
  }

  lemma EnterPath(t: BTree, subs: seq<BTree>, pos: seq<nat>, l: nat, p: nat)
    requires 0 < l && Path(t, subs, pos, l) && pos[l] < |subs[l].kids|
    ensures var subs', pos' := subs[l - 1 := subs[l].kids[pos[l]]], pos[l - 1 := p];
            Path(t, subs', pos', l - 1) && Base(subs', pos', l) == Base(subs, pos, l)
  {
    var subs', pos' := subs[l - 1 := subs[l].kids[pos[l]]], pos[l - 1 := p];
    forall i | l - 1 < i < |subs'|
      ensures Steps(subs', pos', i)
    {
      if i > l { assert Steps(subs, pos, i); }
    }
    assert subs'[l + 1..] == subs[l + 1..] && pos'[l + 1..] == pos[l + 1..];
    BaseSame(subs, pos, subs', pos', l);
  }

  /** From level `l` into the child at `pos[l]`, at its place `p`. */
  lemma Enter(t: BTree, subs: seq<BTree>, pos: seq<nat>, l: nat, p: nat)
    requires 0 < l && Path(t, subs, pos, l) && pos[l] < |subs[l].kids|
    ensures var subs', pos' := subs[l - 1 := subs[l].kids[pos[l]]], pos[l - 1 := p];
            && Path(t, subs', pos', l - 1)
            && Base(subs', pos', l - 1) == Start(subs, pos, l) && End(subs', pos', l - 1) == Stop(subs, pos, l)
  {
    EnterPath(t, subs, pos, l, p);
    hide Path, FlatAll, Flat;
    KidSpan(subs[l].kids, l - 1, pos[l]);
  }

  /** At the first or the last place of a subtree. */
  lemma FirstPlace(subs: seq<BTree>, pos: seq<nat>, l: nat)
    requires l < |subs| == |pos| && pos[l] == 0
    ensures Start(subs, pos, l) == Base(subs, pos, l)
  {
    if l > 0 { assert subs[l].kids[..0] == []; }
  }

  lemma LastPlace(d: Disk, subs: seq<BTree>, pos: seq<nat>, l: nat)
    requires l < |subs| == |pos| && Stored(d, subs[l], l) && pos[l] + 1 == |subs[l].pairs|
    ensures Stop(subs, pos, l) == End(subs, pos, l)
  {
    hide Stored, FlatAll;
    StoredKids(d, subs[l], l);
    if l > 0 { assert subs[l].kids[..pos[l] + 1] == subs[l].kids; }
  }

  /** Past the last pair below this child stands the next child. */
  lemma Onward(t: BTree, subs: seq<BTree>, pos: seq<nat>, l: nat)
    requires 0 < l < |subs| && Path(t, subs, pos, 0) && pos[l] + 1 < |subs[l].kids|
    requires forall i :: 0 < i < l ==> pos[i] + 1 == |subs[i].kids|
    ensures Start(subs, pos[l := pos[l] + 1], l) == End(subs, pos, 0)
  {
    hide FlatAll, Flat;
    EndsMeet(t, subs, pos, l - 1);
    PathShorter(t, subs, pos, 0, l - 1);
    PathShorter(t, subs, pos, 0, l);
    StepDown(t, subs, pos, l);
    assert Steps(subs, pos, l);
    hide Path;
    KidSpan(subs[l].kids, l - 1, pos[l]);
    PathLowest(t, subs, pos, l, pos[l] + 1);
  }

  /** Before the first pair below this child ends the previous child. */
  lemma Backward(t: BTree, subs: seq<BTree>, pos: seq<nat>, l: nat)
    requires 0 < l < |subs| && Path(t, subs, pos, 0) && pos[l] > 0
    requires forall i :: 0 < i < l ==> pos[i] == 0
    ensures Stop(subs, pos[l := pos[l] - 1], l) == Base(subs, pos, 0) && pos[l] <= |subs[l].kids|
  {
    StartsMeet(t, subs, pos, l - 1);
    PathShorter(t, subs, pos, 0, l - 1);
    PathShorter(t, subs, pos, 0, l);
    StepDown(t, subs, pos, l);
    PathLowest(t, subs, pos, l, pos[l] - 1);
  }

  /** Where the path has to move when every position below `level` is a last one. */
  lemma NextPlace(d: Disk, t: BTree, subs: seq<BTree>, pos: seq<nat>, level: nat)
    requires Path(t, subs, pos, 0) && Stored(d, t, |subs| - 1) && level <= |subs| && pos[0] <= |subs[0].pairs|
    requires forall i :: 0 <= i < level ==> pos[i] + 1 >= |subs[i].pairs|
    ensures level == |subs| ==> End(subs, pos, 0) == |Flat(t, |subs| - 1)|
    ensures End(subs, pos, 0) == Base(subs, pos, 0) + |subs[0].pairs| && subs[0].pairs != []
    ensures level < |subs| && pos[level] + 1 < |subs[level].pairs| ==>
              && Path(t, subs, pos[level := pos[level] + 1], level)
              && Start(subs, pos[level := pos[level] + 1], level) == if level == 0 then Base(subs, pos,
                  0) + pos[0] + 1 else End(subs, pos, 0)
  {
    hide Stored, Base, FlatAll;
    PathKids(d, t, subs, pos);
    if level == |subs| {
      EndsMeet(t, subs, pos, level - 1);
      hide Path;
      RootEnd(subs, pos);
    } else if pos[level] + 1 < |subs[level].pairs| {
      PathShorter(t, subs, pos, 0, level);
      PathLowest(t, subs, pos, level, pos[level] + 1);
      if level > 0 { Onward(t, subs, pos, level); }
    }
  }

  lemma RootEnd(subs: seq<BTree>, pos: seq<nat>)
    requires 0 < |subs| == |pos|
    ensures End(subs, pos, |subs| - 1) == |Flat(subs[|subs| - 1], |subs| - 1)| && Base(subs, pos, |subs| - 1) == 0
  {
    hide Flat;
  }

  /** Inner positions of a whole path are children, and every node has as many children as pairs. */
  lemma PathKids(d: Disk, t: BTree, subs: seq<BTree>, pos: seq<nat>)
    requires Path(t, subs, pos, 0) && Stored(d, t, |subs| - 1)
    ensures forall i :: 0 <= i < |subs| ==> subs[i].pairs != [] && (i > 0 ==> |subs[i].kids| == |subs[i].pairs| && pos[i] < |subs[i].pairs|)
    ensures Flat(subs[0], 0) == subs[0].pairs
  {
    forall i | 0 <= i < |subs|
      ensures subs[i].pairs != [] && (i > 0 ==> |subs[i].kids| == |subs[i].pairs| && pos[i] < |subs[i].pairs|)
    {
      hide Stored, Flat;
      PathStored(d, t, subs, pos, 0, i);
      StoredKids(d, subs[i], i);
      if i > 0 { assert Steps(subs, pos, i); }
    }
  }

  /** Where the path has to move when every position below `level` is a first one. */
  lemma PrevPlace(d: Disk, t: BTree, subs: seq<BTree>, pos: seq<nat>, level: nat)
    requires Path(t, subs, pos, 0) && Stored(d, t, |subs| - 1) && level <= |subs|
    requires forall i :: 0 <= i < level ==> pos[i] == 0
    ensures level == |subs| ==> Start(subs, pos, 0) == 0
    ensures level < |subs| && pos[level] > 0 ==>
              && Path(t, subs, pos[level := pos[level] - 1], level)
              && Stop(subs, pos[level := pos[level] - 1], level) == Start(subs, pos, 0)
              && (level > 0 ==> pos[level] <= |subs[level].pairs|)
  {
    hide Stored, Base, FlatAll;
    PathKids(d, t, subs, pos);
    if level == |subs| {
      StartsMeet(t, subs, pos, level - 1);
      hide Path;
      RootEnd(subs, pos);
    } else if pos[level] > 0 {
      PathShorter(t, subs, pos, 0, level);
      PathLowest(t, subs, pos, level, pos[level] - 1);
      if level > 0 { Backward(t, subs, pos, level); }
    }
  }

  /** The pair that a path stands at. */
  lemma InLeaf(d: Disk, t: BTree, subs: seq<BTree>, pos: seq<nat>)
    requires Path(t, subs, pos, 0) && Stored(d, t, |subs| - 1) && pos[0] <= |subs[0].pairs|
    ensures Start(subs, pos, 0) <= |Flat(t, |subs| - 1)|
    ensures pos[0] < |subs[0].pairs| ==> Start(subs, pos, 0) < |Flat(t, |subs| - 1)| && Flat(t, |subs| - 1)[Start(subs, pos, 0)] == subs[0].pairs[pos[0]]
  {
    hide Stored, Base, FlatAll;
    PathKids(d, t, subs, pos);
    Span(t, subs, pos, 0, 0);
    hide Path, Flat;
    var s, b, e := Flat(t, |subs| - 1), Base(subs, pos, 0), End(subs, pos, 0);
    if pos[0] < |subs[0].pairs| { assert s[b..e][pos[0]] == s[b + pos[0]]; }
  }

  /* ---------- Searching ---------- */

  /** The place of `r` below a node is its place below the last child whose key is not above `r`,
      or below the first child if there is none. */
  lemma LbDown(d: Disk, ord: Order, t: BTree, level: nat, r: real, p: nat)
    requires Stored(d, t, level) && level > 0 && Sorted(ord, Flat(t, level)) && p < |t.pairs|
    requires p == 0 || ord(t.pairs[p].key) <= r
    requires p + 1 < |t.pairs| ==> r < ord(t.pairs[p + 1].key) || r < ord(t.pairs[p].key)
    ensures |t.kids| == |t.pairs| && Sorted(ord, Flat(t.kids[p], level - 1))
    ensures Lb(ord, Flat(t, level), r) == |FlatAll(t.kids[..p], level - 1)| + Lb(ord, Flat(t.kids[p], level - 1), r)
  {
    hide Stored, Hung, Lb, Flat, FlatAll;
    var s := Flat(t, level);
    var a := KidPlace(d, t, level, p);
    var kid := Flat(t.kids[p], level - 1);
    var j, n := Lb(ord, kid, r), |kid|;
    forall i | 0 <= i < n
      ensures s[a + i] == kid[i]
    {
    }
    if p + 1 < |t.pairs| {
      var b := KidPlace(d, t, level, p + 1);
    }
    LbJoined(ord, s, kid, a, j, r);
  }

  lemma KidPlace(d: Disk, t: BTree, level: nat, p: nat) returns (a: nat)
    requires Stored(d, t, level) && level > 0 && p < |t.pairs|
    ensures |t.kids| == |t.pairs|
    ensures var s, kid := Flat(t, level), Flat(t.kids[p], level - 1);
            && a == |FlatAll(t.kids[..p], level - 1)| && a + |kid| == |FlatAll(t.kids[..p + 1], level - 1)| <= |s|
            && kid != [] && s[a..a + |kid|] == kid && s[a].key == t.pairs[p].key
            && (p == 0 ==> a == 0) && (p + 1 == |t.pairs| ==> a + |kid| == |s|)
  {
    hide Stored, Flat, FlatAll;
    StoredKid(d, t, level, p);
    FlatFirst(d, t.kids[p], level - 1);
    KidSpan(t.kids, level - 1, p);
    a := |FlatAll(t.kids[..p], level - 1)|;
    var s, kid := Flat(t, level), Flat(t.kids[p], level - 1);
    assert s[a..a + |kid|][0] == s[a];
  }

  lemma LbJoined(ord: Order, s: seq<Pair>, kid: seq<Pair>, a: nat, j: nat, r: real)
    requires Sorted(ord, s) && kid != [] && a + |kid| <= |s| && j == Lb(ord, kid, r)
    requires forall i :: 0 <= i < |kid| ==> s[a + i] == kid[i]
    requires a == 0 || ord(s[a].key) <= r
    requires a + |kid| < |s| ==> r < ord(s[a + |kid|].key) || r < ord(s[a].key)
    ensures Sorted(ord, kid) && Lb(ord, s, r) == a + j
  {
    hide Lb;
    forall i, k | 0 <= i < k < |kid|
      ensures ord(kid[i].key) < ord(kid[k].key)
    {
      assert s[a + i] == kid[i] && s[a + k] == kid[k];
    }
    forall i | 0 <= i < a + j
      ensures ord(s[i].key) < r
    {
      if i >= a { assert s[a + (i - a)] == kid[i - a]; }
    }
    if j < |kid| { assert s[a + j] == kid[j]; }
    LbIs(ord, s, r, a + j);
  }

  /* ---------- Fan-out and height ---------- */

  function Pow100(n: nat): nat {
    if n == 0 then 1 else 100 * Pow100(n - 1)
  }

  /** Every node of the tree has at least 100 entries. */
  ghost predicate Full(t: BTree, level: nat)
    decreases level
  {
    |t.pairs| >= 100 && (level > 0 ==> forall i :: 0 <= i < |t.kids| ==> Full(t.kids[i], level - 1))
  }

  /** Every node has at least 100 entries but the last one of each level. */
  ghost predicate Spine(t: BTree, level: nat)
    decreases level
  {
    level > 0 ==> Leaning(t.kids, level - 1) && t.kids != [] && Spine(t.kids[|t.kids| - 1], level - 1)
  }

  /** All are full but the last. */
  ghost predicate Leaning(ts: seq<BTree>, level: nat) {
    forall i :: 0 <= i < |ts| - 1 ==> Full(ts[i], level)
  }

  lemma {:induction false} FullCount(d: Disk, t: BTree, level: nat)
    requires Stored(d, t, level) && Full(t, level)
    ensures |Flat(t, level)| >= Pow100(level + 1)
    decreases level, |t.pairs|, 1
  {
    hide Stored;
    StoredKids(d, t, level);
    if level > 0 {
      KidsCount(d, t, level, |t.kids|);
      assert t.kids[..|t.kids|] == t.kids;
      assert |t.kids| * Pow100(level) >= 100 * Pow100(level);
    }
  }

  lemma {:induction false} KidsCount(d: Disk, t: BTree, level: nat, n: nat)
    requires Stored(d, t, level) && level > 0 && n <= |t.kids| == |t.pairs|
    requires forall i :: 0 <= i < n ==> Full(t.kids[i], level - 1)
    ensures |FlatAll(t.kids[..n], level - 1)| >= n * Pow100(level)
    decreases level, n, 0
  {
    hide Stored, Full, Flat, Pow100;
    if n > 0 {
      KidsCount(d, t, level, n - 1);
      StoredKid(d, t, level, n - 1);
      FullCount(d, t.kids[n - 1], level - 1);
      KidSpan(t.kids, level - 1, n - 1);
      assert n * Pow100(level) == (n - 1) * Pow100(level) + Pow100(level);
    }
  }

  /** A tree of two levels or more with two entries or more in its root. */
  lemma HeightBound(d: Disk, t: BTree, level: nat)
    requires Stored(d, t, level) && level > 0 && Spine(t, level) && |t.pairs| >= 2
    ensures |Flat(t, level)| >= Pow100(level) + 1
  {
    hide Stored, Full, Flat, Pow100, FlatAll;
    StoredKids(d, t, level);
    KidsCount(d, t, level, 1);
    var a := KidPlace(d, t, level, 1);
  }
}
