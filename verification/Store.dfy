/** A store as five sorted sequences, newest first: what `lsm_add` and `lsm_merge` do to them, and the
    map that a reader sees. */
module Store {
  import opened Pairs
  import opened Merged
  import opened Builder

  const COMPS: nat := 5

  type Deleted = Pair -> bool

  /* ---------- What a reader sees ---------- */

  /** The newest pair of a key, unless it stands for a deletion. */
  ghost function View(ord: Order, deleted: Deleted, cs: seq<seq<Pair>>, r: real): Option<Pair> {
    Live(deleted, GetIn(ord, cs, r))
  }

  ghost function Live(deleted: Deleted, p: Option<Pair>): Option<Pair> {
    if p.Some? && deleted(p.value) then None else p
  }

  lemma {:induction false} GetInConcat(ord: Order, a: seq<seq<Pair>>, b: seq<seq<Pair>>, r: real)
    ensures GetIn(ord, a + b, r) == if GetIn(ord, a, r).Some? then GetIn(ord, a, r) else GetIn(ord, b, r)
  {
    hide Get;
    if a == [] {
      assert a + b == b;
    } else {
      assert (a + b)[0] == a[0] && (a + b)[1..] == a[1..] + b;
      GetInConcat(ord, a[1..], b, r);
    }
  }

  /** An empty sequence has no part in it. */
  lemma GetInEmpty(ord: Order, s: seq<Pair>, r: real)
    ensures GetIn(ord, [[], s], r) == GetIn(ord, [s, []], r) == GetIn(ord, [s], r) == Get(ord, s, r)
  {
    assert Get(ord, [], r) == None;
    hide Get;
    GetInOne(ord, s, r);
    GetInOne(ord, [], r);
    assert [[], s][1..] == [s] && [s, []][1..] == [[]];
  }

  lemma GetInOne(ord: Order, s: seq<Pair>, r: real)
    ensures GetIn(ord, [s], r) == Get(ord, s, r)
  {
    hide Get;
    assert [s][1..] == [] && GetIn(ord, [], r) == None;
  }

  lemma {:induction false} GetInNone(ord: Order, cs: seq<seq<Pair>>, r: real)
    requires forall i :: 0 <= i < |cs| ==> cs[i] == []
    ensures GetIn(ord, cs, r) == None
  {
    if cs != [] {
      assert Get(ord, [], r) == None;
      GetInNone(ord, cs[1..], r);
    }
  }

  /** Replacing two neighbours by two others that give the same for a key. */
  lemma GetInMiddle(ord: Order, cs: seq<seq<Pair>>, t: nat, a: seq<Pair>, b: seq<Pair>, r: real)
    requires t + 1 < |cs|
    ensures var mid, rest := GetIn(ord, cs[t..t + 2], r), GetIn(ord, cs[t + 2..], r);
            GetIn(ord, cs, r) == if GetIn(ord, cs[..t], r).Some? then GetIn(ord, cs[..t], r)
                else if mid.Some? then mid else rest
    ensures var mid, rest := GetIn(ord, [a, b], r), GetIn(ord, cs[t + 2..], r);
            GetIn(ord, cs[t := a][t + 1 := b], r) == if GetIn(ord, cs[..t], r).Some? then GetIn(ord, cs[..t],
                r) else if mid.Some? then mid else rest
  {
    hide GetIn;
    var cs' := cs[t := a][t + 1 := b];
    assert cs == cs[..t] + (cs[t..t + 2] + cs[t + 2..]);
    assert cs' == cs[..t] + ([a, b] + cs[t + 2..]);
    GetInConcat(ord, cs[t..t + 2], cs[t + 2..], r);
    GetInConcat(ord, cs[..t], cs[t..t + 2] + cs[t + 2..], r);
    GetInConcat(ord, [a, b], cs[t + 2..], r);
    GetInConcat(ord, cs[..t], [a, b] + cs[t + 2..], r);
  }

  /* ---------- What a merge does ---------- */

  /** The pairs that are not deleted. */
  ghost function Filter(deleted: Deleted, s: seq<Pair>): (f: seq<Pair>)
    ensures |f| <= |s|
  {
    if s == [] then [] else
      var p := s[|s| - 1];
      Filter(deleted, s[..|s| - 1]) + if deleted(p) then [] else [p]
  }

  lemma {:induction false} FilterKeys(ord: Order, deleted: Deleted, s: seq<Pair>, x: real)
    requires Sorted(ord, s) && forall i :: 0 <= i < |s| ==> ord(s[i].key) < x
    ensures Sorted(ord, Filter(deleted, s)) && forall i :: 0 <= i < |Filter(deleted, s)| ==>
        ord(Filter(deleted, s)[i].key) < x
  {
    if s != [] {
      var n := |s| - 1;
      SortedPrefix(ord, s, n);
      FilterKeys(ord, deleted, s[..n], ord(s[n].key));
    }
  }

  lemma {:induction false} FilterGet(ord: Order, deleted: Deleted, s: seq<Pair>, r: real)
    requires Sorted(ord, s)
    ensures Sorted(ord, Filter(deleted, s)) && Get(ord, Filter(deleted, s), r) == Live(deleted, Get(ord, s, r))
  {
    if s == [] {
      assert Get(ord, s, r) == None;
    } else {
      var n := |s| - 1;
      var rest, p := s[..n], s[n];
      SortedPrefix(ord, s, n);
      FilterGet(ord, deleted, rest, r);
      FilterKeys(ord, deleted, rest, ord(p.key));
      GetLast(ord, s, r);
      hide Get;
      var f := Filter(deleted, rest);
      if deleted(p) {
        assert Filter(deleted, s) == f + [] == f;
        if r == ord(p.key) { Absent(ord, f, r); }
      } else {
        assert (f + [p])[..|f|] == f;
        SortedMore(ord, f, p);
        GetLast(ord, f + [p], r);
      }
    }
  }

  lemma SortedMore(ord: Order, s: seq<Pair>, p: Pair)
    requires Sorted(ord, s) && forall i :: 0 <= i < |s| ==> ord(s[i].key) < ord(p.key)
    ensures Sorted(ord, s + [p])
  {
  }

  lemma Absent(ord: Order, s: seq<Pair>, r: real)
    requires forall i :: 0 <= i < |s| ==> ord(s[i].key) < r
    ensures Get(ord, s, r) == None
  {
  }

  /** `lsm_drop_deleted`: nothing is deeper than the target. */
  ghost predicate Drops(cs: seq<seq<Pair>>, t: nat) {
    forall i :: t + 2 <= i < |cs| ==> cs[i] == []
  }

  /** A new cursor shows the first pair. */
  ghost predicate Legible(m: seq<Pair>) {
    m != [] ==> Tangible(m[0])
  }

  /** The pairs of a union that are not dropped. */
  ghost function Emit(drop: bool, deleted: Deleted, m: seq<Pair>): seq<Pair> {
    if drop then Filter(deleted, m) else m
  }

  /** The pairs that a rebuild of `t` into `t + 1` is to append. */
  ghost function Wanted(ord: Order, deleted: Deleted, cs: seq<seq<Pair>>, t: nat): seq<Pair>
    requires t + 1 < |cs|
  {
    Emit(Drops(cs, t), deleted, Merge(ord, cs[t..t + 2]))
  }

  /** The pairs that it appends: its cursor reads all of them, or takes the union for empty. */
  ghost function Emitted(ord: Order, deleted: Deleted, cs: seq<seq<Pair>>, t: nat): seq<Pair>
    requires t + 1 < |cs|
  {
    if Legible(Merge(ord, cs[t..t + 2])) then Wanted(ord, deleted, cs, t) else []
  }

  /** What comes out of the builder: everything, or nothing if it all went into one leaf. */
  ghost function Outcome(ps: nat, s: seq<Pair>): seq<Pair>
    requires ps > 0
  {
    if OneLeaf(ps, s) then [] else s
  }

  ghost function Rebuilt(ord: Order, ps: nat, deleted: Deleted, cs: seq<seq<Pair>>, t: nat): seq<seq<Pair>>
    requires t + 1 < |cs| && ps > 0
  {
    cs[t := []][t + 1 := Outcome(ps, Emitted(ord, deleted, cs, t))]
  }

  /** `lsm_merge` may be called: for the memory tree when the second one is empty, for the second one
      only to go on after a failure with a tree below it, and for the first two disk trees. */
  ghost predicate CanMerge(cs: seq<seq<Pair>>, tree: nat)
    requires |cs| == COMPS
  {
    if tree == 0 then cs[1] == [] else if tree == 1 then cs[2] != [] else tree <= 3
  }

  ghost function Frozen(cs: seq<seq<Pair>>): seq<seq<Pair>>
    requires |cs| == COMPS
  {
    cs[0 := []][1 := cs[0]]
  }

  /** The components after `lsm_merge`. */
  ghost function AfterMerge(ord: Order, ps: nat, deleted: Deleted, cs: seq<seq<Pair>>, tree: nat): seq<seq<Pair>>
    requires |cs| == COMPS && CanMerge(cs, tree) && ps > 0
  {
    if tree == 0 then Rebuilt(ord, ps, deleted, Frozen(cs), 1)
    else if cs[tree + 1] == [] then cs[tree := []][tree + 1 := cs[tree]]
    else Rebuilt(ord, ps, deleted, cs, tree)
  }

  /** The merge loses nothing, or does not build at all. */
  ghost predicate Safe(ord: Order, ps: nat, deleted: Deleted, cs: seq<seq<Pair>>, tree: nat)
    requires |cs| == COMPS && CanMerge(cs, tree) && ps > 0
  {
    if tree == 0 then SafeBuild(ord, ps, deleted, Frozen(cs), 1)
    else cs[tree + 1] != [] ==> SafeBuild(ord, ps, deleted, cs, tree)
  }

  /** There is nothing to append, or the first pair of the union has a byte and one leaf cannot take
      everything. */
  ghost predicate SafeBuild(ord: Order, ps: nat, deleted: Deleted, cs: seq<seq<Pair>>, t: nat)
    requires t + 1 < |cs| && ps > 0
  {
    var w := Wanted(ord, deleted, cs, t);
    w == [] || (Legible(Merge(ord, cs[t..t + 2])) && !OneLeaf(ps, w))
  }

  /** A rebuild keeps everything or nothing. */
  lemma AllOrNothing(ord: Order, ps: nat, deleted: Deleted, cs: seq<seq<Pair>>, t: nat)
    requires t + 1 < |cs| && ps > 0
    ensures var e, w := Outcome(ps, Emitted(ord, deleted, cs, t)), Wanted(ord, deleted, cs, t);
            (e == w <==> SafeBuild(ord, ps, deleted, cs, t)) && (e == w || e == [])
  {
    hide Legible, OneLeaf, Wanted;
  }

  /** Dropping deletions where nothing is deeper does not show. */
  lemma WantedView(ord: Order, deleted: Deleted, cs: seq<seq<Pair>>, t: nat, r: real)
    requires t + 1 < |cs| && AllSorted(ord, cs)
    ensures Sorted(ord, Wanted(ord, deleted, cs, t))
    ensures var e, mid, rest := Get(ord, Wanted(ord, deleted, cs, t), r), GetIn(ord, cs[t..t + 2], r), GetIn(ord,
        cs[t + 2..], r);
            Live(deleted, if e.Some? then e else rest) == Live(deleted, if mid.Some? then mid else rest)
  {
    hide Get, GetIn, Sorted, Merge, Filter;
    assert AllSorted(ord, cs[t..t + 2]) by { assert cs[t..t + 2] == [cs[t], cs[t + 1]]; }
    MergeGet(ord, cs[t..t + 2], r);
    if Drops(cs, t) {
      FilterGet(ord, deleted, Merge(ord, cs[t..t + 2]), r);
      GetInNone(ord, cs[t + 2..], r);
    }
  }

  /** A rebuild that loses nothing leaves the view as it is. */
  lemma RebuildKeepsView(ord: Order, ps: nat, deleted: Deleted, cs: seq<seq<Pair>>, t: nat, r: real)
    requires t + 1 < |cs| && AllSorted(ord, cs) && ps > 0 && SafeBuild(ord, ps, deleted, cs, t)
    ensures View(ord, deleted, Rebuilt(ord, ps, deleted, cs, t), r) == View(ord, deleted, cs, r)
    ensures AllSorted(ord, Rebuilt(ord, ps, deleted, cs, t))
  {
    hide Get, GetIn, Sorted, Wanted, Emitted, Outcome, SafeBuild;
    var e := Wanted(ord, deleted, cs, t);
    AllOrNothing(ord, ps, deleted, cs, t);
    WantedView(ord, deleted, cs, t, r);
    GetInMiddle(ord, cs, t, [], e, r);
    GetInEmpty(ord, e, r);
    SortedNothing(ord);
  }

  /** What a rebuild does to the components: what went into it is empty, the others stay, and the target
      holds nothing if the rebuild is unsafe, or else at each key what the two components gave, without
      the deletions exactly if nothing is deeper. */
  lemma RebuiltContents(ord: Order, ps: nat, deleted: Deleted, cs: seq<seq<Pair>>, t: nat)
    requires t + 1 < |cs| && AllSorted(ord, cs) && ps > 0
    ensures var cs' := Rebuilt(ord, ps, deleted, cs, t);
            && |cs'| == |cs| && cs'[t] == [] && Sorted(ord, cs'[t + 1])
            && (forall i :: 0 <= i < |cs| && i != t && i != t + 1 ==> cs'[i] == cs[i])
            && (!SafeBuild(ord, ps, deleted, cs, t) ==> cs'[t + 1] == [])
    ensures var out, two := Rebuilt(ord, ps, deleted, cs, t)[t + 1], [cs[t], cs[t + 1]];
            var bottom := forall i :: t + 2 <= i < |cs| ==> cs[i] == [];
            && (bottom ==> forall k :: 0 <= k < |out| ==> !deleted(out[k]))
            && (SafeBuild(ord, ps, deleted, cs, t) ==>
                  forall r :: Get(ord, out, r) == if bottom then Live(deleted, GetIn(ord, two, r)) else GetIn(ord, two, r))
  {
    hide Get, GetIn, Merge, SafeBuild, Outcome, Filter, Live, Emitted;
    AllOrNothing(ord, ps, deleted, cs, t);
    var two, m := [cs[t], cs[t + 1]], Merge(ord, cs[t..t + 2]);
    assert cs[t..t + 2] == two && AllSorted(ord, two);
    hide Sorted;
    SortedNothing(ord);
    forall r
      ensures Sorted(ord, m) && Get(ord, m, r) == GetIn(ord, two, r)
      ensures Sorted(ord, Filter(deleted, m)) && Get(ord, Filter(deleted, m), r) == Live(deleted, GetIn(ord, two, r))
    {
      MergeGet(ord, two, r);
      FilterGet(ord, deleted, m, r);
    }
    MergeGet(ord, two, 0.0);
    FilterGet(ord, deleted, m, 0.0);
    forall k | 0 <= k < |Filter(deleted, m)|
      ensures !deleted(Filter(deleted, m)[k])
    {
      FilterLive(deleted, m, k);
    }
  }

  /** What a merge of `tree` into `to` does to the components. `tree` is empty afterwards, and the others
      stay. An empty target, unless `tree` is the memory tree, takes it as it is. Otherwise the target
      holds nothing if the merge is unsafe, or else at each key what the two components gave, without
      the deletions exactly if nothing is deeper. */
  ghost predicate Carried(ord: Order, deleted: Deleted, cs: seq<seq<Pair>>, cs': seq<seq<Pair>>, tree: nat, to: nat,
      safe: bool)
    requires |cs| == |cs'| == COMPS && tree < to < COMPS
  {
    && cs'[tree] == [] && Sorted(ord, cs'[to])
    && (forall i :: 0 <= i < COMPS && i != tree && i != to ==> cs'[i] == cs[i])
    && (if tree > 0 && cs[to] == [] then cs'[to] == cs[tree]
        else
          var out, two, bottom := cs'[to], [cs[tree], cs[to]], forall i :: to < i < COMPS ==> cs[i] == [];
          && (bottom ==> forall k :: 0 <= k < |out| ==> !deleted(out[k]))
          && (!safe ==> out == [])
          && (safe ==> forall r :: Get(ord, out, r) == if bottom then Live(deleted, GetIn(ord, two, r)) else GetIn(ord, two, r)))
  }

  lemma MergedContents(ord: Order, ps: nat, deleted: Deleted, cs: seq<seq<Pair>>, tree: nat, to: nat)
    requires |cs| == COMPS && AllSorted(ord, cs) && ps > 0 && CanMerge(cs, tree) && to == if tree == 0 then 2 else tree + 1
    ensures |AfterMerge(ord, ps, deleted, cs, tree)| == COMPS
    ensures Carried(ord, deleted, cs, AfterMerge(ord, ps, deleted, cs, tree), tree, to, Safe(ord, ps, deleted, cs, tree))
    ensures tree > 0 && cs[to] == [] ==> Safe(ord, ps, deleted, cs, tree)
  {
    hide Get, GetIn, Sorted, Rebuilt, SafeBuild, Live;
    SortedNothing(ord);
    if tree == 0 {
      var froz := Frozen(cs);
      assert froz[1] == cs[0] && froz[2] == cs[2] && froz[3] == cs[3] && froz[4] == cs[4] && froz[0] == [];
      RebuiltContents(ord, ps, deleted, froz, 1);
    } else if cs[tree + 1] != [] {
      RebuiltContents(ord, ps, deleted, cs, tree);
    }
  }

  /** Losing the pair would not show: something newer hides it, or what is deeper looks the same. */
  ghost predicate Covered(ord: Order, deleted: Deleted, cs: seq<seq<Pair>>, t: nat, p: Pair)
    requires t + 1 < |cs|
  {
    var r := ord(p.key);
    GetIn(ord, cs[..t], r).Some? || Live(deleted, Some(p)) == Live(deleted, GetIn(ord, cs[t + 2..], r))
  }

  /** A rebuild loses nothing, or only pairs that would not show. */
  ghost predicate Harmless(ord: Order, ps: nat, deleted: Deleted, cs: seq<seq<Pair>>, t: nat)
    requires t + 1 < |cs| && ps > 0
  {
    var w := Wanted(ord, deleted, cs, t);
    SafeBuild(ord, ps, deleted, cs, t) || forall k :: 0 <= k < |w| ==> Covered(ord, deleted, cs, t, w[k])
  }

  /** What an unsafe rebuild shows at a key. */
  lemma LossView(ord: Order, ps: nat, deleted: Deleted, cs: seq<seq<Pair>>, t: nat, r: real)
    requires t + 1 < |cs| && AllSorted(ord, cs) && ps > 0 && !SafeBuild(ord, ps, deleted, cs, t)
    ensures var e, up, rest := Get(ord, Wanted(ord, deleted, cs, t), r), GetIn(ord, cs[..t], r), GetIn(ord, cs[t + 2..], r);
            View(ord, deleted, Rebuilt(ord, ps, deleted, cs, t), r) == View(ord, deleted, cs, r) <==>
            up.Some? || e.None? || Live(deleted, e) == Live(deleted, rest)
  {
    hide Get, GetIn, Sorted, Wanted, Emitted, Outcome, SafeBuild;
    AllOrNothing(ord, ps, deleted, cs, t);
    WantedView(ord, deleted, cs, t, r);
    GetInMiddle(ord, cs, t, [], [], r);
    GetInEmpty(ord, [], r);
    GetInNone(ord, [[], []], r);
  }

  /** Exactly when a rebuild leaves the whole view as it is. */
  lemma RebuildViewExact(ord: Order, ps: nat, deleted: Deleted, cs: seq<seq<Pair>>, t: nat)
    requires t + 1 < |cs| && AllSorted(ord, cs) && ps > 0
    ensures (forall r :: View(ord, deleted, Rebuilt(ord, ps, deleted, cs, t), r) == View(ord, deleted, cs, r)) <==>
            Harmless(ord, ps, deleted, cs, t)
  {
    hide GetIn, Sorted, Wanted, SafeBuild, View, Rebuilt;
    var e, cs' := Wanted(ord, deleted, cs, t), Rebuilt(ord, ps, deleted, cs, t);
    WantedView(ord, deleted, cs, t, 0.0);
    if !SafeBuild(ord, ps, deleted, cs, t) {
      forall r
        ensures View(ord, deleted, cs', r) == View(ord, deleted, cs, r) <==>
            GetIn(ord, cs[..t], r).Some? || Get(ord, e, r).None? ||
            Live(deleted, Get(ord, e, r)) == Live(deleted, GetIn(ord, cs[t + 2..], r))
      {
        LossView(ord, ps, deleted, cs, t, r);
      }
      forall k | 0 <= k < |e|
        ensures Get(ord, e, ord(e[k].key)) == Some(e[k])
        ensures Covered(ord, deleted, cs, t, e[k]) <==> View(ord, deleted, cs', ord(e[k].key)) == View(ord, deleted, cs, ord(e[k].key))
      {
        GetIs(ord, e, k);
      }
    } else {
      forall r
        ensures View(ord, deleted, cs', r) == View(ord, deleted, cs, r)
      {
        RebuildKeepsView(ord, ps, deleted, cs, t, r);
      }
    }
  }

  lemma {:induction false} FilterLive(deleted: Deleted, s: seq<Pair>, k: nat)
    requires k < |Filter(deleted, s)|
    ensures !deleted(Filter(deleted, s)[k])
  {
    var n := |s| - 1;
    if k < |Filter(deleted, s[..n])| {
      FilterLive(deleted, s[..n], k);
    }
  }

  /** Exactly when a merge leaves the whole view as it is: it changes places, or its rebuild is harmless. */
  lemma MergeViewExact(ord: Order, ps: nat, deleted: Deleted, cs: seq<seq<Pair>>, tree: nat)
    requires |cs| == COMPS && AllSorted(ord, cs) && ps > 0 && CanMerge(cs, tree)
    ensures (forall r :: View(ord, deleted, AfterMerge(ord, ps, deleted, cs, tree), r) == View(ord, deleted, cs, r)) <==>
            if tree == 0 then Harmless(ord, ps, deleted, Frozen(cs), 1)
            else cs[tree + 1] == [] || Harmless(ord, ps, deleted, cs, tree)
  {
    hide GetIn, Sorted, Rebuilt, Harmless;
    if tree == 0 {
      var froz := Frozen(cs);
      forall r
        ensures View(ord, deleted, froz, r) == View(ord, deleted, cs, r) && AllSorted(ord, froz)
      {
        FreezeKeepsView(ord, deleted, cs, r);
      }
      FreezeKeepsView(ord, deleted, cs, 0.0);
      RebuildViewExact(ord, ps, deleted, froz, 1);
    } else if cs[tree + 1] == [] {
      forall r
        ensures GetIn(ord, AfterMerge(ord, ps, deleted, cs, tree), r) == GetIn(ord, cs, r)
      {
        SwapKeepsView(ord, cs, tree, r);
      }
    } else {
      RebuildViewExact(ord, ps, deleted, cs, tree);
    }
  }

  /** With nothing deeper, a merge of the memory tree leaves the view as it is exactly if it is safe. */
  lemma FlushViewExact(ord: Order, ps: nat, deleted: Deleted, cs: seq<seq<Pair>>)
    requires |cs| == COMPS && AllSorted(ord, cs) && ps > 0 && CanMerge(cs, 0) && Drops(cs, 1)
    ensures (forall r :: View(ord, deleted, AfterMerge(ord, ps, deleted, cs, 0), r) == View(ord, deleted, cs, r)) <==>
            Safe(ord, ps, deleted, cs, 0)
  {
    hide GetIn, Sorted, Merge, Filter, OneLeaf, View, AfterMerge;
    var froz := Frozen(cs);
    var w := Wanted(ord, deleted, froz, 1);
    MergeViewExact(ord, ps, deleted, cs, 0);
    if !SafeBuild(ord, ps, deleted, froz, 1) {
      FilterLive(deleted, Merge(ord, froz[1..3]), 0);
      GetInNone(ord, froz[..1], ord(w[0].key));
      GetInNone(ord, froz[3..], ord(w[0].key));
      assert !Covered(ord, deleted, froz, 1, w[0]);
    }
  }

  lemma SortedNothing(ord: Order)
    ensures Sorted(ord, [])
  {
  }

  /** An empty sequence and its neighbour may change places. */
  lemma SwapKeepsView(ord: Order, cs: seq<seq<Pair>>, t: nat, r: real)
    requires t + 1 < |cs| && cs[t + 1] == []
    ensures GetIn(ord, cs[t := []][t + 1 := cs[t]], r) == GetIn(ord, cs, r)
  {
    hide Get, GetIn;
    GetInMiddle(ord, cs, t, [], cs[t], r);
    GetInEmpty(ord, cs[t], r);
    assert cs[t..t + 2] == [cs[t], []];
  }

  /** Merging leaves the view as it is, deletions included, if the builds emit nothing or more than a leaf. */
  lemma MergeKeepsView(ord: Order, ps: nat, deleted: Deleted, cs: seq<seq<Pair>>, tree: nat, r: real)
    requires |cs| == COMPS && AllSorted(ord, cs) && ps > 0 && CanMerge(cs, tree) && Safe(ord, ps, deleted, cs, tree)
    ensures View(ord, deleted, AfterMerge(ord, ps, deleted, cs, tree), r) == View(ord, deleted, cs, r)
    ensures AllSorted(ord, AfterMerge(ord, ps, deleted, cs, tree))
  {
    hide GetIn, Sorted, Rebuilt, SafeBuild;
    SortedNothing(ord);
    if tree == 0 {
      SwapKeepsView(ord, cs, 0, r);
      RebuildKeepsView(ord, ps, deleted, Frozen(cs), 1, r);
    } else if cs[tree + 1] == [] {
      SwapKeepsView(ord, cs, tree, r);
    } else {
      RebuildKeepsView(ord, ps, deleted, cs, tree, r);
    }
  }

  /** A failed merge leaves it as it is in any case. */
  lemma FreezeKeepsView(ord: Order, deleted: Deleted, cs: seq<seq<Pair>>, r: real)
    requires |cs| == COMPS && AllSorted(ord, cs) && cs[1] == []
    ensures View(ord, deleted, Frozen(cs), r) == View(ord, deleted, cs, r) && AllSorted(ord, Frozen(cs))
  {
    hide GetIn, Sorted;
    SortedNothing(ord);
    SwapKeepsView(ord, cs, 0, r);
  }

  /** Adding a pair shows at its key and nowhere else. */
  lemma AddView(ord: Order, deleted: Deleted, cs: seq<seq<Pair>>, p: Pair, r: real)
    requires cs != [] && AllSorted(ord, cs)
    ensures var cs' := cs[0 := Put(ord, cs[0], p)];
            AllSorted(ord, cs') && View(ord, deleted, cs', r) == if r == ord(p.key) then Live(deleted,
                Some(p)) else View(ord, deleted, cs, r)
  {
    hide Get, Sorted, Put;
    PutSorted(ord, cs[0], p);
    GetPut(ord, cs[0], p, r);
    assert cs[0 := Put(ord, cs[0], p)][1..] == cs[1..];
  }

  /* ---------- What an unsafe merge loses ---------- */

  lemma {:induction false} FewInOneLeaf(ps: nat, s: seq<Pair>)
    requires ps > 0 && |s| <= 100
    ensures OneLeaf(ps, s)
  {
    hide Builder.AllFit;
    if s != [] {
      FewInOneLeaf(ps, s[..|s| - 1]);
    }
  }

  /** A first merge of up to a hundred pairs loses every one of them. */
  lemma SmallMergeLoses(ord: Order, ps: nat, deleted: Deleted, s: seq<Pair>, r: real)
    requires ps > 0 && Sorted(ord, s) && 0 < |s| <= 100 && forall i :: 0 <= i < |s| ==> !deleted(s[i])
    ensures var cs := [s, [], [], [], []];
            && !Safe(ord, ps, deleted, cs, 0)
            && View(ord, deleted, cs, ord(s[0].key)) == Some(s[0])
            && View(ord, deleted, AfterMerge(ord, ps, deleted, cs, 0), r) == None
  {
    hide OneLeaf, Get, GetIn, Merge, Filter, Sorted, AfterMerge, Outcome;
    var cs := [s, [], [], [], []];
    SmallEmitted(ord, ps, deleted, s);
    FewInOneLeaf(ps, s);
    GetIs(ord, s, 0);
    assert cs == [s] + cs[1..];
    GetInConcat(ord, [s], cs[1..], ord(s[0].key));
    GetInOne(ord, s, ord(s[0].key));
    GetInNone(ord, [[], [], [], [], []], r);
  }

  lemma SmallEmitted(ord: Order, ps: nat, deleted: Deleted, s: seq<Pair>)
    requires ps > 0 && Sorted(ord, s) && 0 < |s| <= 100 && forall i :: 0 <= i < |s| ==> !deleted(s[i])
    ensures var cs := [s, [], [], [], []];
            Wanted(ord, deleted, Frozen(cs), 1) == s && AfterMerge(ord, ps, deleted, cs, 0) == [[], [], [], [], []]
  {
    hide OneLeaf, Merge, Filter, Sorted;
    var froz := Frozen([s, [], [], [], []]);
    assert froz == [[], s, [], [], []] && froz[1..3] == [s, []];
    MergeOne(ord, s);
    FilterAll(deleted, s);
    FewInOneLeaf(ps, s);
  }

  /** A merge of the memory tree clears it if its first pair has neither a byte of key nor of value,
      however many pairs there are. */
  lemma BlankLosesAll(ord: Order, ps: nat, deleted: Deleted, s: seq<Pair>, r: real)
    requires ps > 0 && Sorted(ord, s) && s != [] && s[0] == Pair([], []) && !deleted(s[0])
    ensures var cs := [s, [], [], [], []];
            && !Safe(ord, ps, deleted, cs, 0)
            && View(ord, deleted, cs, ord(s[0].key)) == Some(s[0])
            && View(ord, deleted, AfterMerge(ord, ps, deleted, cs, 0), r) == None
  {
    hide OneLeaf, Get, GetIn, Merge, Sorted;
    var cs := [s, [], [], [], []];
    var froz := Frozen(cs);
    assert froz == [[], s, [], [], []] && froz[1..3] == [s, []];
    MergeOne(ord, s);
    FilterFirst(deleted, s);
    GetIs(ord, s, 0);
    assert cs == [s] + cs[1..];
    GetInConcat(ord, [s], cs[1..], ord(s[0].key));
    GetInOne(ord, s, ord(s[0].key));
    GetInNone(ord, [[], [], [], [], []], r);
    assert AfterMerge(ord, ps, deleted, cs, 0) == [[], [], [], [], []];
  }

  lemma {:induction false} FilterFirst(deleted: Deleted, s: seq<Pair>)
    requires s != [] && !deleted(s[0])
    ensures Filter(deleted, s) != []
  {
    if |s| > 1 { FilterFirst(deleted, s[..|s| - 1]); }
  }

  lemma MergeOne(ord: Order, s: seq<Pair>)
    requires Sorted(ord, s)
    ensures Merge(ord, [s, []]) == s
  {
    var none: seq<seq<Pair>> := [[]];
    assert [s, []][1..] == none && none[1..] == [];
    assert Merge(ord, none) == Over(ord, [], Merge(ord, [])) == [];
    OverNothing(ord, s);
  }

  lemma {:induction false} OverNothing(ord: Order, s: seq<Pair>)
    requires Sorted(ord, s)
    ensures Over(ord, s, []) == s
  {
    if s != [] {
      var n := |s| - 1;
      SortedPrefix(ord, s, n);
      OverNothing(ord, s[..n]);
      LbIs(ord, s[..n], ord(s[n].key), n);
      assert s == s[..n] + [s[n]];
    }
  }

  lemma {:induction false} FilterAll(deleted: Deleted, s: seq<Pair>)
    requires forall i :: 0 <= i < |s| ==> !deleted(s[i])
    ensures Filter(deleted, s) == s
  {
    if s != [] {
      var n := |s| - 1;
      FilterAll(deleted, s[..n]);
      assert s == s[..n] + [s[n]];
    }
  }

  /* ---------- Runs ---------- */

  datatype Op = Add(pair: Pair) | MergeTree(tree: nat) | FailedMerge(tree: nat)

  /** One call on the store. */
  ghost predicate Step(ord: Order, ps: nat, deleted: Deleted, cs: seq<seq<Pair>>, op: Op, cs': seq<seq<Pair>>)
    requires |cs| == COMPS && ps > 0
  {
    match op
    case Add(p) => cs' == cs[0 := Put(ord, cs[0], p)]
    case MergeTree(tree) => CanMerge(cs, tree) && cs' == AfterMerge(ord, ps, deleted, cs, tree)
    case FailedMerge(tree) => CanMerge(cs, tree) && cs' == if tree == 0 then Frozen(cs) else cs
  }

  ghost predicate SafeStep(ord: Order, ps: nat, deleted: Deleted, cs: seq<seq<Pair>>, op: Op)
    requires |cs| == COMPS && ps > 0
  {
    op.MergeTree? && CanMerge(cs, op.tree) ==> Safe(ord, ps, deleted, cs, op.tree)
  }

  /** A run from the empty store: the components before each call and after the last. */
  ghost predicate Run(ord: Order, ps: nat, deleted: Deleted, states: seq<seq<seq<Pair>>>, ops: seq<Op>)
    requires ps > 0
  {
    && |states| == |ops| + 1 && states[0] == [[], [], [], [], []]
    && (forall i :: 0 <= i < |states| ==> |states[i]| == COMPS)
    && (forall i :: 0 <= i < |ops| ==> Step(ord, ps, deleted, states[i], ops[i], states[i + 1]) && SafeStep(ord, ps, deleted, states[i], ops[i]))
  }

  /** A run that ends with these components. */
  ghost predicate RunTo(ord: Order, ps: nat, deleted: Deleted, states: seq<seq<seq<Pair>>>, ops: seq<Op>,
      cs: seq<seq<Pair>>)
    requires ps > 0
  {
    Run(ord, ps, deleted, states, ops) && states[|ops|] == cs
  }

  /** It goes on with a safe call. */
  lemma RunMore(ord: Order, ps: nat, deleted: Deleted, states: seq<seq<seq<Pair>>>, ops: seq<Op>,
      cs: seq<seq<Pair>>, op: Op, cs': seq<seq<Pair>>)
    requires ps > 0 && RunTo(ord, ps, deleted, states, ops, cs) && |cs| == COMPS == |cs'|
    requires Step(ord, ps, deleted, cs, op, cs') && SafeStep(ord, ps, deleted, cs, op)
    ensures RunTo(ord, ps, deleted, states + [cs'], ops + [op], cs')
  {
    hide Step, SafeStep;
  }

  /** The last pair added with a key. */
  ghost function LastAdded(ord: Order, ops: seq<Op>, r: real): Option<Pair> {
    if ops == [] then None else
      var op := ops[|ops| - 1];
      if op.Add? && ord(op.pair.key) == r then Some(op.pair) else LastAdded(ord, ops[..|ops| - 1], r)
  }

  /** After any run the view of a key is the last pair added with it, unless that is a deletion. */
  lemma {:induction false} RunView(ord: Order, ps: nat, deleted: Deleted, states: seq<seq<seq<Pair>>>,
      ops: seq<Op>, r: real)
    requires ps > 0 && Run(ord, ps, deleted, states, ops)
    ensures AllSorted(ord, states[|ops|]) &&
        View(ord, deleted, states[|ops|], r) == Live(deleted, LastAdded(ord, ops, r))
    decreases |ops|
  {
    hide GetIn, Sorted, Safe, AfterMerge, Put, CanMerge, Frozen;
    if ops == [] {
      SortedNothing(ord);
      GetInNone(ord, states[0], r);
    } else {
      var n := |ops| - 1;
      assert ops[..n] == ops[..|ops| - 1] && forall i :: 0 <= i < n ==> ops[..n][i] == ops[i];
      assert Run(ord, ps, deleted, states[..n + 1], ops[..n]);
      RunView(ord, ps, deleted, states[..n + 1], ops[..n], r);
      StepView(ord, ps, deleted, states[n], ops[n], states[n + 1], r);
    }
  }

  /** Without deletions a lookup finds a key exactly if it was added, with the last value added. */
  lemma RunLookup(ord: Order, ps: nat, states: seq<seq<seq<Pair>>>, ops: seq<Op>, r: real)
    requires ps > 0 && Run(ord, ps, p => false, states, ops)
    ensures GetIn(ord, states[|ops|], r) == LastAdded(ord, ops, r)
    ensures GetIn(ord, states[|ops|], r).Some? <==> exists i :: 0 <= i < |ops| && ops[i].Add? && ord(ops[i].pair.key) == r
  {
    RunView(ord, ps, p => false, states, ops, r);
    AddedOnce(ord, ops, r);
  }

  lemma {:induction false} AddedOnce(ord: Order, ops: seq<Op>, r: real)
    ensures LastAdded(ord, ops, r).Some? <==> exists i :: 0 <= i < |ops| && ops[i].Add? && ord(ops[i].pair.key) == r
  {
    if ops != [] {
      var n := |ops| - 1;
      AddedOnce(ord, ops[..n], r);
      assert forall i :: 0 <= i < n ==> ops[..n][i] == ops[i];
    }
  }

  lemma StepView(ord: Order, ps: nat, deleted: Deleted, cs: seq<seq<Pair>>, op: Op, cs': seq<seq<Pair>>, r: real)
    requires |cs| == COMPS && ps > 0 && AllSorted(ord, cs) && Step(ord, ps, deleted, cs, op, cs') &&
        SafeStep(ord, ps, deleted, cs, op)
    ensures AllSorted(ord, cs')
    ensures View(ord, deleted, cs', r) == if op.Add? &&
        ord(op.pair.key) == r then Live(deleted, Some(op.pair)) else View(ord, deleted, cs, r)
  {
    hide View, Sorted, AfterMerge, Safe, Put, Live;
    match op
    case Add(p) => AddView(ord, deleted, cs, p, r);
    case MergeTree(tree) => MergeKeepsView(ord, ps, deleted, cs, tree, r);
    case FailedMerge(tree) => if tree == 0 { FreezeKeepsView(ord, deleted, cs, r); }
  }
}
