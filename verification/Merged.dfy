/** Several sorted sequences seen as one: the sorted union of their keys, each with the pair of the
    first sequence that has it. */
module Merged {
  import opened Pairs

  // Above the rank of every key: where a cursor at the end stands.
  const TOP: real := 1.0

  ghost predicate AllSorted(ord: Order, cs: seq<seq<Pair>>) {
    forall i :: 0 <= i < |cs| ==> Sorted(ord, cs[i])
  }

  /** The pair that counts for a key: the one of the first sequence that has the key. */
  ghost function GetIn(ord: Order, cs: seq<seq<Pair>>, r: real): Option<Pair> {
    if cs == [] then None else
      var p := Get(ord, cs[0], r);
      if p.Some? then p else GetIn(ord, cs[1..], r)
  }

  /** `below` with all the pairs of `above` put in. */
  ghost function Over(ord: Order, above: seq<Pair>, below: seq<Pair>): seq<Pair> {
    if above == [] then below else Put(ord, Over(ord, above[..|above| - 1], below), above[|above| - 1])
  }

  ghost function Merge(ord: Order, cs: seq<seq<Pair>>): seq<Pair> {
    if cs == [] then [] else Over(ord, cs[0], Merge(ord, cs[1..]))
  }

  lemma {:induction false} OverGet(ord: Order, above: seq<Pair>, below: seq<Pair>, r: real)
    requires Sorted(ord, above) && Sorted(ord, below)
    ensures Sorted(ord, Over(ord, above, below))
    ensures Get(ord, Over(ord, above, below), r) == if Get(ord, above, r).Some? then Get(ord, above, r)
        else Get(ord, below, r)
  {
    if above == [] {
      assert Get(ord, above, r) == None;
    } else {
      var n := |above| - 1;
      var rest, p := above[..n], above[n];
      SortedPrefix(ord, above, n);
      OverGet(ord, rest, below, r);
      GetLast(ord, above, r);
      hide Get, Sorted, Put;
      PutSorted(ord, Over(ord, rest, below), p);
      GetPut(ord, Over(ord, rest, below), p, r);
    }
  }

  lemma SortedPrefix(ord: Order, s: seq<Pair>, n: nat)
    requires Sorted(ord, s) && n <= |s|
    ensures Sorted(ord, s[..n])
  {
  }

  lemma GetLast(ord: Order, s: seq<Pair>, r: real)
    requires Sorted(ord, s) && s != []
    ensures var n := |s| - 1; Get(ord, s, r) == if r == ord(s[n].key) then Some(s[n]) else Get(ord, s[..n], r)
  {
    hide Lb;
    var n := |s| - 1;
    var rest := s[..n];
    if r == ord(s[n].key) {
      GetIs(ord, s, n);
    } else {
      var k := Lb(ord, rest, r);
      LbIs(ord, s, r, if k == n && ord(s[n].key) < r then n + 1 else k);
    }
  }

  lemma {:induction false} MergeGet(ord: Order, cs: seq<seq<Pair>>, r: real)
    requires AllSorted(ord, cs)
    ensures Sorted(ord, Merge(ord, cs)) && Get(ord, Merge(ord, cs), r) == GetIn(ord, cs, r)
  {
    if cs == [] {
      assert Get(ord, [], r) == None;
    } else {
      assert AllSorted(ord, cs[1..]) by { assert forall i :: 0 <= i < |cs[1..]| ==> cs[1..][i] == cs[i + 1]; }
      hide Get, Sorted, Over;
      MergeGet(ord, cs[1..], r);
      OverGet(ord, cs[0], Merge(ord, cs[1..]), r);
    }
  }

  /** Whether a sequence has a key of this rank. */
  ghost predicate Has(ord: Order, s: seq<Pair>, r: real) {
    Get(ord, s, r).Some?
  }

  lemma HasAt(ord: Order, s: seq<Pair>, i: nat)
    requires Sorted(ord, s) && i < |s|
    ensures Has(ord, s, ord(s[i].key)) && Get(ord, s, ord(s[i].key)) == Some(s[i]) && Lb(ord, s, ord(s[i].key)) == i
  {
    GetIs(ord, s, i);
    LbIs(ord, s, ord(s[i].key), i);
  }

  /** A key is in the union exactly if it is in one of the sequences. */
  lemma {:induction false} InOne(ord: Order, cs: seq<seq<Pair>>, r: real)
    ensures GetIn(ord, cs, r).Some? <==> exists i :: 0 <= i < |cs| && Has(ord, cs[i], r)
  {
    hide Get;
    if cs != [] {
      InOne(ord, cs[1..], r);
      if GetIn(ord, cs[1..], r).Some? {
        var i :| 0 <= i < |cs[1..]| && Has(ord, cs[1..][i], r);
        assert Has(ord, cs[i + 1], r);
      }
      if exists i :: 0 <= i < |cs| && Has(ord, cs[i], r) {
        var i :| 0 <= i < |cs| && Has(ord, cs[i], r);
        if i > 0 { assert Has(ord, cs[1..][i - 1], r); }
      }
    }
  }

  /** The first sequence that has the key decides. */
  lemma {:induction false} FirstHas(ord: Order, cs: seq<seq<Pair>>, r: real, i: nat)
    requires i < |cs| && Has(ord, cs[i], r) && forall j :: 0 <= j < i ==> !Has(ord, cs[j], r)
    ensures GetIn(ord, cs, r) == Get(ord, cs[i], r)
  {
    hide Get;
    if i > 0 {
      assert !Has(ord, cs[0], r);
      assert forall j :: 0 <= j < i - 1 ==> cs[1..][j] == cs[j + 1];
      FirstHas(ord, cs[1..], r, i - 1);
    }
  }

  /* ---------- Places in the union ---------- */

  /** No key of any sequence has a rank from `a` up to `b`. */
  ghost predicate Gap(ord: Order, cs: seq<seq<Pair>>, a: real, b: real) {
    forall i, k :: 0 <= i < |cs| && 0 <= k < |cs[i]| ==> !(a <= ord(cs[i][k].key) < b)
  }

  /** Every key of the union is one of a sequence. */
  lemma KeyOfUnion(ord: Order, cs: seq<seq<Pair>>, k: nat) returns (i: nat, j: nat)
    requires AllSorted(ord, cs) && k < |Merge(ord, cs)|
    ensures i < |cs| && j < |cs[i]| && ord(cs[i][j].key) == ord(Merge(ord, cs)[k].key)
  {
    hide Merge, Lb;
    var r := ord(Merge(ord, cs)[k].key);
    MergeGet(ord, cs, r);
    HasAt(ord, Merge(ord, cs), k);
    InOne(ord, cs, r);
    i :| 0 <= i < |cs| && Has(ord, cs[i], r);
    j := Lb(ord, cs[i], r);
  }

  /** Neither has the union. */
  lemma GapUnion(ord: Order, cs: seq<seq<Pair>>, a: real, b: real)
    requires AllSorted(ord, cs) && Gap(ord, cs, a, b) && a <= b
    ensures Sorted(ord, Merge(ord, cs)) && Lb(ord, Merge(ord, cs), a) == Lb(ord, Merge(ord, cs), b)
  {
    hide Merge, Lb;
    MergeGet(ord, cs, a);
    var m := Merge(ord, cs);
    var k := Lb(ord, m, a);
    if k < |m| {
      var i, j := KeyOfUnion(ord, cs, k);
    }
    LbIs(ord, m, b, k);
  }

  /** Past a key that is there. */
  lemma StepUnion(ord: Order, cs: seq<seq<Pair>>, r: real, r': real)
    requires AllSorted(ord, cs) && r < r' && GetIn(ord, cs, r).Some?
    requires forall i, k :: 0 <= i < |cs| && 0 <= k < |cs[i]| ==> !(r < ord(cs[i][k].key) < r')
    ensures Sorted(ord, Merge(ord, cs)) && Lb(ord, Merge(ord, cs), r') == Lb(ord, Merge(ord, cs), r) + 1
  {
    hide Merge, Lb;
    MergeGet(ord, cs, r);
    var m := Merge(ord, cs);
    var k := Lb(ord, m, r);
    if k + 1 < |m| {
      var i, j := KeyOfUnion(ord, cs, k + 1);
    }
    LbIs(ord, m, r', k + 1);
  }

  /* ---------- The places of several cursors ---------- */

  /** A key or its value has a byte. */
  predicate Tangible(p: Pair) {
    |p.key| + |p.val| > 0
  }

  /** What a cursor shows of an item. It keeps a copy in a buffer of `size` bytes, which is there only
      once it had to hold a byte, and takes a missing buffer for a missing item. */
  ghost function Copied(p: Option<Pair>, size: nat): Option<Pair> {
    if p.Some? && (Tangible(p.value) || size > 0) then p else None
  }

  ghost function ItemAt(s: seq<Pair>, k: nat): Option<Pair> {
    if k < |s| then Some(s[k]) else None
  }

  /** The cursor invariant for one sequence: at the place of the current key, or just before it if
      the sequence lacks the key. */
  ghost predicate StandsAt(ord: Order, s: seq<Pair>, k: nat, r: real) {
    k == Lb(ord, s, r) || (k + 1 == Lb(ord, s, r) && !Has(ord, s, r))
  }

  ghost predicate Steady(ord: Order, cs: seq<seq<Pair>>, ps: seq<nat>, r: real) {
    |ps| == |cs| && forall i :: 0 <= i < |cs| ==> StandsAt(ord, cs[i], ps[i], r)
  }

  /** The item shown is the pair that counts for the current key; at the end there is none. */
  ghost predicate Current(ord: Order, cs: seq<seq<Pair>>, r: real, item: Option<Pair>) {
    if item.None? then r == TOP else r == ord(item.value.key) && item == GetIn(ord, cs, r)
  }

  ghost function RankOf(ord: Order, item: Option<Pair>): real {
    if item.None? then TOP else ord(item.value.key)
  }

  /** Just past the key. */
  ghost predicate Past(ord: Order, s: seq<Pair>, k: nat, r: real) {
    k <= |s| && (forall i :: 0 <= i < k ==> ord(s[i].key) <= r) && (k < |s| ==> r < ord(s[k].key))
  }

  ghost predicate AllPast(ord: Order, cs: seq<seq<Pair>>, ps: seq<nat>, r: real) {
    |ps| == |cs| && forall i :: 0 <= i < |cs| ==> Past(ord, cs[i], ps[i], r)
  }

  ghost predicate AllLb(ord: Order, cs: seq<seq<Pair>>, ps: seq<nat>, r: real) {
    |ps| == |cs| && forall i :: 0 <= i < |cs| ==> ps[i] == Lb(ord, cs[i], r)
  }

  /** Just before the key, or at the start. */
  ghost predicate Prior(ord: Order, s: seq<Pair>, k: nat, r: real) {
    k == if Lb(ord, s, r) > 0 then Lb(ord, s, r) - 1 else 0
  }

  /** Back before the key from place `k0`, or to the start. */
  ghost predicate Back(ord: Order, s: seq<Pair>, k0: nat, k: nat, r: real) {
    k == if Lb(ord, s, r) == 0 then 0 else if k0 < Lb(ord, s, r) then k0 else Lb(ord, s, r) - 1
  }

  ghost predicate AllBack(ord: Order, cs: seq<seq<Pair>>, ps0: seq<nat>, ps: seq<nat>, r: real) {
    |ps0| == |ps| == |cs| && forall i :: 0 <= i < |cs| ==> Back(ord, cs[i], ps0[i], ps[i], r)
  }

  ghost predicate AllPrior(ord: Order, cs: seq<seq<Pair>>, ps: seq<nat>, r: real) {
    |ps| == |cs| && forall i :: 0 <= i < |cs| ==> Prior(ord, cs[i], ps[i], r)
  }

  /** The smallest item under the cursors, the first one of equals. */
  ghost predicate Smallest(ord: Order, cs: seq<seq<Pair>>, ps: seq<nat>, best: Option<Pair>, b: nat) {
    && |ps| == |cs|
    && (best.None? ==> forall i :: 0 <= i < |cs| ==> ps[i] >= |cs[i]|)
    && (best.Some? ==>
          && b < |cs| && ps[b] < |cs[b]| && best.value == cs[b][ps[b]]
          && (forall i :: 0 <= i < |cs| && ps[i] < |cs[i]| ==> RankOf(ord, best) <= ord(cs[i][ps[i]].key))
          && (forall i :: 0 <= i < b && ps[i] < |cs[i]| ==> RankOf(ord, best) < ord(cs[i][ps[i]].key)))
  }

  /** The largest item under the cursors with a key below `r`, the first one of equals. */
  ghost predicate Largest(ord: Order, cs: seq<seq<Pair>>, ps: seq<nat>, r: real, best: Option<Pair>, b: nat) {
    && |ps| == |cs| && best.Some? && b < |cs| && ps[b] < |cs[b]| && best.value == cs[b][ps[b]] && RankOf(ord, best) < r
    && (forall i :: 0 <= i < |cs| && ps[i] < |cs[i]| && ord(cs[i][ps[i]].key) < r ==>
        ord(cs[i][ps[i]].key) <= RankOf(ord, best))
    && (forall i :: 0 <= i < b && ps[i] < |cs[i]| && ord(cs[i][ps[i]].key) < r ==>
        ord(cs[i][ps[i]].key) < RankOf(ord, best))
  }

  /** If no sequence has a key between where its cursor stands and the smallest item, then all
      cursors are at the place of that item. */
  lemma SmallestIsCurrent(ord: Order, cs: seq<seq<Pair>>, ps: seq<nat>, best: Option<Pair>, b: nat)
    requires AllSorted(ord, cs) && Smallest(ord, cs, ps, best, b)
    requires forall i :: 0 <= i < |cs| ==> ps[i] <= |cs[i]| && (ps[i] > 0 ==>
        ord(cs[i][ps[i] - 1].key) < RankOf(ord, best))
    ensures AllLb(ord, cs, ps, RankOf(ord, best)) && Steady(ord, cs, ps, RankOf(ord, best)) &&
        Current(ord, cs, RankOf(ord, best), best)
  {
    var r := RankOf(ord, best);
    forall i | 0 <= i < |cs|
      ensures ps[i] == Lb(ord, cs[i], r)
    {
      assert Sorted(ord, cs[i]);
      LbIs(ord, cs[i], r, ps[i]);
    }
    if best.Some? {
      HasAt(ord, cs[b], ps[b]);
      FirstHas(ord, cs, r, b);
    }
  }

  /** `lsm_begin` and `lsm_lower_bound`. */
  lemma FirstCurrent(ord: Order, cs: seq<seq<Pair>>, ps: seq<nat>, a: real, best: Option<Pair>, b: nat)
    requires AllSorted(ord, cs) && Smallest(ord, cs, ps, best, b) && AllLb(ord, cs, ps, a) && a <= TOP
    ensures Steady(ord, cs, ps, RankOf(ord, best)) && Current(ord, cs, RankOf(ord, best), best) &&
        a <= RankOf(ord, best)
    ensures Lb(ord, Merge(ord, cs), RankOf(ord, best)) == Lb(ord, Merge(ord, cs), a)
  {
    hide Merge, GetIn;
    SmallestIsCurrent(ord, cs, ps, best, b);
    assert Gap(ord, cs, a, RankOf(ord, best)) by {
      forall i, k | 0 <= i < |cs| && 0 <= k < |cs[i]|
        ensures !(a <= ord(cs[i][k].key) < RankOf(ord, best))
      {
        assert Sorted(ord, cs[i]);
      }
    }
    GapUnion(ord, cs, a, RankOf(ord, best));
  }

  /** `lsm_next`: one place on in the union. */
  lemma NextCurrent(ord: Order, cs: seq<seq<Pair>>, ps: seq<nat>, r: real, best: Option<Pair>, b: nat)
    requires AllSorted(ord, cs) && Smallest(ord, cs, ps, best, b) && AllPast(ord, cs, ps, r) &&
        GetIn(ord, cs, r).Some? && r < TOP
    ensures Steady(ord, cs, ps, RankOf(ord, best)) && Current(ord, cs, RankOf(ord, best), best)
    ensures Lb(ord, Merge(ord, cs), RankOf(ord, best)) == Lb(ord, Merge(ord, cs), r) + 1
  {
    hide Merge, GetIn, Lb;
    var r' := RankOf(ord, best);
    assert r < r';
    SmallestIsCurrent(ord, cs, ps, best, b);
    forall i, k | 0 <= i < |cs| && 0 <= k < |cs[i]|
      ensures !(r < ord(cs[i][k].key) < r')
    {
      assert Sorted(ord, cs[i]) && Past(ord, cs[i], ps[i], r);
    }
    StepUnion(ord, cs, r, r');
  }

  /** `lsm_prev`: one place back in the union. */
  lemma PrevCurrent(ord: Order, cs: seq<seq<Pair>>, ps: seq<nat>, r: real, best: Option<Pair>, b: nat)
    requires AllSorted(ord, cs) && Largest(ord, cs, ps, r, best, b) && AllPrior(ord, cs, ps, r)
    ensures Steady(ord, cs, ps, RankOf(ord, best)) && Current(ord, cs, RankOf(ord, best), best)
    ensures Lb(ord, Merge(ord, cs), RankOf(ord, best)) + 1 == Lb(ord, Merge(ord, cs), r)
  {
    hide Merge, GetIn;
    var r' := RankOf(ord, best);
    forall i | 0 <= i < |cs|
      ensures StandsAt(ord, cs[i], ps[i], r') && (i < b ==> !Has(ord, cs[i], r'))
    {
      assert Sorted(ord, cs[i]) && Prior(ord, cs[i], ps[i], r);
      PriorStands(ord, cs[i], ps[i], r, r');
    }
    HasAt(ord, cs[b], ps[b]);
    FirstHas(ord, cs, r', b);
    forall i, k | 0 <= i < |cs| && 0 <= k < |cs[i]|
      ensures !(r' < ord(cs[i][k].key) < r)
    {
      assert Sorted(ord, cs[i]) && Prior(ord, cs[i], ps[i], r);
    }
    StepUnion(ord, cs, r', r);
  }

  lemma PriorStands(ord: Order, s: seq<Pair>, k: nat, r: real, r': real)
    requires Sorted(ord, s) && Prior(ord, s, k, r) && r' < r
    requires k < |s| && ord(s[k].key) < r ==> ord(s[k].key) <= r'
    ensures StandsAt(ord, s, k, r')
    ensures k < |s| && ord(s[k].key) != r' ==> !Has(ord, s, r')
  {
    var l := Lb(ord, s, r);
    if l == 0 {
      LbIs(ord, s, r', 0);
    } else if ord(s[k].key) == r' {
      LbIs(ord, s, r', k);
    } else {
      LbIs(ord, s, r', l);
    }
  }

  /** Nothing is left before the start. */
  lemma NothingBefore(ord: Order, cs: seq<seq<Pair>>, r: real)
    requires AllSorted(ord, cs) && forall i :: 0 <= i < |cs| ==> Lb(ord, cs[i], r) == 0
    ensures Lb(ord, Merge(ord, cs), r) == 0
  {
    hide Merge;
    if Lb(ord, Merge(ord, cs), r) > 0 {
      var i, j := KeyOfUnion(ord, cs, 0);
    }
  }

  lemma SomethingBefore(ord: Order, cs: seq<seq<Pair>>, r: real)
    requires AllSorted(ord, cs) && exists i :: 0 <= i < |cs| && Lb(ord, cs[i], r) > 0
    ensures Lb(ord, Merge(ord, cs), r) > 0
  {
    hide Merge, Lb;
    var i :| 0 <= i < |cs| && Lb(ord, cs[i], r) > 0;
    var r' := ord(cs[i][0].key);
    HasAt(ord, cs[i], 0);
    InOne(ord, cs, r');
    MergeGet(ord, cs, r');
  }

  /** The place of an item, and of the end. */
  lemma PlaceOf(ord: Order, cs: seq<seq<Pair>>, item: Option<Pair>)
    requires AllSorted(ord, cs) && Current(ord, cs, RankOf(ord, item), item)
    ensures var m, k := Merge(ord, cs), Lb(ord, Merge(ord, cs), RankOf(ord, item));
            k <= |m| && (item.None? <==> k == |m|) && (item.Some? ==> m[k] == item.value)
  {
    hide Merge, GetIn;
    var m, r := Merge(ord, cs), RankOf(ord, item);
    MergeGet(ord, cs, r);
    if item.None? { LbIs(ord, m, r, |m|); }
  }

  /** The pair that counts is one of the pairs. */
  lemma {:induction false} PairOf(ord: Order, cs: seq<seq<Pair>>, r: real) returns (i: nat)
    requires GetIn(ord, cs, r).Some?
    ensures i < |cs| && GetIn(ord, cs, r).value in cs[i]
    decreases |cs|
  {
    var p := Get(ord, cs[0], r);
    if p.Some? {
      i := 0;
    } else {
      i := PairOf(ord, cs[1..], r);
      i := i + 1;
    }
  }
}
