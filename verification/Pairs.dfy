/** Keys, values, the order of keys, and sequences of pairs sorted by it. */
module Pairs {
  type byte = bv8
  type Bytes = seq<byte>
  datatype Pair = Pair(key: Bytes, val: Bytes)
  datatype Option<+T> = None | Some(value: T)

  // Error codes, returned negated.
  const ENOENT: int := 2
  const EIO: int := 5
  const ENOBUFS: int := 105

  /** The rank of a key. A comparison function is given by the ranks it induces: byte strings are
      countable, so every total preorder of them is one of ranks between 0 and 1. */
  type Rank = x: real | 0.0 < x < 1.0 witness 0.5
  type Order = Bytes -> Rank

  /** The comparison function: negative, zero or positive. */
  function Cmp(ord: Order, a: Bytes, b: Bytes): int {
    if ord(a) < ord(b) then -1 else if ord(a) > ord(b) then 1 else 0
  }

  /* ---------- Sorted sequences ---------- */

  ghost predicate Sorted(ord: Order, s: seq<Pair>) {
    forall i, j :: 0 <= i < j < |s| ==> ord(s[i].key) < ord(s[j].key)
  }

  /** The place of the first pair whose key is not below `r`. */
  ghost function Lb(ord: Order, s: seq<Pair>, r: real): (k: nat)
    ensures k <= |s|
    ensures forall i :: 0 <= i < k ==> ord(s[i].key) < r
    ensures k < |s| ==> r <= ord(s[k].key)
  {
    if s == [] || r <= ord(s[0].key) then 0 else
      var k := Lb(ord, s[1..], r);
      assert forall i :: 1 <= i < k + 1 ==> s[i] == s[1..][i - 1];
      k + 1
  }

  lemma LbIs(ord: Order, s: seq<Pair>, r: real, k: nat)
    requires k <= |s| && (forall i :: 0 <= i < k ==> ord(s[i].key) < r) && (k < |s| ==> r <= ord(s[k].key))
    ensures Lb(ord, s, r) == k
  {
  }

  /** The sorted sequence with `p` put in, replacing a pair with an equal key. */
  ghost function Put(ord: Order, s: seq<Pair>, p: Pair): seq<Pair> {
    var k := Lb(ord, s, ord(p.key));
    if k < |s| && ord(s[k].key) == ord(p.key) then s[k := p] else s[..k] + [p] + s[k..]
  }

  ghost function Get(ord: Order, s: seq<Pair>, r: real): Option<Pair> {
    var k := Lb(ord, s, r);
    if k < |s| && ord(s[k].key) == r then Some(s[k]) else None
  }

  /** The place of the first pair whose key is above `r`. */
  ghost function Ub(ord: Order, s: seq<Pair>, r: real): (k: nat)
    ensures k <= |s|
  {
    Lb(ord, s, r) + if Get(ord, s, r).Some? then 1 else 0
  }

  lemma UbAt(ord: Order, s: seq<Pair>, r: real, i: nat)
    requires Sorted(ord, s) && i < |s|
    ensures i < Ub(ord, s, r) <==> ord(s[i].key) <= r
  {
  }

  /** It is the only such place. */
  lemma UbIs(ord: Order, s: seq<Pair>, r: real, k: nat)
    requires Sorted(ord, s) && k <= |s| && (forall i :: 0 <= i < k ==> ord(s[i].key) <= r)
    requires k < |s| ==> r < ord(s[k].key)
    ensures Ub(ord, s, r) == k
  {
    hide Ub;
    var u := Ub(ord, s, r);
    if u < |s| { UbAt(ord, s, r, u); }
    if k < |s| { UbAt(ord, s, r, k); }
  }

  lemma PutSorted(ord: Order, s: seq<Pair>, p: Pair)
    requires Sorted(ord, s)
    ensures Sorted(ord, Put(ord, s, p))
  {
  }

  lemma GetIs(ord: Order, s: seq<Pair>, i: nat)
    requires Sorted(ord, s) && i < |s|
    ensures Get(ord, s, ord(s[i].key)) == Some(s[i])
  {
    LbIs(ord, s, ord(s[i].key), i);
  }

  lemma GetPut(ord: Order, s: seq<Pair>, p: Pair, r: real)
    requires Sorted(ord, s)
    ensures Get(ord, Put(ord, s, p), r) == if r == ord(p.key) then Some(p) else Get(ord, s, r)
  {
    hide Lb;
    var t, k := Put(ord, s, p), Lb(ord, s, ord(p.key));
    PutSorted(ord, s, p);
    assert t[k] == p;
    if r == ord(p.key) {
      GetIs(ord, t, k);
    } else {
      LbPut(ord, s, p, r);
      PutKeeps(ord, s, p, r);
    }
  }

  /** What stands at the place of another key stays the same. */
  lemma PutKeeps(ord: Order, s: seq<Pair>, p: Pair, r: real)
    requires Sorted(ord, s) && r != ord(p.key)
    ensures var t, l := Put(ord, s, p), Lb(ord, s, r);
            var l' := if |t| == |s| || r < ord(p.key) then l else l + 1;
            l < |s| && ord(s[l].key) == r ==> l' < |t| && t[l'] == s[l]
    ensures var t, l := Put(ord, s, p), Lb(ord, s, r);
            var l' := if |t| == |s| || r < ord(p.key) then l else l + 1;
            l' < |t| && ord(t[l'].key) == r ==> l < |s| && t[l'] == s[l]
  {
    hide Lb;
  }

  /** The place of another key in the sequence with `p` put in. */
  lemma LbPut(ord: Order, s: seq<Pair>, p: Pair, r: real)
    requires Sorted(ord, s) && r != ord(p.key)
    ensures var t, l := Put(ord, s, p), Lb(ord, s, r);
            Lb(ord, t, r) == if |t| == |s| || r < ord(p.key) then l else l + 1
  {
    hide Lb;
    var t, l := Put(ord, s, p), Lb(ord, s, r);
    PutSorted(ord, s, p);
    LbIs(ord, t, r, if |t| == |s| || r < ord(p.key) then l else l + 1);
  }
}
