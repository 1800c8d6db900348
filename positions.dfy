/** Index bookkeeping shared by the reconciler and the snapshot filter:
    positions that satisfy a test, in ascending order, and counting them. */
module Positions {

  /** Ascending and without duplicates. */
  predicate Increasing(s: seq<nat>) {
    forall i, j :: 0 <= i < j < |s| ==> s[i] < s[j]
  }

  /** The positions `k` of `s` where `p(s[k])` holds, in ascending order:
      the list comprehension `[k for k in range(len(s)) if p(s[k])]`. */
  function IndicesWhere<T>(s: seq<T>, p: T -> bool): (r: seq<nat>)
    ensures Increasing(r)
    ensures forall k: nat :: k in r <==> k < |s| && p(s[k])
    ensures |r| <= |s|
  {
    if |s| == 0 then []
    else
      var front := IndicesWhere(s[..|s| - 1], p);
      assert forall i :: 0 <= i < |front| ==> front[i] in front;
      if p(s[|s| - 1]) then front + [|s| - 1] else front
  }

  /** The positions where a boolean mask is set. */
  function TruePositions(mask: seq<bool>): (r: seq<nat>)
    ensures Increasing(r)
    ensures forall k: nat :: k in r <==> k < |mask| && mask[k]
  {
    IndicesWhere(mask, b => b)
  }

  /** `mask.sum()`: how many positions of the mask are set. */
  function Count(mask: seq<bool>): nat {
    |TruePositions(mask)|
  }

  /** Counting a mask one position at a time, from the end. */
  lemma CountSnoc(mask: seq<bool>, b: bool)
    ensures Count(mask + [b]) == Count(mask) + (if b then 1 else 0)
  {
    assert (mask + [b])[..|mask|] == mask;
  }

  /** Two different members make a sequence at least two long. */
  lemma TwoMembers(s: seq<nat>, a: nat, b: nat)
    requires a in s && b in s && a != b
    ensures |s| >= 2
  {
  }

  lemma HeadIsMember(s: seq<nat>)
    requires |s| > 0
    ensures s[0] in s
  {
  }

  /** An increasing sequence is determined by its members. */
  lemma {:induction false} SameMembers(a: seq<nat>, b: seq<nat>)
    requires Increasing(a) && Increasing(b)
    requires forall x :: x in a <==> x in b
    ensures a == b
    decreases |a|
  {
    if |a| > 0 && |b| > 0 {
      assert a[0] in b && b[0] in a;
      assert a[0] == b[0] by {
        assert forall k :: 0 < k < |a| ==> a[0] < a[k];
        assert forall k :: 0 < k < |b| ==> b[0] < b[k];
      }
      forall x ensures x in a[1..] <==> x in b[1..] {
        if x in a[1..] {
          assert x in a && x != a[0];
        }
        if x in b[1..] {
          assert x in b && x != b[0];
        }
        assert x in a && x != a[0] ==> x in a[1..];
        assert x in b && x != b[0] ==> x in b[1..];
      }
      SameMembers(a[1..], b[1..]);
      assert a == [a[0]] + a[1..] && b == [b[0]] + b[1..];
    } else if |a| > 0 {
      HeadIsMember(a);
      assert false;
    } else if |b| > 0 {
      HeadIsMember(b);
      assert false;
    }
  }
}
