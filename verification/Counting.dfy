/** Counting arguments shared by several parts. */
module Counting {

  lemma {:induction false} SubsetSize<T>(a: set<T>, b: set<T>)
    requires a <= b
    ensures |a| <= |b|
    decreases |a|
  {
    if x :| x in a {
      SubsetSize(a - {x}, b - {x});
    }
  }

  ghost function Below(n: nat): (r: set<nat>)
    ensures |r| == n
    ensures forall x: nat :: x in r <==> x < n
  {
    if n == 0 then {} else Below(n - 1) + {n - 1}
  }

  ghost predicate Injective(at: seq<nat>) {
    forall i, j :: 0 <= i < j < |at| ==> at[i] != at[j]
  }

  lemma {:induction false} ImageSize(at: seq<nat>)
    requires Injective(at)
    ensures |set i | 0 <= i < |at| :: at[i]| == |at|
    decreases |at|
  {
    if at != [] {
      var n := |at| - 1;
      ImageSize(at[..n]);
      var small := set i | 0 <= i < n :: at[..n][i];
      assert (set i | 0 <= i < |at| :: at[i]) == small + {at[n]};
      assert at[n] !in small;
    }
  }

  // Different numbers below n: at most n of them.
  lemma Pigeonhole(at: seq<nat>, n: nat)
    requires Injective(at) && forall i :: 0 <= i < |at| ==> at[i] < n
    ensures |at| <= n
  {
    var used := set i | 0 <= i < |at| :: at[i];
    ImageSize(at);
    SubsetSize(used, Below(n));
  }

  // And if there are n of them, every number below n is among them.
  lemma InjectionFills(at: seq<nat>, n: nat, slot: nat)
    requires |at| == n && slot < n && Injective(at) && forall i :: 0 <= i < n ==> at[i] < n
    ensures exists i :: 0 <= i < n && at[i] == slot
  {
    var used := set i | 0 <= i < n :: at[i];
    ImageSize(at);
    if slot !in used {
      assert used <= Below(n) - {slot};
      SubsetSize(used, Below(n) - {slot});
    }
  }
}
