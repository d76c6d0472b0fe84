/** Sequence helpers standing in for the `Vec` operations the source uses:
    a linear search that stops at the first match, and `Vec::swap_remove`. */
module Seqs {
  import opened Results

  /** Index of the first element satisfying `p`, as the source's
      `for (i, x) in v.iter().enumerate() { if .. { return .. } }` loops find it. */
  function First<T>(s: seq<T>, p: T -> bool): (r: Option<nat>)
    ensures r.Some? ==> r.value < |s| && p(s[r.value])
    ensures r.Some? ==> forall j :: 0 <= j < r.value ==> !p(s[j])
    ensures r.None? <==> forall j :: 0 <= j < |s| ==> !p(s[j])
  {
    if |s| == 0 then None
    else if p(s[0]) then Some(0)
    else match First(s[1..], p)
      case None => None
      case Some(i) => Some(i + 1)
  }

  /** `Vec::swap_remove(i)`: the last element takes the place of the removed one. */
  function SwapRemove<T>(s: seq<T>, i: nat): (r: seq<T>)
    requires i < |s|
    ensures |r| == |s| - 1
    ensures forall j :: 0 <= j < |r| && j != i ==> r[j] == s[j]
    ensures i < |r| ==> r[i] == s[|s| - 1]
  {
    if i == |s| - 1 then s[..i] else s[..i] + [s[|s| - 1]] + s[i + 1..|s| - 1]
  }

  /** What `swap_remove` keeps: every element but the one at `i`, counted with multiplicity. */
  lemma SwapRemoveMultiset<T>(s: seq<T>, i: nat)
    requires i < |s|
    ensures multiset(SwapRemove(s, i)) == multiset(s) - multiset{s[i]}
  {
    var last := |s| - 1;
    if i == last {
      assert s == s[..i] + [s[i]];
      TakeOne(multiset(s), multiset(s[..i]), s[i]);
    } else {
      var a, x, b, y := s[..i], s[i], s[i + 1..last], s[last];
      assert s == a + [x] + b + [y];
      assert SwapRemove(s, i) == a + [y] + b;
      SwapMultiset(a, x, b, y);
      TakeOne(multiset(s), multiset(a + [y] + b), x);
    }
  }

  lemma SwapMultiset<T>(a: seq<T>, x: T, b: seq<T>, y: T)
    ensures multiset(a + [x] + b + [y]) == multiset(a + [y] + b) + multiset{x}
  {
  }

  lemma TakeOne<T>(m: multiset<T>, r: multiset<T>, x: T)
    requires m == r + multiset{x}
    ensures r == m - multiset{x}
  {
  }

  /** Every element that is not the removed slot survives `swap_remove`, and nothing new appears. */
  lemma SwapRemoveMembers<T>(s: seq<T>, i: nat, x: T)
    requires i < |s|
    ensures x in SwapRemove(s, i) <==> exists j :: 0 <= j < |s| && j != i && s[j] == x
  {
    var r := SwapRemove(s, i);
    if x in r {
      var k :| 0 <= k < |r| && r[k] == x;
      if k == i { assert s[|s| - 1] == x && |s| - 1 != i; } else { assert s[k] == x; }
    }
    if exists j :: 0 <= j < |s| && j != i && s[j] == x {
      var j :| 0 <= j < |s| && j != i && s[j] == x;
      if j == |s| - 1 { assert r[i] == x; } else { assert r[j] == x; }
    }
  }
}
