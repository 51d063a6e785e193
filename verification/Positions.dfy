/** Where the entries of a filtered list came from: both ends of the protocol pick out the good
    entries, work on those, and put the results back in place. */
module Positions {

  /** How many of the first n places are ok. */
  function Rank(ok: seq<bool>, n: nat): nat
    requires n <= |ok|
  {
    if n == 0 then 0 else Rank(ok, n - 1) + if ok[n - 1] then 1 else 0
  }

  /** Ranks never go down, and go up after each place that is ok. */
  lemma {:induction false} RankGrows(ok: seq<bool>, i: nat, j: nat)
    requires i < j <= |ok|
    ensures Rank(ok, i) + (if ok[i] then 1 else 0) <= Rank(ok, j)
  {
    if i + 1 < j {
      RankGrows(ok, i, j - 1);
    }
  }

  lemma {:induction false} RankAppend(ok: seq<bool>, b: bool, n: nat)
    requires n <= |ok|
    ensures Rank(ok + [b], n) == Rank(ok, n)
  {
    if n > 0 {
      RankAppend(ok, b, n - 1);
    }
  }

  /** The places that are ok, in order. */
  ghost predicate Indexed(ok: seq<bool>, idx: seq<nat>) {
    && |idx| == Rank(ok, |ok|)
    && forall j :: 0 <= j < |idx| ==> idx[j] < |ok| && ok[idx[j]] && Rank(ok, idx[j]) == j
  }

  lemma IndexedStep(ok: seq<bool>, idx: seq<nat>, b: bool)
    requires Indexed(ok, idx)
    ensures Indexed(ok + [b], if b then idx + [|ok|] else idx)
  {
    forall n | 0 <= n <= |ok| {
      RankAppend(ok, b, n);
    }
  }

  /** A place that is ok is the one its rank points back to. */
  lemma OwnPosition(ok: seq<bool>, idx: seq<nat>, k: nat)
    requires Indexed(ok, idx) && k < |ok| && ok[k]
    ensures Rank(ok, k) < |idx| && idx[Rank(ok, k)] == k
  {
    RankGrows(ok, k, |ok|);
    var i := idx[Rank(ok, k)];
    if i < k {
      RankGrows(ok, i, k);
    } else if k < i {
      RankGrows(ok, k, i);
    }
  }

  function Places(ok: seq<bool>): seq<nat> {
    if ok == [] then []
    else
      var n := |ok| - 1;
      Places(ok[..n]) + if ok[n] then [n] else []
  }

  lemma PlacesAppend(ok: seq<bool>, b: bool)
    ensures Places(ok + [b]) == Places(ok) + if b then [|ok|] else []
  {
    assert (ok + [b])[..|ok|] == ok;
  }

  lemma {:induction false} PlacesIndexed(ok: seq<bool>)
    ensures Indexed(ok, Places(ok))
  {
    if ok != [] {
      var n := |ok| - 1;
      PlacesIndexed(ok[..n]);
      PlacesNext(ok[..n], ok[n]);
      assert ok[..n] + [ok[n]] == ok;
    }
  }

  lemma PlacesNext(ok: seq<bool>, b: bool)
    requires Indexed(ok, Places(ok))
    ensures Indexed(ok + [b], Places(ok + [b]))
  {
    IndexedStep(ok, Places(ok), b);
    PlacesAppend(ok, b);
  }

  /** The elements at the places that are ok. */
  function Chosen<T>(ok: seq<bool>, all: seq<T>): seq<T>
    requires |ok| <= |all|
  {
    if ok == [] then []
    else
      var n := |ok| - 1;
      Chosen(ok[..n], all) + if ok[n] then [all[n]] else []
  }

  lemma ChosenAppend<T>(ok: seq<bool>, b: bool, all: seq<T>)
    requires |ok| < |all|
    ensures Chosen(ok + [b], all) == Chosen(ok, all) + if b then [all[|ok|]] else []
  {
    assert (ok + [b])[..|ok|] == ok;
  }

  lemma {:induction false} ChosenLonger<T>(ok: seq<bool>, all: seq<T>, more: seq<T>)
    requires |ok| <= |all|
    ensures Chosen(ok, all + more) == Chosen(ok, all)
  {
    if ok != [] {
      ChosenLonger(ok[..|ok| - 1], all, more);
    }
  }

  lemma {:induction false} ChosenAt<T>(ok: seq<bool>, all: seq<T>, k: nat)
    requires |ok| <= |all|
    ensures |Chosen(ok, all)| == |Places(ok)|
    ensures k < |Places(ok)| ==> Places(ok)[k] < |ok| && Chosen(ok, all)[k] == all[Places(ok)[k]]
  {
    if ok != [] {
      ChosenAt(ok[..|ok| - 1], all, k);
    }
  }

  /** Two selections of the same list agree on their k-th place t exactly if t is in both and
      as many places before it are in the one as in the other. */
  lemma SamePlace(a: seq<bool>, b: seq<bool>, k: nat, t: nat)
    requires k < |Places(a)| && k < |Places(b)| && t == Places(b)[k]
    ensures t < |b|
    ensures Places(a)[k] == t <==> t < |a| && a[t] && Rank(a, t) == Rank(b, t)
  {
    PlacesIndexed(a);
    PlacesIndexed(b);
    if t < |a| && a[t] {
      OwnPosition(a, Places(a), t);
    }
  }

  lemma {:induction false} RankAtMost(ok: seq<bool>, n: nat)
    requires n <= |ok|
    ensures Rank(ok, n) <= n
  {
    if n > 0 {
      RankAtMost(ok, n - 1);
    }
  }

  lemma {:induction false} RankBelow(ok: seq<bool>, first: nat, n: nat)
    requires first < n <= |ok| && !ok[first]
    ensures Rank(ok, n) < n
  {
    if first == n - 1 {
      RankAtMost(ok, first);
    } else {
      RankBelow(ok, first, n - 1);
    }
  }

  /** From the first place that is not ok on, the k-th place that is ok is not the k-th. */
  lemma PlacedLate(ok: seq<bool>, first: nat, k: nat)
    requires first <= k < |Places(ok)| && first < |ok| && !ok[first]
    ensures Places(ok)[k] != k
  {
    PlacesIndexed(ok);
    if first < k && Places(ok)[k] == k {
      RankBelow(ok, first, k);
    }
  }

  /** Putting values back at the places they came from. */
  method Scatter<T>(blank: seq<T>, values: seq<T>, ghost ok: seq<bool>, idx: seq<nat>) returns (r: seq<T>)
    requires Indexed(ok, idx) && |values| == |idx| && |blank| == |ok|
    ensures |r| == |ok|
    ensures forall k :: 0 <= k < |ok| && ok[k] ==> Rank(ok, k) < |values| && r[k] == values[Rank(ok, k)]
    ensures forall k :: 0 <= k < |ok| && !ok[k] ==> r[k] == blank[k]
  {
    r := blank;
    for j := 0 to |idx|
      invariant |r| == |ok|
      invariant forall i :: 0 <= i < j ==> r[idx[i]] == values[i]
      invariant forall k :: 0 <= k < |ok| && !ok[k] ==> r[k] == blank[k]
    {
      r := r[idx[j] := values[j]];
    }
    forall k | 0 <= k < |ok| && ok[k]
      ensures Rank(ok, k) < |values| && r[k] == values[Rank(ok, k)]
    {
      OwnPosition(ok, idx, k);
    }
  }

  lemma {:induction false} AllOk(ok: seq<bool>, n: nat)
    requires n <= |ok| && forall i :: 0 <= i < n ==> ok[i]
    ensures Rank(ok, n) == n
  {
    if n > 0 {
      AllOk(ok, n - 1);
    }
  }
}
