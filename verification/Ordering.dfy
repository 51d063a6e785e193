/** The order in which a group locks its keys: sort.Strings, lexicographic. */
module Ordering {

  predicate Less(a: string, b: string) {
    b != "" && (a == "" || a[0] < b[0] || (a[0] == b[0] && Less(a[1..], b[1..])))
  }

  lemma {:induction false} LessTransitive(a: string, b: string, c: string)
    ensures Less(a, b) && Less(b, c) ==> Less(a, c)
  {
    if a != "" && b != "" && c != "" && a[0] == b[0] == c[0] {
      LessTransitive(a[1..], b[1..], c[1..]);
    }
  }

  /** The text that comes first at the first difference, or the one that ends there. */
  lemma {:induction false} LessAtDifference(a: string, b: string, n: nat)
    requires n <= |a| && n <= |b| && a[..n] == b[..n]
    requires n < |a| && n < |b| ==> a[n] != b[n]
    ensures n < |a| && n < |b| ==> (Less(a, b) <==> a[n] < b[n])
    ensures n == |a| || n == |b| ==> (Less(a, b) <==> |a| < |b|)
  {
    if n > 0 {
      assert a[0] == a[..n][0] == b[..n][0] == b[0];
      assert a[1..][..n - 1] == a[..n][1..] && b[1..][..n - 1] == b[..n][1..];
      LessAtDifference(a[1..], b[1..], n - 1);
    }
  }

  /** Exactly one of "before", "after" and "equal" holds. */
  lemma {:induction false} LessTotal(a: string, b: string)
    ensures Less(a, b) || Less(b, a) || a == b
    ensures !(Less(a, b) && Less(b, a)) && !Less(a, a)
  {
    if a != "" {
      LessTotal(a[1..], a[1..]);
    }
    if a != "" && b != "" && a[0] == b[0] {
      LessTotal(a[1..], b[1..]);
      assert a == [a[0]] + a[1..] && b == [b[0]] + b[1..];
    }
  }

  /** Strictly increasing, so without repetition. */
  ghost predicate Sorted(ks: seq<string>) {
    forall i, j :: 0 <= i < j < |ks| ==> Less(ks[i], ks[j])
  }

  function Insert(ks: seq<string>, k: string): seq<string> {
    if ks == [] then [k] else if Less(k, ks[0]) then [k] + ks else [ks[0]] + Insert(ks[1..], k)
  }

  lemma {:induction false} InsertAdds(ks: seq<string>, k: string, x: string)
    ensures x in Insert(ks, k) <==> x in ks || x == k
  {
    if ks != [] && !Less(k, ks[0]) {
      InsertAdds(ks[1..], k, x);
      assert x in ks <==> x == ks[0] || x in ks[1..];
    }
  }

  lemma SortedFront(k: string, ks: seq<string>)
    requires Sorted(ks) && forall i :: 0 <= i < |ks| ==> Less(k, ks[i])
    ensures Sorted([k] + ks)
  {
  }

  lemma {:induction false} InsertKeepsOrder(ks: seq<string>, k: string)
    requires Sorted(ks) && k !in ks
    ensures Sorted(Insert(ks, k))
  {
    if ks != [] && Less(k, ks[0]) {
      forall i | 0 <= i < |ks|
        ensures Less(k, ks[i])
      {
        LessTransitive(k, ks[0], ks[i]);
      }
      SortedFront(k, ks);
    } else if ks != [] {
      var tail := Insert(ks[1..], k);
      InsertKeepsOrder(ks[1..], k);
      forall i | 0 <= i < |tail|
        ensures Less(ks[0], tail[i])
      {
        InsertAdds(ks[1..], k, tail[i]);
        LessTotal(k, ks[0]);
      }
      SortedFront(ks[0], tail);
    }
  }

  lemma InsertSorted(ks: seq<string>, k: string)
    requires Sorted(ks) && k !in ks
    ensures Sorted(Insert(ks, k)) && forall x :: x in Insert(ks, k) <==> x in ks || x == k
  {
    InsertKeepsOrder(ks, k);
    forall x {
      InsertAdds(ks, k, x);
    }
  }

  /** The keys of a set, in increasing order, however the set is traversed. */
  method SortKeys(keys: set<string>) returns (ks: seq<string>)
    ensures Sorted(ks)
    ensures forall k :: k in ks <==> k in keys
  {
    ks := [];
    var rest := keys;
    while rest != {}
      invariant rest <= keys && Sorted(ks)
      invariant forall k :: k in ks <==> k in keys && k !in rest
    {
      var k :| k in rest;
      rest := rest - {k};
      InsertSorted(ks, k);
      ks := Insert(ks, k);
    }
  }

  /** Every set of keys can be put in order. */
  lemma {:induction false} SortedKeys(keys: set<string>) returns (ks: seq<string>)
    ensures Sorted(ks) && forall k :: k in ks <==> k in keys
  {
    ks := [];
    if k :| k in keys {
      ks := SortedKeys(keys - {k});
      InsertSorted(ks, k);
      ks := Insert(ks, k);
    }
  }
}
