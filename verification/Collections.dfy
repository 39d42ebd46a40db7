/** Lists that are part of another list in its order, lists without duplicates, sizes of subsets. */
module Collections {

  ghost predicate Distinct<T>(s: seq<T>) {
    forall i, j :: 0 <= i < j < |s| ==> s[i] != s[j]
  }

  lemma DropAt<T>(s: seq<T>, i: nat)
    requires Distinct(s) && i < |s|
    ensures Distinct(s[..i] + s[i + 1..]) && |s[..i] + s[i + 1..]| == |s| - 1
    ensures forall x :: x in s[..i] + s[i + 1..] <==> x in s && x != s[i]
  {
    var rest := s[..i] + s[i + 1..];
    assert forall k :: 0 <= k < |rest| ==> rest[k] == s[if k < i then k else k + 1];
    forall x | x in s && x != s[i] ensures x in rest {
      var k :| 0 <= k < |s| && s[k] == x;
      assert rest[if k < i then k else k - 1] == x;
    }
  }

  lemma SubsetSize<T>(a: set<T>, b: set<T>)
    requires a <= b
    ensures |a| <= |b| && (|a| == |b| <==> a == b)
  {
    assert b == a + (b - a);
    if a != b {
      var x :| x in b - a;
      assert |b - a| > 0;
    }
  }

  /** `a` is `b` with some elements left out: in order, and nothing twice. */
  ghost predicate Sublist<T>(a: seq<T>, b: seq<T>) {
    a == [] || (b != [] && (Sublist(a, b[..|b| - 1]) || (a[|a| - 1] == b[|b| - 1] && Sublist(a[..|a| - 1], b[..|b| - 1]))))
  }

  lemma {:induction false} SublistMore<T>(a: seq<T>, b: seq<T>, x: seq<T>)
    requires Sublist(a, b)
    ensures Sublist(a + x, b + x) && Sublist(a, b + x)
    decreases |x|
  {
    if x == [] {
      assert a + x == a && b + x == b;
    } else {
      var init := x[..|x| - 1];
      SublistMore(a, b, init);
      assert (a + x)[..|a + x| - 1] == a + init && (b + x)[..|b + x| - 1] == b + init;
    }
  }

  lemma {:induction false} SublistShorter<T>(a: seq<T>, b: seq<T>)
    requires Sublist(a, b)
    ensures |a| <= |b| && (|a| == |b| ==> a == b)
    decreases |b|
  {
    if a != [] {
      if Sublist(a, b[..|b| - 1]) {
        SublistShorter(a, b[..|b| - 1]);
      } else {
        SublistShorter(a[..|a| - 1], b[..|b| - 1]);
        assert a == a[..|a| - 1] + [a[|a| - 1]] && b == b[..|b| - 1] + [b[|b| - 1]];
      }
    }
  }

  lemma {:induction false} SublistRefl<T>(a: seq<T>)
    ensures Sublist(a, a)
    decreases |a|
  {
    if a != [] {
      SublistRefl(a[..|a| - 1]);
    }
  }

  lemma {:induction false} SublistTrans<T>(a: seq<T>, b: seq<T>, c: seq<T>)
    requires Sublist(a, b) && Sublist(b, c)
    ensures Sublist(a, c)
    decreases |c|
  {
    if a != [] {
      var initB, initC := b[..|b| - 1], c[..|c| - 1];
      if Sublist(b, initC) {
        SublistTrans(a, b, initC);
      } else if Sublist(a, initB) {
        SublistTrans(a, initB, initC);
      } else {
        SublistTrans(a[..|a| - 1], initB, initC);
      }
    }
  }
}
