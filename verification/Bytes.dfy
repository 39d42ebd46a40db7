/** Bytes and byte strings. */
module Bytes {
  newtype Byte = n: int | 0 <= n < 256

  /** Concatenation of a list of strings. */
  function Concat<T>(parts: seq<seq<T>>): seq<T> {
    if parts == [] then [] else parts[0] + Concat(parts[1..])
  }

  lemma Regroup<T>(a: seq<T>, b: seq<T>, c: seq<T>)
    ensures (a + b) + c == a + (b + c)
  {
  }

  lemma SplitAt<T>(a: seq<T>, k: nat)
    requires k <= |a|
    ensures a == a[..k] + a[k..]
  {
  }

  lemma TakeDropNone<T>(a: seq<T>)
    ensures a[..0] == [] && a[0..] == a
  {
  }

  lemma DropBoth<T>(s: seq<T>, a: nat, b: nat)
    requires a + b <= |s|
    ensures s[a..][b..] == s[a + b..]
  {
  }

  lemma TakeMore<T>(a: seq<T>, k: nat, n: nat)
    requires k + n <= |a|
    ensures a[..k + n] == a[..k] + a[k..k + n]
  {
  }

  lemma NothingMore<T>(a: seq<T>)
    ensures a + [] == a && [] + a == a
  {
  }

  lemma PrefixDrop<T>(w: seq<T>, t: seq<T>, more: seq<T>, c: seq<T>)
    requires (w + t) + more <= w + c
    ensures t + more <= c
  {
    assert ((w + t) + more)[|w|..] == t + more && (w + c)[|w|..] == c;
    assert (w + c)[..|(w + t) + more|][|w|..] == c[..|t + more|];
  }

  /** What is left of `p` after `w` and what comes next begin what is left of `c` after `w`. */
  lemma PrefixRest<T>(p: seq<T>, w: seq<T>, t: seq<T>, more: seq<T>, c: seq<T>, rest: seq<T>)
    requires p == w + t && c == w + rest && p + more <= c
    ensures t + more <= rest && p + more == w + (t + more)
  {
    PrefixDrop(w, t, more, rest);
    Regroup(w, t, more);
  }

  lemma PrefixTake<T>(p: seq<T>, more: seq<T>, c: seq<T>)
    requires p + more <= c
    ensures p <= c
  {
    assert c[..|p + more|][..|p|] == c[..|p|] && (p + more)[..|p|] == p;
  }

  lemma PrefixInside<T>(a: seq<T>, b: seq<T>, n: nat, rest: seq<T>)
    requires n <= |b|
    ensures a + b[..n] <= a + (b + rest)
  {
  }

  lemma PrefixWhole<T>(p: seq<T>, f: seq<T>, rest: seq<T>)
    requires |p| == |f| && p <= f + rest
    ensures p == f
  {
  }

  /** A beginning of `f + rest` that is at least as long as `f`. */
  lemma PrefixBehind<T>(p: seq<T>, f: seq<T>, rest: seq<T>)
    requires |f| <= |p| && p <= f + rest
    ensures p == f + p[|f|..] && p[|f|..] <= rest
  {
    assert p == (f + rest)[..|p|];
    assert (f + rest)[..|p|] == f + rest[..|p| - |f|];
  }

  lemma DropTwice<T>(p: seq<T>, f: seq<T>, w: seq<T>)
    requires |f| <= |p| && p == f + p[|f|..] && |w| <= |p[|f|..]| && p[|f|..] == w + p[|f|..][|w|..]
    ensures p[|f + w|..] == p[|f|..][|w|..] && p == (f + w) + p[|f + w|..]
  {
  }

  lemma ConcatFirst<T>(parts: seq<seq<T>>, k: nat)
    requires k < |parts|
    ensures Concat(parts) == parts[0] + Concat(parts[1..])
    ensures Concat(parts[..k + 1]) == parts[0] + Concat(parts[1..][..k])
  {
    assert parts[..k + 1][1..] == parts[1..][..k];
  }

  lemma {:induction false} ConcatAppend<T>(a: seq<seq<T>>, b: seq<seq<T>>)
    ensures Concat(a + b) == Concat(a) + Concat(b)
  {
    if a == [] {
      assert a + b == b;
    } else {
      assert (a + b)[1..] == a[1..] + b;
      ConcatAppend(a[1..], b);
    }
  }

  lemma ConcatSnoc<T>(a: seq<seq<T>>, x: seq<T>)
    ensures Concat(a + [x]) == Concat(a) + x
  {
    ConcatAppend(a, [x]);
    assert Concat([x]) == x + Concat([]);
  }

  // ---------- Network byte order ----------

  /** The unsigned integer a big-endian byte string denotes. */
  function Value(s: seq<Byte>): nat {
    if s == [] then 0 else 256 * Value(s[..|s| - 1]) + (s[|s| - 1] as nat)
  }

  /** The low `k` bytes of `n` in network order; higher bytes are cut off, as a cast to the field's type does. */
  function Big(n: nat, k: nat): (r: seq<Byte>)
    ensures |r| == k
    decreases k
  {
    if k == 0 then [] else Big(n / 256, k - 1) + [(n % 256) as Byte]
  }

  function Pow256(k: nat): nat {
    if k == 0 then 1 else 256 * Pow256(k - 1)
  }

  lemma {:induction false} ValueBig(n: nat, k: nat)
    requires n < Pow256(k)
    ensures Value(Big(n, k)) == n
    decreases k
  {
    if k != 0 {
      ValueBig(n / 256, k - 1);
      assert Big(n, k)[..k - 1] == Big(n / 256, k - 1);
    }
  }

  /** The 16-bit case of `Value`. */
  function Count16(hi: Byte, lo: Byte): nat {
    256 * (hi as nat) + (lo as nat)
  }

  lemma CountValue(s: seq<Byte>)
    requires |s| == 2
    ensures Count16(s[0], s[1]) == Value(s)
  {
    assert s[..1] == [s[0]];
    assert Value([s[0]]) == s[0] as nat;
  }
}
