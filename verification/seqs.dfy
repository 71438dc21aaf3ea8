/** `Array.prototype.filter` and the "subsequence" relation used to say
    that a filtered or de-duplicated result keeps the input's order. */
module Seqs {

  /** `r` can be obtained from `s` by deleting elements: the elements of `r`
      occur in `s` in the same relative order. */
  predicate Subseq<T(==)>(r: seq<T>, s: seq<T>)
    decreases |s|
  {
    r == [] || (s != [] && ((r[0] == s[0] && Subseq(r[1..], s[1..])) || Subseq(r, s[1..])))
  }

  lemma {:induction false} SubseqLength<T>(r: seq<T>, s: seq<T>)
    requires Subseq(r, s)
    ensures |r| <= |s|
    decreases |s|
  {
    if r != [] {
      if r[0] == s[0] && Subseq(r[1..], s[1..]) {
        SubseqLength(r[1..], s[1..]);
      } else {
        SubseqLength(r, s[1..]);
      }
    }
  }

  /** Appending to the larger sequence keeps a subsequence a subsequence. */
  lemma {:induction false} SubseqExtendRight<T>(r: seq<T>, s: seq<T>, x: T)
    requires Subseq(r, s)
    ensures Subseq(r, s + [x])
    decreases |s|
  {
    if r != [] {
      assert (s + [x])[1..] == s[1..] + [x];
      if r[0] == s[0] && Subseq(r[1..], s[1..]) {
        SubseqExtendRight(r[1..], s[1..], x);
      } else {
        SubseqExtendRight(r, s[1..], x);
      }
    }
  }

  /** Appending the same element to both keeps a subsequence a subsequence. */
  lemma {:induction false} SubseqAppendBoth<T>(r: seq<T>, s: seq<T>, x: T)
    requires Subseq(r, s)
    ensures Subseq(r + [x], s + [x])
    decreases |s|
  {
    if s == [] {
      assert r == [] && r + [x] == s + [x];
      assert Subseq<T>([], []);
    } else {
      assert (s + [x])[1..] == s[1..] + [x];
      if r == [] {
        SubseqAppendBoth(r, s[1..], x);
      } else if r[0] == s[0] && Subseq(r[1..], s[1..]) {
        assert (r + [x])[1..] == r[1..] + [x];
        SubseqAppendBoth(r[1..], s[1..], x);
      } else {
        SubseqAppendBoth(r, s[1..], x);
      }
    }
  }

  /** `s.filter(keep)`: the elements of `s` that `keep` accepts. */
  function Filter<T(==)>(s: seq<T>, keep: T -> bool): (r: seq<T>)
    ensures |r| <= |s|
    ensures forall i :: 0 <= i < |r| ==> r[i] in s && keep(r[i])
    ensures forall i :: 0 <= i < |s| && keep(s[i]) ==> s[i] in r
    decreases |s|
  {
    if s == [] then []
    else (if keep(s[0]) then [s[0]] else []) + Filter(s[1..], keep)
  }

  /** The filtered elements keep their order. */
  lemma {:induction false} FilterIsSubseq<T>(s: seq<T>, keep: T -> bool)
    ensures Subseq(Filter(s, keep), s)
    decreases |s|
  {
    if s != [] {
      FilterIsSubseq(s[1..], keep);
      var r := Filter(s, keep);
      if keep(s[0]) {
        assert r == [s[0]] + Filter(s[1..], keep);
        assert r[0] == s[0] && r[1..] == Filter(s[1..], keep);
      } else {
        assert r == Filter(s[1..], keep);
      }
    }
  }

  /** Every accepted element is kept as often as it occurs; the others never. */
  lemma {:induction false} FilterCount<T>(s: seq<T>, keep: T -> bool, x: T)
    ensures multiset(Filter(s, keep))[x] == if keep(x) then multiset(s)[x] else 0
    decreases |s|
  {
    if s != [] {
      FilterCount(s[1..], keep, x);
      var head := if keep(s[0]) then [s[0]] else [];
      assert s == [s[0]] + s[1..];
      assert multiset(s) == multiset{s[0]} + multiset(s[1..]);
      assert multiset(Filter(s, keep)) == multiset(head) + multiset(Filter(s[1..], keep));
    }
  }

  /** Filtering a concatenation filters each part. */
  lemma {:induction false} FilterAppend<T>(a: seq<T>, b: seq<T>, keep: T -> bool)
    ensures Filter(a + b, keep) == Filter(a, keep) + Filter(b, keep)
    decreases |a|
  {
    if a != [] {
      assert (a + b)[0] == a[0] && (a + b)[1..] == a[1..] + b;
      FilterAppend(a[1..], b, keep);
      var head := if keep(a[0]) then [a[0]] else [];
      assert Filter(a + b, keep) == head + Filter(a[1..] + b, keep);
      assert Filter(a, keep) == head + Filter(a[1..], keep);
      assert head + (Filter(a[1..], keep) + Filter(b, keep)) == (head + Filter(a[1..], keep)) + Filter(b, keep);
    } else {
      assert a + b == b;
    }
  }

  /** Nothing is dropped exactly when every element is accepted. */
  lemma {:induction false} FilterKeepsAll<T>(s: seq<T>, keep: T -> bool)
    ensures |Filter(s, keep)| == |s| <==> forall x :: x in s ==> keep(x)
    decreases |s|
  {
    if s != [] {
      FilterKeepsAll(s[1..], keep);
      assert forall x :: x in s <==> x == s[0] || x in s[1..];
    }
  }

  /** Nothing is kept when nothing is accepted. */
  lemma {:induction false} FilterNone<T>(s: seq<T>, keep: T -> bool)
    requires forall i :: 0 <= i < |s| ==> !keep(s[i])
    ensures Filter(s, keep) == []
    decreases |s|
  {
    if s != [] {
      FilterNone(s[1..], keep);
    }
  }
}
