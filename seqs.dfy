/** Order-preserving subsequences, filters and maps over sequences. */
module Seqs {

  /** `a` is obtained from `b` by deleting elements, keeping the order. */
  predicate Subseq<T(==)>(a: seq<T>, b: seq<T>)
    decreases |b|
  {
    if a == [] then true
    else if b == [] then false
    else if a[0] == b[0] then Subseq(a[1..], b[1..])
    else Subseq(a, b[1..])
  }

  predicate NoDuplicates<T(==)>(s: seq<T>) {
    forall i, j :: 0 <= i < j < |s| ==> s[i] != s[j]
  }

  function Filter<T>(f: T -> bool, s: seq<T>): seq<T>
    decreases |s|
  {
    if s == [] then []
    else if f(s[0]) then [s[0]] + Filter(f, s[1..])
    else Filter(f, s[1..])
  }

  function Map<A, B>(f: A -> B, s: seq<A>): (r: seq<B>)
    ensures |r| == |s|
    ensures forall k :: 0 <= k < |s| ==> r[k] == f(s[k])
  {
    seq(|s|, k requires 0 <= k < |s| => f(s[k]))
  }

  /** Every element of a subsequence occurs in the sequence. */
  lemma {:induction false} SubseqMembers<T>(a: seq<T>, b: seq<T>, x: T)
    requires Subseq(a, b) && x in a
    ensures x in b
    decreases |b|
  {
    if a[0] == b[0] {
      if x != a[0] { SubseqMembers(a[1..], b[1..], x); }
    } else {
      SubseqMembers(a, b[1..], x);
    }
  }

  /** Adding an element in front of the larger sequence keeps a subsequence. */
  lemma {:induction false} SubseqCons<T>(a: seq<T>, x: T, b: seq<T>)
    requires Subseq(a, b)
    ensures Subseq(a, [x] + b)
    decreases |b|, 1
  {
    assert ([x] + b)[1..] == b;
    if a != [] && a[0] == x {
      SubseqTail(a, b);
    }
  }

  /** Dropping the head of a subsequence keeps a subsequence. */
  lemma {:induction false} SubseqTail<T>(a: seq<T>, b: seq<T>)
    requires a != [] && Subseq(a, b)
    ensures Subseq(a[1..], b)
    decreases |b|, 0
  {
    if a[0] == b[0] {
      SubseqCons(a[1..], b[0], b[1..]);
    } else {
      SubseqTail(a, b[1..]);
      SubseqCons(a[1..], b[0], b[1..]);
    }
    assert [b[0]] + b[1..] == b;
  }

  /** Matching heads on both sides keep a subsequence. */
  lemma {:induction false} SubseqBothCons<T>(x: T, a: seq<T>, b: seq<T>)
    requires Subseq(a, b)
    ensures Subseq([x] + a, [x] + b)
  {
    assert ([x] + a)[1..] == a;
    assert ([x] + b)[1..] == b;
  }

  lemma {:induction false} FilterSubseq<T>(f: T -> bool, s: seq<T>)
    ensures Subseq(Filter(f, s), s)
    decreases |s|
  {
    if s != [] {
      FilterSubseq(f, s[1..]);
      if f(s[0]) {
        SubseqBothCons(s[0], Filter(f, s[1..]), s[1..]);
        assert [s[0]] + s[1..] == s;
      } else {
        SubseqCons(Filter(f, s[1..]), s[0], s[1..]);
        assert [s[0]] + s[1..] == s;
      }
    }
  }

  /** An element is kept exactly when it occurs and passes the filter. */
  lemma {:induction false} FilterMembers<T>(f: T -> bool, s: seq<T>, x: T)
    ensures x in Filter(f, s) <==> x in s && f(x)
    decreases |s|
  {
    if s != [] {
      FilterMembers(f, s[1..], x);
      assert s == [s[0]] + s[1..];
    }
  }

  lemma {:induction false} FilterLength<T>(f: T -> bool, s: seq<T>)
    ensures |Filter(f, s)| <= |s|
    ensures |Filter(f, s)| == |s| <==> forall k :: 0 <= k < |s| ==> f(s[k])
    decreases |s|
  {
    if s != [] {
      FilterLength(f, s[1..]);
      if !f(s[0]) {
        assert |Filter(f, s)| < |s|;
      } else if |Filter(f, s)| < |s| {
        var k :| 0 <= k < |s[1..]| && !f(s[1..][k]);
        assert !f(s[k + 1]);
      }
    }
  }

  /** Mapping both sides keeps a subsequence. */
  lemma {:induction false} SubseqMap<A, B>(f: A -> B, a: seq<A>, b: seq<A>)
    requires Subseq(a, b)
    ensures Subseq(Map(f, a), Map(f, b))
    decreases |b|
  {
    if a != [] {
      assert Map(f, a)[1..] == Map(f, a[1..]);
      assert Map(f, b)[1..] == Map(f, b[1..]);
      if a[0] == b[0] {
        SubseqMap(f, a[1..], b[1..]);
        SubseqBothCons(f(a[0]), Map(f, a[1..]), Map(f, b[1..]));
        assert Map(f, a) == [f(a[0])] + Map(f, a[1..]);
        assert Map(f, b) == [f(b[0])] + Map(f, b[1..]);
      } else {
        SubseqMap(f, a, b[1..]);
        SubseqCons(Map(f, a), f(b[0]), Map(f, b[1..]));
        assert Map(f, b) == [f(b[0])] + Map(f, b[1..]);
      }
    }
  }

  /** A duplicate-free sequence has as many distinct elements as entries. */
  lemma {:induction false} DistinctCardinality<T>(s: seq<T>)
    requires NoDuplicates(s)
    ensures |set x | x in s| == |s|
    decreases |s|
  {
    if s != [] {
      DistinctCardinality(s[1..]);
      var rest := set x | x in s[1..];
      assert (set x | x in s) == rest + {s[0]};
      assert s[0] !in rest;
    }
  }

  lemma MapConcat<A, B>(f: A -> B, a: seq<A>, b: seq<A>)
    ensures Map(f, a + b) == Map(f, a) + Map(f, b)
  {
  }

  /** Appending an element not yet present keeps a sequence duplicate-free. */
  lemma DistinctAppend<T>(s: seq<T>, x: T)
    requires NoDuplicates(s) && x !in s
    ensures NoDuplicates(s + [x])
  {
    var t := s + [x];
    forall i, j | 0 <= i < j < |t| ensures t[i] != t[j] {
      if j == |s| {
        assert t[i] == s[i];
      } else {
        assert t[i] == s[i] && t[j] == s[j];
      }
    }
  }

  /** The entries of `s` that do not occur earlier in `s` or in `seen`:
      the first occurrence of each new entry, in order. */
  function FirstNew<T(==)>(s: seq<T>, seen: seq<T>): seq<T>
    decreases |s|
  {
    if s == [] then []
    else if s[0] in seen then FirstNew(s[1..], seen)
    else [s[0]] + FirstNew(s[1..], seen + [s[0]])
  }

  /** An entry is kept exactly when it occurs and was not seen before. */
  lemma {:induction false} FirstNewMembers<T>(s: seq<T>, seen: seq<T>, x: T)
    ensures x in FirstNew(s, seen) <==> x in s && x !in seen
    decreases |s|
  {
    if s != [] {
      assert s == [s[0]] + s[1..];
      if s[0] in seen {
        FirstNewMembers(s[1..], seen, x);
      } else {
        FirstNewMembers(s[1..], seen + [s[0]], x);
      }
    }
  }

  /** No entry is kept twice. */
  lemma {:induction false} FirstNewDistinct<T>(s: seq<T>, seen: seq<T>)
    ensures NoDuplicates(FirstNew(s, seen))
    decreases |s|
  {
    if s != [] {
      if s[0] in seen {
        FirstNewDistinct(s[1..], seen);
      } else {
        var rest := FirstNew(s[1..], seen + [s[0]]);
        FirstNewDistinct(s[1..], seen + [s[0]]);
        FirstNewMembers(s[1..], seen + [s[0]], s[0]);
        DistinctCons(s[0], rest);
      }
    }
  }

  /** The kept entries are a subsequence of the entries. */
  lemma {:induction false} FirstNewSubseq<T>(s: seq<T>, seen: seq<T>)
    ensures Subseq(FirstNew(s, seen), s)
    decreases |s|
  {
    if s != [] {
      assert [s[0]] + s[1..] == s;
      if s[0] in seen {
        FirstNewSubseq(s[1..], seen);
        SubseqCons(FirstNew(s[1..], seen), s[0], s[1..]);
      } else {
        FirstNewSubseq(s[1..], seen + [s[0]]);
        SubseqBothCons(s[0], FirstNew(s[1..], seen + [s[0]]), s[1..]);
      }
    }
  }

  /** Pairwise distinct entries none of which was seen are all kept. */
  lemma {:induction false} FirstNewKeepsAll<T>(s: seq<T>, seen: seq<T>)
    requires NoDuplicates(s) && forall k :: 0 <= k < |s| ==> s[k] !in seen
    ensures FirstNew(s, seen) == s
    decreases |s|
  {
    if s != [] {
      var rest := s[1..];
      forall k | 0 <= k < |rest| ensures rest[k] !in seen + [s[0]] {
        assert rest[k] == s[k + 1] && s[0] != s[k + 1];
      }
      FirstNewKeepsAll(rest, seen + [s[0]]);
      assert [s[0]] + rest == s;
    }
  }

  /** A new head on a duplicate-free sequence keeps it duplicate-free. */
  lemma DistinctCons<T>(x: T, s: seq<T>)
    requires NoDuplicates(s) && x !in s
    ensures NoDuplicates([x] + s)
  {
    var t := [x] + s;
    forall i, j | 0 <= i < j < |t| ensures t[i] != t[j] {
      assert t[j] == s[j - 1];
      if i > 0 {
        assert t[i] == s[i - 1];
      }
    }
  }

  /** The tail of a sequence, index by index. */
  lemma TailIndex<T>(s: seq<T>)
    requires s != []
    ensures forall i :: 0 <= i < |s| - 1 ==> s[1..][i] == s[i + 1]
  {
  }

  /** A prefix is the head followed by a prefix of the tail. */
  lemma PrefixCons<T>(s: seq<T>, k: nat)
    requires k < |s|
    ensures s[..k + 1] == [s[0]] + s[1..][..k]
  {
  }
}
