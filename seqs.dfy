/**
 * Sequence helpers behind the source's `Array.prototype.filter`, `.map` and
 * `[...new Set(xs)]` chains.  Every function here recurses on the LAST
 * element, so that a loop that appends to a local array is specified by
 * `r == F(s[..i])`.
 */
module Seqs {

  /** No element occurs twice. */
  predicate Distinct<T(==)>(s: seq<T>) {
    forall i, j :: 0 <= i < j < |s| ==> s[i] != s[j]
  }

  /** `r` is obtained from `s` by deleting elements (order is kept). */
  predicate IsSubsequence<T(==)>(r: seq<T>, s: seq<T>)
    decreases |s|
  {
    if r == [] then true
    else if s == [] then false
    else if r[|r| - 1] == s[|s| - 1] then IsSubsequence(r[..|r| - 1], s[..|s| - 1])
    else IsSubsequence(r, s[..|s| - 1])
  }

  /** `s.filter(p)`. */
  function Filter<T(==)>(p: T -> bool, s: seq<T>): (r: seq<T>)
    ensures |r| <= |s|
    ensures forall i :: 0 <= i < |r| ==> r[i] in s && p(r[i])
    ensures forall i :: 0 <= i < |s| && p(s[i]) ==> s[i] in r
    ensures IsSubsequence(r, s)
    decreases |s|
  {
    if s == [] then []
    else
      var front := Filter(p, s[..|s| - 1]);
      FilterStep(p, s[..|s| - 1], s[|s| - 1], front);
      assert s[..|s| - 1] + [s[|s| - 1]] == s;
      if p(s[|s| - 1]) then front + [s[|s| - 1]] else front
  }

  /** The facts `Filter` promises carry over one appended element. */
  lemma FilterStep<T>(p: T -> bool, s: seq<T>, x: T, front: seq<T>)
    requires forall i :: 0 <= i < |front| ==> front[i] in s && p(front[i])
    requires forall i :: 0 <= i < |s| && p(s[i]) ==> s[i] in front
    requires IsSubsequence(front, s)
    ensures var r := if p(x) then front + [x] else front;
            (forall i :: 0 <= i < |r| ==> r[i] in s + [x] && p(r[i]))
            && (forall i :: 0 <= i < |s + [x]| && p((s + [x])[i]) ==> (s + [x])[i] in r)
            && IsSubsequence(r, s + [x])
  {
    SubsequenceExtend(front, s, x);
    var r := if p(x) then front + [x] else front;
    forall i | 0 <= i < |r| ensures r[i] in s + [x] && p(r[i]) {
      if i < |front| {
        assert r[i] == front[i];
      }
    }
    forall i | 0 <= i < |s + [x]| && p((s + [x])[i]) ensures (s + [x])[i] in r {
      if i < |s| {
        assert (s + [x])[i] == s[i];
      }
    }
  }

  /** Appending one element to both sides keeps the subsequence relation,
      and so does appending it to the larger side only. */
  lemma {:induction false} SubsequenceExtend<T>(r: seq<T>, s: seq<T>, x: T)
    requires IsSubsequence(r, s)
    ensures IsSubsequence(r + [x], s + [x])
    ensures IsSubsequence(r, s + [x])
    decreases |s|, 1
  {
    assert (r + [x])[..|r + [x]| - 1] == r;
    assert (s + [x])[..|s + [x]| - 1] == s;
    if r != [] && r[|r| - 1] == x {
      SubsequenceDropLast(r, s);
    }
  }

  /** Dropping the last element of a subsequence leaves a subsequence. */
  lemma {:induction false} SubsequenceDropLast<T>(r: seq<T>, s: seq<T>)
    requires r != [] && IsSubsequence(r, s)
    ensures IsSubsequence(r[..|r| - 1], s)
    decreases |s|, 0
  {
    var s' := s[..|s| - 1];
    assert s' + [s[|s| - 1]] == s;
    if r[|r| - 1] == s[|s| - 1] {
      SubsequenceExtend(r[..|r| - 1], s', s[|s| - 1]);
    } else {
      SubsequenceDropLast(r, s');
      SubsequenceExtend(r[..|r| - 1], s', s[|s| - 1]);
    }
  }

  /** A subsequence of a subsequence is a subsequence. */
  lemma {:induction false} SubsequenceTransitive<T>(a: seq<T>, b: seq<T>, c: seq<T>)
    requires IsSubsequence(a, b) && IsSubsequence(b, c)
    ensures IsSubsequence(a, c)
    decreases |c|
  {
    if a != [] && c != [] {
      var c' := c[..|c| - 1];
      var z := c[|c| - 1];
      assert c' + [z] == c;
      if b[|b| - 1] == z {
        var b' := b[..|b| - 1];
        if a[|a| - 1] == z {
          SubsequenceTransitive(a[..|a| - 1], b', c');
        } else {
          SubsequenceTransitive(a, b', c');
        }
      } else {
        SubsequenceTransitive(a, b, c');
        SubsequenceExtend(a, c', z);
      }
    }
  }

  /** Every sequence is a subsequence of itself. */
  lemma {:induction false} SubsequenceOfSelf<T>(s: seq<T>)
    ensures IsSubsequence(s, s)
    decreases |s|
  {
    if s != [] {
      SubsequenceOfSelf(s[..|s| - 1]);
    }
  }

  /** Appending to the larger side keeps the subsequence relation. */
  lemma {:induction false} SubsequenceAppendRight<T>(r: seq<T>, s: seq<T>, y: seq<T>)
    requires IsSubsequence(r, s)
    ensures IsSubsequence(r, s + y)
    decreases |y|
  {
    if y != [] {
      var y' := y[..|y| - 1];
      SubsequenceAppendRight(r, s, y');
      SubsequenceExtend(r, s + y', y[|y| - 1]);
      assert s + y' + [y[|y| - 1]] == s + y;
    } else {
      assert s + y == s;
    }
  }

  /** A common prefix keeps the subsequence relation. */
  lemma {:induction false} SubsequencePrepend<T>(h: seq<T>, x: seq<T>, y: seq<T>)
    requires IsSubsequence(x, y)
    ensures IsSubsequence(h + x, h + y)
    decreases |y|
  {
    if x == [] {
      SubsequenceOfSelf(h);
      SubsequenceAppendRight(h, h, y);
      assert h + x == h;
    } else {
      var y' := y[..|y| - 1];
      var z := y[|y| - 1];
      assert h + y' + [z] == h + y;
      if x[|x| - 1] == z {
        var x' := x[..|x| - 1];
        SubsequencePrepend(h, x', y');
        SubsequenceExtend(h + x', h + y', z);
        assert h + x' + [z] == h + x;
      } else {
        SubsequencePrepend(h, x, y');
        SubsequenceExtend(h + x, h + y', z);
      }
    }
  }

  /** Filtering distributes over concatenation. */
  lemma {:induction false} FilterAppend<T>(p: T -> bool, a: seq<T>, b: seq<T>)
    ensures Filter(p, a + b) == Filter(p, a) + Filter(p, b)
    decreases |b|
  {
    if b == [] {
      assert a + b == a;
    } else {
      var b' := b[..|b| - 1];
      assert (a + b)[..|a + b| - 1] == a + b';
      FilterAppend(p, a, b');
    }
  }

  /** Filtering with a condition every element meets keeps everything. */
  lemma {:induction false} FilterAll<T>(p: T -> bool, s: seq<T>)
    requires forall i :: 0 <= i < |s| ==> p(s[i])
    ensures Filter(p, s) == s
    decreases |s|
  {
    if s != [] {
      FilterAll(p, s[..|s| - 1]);
      assert s[..|s| - 1] + [s[|s| - 1]] == s;
    }
  }

  /** Index of the first occurrence of `x` in `s`. */
  function FirstIndex<T(==)>(s: seq<T>, x: T): (k: nat)
    requires x in s
    ensures k < |s| && s[k] == x && x !in s[..k]
  {
    if s[0] == x then 0 else 1 + FirstIndex(s[1..], x)
  }

  /** Any index holding the first occurrence of `x` is `FirstIndex`. */
  lemma FirstIndexUnique<T>(s: seq<T>, x: T, k: nat)
    requires k < |s| && s[k] == x && x !in s[..k]
    ensures FirstIndex(s, x) == k
  {
    var f := FirstIndex(s, x);
  }

  /** The first occurrence of an element of a prefix is found in the prefix. */
  lemma FirstIndexPrefix<T>(s: seq<T>, y: T, x: T)
    requires x in s
    ensures FirstIndex(s + [y], x) == FirstIndex(s, x)
  {
    var k := FirstIndex(s, x);
    assert (s + [y])[..k] == s[..k];
    FirstIndexUnique(s + [y], x, k);
  }

  /** `[...new Set(s)]`: each element once, at the place of its first occurrence. */
  function Dedup<T(==)>(s: seq<T>): (r: seq<T>)
    ensures Distinct(r)
    ensures forall i :: 0 <= i < |r| ==> r[i] in s
    ensures forall i :: 0 <= i < |s| ==> s[i] in r
    ensures IsSubsequence(r, s)
    ensures |s| > 0 ==> |r| > 0 && r[0] == s[0]
    decreases |s|
  {
    if s == [] then []
    else
      var s' := s[..|s| - 1];
      var x := s[|s| - 1];
      var front := Dedup(s');
      assert s' + [x] == s;
      DedupStep(s', x, front);
      if x in front then front else front + [x]
  }

  /** The facts `Dedup` promises carry over one appended element. */
  lemma DedupStep<T>(s: seq<T>, x: T, front: seq<T>)
    requires Distinct(front)
    requires forall i :: 0 <= i < |front| ==> front[i] in s
    requires forall i :: 0 <= i < |s| ==> s[i] in front
    requires IsSubsequence(front, s)
    requires |s| > 0 ==> |front| > 0 && front[0] == s[0]
    ensures var r := if x in front then front else front + [x];
            Distinct(r)
            && (forall i :: 0 <= i < |r| ==> r[i] in s + [x])
            && (forall i :: 0 <= i < |s + [x]| ==> (s + [x])[i] in r)
            && IsSubsequence(r, s + [x])
            && |r| > 0 && r[0] == (s + [x])[0]
  {
    SubsequenceExtend(front, s, x);
    var r := if x in front then front else front + [x];
    forall i | 0 <= i < |r| ensures r[i] in s + [x] {
      if i < |front| {
        assert r[i] == front[i];
      }
    }
    forall i | 0 <= i < |s + [x]| ensures (s + [x])[i] in r {
      if i < |s| {
        assert (s + [x])[i] == s[i];
      }
    }
    if s == [] {
      assert front == [];
    }
  }

  /** Deduplication keeps exactly the elements it is given. */
  lemma DedupMembers<T>(s: seq<T>, x: T)
    ensures x in Dedup(s) <==> x in s
  {
    if x in s {
      var k :| 0 <= k < |s| && s[k] == x;
    }
  }

  /** The kept elements appear in the order of their first occurrences. */
  lemma {:induction false} DedupKeepsFirstOccurrenceOrder<T>(s: seq<T>)
    ensures forall i, j :: 0 <= i < j < |Dedup(s)| ==> FirstIndex(s, Dedup(s)[i]) < FirstIndex(s, Dedup(s)[j])
    decreases |s|
  {
    if s != [] {
      var s' := s[..|s| - 1];
      var x := s[|s| - 1];
      assert s' + [x] == s;
      DedupKeepsFirstOccurrenceOrder(s');
      var front := Dedup(s');
      forall i | 0 <= i < |front|
        ensures FirstIndex(s, front[i]) == FirstIndex(s', front[i])
      {
        FirstIndexPrefix(s', x, front[i]);
      }
      if x !in front {
        assert x !in s';
        assert s[..|s'|] == s';
        FirstIndexUnique(s, x, |s'|);
      }
    }
  }

  /** A duplicate-free sequence is its own deduplication. */
  lemma {:induction false} DedupOfDistinct<T>(s: seq<T>)
    requires Distinct(s)
    ensures Dedup(s) == s
    decreases |s|
  {
    if s != [] {
      var s' := s[..|s| - 1];
      assert Distinct(s');
      DedupOfDistinct(s');
      assert s[|s| - 1] !in s';
    }
  }

  /** `s.reverse()`. */
  function Reverse<T>(s: seq<T>): (r: seq<T>)
    ensures |r| == |s|
    ensures forall i :: 0 <= i < |s| ==> r[i] == s[|s| - 1 - i]
  {
    seq(|s|, i requires 0 <= i < |s| => s[|s| - 1 - i])
  }
}
