/** What the queue operations mean on the sequence of elements a ring holds.
    Elements are node ids; `val` maps a node id to its string. Each in-place
    operation of the queue is proved to leave its ring holding one of the
    sequences defined here. */
module Spec {
  import opened CStrings

  /** Every node id in `ids` names a slot of `val`. */
  predicate InDomain(val: seq<string>, ids: seq<int>) {
    forall i :: 0 <= i < |ids| ==> 0 <= ids[i] < |val|
  }

  /** Element `i` of `s`. Distinctness is stated on this term rather than on
      `s[i]`, so that its pairwise quantifier is only instantiated where a
      proof asks for it (through `DistinctAt`). */
  function Elem(s: seq<int>, i: int): int
    requires 0 <= i < |s|
  {
    s[i]
  }

  /** No node occurs twice. */
  predicate Distinct(s: seq<int>) {
    forall i, j {:trigger Elem(s, i), Elem(s, j)} :: 0 <= i < j < |s| ==> Elem(s, i) != Elem(s, j)
  }

  lemma DistinctAt(s: seq<int>, i: int, j: int)
    requires Distinct(s) && 0 <= i < |s| && 0 <= j < |s| && i != j
    ensures s[i] != s[j]
  {
    if i < j {
      assert Elem(s, i) != Elem(s, j);
    } else {
      assert Elem(s, j) != Elem(s, i);
    }
  }

  /** A slice of a sequence without repetitions has none either. */
  lemma DistinctSlice(s: seq<int>, lo: int, hi: int)
    requires Distinct(s) && 0 <= lo <= hi <= |s|
    ensures Distinct(s[lo..hi])
  {
    var t := s[lo..hi];
    forall i, j | 0 <= i < j < |t| ensures Elem(t, i) != Elem(t, j) {
      DistinctAt(s, lo + i, lo + j);
    }
  }

  /** The strings the nodes `ids` hold, in order. */
  function Vals(val: seq<string>, ids: seq<int>): (r: seq<string>)
    requires InDomain(val, ids)
    ensures |r| == |ids|
    ensures forall i :: 0 <= i < |ids| ==> r[i] == val[ids[i]]
  {
    seq(|ids|, i requires 0 <= i < |ids| => val[ids[i]])
  }

  /** Non-decreasing in the `strcmp` order. */
  predicate Sorted(s: seq<string>) {
    forall i :: 0 < i < |s| ==> Le(s[i - 1], s[i])
  }

  /** The nodes `ids` hold non-decreasing strings. */
  predicate Ordered(val: seq<string>, ids: seq<int>)
    requires InDomain(val, ids)
  {
    forall i :: 0 < i < |ids| ==> Le(val[ids[i - 1]], val[ids[i]])
  }

  /** Ordered nodes are nodes whose strings, read in order, are sorted. */
  lemma OrderedIffSorted(val: seq<string>, ids: seq<int>)
    requires InDomain(val, ids)
    ensures Ordered(val, ids) <==> Sorted(Vals(val, ids))
  {
  }

  /** In ordered nodes every string is at most every later one. */
  lemma {:induction false} OrderedPairwise(val: seq<string>, ids: seq<int>, i: int, j: int)
    requires InDomain(val, ids) && Ordered(val, ids) && 0 <= i <= j < |ids|
    ensures Le(val[ids[i]], val[ids[j]])
    decreases j - i
  {
    if i == j {
      assert Strcmp(val[ids[i]], val[ids[j]]) == 0;
    } else {
      OrderedPairwise(val, ids, i, j - 1);
      LeTransitive(val[ids[i]], val[ids[j - 1]], val[ids[j]]);
    }
  }

  /** In a sorted sequence every element is at most every later one. */
  lemma {:induction false} SortedPairwise(s: seq<string>, i: int, j: int)
    requires Sorted(s) && 0 <= i <= j < |s|
    ensures Le(s[i], s[j])
    decreases j - i
  {
    if i == j {
      assert Strcmp(s[i], s[j]) == 0;
    } else {
      SortedPairwise(s, i, j - 1);
      LeTransitive(s[i], s[j - 1], s[j]);
    }
  }

  /** Taking the node at index `k` out of `b` takes its string out of the
      strings `b` holds. */
  lemma ValsRemove(val: seq<string>, b: seq<int>, k: int)
    requires InDomain(val, b) && 0 <= k < |b|
    ensures InDomain(val, b[..k] + b[k + 1..])
    ensures multiset(Vals(val, b)) == multiset(Vals(val, b[..k] + b[k + 1..])) + multiset{val[b[k]]}
  {
    var b' := b[..k] + b[k + 1..];
    forall i | 0 <= i < |b'| ensures 0 <= b'[i] < |val| {
      if i < k { assert b'[i] == b[i]; } else { assert b'[i] == b[i + 1]; }
    }
    var vb, vb' := Vals(val, b), Vals(val, b');
    assert vb' == vb[..k] + vb[k + 1..];
    assert vb == vb[..k] + [vb[k]] + vb[k + 1..];
  }

  /** Permuting the nodes permutes the strings they hold. */
  lemma {:induction false} ValsPermutation(val: seq<string>, a: seq<int>, b: seq<int>)
    requires InDomain(val, a) && InDomain(val, b) && multiset(a) == multiset(b)
    ensures multiset(Vals(val, a)) == multiset(Vals(val, b))
    decreases |a|
  {
    if a == [] {
      assert |b| == |multiset(b)| == 0;
    } else {
      assert a[0] in multiset(b);
      var k :| 0 <= k < |b| && b[k] == a[0];
      var a', b' := a[1..], b[..k] + b[k + 1..];
      MultisetRemove(a, b, k);
      ValsRemove(val, b, k);
      ValsRemove(val, a, 0);
      assert a[..0] + a[1..] == a';
      ValsPermutation(val, a', b');
      calc {
        multiset(Vals(val, a));
        multiset(Vals(val, a')) + multiset{val[a[0]]};
        multiset(Vals(val, b')) + multiset{val[b[k]]};
        multiset(Vals(val, b));
      }
    }
  }

  /** Taking the same node out of two permutations leaves permutations. */
  lemma MultisetRemove(a: seq<int>, b: seq<int>, k: int)
    requires multiset(a) == multiset(b) && a != [] && 0 <= k < |b| && b[k] == a[0]
    ensures multiset(a[1..]) == multiset(b[..k] + b[k + 1..])
  {
    var x := a[0];
    assert b == b[..k] + [x] + b[k + 1..];
    assert a == [x] + a[1..];
    calc {
      multiset(a[1..]);
      (multiset{x} + multiset(a[1..])) - multiset{x};
      multiset(a) - multiset{x};
      multiset(b) - multiset{x};
      (multiset(b[..k]) + multiset(b[k + 1..]) + multiset{x}) - multiset{x};
      multiset(b[..k] + b[k + 1..]);
    }
  }

  // ---------------------------------------------------------------- reverse

  /** `s` back to front. */
  function Reversed<T>(s: seq<T>): (r: seq<T>)
    ensures |r| == |s|
    ensures forall i :: 0 <= i < |s| ==> r[i] == s[|s| - 1 - i]
  {
    if s == [] then [] else Reversed(s[1..]) + [s[0]]
  }

  /** Reversing twice gives back the original order. */
  lemma ReversedInvolution<T>(s: seq<T>)
    ensures Reversed(Reversed(s)) == s
  {
    assert forall i :: 0 <= i < |s| ==> Reversed(Reversed(s))[i] == s[i];
  }

  /** Reversing the nodes reverses the strings they hold. */
  lemma ValsReversed(val: seq<string>, ids: seq<int>)
    requires InDomain(val, ids)
    ensures InDomain(val, Reversed(ids)) && Vals(val, Reversed(ids)) == Reversed(Vals(val, ids))
  {
    assert forall x :: x in Reversed(ids) ==> x in ids by {
      forall x | x in Reversed(ids) ensures x in ids {
        var i :| 0 <= i < |ids| && Reversed(ids)[i] == x;
        assert ids[|ids| - 1 - i] == x;
      }
    }
  }

  /** Reversing keeps the members. */
  lemma ReversedMembers<T>(s: seq<T>)
    ensures forall x :: x in Reversed(s) <==> x in s
  {
    forall x | x in Reversed(s) ensures x in s {
      var i :| 0 <= i < |s| && Reversed(s)[i] == x;
      assert s[|s| - 1 - i] == x;
    }
    forall x | x in s ensures x in Reversed(s) {
      var i :| 0 <= i < |s| && s[i] == x;
      assert Reversed(s)[|s| - 1 - i] == x;
    }
  }

  /** Prepending to the reversed sequence is reversing the extended one. */
  lemma ReversedSnoc<T>(s: seq<T>, x: T)
    ensures Reversed(s + [x]) == [x] + Reversed(s)
  {
  }

  // ----------------------------------------------------------- swap pairs

  /** Elements 2k and 2k+1 exchanged for every full pair; an odd last
      element stays in place. */
  function PairsSwapped<T>(s: seq<T>): (r: seq<T>)
    ensures |r| == |s|
  {
    if |s| < 2 then s else [s[1], s[0]] + PairsSwapped(s[2..])
  }

  /** Swapping pairs only rearranges: no element is lost or duplicated. */
  lemma {:induction false} PairsSwappedPermutes<T>(s: seq<T>)
    ensures multiset(PairsSwapped(s)) == multiset(s)
  {
    if |s| >= 2 {
      PairsSwappedPermutes(s[2..]);
      assert s == [s[0], s[1]] + s[2..];
    }
  }

  /** Where each element goes: an element at an even index with a partner
      moves up one place, its partner moves down one, an odd last one stays. */
  lemma {:induction false} PairsSwappedAt<T>(s: seq<T>, i: int)
    requires 0 <= i < |s|
    ensures PairsSwapped(s)[i] ==
            if i % 2 == 1 then s[i - 1] else if i + 1 < |s| then s[i + 1] else s[i]
  {
    if i >= 2 {
      var r := PairsSwapped(s);
      var t := PairsSwapped(s[2..]);
      assert r == [s[1], s[0]] + t;
      assert r[i] == t[i - 2];
      PairsSwappedAt(s[2..], i - 2);
      assert (i - 2) % 2 == i % 2;
      assert s[2..][i - 2] == s[i];
      assert i % 2 == 1 ==> s[2..][i - 3] == s[i - 1];
      assert i + 1 < |s| ==> s[2..][i - 1] == s[i + 1];
    }
  }

  /** Swapping pairs twice gives back the original order. */
  lemma {:induction false} PairsSwappedInvolution<T>(s: seq<T>)
    ensures PairsSwapped(PairsSwapped(s)) == s
  {
    if |s| >= 2 {
      PairsSwappedInvolution(s[2..]);
      var r := PairsSwapped(s);
      assert r[2..] == PairsSwapped(s[2..]);
      assert s == [s[0], s[1]] + s[2..];
    }
  }

  /** A prefix of even length is swapped on its own. */
  lemma {:induction false} PairsSwappedAppend<T>(a: seq<T>, b: seq<T>)
    requires |a| % 2 == 0
    ensures PairsSwapped(a + b) == PairsSwapped(a) + PairsSwapped(b)
  {
    if a == [] {
      assert a + b == b;
    } else {
      var a2 := a[2..];
      PairsSwappedAppend(a2, b);
      calc {
        PairsSwapped(a + b);
        { assert (a + b)[2..] == a2 + b; }
        [a[1], a[0]] + PairsSwapped(a2 + b);
        [a[1], a[0]] + (PairsSwapped(a2) + PairsSwapped(b));
        ([a[1], a[0]] + PairsSwapped(a2)) + PairsSwapped(b);
        PairsSwapped(a) + PairsSwapped(b);
      }
    }
  }

  /** One turn of the pair swap: with the pairs before index `2k` swapped,
      exchanging the elements at `2k` and `2k + 1` swaps one more pair. */
  lemma PairsSwappedStep<T>(s: seq<T>, k: int)
    requires 0 <= 2 * k && 2 * k + 1 < |s|
    ensures var c := PairsSwapped(s[..2 * k]) + s[2 * k..];
            c[2 * k] == s[2 * k] && c[2 * k + 1] == s[2 * k + 1] &&
            PairsSwapped(s[..2 * k + 2]) + s[2 * k + 2..] == c[..2 * k] + [c[2 * k + 1], c[2 * k]] + c[2 * k + 2..]
  {
    var j := 2 * k;
    var a := PairsSwapped(s[..j]);
    var c := a + s[j..];
    assert s[..j + 2] == s[..j] + [s[j], s[j + 1]];
    PairsSwappedAppend(s[..j], [s[j], s[j + 1]]);
    assert PairsSwapped([s[j], s[j + 1]]) == [s[j + 1], s[j]];
    assert c[..j] == a && c[j + 2..] == s[j + 2..];
  }

  /** Before the first turn no pair is swapped. */
  lemma PairsSwappedNone<T>(s: seq<T>)
    ensures PairsSwapped(s[..0]) + s[0..] == s
  {
    assert s[..0] == [];
  }

  /** Once fewer than two elements are left, the pairs swapped so far are all
      of them. */
  lemma {:induction false} PairsSwappedDone<T>(s: seq<T>, k: int)
    requires 0 <= 2 * k <= |s| <= 2 * k + 1
    ensures PairsSwapped(s[..2 * k]) + s[2 * k..] == PairsSwapped(s)
  {
    var t := s[2 * k..];
    assert |t| < 2 && PairsSwapped(t) == t;
    assert s[..2 * k] + s[2 * k..] == s;
    PairsSwappedAppend(s[..2 * k], s[2 * k..]);
  }

  /** Swapping the nodes' pairs swaps the pairs of strings they hold. */
  lemma ValsPairsSwapped(val: seq<string>, ids: seq<int>)
    requires InDomain(val, ids)
    ensures InDomain(val, PairsSwapped(ids))
    ensures Vals(val, PairsSwapped(ids)) == PairsSwapped(Vals(val, ids))
  {
    forall i | 0 <= i < |ids|
      ensures 0 <= PairsSwapped(ids)[i] < |val|
    {
      PairsSwappedAt(ids, i);
    }
    forall i | 0 <= i < |ids|
      ensures Vals(val, PairsSwapped(ids))[i] == PairsSwapped(Vals(val, ids))[i]
    {
      PairsSwappedAt(ids, i);
      PairsSwappedAt(Vals(val, ids), i);
    }
  }

  // -------------------------------------------------------- delete middle

  /** `s` without its element at index floor(|s| / 2). */
  function WithoutMiddle<T>(s: seq<T>): (r: seq<T>)
    requires |s| >= 1
    ensures |r| == |s| - 1
    ensures forall i {:trigger r[i]} :: 0 <= i < |r| ==> r[i] == if i < |s| / 2 then s[i] else s[i + 1]
  {
    var m := |s| / 2;
    s[..m] + s[m + 1..]
  }

  /** Exactly the middle element is lost. */
  lemma WithoutMiddlePermutes<T>(s: seq<T>)
    requires |s| >= 1
    ensures multiset(WithoutMiddle(s)) + multiset{s[|s| / 2]} == multiset(s)
  {
    var m := |s| / 2;
    assert s == s[..m] + [s[m]] + s[m + 1..];
  }

  /** Six elements lose the one at index 3; a single element leaves nothing. */
  lemma WithoutMiddleExamples()
    ensures WithoutMiddle([0, 1, 2, 3, 4, 5]) == [0, 1, 2, 4, 5]
    ensures WithoutMiddle([7]) == []
  {
    var r := WithoutMiddle([0, 1, 2, 3, 4, 5]);
    assert r[3] == 4 && r[4] == 5;
  }

  /** Dropping the middle node drops the middle string. */
  lemma ValsWithoutMiddle(val: seq<string>, ids: seq<int>)
    requires InDomain(val, ids) && |ids| >= 1
    ensures InDomain(val, WithoutMiddle(ids))
    ensures Vals(val, WithoutMiddle(ids)) == WithoutMiddle(Vals(val, ids))
  {
  }

  // ---------------------------------------------------------------- merge

  /** The ring `merge_two_list` builds from two sorted rings: each element of
      `b` is placed before the first element of `a` whose string is greater,
      so that on equal strings the elements of `a` come first. */
  function Merge(val: seq<string>, a: seq<int>, b: seq<int>): (r: seq<int>)
    requires InDomain(val, a) && InDomain(val, b)
    ensures |r| == |a| + |b|
    ensures InDomain(val, r)
    decreases |a| + |b|
  {
    if a == [] then b
    else if b == [] then a
    else if Le(val[a[0]], val[b[0]]) then
      var r := [a[0]] + Merge(val, a[1..], b);
      assert a == [a[0]] + a[1..];
      r
    else
      var r := [b[0]] + Merge(val, a, b[1..]);
      assert b == [b[0]] + b[1..];
      r
  }

  /** Merging loses and adds no node. */
  lemma {:induction false} MergePermutes(val: seq<string>, a: seq<int>, b: seq<int>)
    requires InDomain(val, a) && InDomain(val, b)
    ensures multiset(Merge(val, a, b)) == multiset(a) + multiset(b)
    decreases |a| + |b|
  {
    if a != [] && b != [] {
      if Le(val[a[0]], val[b[0]]) {
        var t := Merge(val, a[1..], b);
        MergePermutes(val, a[1..], b);
        assert Merge(val, a, b) == [a[0]] + t;
        assert a == [a[0]] + a[1..];
        calc {
          multiset(Merge(val, a, b));
          multiset([a[0]]) + multiset(t);
          multiset([a[0]]) + multiset(a[1..]) + multiset(b);
          multiset(a) + multiset(b);
        }
      } else {
        var t := Merge(val, a, b[1..]);
        MergePermutes(val, a, b[1..]);
        assert Merge(val, a, b) == [b[0]] + t;
        assert b == [b[0]] + b[1..];
        calc {
          multiset(Merge(val, a, b));
          multiset([b[0]]) + multiset(t);
          multiset([b[0]]) + multiset(a) + multiset(b[1..]);
          multiset(a) + multiset(b);
        }
      }
    }
  }

  /** Merging with an empty left side gives the right side unchanged. */
  lemma MergeEmptyLeft(val: seq<string>, b: seq<int>)
    requires InDomain(val, b)
    ensures Merge(val, [], b) == b
  {
  }

  /** The first element of a merge is the first of one of its inputs. */
  lemma MergeHead(val: seq<string>, a: seq<int>, b: seq<int>)
    requires InDomain(val, a) && InDomain(val, b) && (a != [] || b != [])
    ensures Merge(val, a, b)[0] ==
            if a == [] then b[0] else if b == [] then a[0]
            else if Le(val[a[0]], val[b[0]]) then a[0] else b[0]
  {
  }

  lemma OrderedCons(val: seq<string>, x: int, t: seq<int>)
    requires InDomain(val, t) && 0 <= x < |val| && Ordered(val, t)
    requires t == [] || Le(val[x], val[t[0]])
    ensures InDomain(val, [x] + t) && Ordered(val, [x] + t)
  {
  }

  /** Merging two sorted rings gives a sorted ring. */
  lemma {:induction false} MergeOrdered(val: seq<string>, a: seq<int>, b: seq<int>)
    requires InDomain(val, a) && InDomain(val, b)
    requires Ordered(val, a) && Ordered(val, b)
    ensures Ordered(val, Merge(val, a, b))
    decreases |a| + |b|
  {
    if a != [] && b != [] {
      if Le(val[a[0]], val[b[0]]) {
        MergeOrdered(val, a[1..], b);
        var t := Merge(val, a[1..], b);
        MergeHead(val, a[1..], b);
        assert |a| > 1 ==> Le(val[a[0]], val[a[1]]);
        OrderedCons(val, a[0], t);
      } else {
        LeTotal(val[a[0]], val[b[0]]);
        MergeOrdered(val, a, b[1..]);
        var t := Merge(val, a, b[1..]);
        MergeHead(val, a, b[1..]);
        assert |b| > 1 ==> Le(val[b[0]], val[b[1]]);
        OrderedCons(val, b[0], t);
      }
    }
  }

  /** The step `merge_two_list` takes for one right element `x`, larger than
      or equal to every right element already placed: `x` goes in front of
      position `c` of the ring built so far, where every element before `c`
      is at most `x` and the one at `c` (if any) is greater. */
  lemma {:induction false} MergeSnoc(val: seq<string>, a: seq<int>, p: seq<int>, x: int, c: int)
    requires InDomain(val, a) && InDomain(val, p) && 0 <= x < |val|
    requires forall i :: 0 <= i < |p| ==> Le(val[p[i]], val[x])
    requires 0 <= c <= |Merge(val, a, p)|
    requires forall i :: 0 <= i < c ==> Le(val[Merge(val, a, p)[i]], val[x])
    requires c < |Merge(val, a, p)| ==> !Le(val[Merge(val, a, p)[c]], val[x])
    ensures InDomain(val, p + [x])
    ensures Merge(val, a, p + [x]) == Merge(val, a, p)[..c] + [x] + Merge(val, a, p)[c..]
    decreases |a| + |p|, 1
  {
    var m := Merge(val, a, p);
    var px := p + [x];
    assert InDomain(val, px);
    if a == [] {
      assert m == p;
      assert c == |p|;
      assert m[..c] + [x] + m[c..] == px;
      assert Merge(val, a, px) == m[..c] + [x] + m[c..];
    } else if p == [] && !Le(val[a[0]], val[x]) {
      assert m == a;
      assert px == [x];
      assert c == 0;
      assert Merge(val, a, px) == [x] + a;
      assert Merge(val, a, px) == m[..c] + [x] + m[c..];
    } else if p == [] || Le(val[a[0]], val[p[0]]) {
      MergeSnocLeft(val, a, p, x, c);
    } else {
      MergeSnocRight(val, a, p, x, c);
    }
  }

  /** `MergeSnoc` when the merge starts with the head of `a`. */
  lemma {:induction false} MergeSnocLeft(val: seq<string>, a: seq<int>, p: seq<int>, x: int, c: int)
    requires InDomain(val, a) && InDomain(val, p) && 0 <= x < |val|
    requires forall i :: 0 <= i < |p| ==> Le(val[p[i]], val[x])
    requires 0 <= c <= |Merge(val, a, p)|
    requires forall i :: 0 <= i < c ==> Le(val[Merge(val, a, p)[i]], val[x])
    requires c < |Merge(val, a, p)| ==> !Le(val[Merge(val, a, p)[c]], val[x])
    requires a != [] && (if p == [] then Le(val[a[0]], val[x]) else Le(val[a[0]], val[p[0]]))
    ensures Merge(val, a, p + [x]) == Merge(val, a, p)[..c] + [x] + Merge(val, a, p)[c..]
    decreases |a| + |p|, 0
  {
    var px := p + [x];
    assert InDomain(val, px);
    if p != [] {
      LeTransitive(val[a[0]], val[p[0]], val[x]);
      assert px[0] == p[0];
    }
    MergeLeftFirst(val, a, px);
    MergeLeftFirst(val, a, p);
    var m, m' := Merge(val, a, p), Merge(val, a[1..], p);
    assert c > 0 by { assert m[0] == a[0]; }
    ShiftPlace(val, a[0], m', x, c);
    calc {
      Merge(val, a, px);
      [a[0]] + Merge(val, a[1..], px);
      { MergeSnoc(val, a[1..], p, x, c - 1); }
      [a[0]] + (m'[..c - 1] + [x] + m'[c - 1..]);
      { ConsInsert(a[0], m', x, c); }
      ([a[0]] + m')[..c] + [x] + ([a[0]] + m')[c..];
      m[..c] + [x] + m[c..];
    }
  }

  /** `MergeSnoc` when the merge starts with the head of `p`. */
  lemma {:induction false} MergeSnocRight(val: seq<string>, a: seq<int>, p: seq<int>, x: int, c: int)
    requires InDomain(val, a) && InDomain(val, p) && 0 <= x < |val|
    requires forall i :: 0 <= i < |p| ==> Le(val[p[i]], val[x])
    requires 0 <= c <= |Merge(val, a, p)|
    requires forall i :: 0 <= i < c ==> Le(val[Merge(val, a, p)[i]], val[x])
    requires c < |Merge(val, a, p)| ==> !Le(val[Merge(val, a, p)[c]], val[x])
    requires a != [] && p != [] && !Le(val[a[0]], val[p[0]])
    ensures Merge(val, a, p + [x]) == Merge(val, a, p)[..c] + [x] + Merge(val, a, p)[c..]
    decreases |a| + |p|, 0
  {
    var p' := p[1..];
    MergeRightFirstSnoc(val, a, p, x);
    MergeRightFirst(val, a, p);
    var m, m' := Merge(val, a, p), Merge(val, a, p');
    assert c > 0 by { assert Le(val[m[0]], val[x]) || c == 0; }
    ShiftPlace(val, p[0], m', x, c);
    BelowTail(val, p, x);
    MergeSnoc(val, a, p', x, c - 1);
    ConsRebuild(Merge(val, a, p + [x]), Merge(val, a, p' + [x]), m, m', p[0], x, c);
  }

  /** What is at most `x` throughout `p` is so throughout its tail. */
  lemma BelowTail(val: seq<string>, p: seq<int>, x: int)
    requires InDomain(val, p) && 0 <= x < |val| && p != []
    requires forall i :: 0 <= i < |p| ==> Le(val[p[i]], val[x])
    ensures InDomain(val, p[1..])
    ensures forall i :: 0 <= i < |p[1..]| ==> Le(val[p[1..][i]], val[x])
  {
    forall i | 0 <= i < |p[1..]| ensures Le(val[p[1..][i]], val[x]) {
      assert p[1..][i] == p[i + 1];
    }
  }

  /** Putting a head in front of a sequence with `x` inserted at `c - 1`
      inserts `x` at `c` of the sequence with that head. */
  lemma ConsRebuild(r: seq<int>, t: seq<int>, m: seq<int>, m': seq<int>, h: int, x: int, c: int)
    requires 1 <= c <= |m'| + 1 && m == [h] + m'
    requires r == [h] + t && t == m'[..c - 1] + [x] + m'[c - 1..]
    ensures r == m[..c] + [x] + m[c..]
  {
    ConsInsert(h, m', x, c);
  }

  /** A merge whose first step takes the head of `a`. */
  lemma MergeLeftFirst(val: seq<string>, a: seq<int>, b: seq<int>)
    requires InDomain(val, a) && InDomain(val, b) && a != []
    requires b == [] || Le(val[a[0]], val[b[0]])
    ensures InDomain(val, a[1..]) && Merge(val, a, b) == [a[0]] + Merge(val, a[1..], b)
  {
  }

  /** A merge whose first step takes the head of `b`. */
  lemma MergeRightFirst(val: seq<string>, a: seq<int>, b: seq<int>)
    requires InDomain(val, a) && InDomain(val, b) && a != [] && b != []
    requires !Le(val[a[0]], val[b[0]])
    ensures InDomain(val, b[1..]) && Merge(val, a, b) == [b[0]] + Merge(val, a, b[1..])
  {
  }

  /** `MergeRightFirst` for a right side with `x` appended. */
  lemma MergeRightFirstSnoc(val: seq<string>, a: seq<int>, p: seq<int>, x: int)
    requires InDomain(val, a) && InDomain(val, p) && 0 <= x < |val| && a != [] && p != []
    requires !Le(val[a[0]], val[p[0]])
    ensures InDomain(val, p + [x]) && InDomain(val, p[1..] + [x])
    ensures Merge(val, a, p + [x]) == [p[0]] + Merge(val, a, p[1..] + [x])
  {
    var px := p + [x];
    assert InDomain(val, px);
    assert px[0] == p[0] && px[1..] == p[1..] + [x];
    MergeRightFirst(val, a, px);
  }

  /** The placement facts about `[h] + m` at `c` hold about `m` at `c - 1`. */
  lemma ShiftPlace(val: seq<string>, h: int, m: seq<int>, x: int, c: int)
    requires InDomain(val, m) && InDomain(val, [h] + m) && 0 <= x < |val| && 1 <= c <= |m| + 1
    requires forall i :: 0 <= i < c ==> Le(val[([h] + m)[i]], val[x])
    requires c < |m| + 1 ==> !Le(val[([h] + m)[c]], val[x])
    ensures forall i :: 0 <= i < c - 1 ==> Le(val[m[i]], val[x])
    ensures c - 1 < |m| ==> !Le(val[m[c - 1]], val[x])
  {
    forall i | 0 <= i < c - 1 ensures Le(val[m[i]], val[x]) {
      assert ([h] + m)[i + 1] == m[i];
    }
    if c - 1 < |m| {
      assert ([h] + m)[c] == m[c - 1];
    }
  }

  /** The scan position of `merge_two_list` stays valid from one right
      element to the next: what is at most `b[j - 1]` is at most `b[j]`. */
  lemma MergeBelow(val: seq<string>, b: seq<int>, j: int, m: seq<int>, p: int)
    requires InDomain(val, b) && Ordered(val, b) && 0 <= j < |b|
    requires InDomain(val, m) && 0 <= p <= |m|
    requires j > 0 ==> forall i :: 0 <= i < p ==> Le(val[m[i]], val[b[j - 1]])
    requires j == 0 ==> p == 0
    ensures forall i :: 0 <= i < p ==> Le(val[m[i]], val[b[j]])
  {
    if j > 0 {
      OrderedPairwise(val, b, j - 1, j);
      forall i | 0 <= i < p ensures Le(val[m[i]], val[b[j]]) {
        LeTransitive(val[m[i]], val[b[j - 1]], val[b[j]]);
      }
    }
  }

  /** In ordered nodes every node before `j` holds a string at most that of
      node `j`. */
  lemma OrderedBefore(val: seq<string>, b: seq<int>, j: int)
    requires InDomain(val, b) && Ordered(val, b) && 0 <= j < |b|
    ensures forall i :: 0 <= i < j ==> Le(val[b[..j][i]], val[b[j]])
  {
    forall i | 0 <= i < j ensures Le(val[b[..j][i]], val[b[j]]) {
      OrderedPairwise(val, b, i, j);
    }
  }

  /** Where the scan of `merge_two_list` puts `x`: the scan stopped at `q`,
      on a greater string or on the last node, with every string before it
      at most `x`. Then `x` goes before `q` (greater) or behind it (last), at
      a position `c` with only strings at most `x` before it and a greater
      one at it; the scan node keeps its place, with everything before it
      still at most `x`. */
  lemma ScanPlace(val: seq<string>, m: seq<int>, q: int, cmp: int, x: int)
    requires InDomain(val, m) && 0 <= x < |val| && 0 <= q < |m|
    requires cmp == Strcmp(val[m[q]], val[x]) && (q == |m| - 1 || cmp > 0)
    requires forall i :: 0 <= i < q ==> Le(val[m[i]], val[x])
    ensures var c := if cmp > 0 then q else q + 1;
            (forall i :: 0 <= i < c ==> Le(val[m[i]], val[x])) &&
            (c < |m| ==> !Le(val[m[c]], val[x]))
    ensures var c := if cmp > 0 then q else q + 1;
            var m', q' := m[..c] + [x] + m[c..], if cmp > 0 then q + 1 else q;
            0 <= q' < |m'| && m'[q'] == m[q] &&
            forall i :: 0 <= i < q' ==> Le(val[m'[i]], val[x])
  {
    assert Strcmp(val[x], val[x]) == 0;
  }

  /** One placement of `merge_two_list` extends the merge by one right
      element: with every earlier right string and every string before
      position `c` at most `b[j]`, and the one at `c` greater, the merge
      with `b[j]` is the merge without it, `b[j]` inserted at `c`. */
  lemma MergePlace(val: seq<string>, a: seq<int>, b: seq<int>, j: int, m: seq<int>, c: int)
    requires InDomain(val, a) && InDomain(val, b) && 0 <= j < |b|
    requires forall i :: 0 <= i < j ==> Le(val[b[..j][i]], val[b[j]])
    requires InDomain(val, b[..j]) && m == Merge(val, a, b[..j]) && 0 <= c <= |m|
    requires forall i :: 0 <= i < c ==> Le(val[m[i]], val[b[j]])
    requires c < |m| ==> !Le(val[m[c]], val[b[j]])
    ensures InDomain(val, b[..j + 1]) && Merge(val, a, b[..j + 1]) == m[..c] + [b[j]] + m[c..]
  {
    TakeSnoc(b, j);
    MergeSnoc(val, a, b[..j], b[j], c);
  }

  lemma TakeSnoc(b: seq<int>, j: int)
    requires 0 <= j < |b|
    ensures b[..j + 1] == b[..j] + [b[j]]
  {
  }

  lemma ConsInsert(h: int, m: seq<int>, x: int, c: int)
    requires 1 <= c <= |m| + 1
    ensures [h] + (m[..c - 1] + [x] + m[c - 1..]) == ([h] + m)[..c] + [x] + ([h] + m)[c..]
  {
    assert ([h] + m)[..c] == [h] + m[..c - 1];
    assert ([h] + m)[c..] == m[c - 1..];
  }

  /** When every string of `a` is at most every string of `b` (their
      concatenation is sorted), merging just concatenates. */
  lemma {:induction false} MergeOfOrderedConcat(val: seq<string>, a: seq<int>, b: seq<int>)
    requires InDomain(val, a) && InDomain(val, b) && InDomain(val, a + b)
    requires Ordered(val, a + b)
    ensures Merge(val, a, b) == a + b
    decreases |a|
  {
    if a != [] && b != [] {
      OrderedPairwise(val, a + b, 0, |a|);
      assert (a + b)[1..] == a[1..] + b;
      MergeOfOrderedConcat(val, a[1..], b);
    }
  }

  // ----------------------------------------------------------- merge sort

  /** How many elements `q_sort` keeps in the left half: the slow/fast walk
      stops at index ceil(n / 2) - 1 (queue.c:348-352). */
  function Half(n: nat): (m: nat)
    ensures n >= 2 ==> 1 <= m < n
    ensures n - m <= m <= n - m + 1
  {
    (n + 1) / 2
  }

  /** The ring `q_sort` produces: split after the first ceil(n/2) elements,
      sort both halves, merge the right one into the left one. */
  function MergeSort(val: seq<string>, ids: seq<int>): (r: seq<int>)
    requires InDomain(val, ids)
    ensures multiset(r) == multiset(ids)
    ensures InDomain(val, r)
    decreases |ids|
  {
    if |ids| <= 1 then ids
    else
      var m := Half(|ids|);
      assert ids == ids[..m] + ids[m..];
      var l := MergeSort(val, ids[..m]);
      var r := MergeSort(val, ids[m..]);
      MergePermutes(val, l, r);
      Merge(val, l, r)
  }

  /** One level of merge sort: the merge of the sorted halves. */
  lemma MergeSortSplit(val: seq<string>, ids: seq<int>)
    requires InDomain(val, ids) && |ids| > 1
    ensures var m := Half(|ids|);
            InDomain(val, ids[..m]) && InDomain(val, ids[m..]) &&
            MergeSort(val, ids) == Merge(val, MergeSort(val, ids[..m]), MergeSort(val, ids[m..]))
  {
  }

  /** Merge sort leaves the nodes sorted. */
  lemma {:induction false} MergeSortOrdered(val: seq<string>, ids: seq<int>)
    requires InDomain(val, ids)
    ensures Ordered(val, MergeSort(val, ids))
    decreases |ids|
  {
    if |ids| > 1 {
      var m := Half(|ids|);
      MergeSortOrdered(val, ids[..m]);
      MergeSortOrdered(val, ids[m..]);
      MergeOrdered(val, MergeSort(val, ids[..m]), MergeSort(val, ids[m..]));
    }
  }

  /** Merge sort keeps the strings: the sorted contents are a permutation of
      the original contents. */
  lemma MergeSortPermutes(val: seq<string>, ids: seq<int>)
    requires InDomain(val, ids)
    ensures multiset(Vals(val, MergeSort(val, ids))) == multiset(Vals(val, ids))
  {
    ValsPermutation(val, MergeSort(val, ids), ids);
  }

  /** A ring that is already sorted is left exactly as it is, node for node. */
  lemma {:induction false} MergeSortOfOrdered(val: seq<string>, ids: seq<int>)
    requires InDomain(val, ids) && Ordered(val, ids)
    ensures MergeSort(val, ids) == ids
    decreases |ids|
  {
    if |ids| > 1 {
      var m := Half(|ids|);
      OrderedHalves(val, ids, m);
      MergeSortOfOrdered(val, ids[..m]);
      MergeSortOfOrdered(val, ids[m..]);
      MergeSortSplit(val, ids);
      MergeOfOrderedConcat(val, ids[..m], ids[m..]);
    }
  }

  /** Both halves of a sorted ring are sorted, and together they are the ring. */
  lemma OrderedHalves(val: seq<string>, ids: seq<int>, m: int)
    requires InDomain(val, ids) && Ordered(val, ids) && 0 <= m <= |ids|
    ensures InDomain(val, ids[..m]) && Ordered(val, ids[..m])
    ensures InDomain(val, ids[m..]) && Ordered(val, ids[m..])
    ensures ids[..m] + ids[m..] == ids && Ordered(val, ids[..m] + ids[m..])
  {
    OrderedSlice(val, ids, 0, m);
    OrderedSlice(val, ids, m, |ids|);
    assert ids[m..|ids|] == ids[m..];
    assert ids[..m] + ids[m..] == ids;
  }

  lemma OrderedSlice(val: seq<string>, ids: seq<int>, lo: int, hi: int)
    requires InDomain(val, ids) && Ordered(val, ids) && 0 <= lo <= hi <= |ids|
    ensures InDomain(val, ids[lo..hi]) && Ordered(val, ids[lo..hi])
  {
    forall i | 0 < i < hi - lo
      ensures Le(val[ids[lo..hi][i - 1]], val[ids[lo..hi][i]])
    {
      assert ids[lo..hi][i - 1] == ids[lo + i - 1] && ids[lo..hi][i] == ids[lo + i];
    }
  }

  /** Sorting twice is sorting once. */
  lemma MergeSortIdempotent(val: seq<string>, ids: seq<int>)
    requires InDomain(val, ids)
    ensures MergeSort(val, MergeSort(val, ids)) == MergeSort(val, ids)
  {
    MergeSortOrdered(val, ids);
    MergeSortOfOrdered(val, MergeSort(val, ids));
  }

  /** Slots past the ones the nodes use do not change a merge. */
  lemma {:induction false} MergeExtended(val: seq<string>, ext: seq<string>, a: seq<int>, b: seq<int>)
    requires InDomain(val, a) && InDomain(val, b)
    ensures InDomain(val + ext, a) && InDomain(val + ext, b)
    ensures Merge(val + ext, a, b) == Merge(val, a, b)
    decreases |a| + |b|
  {
    if a != [] && b != [] {
      assert (val + ext)[a[0]] == val[a[0]] && (val + ext)[b[0]] == val[b[0]];
      if Le(val[a[0]], val[b[0]]) {
        MergeExtended(val, ext, a[1..], b);
      } else {
        MergeExtended(val, ext, a, b[1..]);
      }
    }
  }

  /** Slots past the ones the nodes use do not change a merge sort. */
  lemma {:induction false} MergeSortExtended(val: seq<string>, ext: seq<string>, ids: seq<int>)
    requires InDomain(val, ids)
    ensures InDomain(val + ext, ids) && MergeSort(val + ext, ids) == MergeSort(val, ids)
    decreases |ids|
  {
    if |ids| > 1 {
      var m := Half(|ids|);
      MergeSortExtended(val, ext, ids[..m]);
      MergeSortExtended(val, ext, ids[m..]);
      MergeExtended(val, ext, MergeSort(val, ids[..m]), MergeSort(val, ids[m..]));
    }
  }

  // ------------------------------------------------- delete duplicates

  /** How often `x` occurs in `s`. */
  function Count(s: seq<string>, x: string): nat { multiset(s)[x] }

  /** The nodes of `ids` whose string occurs exactly once in `all`, in order:
      what deleting every duplicated string leaves. */
  function Uniques(val: seq<string>, ids: seq<int>, all: seq<string>): (r: seq<int>)
    requires InDomain(val, ids)
    ensures InDomain(val, r)
    ensures forall x :: x in r ==> x in ids
  {
    if ids == [] then []
    else
      var last := ids[|ids| - 1];
      var r := Uniques(val, ids[..|ids| - 1], all) + (if Count(all, val[last]) == 1 then [last] else []);
      assert forall x :: x in ids[..|ids| - 1] ==> x in ids;
      r
  }

  /** Uniques keeps a node exactly when its string occurs once. */
  lemma {:induction false} UniquesMembers(val: seq<string>, ids: seq<int>, all: seq<string>, i: int)
    requires InDomain(val, ids) && Distinct(ids) && 0 <= i < |ids|
    ensures ids[i] in Uniques(val, ids, all) <==> Count(all, val[ids[i]]) == 1
  {
    var n := |ids| - 1;
    if i < n {
      assert ids[..n][i] == ids[i];
      DistinctSlice(ids, 0, n);
      assert ids[0..n] == ids[..n];
      UniquesMembers(val, ids[..n], all, i);
      DistinctAt(ids, i, n);
    } else {
      forall j | 0 <= j < n ensures ids[..n][j] != ids[n] {
        DistinctAt(ids, j, n);
      }
      assert ids[n] !in ids[..n];
      assert ids[n] !in Uniques(val, ids[..n], all);
    }
  }

  /** Extending the nodes by one keeps that node exactly when its string
      occurs once. */
  lemma UniquesSnoc(val: seq<string>, ids: seq<int>, k: int, all: seq<string>)
    requires InDomain(val, ids) && 0 <= k < |ids|
    ensures Uniques(val, ids[..k + 1], all) ==
            Uniques(val, ids[..k], all) + (if Count(all, val[ids[k]]) == 1 then [ids[k]] else [])
  {
    assert ids[..k + 1][..k] == ids[..k];
  }

  /** In a sorted sequence an element occurs once exactly when it differs
      from both of its neighbours. */
  lemma CountOnceIffNeighboursDiffer(s: seq<string>, k: int)
    requires Sorted(s) && 0 <= k < |s|
    ensures Count(s, s[k]) == 1 <==>
            (k == 0 || s[k - 1] != s[k]) && (k == |s| - 1 || s[k] != s[k + 1])
  {
    var v := s[k];
    assert s == s[..k] + [v] + s[k + 1..];
    assert multiset(s)[v] == multiset(s[..k])[v] + 1 + multiset(s[k + 1..])[v];
    if (k == 0 || s[k - 1] != v) && (k == |s| - 1 || v != s[k + 1]) {
      forall j | 0 <= j < k ensures s[j] != v {
        SortedPairwise(s, j, k - 1);
        SortedPairwise(s, k - 1, k);
        if s[j] == v {
          StrcmpAntisymmetric(s[k - 1], v);
        }
      }
      forall j | k < j < |s| ensures s[j] != v {
        SortedPairwise(s, k + 1, j);
        SortedPairwise(s, k, k + 1);
        if s[j] == v {
          StrcmpAntisymmetric(s[k + 1], v);
        }
      }
      assert v !in s[..k];
      assert v !in s[k + 1..];
    } else if k > 0 && s[k - 1] == v {
      assert v in s[..k];
    } else {
      assert v in s[k + 1..];
    }
  }

  /** Whether a string occurs once is decided by its neighbours, at every
      position. */
  predicate OnceIffNeighboursDiffer(s: seq<string>) {
    forall k {:trigger Count(s, s[k])} :: 0 <= k < |s| ==>
      (Count(s, s[k]) == 1 <==> (k == 0 || s[k - 1] != s[k]) && (k == |s| - 1 || s[k] != s[k + 1]))
  }

  lemma SortedOnceIffNeighboursDiffer(s: seq<string>)
    requires Sorted(s)
    ensures OnceIffNeighboursDiffer(s)
  {
    forall k | 0 <= k < |s|
      ensures Count(s, s[k]) == 1 <==> (k == 0 || s[k - 1] != s[k]) && (k == |s| - 1 || s[k] != s[k + 1])
    {
      CountOnceIffNeighboursDiffer(s, k);
    }
  }

  /** How often each string of [a, a, b, c, c] occurs. */
  lemma ExampleCounts(a: string, b: string, c: string)
    requires a != b && b != c && a != c
    ensures var val := [a, a, b, c, c];
            Count(val, a) == 2 && Count(val, b) == 1 && Count(val, c) == 2
  {
    assert [a, a, b, c, c] == [a, a] + [b] + [c, c];
  }

  /** Deleting the duplicated strings of [a, a, b, c, c] leaves the node of
      `b` alone. */
  lemma UniquesExample(a: string, b: string, c: string)
    requires a != b && b != c && a != c
    ensures Uniques([a, a, b, c, c], [0, 1, 2, 3, 4], [a, a, b, c, c]) == [2]
  {
    var val, ids := [a, a, b, c, c], [0, 1, 2, 3, 4];
    ExampleCounts(a, b, c);
    var once := [false, false, true, false, false];
    UniquesSteps(val, ids, once);
    assert ids[..5] == ids;
    KeptOnlyThird(ids, once);
  }

  /** Of five nodes flagged [false, false, true, false, false] only the third is kept. */
  lemma KeptOnlyThird(ids: seq<int>, once: seq<bool>)
    requires |ids| == 5 && once == [false, false, true, false, false]
    ensures Kept(ids, once) == [ids[2]]
  {
    assert Kept(ids, once[..1]) == [] by { assert once[..1][..0] == []; }
    assert Kept(ids, once[..2]) == [] by { assert once[..2][..1] == once[..1]; }
    assert Kept(ids, once[..3]) == [ids[2]] by { assert once[..3][..2] == once[..2]; }
    assert Kept(ids, once[..4]) == [ids[2]] by { assert once[..4][..3] == once[..3]; }
    assert once[..5][..4] == once[..4] && once[..5] == once;
  }

  /** `Uniques` over a prefix of `ids`, given which of its nodes occur once. */
  lemma {:induction false} UniquesSteps(val: seq<string>, ids: seq<int>, once: seq<bool>)
    requires InDomain(val, ids) && |once| <= |ids|
    requires forall i :: 0 <= i < |once| ==> (once[i] <==> Count(val, val[ids[i]]) == 1)
    ensures Uniques(val, ids[..|once|], val) == Kept(ids, once)
    decreases |once|
  {
    var n := |once|;
    if n > 0 {
      UniquesSteps(val, ids, once[..n - 1]);
      UniquesSnoc(val, ids, n - 1, val);
    } else {
      assert ids[..0] == [];
    }
  }

  /** The nodes of `ids` whose flag in `once` is set, in order. */
  function Kept(ids: seq<int>, once: seq<bool>): seq<int>
    requires |once| <= |ids|
  {
    if once == [] then [] else Kept(ids, once[..|once| - 1]) + (if once[|once| - 1] then [ids[|once| - 1]] else [])
  }

  /** One input that shows the difference between what `q_delete_dup` does
      and what it should do: on the sorted, duplicate-free ["a", "b"] nothing
      should be deleted, yet the queue keeps only its first element. */
  lemma DeleteDupCounterexample()
    ensures var val := ["a", "b"];
            Ordered(val, [0, 1]) && Uniques(val, [0, 1], val) == [0, 1] != [0, 1][..1]
  {
    var val := ["a", "b"];
    assert Vals(val, [0, 1]) == val;
    assert Count(val, "a") == 1 && Count(val, "b") == 1;
    assert [0, 1][..1] == [0];
  }
}
