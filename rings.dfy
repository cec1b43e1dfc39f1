/** The circular doubly-linked list with a sentinel, over an arena: `nx[p]`
    and `pv[p]` are the `next` and `prev` links of node `p`. A ring is
    described by its sentinel `h` and the sequence `ids` of the nodes it
    threads, in `next` order. Each splice the queue performs is a lemma here
    saying which ring the updated links describe. */
module Rings {
  import opened Spec

  /** Node at position `c` of `[h] + ids`: the node after which an element
      inserted at index `c` is linked. */
  function At(h: int, ids: seq<int>, c: int): int
    requires 0 <= c <= |ids|
  {
    if c == 0 then h else ids[c - 1]
  }

  /** Node at position `c` of `ids + [h]`: the node before which an element
      inserted at index `c` is linked. */
  function After(h: int, ids: seq<int>, c: int): int
    requires 0 <= c <= |ids|
  {
    if c < |ids| then ids[c] else h
  }

  /** The sentinel `h` and the nodes `ids` are distinct slots of an arena of
      `size` slots. */
  predicate Shape(size: int, h: int, ids: seq<int>) {
    0 <= h < size &&
    (forall i :: 0 <= i < |ids| ==> 0 <= ids[i] < size && ids[i] != h) &&
    Distinct(ids)
  }

  /** Following `next` from the sentinel visits `ids` in order and then
      comes back to the sentinel. */
  predicate NextLinks(nx: seq<int>, h: int, ids: seq<int>)
    requires Shape(|nx|, h, ids)
  {
    nx[h] == After(h, ids, 0) &&
    forall i {:trigger nx[ids[i]]} :: 0 <= i < |ids| ==> nx[ids[i]] == After(h, ids, i + 1)
  }

  /** Following `prev` from the sentinel visits `ids` backwards and then
      comes back to the sentinel. */
  predicate PrevLinks(pv: seq<int>, h: int, ids: seq<int>)
    requires Shape(|pv|, h, ids)
  {
    pv[h] == At(h, ids, |ids|) &&
    forall i {:trigger pv[ids[i]]} :: 0 <= i < |ids| ==> pv[ids[i]] == At(h, ids, i)
  }

  /** The links describe the ring with sentinel `h` threading `ids`: the
      sentinel's `next` is the first node and its `prev` the last, and every
      node's `next` and `prev` are its neighbours in `[h] + ids + [h]`. */
  predicate IsRing(nx: seq<int>, pv: seq<int>, h: int, ids: seq<int>) {
    |nx| == |pv| && Shape(|nx|, h, ids) && NextLinks(nx, h, ids) && PrevLinks(pv, h, ids)
  }

  /** The nodes of a ring, sentinel included. */
  function Nodes(h: int, ids: seq<int>): (s: set<int>)
    ensures forall y :: y in s <==> y == h || y in ids
  {
    {h} + set y | y in ids
  }

  /** The links of every node outside `fp` are those of before, and no slot
      was taken away. */
  predicate Keeps(nx: seq<int>, pv: seq<int>, nx': seq<int>, pv': seq<int>, fp: set<int>) {
    |nx| <= |nx'| && |pv| <= |pv'| &&
    forall k :: 0 <= k < |nx| && k < |pv| && k !in fp ==> nx'[k] == nx[k] && pv'[k] == pv[k]
  }

  /** Following `next` `k` times from `x`. */
  function Walk(nx: seq<int>, x: int, k: nat): int
    decreases k
  {
    if k == 0 then x
    else
      var y := Walk(nx, x, k - 1);
      if 0 <= y < |nx| then nx[y] else y
  }

  // ------------------------------------------------------------ invariants

  /** The ring invariant of the list: every node of a ring is the `prev` of
      its `next` and the `next` of its `prev`. */
  lemma LinkInvariant(nx: seq<int>, pv: seq<int>, h: int, ids: seq<int>, y: int)
    requires IsRing(nx, pv, h, ids) && y in Nodes(h, ids)
    ensures 0 <= nx[y] < |pv| && pv[nx[y]] == y
    ensures 0 <= pv[y] < |nx| && nx[pv[y]] == y
  {
    if y != h {
      var i :| 0 <= i < |ids| && ids[i] == y;
      if i + 1 < |ids| {
        assert pv[ids[i + 1]] == At(h, ids, i + 1);
      }
      if i > 0 {
        assert nx[ids[i - 1]] == After(h, ids, i);
      }
    }
  }

  lemma {:induction false} WalkAt(nx: seq<int>, pv: seq<int>, h: int, ids: seq<int>, k: nat)
    requires IsRing(nx, pv, h, ids) && k <= |ids|
    ensures Walk(nx, h, k) == At(h, ids, k)
  {
    if k > 0 {
      WalkAt(nx, pv, h, ids, k - 1);
    }
  }

  /** A traversal from the sentinel meets `|ids|` nodes that are not the
      sentinel, one after the other in ring order, and is back at the
      sentinel after `|ids| + 1` steps. */
  lemma WalkReturns(nx: seq<int>, pv: seq<int>, h: int, ids: seq<int>)
    requires IsRing(nx, pv, h, ids)
    ensures forall k :: 1 <= k <= |ids| ==> Walk(nx, h, k) == ids[k - 1] != h
    ensures Walk(nx, h, |ids| + 1) == h
  {
    forall k | 1 <= k <= |ids|
      ensures Walk(nx, h, k) == ids[k - 1]
    {
      WalkAt(nx, pv, h, ids, k);
    }
    WalkAt(nx, pv, h, ids, |ids|);
  }

  /** The ring is empty exactly when the sentinel's `next` is the sentinel
      (`list_empty`), and has one node exactly when it is not empty and the
      sentinel's `next` and `prev` agree (`list_is_singular`). */
  lemma EmptyIff(nx: seq<int>, pv: seq<int>, h: int, ids: seq<int>)
    requires IsRing(nx, pv, h, ids)
    ensures nx[h] == h <==> ids == []
    ensures nx[h] != h && nx[h] == pv[h] <==> |ids| == 1
  {
    if |ids| > 1 {
      DistinctAt(ids, 0, |ids| - 1);
    }
  }

  // ---------------------------------------------------------------- frames

  /** A ring whose nodes' links were not touched is still the same ring. */
  lemma Framed(nx: seq<int>, pv: seq<int>, nx': seq<int>, pv': seq<int>, h: int, ids: seq<int>, fp: set<int>)
    requires IsRing(nx, pv, h, ids) && Keeps(nx, pv, nx', pv', fp) && |nx'| == |pv'|
    requires fp !! Nodes(h, ids)
    ensures IsRing(nx', pv', h, ids)
  {
    assert h !in fp;
    forall i {:trigger nx'[ids[i]]} | 0 <= i < |ids|
      ensures nx'[ids[i]] == nx[ids[i]] && pv'[ids[i]] == pv[ids[i]]
    {
      assert ids[i] in Nodes(h, ids);
    }
  }

  /** Cutting off slots that no node of the ring uses keeps the ring. */
  lemma Truncated(nx: seq<int>, pv: seq<int>, h: int, ids: seq<int>, n: int)
    requires IsRing(nx, pv, h, ids) && 0 <= n <= |nx|
    requires forall y :: y in Nodes(h, ids) ==> y < n
    ensures IsRing(nx[..n], pv[..n], h, ids)
  {
    assert h in Nodes(h, ids);
    forall i | 0 <= i < |ids| ensures ids[i] < n {
      assert ids[i] in Nodes(h, ids);
    }
  }

  /** The neighbours an insertion at index `c` links to are nodes of the ring. */
  lemma NeighboursInRing(h: int, ids: seq<int>, c: int)
    requires 0 <= c <= |ids|
    ensures At(h, ids, c) in Nodes(h, ids) && After(h, ids, c) in Nodes(h, ids)
  {
    if c > 0 { assert ids[c - 1] in ids; }
    if c < |ids| { assert ids[c] in ids; }
  }

  /** Moving one node from one set of nodes to another keeps their union. */
  lemma MoveBetween(a: set<int>, b: set<int>, x: int)
    requires x in b
    ensures (a + {x}) + (b - {x}) == a + b
  {
  }

  lemma KeepsTrans(a: seq<int>, b: seq<int>, a': seq<int>, b': seq<int>, a'': seq<int>, b'': seq<int>,
                   fp: set<int>, fp': set<int>)
    requires Keeps(a, b, a', b', fp) && Keeps(a', b', a'', b'', fp') && fp' <= fp
    ensures Keeps(a, b, a'', b'', fp)
  {
  }

  /** Cutting the arena back to its former size keeps a frame, less the
      slots cut off. */
  lemma KeepsCut(nx: seq<int>, pv: seq<int>, nx': seq<int>, pv': seq<int>, fp: set<int>, n: int)
    requires Keeps(nx, pv, nx', pv', fp) && |nx| == |pv| == n <= |nx'| && n <= |pv'|
    ensures Keeps(nx, pv, nx'[..n], pv'[..n], fp - {n})
  {
  }

  /** A frame that holds for fewer nodes holds for more. */
  lemma KeepsWider(nx: seq<int>, pv: seq<int>, nx': seq<int>, pv': seq<int>, fp: set<int>, fp': set<int>)
    requires Keeps(nx, pv, nx', pv', fp') && fp' <= fp
    ensures Keeps(nx, pv, nx', pv', fp)
  {
  }

  /** Rings over the same nodes in another order have the same node set. */
  lemma NodesPermutation(h: int, a: seq<int>, b: seq<int>)
    requires multiset(a) == multiset(b)
    ensures Nodes(h, a) == Nodes(h, b)
  {
    forall y ensures y in a <==> y in b {
      assert y in a <==> y in multiset(a);
      assert y in b <==> y in multiset(b);
    }
  }

  lemma NodesInsert(h: int, s: seq<int>, c: int, x: int)
    requires 0 <= c <= |s|
    ensures Nodes(h, s[..c] + [x] + s[c..]) == Nodes(h, s) + {x}
  {
    assert s == s[..c] + s[c..];
    forall y ensures y in s[..c] + [x] + s[c..] <==> y in s || y == x {
      assert y in s[..c] + [x] + s[c..] <==> y in s[..c] || y == x || y in s[c..];
    }
  }

  lemma NodesRemove(h: int, s: seq<int>, k: int)
    requires 0 <= k < |s| && Distinct(s) && h != s[k]
    ensures Nodes(h, s[..k] + s[k + 1..]) == Nodes(h, s) - {s[k]}
  {
    var t := s[..k] + s[k + 1..];
    forall y | y in t ensures y in s && y != s[k] {
      var i :| 0 <= i < |t| && t[i] == y;
      var i0 := if i < k then i else i + 1;
      assert t[i] == s[i0];
      DistinctAt(s, i0, k);
    }
    forall y | y in s && y != s[k] ensures y in t {
      var i :| 0 <= i < |s| && s[i] == y;
      if i < k {
        assert t[i] == y;
      } else {
        assert t[i - 1] == y;
      }
    }
  }

  /** Swapping the first `k` pairs keeps the nodes of the ring. */
  lemma NodesPairsSwapped(h: int, ids: seq<int>, k: int)
    requires 0 <= 2 * k <= |ids|
    ensures Nodes(h, PairsSwapped(ids[..2 * k]) + ids[2 * k..]) == Nodes(h, ids)
  {
    PairsSwappedPermutes(ids[..2 * k]);
    assert ids == ids[..2 * k] + ids[2 * k..];
    NodesPermutation(h, PairsSwapped(ids[..2 * k]) + ids[2 * k..], ids);
  }

  /** `q_swap` stops when fewer than two nodes are left after `node`: by then
      every pair of the ring is swapped. */
  lemma {:induction false} SwapDone(nx: seq<int>, pv: seq<int>, h: int, ids: seq<int>, k: int, node: int)
    requires 0 <= 2 * k <= |ids| && IsRing(nx, pv, h, PairsSwapped(ids[..2 * k]) + ids[2 * k..])
    requires node == After(h, ids, 2 * k) && 0 <= node < |nx| && (node == h || nx[node] == h)
    ensures IsRing(nx, pv, h, PairsSwapped(ids))
  {
    var cur := PairsSwapped(ids[..2 * k]) + ids[2 * k..];
    var j := 2 * k;
    if j < |ids| {
      // the node after `node` is the sentinel, so `node` is the last one
      assert cur[j] == ids[j] && nx[cur[j]] == After(h, cur, j + 1);
    }
    PairsSwappedDone(ids, k);
  }

  /** `list_move(node, tmp)` on the nodes at positions `j` and `j + 1`:
      unlinking the first and linking it back after the second exchanges
      them, within the same node set. */
  lemma MoveBehind(h: int, cur: seq<int>, j: int)
    requires 0 <= j && j + 1 < |cur|
    ensures var rest := cur[..j] + cur[j + 1..];
            var after := cur[..j] + [cur[j + 1], cur[j]] + cur[j + 2..];
            j + 1 <= |rest| && rest[j] == cur[j + 1] &&
            rest[..j + 1] + [cur[j]] + rest[j + 1..] == after &&
            after[j + 1] == cur[j] && After(h, after, j + 2) == After(h, cur, j + 2) &&
            Nodes(h, cur) + Nodes(h, rest) == Nodes(h, cur)
  {
    var rest := cur[..j] + cur[j + 1..];
    var after := cur[..j] + [cur[j + 1], cur[j]] + cur[j + 2..];
    assert rest[..j + 1] + [cur[j]] + rest[j + 1..] == after;
    forall y | y in rest ensures y in cur {
      var i :| 0 <= i < |rest| && rest[i] == y;
      if i < j { assert cur[i] == y; } else { assert cur[i + 1] == y; }
    }
  }

  /** The two rings of `q_delete_dup` after `k` turns: the queue keeps its
      first node and the nodes from position `k` on, the list of duplicates
      `dup` holds the nodes in between, the last one moved first. The two
      share no node, and once every node is moved the duplicates are all the
      queue's nodes but the sentinel and the first one. */
  lemma DupRings(h: int, ids: seq<int>, k: int, dup: int)
    requires Shape(dup, h, ids) && 1 <= k <= |ids|
    ensures Nodes(dup, Reversed(ids[1..k])) !! Nodes(h, ids[..1] + ids[k..])
    ensures Nodes(h, ids[..1] + ids[k..]) + Nodes(dup, Reversed(ids[1..k])) <= Nodes(h, ids) + {dup}
    ensures k == |ids| ==> Nodes(dup, Reversed(ids[1..k])) == Nodes(h, ids) - Nodes(h, ids[..1]) + {dup}
  {
    var mid, kept := ids[1..k], ids[..1] + ids[k..];
    ReversedMembers(mid);
    forall x | x in mid ensures x !in kept && x != h && x in ids && x != dup {
      var i :| 0 <= i < |mid| && mid[i] == x;
      assert ids[i + 1] == x;
      forall j | 0 <= j < |kept| ensures kept[j] != x {
        if j == 0 { DistinctAt(ids, 0, i + 1); } else { assert kept[j] == ids[j + k - 1]; DistinctAt(ids, i + 1, j + k - 1); }
      }
    }
    forall x | x in kept ensures x in ids && x != dup {
      var j :| 0 <= j < |kept| && kept[j] == x;
      if j == 0 { assert ids[0] == x; } else { assert ids[j + k - 1] == x; }
    }
    if k == |ids| {
      forall x | x in ids && x != ids[0] ensures x in mid {
        var i :| 0 <= i < |ids| && ids[i] == x;
        assert mid[i - 1] == x;
      }
      assert ids[..1] == [ids[0]];
    }
  }

  /** The sequences of one turn of `q_delete_dup`: element `k` is the second
      node of the queue's ring; once it is unlinked, the ring goes on with
      element `k + 1`, and the duplicates gain it at their front. */
  lemma DupStep(h: int, ids: seq<int>, k: int)
    requires 1 <= k < |ids|
    ensures var cur, rest := ids[..1] + ids[k..], ids[..1] + ids[k + 1..];
            var moved := Reversed(ids[1..k]);
            cur[1] == ids[k] && cur[..1] + cur[2..] == rest &&
            moved[..0] + [ids[k]] + moved[0..] == Reversed(ids[1..k + 1]) &&
            (k + 1 < |ids| ==> rest[1] == ids[k + 1] && After(h, rest, 2) == After(h, ids, k + 2))
  {
    var cur, rest := ids[..1] + ids[k..], ids[..1] + ids[k + 1..];
    var moved := Reversed(ids[1..k]);
    assert cur[..1] + cur[2..] == rest;
    assert ids[1..k + 1] == ids[1..k] + [ids[k]];
    ReversedSnoc(ids[1..k], ids[k]);
    assert moved[..0] + [ids[k]] + moved[0..] == [ids[k]] + moved;
  }

  /** The nodes the corrected `q_delete_dup` has released after `k` turns,
      `ids[..k]` less those it kept, grow by element `k` exactly when its
      string occurs more than once. */
  lemma UniquesGone(size: int, h: int, val: seq<string>, ids: seq<int>, k: int, all: seq<string>)
    requires Shape(size, h, ids) && InDomain(val, ids) && 0 <= k < |ids|
    ensures var u, u' := Uniques(val, ids[..k], all), Uniques(val, ids[..k + 1], all);
            Nodes(h, ids[..k + 1]) - Nodes(h, u') ==
            (Nodes(h, ids[..k]) - Nodes(h, u)) + (if Count(all, val[ids[k]]) == 1 then {} else {ids[k]})
  {
    var u, u' := Uniques(val, ids[..k], all), Uniques(val, ids[..k + 1], all);
    var x := ids[k];
    assert ids[..k + 1][..k] == ids[..k] && ids[..k + 1] == ids[..k] + [x];
    NodesSnoc(h, ids[..k], x);
    assert x != h;
    forall j | 0 <= j < k ensures ids[..k][j] != x {
      DistinctAt(ids, j, k);
    }
    assert x !in u;
    if Count(all, val[x]) == 1 {
      assert u' == u + [x];
      NodesSnoc(h, u, x);
    } else {
      assert u' == u;
    }
  }

  /** One turn of the corrected `q_delete_dup` in terms of neighbours: the
      node at `k` is kept exactly when its string differs from both
      neighbours', and it joins the removed nodes otherwise. */
  lemma DedupAccount(size: int, h: int, val: seq<string>, ids: seq<int>, k: int, all: seq<string>)
    requires Shape(size, h, ids) && InDomain(val, ids) && 0 <= k < |ids|
    requires |all| == |ids| && (forall i :: 0 <= i < |ids| ==> all[i] == val[ids[i]])
    requires OnceIffNeighboursDiffer(all)
    ensures var keep := (k == 0 || all[k - 1] != all[k]) && (k == |ids| - 1 || all[k] != all[k + 1]);
            var u, u' := Uniques(val, ids[..k], all), Uniques(val, ids[..k + 1], all);
            InDomain(val, ids[..k + 1]) && u' == u + (if keep then [ids[k]] else []) &&
            Nodes(h, ids[..k + 1]) - Nodes(h, u') == (Nodes(h, ids[..k]) - Nodes(h, u)) + (if keep then {} else {ids[k]})
  {
    assert Count(all, all[k]) == 1 <==> (k == 0 || all[k - 1] != all[k]) && (k == |all| - 1 || all[k] != all[k + 1]);
    UniquesSnoc(val, ids, k, all);
    UniquesGone(size, h, val, ids, k, all);
  }

  /** The sequences of one turn of the corrected `q_delete_dup`: element `k`
      follows the `kept` ones in the ring; unlinking it leaves the kept ones
      followed by element `k + 1`, keeping it adds it to them. */
  lemma DedupStep(h: int, kept: seq<int>, ids: seq<int>, k: int)
    requires 0 <= k < |ids|
    ensures var cur, j := kept + ids[k..], |kept|;
            cur[j] == ids[k] && cur[..j] + cur[j + 1..] == kept + ids[k + 1..] &&
            cur == (kept + [ids[k]]) + ids[k + 1..] && After(h, cur, j + 1) == After(h, ids, k + 1)
  {
    var cur, j := kept + ids[k..], |kept|;
    assert cur[..j] + cur[j + 1..] == kept + ids[k + 1..];
    assert cur == (kept + [ids[k]]) + ids[k + 1..];
  }

  lemma NodesSnoc(h: int, s: seq<int>, x: int)
    ensures Nodes(h, s + [x]) == Nodes(h, s) + {x}
  {
    forall y ensures y in s + [x] <==> y in s || y == x {
      assert y in s + [x] <==> y in s || y in [x];
    }
  }

  // --------------------------------------------------------------- splices

  /** `__list_add(n, a, b)` between the neighbours `a` and `b` at index `c`
      (`list_add` when `a` is given, `list_add_tail` when `b` is): the ring
      gains `n` at index `c`. */
  lemma Insert(nx: seq<int>, pv: seq<int>, h: int, ids: seq<int>, c: int, n: int)
    requires IsRing(nx, pv, h, ids) && 0 <= c <= |ids| && 0 <= n < |nx| && n !in Nodes(h, ids)
    ensures var a, b := At(h, ids, c), After(h, ids, c);
            IsRing(nx[n := b][a := n], pv[b := n][n := a], h, ids[..c] + [n] + ids[c..])
  {
    var ids' := ids[..c] + [n] + ids[c..];
    forall i | 0 <= i < |ids'|
      ensures ids'[i] == if i < c then ids[i] else if i == c then n else ids[i - 1]
    {
    }
    assert n != h && n !in ids;
    InsertShape(|nx|, h, ids, ids', c, n);
    InsertNext(nx, h, ids, ids', c, n);
    InsertPrev(pv, h, ids, ids', c, n);
  }

  lemma InsertShape(size: int, h: int, ids: seq<int>, ids': seq<int>, c: int, n: int)
    requires Shape(size, h, ids) && 0 <= c <= |ids| && 0 <= n < size && n != h && n !in ids
    requires |ids'| == |ids| + 1
    requires forall i {:trigger ids'[i]} :: 0 <= i < |ids'| ==>
               ids'[i] == if i < c then ids[i] else if i == c then n else ids[i - 1]
    ensures Shape(size, h, ids')
  {
    forall i | 0 <= i < |ids'|
      ensures 0 <= ids'[i] < size && ids'[i] != h
    {
      if i < c {
        assert ids'[i] == ids[i];
      } else if i > c {
        assert ids'[i] == ids[i - 1];
      }
    }
    forall i, j | 0 <= i < j < |ids'| ensures Elem(ids', i) != Elem(ids', j) {
      if i == c {
        assert ids'[j] == ids[j - 1];
      } else if j == c {
        assert ids'[i] == ids[i];
      } else {
        var i0, j0 := if i < c then i else i - 1, if j < c then j else j - 1;
        assert ids'[i] == ids[i0] && ids'[j] == ids[j0];
        DistinctAt(ids, i0, j0);
      }
    }
  }

  lemma InsertNext(nx: seq<int>, h: int, ids: seq<int>, ids': seq<int>, c: int, n: int)
    requires Shape(|nx|, h, ids) && NextLinks(nx, h, ids)
    requires 0 <= c <= |ids| && 0 <= n < |nx| && n != h && n !in ids
    requires Shape(|nx|, h, ids') && |ids'| == |ids| + 1
    requires forall i {:trigger ids'[i]} :: 0 <= i < |ids'| ==>
               ids'[i] == if i < c then ids[i] else if i == c then n else ids[i - 1]
    ensures NextLinks(nx[n := After(h, ids, c)][At(h, ids, c) := n], h, ids')
  {
    var a, b := At(h, ids, c), After(h, ids, c);
    var nx' := nx[n := b][a := n];
    forall i {:trigger nx'[ids'[i]]} | 0 <= i < |ids'|
      ensures nx'[ids'[i]] == After(h, ids', i + 1)
    {
      if i < c {
        assert ids'[i] == ids[i] && nx[ids[i]] == After(h, ids, i + 1);
        if i + 1 < c {
          DistinctAt(ids, i, c - 1);
          assert ids'[i + 1] == ids[i + 1];
        }
      } else if i == c {
        assert ids'[i] == n;
        if i + 1 < |ids'| { assert ids'[i + 1] == ids[i]; }
      } else {
        assert ids'[i] == ids[i - 1] && nx[ids[i - 1]] == After(h, ids, i);
        if c > 0 { DistinctAt(ids, i - 1, c - 1); }
        if i + 1 < |ids'| { assert ids'[i + 1] == ids[i]; }
      }
    }
    if c == 0 {
      assert nx'[h] == n == ids'[0];
    } else {
      assert ids'[0] == ids[0];
    }
  }

  lemma InsertPrev(pv: seq<int>, h: int, ids: seq<int>, ids': seq<int>, c: int, n: int)
    requires Shape(|pv|, h, ids) && PrevLinks(pv, h, ids)
    requires 0 <= c <= |ids| && 0 <= n < |pv| && n != h && n !in ids
    requires Shape(|pv|, h, ids') && |ids'| == |ids| + 1
    requires forall i {:trigger ids'[i]} :: 0 <= i < |ids'| ==>
               ids'[i] == if i < c then ids[i] else if i == c then n else ids[i - 1]
    ensures PrevLinks(pv[After(h, ids, c) := n][n := At(h, ids, c)], h, ids')
  {
    var a, b := At(h, ids, c), After(h, ids, c);
    var pv' := pv[b := n][n := a];
    forall i {:trigger pv'[ids'[i]]} | 0 <= i < |ids'|
      ensures pv'[ids'[i]] == At(h, ids', i)
    {
      if i < c {
        assert ids'[i] == ids[i] && pv[ids[i]] == At(h, ids, i);
        if c < |ids| { DistinctAt(ids, i, c); }
        if i > 0 { assert ids'[i - 1] == ids[i - 1]; }
      } else if i == c {
        assert ids'[i] == n;
        if i > 0 { assert ids'[i - 1] == ids[i - 1]; }
      } else {
        assert ids'[i] == ids[i - 1] && pv[ids[i - 1]] == At(h, ids, i - 1);
        if i - 1 > c {
          DistinctAt(ids, i - 1, c);
          assert ids'[i - 1] == ids[i - 2];
        } else {
          assert ids'[i - 1] == n;
        }
      }
    }
    if c == |ids| {
      assert pv'[h] == n == ids'[|ids'| - 1];
    } else {
      assert ids'[|ids'| - 1] == ids[|ids| - 1];
    }
  }

  /** `__list_del` of the node at index `k`: its neighbours are linked to
      each other and the ring loses it. */
  lemma Delete(nx: seq<int>, pv: seq<int>, h: int, ids: seq<int>, k: int)
    requires IsRing(nx, pv, h, ids) && 0 <= k < |ids|
    ensures var a, b := At(h, ids, k), After(h, ids, k + 1);
            IsRing(nx[a := b], pv[b := a], h, ids[..k] + ids[k + 1..])
  {
    var ids' := ids[..k] + ids[k + 1..];
    forall i | 0 <= i < |ids'|
      ensures ids'[i] == if i < k then ids[i] else ids[i + 1]
    {
    }
    DeleteShape(|nx|, h, ids, ids', k);
    DeleteNext(nx, h, ids, ids', k);
    DeletePrev(pv, h, ids, ids', k);
  }

  lemma DeleteShape(size: int, h: int, ids: seq<int>, ids': seq<int>, k: int)
    requires Shape(size, h, ids) && 0 <= k < |ids|
    requires |ids'| == |ids| - 1
    requires forall i {:trigger ids'[i]} :: 0 <= i < |ids'| ==> ids'[i] == if i < k then ids[i] else ids[i + 1]
    ensures Shape(size, h, ids')
  {
    forall i | 0 <= i < |ids'|
      ensures 0 <= ids'[i] < size && ids'[i] != h
    {
      if i < k {
        assert ids'[i] == ids[i];
      } else {
        assert ids'[i] == ids[i + 1];
      }
    }
    forall i, j | 0 <= i < j < |ids'| ensures Elem(ids', i) != Elem(ids', j) {
      var i0, j0 := if i < k then i else i + 1, if j < k then j else j + 1;
      assert ids'[i] == ids[i0] && ids'[j] == ids[j0];
      DistinctAt(ids, i0, j0);
    }
  }

  lemma DeleteNext(nx: seq<int>, h: int, ids: seq<int>, ids': seq<int>, k: int)
    requires Shape(|nx|, h, ids) && NextLinks(nx, h, ids) && 0 <= k < |ids|
    requires Shape(|nx|, h, ids') && |ids'| == |ids| - 1
    requires forall i {:trigger ids'[i]} :: 0 <= i < |ids'| ==> ids'[i] == if i < k then ids[i] else ids[i + 1]
    ensures NextLinks(nx[At(h, ids, k) := After(h, ids, k + 1)], h, ids')
  {
    var a, b := At(h, ids, k), After(h, ids, k + 1);
    var nx' := nx[a := b];
    forall i {:trigger nx'[ids'[i]]} | 0 <= i < |ids'|
      ensures nx'[ids'[i]] == After(h, ids', i + 1)
    {
      if i < k {
        assert ids'[i] == ids[i] && nx[ids[i]] == After(h, ids, i + 1);
        if i + 1 < k {
          DistinctAt(ids, i, k - 1);
          assert ids'[i + 1] == ids[i + 1];
        } else if i + 1 < |ids'| {
          assert ids'[i + 1] == ids[i + 2];
        }
      } else {
        assert ids'[i] == ids[i + 1] && nx[ids[i + 1]] == After(h, ids, i + 2);
        if k > 0 { DistinctAt(ids, i + 1, k - 1); }
        if i + 1 < |ids'| { assert ids'[i + 1] == ids[i + 2]; }
      }
    }
    if k == 0 {
      assert nx'[h] == b;
      if |ids'| > 0 { assert ids'[0] == ids[1]; }
    } else {
      assert ids'[0] == ids[0];
    }
  }

  lemma DeletePrev(pv: seq<int>, h: int, ids: seq<int>, ids': seq<int>, k: int)
    requires Shape(|pv|, h, ids) && PrevLinks(pv, h, ids) && 0 <= k < |ids|
    requires Shape(|pv|, h, ids') && |ids'| == |ids| - 1
    requires forall i {:trigger ids'[i]} :: 0 <= i < |ids'| ==> ids'[i] == if i < k then ids[i] else ids[i + 1]
    ensures PrevLinks(pv[After(h, ids, k + 1) := At(h, ids, k)], h, ids')
  {
    var a, b := At(h, ids, k), After(h, ids, k + 1);
    var pv' := pv[b := a];
    forall i {:trigger pv'[ids'[i]]} | 0 <= i < |ids'|
      ensures pv'[ids'[i]] == At(h, ids', i)
    {
      DeletePrevAt(pv, h, ids, ids', k, i);
    }
    if k == |ids| - 1 {
      assert pv'[h] == a;
      if |ids'| > 0 { assert ids'[|ids'| - 1] == ids[k - 1]; }
    } else {
      assert ids'[|ids'| - 1] == ids[|ids| - 1];
    }
  }

  lemma DeletePrevAt(pv: seq<int>, h: int, ids: seq<int>, ids': seq<int>, k: int, i: int)
    requires Shape(|pv|, h, ids) && PrevLinks(pv, h, ids) && 0 <= k < |ids|
    requires Shape(|pv|, h, ids') && |ids'| == |ids| - 1
    requires forall i {:trigger ids'[i]} :: 0 <= i < |ids'| ==> ids'[i] == if i < k then ids[i] else ids[i + 1]
    requires 0 <= i < |ids'|
    ensures pv[After(h, ids, k + 1) := At(h, ids, k)][ids'[i]] == At(h, ids', i)
  {
    if i < k {
      assert ids'[i] == ids[i] && pv[ids[i]] == At(h, ids, i);
      if k + 1 < |ids| { DistinctAt(ids, i, k + 1); }
      if i > 0 { assert ids'[i - 1] == ids[i - 1]; }
    } else {
      assert ids'[i] == ids[i + 1] && pv[ids[i + 1]] == At(h, ids, i + 1);
      if i > k {
        DistinctAt(ids, i + 1, k + 1);
        assert ids'[i - 1] == ids[i];
      } else if i > 0 {
        assert ids'[i - 1] == ids[i - 1];
      }
    }
  }

  /** `list_splice(list, head)` of a non-empty ring `rh`/`R` into a ring
      `lh`/`L`: the nodes of `R` come first, those of `L` follow them. */
  lemma Splice(nx: seq<int>, pv: seq<int>, lh: int, L: seq<int>, rh: int, R: seq<int>)
    requires IsRing(nx, pv, lh, L) && IsRing(nx, pv, rh, R) && Nodes(lh, L) !! Nodes(rh, R)
    requires R != []
    ensures var f, rf, rl := After(lh, L, 0), R[0], R[|R| - 1];
            IsRing(nx[lh := rf][rl := f], pv[rf := lh][f := rl], lh, R + L)
  {
    var s := R + L;
    forall i | 0 <= i < |s|
      ensures s[i] == if i < |R| then R[i] else L[i - |R|]
    {
    }
    assert lh !in R by {
      assert lh in Nodes(lh, L);
    }
    forall i, j | 0 <= i < |R| && 0 <= j < |L| ensures R[i] != L[j] {
      assert R[i] in Nodes(rh, R) && L[j] in Nodes(lh, L);
    }
    SpliceShape(|nx|, lh, L, R, s);
    SpliceNext(nx, lh, L, rh, R, s);
    SplicePrev(pv, lh, L, rh, R, s);
  }

  lemma SpliceShape(size: int, lh: int, L: seq<int>, R: seq<int>, s: seq<int>)
    requires Shape(size, lh, L) && (forall i :: 0 <= i < |R| ==> 0 <= R[i] < size) && Distinct(R)
    requires lh !in R && forall i, j :: 0 <= i < |R| && 0 <= j < |L| ==> R[i] != L[j]
    requires |s| == |R| + |L|
    requires forall i {:trigger s[i]} :: 0 <= i < |s| ==> s[i] == if i < |R| then R[i] else L[i - |R|]
    ensures Shape(size, lh, s)
  {
    forall i | 0 <= i < |s|
      ensures 0 <= s[i] < size && s[i] != lh
    {
      if i < |R| {
        assert s[i] == R[i];
      } else {
        assert s[i] == L[i - |R|];
      }
    }
    forall i, j | 0 <= i < j < |s| ensures Elem(s, i) != Elem(s, j) {
      if j < |R| {
        assert s[i] == R[i] && s[j] == R[j];
        DistinctAt(R, i, j);
      } else if i < |R| {
        assert s[i] == R[i] && s[j] == L[j - |R|];
      } else {
        assert s[i] == L[i - |R|] && s[j] == L[j - |R|];
        DistinctAt(L, i - |R|, j - |R|);
      }
    }
  }

  lemma SpliceNext(nx: seq<int>, lh: int, L: seq<int>, rh: int, R: seq<int>, s: seq<int>)
    requires Shape(|nx|, lh, L) && NextLinks(nx, lh, L)
    requires Shape(|nx|, rh, R) && NextLinks(nx, rh, R) && R != []
    requires lh !in R && forall i, j :: 0 <= i < |R| && 0 <= j < |L| ==> R[i] != L[j]
    requires Shape(|nx|, lh, s) && |s| == |R| + |L|
    requires forall i {:trigger s[i]} :: 0 <= i < |s| ==> s[i] == if i < |R| then R[i] else L[i - |R|]
    ensures NextLinks(nx[lh := R[0]][R[|R| - 1] := After(lh, L, 0)], lh, s)
  {
    var f, rf, rl := After(lh, L, 0), R[0], R[|R| - 1];
    var nx' := nx[lh := rf][rl := f];
    forall i {:trigger nx'[s[i]]} | 0 <= i < |s|
      ensures nx'[s[i]] == After(lh, s, i + 1)
    {
      if i < |R| {
        assert s[i] == R[i] && nx[R[i]] == After(rh, R, i + 1);
        if i + 1 < |R| {
          assert R[i] != rl;
          assert s[i + 1] == R[i + 1];
        } else if L != [] {
          assert s[i + 1] == L[0];
        }
      } else {
        var j := i - |R|;
        assert s[i] == L[j] && nx[L[j]] == After(lh, L, j + 1);
        assert L[j] != rl;
        if j + 1 < |L| { assert s[i + 1] == L[j + 1]; }
      }
    }
    assert s[0] == rf;
  }

  lemma SplicePrev(pv: seq<int>, lh: int, L: seq<int>, rh: int, R: seq<int>, s: seq<int>)
    requires Shape(|pv|, lh, L) && PrevLinks(pv, lh, L)
    requires Shape(|pv|, rh, R) && PrevLinks(pv, rh, R) && R != []
    requires lh !in R && forall i, j :: 0 <= i < |R| && 0 <= j < |L| ==> R[i] != L[j]
    requires Shape(|pv|, lh, s) && |s| == |R| + |L|
    requires forall i {:trigger s[i]} :: 0 <= i < |s| ==> s[i] == if i < |R| then R[i] else L[i - |R|]
    ensures PrevLinks(pv[R[0] := lh][After(lh, L, 0) := R[|R| - 1]], lh, s)
  {
    var f, rf, rl := After(lh, L, 0), R[0], R[|R| - 1];
    var pv' := pv[rf := lh][f := rl];
    forall i {:trigger pv'[s[i]]} | 0 <= i < |s|
      ensures pv'[s[i]] == At(lh, s, i)
    {
      if i < |R| {
        assert s[i] == R[i] && pv[R[i]] == At(rh, R, i);
        if L != [] { assert R[i] != L[0]; }
        if i > 0 {
          assert R[i] != rf;
          assert s[i - 1] == R[i - 1];
        }
      } else {
        var j := i - |R|;
        assert s[i] == L[j] && pv[L[j]] == At(lh, L, j);
        assert L[j] != rf;
        assert s[i - 1] == if j == 0 then rl else L[j - 1];
        if j > 0 { assert L[j] != L[0]; }
      }
    }
    if L == [] {
      assert pv'[lh] == rl == s[|s| - 1];
    } else {
      assert lh != rf && lh != L[0];
      assert s[|s| - 1] == L[|L| - 1];
    }
  }

  /** The split of `q_sort`: the first `m` nodes stay in the ring of `h` and
      the others form a ring around the new sentinel `r`. */
  lemma Split(nx: seq<int>, pv: seq<int>, h: int, ids: seq<int>, m: int, r: int)
    requires IsRing(nx, pv, h, ids) && 1 <= m < |ids| && 0 <= r < |nx| && r !in Nodes(h, ids)
    ensures var n := |ids|;
            var nx' := nx[r := ids[m]][ids[n - 1] := r][ids[m - 1] := h];
            var pv' := pv[ids[m] := r][r := ids[n - 1]][h := ids[m - 1]];
            IsRing(nx', pv', h, ids[..m]) && IsRing(nx', pv', r, ids[m..])
  {
    assert r != h && r !in ids;
    SplitLeft(nx, pv, h, ids, m, r);
    SplitRight(nx, pv, h, ids, m, r);
  }

  /** The two rings of the split share no node and together hold the nodes
      of the ring split, plus the new sentinel. */
  lemma SplitNodes(size: int, h: int, ids: seq<int>, m: int, r: int)
    requires Shape(size, h, ids) && 0 <= m <= |ids| && r != h && r !in ids
    ensures Nodes(h, ids[..m]) !! Nodes(r, ids[m..])
    ensures Nodes(h, ids[..m]) + Nodes(r, ids[m..]) == Nodes(h, ids) + {r}
  {
    forall y | y in ids[..m] && y in ids[m..] ensures false {
      var i :| 0 <= i < m && ids[i] == y;
      var k :| m <= k < |ids| && ids[k] == y;
      DistinctAt(ids, i, k);
    }
    assert h !in ids[m..];
    assert ids == ids[..m] + ids[m..];
  }

  lemma SplitLeft(nx: seq<int>, pv: seq<int>, h: int, ids: seq<int>, m: int, r: int)
    requires IsRing(nx, pv, h, ids) && 1 <= m < |ids| && 0 <= r < |nx| && r != h && r !in ids
    ensures var n := |ids|;
            var nx' := nx[r := ids[m]][ids[n - 1] := r][ids[m - 1] := h];
            var pv' := pv[ids[m] := r][r := ids[n - 1]][h := ids[m - 1]];
            IsRing(nx', pv', h, ids[..m])
  {
    var n := |ids|;
    var nx' := nx[r := ids[m]][ids[n - 1] := r][ids[m - 1] := h];
    var pv' := pv[ids[m] := r][r := ids[n - 1]][h := ids[m - 1]];
    var a := ids[..m];
    DistinctSlice(ids, 0, m);
    assert ids[0..m] == a;
    forall i {:trigger nx'[a[i]]} {:trigger pv'[a[i]]} | 0 <= i < m
      ensures nx'[a[i]] == After(h, a, i + 1) && pv'[a[i]] == At(h, a, i)
    {
      assert a[i] == ids[i];
      if i > 0 { assert a[i - 1] == ids[i - 1]; }
      if i + 1 < m { assert a[i + 1] == ids[i + 1]; DistinctAt(ids, i, m - 1); }
      DistinctAt(ids, i, n - 1);
      DistinctAt(ids, i, m);
    }
  }

  lemma SplitRight(nx: seq<int>, pv: seq<int>, h: int, ids: seq<int>, m: int, r: int)
    requires IsRing(nx, pv, h, ids) && 1 <= m < |ids| && 0 <= r < |nx| && r != h && r !in ids
    ensures var n := |ids|;
            var nx' := nx[r := ids[m]][ids[n - 1] := r][ids[m - 1] := h];
            var pv' := pv[ids[m] := r][r := ids[n - 1]][h := ids[m - 1]];
            IsRing(nx', pv', r, ids[m..])
  {
    var n := |ids|;
    var nx' := nx[r := ids[m]][ids[n - 1] := r][ids[m - 1] := h];
    var pv' := pv[ids[m] := r][r := ids[n - 1]][h := ids[m - 1]];
    var b := ids[m..];
    DistinctSlice(ids, m, n);
    assert ids[m..n] == b;
    forall i {:trigger nx'[b[i]]} {:trigger pv'[b[i]]} | 0 <= i < n - m
      ensures b[i] != r && nx'[b[i]] == After(r, b, i + 1) && pv'[b[i]] == At(r, b, i)
    {
      assert b[i] == ids[m + i];
      if i > 0 { assert b[i - 1] == ids[m + i - 1]; }
      if i + 1 < n - m { assert b[i + 1] == ids[m + i + 1]; }
      DistinctAt(ids, m + i, m - 1);
      if i + 1 < n - m { DistinctAt(ids, m + i, n - 1); }
      if i > 0 { DistinctAt(ids, m + i, m); }
    }
  }

  /** The links after `k` turns of `q_reverse` on the ring `nx0`/`pv0`: the
      nodes at the positions before `k` of `[h] + ids` have their `next` and
      `prev` exchanged, the later ones and every slot outside the ring keep
      theirs. */
  predicate ReversedUpTo(nx0: seq<int>, pv0: seq<int>, nx: seq<int>, pv: seq<int>, h: int, ids: seq<int>, k: int) {
    0 <= k <= |ids| + 1 && Shape(|nx0|, h, ids) &&
    |pv0| == |nx0| && |nx| == |nx0| && |pv| == |nx0| &&
    nx[h] == (if 0 < k then pv0[h] else nx0[h]) &&
    pv[h] == (if 0 < k then nx0[h] else pv0[h]) &&
    (forall i {:trigger nx[ids[i]]} :: 0 <= i < |ids| ==>
       nx[ids[i]] == if i + 1 < k then pv0[ids[i]] else nx0[ids[i]]) &&
    (forall i {:trigger pv[ids[i]]} :: 0 <= i < |ids| ==>
       pv[ids[i]] == if i + 1 < k then nx0[ids[i]] else pv0[ids[i]]) &&
    (forall y :: 0 <= y < |nx| && y !in Nodes(h, ids) ==> nx[y] == nx0[y] && pv[y] == pv0[y])
  }

  /** One turn of `q_reverse`: exchanging the links of the node at position
      `k` and stepping to its old `next`, the node at position `k + 1`. */
  lemma ReverseStep(nx0: seq<int>, pv0: seq<int>, nx: seq<int>, pv: seq<int>, h: int, ids: seq<int>, k: int)
    requires IsRing(nx0, pv0, h, ids) && k <= |ids| && ReversedUpTo(nx0, pv0, nx, pv, h, ids, k)
    ensures var c := At(h, ids, k);
            0 <= c < |nx| && nx[c] == After(h, ids, k) &&
            (After(h, ids, k) == h <==> k == |ids|) &&
            (k < |ids| ==> After(h, ids, k) == At(h, ids, k + 1)) &&
            ReversedUpTo(nx0, pv0, nx[c := pv[c]], pv[c := nx[c]], h, ids, k + 1)
  {
    var c := At(h, ids, k);
    if k > 0 {
      assert nx[ids[k - 1]] == nx0[ids[k - 1]] == After(h, ids, k);
      assert pv[ids[k - 1]] == pv0[ids[k - 1]];
    }
    if k < |ids| {
      assert ids[k] != h;
    }
    var nx', pv' := nx[c := pv[c]], pv[c := nx[c]];
    forall i | 0 <= i < |ids| && i + 1 != k
      ensures ids[i] != c
    {
      if k > 0 {
        if i < k - 1 { DistinctAt(ids, i, k - 1); } else { DistinctAt(ids, k - 1, i); }
      }
    }
    forall i {:trigger nx'[ids[i]]} | 0 <= i < |ids|
      ensures nx'[ids[i]] == if i + 1 < k + 1 then pv0[ids[i]] else nx0[ids[i]]
    {
    }
    forall i {:trigger pv'[ids[i]]} | 0 <= i < |ids|
      ensures pv'[ids[i]] == if i + 1 < k + 1 then nx0[ids[i]] else pv0[ids[i]]
    {
    }
    assert k > 0 ==> c in Nodes(h, ids) by {
      if k > 0 { assert ids[k - 1] in ids; }
    }
  }

  /** The walk of `q_reverse`: exchanging `next` and `prev` on every node of
      a ring, sentinel included, gives the ring of the reversed sequence and
      changes no link outside the ring. */
  lemma ReverseLinks(nx: seq<int>, pv: seq<int>, nx': seq<int>, pv': seq<int>, h: int, ids: seq<int>)
    requires IsRing(nx, pv, h, ids) && ReversedUpTo(nx, pv, nx', pv', h, ids, |ids| + 1)
    ensures IsRing(nx', pv', h, Reversed(ids))
    ensures Keeps(nx, pv, nx', pv', Nodes(h, ids))
  {
    var r := Reversed(ids);
    ReversedShape(|nx|, h, ids, r);
    ReversedNext(nx', pv, h, ids, r);
    ReversedPrev(pv', nx, h, ids, r);
  }

  lemma ReversedShape(size: int, h: int, ids: seq<int>, r: seq<int>)
    requires Shape(size, h, ids) && |r| == |ids|
    requires forall i {:trigger r[i]} :: 0 <= i < |r| ==> r[i] == ids[|ids| - 1 - i]
    ensures Shape(size, h, r)
  {
    forall i, j | 0 <= i < j < |r| ensures Elem(r, i) != Elem(r, j) {
      assert r[i] == ids[|ids| - 1 - i] && r[j] == ids[|ids| - 1 - j];
      DistinctAt(ids, |ids| - 1 - i, |ids| - 1 - j);
    }
  }

  lemma ReversedNext(nx': seq<int>, pv: seq<int>, h: int, ids: seq<int>, r: seq<int>)
    requires |pv| == |nx'| && Shape(|pv|, h, ids) && PrevLinks(pv, h, ids) && Shape(|pv|, h, r)
    requires |r| == |ids|
    requires forall i {:trigger r[i]} :: 0 <= i < |r| ==> r[i] == ids[|ids| - 1 - i]
    requires nx'[h] == pv[h] && forall i {:trigger nx'[ids[i]]} :: 0 <= i < |ids| ==> nx'[ids[i]] == pv[ids[i]]
    ensures NextLinks(nx', h, r)
  {
    var n := |ids|;
    forall i {:trigger nx'[r[i]]} | 0 <= i < n
      ensures nx'[r[i]] == After(h, r, i + 1)
    {
      var j := n - 1 - i;
      assert r[i] == ids[j];
      assert nx'[ids[j]] == pv[ids[j]] == At(h, ids, j);
      if i + 1 < n { assert r[i + 1] == ids[j - 1]; }
    }
    if n > 0 { assert r[0] == ids[n - 1]; }
  }

  lemma ReversedPrev(pv': seq<int>, nx: seq<int>, h: int, ids: seq<int>, r: seq<int>)
    requires |nx| == |pv'| && Shape(|nx|, h, ids) && NextLinks(nx, h, ids) && Shape(|nx|, h, r)
    requires |r| == |ids|
    requires forall i {:trigger r[i]} :: 0 <= i < |r| ==> r[i] == ids[|ids| - 1 - i]
    requires pv'[h] == nx[h] && forall i {:trigger pv'[ids[i]]} :: 0 <= i < |ids| ==> pv'[ids[i]] == nx[ids[i]]
    ensures PrevLinks(pv', h, r)
  {
    var n := |ids|;
    forall i {:trigger pv'[r[i]]} | 0 <= i < n
      ensures pv'[r[i]] == At(h, r, i)
    {
      assert r[i] == ids[n - 1 - i] && nx[ids[n - 1 - i]] == After(h, ids, n - i);
      if i > 0 { assert r[i - 1] == ids[n - i]; }
    }
    if n > 0 { assert r[n - 1] == ids[0]; }
  }
}
