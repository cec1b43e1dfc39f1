/** The string queue of queue.c: a circular doubly-linked list with a
    sentinel head (`struct list_head`), whose elements (`element_t`) carry a
    heap-allocated C string. Memory is an arena of node slots: a pointer is
    a slot index, NULL is `NIL`, and `next`/`prev`/`value` are the fields of
    every slot. Each operation updates the links in place, as the C code
    does, and is proved to leave its ring holding the sequence the `Spec`
    module defines. */
module Queue {
  import opened CStrings
  import opened Spec
  import opened Rings

  /** The NULL pointer. */
  const NIL: int := -1

  class Heap {
    /** The `next` link of every slot. */
    var next: seq<int>
    /** The `prev` link of every slot. */
    var prev: seq<int>
    /** The string an element slot points to (`""` for a bare list head). */
    var value: seq<string>
    /** The slots `malloc` has handed out and `free` has not taken back. */
    ghost var live: set<int>

    ghost predicate Valid()
      reads this
    {
      |next| == |prev| == |value| &&
      (forall p :: p in live ==> 0 <= p < |next|) &&
      (forall p :: 0 <= p < |value| ==> IsCString(value[p]))
    }

    /** `h` is the head of a well-formed queue holding the elements `ids`. */
    ghost predicate Ring(h: int, ids: seq<int>)
      reads this
    {
      Valid() && IsRing(next, prev, h, ids)
    }

    constructor ()
      ensures Valid()
      ensures next == [] && prev == [] && value == [] && live == {}
    {
      next, prev, value := [], [], [];
      live := {};
    }

    // --------------------------------------------------------- memory

    /** A new slot whose links are not yet set. */
    method AllocSlot() returns (p: int)
      requires Valid()
      modifies this
      ensures Valid()
      ensures p == |old(next)|
      ensures next == old(next) + [NIL] && prev == old(prev) + [NIL] &&
              value == old(value) + [""] && live == old(live) + {p}
    {
      p := |next|;
      next, prev, value := next + [NIL], prev + [NIL], value + [""];
      live := live + {p};
    }

    /** `malloc` of one slot: either fails, giving NULL, or hands out a new
        slot whose links are not yet set. */
    method Malloc() returns (p: int)
      requires Valid()
      modifies this
      ensures Valid()
      ensures p == NIL || p == |old(next)|
      ensures p == NIL ==> next == old(next) && prev == old(prev) && value == old(value) && live == old(live)
      ensures p != NIL ==> next == old(next) + [NIL] && prev == old(prev) + [NIL] &&
                           value == old(value) + [""] && live == old(live) + {p}
    {
      var fails: bool :| true;
      if fails {
        p := NIL;
      } else {
        p := AllocSlot();
      }
    }

    /** `free`: the slot is given back; its contents stay as they were. */
    method Free(p: int)
      requires Valid()
      modifies this
      ensures Valid()
      ensures next == old(next) && prev == old(prev) && value == old(value)
      ensures live == old(live) - {p}
    {
      live := live - {p};
    }

    /** `q_release_element`: frees the string and the element. The string is
        stored in the element's slot, so both go with the slot. */
    method ReleaseElement(e: int)
      requires Valid()
      modifies this
      ensures Valid()
      ensures next == old(next) && prev == old(prev) && value == old(value)
      ensures live == old(live) - {e}
    {
      Free(e);
    }

    // ------------------------------------------- kernel list primitives

    /** `INIT_LIST_HEAD`: the head links to itself, an empty ring. */
    method InitListHead(h: int)
      requires Valid() && 0 <= h < |next|
      modifies this
      ensures Ring(h, [])
      ensures next == old(next)[h := h] && prev == old(prev)[h := h]
      ensures value == old(value) && live == old(live)
    {
      next := next[h := h];
      prev := prev[h := h];
    }

    /** `list_empty`: the ring holds no element. */
    function ListEmpty(h: int, ghost ids: seq<int>): (r: bool)
      requires Ring(h, ids)
      reads this
      ensures r <==> ids == []
    {
      EmptyIff(next, prev, h, ids);
      next[h] == h
    }

    /** `list_is_singular`: the ring holds exactly one element. */
    function ListIsSingular(h: int, ghost ids: seq<int>): (r: bool)
      requires Ring(h, ids)
      reads this
      ensures r <==> |ids| == 1
    {
      EmptyIff(next, prev, h, ids);
      !ListEmpty(h, ids) && prev[h] == next[h]
    }

    /** `list_add(n, at)`: links `n` right after `at`, the node at position
        `c` of `[h] + ids`, so that `n` becomes element `c`. */
    method ListAdd(n: int, at: int, ghost h: int, ghost ids: seq<int>, ghost c: int)
      requires Ring(h, ids) && 0 <= c <= |ids| && at == At(h, ids, c)
      requires 0 <= n < |next| && n !in Nodes(h, ids)
      modifies this
      ensures Ring(h, ids[..c] + [n] + ids[c..])
      ensures Keeps(old(next), old(prev), next, prev, Nodes(h, ids) + {n}) && |next| == |old(next)|
      ensures value == old(value) && live == old(live)
    {
      var b := next[at];
      prev := prev[b := n];
      next := next[n := b];
      prev := prev[n := at];
      next := next[at := n];
      Insert(old(next), old(prev), h, ids, c, n);
      NeighboursInRing(h, ids, c);
    }

    /** `list_add_tail(n, at)`: links `n` right before `at`, the node at
        position `c` of `ids + [h]`, so that `n` becomes element `c`. */
    method ListAddTail(n: int, at: int, ghost h: int, ghost ids: seq<int>, ghost c: int)
      requires Ring(h, ids) && 0 <= c <= |ids| && at == After(h, ids, c)
      requires 0 <= n < |next| && n !in Nodes(h, ids)
      modifies this
      ensures Ring(h, ids[..c] + [n] + ids[c..])
      ensures Keeps(old(next), old(prev), next, prev, Nodes(h, ids) + {n}) && |next| == |old(next)|
      ensures value == old(value) && live == old(live)
    {
      var a := prev[at];
      next := next[a := n];
      next := next[n := at];
      prev := prev[n := a];
      prev := prev[at := n];
      assert next == old(next)[n := at][a := n];
      assert prev == old(prev)[at := n][n := a];
      Insert(old(next), old(prev), h, ids, c, n);
      NeighboursInRing(h, ids, c);
    }

    /** `list_del(e)`: unlinks element `k`; the neighbours are joined and
        `e` keeps its stale links. */
    method ListDel(e: int, ghost h: int, ghost ids: seq<int>, ghost k: int)
      requires Ring(h, ids) && 0 <= k < |ids| && e == ids[k]
      modifies this
      ensures Ring(h, ids[..k] + ids[k + 1..])
      ensures next == old(next)[At(h, ids, k) := After(h, ids, k + 1)]
      ensures prev == old(prev)[After(h, ids, k + 1) := At(h, ids, k)]
      ensures Keeps(old(next), old(prev), next, prev, Nodes(h, ids)) && |next| == |old(next)|
      ensures value == old(value) && live == old(live)
    {
      var nx, pv := next[e], prev[e];
      prev := prev[nx := pv];
      next := next[pv := nx];
      Delete(old(next), old(prev), h, ids, k);
      NeighboursInRing(h, ids, k);
      NeighboursInRing(h, ids, k + 1);
    }

    /** `list_move(e, at)`: unlinks element `k` of the ring `h` and links it
        right after `at`, the node at position `c` of `[h2] + ids2`. The
        target is either the same ring once `e` is gone or a ring with no
        node in common with it. */
    method ListMove(e: int, at: int, ghost h: int, ghost ids: seq<int>, ghost k: int,
                    ghost h2: int, ghost ids2: seq<int>, ghost c: int)
      requires Ring(h, ids) && 0 <= k < |ids| && e == ids[k]
      requires (h2 == h && ids2 == ids[..k] + ids[k + 1..]) ||
               (IsRing(next, prev, h2, ids2) && Nodes(h2, ids2) !! Nodes(h, ids))
      requires 0 <= c <= |ids2| && at == At(h2, ids2, c)
      modifies this
      ensures Ring(h2, ids2[..c] + [e] + ids2[c..])
      ensures h2 != h ==> Ring(h, ids[..k] + ids[k + 1..])
      ensures Keeps(old(next), old(prev), next, prev, Nodes(h, ids) + Nodes(h2, ids2)) && |next| == |old(next)|
      ensures value == old(value) && live == old(live)
    {
      ghost var rest := ids[..k] + ids[k + 1..];
      NeighboursInRing(h, ids, k);
      NeighboursInRing(h, ids, k + 1);
      NodesRemove(h, ids, k);
      ListDel(e, h, ids, k);
      ghost var nx1, pv1 := next, prev;
      if h2 != h {
        assert e in Nodes(h, ids);
        Framed(old(next), old(prev), next, prev, h2, ids2, {At(h, ids, k), After(h, ids, k + 1)});
      }
      ListAdd(e, at, h2, ids2, c);
      if h2 != h {
        Framed(nx1, pv1, next, prev, h, rest, Nodes(h2, ids2) + {e});
      }
      KeepsTrans(old(next), old(prev), nx1, pv1, next, prev, Nodes(h, ids) + Nodes(h2, ids2), Nodes(h2, ids2) + {e});
    }

    /** `list_splice(list, head)`: the elements of `list` are linked in
        front of those of `head`; nothing changes when `list` is empty. The
        head `list` keeps its stale links. */
    method ListSplice(list: int, head: int, ghost R: seq<int>, ghost L: seq<int>)
      requires Ring(list, R) && Ring(head, L) && Nodes(list, R) !! Nodes(head, L)
      modifies this
      ensures Ring(head, R + L)
      ensures R == [] ==> next == old(next) && prev == old(prev)
      ensures Keeps(old(next), old(prev), next, prev, Nodes(head, L) + Nodes(list, R)) && |next| == |old(next)|
      ensures value == old(value) && live == old(live)
    {
      var headFirst := next[head];
      var listFirst := next[list];
      var listLast := prev[list];
      if ListEmpty(list, R) {
        assert R + L == L;
        return;
      }
      next := next[head := listFirst];
      prev := prev[listFirst := head];
      next := next[listLast := headFirst];
      prev := prev[headFirst := listLast];
      Splice(old(next), old(prev), head, L, list, R);
      assert R[0] in R && R[|R| - 1] in R;
      NeighboursInRing(head, L, 0);
    }

    // ------------------------------------------------------------ queue

    /** `q_new`: an empty queue, or NULL when `malloc` fails. */
    method NewQueue() returns (h: int)
      requires Valid()
      modifies this
      ensures Valid()
      ensures h == NIL ==> next == old(next) && prev == old(prev) && value == old(value) && live == old(live)
      ensures h != NIL ==> h == |old(next)| && Ring(h, []) && live == old(live) + {h} &&
                           next[..h] == old(next) && prev[..h] == old(prev) && value == old(value) + [""]
    {
      h := Malloc();
      if h == NIL {
        return;
      }
      InitListHead(h);
    }

    /** `q_free`: unlinks and releases every element, then frees the head. */
    method FreeQueue(l: int, ghost ids: seq<int>)
      requires Valid() && (l == NIL || Ring(l, ids))
      modifies this
      ensures Valid() && value == old(value)
      ensures l == NIL ==> next == old(next) && prev == old(prev) && live == old(live)
      ensures l != NIL ==> live == old(live) - Nodes(l, ids)
      ensures l != NIL ==> Keeps(old(next), old(prev), next, prev, Nodes(l, ids)) && |next| == |old(next)|
    {
      if l == NIL {
        return;
      }
      var node := next[l];
      ghost var k := 0;
      while !ListEmpty(l, ids[k..])
        invariant value == old(value)
        invariant 0 <= k <= |ids|
        invariant Ring(l, ids[k..]) && node == After(l, ids, k)
        invariant Nodes(l, ids[k..]) <= Nodes(l, ids)
        invariant live == old(live) - (Nodes(l, ids) - Nodes(l, ids[k..]))
        invariant Keeps(old(next), old(prev), next, prev, Nodes(l, ids)) && |next| == |old(next)|
        decreases |ids| - k
      {
        node, k := FreeTurn(node, l, ids, k, old(next), old(prev), old(live), old(value));
      }
      assert Nodes(l, ids[k..]) == {l};
      Free(l);
    }

    /** One turn of the loop of `q_free`: the first remaining element is
        unlinked and released, and the walk moves on to its successor. */
    method FreeTurn(node: int, l: int, ghost ids: seq<int>, ghost k: int,
                    ghost nx0: seq<int>, ghost pv0: seq<int>, ghost live0: set<int>, ghost value0: seq<string>)
      returns (node': int, ghost k': int)
      requires Valid() && 0 <= k < |ids|
      requires Ring(l, ids[k..]) && node == After(l, ids, k)
      requires Nodes(l, ids[k..]) <= Nodes(l, ids)
      requires live == live0 - (Nodes(l, ids) - Nodes(l, ids[k..]))
      requires Keeps(nx0, pv0, next, prev, Nodes(l, ids)) && |next| == |nx0|
      requires value == value0
      modifies this
      ensures Valid() && k' == k + 1 && 0 <= k' <= |ids|
      ensures Ring(l, ids[k'..]) && node' == After(l, ids, k')
      ensures Nodes(l, ids[k'..]) <= Nodes(l, ids)
      ensures live == live0 - (Nodes(l, ids) - Nodes(l, ids[k'..]))
      ensures Keeps(nx0, pv0, next, prev, Nodes(l, ids)) && |next| == |nx0|
      ensures value == value0
    {
      ghost var rest := ids[k..];
      assert rest != [] && node == rest[0];
      var tmp := node;
      node' := next[node];
      assert rest[..0] + rest[1..] == ids[k + 1..];
      NodesRemove(l, rest, 0);
      ghost var nx1, pv1 := next, prev;
      ListDel(tmp, l, rest, 0);
      KeepsTrans(nx0, pv0, nx1, pv1, next, prev, Nodes(l, ids), Nodes(l, rest));
      ReleaseElement(tmp);
      k' := k + 1;
      assert node' == After(l, ids, k');
    }

    /** The element `q_insert_head`/`q_insert_tail` create: `create_node`,
        then a buffer for the string, which receives (the first 1024
        characters of) `s`. NULL when either allocation fails, the element
        being freed again when only the second one does. */
    method NewElement(s: string) returns (n: int)
      requires Valid() && IsCString(s)
      modifies this
      ensures Valid() && |next| >= |old(next)|
      ensures n == NIL ==> Keeps(old(next), old(prev), next, prev, {}) &&
                           value[..|old(value)|] == old(value) && live == old(live)
      ensures n != NIL ==> n == |old(next)| && next == old(next) + [NIL] && prev == old(prev) + [NIL] &&
                           value == old(value) + [Stored(s)] && live == old(live) + {n}
    {
      n := Malloc();
      if n == NIL {
        return;
      }
      var bufFails: bool :| true;
      if bufFails {
        Free(n);
        return NIL;
      }
      value := value[n := Stored(s)];
    }

    /** `q_insert_head`: a new element holding (the first 1024 characters
        of) `s` becomes the first element. Fails, changing no link, when the
        head is NULL or not initialised or an allocation fails. */
    method InsertHead(h: int, s: string, ghost ids: seq<int>) returns (ok: bool)
      requires Valid() && IsCString(s)
      requires h == NIL || (0 <= h < |next| && (next[h] == NIL || prev[h] == NIL || IsRing(next, prev, h, ids)))
      modifies this
      ensures Valid()
      ensures (h == NIL || old(next)[h] == NIL || old(prev)[h] == NIL) ==> !ok
      ensures !ok ==> Keeps(old(next), old(prev), next, prev, {}) && value[..|old(value)|] == old(value) && live == old(live)
      ensures ok ==> var n := |old(next)|;
                     Ring(h, [n] + ids) && live == old(live) + {n} &&
                     value == old(value) + [Stored(s)] &&
                     Vals(value, [n] + ids) == [Stored(s)] + old(Vals(value, ids)) &&
                     Keeps(old(next), old(prev), next, prev, Nodes(h, ids) + {n})
    {
      if h == NIL || prev[h] == NIL || next[h] == NIL {
        return false;
      }
      var n := NewElement(s);
      if n == NIL {
        return false;
      }
      Framed(old(next), old(prev), next, prev, h, ids, {});
      ListAdd(n, h, h, ids, 0);
      assert ids[..0] + [n] + ids[0..] == [n] + ids;
      ok := true;
    }

    /** `q_insert_tail`: as `q_insert_head`, but the new element becomes the
        last one. */
    method InsertTail(h: int, s: string, ghost ids: seq<int>) returns (ok: bool)
      requires Valid() && IsCString(s)
      requires h == NIL || (0 <= h < |next| && (next[h] == NIL || prev[h] == NIL || IsRing(next, prev, h, ids)))
      modifies this
      ensures Valid()
      ensures (h == NIL || old(next)[h] == NIL || old(prev)[h] == NIL) ==> !ok
      ensures !ok ==> Keeps(old(next), old(prev), next, prev, {}) && value[..|old(value)|] == old(value) && live == old(live)
      ensures ok ==> var n := |old(next)|;
                     Ring(h, ids + [n]) && live == old(live) + {n} &&
                     value == old(value) + [Stored(s)] &&
                     Vals(value, ids + [n]) == old(Vals(value, ids)) + [Stored(s)] &&
                     Keeps(old(next), old(prev), next, prev, Nodes(h, ids) + {n})
    {
      if h == NIL || prev[h] == NIL || next[h] == NIL {
        return false;
      }
      var n := NewElement(s);
      if n == NIL {
        return false;
      }
      Framed(old(next), old(prev), next, prev, h, ids, {});
      ListAddTail(n, h, h, ids, |ids|);
      assert ids[..|ids|] + [n] + ids[|ids|..] == ids + [n];
      ok := true;
    }

    /** `q_remove_head`: unlinks the first element and returns it, or NULL
        when the queue is NULL or empty. The element is not freed. When `sp`
        is given, its first `bufsize` characters receive the element's string
        cut to `bufsize - 1` characters and terminated. */
    method RemoveHead(h: int, sp: array?<char>, bufsize: int, ghost ids: seq<int>) returns (e: int)
      requires Valid() && (h == NIL || Ring(h, ids))
      requires sp != null ==> 1 <= bufsize <= sp.Length
      modifies this, sp
      ensures Valid() && value == old(value) && live == old(live)
      ensures e == NIL <==> h == NIL || ids == []
      ensures e == NIL ==> next == old(next) && prev == old(prev) && (sp != null ==> sp[..] == old(sp[..]))
      ensures e != NIL ==> e == ids[0] && Ring(h, ids[1..]) &&
                           Keeps(old(next), old(prev), next, prev, Nodes(h, ids)) && |next| == |old(next)|
      ensures e != NIL && sp != null ==> sp[..bufsize] == CopyOut(value[e], bufsize) && sp[bufsize..] == old(sp[bufsize..])
    {
      if h == NIL {
        return NIL;
      }
      EmptyIff(next, prev, h, ids);
      if next[h] == h {
        return NIL;
      }
      e := next[h];
      ListDel(e, h, ids, 0);
      assert ids[..0] + ids[1..] == ids[1..];
      if sp != null {
        CopyOutTo(sp, value[e], bufsize);
      }
    }

    /** `q_remove_tail`: as `q_remove_head`, for the last element. */
    method RemoveTail(h: int, sp: array?<char>, bufsize: int, ghost ids: seq<int>) returns (e: int)
      requires Valid() && (h == NIL || Ring(h, ids))
      requires sp != null ==> 1 <= bufsize <= sp.Length
      modifies this, sp
      ensures Valid() && value == old(value) && live == old(live)
      ensures e == NIL <==> h == NIL || ids == []
      ensures e == NIL ==> next == old(next) && prev == old(prev) && (sp != null ==> sp[..] == old(sp[..]))
      ensures e != NIL ==> e == ids[|ids| - 1] && Ring(h, ids[..|ids| - 1]) &&
                           Keeps(old(next), old(prev), next, prev, Nodes(h, ids)) && |next| == |old(next)|
      ensures e != NIL && sp != null ==> sp[..bufsize] == CopyOut(value[e], bufsize) && sp[bufsize..] == old(sp[bufsize..])
    {
      if h == NIL {
        return NIL;
      }
      EmptyIff(next, prev, h, ids);
      if next[h] == h {
        return NIL;
      }
      e := prev[h];
      ghost var k := |ids| - 1;
      ListDel(e, h, ids, k);
      assert ids[..k] + ids[k + 1..] == ids[..k];
      if sp != null {
        CopyOutTo(sp, value[e], bufsize);
      }
    }

    /** `q_delete_mid`: unlinks and releases the element at index
        floor(n / 2), found by advancing a pointer to a `next` field once
        for every two steps of a fast pointer. */
    method DeleteMid(h: int, ghost ids: seq<int>) returns (ok: bool)
      requires Valid() && (h == NIL || Ring(h, ids))
      modifies this
      ensures Valid() && value == old(value)
      ensures ok <==> h != NIL && ids != []
      ensures !ok ==> next == old(next) && prev == old(prev) && live == old(live)
      ensures ok ==> Ring(h, WithoutMiddle(ids)) && live == old(live) - {ids[|ids| / 2]} &&
                     Keeps(old(next), old(prev), next, prev, Nodes(h, ids)) && |next| == |old(next)|
    {
      if h == NIL || ListEmpty(h, ids) {
        return false;
      }
      // `ind` owns the `next` field the C code's `indirect` points into
      var ind := h;
      var fast := next[h];
      ghost var s := 0;
      while fast != h && next[fast] != h
        invariant 0 <= 2 * s <= |ids|
        invariant ind == At(h, ids, s) && fast == After(h, ids, 2 * s)
        decreases |ids| - 2 * s
      {
        ind := next[ind];
        fast := next[next[fast]];
        s := s + 1;
      }
      var tmp := next[ind];
      ListDel(tmp, h, ids, s);
      ReleaseElement(tmp);
      ok := true;
    }

    /** `q_delete_dup` AS WRITTEN. Every turn compares `val` with the string
        of `head->next`, the first element, instead of the string of `node`;
        as `val` starts as that same string, the comparison always finds them
        equal and every element after the first is moved to the list of
        duplicates, which is then freed. Only the first element stays. The
        `q_new` of the duplicates' head is taken to succeed. */
    method DeleteDup(h: int, ghost ids: seq<int>) returns (ok: bool)
      requires Valid() && (h == NIL || Ring(h, ids))
      modifies this
      ensures Valid() && |value| >= |old(value)| && value[..|old(value)|] == old(value)
      ensures ok <==> h != NIL && ids != []
      ensures !ok ==> next == old(next) && prev == old(prev) && value == old(value) && live == old(live)
      ensures ok ==> Ring(h, ids[..1]) && live == old(live) - (Nodes(h, ids) - Nodes(h, ids[..1])) &&
                     Keeps(old(next), old(prev), next, prev, Nodes(h, ids))
    {
      if h == NIL || ListEmpty(h, ids) {
        return false;
      }
      var dup := NewQueueBeside(h, ids);
      var val := value[next[h]];
      var node := next[next[h]];
      var safe := next[node];
      ghost var k := 1;
      assert ids[..1] + ids[1..] == ids && Reversed(ids[1..1]) == [];
      while node != h
        invariant value == old(value) + [""] && live == old(live) + {dup}
        invariant 1 <= k <= |ids| && node == After(h, ids, k) && Shape(dup, h, ids) && dup == |old(next)|
        invariant k < |ids| ==> safe == After(h, ids, k + 1)
        invariant Ring(h, ids[..1] + ids[k..]) && Ring(dup, Reversed(ids[1..k])) && val == value[ids[0]]
        invariant Keeps(old(next), old(prev), next, prev, Nodes(h, ids) + {dup}) && |next| == dup + 1
        decreases |ids| - k
      {
        ghost var nx0, pv0 := next, prev;
        node, safe, val := DeleteDupTurn(node, safe, dup, val, h, ids, k);
        KeepsTrans(old(next), old(prev), nx0, pv0, next, prev, Nodes(h, ids) + {dup}, Nodes(h, ids) + {dup});
        k := k + 1;
      }
      assert k == |ids| && ids[..1] + ids[k..] == ids[..1] && ids[1..k] == ids[1..];
      ghost var nx2, pv2 := next, prev;
      FreeDuplicates(dup, h, ids);
      KeepsTrans(old(next), old(prev), nx2, pv2, next, prev, Nodes(h, ids) + {dup}, Nodes(h, ids) + {dup});
      ok := true;
    }

    /** The `q_free(dup_strs)` that ends `q_delete_dup`: releases the list of
        duplicates, which holds every element of the queue but the first. */
    method FreeDuplicates(dup: int, ghost h: int, ghost ids: seq<int>)
      requires 1 <= |ids| && Shape(dup, h, ids)
      requires Ring(h, ids[..1]) && Ring(dup, Reversed(ids[1..]))
      modifies this
      ensures Valid() && Ring(h, ids[..1]) && value == old(value)
      ensures live == old(live) - (Nodes(h, ids) - Nodes(h, ids[..1])) - {dup}
      ensures Keeps(old(next), old(prev), next, prev, Nodes(h, ids) + {dup}) && |next| == |old(next)|
    {
      DupRings(h, ids, |ids|, dup);
      assert ids[1..|ids|] == ids[1..] && ids[..1] + ids[|ids|..] == ids[..1];
      FreeQueue(dup, Reversed(ids[1..]));
      Framed(old(next), old(prev), next, prev, h, ids[..1], Nodes(dup, Reversed(ids[1..])));
    }

    /** The `q_new` of `q_delete_dup`, taken to succeed: a fresh empty list
        beside the queue `h`, which keeps its links. */
    method NewQueueBeside(h: int, ghost ids: seq<int>) returns (dup: int)
      requires Ring(h, ids)
      modifies this
      ensures dup == |old(next)| && Shape(dup, h, ids)
      ensures Ring(h, ids) && Ring(dup, [])
      ensures Keeps(old(next), old(prev), next, prev, {}) && |next| == dup + 1
      ensures value == old(value) + [""] && live == old(live) + {dup}
    {
      dup := AllocSlot();
      Framed(old(next), old(prev), next, prev, h, ids, {});
      ghost var nx1, pv1 := next, prev;
      InitListHead(dup);
      Framed(nx1, pv1, next, prev, h, ids, {dup});
    }

    /** One turn of the loop of `q_delete_dup` on element `k`, as written:
        the string of the first element is compared with `val`, which holds
        that same string, so `node` is moved to the front of the duplicates;
        then the walk steps to `safe`. */
    method DeleteDupTurn(node: int, safe: int, dup: int, val: string, h: int, ghost ids: seq<int>, ghost k: int)
      returns (node': int, safe': int, val': string)
      requires Shape(dup, h, ids) && 1 <= k < |ids| && node == ids[k] && safe == After(h, ids, k + 1)
      requires Ring(h, ids[..1] + ids[k..]) && Ring(dup, Reversed(ids[1..k])) && val == value[ids[0]]
      modifies this
      ensures node' == After(h, ids, k + 1) && (k + 1 < |ids| ==> safe' == After(h, ids, k + 2))
      ensures Ring(h, ids[..1] + ids[k + 1..]) && Ring(dup, Reversed(ids[1..k + 1])) && val' == value[ids[0]]
      ensures Keeps(old(next), old(prev), next, prev, Nodes(h, ids) + {dup}) && |next| == |old(next)|
      ensures value == old(value) && live == old(live)
    {
      var tmp := value[next[h]];
      val' := val;
      if Strcmp(val, tmp) == 0 {
        DupMove(node, dup, h, ids, k);
      } else {
        val' := tmp;
      }
      node' := safe;
      safe' := next[node'];
    }

    /** `list_move(node, dup_strs)` in `q_delete_dup`: element `k` leaves the
        queue and goes to the front of the duplicates. */
    method DupMove(node: int, dup: int, ghost h: int, ghost ids: seq<int>, ghost k: int)
      requires Shape(dup, h, ids) && 1 <= k < |ids| && node == ids[k]
      requires Ring(h, ids[..1] + ids[k..]) && Ring(dup, Reversed(ids[1..k]))
      modifies this
      ensures Ring(h, ids[..1] + ids[k + 1..]) && Ring(dup, Reversed(ids[1..k + 1]))
      ensures Keeps(old(next), old(prev), next, prev, Nodes(h, ids) + {dup}) && |next| == |old(next)|
      ensures value == old(value) && live == old(live)
      ensures k + 1 < |ids| ==> next[ids[k + 1]] == After(h, ids, k + 2)
    {
      ghost var cur := ids[..1] + ids[k..];
      DupRings(h, ids, k, dup);
      DupStep(h, ids, k);
      ListMove(node, dup, h, cur, 1, dup, Reversed(ids[1..k]), 0);
      if k + 1 < |ids| {
        ghost var rest := ids[..1] + ids[k + 1..];
        assert next[rest[1]] == After(h, rest, 2);
      }
    }

    /** `q_delete_dup` as its comment intends: on a sorted queue, every
        element whose string occurs more than once is unlinked and released,
        and the strings that occur once stay in their order. In a sorted
        queue a string occurs more than once exactly when it equals a
        neighbour's, so each element is compared with the next one, and the
        outcome of that comparison is carried over to the next element. */
    method DeleteDupIntended(h: int, ghost ids: seq<int>) returns (ok: bool)
      requires Valid() && (h == NIL || (Ring(h, ids) && Ordered(value, ids)))
      modifies this
      ensures Valid() && value == old(value)
      ensures ok <==> h != NIL && ids != []
      ensures !ok ==> next == old(next) && prev == old(prev) && live == old(live)
      ensures ok ==> var u := Uniques(value, ids, Vals(value, ids));
                     Ring(h, u) && live == old(live) - (Nodes(h, ids) - Nodes(h, u)) &&
                     Keeps(old(next), old(prev), next, prev, Nodes(h, ids)) && |next| == |old(next)|
    {
      if h == NIL || ListEmpty(h, ids) {
        return false;
      }
      OrderedIffSorted(value, ids);
      SortedOnceIffNeighboursDiffer(Vals(value, ids));
      DedupLoop(h, ids, Vals(value, ids));
      ok := true;
    }

    /** The loop of the intended `q_delete_dup`: one pass that drops every node
        equal to its predecessor or its successor. */
    method DedupLoop(h: int, ghost ids: seq<int>, ghost all: seq<string>)
      requires Valid() && Ring(h, ids) && ids != []
      requires |all| == |ids| && (forall i :: 0 <= i < |ids| ==> all[i] == value[ids[i]])
      requires OnceIffNeighboursDiffer(all)
      modifies this
      ensures Valid() && value == old(value)
      ensures var u := Uniques(value, ids, all);
              Ring(h, u) && live == old(live) - (Nodes(h, ids) - Nodes(h, u)) &&
              Keeps(old(next), old(prev), next, prev, Nodes(h, ids)) && |next| == |old(next)|
    {
      var node := next[h];
      var dupOfPrev := false;
      ghost var k := 0;
      ghost var gone: set<int> := {};
      ghost var kept: seq<int> := [];
      assert ids[..0] == [] && Nodes(h, []) - Nodes(h, []) == {} && [] + ids[0..] == ids;
      while node != h
        invariant value == old(value)
        invariant 0 <= k <= |ids| && node == After(h, ids, k) && Shape(|next|, h, ids)
        invariant InDomain(value, ids[..k]) && kept == Uniques(value, ids[..k], all) && Ring(h, kept + ids[k..])
        invariant k < |ids| ==> (dupOfPrev <==> k > 0 && all[k - 1] == all[k])
        invariant gone == Nodes(h, ids[..k]) - Nodes(h, kept) && live == old(live) - gone
        invariant Keeps(old(next), old(prev), next, prev, Nodes(h, ids)) && |next| == |old(next)|
        decreases |ids| - k
      {
        node, dupOfPrev, k, kept, gone :=
          DedupAdvance(node, dupOfPrev, h, ids, k, all, kept, gone, old(next), old(prev), old(live), old(value));
      }
      assert k == |ids| && ids[..k] == ids && ids[k..] == [];
      assert kept + [] == kept;
    }

    /** One turn of the loop of the intended `q_delete_dup`, from its
        invariant at `k` to its invariant at `k + 1`. */
    method DedupAdvance(node: int, dupOfPrev: bool, h: int, ghost ids: seq<int>, ghost k: int,
                        ghost all: seq<string>, ghost kept: seq<int>, ghost gone: set<int>,
                        ghost nx0: seq<int>, ghost pv0: seq<int>, ghost live0: set<int>, ghost value0: seq<string>)
      returns (node': int, dupOfNext: bool, ghost k': int, ghost kept': seq<int>, ghost gone': set<int>)
      requires Valid() && node != h
      requires 0 <= k <= |ids| && node == After(h, ids, k) && Shape(|next|, h, ids)
      requires |all| == |ids| && (forall i :: 0 <= i < |ids| ==> all[i] == value[ids[i]])
      requires OnceIffNeighboursDiffer(all)
      requires InDomain(value, ids[..k]) && kept == Uniques(value, ids[..k], all) && Ring(h, kept + ids[k..])
      requires k < |ids| ==> (dupOfPrev <==> k > 0 && all[k - 1] == all[k])
      requires gone == Nodes(h, ids[..k]) - Nodes(h, kept) && live == live0 - gone
      requires Keeps(nx0, pv0, next, prev, Nodes(h, ids)) && |next| == |nx0|
      requires value == value0
      modifies this
      ensures Valid() && k' == k + 1
      ensures 0 <= k' <= |ids| && node' == After(h, ids, k') && Shape(|next|, h, ids)
      ensures InDomain(value, ids[..k']) && kept' == Uniques(value, ids[..k'], all) && Ring(h, kept' + ids[k'..])
      ensures k' < |ids| ==> (dupOfNext <==> k' > 0 && all[k' - 1] == all[k'])
      ensures gone' == Nodes(h, ids[..k']) - Nodes(h, kept') && live == live0 - gone'
      ensures Keeps(nx0, pv0, next, prev, Nodes(h, ids)) && |next| == |nx0|
      ensures value == value0
    {
      ghost var nx1, pv1 := next, prev;
      node', dupOfNext, kept' := DedupTurn(node, dupOfPrev, h, ids, k, all, kept);
      KeepsTrans(nx0, pv0, nx1, pv1, next, prev, Nodes(h, ids), Nodes(h, ids));
      DedupAccount(|next|, h, value, ids, k, all);
      ghost var keep := (k == 0 || all[k - 1] != all[k]) && (k == |ids| - 1 || all[k] != all[k + 1]);
      gone' := gone + (if keep then {} else {ids[k]});
      k' := k + 1;
    }

    /** One turn of the intended `q_delete_dup` on element `k`, which
        follows the `kept` elements in the ring: it goes when its string
        equals the previous element's (`dupOfPrev`) or the next one's; the
        second comparison is handed on to the next turn. */
    method DedupTurn(node: int, dupOfPrev: bool, h: int, ghost ids: seq<int>, ghost k: int,
                     ghost all: seq<string>, ghost kept: seq<int>)
      returns (node': int, dupOfNext: bool, ghost kept': seq<int>)
      requires Valid() && 0 <= k < |ids| && node == ids[k] && Shape(|next|, h, ids)
      requires Ring(h, kept + ids[k..]) && forall x :: x in kept ==> x in ids[..k]
      requires |all| == |ids| && forall i :: 0 <= i < |ids| ==> all[i] == value[ids[i]]
      requires dupOfPrev <==> k > 0 && all[k - 1] == all[k]
      modifies this
      ensures value == old(value) && node' == After(h, ids, k + 1)
      ensures k + 1 < |ids| ==> (dupOfNext <==> all[k] == all[k + 1])
      ensures var keep := (k == 0 || all[k - 1] != all[k]) && (k == |ids| - 1 || all[k] != all[k + 1]);
              kept' == kept + (if keep then [ids[k]] else []) && Ring(h, kept' + ids[k + 1..]) &&
              live == old(live) - (if keep then {} else {ids[k]})
      ensures Keeps(old(next), old(prev), next, prev, Nodes(h, ids)) && |next| == |old(next)|
    {
      DedupStep(h, kept, ids, k);
      var safe := next[node];
      dupOfNext := safe != h && Strcmp(value[node], value[safe]) == 0;
      if dupOfPrev || dupOfNext {
        DedupUnlink(node, h, ids, k, kept);
        kept' := kept;
      } else {
        kept' := kept + [ids[k]];
      }
      node' := safe;
    }

    /** `list_del` and `q_release_element` of element `k`, which follows the
        `kept` elements in the ring. */
    method DedupUnlink(node: int, ghost h: int, ghost ids: seq<int>, ghost k: int, ghost kept: seq<int>)
      requires 0 <= k < |ids| && Ring(h, kept + ids[k..]) && node == ids[k]
      requires forall x :: x in kept ==> x in ids[..k]
      modifies this
      ensures Ring(h, kept + ids[k + 1..]) && value == old(value) && live == old(live) - {node}
      ensures Keeps(old(next), old(prev), next, prev, Nodes(h, ids)) && |next| == |old(next)|
    {
      ghost var cur := kept + ids[k..];
      DedupStep(h, kept, ids, k);
      assert Nodes(h, cur) <= Nodes(h, ids) by {
        forall x | x in cur ensures x in ids {
          if x in kept { assert x in ids[..k]; }
        }
      }
      ListDel(node, h, cur, |kept|);
      ReleaseElement(node);
      KeepsWider(old(next), old(prev), next, prev, Nodes(h, ids), Nodes(h, cur));
    }

    /** `q_swap`: exchanges every two adjacent elements by moving the first
        of each pair behind the second. */
    method Swap(h: int, ghost ids: seq<int>)
      requires Valid() && (h == NIL || Ring(h, ids))
      modifies this
      ensures Valid() && value == old(value) && live == old(live)
      ensures h == NIL ==> next == old(next) && prev == old(prev)
      ensures h != NIL ==> Ring(h, PairsSwapped(ids)) &&
                           Keeps(old(next), old(prev), next, prev, Nodes(h, ids)) && |next| == |old(next)|
    {
      if h == NIL {
        return;
      }
      var node := next[h];
      ghost var k := 0;
      PairsSwappedNone(ids);
      while node != h && next[node] != h
        invariant value == old(value) && live == old(live)
        invariant 0 <= 2 * k <= |ids|
        invariant Ring(h, PairsSwapped(ids[..2 * k]) + ids[2 * k..])
        invariant node == After(h, ids, 2 * k) && 0 <= node < |next|
        invariant Keeps(old(next), old(prev), next, prev, Nodes(h, ids)) && |next| == |old(next)|
        decreases |ids| - 2 * k
      {
        node := SwapPair(node, h, ids, k);
        k := k + 1;
      }
      SwapDone(next, prev, h, ids, k, node);
    }

    /** One turn of `q_swap` in terms of the whole queue: with the first `k`
        pairs already swapped, swapping pair `k` leaves the first `k + 1`
        swapped; the node after the pair is returned. */
    method SwapPair(node: int, ghost h: int, ghost ids: seq<int>, ghost k: int) returns (after: int)
      requires 0 <= 2 * k <= |ids| && Ring(h, PairsSwapped(ids[..2 * k]) + ids[2 * k..])
      requires node == After(h, ids, 2 * k) && 0 <= node < |next| && node != h && next[node] != h
      modifies this
      ensures 2 * k + 2 <= |ids| && Ring(h, PairsSwapped(ids[..2 * k + 2]) + ids[2 * k + 2..])
      ensures after == After(h, ids, 2 * k + 2) && 0 <= after < |next|
      ensures Keeps(old(next), old(prev), next, prev, Nodes(h, ids)) && |next| == |old(next)|
      ensures value == old(value) && live == old(live)
    {
      ghost var cur := PairsSwapped(ids[..2 * k]) + ids[2 * k..];
      assert cur[2 * k..] == ids[2 * k..];
      assert 2 * k < |ids| && cur[2 * k] == node;
      assert next[node] == After(h, cur, 2 * k + 1);
      var tmp := next[node];
      PairsSwappedStep(ids, k);
      NodesPairsSwapped(h, ids, k);
      SwapStep(node, tmp, h, cur, 2 * k);
      if 2 * k + 2 < |ids| {
        assert cur[2 * k + 2] == ids[2 * k + 2];
      }
      after := next[node];
    }

    /** One turn of `q_swap`: `list_move(node, tmp)` on the adjacent
        elements `j` and `j + 1` exchanges them. */
    method SwapStep(node: int, tmp: int, ghost h: int, ghost cur: seq<int>, ghost j: int)
      requires Ring(h, cur) && 0 <= j && j + 1 < |cur| && node == cur[j] && tmp == cur[j + 1]
      modifies this
      ensures Keeps(old(next), old(prev), next, prev, Nodes(h, cur)) && |next| == |old(next)|
      ensures value == old(value) && live == old(live)
      ensures Ring(h, cur[..j] + [tmp, node] + cur[j + 2..])
      ensures next[node] == After(h, cur, j + 2)
    {
      ghost var rest := cur[..j] + cur[j + 1..];
      ghost var after := cur[..j] + [tmp, node] + cur[j + 2..];
      MoveBehind(h, cur, j);
      ListMove(node, tmp, h, cur, j, h, rest, j + 1);
      assert next[after[j + 1]] == After(h, after, j + 2);
    }

    /** `q_reverse`: walks the ring once from the head, exchanging the
        `next` and `prev` links of every node, head included. */
    method Reverse(h: int, ghost ids: seq<int>)
      requires Valid() && (h == NIL || Ring(h, ids))
      modifies this
      ensures Valid() && value == old(value) && live == old(live)
      ensures h == NIL || ids == [] ==> next == old(next) && prev == old(prev)
      ensures h != NIL ==> Ring(h, Reversed(ids)) &&
                           Keeps(old(next), old(prev), next, prev, Nodes(h, ids)) && |next| == |old(next)|
    {
      if h == NIL || ListEmpty(h, ids) {
        return;
      }
      ghost var nx0, pv0 := next, prev;
      var node := h;
      ghost var k := 0;
      while true
        invariant 0 <= k <= |ids| && node == At(h, ids, k)
        invariant ReversedUpTo(nx0, pv0, next, prev, h, ids, k)
        invariant value == old(value) && live == old(live)
        decreases |ids| - k
      {
        ReverseStep(nx0, pv0, next, prev, h, ids, k);
        var tmp := next[node];
        next := next[node := prev[node]];
        prev := prev[node := tmp];
        node := prev[node];
        if node == h {
          break;
        }
        k := k + 1;
      }
      ReverseLinks(nx0, pv0, next, prev, h, ids);
    }

    /** `merge_two_list`: moves every node of the ring `rh`, in order, into
        the ring `lh`, each in front of the first node past the scan position
        whose string is greater (or behind the last node). With the right
        ring sorted this builds `Merge(value, a, b)`; an empty left ring just
        receives the right one by a splice. */
    method MergeTwoLists(lh: int, rh: int, ghost a: seq<int>, ghost b: seq<int>)
      requires Valid() && Ring(lh, a) && Ring(rh, b) && Nodes(lh, a) !! Nodes(rh, b)
      requires InDomain(value, b) && Ordered(value, b)
      modifies this
      ensures Valid() && value == old(value) && live == old(live)
      ensures InDomain(value, a) && Ring(lh, Merge(value, a, b))
      ensures a != [] || b == [] ==> Ring(rh, [])
      ensures Keeps(old(next), old(prev), next, prev, Nodes(lh, a) + Nodes(rh, b)) && |next| == |old(next)|
    {
      var left := next[lh];
      if left == lh && next[rh] != rh {
        ListSplice(rh, lh, b, a);
        assert b + a == b && a == [];
        return;
      }
      var right := next[rh];
      var safe := next[right];
      ghost var j, p, m := 0, 0, a;
      ghost var fp := Nodes(lh, a) + Nodes(rh, b);
      assert b[..0] == [] && b[0..] == b;
      while right != rh
        invariant value == old(value) && live == old(live)
        invariant 0 <= j <= |b| && InDomain(value, a) && InDomain(value, b[..j]) && m == Merge(value, a, b[..j])
        invariant Ring(lh, m) && Ring(rh, b[j..]) && Nodes(lh, m) !! Nodes(rh, b[j..])
        invariant Nodes(lh, m) + Nodes(rh, b[j..]) == fp
        invariant right == After(rh, b, j) && (j < |b| ==> safe == After(rh, b, j + 1))
        invariant a != [] || b == []
        invariant a != [] ==> 0 <= p < |m| && left == m[p]
        invariant j > 0 ==> forall i :: 0 <= i < p ==> Le(value[m[i]], value[b[j - 1]])
        invariant j == 0 ==> p == 0
        invariant Keeps(old(next), old(prev), next, prev, fp) && |next| == |old(next)|
        decreases |b| - j
      {
        left, right, safe, j, p, m :=
          MergeTurn(left, right, safe, lh, rh, a, b, j, p, m, fp, old(next), old(prev), old(live), old(value));
      }
      assert b[..j] == b && b[j..] == [];
    }

    /** One turn of `list_for_each_safe` in `merge_two_list`: the right node
        `b[j]` is placed into the merged ring, then the walk moves on to the
        saved successor. */
    method MergeTurn(left: int, right: int, safe: int, lh: int, rh: int, ghost a: seq<int>, ghost b: seq<int>,
                     ghost j: int, ghost p: int, ghost m: seq<int>, ghost fp: set<int>,
                     ghost nx0: seq<int>, ghost pv0: seq<int>, ghost live0: set<int>, ghost value0: seq<string>)
      returns (left': int, right': int, safe': int, ghost j': int, ghost p': int, ghost m': seq<int>)
      requires Valid() && right != rh && InDomain(value, b) && Ordered(value, b)
      requires 0 <= j <= |b| && InDomain(value, a) && InDomain(value, b[..j]) && m == Merge(value, a, b[..j])
      requires Ring(lh, m) && Ring(rh, b[j..]) && Nodes(lh, m) !! Nodes(rh, b[j..])
      requires Nodes(lh, m) + Nodes(rh, b[j..]) == fp
      requires right == After(rh, b, j) && (j < |b| ==> safe == After(rh, b, j + 1))
      requires a != [] || b == []
      requires a != [] ==> 0 <= p < |m| && left == m[p]
      requires j > 0 ==> forall i :: 0 <= i < p ==> Le(value[m[i]], value[b[j - 1]])
      requires j == 0 ==> p == 0
      requires Keeps(nx0, pv0, next, prev, fp) && |next| == |nx0|
      requires value == value0 && live == live0
      modifies this
      ensures Valid() && j' == j + 1 && value == value0 && live == live0
      ensures 0 <= j' <= |b| && InDomain(value, a) && InDomain(value, b[..j']) && m' == Merge(value, a, b[..j'])
      ensures Ring(lh, m') && Ring(rh, b[j'..]) && Nodes(lh, m') !! Nodes(rh, b[j'..])
      ensures Nodes(lh, m') + Nodes(rh, b[j'..]) == fp
      ensures right' == After(rh, b, j') && (j' < |b| ==> safe' == After(rh, b, j' + 1))
      ensures a != [] ==> 0 <= p' < |m'| && left' == m'[p']
      ensures j' > 0 ==> forall i :: 0 <= i < p' ==> Le(value[m'[i]], value[b[j' - 1]])
      ensures Keeps(nx0, pv0, next, prev, fp) && |next| == |nx0|
    {
      assert j < |b| && right == b[j] && a != [];
      MergeBelow(value, b, j, m, p);
      var cmp;
      ghost var q;
      left', cmp, q := MergeScan(left, right, lh, m, p);
      ghost var rest := b[j..];
      assert rest[0] == right && rest[1..] == b[j + 1..];
      ghost var nx1, pv1 := next, prev;
      MergeMove(right, left', cmp, lh, rh, m, rest, q);
      KeepsTrans(nx0, pv0, nx1, pv1, next, prev, fp, fp);
      MoveBetween(Nodes(lh, m), Nodes(rh, rest), right);
      ghost var c := if cmp > 0 then q else q + 1;
      ScanPlace(value, m, q, cmp, right);
      OrderedBefore(value, b, j);
      MergePlace(value, a, b, j, m, c);
      m' := m[..c] + [right] + m[c..];
      p' := if cmp > 0 then q + 1 else q;
      j' := j + 1;
      right' := safe;
      safe' := next[right'];
      assert j' < |b| ==> b[j'..][0] == b[j'] && After(rh, b[j'..], 1) == After(rh, b, j' + 1);
    }

    /** The inner loop of `merge_two_list`: from `left`, step forward while
        its string is at most that of `x` and a next node exists. */
    method MergeScan(left: int, x: int, lh: int, ghost m: seq<int>, ghost p: int)
      returns (left': int, cmp: int, ghost p': int)
      requires Ring(lh, m) && 0 <= p < |m| && left == m[p] && 0 <= x < |value|
      requires forall i :: 0 <= i < p ==> Le(value[m[i]], value[x])
      ensures p <= p' < |m| && left' == m[p'] && cmp == Strcmp(value[m[p']], value[x])
      ensures forall i :: 0 <= i < p' ==> Le(value[m[i]], value[x])
      ensures p' == |m| - 1 || cmp > 0
      ensures 0 <= left' < |next| && cmp == Strcmp(value[left'], value[x]) && (next[left'] == lh || cmp > 0)
    {
      left', p' := left, p;
      cmp := Strcmp(value[left'], value[x]);
      while next[left'] != lh && cmp <= 0
        invariant p <= p' < |m| && left' == m[p'] && cmp == Strcmp(value[m[p']], value[x])
        invariant forall i :: 0 <= i < p' ==> Le(value[m[i]], value[x])
        decreases |m| - p'
      {
        left' := next[left'];
        p' := p' + 1;
        cmp := Strcmp(value[left'], value[x]);
      }
    }

    /** `list_del(right)` followed by `list_add_tail(right, left)` when the
        scan stopped at a greater string, `list_add(right, left)` otherwise. */
    method MergeMove(right: int, left: int, cmp: int, ghost lh: int, ghost rh: int,
                     ghost m: seq<int>, ghost rest: seq<int>, ghost p: int)
      requires Ring(lh, m) && Ring(rh, rest) && Nodes(lh, m) !! Nodes(rh, rest)
      requires rest != [] && right == rest[0] && 0 <= p < |m| && left == m[p]
      modifies this
      ensures var c := if cmp > 0 then p else p + 1;
              Ring(lh, m[..c] + [right] + m[c..]) && Ring(rh, rest[1..]) &&
              Nodes(lh, m[..c] + [right] + m[c..]) == Nodes(lh, m) + {right} &&
              Nodes(rh, rest[1..]) == Nodes(rh, rest) - {right} && right in Nodes(rh, rest)
      ensures Keeps(old(next), old(prev), next, prev, Nodes(lh, m) + Nodes(rh, rest)) && |next| == |old(next)|
      ensures value == old(value) && live == old(live)
    {
      assert right in Nodes(rh, rest);
      ListDel(right, rh, rest, 0);
      assert rest[..0] + rest[1..] == rest[1..];
      Framed(old(next), old(prev), next, prev, lh, m, Nodes(rh, rest));
      NodesRemove(rh, rest, 0);
      ghost var nx1, pv1 := next, prev;
      if cmp > 0 {
        ListAddTail(right, left, lh, m, p);
      } else {
        ListAdd(right, left, lh, m, p + 1);
      }
      ghost var c := if cmp > 0 then p else p + 1;
      Framed(nx1, pv1, next, prev, rh, rest[1..], Nodes(lh, m) + {right});
      NodesInsert(lh, m, c, right);
      KeepsTrans(old(next), old(prev), nx1, pv1, next, prev, Nodes(lh, m) + Nodes(rh, rest), Nodes(lh, m) + {right});
    }

    /** `q_sort`: top-down merge sort. The ring is cut after its first
        ceil(n/2) elements, the right part hung on a second list head, both
        parts are sorted by the same procedure and the right one is merged
        into the left one. The result is the ring `MergeSort(value, ids)`,
        which `MergeSortOrdered` and `MergeSortPermutes` show to be sorted and
        to hold the same strings. */
    method Sort(h: int, ghost ids: seq<int>)
      requires Valid() && (h == NIL || Ring(h, ids))
      modifies this
      ensures Valid() && value == old(value) && live == old(live)
      ensures h == NIL || |ids| <= 1 ==> next == old(next) && prev == old(prev)
      ensures h != NIL ==> InDomain(value, ids) && Ring(h, MergeSort(value, ids)) &&
                           Keeps(old(next), old(prev), next, prev, Nodes(h, ids)) && |next| == |old(next)|
      decreases |ids|, 1
    {
      if h == NIL || next[h] == h || ListIsSingular(h, ids) {
        return;
      }
      var slow := FindMiddle(h, ids);
      ghost var m := Half(|ids|);
      var r := SplitOff(h, slow, ids, m);
      ghost var nx1, pv1, v1 := next, prev, value;
      KeepsWider(old(next), old(prev), nx1, pv1, Nodes(h, ids) + {r}, Nodes(h, ids));
      SortHalves(h, r, ids, m);
      ghost var nx2, pv2 := next, prev;
      MergeHalves(h, r, ids, m);
      KeepsTrans(nx1, pv1, nx2, pv2, next, prev, Nodes(h, ids) + {r}, Nodes(h, ids) + {r});
      KeepsTrans(old(next), old(prev), nx1, pv1, next, prev, Nodes(h, ids) + {r}, Nodes(h, ids) + {r});
      ghost var nx3, pv3 := next, prev;
      DropStackHead(r, h, MergeSort(v1, ids));
      KeepsCut(old(next), old(prev), nx3, pv3, Nodes(h, ids) + {r}, r);
      assert Nodes(h, ids) + {r} - {r} == Nodes(h, ids);
      MergeSortExtended(value, [""], ids);
    }

    /** The slow/fast walk of `q_sort`: `slow` stops on element
        ceil(n/2) - 1, the last one of the left part. */
    method FindMiddle(h: int, ghost ids: seq<int>) returns (slow: int)
      requires Ring(h, ids) && |ids| >= 2
      ensures slow == ids[Half(|ids|) - 1]
    {
      slow := next[h];
      var fast := next[next[h]];
      ghost var s := 0;
      while fast != h && next[fast] != h
        invariant 0 <= s && 2 * s + 1 <= |ids| && slow == ids[s] && fast == After(h, ids, 2 * s + 1)
        decreases |ids| - 2 * s
      {
        slow := next[slow];
        fast := next[next[fast]];
        s := s + 1;
      }
    }

    /** `LIST_HEAD(right)`: a list head in the caller's stack frame, linked
        to itself. It is the slot just past the arena, given back by
        `DropStackHead` when the frame ends. */
    method StackHead() returns (r: int)
      requires Valid()
      modifies this
      ensures Valid() && r == |old(next)| && Ring(r, [])
      ensures next == old(next) + [r] && prev == old(prev) + [r]
      ensures value == old(value) + [""] && live == old(live)
    {
      r := |next|;
      next, prev, value := next + [r], prev + [r], value + [""];
    }

    /** The end of the frame that holds the list head `r`: its slot goes
        away; the ring `h` does not use it and stays as it is. */
    method DropStackHead(r: int, ghost h: int, ghost ids: seq<int>)
      requires Ring(h, ids) && r == |next| - 1 && r !in Nodes(h, ids) && r !in live
      modifies this
      ensures Ring(h, ids)
      ensures next == old(next)[..r] && prev == old(prev)[..r]
      ensures value == old(value)[..r] && live == old(live)
    {
      forall y | y in Nodes(h, ids) ensures y < r {
        assert 0 <= y < |next|;
      }
      Truncated(next, prev, h, ids, r);
      next, prev, value := next[..r], prev[..r], value[..r];
    }

    /** The cut of `q_sort`: a list head `r` on the stack takes the elements
        after `slow`, element `m - 1`; the ring of `h` keeps the first `m`. */
    method SplitOff(h: int, slow: int, ghost ids: seq<int>, ghost m: int) returns (r: int)
      requires Ring(h, ids) && 1 <= m < |ids| && slow == ids[m - 1]
      modifies this
      ensures r == |old(next)| && |next| == r + 1 && r !in Nodes(h, ids)
      ensures Valid() && value == old(value) + [""] && live == old(live)
      ensures Ring(h, ids[..m]) && Ring(r, ids[m..])
      ensures Keeps(old(next), old(prev), next, prev, Nodes(h, ids))
    {
      r := StackHead();
      assert r !in Nodes(h, ids);
      Framed(old(next), old(prev), next, prev, h, ids, {});
      ghost var nx1, pv1 := next, prev;
      next := next[r := next[slow]];
      prev := prev[next[r] := r];
      prev := prev[r := prev[h]];
      next := next[prev[r] := r];
      next := next[slow := h];
      prev := prev[h := slow];
      Split(nx1, pv1, h, ids, m, r);
    }

    /** The last step of `q_sort`: the sorted right part is merged into the
        sorted left part, which gives the merge sort of the whole ring. */
    method MergeHalves(h: int, r: int, ghost ids: seq<int>, ghost m: int)
      requires Valid() && 1 < |ids| && m == Half(|ids|) && InDomain(value, ids)
      requires Ring(h, MergeSort(value, ids[..m])) && Ring(r, MergeSort(value, ids[m..]))
      requires Nodes(h, MergeSort(value, ids[..m])) !! Nodes(r, MergeSort(value, ids[m..]))
      requires Nodes(h, MergeSort(value, ids[..m])) + Nodes(r, MergeSort(value, ids[m..])) == Nodes(h, ids) + {r}
      requires Ordered(value, MergeSort(value, ids[m..]))
      modifies this
      ensures Valid() && value == old(value) && live == old(live)
      ensures Ring(h, MergeSort(value, ids)) && Nodes(h, MergeSort(value, ids)) == Nodes(h, ids)
      ensures Keeps(old(next), old(prev), next, prev, Nodes(h, ids) + {r}) && |next| == |old(next)|
    {
      MergeSortSplit(value, ids);
      MergeTwoLists(h, r, MergeSort(value, ids[..m]), MergeSort(value, ids[m..]));
      NodesPermutation(h, MergeSort(value, ids), ids);
    }

    /** The two recursive calls of `q_sort`: the right part, then the left. */
    method SortHalves(h: int, r: int, ghost ids: seq<int>, ghost m: int)
      requires Valid() && Shape(|next|, h, ids) && 1 <= m < |ids| && r != h && r !in ids
      requires Ring(h, ids[..m]) && Ring(r, ids[m..])
      modifies this
      ensures Valid() && value == old(value) && live == old(live)
      ensures InDomain(value, ids[..m]) && InDomain(value, ids[m..])
      ensures Ring(h, MergeSort(value, ids[..m])) && Ring(r, MergeSort(value, ids[m..]))
      ensures Nodes(h, MergeSort(value, ids[..m])) !! Nodes(r, MergeSort(value, ids[m..]))
      ensures Nodes(h, MergeSort(value, ids[..m])) + Nodes(r, MergeSort(value, ids[m..])) == Nodes(h, ids) + {r}
      ensures Ordered(value, MergeSort(value, ids[m..]))
      ensures Keeps(old(next), old(prev), next, prev, Nodes(h, ids) + {r}) && |next| == |old(next)|
      decreases |ids|, 0
    {
      SplitNodes(|next|, h, ids, m, r);
      Sort(r, ids[m..]);
      ghost var nx1, pv1 := next, prev;
      Framed(old(next), old(prev), next, prev, h, ids[..m], Nodes(r, ids[m..]));
      Sort(h, ids[..m]);
      NodesPermutation(r, MergeSort(value, ids[m..]), ids[m..]);
      NodesPermutation(h, MergeSort(value, ids[..m]), ids[..m]);
      Framed(nx1, pv1, next, prev, r, MergeSort(value, ids[m..]), Nodes(h, ids[..m]));
      KeepsTrans(old(next), old(prev), nx1, pv1, next, prev, Nodes(h, ids) + {r}, Nodes(h, ids[..m]));
      MergeSortOrdered(value, ids[m..]);
    }

    /** `q_size`: the number of elements, 0 for a NULL queue. */
    method Size(h: int, ghost ids: seq<int>) returns (n: int)
      requires Valid() && (h == NIL || Ring(h, ids))
      ensures n == if h == NIL then 0 else |ids|
    {
      if h == NIL {
        return 0;
      }
      n := 0;
      var node := next[h];
      while node != h
        invariant 0 <= n <= |ids| && node == After(h, ids, n)
        decreases |ids| - n
      {
        n := n + 1;
        node := next[node];
      }
    }
  }

  /** What the removals do with `sp`: `strncpy(sp, v, bufsize)`, then the
      terminator at `sp[bufsize - 1]`. */
  method CopyOutTo(sp: array<char>, v: string, bufsize: int)
    requires 1 <= bufsize <= sp.Length
    modifies sp
    ensures sp[..bufsize] == CopyOut(v, bufsize) && sp[bufsize..] == old(sp[bufsize..])
  {
    CopyString(sp, v, bufsize);
    sp[bufsize - 1] := NUL;
    assert sp[..bufsize] == Strncpy(v, bufsize)[..bufsize - 1] + [NUL];
  }

  /** `strncpy(dst, src, n)` into the first `n` cells of `dst`. */
  method CopyString(dst: array<char>, src: string, n: int)
    requires 0 <= n <= dst.Length
    modifies dst
    ensures dst[..n] == Strncpy(src, n) && dst[n..] == old(dst[n..])
  {
    var i := 0;
    while i < n
      invariant 0 <= i <= n
      invariant dst[..i] == Strncpy(src, n)[..i]
      invariant dst[i..] == old(dst[i..])
    {
      dst[i] := if i < |src| then src[i] else NUL;
      i := i + 1;
    }
  }
}
