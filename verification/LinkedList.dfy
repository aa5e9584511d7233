/**
 The intrusive circular doubly linked list (iot_common/include/iot_esp_list.h). The functions rewrite
 next and prev pointers; Ring says which sequence of entries a head stands for. Poison pointers are null.
 */
module LinkedList {
  import opened Words

  class ListHead {
    var next: ListHead?
    var prev: ListHead?
  }

  ghost predicate Distinct(r: seq<ListHead>) {
    forall i, j :: 0 <= i < j < |r| ==> r[i] != r[j]
  }

  // Position i on the ring: the head at both ends, the entries between.
  ghost function At(head: ListHead, s: seq<ListHead>, i: int): ListHead {
    if 1 <= i <= |s| then s[i - 1] else head
  }

  // Following next from the head visits the entries of s in order and returns to the head; prev is
  // the inverse of next.
  ghost predicate Ring(head: ListHead, s: seq<ListHead>)
    reads head, s
  {
    && Distinct([head] + s)
    && forall i :: 0 <= i <= |s| ==>
         At(head, s, i).next == At(head, s, i + 1) && At(head, s, i + 1).prev == At(head, s, i)
  }

  // The ring, link by link.
  lemma RingExact(head: ListHead, s: seq<ListHead>)
    requires Ring(head, s)
    ensures s == [] ==> head.next == head && head.prev == head
    ensures s != [] ==> head.next == s[0] && s[0].prev == head && s[|s| - 1].next == head && head.prev == s[|s| - 1]
    ensures forall i :: 0 <= i < |s| - 1 ==> s[i].next == s[i + 1] && s[i + 1].prev == s[i]
    ensures (forall i, j :: 0 <= i < j < |s| ==> s[i] != s[j]) && head !in s
  {
    assert At(head, s, 0).next == At(head, s, 1) && At(head, s, 1).prev == At(head, s, 0);
    assert At(head, s, |s|).next == At(head, s, |s| + 1) && At(head, s, |s| + 1).prev == At(head, s, |s|);
    forall i | 0 <= i < |s| - 1 ensures s[i].next == s[i + 1] && s[i + 1].prev == s[i] {
      assert At(head, s, i + 1).next == At(head, s, i + 2) && At(head, s, i + 2).prev == At(head, s, i + 1);
    }
    forall i, j | 0 <= i < j < |s| ensures s[i] != s[j] {
      AtDistinct(head, s, i + 1, j + 1);
    }
    forall i | 0 <= i < |s| ensures s[i] != head {
      AtDistinct(head, s, 0, i + 1);
    }
  }

  method InitListHead(list: ListHead)
    modifies list
    ensures Ring(list, [])
  {
    list.next := list;
    list.prev := list;
  }

  method ListEmpty(head: ListHead, ghost s: seq<ListHead>) returns (empty: bool)
    requires Ring(head, s)
    ensures empty <==> s == []
  {
    assert At(head, s, 0) == head && At(head, s, 1) == (if s == [] then head else s[0]);
    AtHead(head, s, 1);
    empty := head.next == head;
  }

  // The sequence with n at index k.
  ghost function Insert(s: seq<ListHead>, k: nat, n: ListHead): seq<ListHead>
    requires k <= |s|
  {
    s[..k] + [n] + s[k..]
  }

  lemma AtInsert(head: ListHead, s: seq<ListHead>, k: nat, n: ListHead, i: int)
    requires k <= |s| && 0 <= i <= |s| + 2
    ensures At(head, Insert(s, k, n), i)
         == if i <= k then At(head, s, i) else if i == k + 1 then n else At(head, s, i - 1)
  {
  }

  lemma AtRemove(head: ListHead, s: seq<ListHead>, k: nat, i: int)
    requires k < |s| && 0 <= i <= |s|
    ensures At(head, RemoveAt(s, k), i) == if i <= k then At(head, s, i) else At(head, s, i + 1)
  {
  }

  // Distinct positions of a ring hold distinct nodes.
  lemma AtDistinct(head: ListHead, s: seq<ListHead>, i: int, j: int)
    requires Distinct([head] + s) && 0 <= i < j <= |s|
    ensures At(head, s, i) != At(head, s, j)
  {
    assert At(head, s, i) == ([head] + s)[i] && At(head, s, j) == ([head] + s)[j];
  }

  lemma AtHead(head: ListHead, s: seq<ListHead>, i: int)
    requires Distinct([head] + s) && 0 <= i <= |s| + 1
    ensures At(head, s, i) == head <==> i == 0 || i == |s| + 1
  {
    if 0 < i <= |s| {
      AtDistinct(head, s, 0, i);
    }
  }

  lemma InsertDistinct(head: ListHead, s: seq<ListHead>, k: nat, n: ListHead)
    requires Distinct([head] + s) && k <= |s| && n !in [head] + s
    ensures Distinct([head] + Insert(s, k, n))
  {
    var r, t := [head] + s, [head] + Insert(s, k, n);
    forall i, j | 0 <= i < j < |t| ensures t[i] != t[j] {
      assert t[i] == if i <= k then r[i] else if i == k + 1 then n else r[i - 1];
      assert t[j] == if j <= k then r[j] else if j == k + 1 then n else r[j - 1];
    }
  }

  // Puts a new entry between two that are known to be neighbours: the k-th and the one after it.
  method ListAdd(node: ListHead, prev: ListHead, next: ListHead,
                 ghost head: ListHead, ghost s: seq<ListHead>, ghost k: nat)
    requires Ring(head, s) && node !in [head] + s && k <= |s|
    requires prev == At(head, s, k) && next == At(head, s, k + 1)
    modifies node, prev, next
    ensures Ring(head, Insert(s, k, node))
  {
    next.prev := node;
    node.next := next;
    node.prev := prev;
    prev.next := node;

    ghost var t := Insert(s, k, node);
    InsertDistinct(head, s, k, node);
    forall i | 0 <= i <= |t|
      ensures At(head, t, i).next == At(head, t, i + 1) && At(head, t, i + 1).prev == At(head, t, i)
    {
      AtInsert(head, s, k, node, i);
      AtInsert(head, s, k, node, i + 1);
      if i < k {
        AtDistinct(head, s, i, k);
        if k < |s| { AtDistinct(head, s, i + 1, k + 1); }
        assert At(head, s, i).next == At(head, s, i + 1);
      } else if i > k + 1 {
        AtDistinct(head, s, k, i - 1);
        if i <= |s| { AtDistinct(head, s, k + 1, i); }
        assert At(head, s, i - 1).next == At(head, s, i);
      }
    }
  }

  method AddTail(node: ListHead, head: ListHead, ghost s: seq<ListHead>)
    requires Ring(head, s) && node !in [head] + s
    modifies node, head, s
    ensures Ring(head, s + [node])
  {
    assert At(head, s, |s| + 1) == head && At(head, s, |s|) == head.prev;
    ListAdd(node, head.prev, head, head, s, |s|);
    assert Insert(s, |s|, node) == s + [node];
  }

  method AddHead(node: ListHead, head: ListHead, ghost s: seq<ListHead>)
    requires Ring(head, s) && node !in [head] + s
    modifies node, head, s
    ensures Ring(head, [node] + s)
  {
    assert At(head, s, 0) == head && At(head, s, 1) == head.next;
    ListAdd(node, head, head.next, head, s, 0);
    assert Insert(s, 0, node) == [node] + s;
  }

  // Makes the neighbours of the entry at index k point to each other.
  method ListDelBetween(prev: ListHead, next: ListHead,
                        ghost head: ListHead, ghost s: seq<ListHead>, ghost k: nat)
    requires Ring(head, s) && k < |s|
    requires prev == At(head, s, k) && next == At(head, s, k + 2)
    modifies prev, next
    ensures Ring(head, RemoveAt(s, k))
    ensures s[k].next == old(s[k].next) && s[k].prev == old(s[k].prev)
  {
    AtDistinct(head, s, k, k + 1);
    if k + 2 <= |s| { AtDistinct(head, s, k + 1, k + 2); } else { AtDistinct(head, s, 0, k + 1); }
    next.prev := prev;
    prev.next := next;

    ghost var t := RemoveAt(s, k);
    assert Distinct([head] + t) by { RemoveDistinct(head, s, k); }
    forall i | 0 <= i <= |t|
      ensures At(head, t, i).next == At(head, t, i + 1) && At(head, t, i + 1).prev == At(head, t, i)
    {
      AtRemove(head, s, k, i);
      AtRemove(head, s, k, i + 1);
      if i < k {
        AtDistinct(head, s, i, k);
        if k + 2 <= |s| { AtDistinct(head, s, i + 1, k + 2); } else { AtDistinct(head, s, 0, i + 1); }
        assert At(head, s, i).next == At(head, s, i + 1);
      } else if i > k {
        AtDistinct(head, s, k, i + 1);
        if i + 2 <= |s| { AtDistinct(head, s, k + 2, i + 2); } else { AtDistinct(head, s, 0, k + 2); }
        assert At(head, s, i + 1).next == At(head, s, i + 2);
      }
    }
  }

  lemma RemoveDistinct(head: ListHead, s: seq<ListHead>, k: nat)
    requires Distinct([head] + s) && k < |s|
    ensures Distinct([head] + RemoveAt(s, k)) && s[k] !in [head] + RemoveAt(s, k)
  {
    var r, t := [head] + s, [head] + RemoveAt(s, k);
    assert forall i :: 0 <= i < |t| ==> t[i] == r[if i <= k then i else i + 1];
    assert s[k] == r[k + 1];
  }

  // Unlinks the entry at index k and poisons its pointers.
  method Del(entry: ListHead, ghost head: ListHead, ghost s: seq<ListHead>, ghost k: nat)
    requires Ring(head, s) && k < |s| && s[k] == entry
    modifies head, s
    ensures Ring(head, RemoveAt(s, k))
    ensures entry.next == null && entry.prev == null
  {
    assert At(head, s, k + 1) == entry;
    assert At(head, s, k).next == entry && entry.next == At(head, s, k + 2);
    ListDelBetween(entry.prev, entry.next, head, s, k);
    RemoveDistinct(head, s, k);
    entry.next := null;
    entry.prev := null;
  }

  // ---------------------------------------------------------------- walking while deleting

  // The entries that are not doomed, and those that are, in order.
  ghost function Kept(s: seq<ListHead>, doomed: set<ListHead>): seq<ListHead> {
    if s == [] then []
    else Kept(s[..|s| - 1], doomed) + if s[|s| - 1] in doomed then [] else [s[|s| - 1]]
  }

  // Nothing is lost or doubled: the entries are the kept ones and the doomed ones.
  lemma {:induction false} KeptExact(s: seq<ListHead>, doomed: set<ListHead>, x: ListHead)
    ensures multiset(Kept(s, doomed))[x] == (if x in doomed then 0 else multiset(s)[x])
  {
    hide Kept;
    if s == [] {
      KeptStep(s, x, doomed);
    } else {
      var front, last := s[..|s| - 1], s[|s| - 1];
      KeptExact(front, doomed, x);
      assert s == front + [last];
      KeptStep(front, last, doomed);
    }
  }

  lemma KeptStep(front: seq<ListHead>, last: ListHead, doomed: set<ListHead>)
    ensures Kept([], doomed) == []
    ensures Kept(front + [last], doomed) == Kept(front, doomed) + if last in doomed then [] else [last]
  {
    assert (front + [last])[..|front|] == front;
  }

  // The order is kept: what is left of two lists end to end is what is left of each, end to end.
  lemma {:induction false} KeptConcat(a: seq<ListHead>, b: seq<ListHead>, doomed: set<ListHead>)
    ensures Kept(a + b, doomed) == Kept(a, doomed) + Kept(b, doomed)
    decreases |b|
  {
    hide Kept;
    if b == [] {
      assert a + b == a;
      KeptNone(doomed);
    } else {
      var front, last := b[..|b| - 1], b[|b| - 1];
      KeptConcat(a, front, doomed);
      KeptStep(a + front, last, doomed);
      KeptStep(front, last, doomed);
      assert b == front + [last];
      Associative(a, front, [last]);
    }
  }

  lemma KeptNone(doomed: set<ListHead>)
    ensures Kept([], doomed) == []
  {
  }

  // The loop body: takes the current entry, at index v of the original list, off the list if doomed.
  method VisitEntry(entry: ListHead, head: ListHead, doomed: set<ListHead>,
                    ghost s: seq<ListHead>, ghost kept: seq<ListHead>, ghost v: nat)
    requires v < |s| && entry == s[v] && Distinct([head] + s)
    requires Inside(kept, s) && kept == Kept(s[..v], doomed) && Ring(head, kept + s[v..])
    modifies head, s
    ensures var kept' := Kept(s[..v + 1], doomed);
      Inside(kept', s) && Ring(head, kept' + s[v + 1..])
  {
    ghost var ring := kept + s[v..];
    assert s[..v + 1][..v] == s[..v] && s[..v + 1][v] == s[v] && s[v] in s;
    if entry in doomed {
      Del(entry, head, ring, |kept|);
      assert RemoveAt(ring, |kept|) == kept + s[v + 1..] && Kept(s[..v + 1], doomed) == kept;
    } else {
      assert ring == (kept + [s[v]]) + s[v + 1..];
    }
  }

  ghost predicate Inside(a: seq<ListHead>, s: seq<ListHead>) {
    forall j :: 0 <= j < |a| ==> a[j] in s
  }

  // The entry after the cursor, on what is left of the list.
  lemma NextEntry(head: ListHead, s: seq<ListHead>, kept: seq<ListHead>, v: nat)
    requires v <= |s| && Ring(head, kept + s[v..])
    ensures At(head, kept + s[v..], |kept| + 1) == At(head, s, v + 1)
    ensures At(head, s, v + 1).next != null
    ensures v < |s| ==> At(head, s, v + 1).next == At(head, s, v + 2)
  {
    var r := kept + s[v..];
    assert At(head, r, |kept| + 1) == At(head, s, v + 1);
    assert v < |s| ==> At(head, r, |kept| + 2) == At(head, s, v + 2);
    assert At(head, r, 0) == head && At(head, r, 0).next == At(head, r, 1);
    assert v < |s| ==> At(head, r, |kept| + 1).next == At(head, r, |kept| + 1 + 1);
  }

  // The safe iteration macro: `next` is read before the body may delete the current entry.
  method ForEachSafe(head: ListHead, doomed: set<ListHead>, ghost s: seq<ListHead>)
    returns (ghost visited: seq<ListHead>)
    requires Ring(head, s)
    modifies head, s
    ensures visited == s
    ensures Ring(head, Kept(s, doomed))
  {
    hide Ring, At;
    ghost var v := 0;
    visited := [];
    assert Kept(s[..0], doomed) + s[0..] == s;
    RingStart(head, s);
    NextEntry(head, s, [], 0);
    var pos: ListHead? := head.next;
    var n: ListHead? := pos.next;
    while pos != head
      invariant v <= |s| && visited == s[..v]
      invariant Inside(Kept(s[..v], doomed), s) && Ring(head, Kept(s[..v], doomed) + s[v..])
      invariant pos == At(head, s, v + 1) && n == pos.next && n != null
      decreases |s| - v
    {
      ghost var kept := Kept(s[..v], doomed);
      RingEnd(head, s, v);
      NextEntry(head, s, kept, v);
      visited := visited + [pos];
      VisitEntry(pos, head, doomed, s, kept, v);
      NextEntry(head, s, Kept(s[..v + 1], doomed), v + 1);
      v := v + 1;
      pos := n;
      n := n.next;
    }
    RingEnd(head, s, v);
    assert s[..v] == s && Kept(s, doomed) + s[v..] == Kept(s, doomed);
  }

  lemma RingStart(head: ListHead, s: seq<ListHead>)
    requires Ring(head, s)
    ensures Distinct([head] + s) && head.next == At(head, s, 1)
  {
    assert At(head, s, 0) == head;
  }

  // The cursor is back at the head exactly when everything was visited.
  lemma RingEnd(head: ListHead, s: seq<ListHead>, v: nat)
    requires v <= |s| && Distinct([head] + s)
    ensures At(head, s, v + 1) == head <==> v == |s|
    ensures v < |s| ==> At(head, s, v + 1) == s[v]
  {
    AtHead(head, s, v + 1);
  }
}
