/** Intrusive circular doubly linked lists (lib/list.c).

    Each method assigns the same fields in the same order as the C function it models.  Its effect
    is given on the links of a set of nodes, as a pair of maps; the lemmas say what that effect
    means for rings, which are described by the sequence of their nodes. */
module Lists {

  class ListHead {
    var next: ListHead
    var prev: ListHead

    /** A node as INIT_LIST_HEAD leaves it: alone in its ring. */
    constructor ()
      ensures next == this && prev == this
    {
      next := this;
      prev := this;
    }
  }

  datatype Links = Links(next: map<ListHead, ListHead>, prev: map<ListHead, ListHead>)

  ghost function LinksOf(nodes: set<ListHead>): Links
    reads nodes
  {
    Links(map x | x in nodes :: x.next, map x | x in nodes :: x.prev)
  }

  lemma LinksAt(nodes: set<ListHead>, x: ListHead)
    ensures x in nodes <==> x in LinksOf(nodes).next
    ensures x in nodes <==> x in LinksOf(nodes).prev
    ensures x in nodes ==> LinksOf(nodes).next[x] == x.next && LinksOf(nodes).prev[x] == x.prev
  {
  }

  // ----- The operations -----

  /** x->next = y */
  method SetNext(x: ListHead, y: ListHead, ghost nodes: set<ListHead>)
    requires x in nodes
    modifies x`next
    ensures x.next == y
    ensures LinksOf(nodes) == old(LinksOf(nodes)).(next := old(LinksOf(nodes)).next[x := y])
  {
    x.next := y;
  }

  /** x->prev = y */
  method SetPrev(x: ListHead, y: ListHead, ghost nodes: set<ListHead>)
    requires x in nodes
    modifies x`prev
    ensures x.prev == y
    ensures LinksOf(nodes) == old(LinksOf(nodes)).(prev := old(LinksOf(nodes)).prev[x := y])
  {
    x.prev := y;
  }

  /** INIT_LIST_HEAD */
  method InitListHead(list: ListHead, ghost nodes: set<ListHead>)
    requires list in nodes
    modifies list
    ensures LinksOf(nodes) == Alone(old(LinksOf(nodes)), list)
  {
    SetPrev(list, list, nodes);
    SetNext(list, list, nodes);
  }

  ghost function Alone(h: Links, x: ListHead): Links {
    Links(h.next[x := x], h.prev[x := x])
  }

  /** __list_add */
  method InternalAdd(node: ListHead, prev: ListHead, next: ListHead, ghost nodes: set<ListHead>)
    requires node in nodes && prev in nodes && next in nodes
    modifies node, prev, next
    ensures LinksOf(nodes) == Splice(old(LinksOf(nodes)), node, prev, next)
  {
    SetPrev(next, node, nodes);
    SetNext(node, next, nodes);
    SetPrev(node, prev, nodes);
    SetNext(prev, node, nodes);
  }

  ghost function Splice(h: Links, node: ListHead, prev: ListHead, next: ListHead): Links {
    Links(h.next[node := next][prev := node], h.prev[next := node][node := prev])
  }

  /** list_add */
  method ListAdd(node: ListHead, head: ListHead, ghost nodes: set<ListHead>)
    requires node in nodes && head in nodes && head.next in nodes
    modifies node, head, head.next
    ensures LinksOf(nodes) == Insert(old(LinksOf(nodes)), node, head)
  {
    InternalAdd(node, head, head.next, nodes);
  }

  /** list_add_tail does the same as list_add; its callers pass the last node of a ring. */
  method ListAddTail(node: ListHead, tail: ListHead, ghost nodes: set<ListHead>)
    requires node in nodes && tail in nodes && tail.next in nodes
    modifies node, tail, tail.next
    ensures LinksOf(nodes) == Insert(old(LinksOf(nodes)), node, tail)
  {
    InternalAdd(node, tail, tail.next, nodes);
  }

  ghost function Insert(h: Links, node: ListHead, head: ListHead): Links
    requires head in h.next
  {
    Splice(h, node, head, h.next[head])
  }

  /** __list_del */
  method InternalDel(prev: ListHead, next: ListHead, ghost nodes: set<ListHead>)
    requires prev in nodes && next in nodes
    modifies prev, next
    ensures LinksOf(nodes) == Bypass(old(LinksOf(nodes)), prev, next)
  {
    SetNext(prev, next, nodes);
    SetPrev(next, prev, nodes);
  }

  ghost function Bypass(h: Links, prev: ListHead, next: ListHead): Links {
    Links(h.next[prev := next], h.prev[next := prev])
  }

  /** list_del */
  method ListDel(entry: ListHead, ghost nodes: set<ListHead>)
    requires entry in nodes && entry.prev in nodes && entry.next in nodes
    modifies entry, entry.prev, entry.next
    ensures LinksOf(nodes) == Delete(old(LinksOf(nodes)), entry)
  {
    InternalDel(entry.prev, entry.next, nodes);
    InitListHead(entry, nodes);
  }

  ghost function Delete(h: Links, entry: ListHead): Links
    requires entry in h.next && entry in h.prev
  {
    Alone(Bypass(h, h.prev[entry], h.next[entry]), entry)
  }

  /** list_replace: old's prev is read after the second assignment may have changed it. */
  method ListReplace(node: ListHead, replaced: ListHead, ghost nodes: set<ListHead>)
    requires node in nodes && replaced in nodes && node != replaced
    requires replaced.next in nodes && replaced.prev in nodes
    modifies node, replaced, replaced.next, replaced.prev
    ensures LinksOf(nodes) == Replace(old(LinksOf(nodes)), node, replaced)
  {
    SetNext(node, replaced.next, nodes);
    SetPrev(node.next, node, nodes);
    SetPrev(node, replaced.prev, nodes);
    SetNext(node.prev, node, nodes);
    InitListHead(replaced, nodes);
  }

  ghost function Replace(h: Links, node: ListHead, replaced: ListHead): Links
    requires replaced in h.next && replaced in h.prev
  {
    var next := h.next[node := h.next[replaced]];
    var prev := h.prev[h.next[replaced] := node];
    var prev' := prev[node := prev[replaced]];
    Alone(Links(next[prev[replaced] := node], prev'), replaced)
  }

  // ----- What they do to rings -----

  function After(i: nat, n: nat): nat {
    if i + 1 == n then 0 else i + 1
  }

  function Before(i: nat, n: nat): nat
    requires i < n
  {
    if i == 0 then n - 1 else i - 1
  }

  ghost predicate Distinct(s: seq<ListHead>) {
    forall i, j :: 0 <= i < j < |s| ==> s[i] != s[j]
  }

  ghost predicate LinkedAt(h: Links, s: seq<ListHead>, i: nat)
    requires i < |s|
  {
    && s[i] in h.next && h.next[s[i]] == s[After(i, |s|)]
    && s[i] in h.prev && h.prev[s[i]] == s[Before(i, |s|)]
  }

  /** In `h` the nodes of `s`, in this order, form one closed ring. */
  ghost predicate Ring(h: Links, s: seq<ListHead>) {
    |s| > 0 && Distinct(s) && forall i | 0 <= i < |s| :: LinkedAt(h, s, i)
  }

  /** A ring may be read off from any of its nodes. */
  lemma RingRotates(h: Links, s: seq<ListHead>, k: nat)
    requires Ring(h, s) && k < |s|
    ensures Ring(h, s[k..] + s[..k])
  {
    var r := s[k..] + s[..k];
    forall i | 0 <= i < |r| ensures LinkedAt(h, r, i) {
      var j := if i + k < |s| then i + k else i + k - |s|;
      assert LinkedAt(h, s, j);
      assert r[i] == s[j] && r[After(i, |r|)] == s[After(j, |s|)] && r[Before(i, |r|)] == s[Before(j, |s|)];
    }
  }

  /** Insertion after the last node, as list_add_tail's callers use it, appends. */
  lemma AppendToRing(h: Links, s: seq<ListHead>, node: ListHead)
    requires Ring(h, s) && node !in s
    ensures s[|s| - 1] in h.next && Ring(Insert(h, node, s[|s| - 1]), s + [node])
  {
    var n := |s|;
    assert LinkedAt(h, s, n - 1) && LinkedAt(h, s, 0);
    var h', r := Insert(h, node, s[n - 1]), s + [node];
    forall i | 0 <= i < |r| ensures LinkedAt(h', r, i) {
      if i < n {
        assert LinkedAt(h, s, i);
      }
    }
  }

  /** Insertion puts the node right after the k-th one. */
  lemma InsertIntoRing(h: Links, s: seq<ListHead>, k: nat, node: ListHead)
    requires Ring(h, s) && k < |s| && node !in s
    ensures s[k] in h.next && Ring(Insert(h, node, s[k]), s[..k + 1] + [node] + s[k + 1..])
  {
    if k + 1 == |s| {
      AppendToRing(h, s, node);
      assert s[..k + 1] + [node] + s[k + 1..] == s + [node];
    } else {
      var q := s[k + 1..] + s[..k + 1];
      RingRotates(h, s, k + 1);
      AppendToRing(h, q, node);
      var r := q + [node];
      RingRotates(Insert(h, node, s[k]), r, |s| - k - 1);
      assert r[|s| - k - 1..] + r[..|s| - k - 1] == s[..k + 1] + [node] + s[k + 1..];
    }
  }

  lemma InsertElsewhere(h: Links, s: seq<ListHead>, k: nat, node: ListHead, r: seq<ListHead>)
    requires Ring(h, s) && k < |s| && Ring(h, r) && node !in r
    requires forall x | x in r :: x !in s
    ensures s[k] in h.next && Ring(Insert(h, node, s[k]), r)
  {
    assert LinkedAt(h, s, k);
    forall i | 0 <= i < |r| ensures LinkedAt(Insert(h, node, s[k]), r, i) {
      assert LinkedAt(h, r, i) && r[i] in r;
    }
  }

  /** Deletion of the first node, as yield_thread uses it, ... */
  lemma DeleteFirst(h: Links, s: seq<ListHead>)
    requires Ring(h, s) && |s| > 1
    ensures s[0] in h.next && s[0] in h.prev && Ring(Delete(h, s[0]), s[1..])
  {
    assert LinkedAt(h, s, 0);
    var h', r := Delete(h, s[0]), s[1..];
    forall i | 0 <= i < |r| ensures LinkedAt(h', r, i) {
      assert LinkedAt(h, s, i + 1);
    }
  }

  /** ... or of any other takes it out of its ring, ... */
  lemma DeleteFromRing(h: Links, s: seq<ListHead>, k: nat)
    requires Ring(h, s) && k < |s| && |s| > 1
    ensures s[k] in h.next && s[k] in h.prev && Ring(Delete(h, s[k]), s[..k] + s[k + 1..])
  {
    var q := s[k..] + s[..k];
    RingRotates(h, s, k);
    DeleteFirst(h, q);
    var r := q[1..];
    if k == 0 {
      assert r == s[..k] + s[k + 1..];
    } else {
      RingRotates(Delete(h, s[k]), r, |s| - k - 1);
      assert r[|s| - k - 1..] + r[..|s| - k - 1] == s[..k] + s[k + 1..];
    }
  }

  /** ... and leaves it alone; a ring of one node does not change. */
  lemma DeletedIsAlone(h: Links, s: seq<ListHead>, k: nat)
    requires Ring(h, s) && k < |s|
    ensures s[k] in h.next && s[k] in h.prev && Ring(Delete(h, s[k]), [s[k]])
    ensures |s| == 1 ==> Delete(h, s[k]) == h
  {
    assert LinkedAt(h, s, k);
    assert LinkedAt(Delete(h, s[k]), [s[k]], 0);
    if |s| == 1 {
      assert Delete(h, s[k]).next == h.next && Delete(h, s[k]).prev == h.prev;
    }
  }

  lemma DeleteElsewhere(h: Links, s: seq<ListHead>, k: nat, r: seq<ListHead>)
    requires Ring(h, s) && k < |s| && Ring(h, r)
    requires forall x | x in r :: x !in s
    ensures s[k] in h.next && s[k] in h.prev && Ring(Delete(h, s[k]), r)
  {
    assert LinkedAt(h, s, k);
    forall i | 0 <= i < |r| ensures LinkedAt(Delete(h, s[k]), r, i) {
      assert LinkedAt(h, r, i) && r[i] in r;
    }
  }

  /** list_del undoes list_add, link by link, for a node that was alone. */
  lemma DeleteUndoesInsert(h: Links, s: seq<ListHead>, k: nat, node: ListHead)
    requires Ring(h, s) && k < |s| && Ring(h, [node]) && node !in s
    ensures s[k] in h.next && Delete(Insert(h, node, s[k]), node) == h
  {
    assert LinkedAt(h, s, k) && LinkedAt(h, s, After(k, |s|)) && LinkedAt(h, [node], 0);
    var h' := Delete(Insert(h, node, s[k]), node);
    assert h'.next == h.next && h'.prev == h.prev;
  }

  /** list_replace gives the new node the old one's place, also when the old one was alone. */
  lemma ReplaceInRing(h: Links, s: seq<ListHead>, k: nat, node: ListHead)
    requires Ring(h, s) && k < |s| && node !in s
    ensures s[k] in h.next && s[k] in h.prev
    ensures Ring(Replace(h, node, s[k]), s[k := node])
    ensures Ring(Replace(h, node, s[k]), [s[k]])
  {
    assert LinkedAt(h, s, k);
    var h', r := Replace(h, node, s[k]), s[k := node];
    forall i | 0 <= i < |r| ensures LinkedAt(h', r, i) {
      assert LinkedAt(h, s, i);
    }
    assert LinkedAt(h', [s[k]], 0);
  }

  lemma ReplaceElsewhere(h: Links, s: seq<ListHead>, k: nat, node: ListHead, r: seq<ListHead>)
    requires Ring(h, s) && k < |s| && Ring(h, r) && node !in s && node !in r
    requires forall x | x in r :: x !in s
    ensures s[k] in h.next && s[k] in h.prev && Ring(Replace(h, node, s[k]), r)
  {
    assert LinkedAt(h, s, k);
    forall i | 0 <= i < |r| ensures LinkedAt(Replace(h, node, s[k]), r, i) {
      assert LinkedAt(h, r, i) && r[i] in r;
    }
  }
}
