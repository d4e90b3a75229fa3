/**
 The intrusive circular doubly linked list of `src/include/list.h`.

 A list is a head node together with the sequence of its entries; both are passed to the
 operations as ghost arguments, because the C code has no list object.  `IsList(h, s)` says that
 following `next` from h visits exactly s and comes back, that `prev` undoes every `next`, and
 that no node occurs twice.  Pointer writes are in the order of the C code, and every `modifies`
 clause names single fields: whatever it does not name, in this list or any other, is unchanged.
 */
module LinkedList {

  class ListHead {
    var next: ListHead
    var prev: ListHead

    /** LIST_HEAD_INIT: a node that is an empty list. */
    constructor ()
      ensures next == this && prev == this
    {
      next := this;
      prev := this;
    }
  }

  /** The closed walk from the head through the entries and back. */
  function Ring(h: ListHead, s: seq<ListHead>): seq<ListHead> {
    [h] + s + [h]
  }

  ghost predicate Edge(x: ListHead, y: ListHead)
    reads x, y
  {
    x.next == y && y.prev == x
  }

  ghost predicate Linked(w: seq<ListHead>)
    reads w
  {
    forall i | 0 < i < |w| :: Edge(w[i - 1], w[i])
  }

  ghost predicate Distinct(s: seq<ListHead>) {
    forall i, j | 0 <= i < j < |s| :: s[i] != s[j]
  }

  ghost predicate IsList(h: ListHead, s: seq<ListHead>)
    reads h, s
  {
    Linked(Ring(h, s)) && h !in s && Distinct(s)
  }

  ghost predicate Disjoint(s: seq<ListHead>, t: seq<ListHead>) {
    forall x | x in s :: x !in t
  }

  lemma Ends(h: ListHead, s: seq<ListHead>)
    requires IsList(h, s)
    ensures h.next == (s + [h])[0] && h.prev == ([h] + s)[|s|]
    ensures h.next in [h] + s && h.prev in [h] + s
  {
    var w := Ring(h, s);
    assert Edge(w[0], w[1]) && Edge(w[|s|], w[|s| + 1]);
  }

  lemma Neighbours(h: ListHead, s: seq<ListHead>, k: nat)
    requires IsList(h, s) && k < |s|
    ensures s[k].prev == ([h] + s)[k] && s[k].next == (s + [h])[k + 1]
    ensures s[k].next in [h] + s && s[k].prev in [h] + s
    ensures s[k].next != s[k] && s[k].prev != s[k] && h !in s && Distinct(s)
  {
    var w := Ring(h, s);
    assert Edge(w[k], w[k + 1]) && Edge(w[k + 1], w[k + 2]);
  }

  /** A list none of whose nodes was written is the list it was; its head is given as nodes[0]. */
  twostate lemma Untouched(nodes: seq<ListHead>)
    requires nodes != [] && old(IsList(nodes[0], nodes[1..]))
    requires forall x | x in nodes :: unchanged(x)
    ensures IsList(nodes[0], nodes[1..])
  {
    var w := Ring(nodes[0], nodes[1..]);
    forall i | 0 < i < |w| ensures Edge(w[i - 1], w[i]) {
      assert old(Edge(w[i - 1], w[i]));
      assert w[i - 1] in nodes && w[i] in nodes;
    }
  }

  // ---------- walks ----------

  /** A walk survives if none of its inner links was written. */
  twostate lemma WalkKept(w: seq<ListHead>)
    requires old(Linked(w))
    requires forall j | 0 <= j < |w| - 1 :: w[j].next == old(w[j].next)
    requires forall j | 0 < j < |w| :: w[j].prev == old(w[j].prev)
    ensures Linked(w)
  {
    forall i | 0 < i < |w| ensures Edge(w[i - 1], w[i]) {
      assert old(Edge(w[i - 1], w[i]));
    }
  }

  lemma InnerWalks(h: ListHead, s: seq<ListHead>)
    requires IsList(h, s)
    ensures Linked(s) && Linked(s + [h])
  {
    var w := Ring(h, s);
    forall i | 0 < i < |s + [h]| ensures Edge((s + [h])[i - 1], (s + [h])[i]) {
      assert Edge(w[i], w[i + 1]);
    }
    forall i | 0 < i < |s| ensures Edge(s[i - 1], s[i]) {
      assert Edge(w[i], w[i + 1]);
    }
  }

  lemma LinkedConcat(a: seq<ListHead>, b: seq<ListHead>)
    requires a != [] && b != [] && Linked(a) && Linked(b) && Edge(a[|a| - 1], b[0])
    ensures Linked(a + b)
  {
    var w := a + b;
    forall i | 0 < i < |w| ensures Edge(w[i - 1], w[i]) {
      if i > |a| {
        assert Edge(b[i - |a| - 1], b[i - |a|]);
      }
    }
  }

  /** Any node of a ring may be taken as its head. */
  lemma AnyNodeIsHead(h: ListHead, s: seq<ListHead>, k: nat)
    requires IsList(h, s) && k < |s|
    ensures IsList(s[k], s[k + 1..] + [h] + s[..k])
  {
    var w, v := Ring(h, s), Ring(s[k], s[k + 1..] + [h] + s[..k]);
    var n := |s|;
    forall i | 0 < i < |v| ensures Edge(v[i - 1], v[i]) {
      if i <= n - k {
        assert v[i - 1] == w[k + i] && v[i] == w[k + i + 1];
      } else {
        assert v[i - 1] == w[i - (n - k) - 1] && v[i] == w[i - (n - k)];
      }
    }
  }

  // ---------- INIT_LIST_HEAD, insertion ----------

  method InitListHead(list: ListHead)
    modifies list
    ensures IsList(list, [])
  {
    list.next := list;
    list.prev := list;
  }

  /** __list_add: also right when prev and next are one node. */
  method ListInsert(new_: ListHead, prev: ListHead, next: ListHead)
    requires new_ != prev && new_ != next
    modifies next`prev, new_`next, new_`prev, prev`next
    ensures Edge(prev, new_) && Edge(new_, next)
  {
    next.prev := new_;
    new_.next := next;
    new_.prev := prev;
    prev.next := new_;
  }

  method ListAdd(new_: ListHead, head: ListHead, ghost s: seq<ListHead>)
    requires IsList(head, s) && new_ !in [head] + s
    modifies head.next`prev, new_`next, new_`prev, head`next
    ensures IsList(head, [new_] + s)
  {
    ghost var w := Ring(head, s);
    assert Edge(w[0], w[1]);
    ListInsert(new_, head, head.next);
    ghost var w' := Ring(head, [new_] + s);
    forall i | 0 < i < |w'| ensures Edge(w'[i - 1], w'[i]) {
      if i >= 3 {
        assert w'[i - 1] == w[i - 2] && w'[i] == w[i - 1];
        assert old(Edge(w[i - 2], w[i - 1]));
      }
    }
  }

  method ListAddTail(new_: ListHead, head: ListHead, ghost s: seq<ListHead>)
    requires IsList(head, s) && new_ !in [head] + s
    modifies head`prev, new_`next, new_`prev, head.prev`next
    ensures IsList(head, s + [new_])
  {
    ghost var w := Ring(head, s);
    assert Edge(w[|s|], w[|s| + 1]);
    ListInsert(new_, head.prev, head);
    ghost var w' := Ring(head, s + [new_]);
    forall i | 0 < i < |w'| ensures Edge(w'[i - 1], w'[i]) {
      if i <= |s| {
        assert w'[i - 1] == w[i - 1] && w'[i] == w[i];
        assert old(Edge(w[i - 1], w[i]));
      }
    }
  }

  // ---------- deletion ----------

  function Remove<T>(s: seq<T>, k: nat): seq<T>
    requires k < |s|
  {
    s[..k] + s[k + 1..]
  }

  lemma RemoveFacts<T>(s: seq<T>, k: nat)
    requires k < |s| && forall i, j | 0 <= i < j < |s| :: s[i] != s[j]
    ensures s[k] !in Remove(s, k)
    ensures forall x :: x in Remove(s, k) ==> x in s
  {
  }

  /** The other entries close up, in order. */
  lemma RemovePositions<T>(s: seq<T>, k: nat)
    requires k < |s|
    ensures |Remove(s, k)| == |s| - 1
    ensures forall i | 0 <= i < |s| - 1 :: Remove(s, k)[i] == s[if i < k then i else i + 1]
  {
  }

  /** __list_del: joins two nodes, dropping what lies between. */
  method Join(prev: ListHead, next: ListHead)
    modifies next`prev, prev`next
    ensures Edge(prev, next)
  {
    next.prev := prev;
    prev.next := next;
  }

  /** The entry leaves the list; its own two links are left as they were. */
  method ListDel(entry: ListHead, ghost head: ListHead, ghost s: seq<ListHead>, ghost k: nat)
    requires IsList(head, s) && k < |s| && s[k] == entry
    modifies entry.next`prev, entry.prev`next
    ensures IsList(head, Remove(s, k))
    ensures unchanged(entry)
  {
    ghost var w := Ring(head, s);
    assert Edge(w[k], w[k + 1]) && Edge(w[k + 1], w[k + 2]);
    Join(entry.prev, entry.next);
    ghost var w' := Ring(head, Remove(s, k));
    forall i | 0 < i < |w'| ensures Edge(w'[i - 1], w'[i]) {
      if i <= k {
        assert w'[i - 1] == w[i - 1] && w'[i] == w[i];
        assert old(Edge(w[i - 1], w[i]));
      } else if i > k + 1 {
        assert w'[i - 1] == w[i] && w'[i] == w[i + 1];
        assert old(Edge(w[i], w[i + 1]));
      }
    }
  }

  method ListDelInit(entry: ListHead, ghost head: ListHead, ghost s: seq<ListHead>, ghost k: nat)
    requires IsList(head, s) && k < |s| && s[k] == entry
    modifies entry.next`prev, entry.prev`next, entry
    ensures IsList(head, Remove(s, k)) && IsList(entry, [])
  {
    ListDel(entry, head, s, k);
    InitListHead(entry);
  }

  // ---------- replacement ----------

  /**
   The new node takes the old one's place in its ring.  The contract reads the ring from the
   replaced node, which AnyNodeIsHead allows for every node; ListReplaceEntry is the reading from
   the list's own head.  A self-linked old node leaves the new one self-linked: that is the write order.
   */
  method ListReplace(old_: ListHead, new_: ListHead, ghost s: seq<ListHead>)
    requires IsList(old_, s) && new_ !in [old_] + s
    modifies new_, old_.next`prev, old_.prev`next
    ensures IsList(new_, s)
    ensures if s == [] then old_.next == old_ && old_.prev == new_ else unchanged(old_)
  {
    Ends(old_, s);
    InnerWalks(old_, s);
    assert Distinct(s);
    hide Linked, IsList;
    new_.next := old_.next;
    new_.next.prev := new_;
    new_.prev := old_.prev;
    new_.prev.next := new_;
    if s == [] {
      SelfLinked(new_);
    } else {
      WalkKept(s);
      CloseRing(new_, s);
    }
  }

  method ListReplaceInit(old_: ListHead, new_: ListHead, ghost s: seq<ListHead>)
    requires IsList(old_, s) && new_ !in [old_] + s
    modifies new_, old_, old_.next`prev, old_.prev`next
    ensures IsList(new_, s) && IsList(old_, [])
  {
    hide Linked;
    ListReplace(old_, new_, s);
    label replaced:
    InitListHead(old_);
    assert ([new_] + s)[1..] == s;
    Untouched@replaced([new_] + s);
  }

  /** Replacing the k-th entry substitutes the new node at the same index. */
  method ListReplaceEntry(old_: ListHead, new_: ListHead, ghost head: ListHead, ghost s: seq<ListHead>, ghost k: nat)
    requires IsList(head, s) && k < |s| && s[k] == old_ && new_ !in [head] + s
    modifies new_, old_.next`prev, old_.prev`next
    ensures IsList(head, s[k := new_])
    ensures unchanged(old_)
  {
    hide Linked, Distinct;
    ghost var r := s[k + 1..] + [head] + s[..k];
    AnyNodeIsHead(head, s, k);
    ListReplace(old_, new_, r);
    AnyNodeIsHead(new_, r, |s| - k - 1);
    assert r[|s| - k..] + [new_] + r[..|s| - k - 1] == s[k := new_];
  }

  lemma SelfLinked(h: ListHead)
    requires Edge(h, h)
    ensures IsList(h, [])
  {
  }

  lemma CloseRing(h: ListHead, s: seq<ListHead>)
    requires s != [] && Linked(s) && Edge(h, s[0]) && Edge(s[|s| - 1], h)
    requires h !in s && Distinct(s)
    ensures IsList(h, s)
  {
    LinkedConcat([h], s);
    LinkedConcat([h] + s, [h]);
  }

  // ---------- moving ----------

  /** What is left of a list t once the k-th entry of s is gone, when t may be s itself. */
  ghost function Rest(hs: ListHead, s: seq<ListHead>, ht: ListHead, t: seq<ListHead>, k: nat): seq<ListHead>
    requires k < |s|
  {
    if hs == ht then Remove(s, k) else t
  }

  ghost predicate SameOrDisjoint(hs: ListHead, s: seq<ListHead>, ht: ListHead, t: seq<ListHead>) {
    if hs == ht then s == t else Disjoint([hs] + s, [ht] + t)
  }

  /** Which nodes are which when an entry is moved. */
  lemma MovedApart(from: ListHead, s: seq<ListHead>, head: ListHead, t: seq<ListHead>, k: nat) returns (rest: seq<ListHead>)
    requires IsList(from, s) && k < |s| && IsList(head, t) && SameOrDisjoint(from, s, head, t)
    ensures rest == Rest(from, s, head, t, k) && s[k] !in [head] + rest
    ensures from == head ==> rest == Remove(s, k)
    ensures from != head ==> rest == t && forall x | x in [from] + Remove(s, k) :: x != s[k] && x !in [head] + t
    ensures from != head ==> forall x | x in [head] + t :: x !in [from] + s
    ensures (rest + [head])[0] == if from == head && k == 0 then (s + [from])[1] else (t + [head])[0]
    ensures ([head] + rest)[|rest|] == if from == head && k == |s| - 1 then ([from] + s)[k] else ([head] + t)[|t|]
  {
    hide Linked;
    RemoveFacts(s, k);
    rest := Rest(from, s, head, t, k);
    assert ([from] + s)[0] == from && ([from] + s)[k + 1] == s[k];
    assert forall x | x in s :: x in [from] + s;
  }

  method ListMove(list: ListHead, head: ListHead,
                  ghost from: ListHead, ghost s: seq<ListHead>, ghost k: nat, ghost t: seq<ListHead>)
    requires IsList(from, s) && k < |s| && s[k] == list
    requires IsList(head, t) && SameOrDisjoint(from, s, head, t)
    modifies list, list.next`prev, list.prev`next, head`next, head.next`prev
    ensures IsList(head, [list] + Rest(from, s, head, t, k))
    ensures from != head ==> IsList(from, Remove(s, k))
  {
    Neighbours(from, s, k);
    Ends(head, t);
    ghost var rest := MovedApart(from, s, head, t, k);
    assert from == head ==> s == t;
    hide *;
    ListDel(list, from, s, k);
    label deleted:
    Ends(head, rest);
    ListAdd(list, head, rest);
    if from != head {
      ghost var left := Remove(s, k);
      assert ([from] + left)[1..] == left;
      Untouched@deleted([from] + left);
    }
  }

  method ListMoveTail(list: ListHead, head: ListHead,
                      ghost from: ListHead, ghost s: seq<ListHead>, ghost k: nat, ghost t: seq<ListHead>)
    requires IsList(from, s) && k < |s| && s[k] == list
    requires IsList(head, t) && SameOrDisjoint(from, s, head, t)
    modifies list, list.next`prev, list.prev`next, head`prev, head.prev`next
    ensures IsList(head, Rest(from, s, head, t, k) + [list])
    ensures from != head ==> IsList(from, Remove(s, k))
  {
    Neighbours(from, s, k);
    Ends(head, t);
    ghost var rest := MovedApart(from, s, head, t, k);
    assert from == head ==> s == t;
    hide *;
    ListDel(list, from, s, k);
    label deleted:
    Ends(head, rest);
    ListAddTail(list, head, rest);
    if from != head {
      ghost var left := Remove(s, k);
      assert ([from] + left)[1..] == left;
      Untouched@deleted([from] + left);
    }
  }

  // ---------- tests ----------

  predicate ListIsLast(list: ListHead, head: ListHead)
    reads list
  {
    list.next == head
  }

  predicate ListEmpty(head: ListHead)
    reads head
  {
    head.next == head
  }

  predicate ListEmptyCareful(head: ListHead)
    reads head
  {
    var next := head.next;
    next == head && next == head.prev
  }

  predicate ListIsSingular(head: ListHead)
    reads head
  {
    !ListEmpty(head) && head.next == head.prev
  }

  /** On a list the tests mean what their names say. */
  lemma TestsMeanLengths(h: ListHead, s: seq<ListHead>)
    requires IsList(h, s)
    ensures ListEmpty(h) <==> |s| == 0
    ensures ListEmptyCareful(h) <==> |s| == 0
    ensures ListIsSingular(h) <==> |s| == 1
  {
    Ends(h, s);
    if |s| > 1 {
      assert s[0] != s[|s| - 1];
    }
  }

  lemma IsLastMeansLast(h: ListHead, s: seq<ListHead>, k: nat)
    requires IsList(h, s) && k < |s|
    ensures ListIsLast(s[k], h) <==> k == |s| - 1
  {
    Neighbours(h, s, k);
  }

  /** A ring has one reading from its head: the links determine the entries. */
  lemma {:induction false} RingIsUnique(h: ListHead, s: seq<ListHead>, t: seq<ListHead>)
    requires IsList(h, s) && IsList(h, t)
    ensures s == t
  {
    if |s| <= |t| {
      SamePrefix(h, s, t, |s|);
      PrefixIsAll(h, s, t);
    } else {
      SamePrefix(h, t, s, |t|);
      PrefixIsAll(h, t, s);
    }
  }

  lemma {:induction false} SamePrefix(h: ListHead, s: seq<ListHead>, t: seq<ListHead>, n: nat)
    requires IsList(h, s) && IsList(h, t) && n <= |s| && n <= |t|
    ensures s[..n] == t[..n]
  {
    hide Linked, Distinct;
    if n > 0 {
      SamePrefix(h, s, t, n - 1);
      if n == 1 {
        Ends(h, s);
        Ends(h, t);
      } else {
        assert s[n - 2] == s[..n - 1][n - 2] == t[..n - 1][n - 2] == t[n - 2];
        Neighbours(h, s, n - 2);
        Neighbours(h, t, n - 2);
      }
      assert s[..n] == s[..n - 1] + [s[n - 1]];
      assert t[..n] == t[..n - 1] + [t[n - 1]];
    }
  }

  lemma PrefixIsAll(h: ListHead, s: seq<ListHead>, t: seq<ListHead>)
    requires IsList(h, s) && IsList(h, t) && |s| <= |t| && t[..|s|] == s
    ensures s == t
  {
    if |s| < |t| {
      var n := |s|;
      if n == 0 {
        Ends(h, s);
        Ends(h, t);
      } else {
        assert t[n - 1] == s[n - 1];
        Neighbours(h, s, n - 1);
        Neighbours(h, t, n - 1);
      }
      assert false;
    }
  }

  // ---------- rotation ----------

  function RotateLeft<T>(s: seq<T>): seq<T> {
    if s == [] then [] else s[1..] + [s[0]]
  }

  function RotateTimes<T>(s: seq<T>, k: nat): seq<T>
    decreases k
  {
    if k == 0 then s else RotateTimes(RotateLeft(s), k - 1)
  }

  method ListRotateLeft(head: ListHead, ghost s: seq<ListHead>)
    requires IsList(head, s)
    modifies head, head.next, head.prev`next, head.next.next`prev
    ensures IsList(head, RotateLeft(s))
    ensures s == [] ==> unchanged(head)
  {
    hide Linked, Distinct;
    TestsMeanLengths(head, s);
    if !ListEmpty(head) {
      Ends(head, s);
      Neighbours(head, s, 0);
      var first := head.next;
      assert Remove(s, 0) == s[1..];
      ListMoveTail(first, head, head, s, 0, s);
    }
  }

  lemma {:induction false} RotateAdd<T>(s: seq<T>, j: nat, k: nat)
    ensures RotateTimes(s, j + k) == RotateTimes(RotateTimes(s, j), k)
    decreases j
  {
    if j > 0 {
      RotateAdd(RotateLeft(s), j - 1, k);
    }
  }

  lemma {:induction false} RotateWithin<T>(s: seq<T>, k: nat)
    requires k <= |s|
    ensures RotateTimes(s, k) == s[k..] + s[..k]
    decreases k
  {
    if k == 0 {
      assert s[0..] + s[..0] == s;
    } else {
      RotateWithin(s, k - 1);
      OneTurn(s, k - 1);
      hide RotateTimes;
      var t := s[k - 1..] + s[..k - 1];
      assert t[0] == s[k - 1] && t[1..] == s[k..] + s[..k - 1];
      assert s[..k] == s[..k - 1] + [s[k - 1]];
    }
  }

  lemma {:induction false} FullTurns<T>(s: seq<T>, q: nat)
    ensures RotateTimes(s, q * |s|) == s
    decreases q
  {
    if q == 0 {
      NoTurns(s);
    } else {
      hide RotateTimes;
      assert q * |s| == |s| + (q - 1) * |s|;
      RotateWithin(s, |s|);
      assert s[|s|..] + s[..|s|] == s;
      RotateAdd(s, |s|, (q - 1) * |s|);
      FullTurns(s, q - 1);
    }
  }

  lemma QuotientAndRemainder(k: nat, n: nat)
    requires n > 0
    ensures k == k / n * n + k % n
  {
  }

  /** After k rotations the list starts at entry k mod n, so every n rotations change nothing. */
  lemma RotateTimesMeaning<T>(s: seq<T>, k: nat)
    requires s != []
    ensures RotateTimes(s, k) == s[k % |s|..] + s[..k % |s|]
  {
    hide RotateTimes;
    var q, r := k / |s|, k % |s|;
    QuotientAndRemainder(k, |s|);
    FullTurns(s, q);
    RotateAdd(s, q * |s|, r);
    RotateWithin(s, r);
  }

  lemma RotateLeftKeeps<T>(s: seq<T>)
    ensures |RotateLeft(s)| == |s| && forall x | x in RotateLeft(s) :: x in s
  {
  }

  /** k calls of list_rotate_left. */
  method RotateMany(head: ListHead, k: nat, ghost s: seq<ListHead>)
    requires IsList(head, s)
    modifies head, s
    ensures IsList(head, if s == [] then [] else s[k % |s|..] + s[..k % |s|])
    ensures s == [] ==> unchanged(head)
  {
    hide *;
    ghost var t := s;
    var i := 0;
    NoTurns(s);
    while i < k
      invariant i <= k && t == RotateTimes(s, i) && IsList(head, t)
      invariant |t| == |s| && forall x | x in t :: x in s
      invariant s == [] ==> unchanged(head)
    {
      RotationFrame(head, t);
      ListRotateLeft(head, t);
      RotateLeftKeeps(t);
      OneTurn(s, i);
      t := RotateLeft(t);
      i := i + 1;
    }
    if s != [] {
      RotateTimesMeaning(s, k);
    }
  }

  lemma NoTurns<T>(s: seq<T>)
    ensures RotateTimes(s, 0) == s
  {
  }

  lemma OneTurn<T>(s: seq<T>, i: nat)
    ensures RotateTimes(s, i + 1) == RotateLeft(RotateTimes(s, i))
  {
    RotateAdd(s, i, 1);
    assert RotateTimes(RotateTimes(s, i), 1) == RotateLeft(RotateTimes(s, i));
  }

  /** The nodes one rotation writes belong to the ring. */
  lemma RotationFrame(head: ListHead, s: seq<ListHead>)
    requires IsList(head, s)
    ensures head.next in [head] + s && head.prev in [head] + s && head.next.next in [head] + s
  {
    Ends(head, s);
    if s != [] {
      Neighbours(head, s, 0);
    }
  }
}
