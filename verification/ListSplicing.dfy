/** Cutting a list in two and joining two lists, from `src/include/list.h`. */
module ListSplicing {
  import opened LinkedList

  // ---------- cutting ----------

  /** __list_cut_position: the entries up to and including the k-th move to `list`. */
  method CutAt(list: ListHead, head: ListHead, entry: ListHead, ghost s: seq<ListHead>, ghost k: nat)
    requires IsList(head, s) && k < |s| && s[k] == entry && list !in [head] + s
    modifies list, head.next`prev, entry`next, head`next, entry.next`prev
    ensures IsList(list, s[..k + 1]) && IsList(head, s[k + 1..])
  {
    ghost var w := Ring(head, s);
    Ends(head, s);
    Neighbours(head, s, k);
    var newFirst := entry.next;
    list.next := head.next;
    list.next.prev := list;
    list.prev := entry;
    entry.next := list;
    head.next := newFirst;
    newFirst.prev := head;
    ghost var a, b := Ring(list, s[..k + 1]), Ring(head, s[k + 1..]);
    CutRings(list, head, s, k);
    forall i | 0 < i < |a| ensures Edge(a[i - 1], a[i]) {
      if 1 < i <= k + 1 {
        assert a[i - 1] == w[i - 1] && a[i] == w[i];
        assert old(Edge(w[i - 1], w[i]));
      }
    }
    forall i | 0 < i < |b| ensures Edge(b[i - 1], b[i]) {
      if i > 1 {
        assert b[i - 1] == w[i + k] && b[i] == w[i + k + 1];
        assert old(Edge(w[i + k], w[i + k + 1]));
      }
    }
  }

  /** Where the entries of a ring are once it is cut in two. */
  lemma CutRings(list: ListHead, head: ListHead, s: seq<ListHead>, k: nat)
    requires k < |s|
    ensures var w, a, b := Ring(head, s), Ring(list, s[..k + 1]), Ring(head, s[k + 1..]);
      && |a| == k + 3 && a[0] == a[k + 2] == list && (forall i | 0 < i <= k + 1 :: a[i] == w[i])
      && |b| == |s| - k + 1 && b[0] == head && (forall i | 0 < i < |b| :: b[i] == w[i + k + 1])
  {
  }

  /**
   The n entries up to and including `entry` move to `list`, none if `entry` is the head.  The
   caller must name the head or an entry; only for lists of at most one entry does the C code
   check that itself, and then, as for an empty list, it changes nothing.
   */
  method ListCutPosition(list: ListHead, head: ListHead, entry: ListHead, ghost s: seq<ListHead>)
    returns (ghost n: nat)
    requires IsList(head, s) && list !in [head] + s
    requires |s| <= 1 || entry in [head] + s
    modifies list, head`next, head.next`prev, entry`next, entry.next`prev
    ensures n <= |s|
    ensures if s == [] || entry !in [head] + s
      then n == 0 && IsList(head, s) && unchanged(list) && unchanged(head) && unchanged(entry)
        && unchanged(head.next) && unchanged(entry.next)
      else ([head] + s)[n] == entry && IsList(list, s[..n]) && IsList(head, s[n..])
  {
    hide Linked, Ring, Distinct;
    Ends(head, s);
    TestsMeanLengths(head, s);
    n := 0;
    if ListEmpty(head) {
      return;
    }
    if ListIsSingular(head) && head.next != entry && head != entry {
      return;
    }
    assert s[..0] == [] && s[0..] == s;
    if entry == head {
      InitListHead(list);
    } else {
      ghost var k :| 0 <= k < |s| && s[k] == entry;
      CutAt(list, head, entry, s, k);
      n := k + 1;
    }
  }

  // ---------- joining ----------

  lemma Apart(a: ListHead, t: seq<ListHead>, b: ListHead, s: seq<ListHead>)
    requires Disjoint([a] + t, [b] + s)
    ensures a != b && a !in s && b !in t && Disjoint(t, s)
  {
    var u, v := [a] + t, [b] + s;
    assert u[0] == a && v[0] == b && a in u && b in v;
    forall x | x in t ensures x !in s && x != b {
      assert x in u && x !in v;
      assert forall y | y in s :: y in v;
    }
    assert forall y | y in s :: y in v;
  }

  /** No inner `next` of the walk belongs to x or x', and no inner `prev` to y or y'. */
  ghost predicate Spares(w: seq<ListHead>, x: ListHead, x': ListHead, y: ListHead, y': ListHead) {
    && (forall j | 0 <= j < |w| - 1 :: w[j] != x && w[j] != x')
    && (forall j | 0 < j < |w| :: w[j] != y && w[j] != y')
  }

  /** Splicing writes only at the joints: both walks in between keep their inner links. */
  lemma JointsOnly(list: ListHead, t: seq<ListHead>, prev: ListHead, s: seq<ListHead>)
    requires list !in t && Distinct(t) && t != [] && prev !in s && Distinct(s)
    requires list != prev && list !in s && prev !in t && Disjoint(t, s)
    ensures var first, last, next := t[0], t[|t| - 1], (s + [prev])[0];
      && Spares(s + [prev], prev, last, first, next)
      && Spares(t, prev, last, first, next)
      && first != next && last != prev && list !in {first, last, prev, next}
  {
    var u := s + [prev];
    assert forall j | 0 <= j < |s| :: u[j] == s[j] && u[j] in s;
    assert forall j | 0 <= j < |t| :: t[j] in t;
    assert u[|s|] == prev;
  }

  lemma DistinctConcat(s: seq<ListHead>, t: seq<ListHead>)
    requires Distinct(s) && Distinct(t) && Disjoint(s, t)
    ensures Distinct(s + t)
  {
    var r := s + t;
    forall i, j | 0 <= i < j < |r| ensures r[i] != r[j] {
      if i < |s| <= j {
        assert s[i] in s && t[j - |s|] in t;
      }
    }
  }

  lemma SplicedRing(prev: ListHead, s: seq<ListHead>, t: seq<ListHead>)
    requires t != [] && Linked(t) && Linked(s + [prev])
    requires Edge(prev, t[0]) && Edge(t[|t| - 1], (s + [prev])[0])
    requires prev !in t + s && Distinct(t + s)
    ensures IsList(prev, t + s)
  {
    LinkedConcat([prev], t);
    LinkedConcat([prev] + t, s + [prev]);
    assert [prev] + t + (s + [prev]) == Ring(prev, t + s);
  }

  /**
   __list_splice: the entries of `list` go between two neighbours.  The receiving ring is read
   from `prev`, as AnyNodeIsHead allows.
   */
  method SpliceBetween(list: ListHead, prev: ListHead, next: ListHead,
                       ghost t: seq<ListHead>, ghost s: seq<ListHead>)
    requires IsList(list, t) && t != [] && IsList(prev, s) && Disjoint([list] + t, [prev] + s)
    requires next == prev.next
    modifies list.next`prev, prev`next, list.prev`next, next`prev
    ensures IsList(prev, t + s)
    ensures unchanged(list)
  {
    Ends(list, t);
    Ends(prev, s);
    InnerWalks(list, t);
    InnerWalks(prev, s);
    Apart(list, t, prev, s);
    JointsOnly(list, t, prev, s);
    DistinctConcat(t, s);
    hide Linked, Disjoint, Ring, Distinct, IsList;
    var first := list.next;
    var last := list.prev;
    first.prev := prev;
    prev.next := first;
    last.next := next;
    next.prev := last;
    WalkKept(s + [prev]);
    WalkKept(t);
    SplicedRing(prev, s, t);
  }

  /** list_splice: the entries of `list` go in front; `list` itself is left pointing at them. */
  method ListSplice(list: ListHead, head: ListHead, ghost t: seq<ListHead>, ghost s: seq<ListHead>)
    requires IsList(list, t) && IsList(head, s) && Disjoint([list] + t, [head] + s)
    modifies list.next`prev, head`next, list.prev`next, head.next`prev
    ensures IsList(head, t + s)
    ensures unchanged(list)
  {
    hide Linked, Distinct, Ring;
    TestsMeanLengths(list, t);
    assert t == [] ==> t + s == s;
    if !ListEmpty(list) {
      SpliceBetween(list, head, head.next, t, s);
    }
  }

  method ListSpliceInit(list: ListHead, head: ListHead, ghost t: seq<ListHead>, ghost s: seq<ListHead>)
    requires IsList(list, t) && IsList(head, s) && Disjoint([list] + t, [head] + s)
    modifies list, list.next`prev, head`next, list.prev`next, head.next`prev
    ensures IsList(head, t + s) && IsList(list, [])
    ensures t == [] ==> unchanged(list) && unchanged(head) && unchanged(head.next)
  {
    hide Linked, Distinct, Ring;
    TestsMeanLengths(list, t);
    assert t == [] ==> t + s == s;
    if !ListEmpty(list) {
      SpliceBetween(list, head, head.next, t, s);
      label spliced:
      InitListHead(list);
      Apart(list, t, head, s);
      assert ([head] + (t + s))[1..] == t + s;
      Untouched@spliced([head] + (t + s));
    }
  }

  /** The common part of the two tail splices: the entries of `list` go in front of the head. */
  method SpliceAtTail(list: ListHead, head: ListHead, ghost t: seq<ListHead>, ghost s: seq<ListHead>)
    requires IsList(list, t) && t != [] && IsList(head, s) && Disjoint([list] + t, [head] + s)
    modifies list.next`prev, head.prev`next, list.prev`next, head`prev
    ensures IsList(head, s + t)
    ensures unchanged(list)
  {
    ghost var r := if s == [] then [] else [head] + s[..|s| - 1];
    Ends(head, s);
    RingFromTail(head, s);
    hide Linked, Distinct, Ring;
    SpliceBetween(list, head.prev, head, t, r);
    TailInserted(head, s, t);
  }

  /** The ring read from its last entry, or from the head if there is none. */
  lemma RingFromTail(head: ListHead, s: seq<ListHead>)
    requires IsList(head, s)
    ensures IsList(head.prev, if s == [] then [] else [head] + s[..|s| - 1])
    ensures head.prev.next == head
    ensures forall x | x in [head.prev] + (if s == [] then [] else [head] + s[..|s| - 1]) :: x in [head] + s
  {
    Ends(head, s);
    if s != [] {
      var n := |s|;
      Neighbours(head, s, n - 1);
      AnyNodeIsHead(head, s, n - 1);
      assert s[n..] + [head] + s[..n - 1] == [head] + s[..n - 1];
    }
  }

  lemma TailInserted(head: ListHead, s: seq<ListHead>, t: seq<ListHead>)
    requires s == [] ==> IsList(head, t + [])
    requires s != [] ==> IsList(s[|s| - 1], t + ([head] + s[..|s| - 1]))
    ensures IsList(head, s + t)
  {
    if s == [] {
      assert t + [] == s + t;
    } else {
      var r, e := t + ([head] + s[..|s| - 1]), s[|s| - 1];
      AnyNodeIsHead(e, r, |t|);
      assert r[|t| + 1..] + [e] + r[..|t|] == s + t;
    }
  }

  method ListSpliceTail(list: ListHead, head: ListHead, ghost t: seq<ListHead>, ghost s: seq<ListHead>)
    requires IsList(list, t) && IsList(head, s) && Disjoint([list] + t, [head] + s)
    modifies list.next`prev, head.prev`next, list.prev`next, head`prev
    ensures IsList(head, s + t)
    ensures unchanged(list)
  {
    hide Linked, Distinct, Ring;
    TestsMeanLengths(list, t);
    assert t == [] ==> s + t == s;
    if !ListEmpty(list) {
      SpliceAtTail(list, head, t, s);
    }
  }

  method ListSpliceTailInit(list: ListHead, head: ListHead, ghost t: seq<ListHead>, ghost s: seq<ListHead>)
    requires IsList(list, t) && IsList(head, s) && Disjoint([list] + t, [head] + s)
    modifies list, list.next`prev, head.prev`next, list.prev`next, head`prev
    ensures IsList(head, s + t) && IsList(list, [])
  {
    hide Linked, Distinct, Ring;
    TestsMeanLengths(list, t);
    assert t == [] ==> s + t == s;
    if !ListEmpty(list) {
      SpliceAtTail(list, head, t, s);
      label spliced:
      InitListHead(list);
      Apart(list, t, head, s);
      assert ([head] + (s + t))[1..] == s + t;
      Untouched@spliced([head] + (s + t));
    }
  }

  // ---------- cutting and joining undo each other ----------

  /** The links of a list, in order. */
  ghost function Links(h: ListHead, s: seq<ListHead>): seq<(ListHead, ListHead)>
    reads h, s
  {
    seq(|s| + 1, i requires 0 <= i <= |s| reads h, s => (([h] + s)[i].prev, ([h] + s)[i].next))
  }

  /** What they are in a ring. */
  ghost function RingLinks(h: ListHead, s: seq<ListHead>): seq<(ListHead, ListHead)> {
    seq(|s| + 1, i requires 0 <= i <= |s| => (([h] + s)[if i == 0 then |s| else i - 1], (s + [h])[i]))
  }

  lemma LinksAreRingLinks(h: ListHead, s: seq<ListHead>)
    requires IsList(h, s)
    ensures Links(h, s) == RingLinks(h, s)
  {
    forall i | 0 <= i <= |s| ensures Links(h, s)[i] == RingLinks(h, s)[i] {
      if i == 0 {
        Ends(h, s);
      } else {
        Neighbours(h, s, i - 1);
      }
    }
  }

  lemma HalvesApart(list: ListHead, head: ListHead, s: seq<ListHead>, n: nat)
    requires n <= |s| && head !in s && Distinct(s) && list !in [head] + s
    ensures s[..n] + s[n..] == s
    ensures Disjoint([list] + s[..n], [head] + s[n..])
    ensures (forall x | x in s[..n] :: x in s) && (forall x | x in s[n..] :: x in s)
  {
  }

  /**
   Cutting a list anywhere into an empty one and splicing the piece back in restores the
   sequence and every link.
   */
  method CutAndRejoin(list: ListHead, head: ListHead, entry: ListHead, ghost s: seq<ListHead>)
    requires IsList(head, s) && IsList(list, []) && list !in [head] + s
    requires |s| <= 1 || entry in [head] + s
    modifies list, head, s, entry, entry.next
    ensures IsList(head, s) && IsList(list, [])
    ensures Links(head, s) == old(Links(head, s))
    ensures entry !in [head] + s ==> unchanged(list) && unchanged(entry) && unchanged(entry.next)
  {
    LinksAreRingLinks(head, s);
    Ends(head, s);
    if entry in s {
      ghost var k :| 0 <= k < |s| && s[k] == entry;
      Neighbours(head, s, k);
    }
    assert head !in s && Distinct(s);
    hide *;
    ghost var n := ListCutPosition(list, head, entry, s);
    assert s[..0] == [] && s[0..] == s;
    Rejoin(list, head, s, n);
    LinksAreRingLinks(head, s);
  }

  /** Splicing back what was cut off; if that was nothing, nothing changes. */
  method Rejoin(list: ListHead, head: ListHead, ghost s: seq<ListHead>, ghost n: nat)
    requires n <= |s| && head !in s && Distinct(s) && list !in [head] + s
    requires IsList(list, s[..n]) && IsList(head, s[n..])
    modifies list, head, s
    ensures IsList(head, s) && IsList(list, [])
    ensures n == 0 ==> unchanged(list) && unchanged(head) && forall x | x in s :: unchanged(x)
  {
    hide *;
    HalvesApart(list, head, s, n);
    Ends(list, s[..n]);
    Ends(head, s[n..]);
    assert list.next == list || list.next in s;
    assert list.prev == list || list.prev in s;
    assert head.next == head || head.next in s;
    ListSpliceInit(list, head, s[..n], s[n..]);
  }
}
