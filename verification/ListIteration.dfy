/** The iteration macros of `src/include/list.h`, as the loops they expand to. */
module ListIteration {
  import opened LinkedList

  function Reverse<T>(s: seq<T>): (r: seq<T>)
    ensures |r| == |s|
    ensures forall i | 0 <= i < |s| :: r[i] == s[|s| - 1 - i]
  {
    if s == [] then [] else Reverse(s[1..]) + [s[0]]
  }

  /** The node at place i when the head stands after the entries; always one that the loop may read. */
  lemma Cursor(h: ListHead, s: seq<ListHead>, i: nat)
    requires IsList(h, s) && i < |s|
    ensures s[i] != h && s[i].next == (s + [h])[i + 1]
  {
    Neighbours(h, s, i);
    assert s[i] in s;
  }

  /** list_for_each visits every entry once, in order, and stops. */
  method ListForEach(head: ListHead, ghost s: seq<ListHead>) returns (visited: seq<ListHead>)
    requires IsList(head, s)
    ensures visited == s
  {
    hide Linked, Distinct;
    Ends(head, s);
    visited := [];
    var pos := head.next;
    while pos != head
      invariant |visited| <= |s| && visited == s[..|visited|]
      invariant pos == (s + [head])[|visited|]
      decreases |s| - |visited|
    {
      Cursor(head, s, |visited|);
      visited := visited + [pos];
      pos := pos.next;
    }
  }

  /** list_for_each_prev visits them in the reverse order. */
  method ListForEachPrev(head: ListHead, ghost s: seq<ListHead>) returns (visited: seq<ListHead>)
    requires IsList(head, s)
    ensures visited == Reverse(s)
  {
    hide Linked, Distinct;
    Ends(head, s);
    visited := [];
    var pos := head.prev;
    while pos != head
      invariant |visited| <= |s| && visited == Reverse(s)[..|visited|]
      invariant pos == ([head] + s)[|s| - |visited|]
      decreases |s| - |visited|
    {
      Neighbours(head, s, |s| - |visited| - 1);
      visited := visited + [pos];
      pos := pos.prev;
    }
  }

  /** The entries outside a set, in order. */
  function Without(s: seq<ListHead>, victims: set<ListHead>): seq<ListHead> {
    if s == [] then []
    else if s[0] in victims then Without(s[1..], victims)
    else [s[0]] + Without(s[1..], victims)
  }

  lemma WithoutNothing(victims: set<ListHead>)
    ensures Without([], victims) == []
  {
  }

  lemma {:induction false} WithoutLast(s: seq<ListHead>, x: ListHead, victims: set<ListHead>)
    ensures Without(s + [x], victims) == Without(s, victims) + if x in victims then [] else [x]
  {
    if s == [] {
      assert s + [x] == [x];
    } else {
      assert (s + [x])[1..] == s[1..] + [x];
      WithoutLast(s[1..], x, victims);
    }
  }

  lemma RemoveMiddle(a: seq<ListHead>, x: ListHead, b: seq<ListHead>)
    ensures Remove(a + [x] + b, |a|) == a + b
  {
  }

  /** The entry after `kept`, if there is one, is the cursor's and points at the next. */
  lemma NextEntry(head: ListHead, kept: seq<ListHead>, rest: seq<ListHead>)
    requires IsList(head, kept + rest) && rest != []
    ensures rest[0] != head && rest[0].next == (rest[1..] + [head])[0]
    ensures rest[0].next == head || rest[0].next in kept + rest
    ensures rest[0].prev == head || rest[0].prev in kept + rest
  {
    var s := kept + rest;
    Cursor(head, s, |kept|);
    Neighbours(head, s, |kept|);
  }

  lemma ApartFromRest(head: ListHead, kept: seq<ListHead>, pos: ListHead, rest: seq<ListHead>)
    requires IsList(head, kept + [pos] + rest)
    ensures pos !in [head] + (kept + rest)
  {
    var s := kept + [pos] + rest;
    assert s[|kept|] == pos;
    forall i | 0 <= i < |kept + rest| ensures (kept + rest)[i] != pos {
      assert (kept + rest)[i] == s[if i < |kept| then i else i + 1];
    }
  }

  /** The loop body: the entry under the cursor may be deleted, and then its links hold anything. */
  method DeleteIf(pos: ListHead, victims: set<ListHead>,
                  ghost head: ListHead, ghost kept: seq<ListHead>, ghost rest: seq<ListHead>)
    requires IsList(head, kept + [pos] + rest)
    modifies pos.next`prev, pos.prev`next, pos
    ensures IsList(head, kept + (if pos in victims then [] else [pos]) + rest)
  {
    hide IsList, Remove;
    if pos in victims {
      ghost var t, left := kept + [pos] + rest, kept + rest;
      assert t[|kept|] == pos;
      ApartFromRest(head, kept, pos, rest);
      ListDel(pos, head, t, |kept|);
      RemoveMiddle(kept, pos, rest);
      label deleted:
      pos.next, pos.prev := *, *;
      assert ([head] + left)[1..] == left;
      Untouched@deleted([head] + left);
      assert kept + [] == kept;
    }
  }

  /** How the split of s into visited and remaining entries moves on by one. */
  lemma Advance(visited: seq<ListHead>, kept: seq<ListHead>, pos: ListHead, rest: seq<ListHead>, s: seq<ListHead>,
                victims: set<ListHead>)
    requires visited + rest == s && rest != [] && pos == rest[0]
    ensures kept + rest == kept + [pos] + rest[1..]
    ensures visited + [pos] + rest[1..] == s
    ensures pos in s
    ensures forall x | x in kept + (if pos in victims then [] else [pos]) + rest[1..] :: x in kept + rest
  {
    assert s[|visited|] == pos;
  }

  /**
   list_for_each_safe, with a body that deletes the entries in `victims` and leaves nothing of their
   links to go on with: it still visits every entry exactly once in order, and exactly the victims
   are gone afterwards.
   */
  method ListForEachSafe(head: ListHead, victims: set<ListHead>, ghost s: seq<ListHead>)
    returns (visited: seq<ListHead>)
    requires IsList(head, s)
    modifies head, s
    ensures visited == s
    ensures IsList(head, Without(s, victims))
  {
    assert head !in s;
    hide IsList, Without;
    ghost var kept: seq<ListHead>, rest := [], s;
    Ends(head, s);
    WithoutNothing(victims);
    visited := [];
    assert kept + rest == s;
    var pos := head.next;
    if s != [] {
      NextEntry(head, kept, rest);
    }
    var n := pos.next;
    while pos != head
      invariant visited + rest == s && kept == Without(visited, victims)
      invariant IsList(head, kept + rest)
      invariant forall x | x in kept + rest :: x in s
      invariant pos == (rest + [head])[0]
      invariant rest != [] ==> n == (rest[1..] + [head])[0]
      decreases |rest|
    {
      ghost var later := rest[1..];
      NextEntry(head, kept, rest);
      Advance(visited, kept, pos, rest, s, victims);
      assert (pos.next == head || pos.next in s) && (pos.prev == head || pos.prev in s);
      WithoutLast(visited, pos, victims);
      DeleteIf(pos, victims, head, kept, later);
      visited := visited + [pos];
      kept := kept + if pos in victims then [] else [pos];
      rest := later;
      pos := n;
      if rest != [] {
        NextEntry(head, kept, rest);
      }
      n := n.next;
    }
    assert rest == [] by {
      assert forall x | x in rest :: x in kept + rest;
    }
    assert visited == s && kept + rest == kept;
  }
}
