/** Writes into byte buffers: what memset, memcpy and a run of byte stores leave behind. */
module Memory {

  /** The contents of a buffer after b was written at an offset. */
  function Written(was: seq<bv8>, off: nat, b: seq<bv8>): seq<bv8>
    requires off + |b| <= |was|
  {
    was[..off] + b + was[off + |b|..]
  }

  /** Byte by byte: the written ones where they belong, and all others as they were. */
  lemma WrittenBytes(was: seq<bv8>, off: nat, b: seq<bv8>)
    requires off + |b| <= |was|
    ensures var r := Written(was, off, b);
      |r| == |was| && forall i | 0 <= i < |was| :: r[i] == if off <= i < off + |b| then b[i - off] else was[i]
  {
  }

  method Memset(p: array<bv8>, off: nat, fill: bv8, len: nat)
    requires off + len <= p.Length
    modifies p
    ensures p[..] == Written(old(p[..]), off, seq(len, _ => fill))
  {
    var i := 0;
    while i < len
      invariant i <= len
      invariant forall k | 0 <= k < p.Length :: p[k] == if off <= k < off + i then fill else old(p[k])
    {
      p[off + i] := fill;
      i := i + 1;
    }
  }

  method Memcpy(p: array<bv8>, off: nat, src: array<bv8>, from: nat, len: nat)
    requires off + len <= p.Length && from + len <= src.Length && p != src
    modifies p
    ensures p[..] == Written(old(p[..]), off, src[from..from + len])
  {
    var i := 0;
    while i < len
      invariant i <= len
      invariant forall k | 0 <= k < p.Length :: p[k] == if off <= k < off + i then src[from + k - off] else old(p[k])
    {
      p[off + i] := src[from + i];
      i := i + 1;
    }
  }

  method Store(p: array<bv8>, off: nat, b: seq<bv8>)
    requires off + |b| <= p.Length
    modifies p
    ensures p[..] == Written(old(p[..]), off, b)
  {
    var i := 0;
    while i < |b|
      invariant i <= |b|
      invariant forall k | 0 <= k < p.Length :: p[k] == if off <= k < off + i then b[k - off] else old(p[k])
    {
      p[off + i] := b[i];
      i := i + 1;
    }
  }

  lemma WrittenTwice(was: seq<bv8>, off: nat, a: seq<bv8>, b: seq<bv8>)
    requires off + |a| + |b| <= |was|
    ensures Written(Written(was, off, a), off + |a|, b) == Written(was, off, a + b)
  {
  }

  /** A C string: the bytes in front of the first zero. */
  function CString(s: seq<bv8>): (r: seq<bv8>)
    ensures r <= s && 0 !in r
    ensures |r| < |s| ==> s[|r|] == 0
  {
    if s == [] || s[0] == 0 then [] else [s[0]] + CString(s[1..])
  }

  lemma {:induction false} CStringPrefix(text: seq<bv8>, rest: seq<bv8>)
    requires 0 !in text && rest != [] && rest[0] == 0
    ensures CString(text + rest) == text
  {
    if text == [] {
      assert text + rest == rest;
    } else {
      assert (text + rest)[1..] == text[1..] + rest;
      CStringPrefix(text[1..], rest);
    }
  }

  lemma {:induction false} CStringWhole(text: seq<bv8>)
    requires 0 !in text
    ensures CString(text) == text
  {
    if text != [] {
      CStringWhole(text[1..]);
    }
  }
}
