/**
 The pack and unpack functions of `src/utils.c` as they are used: a buffer and an offset that
 advances by each return value.  A record is a list of fields; its shape is what the reader knows.
 */
module PackedRecord {
  import opened Memory
  import opened Packing

  // ---------- records on values ----------

  datatype Field = U8(value: bv8) | Scalar(order: Order, word: Word) | Str(bytes: seq<bv8>)

  datatype Shape = ShapeU8 | ShapeScalar(order: Order, width: Width) | ShapeStr(len: nat) {
    function Length(): nat {
      match this
      case ShapeU8 => 1
      case ShapeScalar(_, width) => width.Size()
      case ShapeStr(len) => len
    }
  }

  function ShapeOf(f: Field): Shape {
    match f
    case U8(_) => ShapeU8
    case Scalar(order, w) => ShapeScalar(order, w.Width())
    case Str(b) => ShapeStr(|b|)
  }

  function ShapesOf(fs: seq<Field>): (shapes: seq<Shape>)
    ensures |shapes| == |fs|
  {
    if fs == [] then [] else [ShapeOf(fs[0])] + ShapesOf(fs[1..])
  }

  function Encode(f: Field): (b: seq<bv8>)
    ensures |b| == ShapeOf(f).Length()
  {
    match f
    case U8(v) => [v]
    case Scalar(order, w) => Bytes(order, w)
    case Str(b) => b
  }

  function EncodeAll(fs: seq<Field>): (b: seq<bv8>)
    ensures |b| == TotalLength(ShapesOf(fs))
  {
    if fs == [] then [] else Encode(fs[0]) + EncodeAll(fs[1..])
  }

  function TotalLength(shapes: seq<Shape>): nat {
    if shapes == [] then 0 else shapes[0].Length() + TotalLength(shapes[1..])
  }

  function Decode(shape: Shape, b: seq<bv8>): Field
    requires |b| == shape.Length()
  {
    match shape
    case ShapeU8 => U8(b[0])
    case ShapeScalar(order, width) => Scalar(order, FromBytes(order, b, width))
    case ShapeStr(_) => Str(b)
  }

  function DecodeAll(shapes: seq<Shape>, b: seq<bv8>): (fs: seq<Field>)
    requires |b| >= TotalLength(shapes)
  {
    if shapes == [] then []
    else
      var n := shapes[0].Length();
      [Decode(shapes[0], b[..n])] + DecodeAll(shapes[1..], b[n..])
  }

  /** What each field is on the wire: a byte, a word in its order, a string as it is. */
  lemma FieldBytes(v: bv8, order: Order, w: Word, b: seq<bv8>)
    ensures Encode(U8(v)) == [v] && Encode(Scalar(order, w)) == Bytes(order, w) && Encode(Str(b)) == b
  {
    hide Bytes;
  }

  lemma EncodeOne(f: Field)
    ensures EncodeAll([f]) == Encode(f)
  {
    hide Encode;
    assert [f][1..] == [];
  }

  /** A record is its fields one behind the other, in order. */
  lemma {:induction false} EncodeConcat(fs: seq<Field>, gs: seq<Field>)
    ensures EncodeAll(fs + gs) == EncodeAll(fs) + EncodeAll(gs)
  {
    hide *;
    if fs == [] {
      EncodeNothing();
      assert fs + gs == gs && [] + EncodeAll(gs) == EncodeAll(gs);
    } else {
      var more := fs[1..] + gs;
      assert fs + gs == [fs[0]] + more;
      EncodeFirst(fs);
      EncodeFirst(fs + gs);
      EncodeConcat(fs[1..], gs);
      Regroup(Encode(fs[0]), EncodeAll(fs[1..]), EncodeAll(gs));
    }
  }

  lemma EncodeNothing()
    ensures EncodeAll([]) == []
  {
  }

  lemma Regroup(a: seq<bv8>, b: seq<bv8>, c: seq<bv8>)
    ensures a + (b + c) == a + b + c
  {
  }

  lemma FieldRoundTrip(f: Field)
    ensures Decode(ShapeOf(f), Encode(f)) == f
  {
    hide Bytes, FromBytes;
    if f.Scalar? {
      BytesRoundTrip(f.order, f.word);
    }
  }

  /** Reading a record with its own shape gives back its fields, whatever follows it. */
  lemma {:induction false} RecordRoundTrip(fs: seq<Field>, tail: seq<bv8>)
    ensures DecodeAll(ShapesOf(fs), EncodeAll(fs) + tail) == fs
  {
    hide Encode, Decode;
    if fs != [] {
      var b, rest := Encode(fs[0]), EncodeAll(fs[1..]) + tail;
      assert EncodeAll(fs) + tail == b + rest;
      assert (b + rest)[..|b|] == b && (b + rest)[|b|..] == rest;
      RecordRoundTrip(fs[1..], tail);
      FieldRoundTrip(fs[0]);
    }
  }

  // ---------- one field in a buffer ----------

  /** *((word *)p) = val */
  method StoreWord(host: Order, p: array<bv8>, off: nat, val: Word)
    requires off + val.Width().Size() <= p.Length
    modifies p
    ensures p[..] == Written(old(p[..]), off, HostStore(host, val))
  {
    Store(p, off, HostStore(host, val));
  }

  /** pack_be16, pack_be32, pack_be64, pack_le16, pack_le32 and pack_le64, in both host branches */
  method PackWord(host: Order, order: Order, p: array<bv8>, off: nat, val: Word) returns (n: int)
    requires off + val.Width().Size() <= p.Length
    modifies p
    ensures n == val.Width().Size()
    ensures p[..] == Written(old(p[..]), off, Bytes(order, val))
  {
    StoreIsHostIndependent(host, order, val);
    hide Bytes, HostStore, ByteSwap;
    if host == order {
      StoreWord(host, p, off, val);
    } else {
      StoreWord(host, p, off, ByteSwap(val));
    }
    n := val.Width().Size();
  }

  /** unpack_be16, unpack_be32, unpack_be64, unpack_le16, unpack_le32 and unpack_le64 */
  method UnpackWord(host: Order, order: Order, width: Width, p: array<bv8>, off: nat) returns (n: int, val: Word)
    requires off + width.Size() <= p.Length
    ensures n == width.Size()
    ensures val == FromBytes(order, p[off..off + width.Size()], width)
  {
    var b := p[off..off + width.Size()];
    LoadIsHostIndependent(host, order, b, width);
    hide FromBytes, HostLoad, ByteSwap;
    val := HostLoad(host, b, width);
    if host != order {
      val := ByteSwap(val);
    }
    n := width.Size();
  }

  method PackU8(p: array<bv8>, off: nat, val: bv8) returns (n: int)
    requires off < p.Length
    modifies p
    ensures n == 1 && p[..] == Written(old(p[..]), off, [val])
  {
    p[off] := val;
    n := 1;
  }

  method UnpackU8(p: array<bv8>, off: nat) returns (n: int, val: bv8)
    requires off < p.Length
    ensures n == 1 && val == p[off]
  {
    val := p[off];
    n := 1;
  }

  method PackStr(p: array<bv8>, off: nat, str: array<bv8>, len: nat) returns (n: int)
    requires off + len <= p.Length && len <= str.Length && p != str
    modifies p
    ensures n == len && p[..] == Written(old(p[..]), off, str[..len])
  {
    Memset(p, off, 0, len);
    Memcpy(p, off, str, 0, len);
    n := len;
  }

  method PackZero(p: array<bv8>, off: nat, fill: bv8, len: nat) returns (n: int)
    requires off + len <= p.Length
    modifies p
    ensures n == len && p[..] == Written(old(p[..]), off, seq(len, _ => fill))
  {
    Memset(p, off, fill, len);
    n := len;
  }

  method UnpackStr(p: array<bv8>, off: nat, str: array<bv8>, len: nat) returns (n: int)
    requires off + len <= p.Length && len <= str.Length && p != str
    modifies str
    ensures n == len && str[..] == Written(old(str[..]), 0, p[off..off + len])
  {
    Memset(str, 0, 0, len);
    Memcpy(str, 0, p, off, len);
    n := len;
  }

  // ---------- records in a buffer ----------

  method PackField(host: Order, p: array<bv8>, off: nat, f: Field) returns (n: int)
    requires off + ShapeOf(f).Length() <= p.Length
    modifies p
    ensures n == |Encode(f)| && p[..] == Written(old(p[..]), off, Encode(f))
  {
    hide Bytes, Written;
    match f
    case U8(v) =>
      n := PackU8(p, off, v);
    case Scalar(order, w) =>
      n := PackWord(host, order, p, off, w);
    case Str(b) =>
      var str := new bv8[|b|](i requires 0 <= i < |b| => b[i]);
      assert str[..|b|] == b;
      n := PackStr(p, off, str, |b|);
  }

  lemma EncodeFirst(fs: seq<Field>)
    requires fs != []
    ensures EncodeAll(fs) == Encode(fs[0]) + EncodeAll(fs[1..])
  {
  }

  /** Packing field after field fills exactly the record's span and touches nothing outside it. */
  method PackFields(host: Order, p: array<bv8>, off: nat, fs: seq<Field>) returns (end: nat)
    requires off + |EncodeAll(fs)| <= p.Length
    modifies p
    ensures end == off + |EncodeAll(fs)|
    ensures p[..] == Written(old(p[..]), off, EncodeAll(fs))
    decreases |fs|
  {
    if fs == [] {
      end := off;
      assert p[..] == Written(p[..], off, []);
    } else {
      hide *;
      EncodeFirst(fs);
      WrittenTwice(p[..], off, Encode(fs[0]), EncodeAll(fs[1..]));
      var n := PackField(host, p, off, fs[0]);
      end := PackFields(host, p, off + n, fs[1..]);
    }
  }

  method UnpackField(host: Order, p: array<bv8>, off: nat, shape: Shape) returns (n: int, f: Field)
    requires off + shape.Length() <= p.Length
    ensures n == shape.Length() && f == Decode(shape, p[off..off + shape.Length()])
  {
    hide Bytes, FromBytes, Written;
    match shape
    case ShapeU8 =>
      var v;
      n, v := UnpackU8(p, off);
      f := U8(v);
    case ShapeScalar(order, width) =>
      var w;
      n, w := UnpackWord(host, order, width, p, off);
      f := Scalar(order, w);
    case ShapeStr(len) =>
      var str := new bv8[len];
      WrittenAll(str[..], p[off..off + len]);
      n := UnpackStr(p, off, str, len);
      f := Str(str[..]);
  }

  lemma WrittenAll(was: seq<bv8>, b: seq<bv8>)
    requires |was| == |b|
    ensures Written(was, 0, b) == b
  {
  }

  lemma DecodeFirst(shapes: seq<Shape>, b: seq<bv8>, at: nat)
    requires shapes != [] && at + TotalLength(shapes) <= |b|
    ensures var n := shapes[0].Length();
      && TotalLength(shapes) == n + TotalLength(shapes[1..])
      && DecodeAll(shapes, b[at..]) == [Decode(shapes[0], b[at..at + n])] + DecodeAll(shapes[1..], b[at + n..])
  {
    hide Decode;
    var n := shapes[0].Length();
    assert b[at..][..n] == b[at..at + n] && b[at..][n..] == b[at + n..];
  }

  method UnpackFields(host: Order, p: array<bv8>, off: nat, shapes: seq<Shape>) returns (end: nat, fs: seq<Field>)
    requires off + TotalLength(shapes) <= p.Length
    ensures end == off + TotalLength(shapes)
    ensures fs == DecodeAll(shapes, p[off..])
    decreases |shapes|
  {
    if shapes == [] {
      end, fs := off, [];
    } else {
      hide *;
      DecodeFirst(shapes, p[..], off);
      var n, f := UnpackField(host, p, off, shapes[0]);
      end, fs := UnpackFields(host, p, off + n, shapes[1..]);
      fs := [f] + fs;
    }
  }

  /**
   A record packed on one host and unpacked, with the same shape, on another comes back whole:
   the same fields and the same length, whatever the byte order of either host.
   */
  method SendAndReceive(sender: Order, receiver: Order, p: array<bv8>, off: nat, fs: seq<Field>)
    returns (sent: nat, received: nat, got: seq<Field>)
    requires off + |EncodeAll(fs)| <= p.Length
    modifies p
    ensures got == fs && received == sent == off + |EncodeAll(fs)|
    ensures p[..off] == old(p[..off]) && p[sent..] == old(p[off + |EncodeAll(fs)|..])
  {
    hide EncodeAll, DecodeAll;
    sent := PackFields(sender, p, off, fs);
    ghost var tail := old(p[off + |EncodeAll(fs)|..]);
    assert p[off..] == EncodeAll(fs) + tail;
    RecordRoundTrip(fs, tail);
    received, got := UnpackFields(receiver, p, off, ShapesOf(fs));
  }
}
