/**
 The byte packing of `src/utils.c`: machine words stored at an address in a stated wire order, on
 hosts of either byte order, and runs of packed fields.
 */
module Packing {

  /** The byte order of a host, or of a field on the wire. */
  datatype Order = Little | Big

  datatype Width = Two | Four | Eight {
    function Size(): (n: nat)
      ensures n == 2 || n == 4 || n == 8
    {
      match this
      case Two => 2
      case Four => 4
      case Eight => 8
    }
  }

  datatype Word = W16(v16: bv16) | W32(v32: bv32) | W64(v64: bv64) {
    function Width(): Width {
      match this
      case W16(_) => Two
      case W32(_) => Four
      case W64(_) => Eight
    }
  }

  // ---------- words and bytes ----------

  function LittleBytes(w: Word): (b: seq<bv8>)
    ensures |b| == w.Width().Size()
  {
    match w
    case W16(v) => [(v & 0xff) as bv8, ((v >> 8) & 0xff) as bv8]
    case W32(v) =>
      [(v & 0xff) as bv8, ((v >> 8) & 0xff) as bv8, ((v >> 16) & 0xff) as bv8, ((v >> 24) & 0xff) as bv8]
    case W64(v) =>
      [(v & 0xff) as bv8, ((v >> 8) & 0xff) as bv8, ((v >> 16) & 0xff) as bv8, ((v >> 24) & 0xff) as bv8,
       ((v >> 32) & 0xff) as bv8, ((v >> 40) & 0xff) as bv8, ((v >> 48) & 0xff) as bv8, ((v >> 56) & 0xff) as bv8]
  }

  function FromLittle(b: seq<bv8>, width: Width): (w: Word)
    requires |b| == width.Size()
    ensures w.Width() == width
  {
    match width
    case Two => W16((b[0] as bv16) | ((b[1] as bv16) << 8))
    case Four =>
      W32((b[0] as bv32) | ((b[1] as bv32) << 8) | ((b[2] as bv32) << 16) | ((b[3] as bv32) << 24))
    case Eight =>
      W64((b[0] as bv64) | ((b[1] as bv64) << 8) | ((b[2] as bv64) << 16) | ((b[3] as bv64) << 24)
        | ((b[4] as bv64) << 32) | ((b[5] as bv64) << 40) | ((b[6] as bv64) << 48) | ((b[7] as bv64) << 56))
  }

  function Reversed(b: seq<bv8>): (r: seq<bv8>)
    ensures |r| == |b|
    ensures forall i | 0 <= i < |b| :: r[i] == b[|b| - 1 - i]
  {
    seq(|b|, i requires 0 <= i < |b| => b[|b| - 1 - i])
  }

  /** The bytes of a word in a given order, lowest address first. */
  function Bytes(order: Order, w: Word): (b: seq<bv8>)
    ensures |b| == w.Width().Size()
  {
    if order == Little then LittleBytes(w) else Reversed(LittleBytes(w))
  }

  function FromBytes(order: Order, b: seq<bv8>, width: Width): (w: Word)
    requires |b| == width.Size()
    ensures w.Width() == width
  {
    FromLittle(if order == Little then b else Reversed(b), width)
  }

  /** The two bytes of a word exchanged. */
  function SwapBytes(v: bv16): bv16 {
    ((v & 0x00ff) << 8) | ((v & 0xff00) >> 8)
  }

  /** BYTE_SWAP16, BYTE_SWAP32 and BYTE_SWAP64 */
  function ByteSwap(w: Word): (s: Word)
    ensures s.Width() == w.Width()
  {
    match w
    case W16(v) => W16(SwapBytes(v))
    case W32(v) =>
      W32(((v & 0xff000000) >> 24) | ((v & 0x00ff0000) >> 8) | ((v & 0x0000ff00) << 8) | ((v & 0x000000ff) << 24))
    case W64(v) =>
      W64(((v & 0xff00000000000000) >> 56) | ((v & 0x00ff000000000000) >> 40)
        | ((v & 0x0000ff0000000000) >> 24) | ((v & 0x000000ff00000000) >> 8)
        | ((v & 0x00000000ff000000) << 8) | ((v & 0x0000000000ff0000) << 24)
        | ((v & 0x000000000000ff00) << 40) | ((v & 0x00000000000000ff) << 56))
  }

  // ---------- the value of bytes ----------

  function Wide(w: Word): bv64 {
    match w
    case W16(v) => v as bv64
    case W32(v) => v as bv64
    case W64(v) => v
  }

  /** A number put above a byte. */
  function Above(high: bv64, low: bv8): bv64 {
    (high << 8) | (low as bv64)
  }

  /** The number that bytes spell, the least significant one first. */
  function Number(b: seq<bv8>): bv64 {
    if b == [] then 0 else Above(Number(b[1..]), b[0])
  }

  lemma NumberStep(a: bv8, rest: seq<bv8>)
    ensures Number([]) == 0
    ensures Number([a] + rest) == Above(Number(rest), a)
  {
    hide Above;
    assert ([a] + rest)[1..] == rest;
  }

  lemma Spelled2(a: bv8, b: bv8, rest: seq<bv8>)
    ensures Number([a, b] + rest) == Above(Above(Number(rest), b), a)
  {
    hide *;
    NumberStep(b, rest);
    NumberStep(a, [b] + rest);
    assert [a, b] + rest == [a] + ([b] + rest);
  }

  lemma Spelled4(a: bv8, b: bv8, c: bv8, d: bv8, rest: seq<bv8>)
    ensures Number([a, b, c, d] + rest) == Above(Above(Above(Above(Number(rest), d), c), b), a)
  {
    hide *;
    Spelled2(c, d, rest);
    Spelled2(a, b, [c, d] + rest);
    assert [a, b, c, d] + rest == [a, b] + ([c, d] + rest);
  }

  lemma Spelled8(a: bv8, b: bv8, c: bv8, d: bv8, e: bv8, f: bv8, g: bv8, h: bv8)
    ensures Number([a, b, c, d, e, f, g, h])
         == Above(Above(Above(Above(Above(Above(Above(Above(0, h), g), f), e), d), c), b), a)
  {
    hide *;
    NumberStep(a, []);
    Spelled4(e, f, g, h, []);
    Spelled4(a, b, c, d, [e, f, g, h]);
    assert [e, f, g, h] + [] == [e, f, g, h];
    assert [a, b, c, d] + [e, f, g, h] == [a, b, c, d, e, f, g, h];
  }

  lemma Split16(v: bv16)
    ensures Above(Above(0, ((v >> 8) & 0xff) as bv8), (v & 0xff) as bv8) == v as bv64
  {
  }

  lemma Number16(v: bv16)
    ensures Number(LittleBytes(W16(v))) == v as bv64
  {
    Split16(v);
    var b := LittleBytes(W16(v));
    NumberStep(b[0], []);
    Spelled2((v & 0xff) as bv8, ((v >> 8) & 0xff) as bv8, []);
    assert b + [] == b;
    hide Number, Above;
  }

  lemma Split32(v: bv32)
    ensures Above(Above(Above(Above(0, ((v >> 24) & 0xff) as bv8), ((v >> 16) & 0xff) as bv8), ((v >> 8) & 0xff) as bv8), (v & 0xff) as bv8) == v as bv64
  {
  }

  lemma Number32(v: bv32)
    ensures Number(LittleBytes(W32(v))) == v as bv64
  {
    Split32(v);
    var b := LittleBytes(W32(v));
    NumberStep(b[0], []);
    Spelled4((v & 0xff) as bv8, ((v >> 8) & 0xff) as bv8, ((v >> 16) & 0xff) as bv8, ((v >> 24) & 0xff) as bv8, []);
    assert b + [] == b;
    hide Number, Above;
  }

  lemma Split64(v: bv64)
    ensures Above(Above(Above(Above(Above(Above(Above(Above(0, ((v >> 56) & 0xff) as bv8), ((v >> 48) & 0xff) as bv8), ((v >> 40) & 0xff) as bv8), ((v >> 32) & 0xff) as bv8), ((v >> 24) & 0xff) as bv8), ((v >> 16) & 0xff) as bv8), ((v >> 8) & 0xff) as bv8), (v & 0xff) as bv8) == v as bv64
  {
  }

  lemma Number64(v: bv64)
    ensures Number(LittleBytes(W64(v))) == v as bv64
  {
    Split64(v);
    Spelled8((v & 0xff) as bv8, ((v >> 8) & 0xff) as bv8, ((v >> 16) & 0xff) as bv8, ((v >> 24) & 0xff) as bv8, ((v >> 32) & 0xff) as bv8, ((v >> 40) & 0xff) as bv8, ((v >> 48) & 0xff) as bv8, ((v >> 56) & 0xff) as bv8);
    hide Number, Above;
  }

  lemma LittleSpells(w: Word)
    ensures Number(LittleBytes(w)) == Wide(w)
  {
    match w {
      case W16(v) => Number16(v);
      case W32(v) => Number32(v);
      case W64(v) => Number64(v);
    }
    hide Number, LittleBytes;
  }

  /** The bytes spell the word: little-endian from the first byte up, big-endian from the last byte up. */
  lemma BytesSpellTheWord(w: Word)
    ensures Number(Bytes(Little, w)) == Wide(w) == Number(Reversed(Bytes(Big, w)))
  {
    hide Number, LittleBytes, Wide;
    LittleSpells(w);
    ReversedTwice(LittleBytes(w));
  }

  lemma Swap64Bytes(v: bv64)
    ensures var l, s := LittleBytes(W64(v)), LittleBytes(ByteSwap(W64(v)));
      && s[0] == l[7] && s[1] == l[6] && s[2] == l[5] && s[3] == l[4]
      && s[4] == l[3] && s[5] == l[2] && s[6] == l[1] && s[7] == l[0]
  {
  }

  /** Swapping a word reverses its bytes. */
  lemma SwapReverses(w: Word)
    ensures LittleBytes(ByteSwap(w)) == Reversed(LittleBytes(w))
  {
    if w.W64? {
      Swap64Bytes(w.v64);
      hide LittleBytes, ByteSwap;
    }
  }

  lemma ReversedTwice(b: seq<bv8>)
    ensures Reversed(Reversed(b)) == b
  {
  }

  lemma {:induction false} LittleRoundTrip(w: Word)
    ensures FromLittle(LittleBytes(w), w.Width()) == w
  {
    match w
    case W16(v) =>
    case W32(v) =>
    case W64(v) =>
  }

  /** What is written in an order is read back in that order. */
  lemma BytesRoundTrip(order: Order, w: Word)
    ensures FromBytes(order, Bytes(order, w), w.Width()) == w
  {
    hide LittleBytes, FromLittle;
    LittleRoundTrip(w);
    ReversedTwice(LittleBytes(w));
  }

  // ---------- the two host branches ----------

  /** What the host stores through a word pointer: its own order. */
  function HostStore(host: Order, w: Word): (b: seq<bv8>)
    ensures |b| == w.Width().Size()
  {
    Bytes(host, w)
  }

  function HostLoad(host: Order, b: seq<bv8>, width: Width): (w: Word)
    requires |b| == width.Size()
    ensures w.Width() == width
  {
    FromBytes(host, b, width)
  }

  /** The preprocessor branches: swap exactly when the host and the wire disagree. */
  function ToWire(host: Order, order: Order, w: Word): (s: Word)
    ensures s.Width() == w.Width()
  {
    if host == order then w else ByteSwap(w)
  }

  /** What each branch of the preprocessor compiles. */
  lemma HostBranches(w: Word)
    ensures ToWire(Little, Little, w) == w && ToWire(Big, Big, w) == w
    ensures ToWire(Little, Big, w) == ByteSwap(w) && ToWire(Big, Little, w) == ByteSwap(w)
    ensures HostStore(Little, w) == Bytes(Little, w) && HostStore(Big, w) == Bytes(Big, w)
    ensures HostLoad(Little, Bytes(Little, w), w.Width()) == w == HostLoad(Big, Bytes(Big, w), w.Width())
  {
    BytesRoundTrip(Little, w);
    BytesRoundTrip(Big, w);
    hide LittleBytes, ByteSwap, FromLittle, Bytes, FromBytes;
  }

  /** Either branch writes the same wire bytes: those of the wire order. */
  lemma StoreIsHostIndependent(host: Order, order: Order, w: Word)
    ensures HostStore(host, ToWire(host, order, w)) == Bytes(order, w)
  {
    hide LittleBytes, ByteSwap;
    SwapReverses(w);
    ReversedTwice(LittleBytes(w));
  }

  /** Either branch reads the same value from wire bytes. */
  lemma LoadIsHostIndependent(host: Order, order: Order, b: seq<bv8>, width: Width)
    requires |b| == width.Size()
    ensures ToWire(host, order, HostLoad(host, b, width)) == FromBytes(order, b, width)
  {
    hide LittleBytes, ByteSwap, FromLittle, Bytes, FromBytes;
    var w := FromBytes(order, b, width);
    BytesOnto(order, b, width);
    StoreIsHostIndependent(host, order, w);
    var s := ToWire(host, order, w);
    BytesRoundTrip(host, s);
    SwapTwice(w);
  }

  lemma SwapTwice(w: Word)
    ensures ByteSwap(ByteSwap(w)) == w
  {
    hide LittleBytes, ByteSwap, FromLittle;
    SwapReverses(w);
    SwapReverses(ByteSwap(w));
    ReversedTwice(LittleBytes(w));
    LittleRoundTrip(w);
    LittleRoundTrip(ByteSwap(ByteSwap(w)));
  }

  lemma LittleOnto(b: seq<bv8>, width: Width)
    requires |b| == width.Size()
    ensures LittleBytes(FromLittle(b, width)) == b
  {
    match width
    case Two =>
    case Four =>
    case Eight =>
      Onto64(b);
      hide LittleBytes, FromLittle;
  }

  lemma Onto64(b: seq<bv8>)
    requires |b| == 8
    ensures var c := LittleBytes(FromLittle(b, Eight));
      && c[0] == b[0] && c[1] == b[1] && c[2] == b[2] && c[3] == b[3]
      && c[4] == b[4] && c[5] == b[5] && c[6] == b[6] && c[7] == b[7]
  {
  }

  /** Every byte string of the right length is the encoding of the word it decodes to. */
  lemma BytesOnto(order: Order, b: seq<bv8>, width: Width)
    requires |b| == width.Size()
    ensures Bytes(order, FromBytes(order, b, width)) == b
  {
    hide LittleBytes, FromLittle;
    LittleOnto(b, width);
    LittleOnto(Reversed(b), width);
    ReversedTwice(b);
  }
}
