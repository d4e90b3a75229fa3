/**
 The padding, ECB and base64 pipeline of `src/encrypt.c`.

 AES is an arbitrary bijection of 16-byte blocks.  `EVP_DecryptUpdate` is modelled with the habit
 that matters here: with padding on it holds back the last block whenever its input ends on a
 block boundary, and the C code never asks for that block with a Final call.  `holdBack = false`
 is the same primitive with padding switched off.
 */
module Encrypt {
  import opened Base64
  import opened Memory

  const AES_BLOCK_SIZE: nat := 16

  type Block = b: seq<bv8> | |b| == 16 witness seq(16, _ => 0)

  /** A block cipher under one key. */
  datatype Cipher = Cipher(enc: Block -> Block, dec: Block -> Block)

  ghost predicate Bijection(c: Cipher) {
    (forall b: Block :: c.dec(c.enc(b)) == b) && (forall b: Block :: c.enc(c.dec(b)) == b)
  }

  // ---------- padding (section 6.3 of RFC 5652) ----------

  function PadCount(n: nat): (k: nat)
    ensures 1 <= k <= 16
  {
    AES_BLOCK_SIZE - n % AES_BLOCK_SIZE
  }

  function Pad(m: seq<bv8>): seq<bv8> {
    m + seq(PadCount(|m|), _ => PadCount(|m|) as bv8)
  }

  lemma PadLength(m: seq<bv8>)
    ensures |Pad(m)| == 16 * (|m| / 16 + 1)
    ensures |Pad(m)| > |m|
  {
  }

  lemma PadByte(k: nat)
    requires 1 <= k <= 16
    ensures (k as bv8) as int == k
  {
  }

  /** The message comes first, and every byte added says how many were: from 1 to 16. */
  lemma PadTells(m: seq<bv8>)
    ensures m <= Pad(m) && 1 <= |Pad(m)| - |m| <= 16
    ensures forall i | |m| <= i < |Pad(m)| :: Pad(m)[i] as int == |Pad(m)| - |m|
  {
    PadByte(PadCount(|m|));
  }

  lemma PadInjective(m: seq<bv8>, m': seq<bv8>)
    ensures Pad(m) == Pad(m') <==> m == m'
  {
    if Pad(m) == Pad(m') {
      var last := |Pad(m)| - 1;
      PadTells(m);
      PadTells(m');
      assert Pad(m)[last] as int == |Pad(m)| - |m| == |Pad(m')| - |m'|;
      assert m == Pad(m)[..|m|] && m' == Pad(m')[..|m'|];
    }
  }

  // ---------- ECB ----------

  function Ecb(f: Block -> Block, data: seq<bv8>): (r: seq<bv8>)
    requires |data| % 16 == 0
    ensures |r| == |data|
    decreases |data|
  {
    if data == [] then [] else f(data[..16]) + Ecb(f, data[16..])
  }

  function BlockAt(data: seq<bv8>, k: nat): (b: Block)
    requires 16 * k + 16 <= |data|
    ensures forall i | 0 <= i < 16 :: b[i] == data[16 * k + i]
  {
    data[16 * k..16 * k + 16]
  }

  lemma EcbStep(f: Block -> Block, b: Block, rest: seq<bv8>)
    requires |rest| % 16 == 0
    ensures Ecb(f, b + rest) == f(b) + Ecb(f, rest)
  {
    assert (b + rest)[..16] == b && (b + rest)[16..] == rest;
  }

  /** Each block is one application of the cipher to the block in the same place. */
  lemma {:induction false} EcbBlocks(f: Block -> Block, data: seq<bv8>, k: nat)
    requires |data| % 16 == 0 && 16 * k + 16 <= |data|
    ensures BlockAt(Ecb(f, data), k) == f(BlockAt(data, k))
    decreases k
  {
    hide *;
    var b: Block, rest := data[..16], data[16..];
    assert data == b + rest;
    EcbStep(f, b, rest);
    if k > 0 {
      EcbBlocks(f, rest, k - 1);
    }
    BlocksBehind(b, rest, k);
    BlocksBehind(f(b), Ecb(f, rest), k);
  }

  lemma BlocksBehind(b: Block, rest: seq<bv8>, k: nat)
    requires 16 * k <= |rest|
    ensures BlockAt(b + rest, k) == if k == 0 then b else BlockAt(rest, k - 1)
  {
    var u, v: seq<bv8> := BlockAt(b + rest, k), if k == 0 then b else BlockAt(rest, k - 1);
    assert u == v;
  }

  lemma {:induction false} EcbInverse(c: Cipher, data: seq<bv8>)
    requires Bijection(c) && |data| % 16 == 0
    ensures Ecb(c.dec, Ecb(c.enc, data)) == data
    decreases |data|
  {
    if data != [] {
      var b: seq<bv8> := c.enc(data[..16]);
      var rest: seq<bv8> := Ecb(c.enc, data[16..]);
      assert (b + rest)[..16] == b && (b + rest)[16..] == rest;
      EcbInverse(c, data[16..]);
      assert c.dec(b) == data[..16];
    }
  }

  function Ciphertext(c: Cipher, m: seq<bv8>): (r: seq<bv8>)
    ensures |r| == 16 * (|m| / 16 + 1)
  {
    PadLength(m);
    Ecb(c.enc, Pad(m))
  }

  lemma CiphertextBlocks(c: Cipher, m: seq<bv8>, k: nat)
    requires k <= |m| / 16
    ensures |Pad(m)| == |Ciphertext(c, m)| == 16 * (|m| / 16 + 1)
    ensures BlockAt(Ciphertext(c, m), k) == c.enc(BlockAt(Pad(m), k))
  {
    PadLength(m);
    EcbBlocks(c.enc, Pad(m), k);
    hide Pad, Ecb;
  }

  function Text(c: Cipher, m: seq<bv8>): seq<bv8> {
    EncodeBlock(Ciphertext(c, m))
  }

  // ---------- decryption ----------

  /** The length of the whole blocks in n bytes. */
  function Whole(n: nat): (k: nat)
    ensures k <= n < k + 16 && k % 16 == 0
  {
    n / 16 * 16
  }

  /** The bytes EVP_DecryptUpdate delivers: whole blocks, all but the last if it ends on a boundary. */
  function DecryptUpdate(c: Cipher, input: seq<bv8>, holdBack: bool): (r: seq<bv8>)
    ensures |r| <= |input|
  {
    var n := Whole(|input|);
    var blocks := Ecb(c.dec, input[..n]);
    if holdBack && |input| == n && n > 0 then blocks[..n - 16] else blocks
  }

  /** So many whole blocks are delivered, each deciphered once. */
  lemma DecryptUpdateBlocks(c: Cipher, input: seq<bv8>, holdBack: bool, k: nat)
    ensures var n, r := |input|, DecryptUpdate(c, input, holdBack);
      && |r| == (if holdBack && n > 0 && n % 16 == 0 then n - 16 else n - n % 16)
      && (16 * k + 16 <= |r| ==> BlockAt(r, k) == c.dec(BlockAt(input, k)))
  {
    var n := Whole(|input|);
    var front, r := input[..n], DecryptUpdate(c, input, holdBack);
    if 16 * k + 16 <= |r| {
      EcbBlocks(c.dec, front, k);
      assert BlockAt(front, k) == BlockAt(input, k);
      assert BlockAt(r, k) == BlockAt(Ecb(c.dec, front), k);
    }
    hide Ecb;
  }

  /** A buffer and the length the caller is told, unless the code leaves its buffer. */
  datatype Result = Plain(buffer: seq<bv8>, len: nat) | OutOfBounds

  /** The last lines of the C function: the last byte is taken off, and a terminator written. */
  function Unpad(buffer: seq<bv8>, outLen: int): Result {
    if !(1 <= outLen <= |buffer|) then OutOfBounds
    else
      var len := outLen - buffer[outLen - 1] as int;
      if !(0 <= len < |buffer|) then OutOfBounds else Plain(buffer[len := 0], len)
  }

  /**
   What the two buffers from malloc and the caller's *outLen hold when decryption begins.  It matters
   because the cipher is fed three quarters of the text's length even if the decoder stripped some of
   the text, and because the code goes on when the text does not decode.
   */
  datatype Before = Before(input: seq<bv8>, output: seq<bv8>, outLen: int)

  ghost predicate Fits(before: Before, src: seq<bv8>) {
    |before.input| == |before.output| == |src|
  }

  /** What the cipher is fed. */
  function Input(src: seq<bv8>, base64: bool, before: Before): (d: Decoded)
    requires Fits(before, src)
    ensures d.Bytes? ==> |d.bytes| <= |src|
  {
    if !base64 then Bytes(src)
    else match DecodeBlock(src)
      case Malformed => Malformed
      case Bytes(b) => Bytes(b + before.input[|b|..|src| * 3 / 4])
  }

  function Decrypt(c: Cipher, src: seq<bv8>, base64: bool, holdBack: bool, before: Before): Result
    requires Fits(before, src)
  {
    match Input(src, base64, before)
    case Malformed => Unpad(before.output, before.outLen)
    case Bytes(b) =>
      var out := DecryptUpdate(c, b, holdBack);
      Unpad(out + before.output[|out|..], |out|)
  }

  /** The result is the message, its length, and a terminator behind it. */
  ghost predicate Recovers(r: Result, m: seq<bv8>) {
    r.Plain? && r.len == |m| && r.len < |r.buffer| && r.buffer[..r.len] == m && r.buffer[r.len] == 0
  }

  /**
   The result is what remains of the first n bytes of the message when the last of them is taken for
   a pad count: a prefix, or an access outside the buffer.
   */
  ghost predicate CutShort(r: Result, m: seq<bv8>, n: nat) {
    && n <= |m|
    && (r.OutOfBounds? <==> n == 0 || n < m[n - 1] as int)
    && (r.Plain? ==>
          && r.len == n - m[n - 1] as int && r.len < |r.buffer|
          && r.buffer[..r.len] == m[..r.len] && r.buffer[r.len] == 0)
  }

  // ---------- what decryption recovers ----------

  lemma UnpadWhole(m: seq<bv8>, rest: seq<bv8>)
    ensures Recovers(Unpad(Pad(m) + rest, |Pad(m)|), m)
  {
    PadLength(m);
    PadTells(m);
    var buffer := Pad(m) + rest;
    assert buffer[|Pad(m)| - 1] == Pad(m)[|Pad(m)| - 1];
    assert buffer[|m| := 0][..|m|] == m;
  }

  /** When only n bytes of the message are there, the byte taken off is a byte of the message. */
  lemma UnpadPrefix(m: seq<bv8>, n: nat, rest: seq<bv8>)
    requires n <= |m| && rest != []
    ensures CutShort(Unpad(m[..n] + rest, n), m, n)
  {
    if n > 0 {
      var buffer := m[..n] + rest;
      assert buffer[n - 1] == m[n - 1];
      ZeroByte(m[n - 1]);
      var len := n - m[n - 1] as int;
      if len >= 0 {
        assert buffer[len := 0][..len] == m[..len];
      }
    }
  }

  /** So the message comes back only if it is all there and ends in a zero byte. */
  lemma CutShortRecovers(r: Result, m: seq<bv8>, n: nat)
    requires CutShort(r, m, n)
    ensures Recovers(r, m) <==> m != [] && n == |m| && m[|m| - 1] == 0
  {
    if n > 0 {
      ZeroByte(m[n - 1]);
    }
  }

  lemma ZeroByte(b: bv8)
    ensures 0 <= b as int < 256
    ensures b as int == 0 <==> b == 0
  {
  }

  /** Whether the input of the cipher ends on a block boundary, which base64's zero bytes may prevent. */
  predicate EndsOnBoundary(m: seq<bv8>, base64: bool) {
    !base64 || (|m| / 16 + 1) % 3 == 0
  }

  predicate EndsInZero(m: seq<bv8>) {
    m != [] && m[|m| - 1] == 0
  }

  function Sent(c: Cipher, m: seq<bv8>, base64: bool): seq<bv8> {
    if base64 then Text(c, m) else Ciphertext(c, m)
  }

  /** What the primitive delivers of the ciphertext and less than a block behind it. */
  lemma Delivered(c: Cipher, m: seq<bv8>, extra: seq<bv8>, holdBack: bool)
    requires Bijection(c) && |extra| < 16
    ensures DecryptUpdate(c, Ciphertext(c, m) + extra, holdBack)
         == if holdBack && extra == [] then m[..Whole(|m|)] else Pad(m)
  {
    var e := Ciphertext(c, m);
    var n := |e|;
    PadLength(m);
    WholeBlocks(|m| / 16 + 1, |extra|);
    assert (e + extra)[..n] == e;
    EcbInverse(c, Pad(m));
    assert Pad(m)[..n - 16] == m[..Whole(|m|)];
    hide Ecb, Pad;
  }

  lemma WholeBlocks(q: nat, k: nat)
    requires k < 16
    ensures Whole(16 * q + k) == 16 * q
  {
  }

  /** The result, when the cipher is fed the ciphertext and less than a block behind it. */
  lemma DecryptOf(c: Cipher, m: seq<bv8>, src: seq<bv8>, base64: bool, extra: seq<bv8>, holdBack: bool, before: Before)
    requires Bijection(c) && Fits(before, src) && |extra| < 16
    requires Input(src, base64, before) == Bytes(Ciphertext(c, m) + extra)
    ensures var r := Decrypt(c, src, base64, holdBack, before);
      if holdBack && extra == [] then CutShort(r, m, Whole(|m|)) else Recovers(r, m)
  {
    Delivered(c, m, extra, holdBack);
    PadLength(m);
    var n := Whole(|m|);
    hide Pad, Ciphertext, DecryptUpdate, Input, Unpad, CutShort, Recovers, Bijection;
    if holdBack && extra == [] {
      UnpadPrefix(m, n, before.output[n..]);
    } else {
      UnpadWhole(m, before.output[|Pad(m)|..]);
    }
  }

  /** The cipher is fed what the decoder wrote, and more of the buffer if the text was longer. */
  lemma Fed(src: seq<bv8>, b: seq<bv8>, before: Before)
    requires Fits(before, src) && DecodeBlock(src) == Bytes(b)
    ensures |b| <= |src| * 3 / 4 <= |src| == |before.input|
    ensures Input(src, true, before) == Bytes(b + before.input[|b|..|src| * 3 / 4])
  {
    hide DecodeBlock;
  }

  /** How many bytes the cipher is fed behind the ciphertext, for that many characters around the text. */
  function Surplus(m: seq<bv8>, around: nat): nat {
    Fill(16 * (|m| / 16 + 1)) + around * 3 / 4
  }

  lemma SurplusOfText(m: seq<bv8>)
    ensures Surplus(m, 0) < 3 && (Surplus(m, 0) == 0 <==> EndsOnBoundary(m, true))
  {
  }

  lemma ThreeQuarters(n: nat, around: nat)
    ensures (4 * ((n + 2) / 3) + around) * 3 / 4 == n + Fill(n) + around * 3 / 4
  {
    assert (4 * ((n + 2) / 3) + around) * 3 == 4 * (3 * ((n + 2) / 3)) + around * 3;
  }

  lemma FedLength(c: Cipher, m: seq<bv8>, around: nat)
    ensures Text(c, m) == EncodeBlock(Ciphertext(c, m))
    ensures (|Text(c, m)| + around) * 3 / 4 == |Ciphertext(c, m)| + Surplus(m, around)
    ensures Surplus(m, around) == Fill(|Ciphertext(c, m)|) + around * 3 / 4
  {
    var n := |Ciphertext(c, m)|;
    ThreeQuarters(n, around);
    hide Ciphertext, Fill;
  }

  /** White space and line ends around the text add bytes of the buffer behind the ciphertext. */
  lemma InputSurrounded(c: Cipher, m: seq<bv8>, front: seq<bv8>, back: seq<bv8>, before: Before) returns (extra: seq<bv8>)
    requires Blanks(front) && Trailers(back) && Fits(before, front + Text(c, m) + back)
    ensures Input(front + Text(c, m) + back, true, before) == Bytes(Ciphertext(c, m) + extra)
    ensures |extra| == Surplus(m, |front| + |back|)
  {
    hide *;
    var src, e := front + Text(c, m) + back, Ciphertext(c, m);
    var zeros := Zeros(Fill(|e|));
    FedLength(c, m, |front| + |back|);
    DecodeSurrounded(front, e, back);
    Fed(src, e + zeros, before);
    var more := before.input[|e + zeros|..|src| * 3 / 4];
    extra := zeros + more;
    assert e + zeros + more == e + extra;
  }

  /** What reaches the cipher: the ciphertext and at most two zero bytes. */
  lemma InputOfSent(c: Cipher, m: seq<bv8>, base64: bool, before: Before) returns (extra: seq<bv8>)
    requires Fits(before, Sent(c, m, base64))
    ensures Input(Sent(c, m, base64), base64, before) == Bytes(Ciphertext(c, m) + extra)
    ensures |extra| < 3 && (extra == [] <==> EndsOnBoundary(m, base64))
  {
    if base64 {
      var text := Text(c, m);
      assert [] + text + [] == text && Sent(c, m, base64) == text;
      assert Blanks([]) && Trailers([]);
      hide *;
      SurplusOfText(m);
      extra := InputSurrounded(c, m, [], [], before);
    } else {
      extra := [];
      assert Ciphertext(c, m) + [] == Ciphertext(c, m);
    }
  }

  /** What decryption makes of what was sent, in every case. */
  lemma DecryptOfSent(c: Cipher, m: seq<bv8>, base64: bool, holdBack: bool, before: Before)
    requires Bijection(c) && Fits(before, Sent(c, m, base64))
    ensures var r := Decrypt(c, Sent(c, m, base64), base64, holdBack, before);
      if holdBack && EndsOnBoundary(m, base64) then CutShort(r, m, Whole(|m|)) else Recovers(r, m)
  {
    hide *;
    var extra := InputOfSent(c, m, base64, before);
    DecryptOf(c, m, Sent(c, m, base64), base64, extra, holdBack, before);
  }

  /**
   The round trip, in both modes, with the primitive as the code uses it: it succeeds exactly when
   the cipher's input does not end on a block boundary, or the message itself ends on one with a
   zero byte.
   */
  lemma RoundTrip(c: Cipher, m: seq<bv8>, base64: bool, before: Before)
    requires Bijection(c) && Fits(before, Sent(c, m, base64))
    ensures Recovers(Decrypt(c, Sent(c, m, base64), base64, true, before), m)
      <==> !EndsOnBoundary(m, base64) || (EndsInZero(m) && |m| % 16 == 0)
  {
    DecryptOfSent(c, m, base64, true, before);
    WholeMessage(m);
    hide Recovers, CutShort, Decrypt, Fits, Sent, EndsOnBoundary, Bijection;
    if EndsOnBoundary(m, base64) {
      CutShortRecovers(Decrypt(c, Sent(c, m, base64), base64, true, before), m, Whole(|m|));
    }
  }

  lemma WholeMessage(m: seq<bv8>)
    ensures Whole(|m|) == |m| <==> |m| % 16 == 0
  {
  }

  /** What it yields instead: a prefix whose length depends on a message byte, or an access outside the buffer. */
  lemma HeldBackResult(c: Cipher, m: seq<bv8>, base64: bool, before: Before)
    requires Bijection(c) && Fits(before, Sent(c, m, base64)) && EndsOnBoundary(m, base64)
    ensures CutShort(Decrypt(c, Sent(c, m, base64), base64, true, before), m, Whole(|m|))
  {
    hide *;
    DecryptOfSent(c, m, base64, true, before);
  }

  /** With a primitive that returns every whole block, every message comes back. */
  lemma RoundTripWithoutHoldBack(c: Cipher, m: seq<bv8>, base64: bool, before: Before)
    requires Bijection(c) && Fits(before, Sent(c, m, base64))
    ensures Recovers(Decrypt(c, Sent(c, m, base64), base64, false, before), m)
  {
    hide *;
    DecryptOfSent(c, m, base64, false, before);
  }

  /** A message that does not come back: 32 times the letter a, in base64 mode. */
  lemma LostMessage(c: Cipher, before: Before)
    requires Bijection(c) && Fits(before, Text(c, seq(32, _ => 97)))
    ensures Decrypt(c, Text(c, seq(32, _ => 97)), true, true, before).OutOfBounds?
  {
    var m: seq<bv8> := seq(32, _ => 97);
    assert |m| == 32 && m[31] == 97 && EndsOnBoundary(m, true);
    assert Sent(c, m, true) == Text(c, m);
    hide Decrypt, Text, Fits;
    HeldBackResult(c, m, true, before);
  }

  // ---------- texts that are not quite what was sent ----------

  /**
   White space in front, and line ends, white space and dashes behind, are stripped before decoding
   but counted when the cipher is fed: it gets as many more bytes of the input buffer.  Up to 15 in
   all the message comes back, even where the bare text would end on a boundary.
   */
  lemma RoundTripSurrounded(c: Cipher, m: seq<bv8>, front: seq<bv8>, back: seq<bv8>, before: Before)
    requires Bijection(c) && Blanks(front) && Trailers(back)
    requires Fits(before, front + Text(c, m) + back)
    requires Surplus(m, |front| + |back|) < 16
    ensures Recovers(Decrypt(c, front + Text(c, m) + back, true, true, before), m)
      <==> Surplus(m, |front| + |back|) > 0 || (EndsInZero(m) && |m| % 16 == 0)
  {
    WholeMessage(m);
    hide Recovers, CutShort, Decrypt, Fits, Text, Ciphertext, Bijection, Blanks, Trailers, Surplus, Input;
    var extra := InputSurrounded(c, m, front, back, before);
    var src := front + Text(c, m) + back;
    DecryptOf(c, m, src, true, extra, true, before);
    if extra == [] {
      CutShortRecovers(Decrypt(c, src, true, true, before), m, Whole(|m|));
    }
  }

  lemma {:induction false} EcbFront(f: Block -> Block, data: seq<bv8>, k: nat)
    requires |data| % 16 == 0 && 16 * k <= |data|
    ensures Ecb(f, data)[..16 * k] == Ecb(f, data[..16 * k])
    decreases k
  {
    if k > 0 {
      var front := data[..16 * k];
      EcbFront(f, data[16..], k - 1);
      assert front[..16] == data[..16] && front[16..] == data[16..][..16 * (k - 1)];
      var b: seq<bv8> := f(data[..16]);
      assert (b + Ecb(f, data[16..]))[..16 * k] == b + Ecb(f, data[16..])[..16 * (k - 1)];
    }
  }

  /** How many bytes arrive when the cipher is fed three quarters of q ciphertext blocks. */
  function Arriving(q: nat): (n: nat)
    ensures n % 16 == 0
  {
    if q > 0 && q % 4 == 0 then 12 * q - 16 else Whole(12 * q)
  }

  /** The whole blocks of a front of the ciphertext are those of the message. */
  lemma FrontOfMessage(c: Cipher, m: seq<bv8>, k: nat)
    requires Bijection(c) && k <= |m| / 16
    ensures 16 * k <= |m|
    ensures Ecb(c.dec, Ciphertext(c, m)[..16 * k]) == m[..16 * k]
  {
    PadLength(m);
    EcbFront(c.dec, Ciphertext(c, m), k);
    EcbInverse(c, Pad(m));
    assert Pad(m)[..16 * k] == m[..16 * k];
  }

  lemma DeliveredFront(c: Cipher, m: seq<bv8>)
    requires Bijection(c)
    ensures var q := |m| / 16 + 1;
      && Arriving(q) <= |m|
      && DecryptUpdate(c, Ciphertext(c, m)[..12 * q], true) == m[..Arriving(q)]
  {
    var q := |m| / 16 + 1;
    var e, k := Ciphertext(c, m), 12 * q / 16;
    QuarterBlocks(q);
    FrontOfMessage(c, m, k);
    hide Ciphertext, Ecb, Bijection;
    assert e[..12 * q][..16 * k] == e[..16 * k];
  }

  lemma QuarterBlocks(q: nat)
    requires q > 0
    ensures var k := 12 * q / 16;
      k < q && Whole(12 * q) == 16 * k && (12 * q == 16 * k <==> q % 4 == 0)
  {
  }

  /**
   The comment on the encryption invites its caller to pass *outLen on as the length of the text.
   The cipher is then fed three quarters of the ciphertext, and the message comes back only if it
   has 16 or 32 bytes and ends in a zero byte; a C string never does.
   */
  lemma RoundTripByOutLen(c: Cipher, m: seq<bv8>, before: Before)
    requires Bijection(c) && |before.input| == |before.output| == |Ciphertext(c, m)|
    ensures |Ciphertext(c, m)| <= |Text(c, m)|
    ensures var r := Decrypt(c, Text(c, m)[..|Ciphertext(c, m)|], true, true, before);
      && CutShort(r, m, Arriving(|m| / 16 + 1))
      && (Recovers(r, m) <==> EndsInZero(m) && (|m| == 16 || |m| == 32))
  {
    ArrivingWhole(m);
    assert EndsInZero(m) <==> m != [] && m[|m| - 1] == 0;
    hide *;
    var src := InputByOutLen(c, m, before);
    var n := Arriving(|m| / 16 + 1);
    UnpadPrefix(m, n, before.output[n..]);
    CutShortRecovers(Decrypt(c, src, true, true, before), m, n);
  }

  lemma InputByOutLen(c: Cipher, m: seq<bv8>, before: Before) returns (src: seq<bv8>)
    requires Bijection(c) && |before.input| == |before.output| == |Ciphertext(c, m)|
    ensures |Ciphertext(c, m)| <= |Text(c, m)| && src == Text(c, m)[..|Ciphertext(c, m)|]
    ensures var n := Arriving(|m| / 16 + 1);
      && Fits(before, src) && n <= |m| && before.output[n..] != []
      && Decrypt(c, src, true, true, before) == Unpad(m[..n] + before.output[n..], n)
  {
    var q := |m| / 16 + 1;
    src := FrontOfText(c, m);
    assert Fits(before, src) && |m| < 16 * q == |before.output|;
    var b := Ciphertext(c, m)[..12 * q];
    hide *;
    Fed(src, b, before);
    assert b + before.input[12 * q..12 * q] == b;
    DeliveredFront(c, m);
    Decrypted(c, src, b, before);
  }

  lemma Quarters(q: nat)
    ensures 16 * q * 3 / 4 == 12 * q == 3 * (4 * q) && 4 * (4 * q) == 16 * q && 12 * q <= 16 * q
  {
  }

  lemma FrontOfText(c: Cipher, m: seq<bv8>) returns (src: seq<bv8>)
    ensures var e, q := Ciphertext(c, m), |m| / 16 + 1;
      && |src| == |e| <= |Text(c, m)| && src == Text(c, m)[..|e|]
      && |src| * 3 / 4 == 12 * q <= |e|
      && DecodeBlock(src) == Bytes(e[..12 * q])
  {
    var q, e := |m| / 16 + 1, Ciphertext(c, m);
    assert Text(c, m) == EncodeBlock(e) && |e| == 16 * q;
    hide *;
    DecodeCut(e, 4 * q);
    Quarters(q);
    src := EncodeBlock(e)[..16 * q];
  }

  lemma Decrypted(c: Cipher, src: seq<bv8>, b: seq<bv8>, before: Before)
    requires Fits(before, src) && Input(src, true, before) == Bytes(b)
    ensures var out := DecryptUpdate(c, b, true);
      && |out| <= |before.output|
      && Decrypt(c, src, true, true, before) == Unpad(out + before.output[|out|..], |out|)
  {
    hide DecryptUpdate, Unpad, Input;
  }

  lemma ArrivingWhole(m: seq<bv8>)
    ensures Arriving(|m| / 16 + 1) == |m| && m != [] <==> |m| == 16 || |m| == 32
  {
  }

  /** The text and its terminator fit in the buffer of twice the ciphertext's length. */
  lemma TextFits(c: Cipher, m: seq<bv8>)
    ensures |Text(c, m)| + 1 <= 2 * |Ciphertext(c, m)|
    ensures |Text(c, m)| > |Ciphertext(c, m)|
  {
  }
}
