/** The two functions of `src/encrypt.c`, on buffers, proved to compute what module Encrypt says. */
module EncryptBuffers {
  import opened Base64
  import opened Encrypt
  import opened Memory

  // ---------- the OpenSSL primitives they call ----------

  method EvpEncryptUpdate(c: Cipher, out: array<bv8>, input: array<bv8>, inl: nat) returns (outl: nat)
    requires inl % 16 == 0 && inl <= out.Length && inl <= input.Length && out != input
    modifies out
    ensures outl == inl && out[..] == Written(old(out[..]), 0, Ecb(c.enc, input[..inl]))
  {
    Store(out, 0, Ecb(c.enc, input[..inl]));
    outl := inl;
  }

  method EvpDecryptUpdate(c: Cipher, holdBack: bool, out: array<bv8>, input: array<bv8>, inl: nat)
    returns (outl: nat)
    requires inl <= out.Length && inl <= input.Length && out != input
    modifies out
    ensures outl == |DecryptUpdate(c, input[..inl], holdBack)|
    ensures out[..] == Written(old(out[..]), 0, DecryptUpdate(c, input[..inl], holdBack))
    ensures outl == if holdBack && inl > 0 && inl % 16 == 0 then inl - 16 else inl - inl % 16
    ensures forall k: nat | 16 * k + 16 <= outl :: BlockAt(out[..], k) == c.dec(BlockAt(input[..], k))
  {
    var r := DecryptUpdate(c, input[..inl], holdBack);
    DecryptUpdateBlocks(c, input[..inl], holdBack, 0);
    hide DecryptUpdate, Written;
    forall k: nat | 16 * k + 16 <= |r|
      ensures BlockAt(Written(out[..], 0, r), k) == c.dec(BlockAt(input[..], k))
    {
      WrittenBytes(out[..], 0, r);
      DecryptUpdateBlocks(c, input[..inl], holdBack, k);
      assert BlockAt(input[..inl], k) == BlockAt(input[..], k);
      assert BlockAt(Written(out[..], 0, r), k) == BlockAt(r, k);
    }
    Store(out, 0, r);
    outl := |r|;
  }

  /** The text and a terminator. */
  method EvpEncodeBlock(res: array<bv8>, data: array<bv8>, n: nat)
    requires n <= data.Length && |EncodeBlock(data[..n])| < res.Length && res != data
    modifies res
    ensures res[..] == Written(old(res[..]), 0, EncodeBlock(data[..n]) + [0])
  {
    Store(res, 0, EncodeBlock(data[..n]) + [0]);
  }

  method EvpDecodeBlock(buffer: array<bv8>, text: array<bv8>, n: nat) returns (len: int)
    requires n <= text.Length && n <= buffer.Length && buffer != text
    modifies buffer
    ensures match DecodeBlock(text[..n])
      case Malformed => len == -1
      case Bytes(b) => len == |b| && buffer[..] == Written(old(buffer[..]), 0, b)
  {
    var d := DecodeBlock(text[..n]);
    hide DecodeBlock;
    match d
    case Malformed =>
      len := -1;
    case Bytes(b) =>
      Store(buffer, 0, b);
      len := |b|;
  }

  // ---------- encryption ----------

  lemma BlockCount(srcLen: nat)
    ensures 16 * (srcLen / 16 + 1) == srcLen + PadCount(srcLen)
  {
  }

  /** memset with the padding value, then memcpy of the message over it. */
  lemma PaddedInput(was: seq<bv8>, m: seq<bv8>)
    requires |was| == |m| + PadCount(|m|)
    ensures Written(Written(was, 0, seq(|was|, _ => PadCount(|m|) as bv8)), 0, m) == Pad(m)
  {
    hide PadCount;
  }

  lemma WrittenWhole(was: seq<bv8>, b: seq<bv8>)
    requires |was| == |b|
    ensures Written(was, 0, b) == b
  {
  }

  lemma CiphertextMeaning(c: Cipher, m: seq<bv8>)
    ensures |Pad(m)| % 16 == 0 && Ciphertext(c, m) == Ecb(c.enc, Pad(m))
  {
    PadLength(m);
  }

  lemma TextInBuffer(was: seq<bv8>, c: Cipher, m: seq<bv8>)
    requires |was| == 2 * |Ciphertext(c, m)|
    ensures |Text(c, m)| < |was| && Text(c, m) == EncodeBlock(Ciphertext(c, m))
    ensures CString(Written(was, 0, Text(c, m) + [0])) == Text(c, m)
  {
    TextFits(c, m);
    EncodingHasNoZero(Ciphertext(c, m));
    var text := Text(c, m);
    assert text == EncodeBlock(Ciphertext(c, m)) && 0 !in text;
    hide Ciphertext, Text;
    var rest := [0] + was[|text| + 1..];
    assert Written(was, 0, text + [0]) == text + rest;
    CStringPrefix(text, rest);
  }

  /** The first half: the message, padded, in a buffer of its own. */
  method PaddedBuffer(src: array<bv8>, srcLen: nat) returns (input: array<bv8>)
    requires srcLen <= src.Length
    ensures fresh(input) && input[..] == Pad(src[..srcLen])
  {
    var quotient := srcLen / AES_BLOCK_SIZE;
    var mod := srcLen % AES_BLOCK_SIZE;
    var blockCount := quotient + 1;
    var padding := AES_BLOCK_SIZE - mod;
    BlockCount(srcLen);
    assert padding == PadCount(srcLen);
    hide Written, Pad, PadCount;
    input := new bv8[AES_BLOCK_SIZE * blockCount];
    PaddedInput(input[..], src[..srcLen]);
    Memset(input, 0, padding as bv8, AES_BLOCK_SIZE * blockCount);
    Memcpy(input, 0, src, 0, srcLen);
  }

  /** The second half: the whole input encrypted into a cleared buffer. */
  method CipherBuffer(c: Cipher, input: array<bv8>) returns (out: array<bv8>, outLen: nat)
    requires input.Length % 16 == 0
    ensures fresh(out) && out[..] == Ecb(c.enc, input[..]) && outLen == out.Length == input.Length
    ensures forall k: nat | 16 * k + 16 <= outLen :: BlockAt(out[..], k) == c.enc(BlockAt(input[..], k))
  {
    var size := input.Length;
    assert input[..size] == input[..];
    hide Written, Ecb;
    out := new bv8[size];
    Memset(out, 0, 0, size);
    WrittenWhole(out[..], Ecb(c.enc, input[..]));
    outLen := EvpEncryptUpdate(c, out, input, size);
    forall k: nat | 16 * k + 16 <= outLen ensures BlockAt(out[..], k) == c.enc(BlockAt(input[..], k)) {
      EcbBlocks(c.enc, input[..], k);
    }
  }

  /**
   AES_ECB_PKCS5_Encrypt.  In base64 mode the buffer holds the text as a C string, and outLen is
   still the length of the ciphertext, not of the text.
   */
  method AesEcbPkcs5Encrypt(src: array<bv8>, srcLen: nat, c: Cipher, base64: bool)
    returns (res: array<bv8>, outLen: nat)
    requires srcLen <= src.Length
    ensures fresh(res)
    ensures outLen == |Ciphertext(c, src[..srcLen])|
    ensures !base64 ==> res[..] == Ciphertext(c, src[..srcLen])
    ensures base64 ==> res.Length == 2 * outLen && CString(res[..]) == EncodeBlock(Ciphertext(c, src[..srcLen]))
  {
    ghost var m := src[..srcLen];
    CiphertextMeaning(c, m);
    hide *;
    var input := PaddedBuffer(src, srcLen);
    var out;
    out, outLen := CipherBuffer(c, input);
    assert out[..outLen] == out[..];
    if base64 {
      res := new bv8[outLen * 2];
      TextInBuffer(res[..], c, m);
      EvpEncodeBlock(res, out, outLen);
    } else {
      res := out;
    }
  }

  // ---------- decryption ----------

  /** The last lines: the byte in front of outLen is taken off, and a terminator written. */
  method UnpadInPlace(out: array<bv8>, outLen0: int) returns (ok: bool, outLen: int)
    modifies out
    ensures match Unpad(old(out[..]), outLen0)
      case OutOfBounds => !ok
      case Plain(buffer, len) => ok && out[..] == buffer && outLen == len
    ensures ok <==>
      && 1 <= outLen0 <= out.Length
      && 0 <= outLen0 - old(out[..])[outLen0 - 1] as int < out.Length
    ensures ok ==>
      && outLen == outLen0 - old(out[..])[outLen0 - 1] as int
      && out[..] == old(out[..])[outLen := 0]
  {
    ok, outLen := false, outLen0;
    if 1 <= outLen <= out.Length {
      var unpadding := out[outLen - 1] as int;
      outLen := outLen - unpadding;
      if 0 <= outLen < out.Length {
        out[outLen] := 0;
        ok := true;
      }
    }
  }

  /**
   AES_ECB_PKCS5_Decrypt.  `before` is what malloc hands out for the two buffers, and the caller's
   *outLen; `ok` is false where the C code would read or write outside the output buffer.
   */
  method AesEcbPkcs5Decrypt(src: array<bv8>, srcLen: nat, c: Cipher, base64: bool, holdBack: bool, before: Before)
    returns (ok: bool, out: array<bv8>, outLen: int)
    requires srcLen <= src.Length && Fits(before, src[..srcLen])
    ensures fresh(out) && out.Length == srcLen
    ensures match Decrypt(c, src[..srcLen], base64, holdBack, before)
      case OutOfBounds => !ok
      case Plain(buffer, len) => ok && out[..] == buffer && outLen == len
  {
    var input := new bv8[srcLen](i requires 0 <= i < srcLen => before.input[i]);
    out := new bv8[srcLen](i requires 0 <= i < srcLen => before.output[i]);
    assert input[..] == before.input && out[..] == before.output;
    ghost var text := src[..srcLen];
    DecryptCases(c, text, base64, holdBack, before);
    hide *;
    outLen := before.outLen;
    if base64 {
      var textlen := EvpDecodeBlock(input, src, srcLen);
      if textlen >= 0 {
        outLen := EvpDecryptUpdate(c, holdBack, out, input, srcLen * 3 / 4);
      }
      assert Decrypt(c, text, base64, holdBack, before) == Unpad(out[..], outLen);
    } else {
      outLen := EvpDecryptUpdate(c, holdBack, out, src, srcLen);
      assert Decrypt(c, text, base64, holdBack, before) == Unpad(out[..], outLen);
    }
    ok, outLen := UnpadInPlace(out, outLen);
  }

  lemma WrittenFront(was: seq<bv8>, b: seq<bv8>, n: nat)
    requires |b| <= n <= |was|
    ensures Written(was, 0, b) == b + was[|b|..]
    ensures Written(was, 0, b)[..n] == b + was[|b|..n]
  {
  }

  /** The three ways through the function, as what they leave in the buffers. */
  lemma DecryptCases(c: Cipher, src: seq<bv8>, base64: bool, holdBack: bool, before: Before)
    requires Fits(before, src)
    ensures base64 && DecodeBlock(src).Malformed? ==>
      Decrypt(c, src, base64, holdBack, before) == Unpad(before.output, before.outLen)
    ensures base64 && DecodeBlock(src).Bytes? ==>
      var fed := Written(before.input, 0, DecodeBlock(src).bytes)[..|src| * 3 / 4];
      var out := DecryptUpdate(c, fed, holdBack);
      Decrypt(c, src, base64, holdBack, before) == Unpad(Written(before.output, 0, out), |out|)
    ensures !base64 ==>
      var out := DecryptUpdate(c, src, holdBack);
      Decrypt(c, src, base64, holdBack, before) == Unpad(Written(before.output, 0, out), |out|)
  {
    hide DecryptUpdate, Unpad, DecodeBlock, Written;
    var fed := Input(src, base64, before);
    if base64 && fed.Bytes? {
      WrittenFront(before.input, DecodeBlock(src).bytes, |src| * 3 / 4);
    }
    if fed.Bytes? {
      WrittenFront(before.output, DecryptUpdate(c, fed.bytes, holdBack), |before.output|);
    }
  }
}
