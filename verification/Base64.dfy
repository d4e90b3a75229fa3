/**
 Base64 as section 4 of RFC 4648 defines it, over bytes, with the habits of the block functions that
 `src/encrypt.c` calls: the encoder appends a terminator (see module EncryptBuffers); the decoder
 strips white space in front and line ends, white space and dashes behind, and treats a padding
 character as six zero bits, so it always returns three bytes for four characters.
 */
module Base64 {

  datatype Decoded = Malformed | Bytes(bytes: seq<bv8>)

  const PAD: bv8 := 61

  function Letter(six: bv8): bv8 {
    if six < 26 then six + 65
    else if six < 52 then six + 71
    else if six < 62 then six - 4
    else if six == 62 then 43
    else 47
  }

  predicate IsLetter(c: bv8) {
    65 <= c <= 90 || 97 <= c <= 122 || 48 <= c <= 57 || c == 43 || c == 47
  }

  /** The six bits of a character; a padding character counts as zero. */
  function Sextet(c: bv8): bv8 {
    if 65 <= c <= 90 then c - 65
    else if 97 <= c <= 122 then c - 71
    else if 48 <= c <= 57 then c + 4
    else if c == 43 then 62
    else if c == 47 then 63
    else 0
  }

  function Quad(a: bv8, b: bv8, c: bv8): (q: seq<bv8>)
    ensures |q| == 4
  {
    [Letter(a >> 2), Letter(((a & 3) << 4) | (b >> 4)), Letter(((b & 15) << 2) | (c >> 6)), Letter(c & 63)]
  }

  function EncodeBlock(data: seq<bv8>): (text: seq<bv8>)
    ensures |text| == 4 * ((|data| + 2) / 3)
  {
    if data == [] then []
    else if |data| == 1 then Quad(data[0], 0, 0)[..2] + [PAD, PAD]
    else if |data| == 2 then Quad(data[0], data[1], 0)[..3] + [PAD]
    else Quad(data[0], data[1], data[2]) + EncodeBlock(data[3..])
  }

  function Triple(q: seq<bv8>): (t: seq<bv8>)
    requires |q| == 4
    ensures |t| == 3
  {
    var s0, s1, s2, s3 := Sextet(q[0]), Sextet(q[1]), Sextet(q[2]), Sextet(q[3]);
    [(s0 << 2) | (s1 >> 4), (s1 << 4) | (s2 >> 2), (s2 << 6) | s3]
  }

  function Triples(text: seq<bv8>): (data: seq<bv8>)
    requires |text| % 4 == 0
    ensures |data| == |text| / 4 * 3
  {
    if text == [] then [] else Triple(text[..4]) + Triples(text[4..])
  }

  predicate Wellformed(text: seq<bv8>) {
    forall i | 0 <= i < |text| :: IsLetter(text[i]) || text[i] == PAD
  }

  // ---------- table 1 of RFC 4648 ----------

  /** The letters for 0 to 63 are A to Z, a to z, 0 to 9, + and /, and the padding character is =. */
  lemma Alphabet(k: bv8)
    ensures k < 26 ==> Letter(k) == 'A' as bv8 + k
    ensures 26 <= k < 52 ==> Letter(k) == 'a' as bv8 + (k - 26)
    ensures 52 <= k < 62 ==> Letter(k) == '0' as bv8 + (k - 52)
    ensures Letter(62) == '+' as bv8 && Letter(63) == '/' as bv8 && PAD == '=' as bv8
  {
  }

  /** No other byte is a letter, and each letter is read back as the value it stands for. */
  lemma LettersAre(c: bv8)
    ensures IsLetter(c) ==> Sextet(c) < 64 && Letter(Sextet(c)) == c
    ensures Sextet(61) == 0 && !IsLetter(61)
  {
  }

  // ---------- what the decoder strips ----------

  lemma StrippedCharacters(c: bv8)
    ensures IsBlank(c) <==> c == ' ' as bv8 || c == '\t' as bv8
    ensures IsTrailer(c) <==> IsBlank(c) || c == '\n' as bv8 || c == '\r' as bv8 || c == '-' as bv8
  {
  }

  predicate IsBlank(c: bv8) {
    c == 9 || c == 32
  }

  predicate IsTrailer(c: bv8) {
    c == 9 || c == 10 || c == 13 || c == 32 || c == 45
  }

  function TrimFront(text: seq<bv8>): (t: seq<bv8>)
    ensures |t| <= |text|
  {
    if text != [] && IsBlank(text[0]) then TrimFront(text[1..]) else text
  }

  function TrimBack(text: seq<bv8>): (t: seq<bv8>)
    ensures |t| <= |text|
  {
    if |text| > 3 && IsTrailer(text[|text| - 1]) then TrimBack(text[..|text| - 1]) else text
  }

  function Trim(text: seq<bv8>): (t: seq<bv8>)
    ensures |t| <= |text|
  {
    TrimBack(TrimFront(text))
  }

  function DecodeBlock(text: seq<bv8>): (d: Decoded)
    ensures d.Bytes? ==> |d.bytes| <= |text| * 3 / 4
  {
    var t := Trim(text);
    if |t| % 4 == 0 && Wellformed(t)
    then Bytes(Triples(t))
    else Malformed
  }

  ghost predicate Blanks(s: seq<bv8>) {
    forall c | c in s :: IsBlank(c)
  }

  ghost predicate Trailers(s: seq<bv8>) {
    forall c | c in s :: IsTrailer(c)
  }

  lemma {:induction false} FrontTrimmed(front: seq<bv8>, text: seq<bv8>)
    requires Blanks(front) && (text == [] || !IsBlank(text[0]))
    ensures TrimFront(front + text) == text
  {
    if front == [] {
      assert front + text == text;
    } else {
      assert front[0] in front && (front + text)[1..] == front[1..] + text;
      FrontTrimmed(front[1..], text);
    }
  }

  lemma {:induction false} BackTrimmed(text: seq<bv8>, back: seq<bv8>)
    requires Trailers(back) && |text| >= 3 && !IsTrailer(text[|text| - 1])
    ensures TrimBack(text + back) == text
  {
    if back == [] {
      assert text + back == text;
    } else {
      var n := |back| - 1;
      assert back[n] in back && (text + back)[..|text| + n] == text + back[..n];
      BackTrimmed(text, back[..n]);
    }
  }

  lemma NotTrimmed(c: bv8)
    requires IsLetter(c) || c == PAD
    ensures !IsBlank(c) && !IsTrailer(c)
  {
  }

  lemma {:induction false} TrimFrontMeaning(text: seq<bv8>) returns (front: seq<bv8>)
    ensures text == front + TrimFront(text) && Blanks(front)
    ensures TrimFront(text) == [] || !IsBlank(TrimFront(text)[0])
  {
    hide IsBlank;
    if text != [] && IsBlank(text[0]) {
      front := TrimFrontMeaning(text[1..]);
      front := [text[0]] + front;
    } else {
      front := [];
    }
  }

  lemma {:induction false} TrimBackMeaning(text: seq<bv8>) returns (back: seq<bv8>)
    ensures text == TrimBack(text) + back && Trailers(back)
    ensures var t := TrimBack(text);
      (back == [] || |t| >= 3) && (|t| <= 3 || !IsTrailer(t[|t| - 1]))
  {
    hide IsTrailer;
    var n := |text| - 1;
    if |text| > 3 && IsTrailer(text[n]) {
      back := TrimBackMeaning(text[..n]);
      back := back + [text[n]];
    } else {
      back := [];
    }
  }

  /**
   What is decoded is what is left when nothing more can be stripped: no white space in front, and
   behind nothing that may go as long as more than three characters remain.
   */
  lemma TrimMeaning(text: seq<bv8>) returns (front: seq<bv8>, back: seq<bv8>)
    ensures var t := Trim(text);
      && text == front + t + back && Blanks(front) && Trailers(back)
      && (t + back == [] || !IsBlank((t + back)[0]))
      && (back == [] || |t| >= 3) && (|t| <= 3 || !IsTrailer(t[|t| - 1]))
  {
    assert Trim(text) == TrimBack(TrimFront(text));
    hide *;
    front := TrimFrontMeaning(text);
    back := TrimBackMeaning(TrimFront(text));
    assert front + (Trim(text) + back) == front + Trim(text) + back;
  }

  /** The decoder refuses what does not come in fours of letters and padding characters. */
  lemma Refused(text: seq<bv8>)
    ensures var t := Trim(text);
      DecodeBlock(text).Malformed? <==> |t| % 4 != 0 || exists i :: 0 <= i < |t| && !IsLetter(t[i]) && t[i] != '=' as bv8
  {
    hide Trim, IsLetter, Triples;
  }

  /** Around a text the decoder strips exactly what is not base64. */
  lemma TrimmedText(front: seq<bv8>, text: seq<bv8>, back: seq<bv8>)
    requires Blanks(front) && Trailers(back) && Wellformed(text) && |text| >= 4
    ensures Trim(front + text + back) == text
  {
    NotTrimmed(text[0]);
    NotTrimmed(text[|text| - 1]);
    hide IsLetter, IsBlank, IsTrailer;
    assert front + text + back == front + (text + back);
    FrontTrimmed(front, text + back);
    BackTrimmed(text, back);
  }

  lemma LetterSextet(six: bv8)
    requires six < 64
    ensures IsLetter(Letter(six)) && Sextet(Letter(six)) == six
  {
  }

  lemma SextetsFit(a: bv8, b: bv8, c: bv8)
    ensures a >> 2 < 64 && ((a & 3) << 4) | (b >> 4) < 64 && ((b & 15) << 2) | (c >> 6) < 64 && c & 63 < 64
  {
  }

  lemma TripleOfLetters(s0: bv8, s1: bv8, s2: bv8, s3: bv8)
    requires s0 < 64 && s1 < 64 && s2 < 64 && s3 < 64
    ensures var q := [Letter(s0), Letter(s1), Letter(s2), Letter(s3)];
      && Triple(q) == [(s0 << 2) | (s1 >> 4), (s1 << 4) | (s2 >> 2), (s2 << 6) | s3]
      && forall i | 0 <= i < 4 :: IsLetter(q[i])
  {
    LetterSextet(s0);
    LetterSextet(s1);
    LetterSextet(s2);
    LetterSextet(s3);
    hide Letter, Sextet, IsLetter;
  }

  lemma QuadTriple(a: bv8, b: bv8, c: bv8)
    ensures Triple(Quad(a, b, c)) == [a, b, c]
    ensures forall i | 0 <= i < 4 :: IsLetter(Quad(a, b, c)[i])
  {
    hide Letter, Triple, IsLetter;
    SextetsFit(a, b, c);
    TripleOfLetters(a >> 2, ((a & 3) << 4) | (b >> 4), ((b & 15) << 2) | (c >> 6), c & 63);
    Reassemble(a, b, c);
  }

  lemma Reassemble(a: bv8, b: bv8, c: bv8)
    ensures ((a >> 2) << 2) | ((((a & 3) << 4) | (b >> 4)) >> 4) == a
    ensures ((((a & 3) << 4) | (b >> 4)) << 4) | ((((b & 15) << 2) | (c >> 6)) >> 2) == b
    ensures ((((b & 15) << 2) | (c >> 6)) << 6) | (c & 63) == c
  {
  }

  /** A padding character carries what the letter for zero carries. */
  lemma PaddedTriple(q: seq<bv8>, n: nat)
    requires |q| == 4 && n <= 4 && forall i | n <= i < 4 :: Sextet(q[i]) == 0
    ensures Triple(q[..n] + seq(4 - n, _ => PAD)) == Triple(q)
  {
    var r := q[..n] + seq(4 - n, _ => PAD);
    assert Sextet(PAD) == 0;
    forall i | 0 <= i < 4 ensures Sextet(r[i]) == Sextet(q[i]) {
    }
    hide Sextet;
  }

  /** How many zero bytes the decoder appends. */
  function Fill(n: nat): nat {
    (3 - n % 3) % 3
  }

  function Zeros(n: nat): seq<bv8> {
    seq(n, _ => 0)
  }

  /** The last, incomplete group of an encoding. */
  lemma PartialGroup(data: seq<bv8>)
    requires |data| == 1 || |data| == 2
    ensures var text := EncodeBlock(data);
      |text| == 4 && Wellformed(text) && Triple(text) == data + Zeros(3 - |data|)
  {
    var a, b := data[0], if |data| == 2 then data[1] else 0;
    var n := |data| + 1;
    var q := Quad(a, b, 0);
    QuadTriple(a, b, 0);
    assert Sextet(q[3]) == 0 && (|data| == 1 ==> Sextet(q[2]) == 0) by {
      LastSextets(a, b);
    }
    hide Quad, Triple, Sextet, IsLetter;
    PaddedTriple(q, n);
    assert EncodeBlock(data) == q[..n] + seq(4 - n, _ => PAD);
    assert [a, b, 0] == data + Zeros(3 - |data|);
  }

  lemma LastSextets(a: bv8, b: bv8)
    ensures Sextet(Quad(a, b, 0)[3]) == 0
    ensures Sextet(Quad(a, 0, 0)[2]) == 0
  {
    assert Letter(0) == 65;
  }

  lemma {:induction false} EncodingDecodes(data: seq<bv8>)
    ensures Wellformed(EncodeBlock(data))
    ensures Triples(EncodeBlock(data)) == data + Zeros(Fill(|data|))
  {
    hide Quad, Triple, IsLetter;
    var text := EncodeBlock(data);
    if data == [] {
    } else if |data| < 3 {
      PartialGroup(data);
      assert text[..4] == text && text[4..] == [];
    } else {
      var q, rest := Quad(data[0], data[1], data[2]), EncodeBlock(data[3..]);
      QuadTriple(data[0], data[1], data[2]);
      EncodingDecodes(data[3..]);
      assert text == q + rest && text[..4] == q && text[4..] == rest;
      assert Fill(|data|) == Fill(|data| - 3);
      assert data == [data[0], data[1], data[2]] + data[3..];
    }
  }

  // ---------- the bits ----------

  predicate Has(v: bv8, bit: bv8) {
    v & bit != 0
  }

  /** The eight bits of a byte, the most significant one first. */
  function Bits8(d: bv8): (bits: seq<bool>)
    ensures |bits| == 8
  {
    [Has(d, 128), Has(d, 64), Has(d, 32), Has(d, 16), Has(d, 8), Has(d, 4), Has(d, 2), Has(d, 1)]
  }

  /** The six bits of a character. */
  function Bits6(c: bv8): (bits: seq<bool>)
    ensures |bits| == 6
  {
    Six(Sextet(c))
  }

  function DataBits(data: seq<bv8>): (bits: seq<bool>)
    ensures |bits| == 8 * |data|
  {
    if data == [] then [] else Bits8(data[0]) + DataBits(data[1..])
  }

  function TextBits(text: seq<bv8>): (bits: seq<bool>)
    ensures |bits| == 6 * |text|
  {
    if text == [] then [] else Bits6(text[0]) + TextBits(text[1..])
  }

  function Six(v: bv8): (bits: seq<bool>)
    ensures |bits| == 6
  {
    [Has(v, 32), Has(v, 16), Has(v, 8), Has(v, 4), Has(v, 2), Has(v, 1)]
  }

  lemma SixOf(v: bv8)
    ensures Six(v) == [Has(v, 32), Has(v, 16)] + [Has(v, 8), Has(v, 4), Has(v, 2), Has(v, 1)]
    ensures Six(v) == [Has(v, 32), Has(v, 16), Has(v, 8), Has(v, 4)] + [Has(v, 2), Has(v, 1)]
  {
    hide Has;
  }

  lemma FirstByte(s0: bv8, s1: bv8)
    requires s0 < 64 && s1 < 64
    ensures var a := (s0 << 2) | (s1 >> 4);
      && [Has(a, 128), Has(a, 64), Has(a, 32), Has(a, 16), Has(a, 8), Has(a, 4)] == Six(s0)
      && [Has(a, 2), Has(a, 1)] == [Has(s1, 32), Has(s1, 16)]
  {
  }

  lemma SecondByte(s1: bv8, s2: bv8)
    requires s1 < 64 && s2 < 64
    ensures var b := (s1 << 4) | (s2 >> 2);
      && [Has(b, 128), Has(b, 64), Has(b, 32), Has(b, 16)] == [Has(s1, 8), Has(s1, 4), Has(s1, 2), Has(s1, 1)]
      && [Has(b, 8), Has(b, 4), Has(b, 2), Has(b, 1)] == [Has(s2, 32), Has(s2, 16), Has(s2, 8), Has(s2, 4)]
  {
  }

  lemma ThirdByte(s2: bv8, s3: bv8)
    requires s2 < 64 && s3 < 64
    ensures var c := (s2 << 6) | s3;
      && [Has(c, 128), Has(c, 64)] == [Has(s2, 2), Has(s2, 1)]
      && [Has(c, 32), Has(c, 16), Has(c, 8), Has(c, 4), Has(c, 2), Has(c, 1)] == Six(s3)
  {
  }

  lemma EightOf(d: bv8)
    ensures Bits8(d) == [Has(d, 128), Has(d, 64), Has(d, 32), Has(d, 16), Has(d, 8), Has(d, 4)] + [Has(d, 2), Has(d, 1)]
    ensures Bits8(d) == [Has(d, 128), Has(d, 64), Has(d, 32), Has(d, 16)] + [Has(d, 8), Has(d, 4), Has(d, 2), Has(d, 1)]
    ensures Bits8(d) == [Has(d, 128), Has(d, 64)] + [Has(d, 32), Has(d, 16), Has(d, 8), Has(d, 4), Has(d, 2), Has(d, 1)]
  {
    hide Has;
  }

  lemma SextetFits(c: bv8)
    ensures Sextet(c) < 64
  {
  }

  lemma Regroup(a: seq<bool>, b: seq<bool>, c: seq<bool>, d: seq<bool>, e: seq<bool>, f: seq<bool>)
    ensures (a + b) + (c + d) + (e + f) == a + (b + c) + (d + e) + f
  {
  }

  lemma Regrouped(s0: bv8, s1: bv8, s2: bv8, s3: bv8)
    requires s0 < 64 && s1 < 64 && s2 < 64 && s3 < 64
    ensures Bits8((s0 << 2) | (s1 >> 4)) + Bits8((s1 << 4) | (s2 >> 2)) + Bits8((s2 << 6) | s3)
         == Six(s0) + Six(s1) + Six(s2) + Six(s3)
  {
    hide *;
    FirstByte(s0, s1);
    EightOf((s0 << 2) | (s1 >> 4));
    SecondByte(s1, s2);
    EightOf((s1 << 4) | (s2 >> 2));
    ThirdByte(s2, s3);
    EightOf((s2 << 6) | s3);
    SixOf(s1);
    SixOf(s2);
    Regroup(Six(s0), [Has(s1, 32), Has(s1, 16)], [Has(s1, 8), Has(s1, 4), Has(s1, 2), Has(s1, 1)],
            [Has(s2, 32), Has(s2, 16), Has(s2, 8), Has(s2, 4)], [Has(s2, 2), Has(s2, 1)], Six(s3));
  }

  /** Three bytes carry the bits of their four characters. */
  lemma TripleBits(q: seq<bv8>)
    requires |q| == 4
    ensures var t := Triple(q);
      Bits8(t[0]) + Bits8(t[1]) + Bits8(t[2]) == Bits6(q[0]) + Bits6(q[1]) + Bits6(q[2]) + Bits6(q[3])
  {
    hide Has, Six, Bits8, Sextet;
    SextetFits(q[0]);
    SextetFits(q[1]);
    SextetFits(q[2]);
    SextetFits(q[3]);
    Regrouped(Sextet(q[0]), Sextet(q[1]), Sextet(q[2]), Sextet(q[3]));
  }

  lemma DataBits3(t: seq<bv8>, rest: seq<bv8>)
    requires |t| == 3
    ensures DataBits(t + rest) == Bits8(t[0]) + Bits8(t[1]) + Bits8(t[2]) + DataBits(rest)
  {
    hide Bits8;
    assert t + rest == [t[0]] + ([t[1]] + ([t[2]] + rest));
    DataStep(t[2], rest);
    DataStep(t[1], [t[2]] + rest);
    DataStep(t[0], [t[1]] + ([t[2]] + rest));
  }

  lemma DataStep(d: bv8, rest: seq<bv8>)
    ensures DataBits([d] + rest) == Bits8(d) + DataBits(rest)
  {
    hide Bits8;
    assert ([d] + rest)[1..] == rest;
  }

  lemma TextStep(c: bv8, rest: seq<bv8>)
    ensures TextBits([c] + rest) == Bits6(c) + TextBits(rest)
  {
    hide Bits6;
    assert ([c] + rest)[1..] == rest;
  }

  lemma TextBits4(q: seq<bv8>, rest: seq<bv8>)
    requires |q| == 4
    ensures TextBits(q + rest) == Bits6(q[0]) + Bits6(q[1]) + Bits6(q[2]) + Bits6(q[3]) + TextBits(rest)
  {
    hide Bits6;
    assert q + rest == [q[0]] + ([q[1]] + ([q[2]] + ([q[3]] + rest)));
    TextStep(q[3], rest);
    TextStep(q[2], [q[3]] + rest);
    TextStep(q[1], [q[2]] + ([q[3]] + rest));
    TextStep(q[0], [q[1]] + ([q[2]] + ([q[3]] + rest)));
  }

  /** Decoding keeps the bits: six from each character become eight in each byte. */
  lemma {:induction false} DecodingKeepsBits(text: seq<bv8>)
    requires |text| % 4 == 0
    ensures DataBits(Triples(text)) == TextBits(text)
  {
    if text == [] {
    } else {
      var q, rest := text[..4], text[4..];
      DecodingKeepsBits(rest);
      TripleBits(q);
      DataBits3(Triple(q), Triples(rest));
      TextBits4(q, rest);
      assert q + rest == text;
      hide *;
    }
  }

  /** Encoding keeps them too; zero bits fill up the last group. */
  lemma EncodingKeepsBits(data: seq<bv8>)
    ensures TextBits(EncodeBlock(data)) == DataBits(data + Zeros(Fill(|data|)))
  {
    hide *;
    EncodingDecodes(data);
    FourTimes((|data| + 2) / 3);
    EncodedLength(data);
    DecodingKeepsBits(EncodeBlock(data));
  }

  /** Of any text, what decoding delivers are the bits of the characters that were not stripped. */
  lemma DecodedBits(text: seq<bv8>)
    requires DecodeBlock(text).Bytes?
    ensures DataBits(DecodeBlock(text).bytes) == TextBits(Trim(text))
  {
    DecodingKeepsBits(Trim(text));
    hide Trim, Triples, TextBits, DataBits;
  }

  lemma EncodedLength(data: seq<bv8>)
    ensures |EncodeBlock(data)| == 4 * ((|data| + 2) / 3)
  {
  }

  lemma PartialPadding(data: seq<bv8>)
    requires |data| == 1 || |data| == 2
    ensures var text := EncodeBlock(data);
      |text| == 4 && forall i | 0 <= i < 4 :: text[i] == '=' as bv8 <==> i >= |data| + 1
  {
    var q := Quad(data[0], if |data| == 2 then data[1] else 0, 0);
    QuadTriple(data[0], if |data| == 2 then data[1] else 0, 0);
    PadIsNoLetter();
    hide Quad, IsLetter;
    assert EncodeBlock(data) == q[..|data| + 1] + seq(3 - |data|, _ => PAD);
    hide EncodeBlock;
  }

  lemma WholeGroup(data: seq<bv8>) returns (q: seq<bv8>)
    requires |data| >= 3
    ensures |q| == 4 && EncodeBlock(data) == q + EncodeBlock(data[3..])
    ensures forall i | 0 <= i < 4 :: q[i] != '=' as bv8
  {
    q := Quad(data[0], data[1], data[2]);
    QuadTriple(data[0], data[1], data[2]);
    PadIsNoLetter();
    hide Quad, IsLetter;
  }

  /** The text ends in one padding character for each zero byte filled in, and has no other. */
  lemma {:induction false} PaddingCharacters(data: seq<bv8>)
    ensures var text, n := EncodeBlock(data), |data|;
      && (3 - n % 3) % 3 <= |text|
      && forall i | 0 <= i < |text| :: text[i] == '=' as bv8 <==> i >= |text| - (3 - n % 3) % 3
  {
    if data == [] {
    } else if |data| < 3 {
      hide *;
      PartialPadding(data);
    } else {
      hide *;
      var q := WholeGroup(data);
      PaddingCharacters(data[3..]);
      assert (3 - |data| % 3) % 3 == (3 - |data[3..]| % 3) % 3;
      PaddedBehind(q, EncodeBlock(data[3..]), (3 - |data| % 3) % 3);
    }
  }

  lemma PaddedBehind(q: seq<bv8>, rest: seq<bv8>, n: nat)
    requires |q| == 4 && forall i | 0 <= i < 4 :: q[i] != '=' as bv8
    requires n <= |rest| && forall i | 0 <= i < |rest| :: rest[i] == '=' as bv8 <==> i >= |rest| - n
    ensures forall i | 0 <= i < |q + rest| :: (q + rest)[i] == '=' as bv8 <==> i >= |q + rest| - n
  {
    forall i | 4 <= i < |q + rest| ensures (q + rest)[i] == rest[i - 4] {
    }
  }

  lemma PadIsNoLetter()
    ensures !IsLetter('=' as bv8)
  {
  }

  lemma FourTimes(k: nat)
    ensures 4 * k % 4 == 0
  {
  }

  lemma Decodes(front: seq<bv8>, text: seq<bv8>, back: seq<bv8>)
    requires |text| % 4 == 0 && Wellformed(text) && Blanks(front) && Trailers(back)
    requires text == [] ==> front == [] && back == []
    ensures DecodeBlock(front + text + back) == Bytes(Triples(text))
  {
    if text == [] {
      assert front + text + back == [];
    } else {
      TrimmedText(front, text, back);
    }
  }

  /**
   Decoding an encoding gives the data back, followed by one zero byte per padding character,
   whatever white space and line ends stand around the text.
   */
  lemma DecodeSurrounded(front: seq<bv8>, data: seq<bv8>, back: seq<bv8>)
    requires Blanks(front) && Trailers(back) && (data == [] ==> front == [] && back == [])
    ensures DecodeBlock(front + EncodeBlock(data) + back) == Bytes(data + Zeros(Fill(|data|)))
  {
    assert |EncodeBlock(data)| > 0 || data == [];
    hide *;
    EncodingDecodes(data);
    FourTimes((|data| + 2) / 3);
    Decodes(front, EncodeBlock(data), back);
  }

  lemma DecodeEncode(data: seq<bv8>)
    ensures DecodeBlock(EncodeBlock(data)) == Bytes(data + Zeros(Fill(|data|)))
  {
    assert Blanks([]) && Trailers([]);
    hide *;
    DecodeSurrounded([], data, []);
    assert [] + EncodeBlock(data) + [] == EncodeBlock(data);
  }

  /** The front of a text, cut at a group, encodes the front of the data. */
  lemma {:induction false} EncodingCut(data: seq<bv8>, j: nat)
    requires 3 * j <= |data|
    ensures 4 * j <= |EncodeBlock(data)|
    ensures EncodeBlock(data)[..4 * j] == EncodeBlock(data[..3 * j])
    decreases j
  {
    hide Quad;
    if j > 0 {
      var q, text, front := Quad(data[0], data[1], data[2]), EncodeBlock(data), data[..3 * j];
      EncodingCut(data[3..], j - 1);
      assert text == q + EncodeBlock(data[3..]);
      assert front[3..] == data[3..][..3 * (j - 1)];
      assert text[..4 * j] == q + EncodeBlock(data[3..])[..4 * (j - 1)];
    }
  }

  /** So a text cut at a group decodes to the bytes of the whole groups. */
  lemma DecodeCut(data: seq<bv8>, j: nat)
    requires 3 * j <= |data|
    ensures 4 * j <= |EncodeBlock(data)|
    ensures DecodeBlock(EncodeBlock(data)[..4 * j]) == Bytes(data[..3 * j])
  {
    EncodingCut(data, j);
    DecodeEncode(data[..3 * j]);
    assert data[..3 * j] + Zeros(Fill(3 * j)) == data[..3 * j];
    hide EncodeBlock, DecodeBlock;
  }

  /** An encoding is a C string: it contains no zero byte. */
  lemma EncodingHasNoZero(data: seq<bv8>)
    ensures 0 !in EncodeBlock(data)
  {
    EncodingDecodes(data);
    hide EncodeBlock;
  }
}
