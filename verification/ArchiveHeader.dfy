/** The fixed header of an archive. */
module ArchiveHeader {
  import opened Bytes
  import opened Fields
  import opened EntryCodec
  import opened PackFiles

  datatype Compression = NoCompression | Rle | Huffman | Lz77

  datatype Encryption = NoEncryption | ChaCha20 | Aes256

  const HeaderSize := 112
  const TagSize := 32

  /** Versions: 2 is the plain one, 3 adds LZ77, 4 authenticates encrypted archives; 1 predates hardlinks. */
  const Legacy := 1
  const Plaintext := 2
  const WithLz77 := 3
  const Authenticated := 4

  datatype Header = Header(version: nat, layout: Layout, compression: Compression, encryption: Encryption,
                           packedSize: nat, encodedSize: nat, salt: seq<byte>, packedDigest: seq<byte>, encodedDigest: seq<byte>)

  function Magic(): (m: seq<byte>)
    ensures |m| == 4
  {
    [66, 75, 80, 50]
  }

  function LayoutCode(layout: Layout): nat
  {
    if layout.Stream? then 1 else 2
  }

  function CompressionCode(c: Compression): (code: nat)
    ensures code <= 3
  {
    match c
    case NoCompression => 0
    case Rle => 1
    case Huffman => 2
    case Lz77 => 3
  }

  function EncryptionCode(e: Encryption): (code: nat)
    ensures code == 0 || code == 3 || code == 4
  {
    match e
    case NoEncryption => 0
    case ChaCha20 => 3
    case Aes256 => 4
  }

  /** Bit 0 is always set, bit 1 marks compression, bit 2 encryption. */
  function Flags(c: Compression, e: Encryption): nat
  {
    1 + (if c.NoCompression? then 0 else 2) + (if e.NoEncryption? then 0 else 4)
  }

  predicate KnownVersion(h: Header)
  {
    && (h.version == Legacy || h.version == Plaintext || h.version == WithLz77 || h.version == Authenticated)
    && (h.compression.Lz77? ==> h.version >= WithLz77)
    && (h.version == Authenticated ==> !h.encryption.NoEncryption?)
  }

  predicate Acceptable(h: Header)
  {
    KnownVersion(h) && h.packedSize < UINT64 && h.encodedSize < UINT64
    && |h.salt| == 16 && |h.packedDigest| == 32 && |h.encodedDigest| == 32
  }

  /** Version, header size, flags, the three algorithms, a reserved byte, the two sizes. */
  function Widths(): (w: seq<nat>)
    ensures |w| == 9 && Sum(w) == 28
  {
    var front: seq<nat> := [2, 2];
    var codes: seq<nat> := [1, 1];
    var sizes: seq<nat> := [8, 8];
    assert Sum(front) == 4 && Sum(codes) == 2 && Sum(sizes) == 16 && Sum([4]) == 4;
    SumConcat(front, [4]);
    SumConcat(codes, codes);
    SumConcat(front + [4], codes + codes);
    SumConcat(front + [4] + (codes + codes), sizes);
    assert front + [4] + (codes + codes) + sizes == [2, 2, 4, 1, 1, 1, 1, 8, 8];
    [2, 2, 4, 1, 1, 1, 1, 8, 8]
  }

  function FieldValues(h: Header): (v: seq<nat>)
    ensures |v| == 9
  {
    [h.version, HeaderSize, Flags(h.compression, h.encryption), LayoutCode(h.layout), CompressionCode(h.compression),
     EncryptionCode(h.encryption), 0, h.packedSize, h.encodedSize]
  }

  function WriteHeader(h: Header): (r: seq<byte>)
    ensures |r| == 32 + |h.salt| + |h.packedDigest| + |h.encodedDigest|
  {
    Magic() + Print(FieldValues(h), Widths()) + (h.salt + (h.packedDigest + h.encodedDigest))
  }

  /** The header the fields describe, with every check the reader makes on them. */
  function Described(v: seq<nat>, salt: seq<byte>, packedDigest: seq<byte>, encodedDigest: seq<byte>): Option<Header>
    requires |v| == 9
  {
    if v[1] != HeaderSize || v[6] != 0 || !(1 <= v[3] <= 2) || v[4] > 3 || !(v[5] == 0 || v[5] == 3 || v[5] == 4) then None
    else
      var compression := if v[4] == 0 then NoCompression else if v[4] == 1 then Rle else if v[4] == 2 then Huffman else Lz77;
      var encryption := if v[5] == 0 then NoEncryption else if v[5] == 3 then ChaCha20 else Aes256;
      var h := Header(v[0], if v[3] == 1 then Stream else Indexed, compression, encryption, v[7], v[8], salt, packedDigest, encodedDigest);
      if !KnownVersion(h) || v[2] != Flags(compression, encryption) then None else Some(h)
  }

  function ReadHeader(s: seq<byte>): Option<Header>
  {
    if |s| < HeaderSize || s[..4] != Magic() then None
    else Described(Values(s[4..], Widths()), s[32..48], s[48..80], s[80..112])
  }

  lemma DescribedOf(h: Header)
    requires Acceptable(h)
    ensures Described(FieldValues(h), h.salt, h.packedDigest, h.encodedDigest) == Some(h)
  {
  }

  lemma FieldValuesFit(h: Header)
    requires Acceptable(h)
    ensures Fits(FieldValues(h), Widths())
  {
    Pow256Small();
    assert Pow256(2) == 65536;
  }

  lemma HeaderParts(h: Header, fields: seq<byte>, rest: seq<byte>)
    requires |fields| == 28 && |h.salt| == 16 && |h.packedDigest| == 32 && |h.encodedDigest| == 32
    ensures var s := Magic() + fields + (h.salt + (h.packedDigest + h.encodedDigest)) + rest;
            && s[..4] == Magic() && s[4..] == fields + (h.salt + h.packedDigest + h.encodedDigest + rest)
            && s[32..48] == h.salt && s[48..80] == h.packedDigest && s[80..112] == h.encodedDigest && s[112..] == rest
  {
  }

  /** Reading a written header returns it. */
  lemma HeaderRead(h: Header, rest: seq<byte>)
    requires Acceptable(h)
    ensures ReadHeader(WriteHeader(h) + rest) == Some(h)
  {
    var fields := Print(FieldValues(h), Widths());
    HeaderParts(h, fields, rest);
    FieldValuesFit(h);
    ValuesOfPrint(FieldValues(h), Widths(), h.salt + h.packedDigest + h.encodedDigest + rest);
    DescribedOf(h);
  }

  lemma FieldsOfDescribed(v: seq<nat>, salt: seq<byte>, packedDigest: seq<byte>, encodedDigest: seq<byte>)
    requires |v| == 9 && Described(v, salt, packedDigest, encodedDigest).Some?
    ensures var h := Described(v, salt, packedDigest, encodedDigest).value;
            FieldValues(h) == v && KnownVersion(h) && h.packedSize == v[7] && h.encodedSize == v[8]
            && h.salt == salt && h.packedDigest == packedDigest && h.encodedDigest == encodedDigest
  {
  }

  lemma FitsSizes(v: seq<nat>)
    requires Fits(v, Widths())
    ensures v[7] < UINT64 && v[8] < UINT64
  {
    Pow256Small();
    assert Widths()[7] == 8 && Widths()[8] == 8;
  }

  lemma HeaderBytes(s: seq<byte>)
    requires |s| >= 112
    ensures s[..112] == s[..4] + s[4..32] + (s[32..48] + (s[48..80] + s[80..112])) && s[4..][..28] == s[4..32]
  {
  }

  /** An accepted header is acceptable and is exactly what would be written: writing it again changes nothing. */
  lemma HeaderPrinted(s: seq<byte>)
    requires ReadHeader(s).Some?
    ensures Acceptable(ReadHeader(s).value) && s[..HeaderSize] == WriteHeader(ReadHeader(s).value)
  {
    var v := Values(s[4..], Widths());
    ValuesFit(s[4..], Widths());
    FitsSizes(v);
    FieldsOfDescribed(v, s[32..48], s[48..80], s[80..112]);
    PrintOfValues(s[4..], Widths());
    HeaderBytes(s);
  }

  lemma Places()
    ensures var w := Widths();
            && Sum(w[..0]) == 0 && Sum(w[..1]) == 2 && Sum(w[..2]) == 4 && Sum(w[..3]) == 8 && Sum(w[..4]) == 9
            && Sum(w[..5]) == 10 && Sum(w[..6]) == 11 && Sum(w[..7]) == 12 && Sum(w[..8]) == 20
  {
    var w := Widths();
    for i := 0 to 9
      invariant i >= 1 ==> Sum(w[..1]) == 2
      invariant i >= 2 ==> Sum(w[..2]) == 4
      invariant i >= 3 ==> Sum(w[..3]) == 8
      invariant i >= 4 ==> Sum(w[..4]) == 9
      invariant i >= 5 ==> Sum(w[..5]) == 10
      invariant i >= 6 ==> Sum(w[..6]) == 11
      invariant i >= 7 ==> Sum(w[..7]) == 12
      invariant i >= 8 ==> Sum(w[..8]) == 20
    {
      assert w[..i + 1][..i] == w[..i];
    }
  }

  lemma HeaderField(h: Header, i: nat)
    requires i < 9
    ensures var v, w, s := FieldValues(h), Widths(), WriteHeader(h);
            && 4 + Sum(w[..i]) + w[i] <= 32 <= |s|
            && s[4 + Sum(w[..i])..4 + Sum(w[..i]) + w[i]] == LittleEndian(v[i], w[i])
  {
    var v, w, s := FieldValues(h), Widths(), WriteHeader(h);
    FieldPlace(v, w, 9, i);
    assert v[..9] == v && w[..9] == w;
    Slice(s, Magic(), Print(v, w), h.salt + (h.packedDigest + h.encodedDigest), Sum(w[..i]), Sum(w[..i]) + w[i]);
  }

  lemma HeaderNumbers(h: Header)
    ensures var v, s := FieldValues(h), WriteHeader(h);
            && s[4..6] == LittleEndian(v[0], 2) && s[6..8] == LittleEndian(v[1], 2) && s[8..12] == LittleEndian(v[2], 4)
            && s[12..13] == LittleEndian(v[3], 1) && s[13..14] == LittleEndian(v[4], 1) && s[14..15] == LittleEndian(v[5], 1)
            && s[15..16] == LittleEndian(v[6], 1) && s[16..24] == LittleEndian(v[7], 8) && s[24..32] == LittleEndian(v[8], 8)
  {
    Places();
    HeaderField(h, 0);
    HeaderField(h, 1);
    HeaderField(h, 2);
    HeaderField(h, 3);
    HeaderField(h, 4);
    HeaderField(h, 5);
    HeaderField(h, 6);
    HeaderField(h, 7);
    HeaderField(h, 8);
  }

  /** Where each field of the header stands, and the numbers that name layout, compression and encryption. */
  lemma HeaderLayout(h: Header)
    requires Acceptable(h)
    ensures var s := WriteHeader(h);
            && |s| == HeaderSize && s[..4] == [66, 75, 80, 50]
            && s[4..6] == LittleEndian(h.version, 2) && s[6..8] == LittleEndian(112, 2)
            && s[8..12] == LittleEndian(1 + (if h.compression.NoCompression? then 0 else 2) + (if h.encryption.NoEncryption? then 0 else 4), 4)
            && s[12] == (match h.layout case Stream => 1 case Indexed => 2)
            && s[13] == (match h.compression case NoCompression => 0 case Rle => 1 case Huffman => 2 case Lz77 => 3)
            && s[14] == (match h.encryption case NoEncryption => 0 case ChaCha20 => 3 case Aes256 => 4)
            && s[15] == 0 && s[16..24] == LittleEndian(h.packedSize, 8) && s[24..32] == LittleEndian(h.encodedSize, 8)
            && s[32..48] == h.salt && s[48..80] == h.packedDigest && s[80..112] == h.encodedDigest
  {
    var v, s := FieldValues(h), WriteHeader(h);
    HeaderNumbers(h);
    OneByte(s, 12, v[3]);
    OneByte(s, 13, v[4]);
    OneByte(s, 14, v[5]);
    OneByte(s, 15, v[6]);
    HeaderParts(h, Print(v, Widths()), []);
    assert s + [] == s;
  }
}
