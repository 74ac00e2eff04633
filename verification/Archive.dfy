/** Creating an archive from a pack and decoding it again, stage by stage. */
module Archive {
  import opened Bytes
  import opened Entries
  import opened PackFiles
  import opened ArchiveHeader
  import CipherStream
  import Huffman = HuffmanCodec
  import Lz77 = Lz77Codec
  import RunLength = Rle

  /** The digests and keystreams, as far as the pipeline cares: any functions will do. */
  datatype Suite = Suite(digest: seq<byte> -> seq<byte>, tag: (seq<byte>, seq<byte>, seq<byte>) -> seq<byte>,
                         cipher: (Encryption, seq<byte>, seq<byte>) -> CipherStream.Stage)

  /** Digests and tags of 32 bytes, and ciphers whose counters suffice; no encryption leaves the bytes alone. */
  ghost predicate Usable(suite: Suite)
  {
    && (forall m :: |suite.digest(m)| == 32)
    && (forall p, s, m :: |suite.tag(p, s, m)| == 32)
    && (forall e, p, s :: CipherStream.Sound(suite.cipher(e, p, s)) && (suite.cipher(e, p, s).Plain? <==> e.NoEncryption?))
  }

  // ---- compression ----

  /** `packed` is what `encoded` decompresses to. */
  ghost predicate Decompresses(compression: Compression, encoded: seq<byte>, packed: seq<byte>)
  {
    match compression
    case NoCompression => encoded == packed
    case Rle => RunLength.Decompressed(encoded, |packed|) == Some(packed)
    case Huffman => Huffman.IsStream(encoded, packed)
    case Lz77 => Lz77.Decompressed(encoded, |packed|) == Some(packed)
  }

  /** What a pack is compressed to. */
  ghost function Compressed(compression: Compression, packed: seq<byte>): seq<byte>
  {
    match compression
    case NoCompression => packed
    case Rle => RunLength.Compressed(packed)
    case Huffman => Huffman.Compressed(packed)
    case Lz77 => Lz77.Compressed(packed)
  }

  /** What a pack of `n` bytes takes at most once it is compressed. */
  function CompressedLimit(compression: Compression, n: nat): nat
  {
    match compression
    case NoCompression => n
    case Rle => 12 + n + RunLength.Blocks(n)
    case Huffman => 268 + n
    case Lz77 => 12 + n + 9 * Lz77.BlockCount(n)
  }

  lemma CompressedWithin(compression: Compression, packed: seq<byte>)
    ensures |Compressed(compression, packed)| <= CompressedLimit(compression, |packed|)
  {
    match compression
    case NoCompression =>
    case Rle => RunLength.CompressedSize(packed);
    case Huffman => Huffman.CompressedSize(packed);
    case Lz77 => Lz77.CompressedSize(packed);
  }

  method CompressStage(packed: seq<byte>, compression: Compression) returns (encoded: seq<byte>)
    requires |packed| < UINT64
    ensures encoded == Compressed(compression, packed) && Decompresses(compression, encoded, packed)
  {
    match compression
    case NoCompression => encoded := packed;
    case Rle => encoded := RunLength.RleCompress(packed);
    case Huffman => encoded := Huffman.HuffmanCompress(packed);
    case Lz77 => encoded := Lz77.Lz77Compress(packed);
  }

  /** Finds what the bytes decompress to at the declared size, or that they do not. */
  method DecompressStage(encoded: seq<byte>, compression: Compression, size: nat) returns (packed: Option<seq<byte>>)
    requires size < UINT64
    ensures packed.Some? ==> |packed.value| == size && Decompresses(compression, encoded, packed.value)
    ensures packed.None? ==> forall p :: |p| == size ==> !Decompresses(compression, encoded, p)
  {
    match compression
    case NoCompression => packed := if |encoded| == size then Some(encoded) else None;
    case Rle => packed := RunLength.RleDecompress(encoded, size);
    case Huffman => packed := Huffman.HuffmanDecompress(encoded, size);
    case Lz77 => packed := Lz77.Lz77Decompress(encoded, size);
  }

  /** At a given size there is at most one way to decompress. */
  lemma DecompressesOnce(compression: Compression, encoded: seq<byte>, a: seq<byte>, b: seq<byte>)
    requires Decompresses(compression, encoded, a) && Decompresses(compression, encoded, b) && |a| == |b|
    ensures a == b
  {
    if compression.Huffman? {
      Huffman.SizedStreamIsUnique(encoded, a, b);
    }
  }

  // ---- what an archive is ----

  function Tag(suite: Suite, h: Header, password: seq<byte>, body: seq<byte>): seq<byte>
  {
    if h.version == Authenticated then suite.tag(password, h.salt, body) else []
  }

  function Deciphered(suite: Suite, h: Header, password: seq<byte>, payload: seq<byte>): (r: seq<byte>)
    requires CipherStream.Sound(suite.cipher(h.encryption, password, h.salt))
    ensures |r| == |payload|
  {
    CipherStream.Applied(suite.cipher(h.encryption, password, h.salt), payload)
  }

  /** An encrypted archive needs a password, and consent when it is not authenticated. */
  predicate Permitted(h: Header, password: seq<byte>, allowLegacy: bool)
  {
    !h.encryption.NoEncryption? ==> password != [] && (h.version == Authenticated || allowLegacy)
  }

  /** The cipher takes payloads of this size. */
  predicate Ciphers(suite: Suite, h: Header, password: seq<byte>)
  {
    var stage := suite.cipher(h.encryption, password, h.salt);
    stage.Keyed? ==> h.encodedSize <= stage.most
  }

  /** The payload's digest agrees, and it deciphers and decompresses to `packed`, whose size and digest agree. */
  ghost predicate PayloadHolds(suite: Suite, h: Header, payload: seq<byte>, packed: seq<byte>, password: seq<byte>)
    requires Usable(suite)
  {
    && suite.digest(payload) == h.encodedDigest && Ciphers(suite, h, password)
    && Decompresses(h.compression, Deciphered(suite, h, password, payload), packed)
    && |packed| == h.packedSize && suite.digest(packed) == h.packedDigest
  }

  /** Header, payload, tag, and a payload that holds `packed`. */
  ghost predicate Holds(suite: Suite, archive: seq<byte>, h: Header, payload: seq<byte>, packed: seq<byte>, password: seq<byte>)
    requires Usable(suite)
  {
    && Acceptable(h) && |payload| == h.encodedSize
    && archive == WriteHeader(h) + payload + Tag(suite, h, password, WriteHeader(h) + payload)
    && PayloadHolds(suite, h, payload, packed, password)
  }

  // ---- creating ----

  /** The cipher chosen takes a payload of `size` bytes. */
  predicate Enciphers(suite: Suite, encryption: Encryption, password: seq<byte>, salt: seq<byte>, size: nat)
  {
    var stage := suite.cipher(encryption, password, salt);
    (encryption.NoEncryption? || password != []) && size < UINT64 && (stage.Keyed? ==> size <= stage.most)
  }

  /** No more than this is needed: a password for encryption, and a pack whose compressed form has a size for the cipher. */
  lemma SmallEnough(suite: Suite, compression: Compression, encryption: Encryption, password: seq<byte>, salt: seq<byte>, packed: seq<byte>)
    requires Enciphers(suite, encryption, password, salt, CompressedLimit(compression, |packed|))
    ensures Enciphers(suite, encryption, password, salt, |Compressed(compression, packed)|)
  {
    CompressedWithin(compression, packed);
  }

  function VersionFor(compression: Compression, encryption: Encryption): nat
  {
    if !encryption.NoEncryption? then Authenticated else if compression.Lz77? then WithLz77 else Plaintext
  }

  /** The header is the one asked for, of the version that knows what it asks. */
  predicate Requested(h: Header, layout: Layout, compression: Compression, encryption: Encryption, salt: seq<byte>)
  {
    && h.layout == layout && h.compression == compression && h.encryption == encryption && h.salt == salt
    && h.version == VersionFor(compression, encryption)
  }

  /** The file of an archive of the requested kind: 112 bytes of header that begin with magic and version, the payload,
      and when it is encrypted the 32 bytes that authenticate everything before them with the password and the salt. */
  lemma RequestedFile(suite: Suite, archive: seq<byte>, h: Header, payload: seq<byte>, packed: seq<byte>, password: seq<byte>,
                      layout: Layout, compression: Compression, encryption: Encryption, salt: seq<byte>)
    requires Usable(suite) && Holds(suite, archive, h, payload, packed, password) && Requested(h, layout, compression, encryption, salt)
    ensures var body := 112 + |payload|;
            && |archive| == body + (if encryption.NoEncryption? then 0 else 32)
            && archive[..6] == [66, 75, 80, 50, if !encryption.NoEncryption? then 4 else if compression.Lz77? then 3 else 2, 0]
            && archive[112..body] == payload && suite.digest(payload) == h.encodedDigest
            && (!encryption.NoEncryption? ==> archive[body..] == suite.tag(password, salt, archive[..body]))
  {
    HeaderLayout(h);
    VersionBytes(WriteHeader(h), h.version);
    FileParts(archive, WriteHeader(h), payload, Tag(suite, h, password, WriteHeader(h) + payload));
  }

  lemma VersionBytes(front: seq<byte>, version: nat)
    requires |front| >= 6 && front[..4] == [66, 75, 80, 50] && version < 256 && front[4..6] == LittleEndian(version, 2)
    ensures front[..6] == [66, 75, 80, 50, version, 0]
  {
    assert LittleEndian(version, 2) == [version, 0];
    assert front[..6] == front[..4] + front[4..6];
  }

  lemma FileParts(archive: seq<byte>, front: seq<byte>, payload: seq<byte>, tag: seq<byte>)
    requires archive == front + payload + tag && |front| >= 6
    ensures archive[..6] == front[..6] && archive[|front|..|front| + |payload|] == payload
    ensures archive[..|front| + |payload|] == front + payload && archive[|front| + |payload|..] == tag
  {
  }

  /** Compresses and encrypts. */
  method Encode(suite: Suite, packed: seq<byte>, compression: Compression, encryption: Encryption, password: seq<byte>, salt: seq<byte>)
    returns (encoded: Option<seq<byte>>)
    requires Usable(suite) && |packed| < UINT64
    ensures encoded.Some? <==> Enciphers(suite, encryption, password, salt, |Compressed(compression, packed)|)
    ensures encoded.Some? ==>
      && encoded.value == CipherStream.Applied(suite.cipher(encryption, password, salt), Compressed(compression, packed))
      && CipherStream.Encrypted(suite.cipher(encryption, password, salt), Compressed(compression, packed), encoded.value)
      && Decompresses(compression, Compressed(compression, packed), packed)
  {
    var compressed := CompressStage(packed, compression);
    if |compressed| >= UINT64 {
      return None;
    }
    encoded := CipherStream.CryptStage(compressed, 0, |compressed|, suite.cipher(encryption, password, salt), password != []);
    assert compressed[0..|compressed|] == compressed;
  }

  /** Compresses, encrypts, puts the header in front and the tag behind. */
  method CreateArchive(suite: Suite, packed: seq<byte>, layout: Layout, compression: Compression, encryption: Encryption,
                       password: seq<byte>, salt: seq<byte>)
    returns (archive: Option<seq<byte>>, ghost h: Header, ghost payload: seq<byte>)
    requires Usable(suite) && |packed| < UINT64 && |salt| == 16
    ensures archive.Some? <==> Enciphers(suite, encryption, password, salt, |Compressed(compression, packed)|)
    ensures archive.Some? ==>
      && Holds(suite, archive.value, h, payload, packed, password) && Permitted(h, password, false)
      && Requested(h, layout, compression, encryption, salt)
      && CipherStream.Encrypted(suite.cipher(encryption, password, salt), Compressed(compression, packed), payload)
  {
    var packedDigest := suite.digest(packed);
    h, payload := Header(0, layout, compression, encryption, 0, 0, [], [], []), [];
    var encoded := Encode(suite, packed, compression, encryption, password, salt);
    if encoded.None? {
      return None, h, payload;
    }
    ghost var compressed := Compressed(compression, packed);
    var identical := compression.NoCompression? && encryption.NoEncryption?;
    var encodedDigest := if identical then packedDigest else suite.digest(encoded.value);
    var header := Header(VersionFor(compression, encryption), layout, compression, encryption, |packed|, |encoded.value|, salt,
                         packedDigest, encodedDigest);
    h, payload := header, encoded.value;
    Assembled(suite, header, compressed, packed, password);
    var body := WriteHeader(header) + encoded.value;
    return Some(body + Tag(suite, header, password, body)), h, payload;
  }

  /** Deciphering undoes the encryption, so the assembled archive holds the pack. */
  lemma Assembled(suite: Suite, h: Header, compressed: seq<byte>, packed: seq<byte>, password: seq<byte>)
    requires Usable(suite) && Acceptable(h) && |packed| == h.packedSize && Ciphers(suite, h, password)
    requires var payload := Deciphered(suite, h, password, compressed);
      |payload| == h.encodedSize && suite.digest(payload) == h.encodedDigest && suite.digest(packed) == h.packedDigest
    requires Decompresses(h.compression, compressed, packed)
    ensures var payload := Deciphered(suite, h, password, compressed);
      var body := WriteHeader(h) + payload;
      Holds(suite, body + Tag(suite, h, password, body), h, payload, packed, password)
  {
    CipherStream.AppliedTwice(suite.cipher(h.encryption, password, h.salt), compressed);
  }

  // ---- decoding ----

  /** The header of a whole file, whose size must be exactly what the header declares. */
  method ReadFileHeader(archive: seq<byte>) returns (h: Option<Header>)
    ensures h.Some? ==> ReadHeader(archive) == h && |archive| == HeaderSize + h.value.encodedSize + Overhead(h.value)
    ensures h.None? ==> var r := ReadHeader(archive); r.None? || |archive| != HeaderSize + r.value.encodedSize + Overhead(r.value)
  {
    h := ReadHeader(archive);
    if h.Some? && |archive| != HeaderSize + h.value.encodedSize + Overhead(h.value) {
      h := None;
    }
  }

  function Overhead(h: Header): nat
  {
    if h.version == Authenticated then TagSize else 0
  }

  function PayloadOf(archive: seq<byte>, h: Header): seq<byte>
    requires |archive| >= HeaderSize + h.encodedSize
  {
    archive[HeaderSize..HeaderSize + h.encodedSize]
  }

  /** A held archive splits back into the header, the payload and the tag it was made of. */
  lemma HeldParts(suite: Suite, archive: seq<byte>, h: Header, payload: seq<byte>, packed: seq<byte>, password: seq<byte>)
    requires Usable(suite) && Holds(suite, archive, h, payload, packed, password)
    ensures |archive| == HeaderSize + h.encodedSize + Overhead(h) && ReadHeader(archive) == Some(h) && PayloadOf(archive, h) == payload
    ensures archive[HeaderSize + h.encodedSize..] == Tag(suite, h, password, WriteHeader(h) + payload)
  {
    var tag := Tag(suite, h, password, WriteHeader(h) + payload);
    HeaderRead(h, payload + tag);
    Associative(WriteHeader(h), payload, tag);
    Halves(WriteHeader(h) + payload, tag);
    assert archive[HeaderSize..HeaderSize + h.encodedSize] == payload;
  }

  /** For one password an archive holds at most one pack. */
  lemma HoldsOnce(suite: Suite, archive: seq<byte>, h1: Header, payload1: seq<byte>, packed1: seq<byte>,
                  h2: Header, payload2: seq<byte>, packed2: seq<byte>, password: seq<byte>)
    requires Usable(suite) && Holds(suite, archive, h1, payload1, packed1, password) && Holds(suite, archive, h2, payload2, packed2, password)
    ensures h1 == h2 && payload1 == payload2 && packed1 == packed2
  {
    HeldParts(suite, archive, h1, payload1, packed1, password);
    HeldParts(suite, archive, h2, payload2, packed2, password);
    DecompressesOnce(h1.compression, Deciphered(suite, h1, password, payload1), packed1, packed2);
  }

  /** The tag is computed over the header as the reader would write it again, and the payload. */
  method Authentic(suite: Suite, archive: seq<byte>, h: Header, password: seq<byte>) returns (ok: bool)
    requires ReadHeader(archive) == Some(h) && |archive| == HeaderSize + h.encodedSize + Overhead(h)
    ensures ok <==> archive == WriteHeader(h) + PayloadOf(archive, h) + Tag(suite, h, password, WriteHeader(h) + PayloadOf(archive, h))
  {
    var payload := PayloadOf(archive, h);
    var snapshot := WriteHeader(h) + payload;
    HeaderPrinted(archive);
    assert archive == archive[..HeaderSize] + payload + archive[HeaderSize + h.encodedSize..];
    if h.version != Authenticated {
      assert archive == snapshot + [];
      return true;
    }
    var expected, actual := archive[HeaderSize + h.encodedSize..], Tag(suite, h, password, snapshot);
    ok := expected == actual;
    Halves(snapshot, expected);
    Halves(snapshot, actual);
  }

  /** Checks the payload's digest, deciphers, decompresses and checks the result. */
  method DecodePayload(suite: Suite, h: Header, payload: seq<byte>, password: seq<byte>) returns (packed: Option<seq<byte>>)
    requires Usable(suite) && Acceptable(h) && |payload| == h.encodedSize && (h.encryption.NoEncryption? || password != [])
    ensures packed.Some? ==> PayloadHolds(suite, h, payload, packed.value, password)
    ensures packed.None? ==> forall p :: !PayloadHolds(suite, h, payload, p, password)
  {
    if suite.digest(payload) != h.encodedDigest {
      return None;
    }
    var deciphered := CipherStream.CryptStage(payload, 0, |payload|, suite.cipher(h.encryption, password, h.salt), password != []);
    assert payload[0..|payload|] == payload;
    if deciphered.None? {
      return None;
    }
    packed := DecompressStage(deciphered.value, h.compression, h.packedSize);
    if packed.None? {
      return None;
    }
    OnlyOne(h.compression, deciphered.value, packed.value);
    if suite.digest(packed.value) != h.packedDigest {
      return None;
    }
  }

  lemma OnlyOne(compression: Compression, encoded: seq<byte>, packed: seq<byte>)
    requires Decompresses(compression, encoded, packed)
    ensures forall p :: Decompresses(compression, encoded, p) && |p| == |packed| ==> p == packed
  {
    forall p | Decompresses(compression, encoded, p) && |p| == |packed| ensures p == packed {
      DecompressesOnce(compression, encoded, p, packed);
    }
  }

  /** Gets the pack out of an archive: every check passes exactly when the archive holds a pack for this password. */
  method DecodeArchive(suite: Suite, archive: seq<byte>, password: seq<byte>, allowLegacy: bool)
    returns (result: Option<(Header, seq<byte>)>)
    requires Usable(suite)
    ensures result.Some? ==> ReadHeader(archive) == Some(result.value.0) && |archive| >= HeaderSize + result.value.0.encodedSize
    ensures result.Some? ==> Permitted(result.value.0, password, allowLegacy)
    ensures result.Some? ==> Holds(suite, archive, result.value.0, PayloadOf(archive, result.value.0), result.value.1, password)
    ensures result.None? ==> forall h, payload, packed :: Holds(suite, archive, h, payload, packed, password) ==> !Permitted(h, password, allowLegacy)
  {
    var header := ReadFileHeader(archive);
    forall h, payload, packed | Holds(suite, archive, h, payload, packed, password) ensures header == Some(h) && PayloadOf(archive, h) == payload {
      HeldParts(suite, archive, h, payload, packed, password);
    }
    if header.None? {
      return None;
    }
    var h := header.value;
    HeaderPrinted(archive);
    if !Permitted(h, password, allowLegacy) {
      return None;
    }
    var ok := Authentic(suite, archive, h, password);
    if !ok {
      return None;
    }
    var packed := DecodePayload(suite, h, PayloadOf(archive, h), password);
    return if packed.None? then None else Some((h, packed.value));
  }
}
