/** The program's own digests, tags, keys and ciphers as a suite of the pipeline. */
module Algorithms {
  import opened Bytes
  import opened ArchiveHeader
  import Archive
  import CipherStream
  import Sha
  import ShaBlock

  const StretchRounds := 4096

  function Digest(m: seq<byte>): (d: seq<byte>)
    ensures |d| == 32
  {
    ShaBlock.DigestSize(m);
    Sha.Digest(ShaBlock.Sha256(), m)
  }

  function Authentication(key: seq<byte>, m: seq<byte>): (tag: seq<byte>)
    ensures |tag| == 32
  {
    ShaBlock.DigestSize(key);
    var block := Sha.KeyBlock(ShaBlock.Sha256(), key);
    ShaBlock.DigestSize(Sha.Masked(block, 0x5c) + Sha.Digest(ShaBlock.Sha256(), Sha.Masked(block, 0x36) + m));
    Sha.Authentication(ShaBlock.Sha256(), key, m)
  }

  // ---- keys ----

  /** The digest of password and salt, digested with the salt again and again. */
  function Stretched(password: seq<byte>, salt: seq<byte>, rounds: nat): (key: seq<byte>)
    ensures |key| == 32
  {
    Digest((if rounds == 0 then password else Stretched(password, salt, rounds - 1)) + salt)
  }

  method DigestOf(m: seq<byte>) returns (d: seq<byte>)
    requires |m| < Sha.Longest
    ensures d == Digest(m)
  {
    var whole := Sha.DigestRange(ShaBlock.Sha256(), m, 0, Sha.ToTheEnd);
    assert m[0..] == m;
    d := whole.value;
  }

  function KeyOf(password: seq<byte>, salt: seq<byte>): (key: seq<byte>)
    ensures |key| == 32
  {
    Stretched(password, salt, StretchRounds)
  }

  method DeriveKey(password: seq<byte>, salt: seq<byte>) returns (key: seq<byte>)
    requires |password| + |salt| < Sha.Longest && |salt| == 16
    ensures key == KeyOf(password, salt)
  {
    key := Stretch(password, salt, StretchRounds);
  }

  method Stretch(password: seq<byte>, salt: seq<byte>, rounds: nat) returns (key: seq<byte>)
    requires |password| + |salt| < Sha.Longest && |salt| == 16
    ensures key == Stretched(password, salt, rounds)
  {
    key := DigestOf(password + salt);
    var round: nat := 0;
    while round < rounds
      invariant round <= rounds && key == Stretched(password, salt, round)
    {
      key := DigestOf(key + salt);
      round := round + 1;
    }
  }

  // ---- the tag of an archive ----

  /** What sets the key of the tag apart from that of the cipher: "BKP2-v4-authentication". */
  function Label(): (l: seq<byte>)
    ensures |l| == 22
  {
    [66, 75, 80, 50, 45, 118, 52, 45, 97, 117, 116, 104, 101, 110, 116, 105, 99, 97, 116, 105, 111, 110]
  }

  function ArchiveTag(password: seq<byte>, salt: seq<byte>, body: seq<byte>): (tag: seq<byte>)
    ensures |tag| == 32
  {
    Authentication(Authentication(KeyOf(password, salt), Label()), body)
  }

  method AuthenticateArchive(archive: seq<byte>, size: nat, password: seq<byte>, salt: seq<byte>) returns (tag: seq<byte>)
    requires size <= |archive| < Sha.Longest - Sha.BlockSize && |password| + |salt| < Sha.Longest && |salt| == 16
    ensures tag == ArchiveTag(password, salt, archive[..size])
  {
    forall m ensures |Sha.Digest(ShaBlock.Sha256(), m)| <= Sha.BlockSize {
      ShaBlock.DigestSize(m);
    }
    var encryptionKey := DeriveKey(password, salt);
    var purpose := Label();
    var key := Sha.AuthenticateFile(ShaBlock.Sha256(), encryptionKey, purpose, |purpose|);
    assert purpose[..|purpose|] == purpose;
    tag := Sha.AuthenticateFile(ShaBlock.Sha256(), key, archive, size);
  }

  // ---- the suite ----

  /** The block functions of the two ciphers: key, nonce and counter of one, key and counter block of the other. */
  datatype BlockCiphers = BlockCiphers(chacha: (seq<byte>, seq<byte>, nat) -> seq<byte>, aes: (seq<byte>, seq<byte>) -> seq<byte>)

  ghost predicate Sized(ciphers: BlockCiphers)
  {
    (forall k, n, i :: |ciphers.chacha(k, n, i)| == 64) && forall k, b :: |ciphers.aes(k, b)| == 16
  }

  function ChaChaWith(ciphers: BlockCiphers, key: seq<byte>, nonce: seq<byte>): CipherStream.BlockFunction
  {
    (i: nat) => ciphers.chacha(key, nonce, i)
  }

  function AesWith(ciphers: BlockCiphers, key: seq<byte>): seq<byte> -> seq<byte>
  {
    (b: seq<byte>) => ciphers.aes(key, b)
  }

  /** The first twelve bytes of the salt are the nonce of one cipher, all sixteen the initial counter block of the other. */
  function StageOf(ciphers: BlockCiphers, encryption: Encryption, key: seq<byte>, salt: seq<byte>): CipherStream.Stage
  {
    match encryption
    case NoEncryption => CipherStream.Plain
    case ChaCha20 => CipherStream.ChaCha20(ChaChaWith(ciphers, key, salt[..Min(12, |salt|)]))
    case Aes256 => CipherStream.Aes256(AesWith(ciphers, key), salt)
  }

  lemma StageIsSound(ciphers: BlockCiphers, encryption: Encryption, key: seq<byte>, salt: seq<byte>)
    requires Sized(ciphers)
    ensures CipherStream.Sound(StageOf(ciphers, encryption, key, salt))
    ensures StageOf(ciphers, encryption, key, salt).Plain? <==> encryption.NoEncryption?
  {
    match encryption
    case NoEncryption =>
    case ChaCha20 =>
      var nonce := salt[..Min(12, |salt|)];
      forall i ensures |ChaChaWith(ciphers, key, nonce)(i)| == 64 {
        assert |ciphers.chacha(key, nonce, i)| == 64;
      }
      CipherStream.ChaChaSound(ChaChaWith(ciphers, key, nonce));
    case Aes256 =>
      forall b ensures |AesWith(ciphers, key)(b)| == 16 {
        assert |ciphers.aes(key, b)| == 16;
      }
      CipherStream.AesSound(AesWith(ciphers, key), salt);
  }

  function ProgramSuite(ciphers: BlockCiphers): Archive.Suite
  {
    Archive.Suite(m => Digest(m), (password, salt, m) => ArchiveTag(password, salt, m),
      (encryption, password, salt) => StageOf(ciphers, encryption, KeyOf(password, salt), salt))
  }

  /** The program's own algorithms are a suite the pipeline can work with. */
  lemma ProgramSuiteIsUsable(ciphers: BlockCiphers)
    requires Sized(ciphers)
    ensures Archive.Usable(ProgramSuite(ciphers))
  {
    forall e, p, s
      ensures CipherStream.Sound(ProgramSuite(ciphers).cipher(e, p, s)) && (ProgramSuite(ciphers).cipher(e, p, s).Plain? <==> e.NoEncryption?)
    {
      StageIsSound(ciphers, e, KeyOf(p, s), s);
    }
  }
}
