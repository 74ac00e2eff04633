/** The streaming digest of FIPS 180-4 and the HMAC of RFC 2104, for any block function. */
module Sha {
  import opened Bytes
  import opened CipherStream

  const BlockSize := 64
  const Longest := 0x2000_0000_0000_0000

  /** A hash by its initial state, its step over one block, and how the last state is written out. */
  datatype Hashing<!S> = Hashing(initial: S, compress: (S, seq<byte>) -> S, output: S -> seq<byte>)

  // ---- the digest of a whole message ----

  /** The state after whole blocks. */
  function Process<S>(h: Hashing<S>, s: seq<byte>): S
  {
    if |s| < BlockSize then h.initial else h.compress(Process(h, s[..|s| - BlockSize]), s[|s| - BlockSize..])
  }

  lemma ProcessNext<S>(h: Hashing<S>, s: seq<byte>, block: seq<byte>)
    requires |block| == BlockSize
    ensures Process(h, s + block) == h.compress(Process(h, s), block)
  {
    assert (s + block)[..|s + block| - BlockSize] == s && (s + block)[|s + block| - BlockSize..] == block;
  }

  function Zeros(n: nat): (s: seq<byte>)
    ensures |s| == n
  {
    seq(n, _ => 0)
  }

  /** The least number of zero bytes that makes the padded message whole blocks. */
  function Filler(length: nat): (k: nat)
    ensures k < BlockSize && (length + 9 + k) % BlockSize == 0
  {
    (119 - length % BlockSize) % BlockSize
  }

  /** Section 5.1.1 of FIPS 180-4: a one bit, zeros, and the length in bits. */
  function Padding(length: nat): (p: seq<byte>)
    ensures (length + |p|) % BlockSize == 0
  {
    [0x80] + Zeros(Filler(length)) + BigEndian(8 * length, 8)
  }

  /** The digest of a message, defined at once. */
  function Digest<S>(h: Hashing<S>, m: seq<byte>): seq<byte>
  {
    h.output(Process(h, m + Padding(|m|)))
  }

  // ---- the streaming digest ----

  /** A message split into its whole blocks and what is left over. */
  ghost predicate Absorbed<S>(h: Hashing<S>, message: seq<byte>, state: S, pending: seq<byte>)
  {
    && |pending| <= |message| && (|message| - |pending|) % BlockSize == 0
    && message[|message| - |pending|..] == pending && state == Process(h, message[..|message| - |pending|])
  }

  lemma AbsorbMore<S>(h: Hashing<S>, message: seq<byte>, state: S, pending: seq<byte>, more: seq<byte>)
    requires Absorbed(h, message, state, pending)
    ensures Absorbed(h, message + more, state, pending + more)
  {
    var n := |message| - |pending|;
    assert (message + more)[..n] == message[..n] && (message + more)[n..] == pending + more;
  }

  lemma AbsorbBlock<S>(h: Hashing<S>, message: seq<byte>, state: S, block: seq<byte>)
    requires Absorbed(h, message, state, block) && |block| == BlockSize
    ensures Absorbed(h, message, h.compress(state, block), [])
  {
    var n := |message| - |block|;
    ProcessNext(h, message[..n], block);
    assert message[..n] + block == message && message[..|message|] == message;
  }

  class Digester<S> {
    const h: Hashing<S>
    const block: array<byte>
    var state: S
    var used: nat
    var total: nat
    ghost var message: seq<byte>

    ghost predicate Valid()
      reads this, block
    {
      block.Length == BlockSize && used < BlockSize && total == |message| && Absorbed(h, message, state, block[..used])
    }

    constructor (h: Hashing<S>)
      ensures Valid() && fresh(block) && this.h == h && message == []
    {
      this.h, state, used, total, message := h, h.initial, 0, 0, [];
      block := new byte[BlockSize](_ => 0);
    }

    /** Copies bytes behind those already in the block; a full block is processed. */
    method Fill(bytes: seq<byte>)
      requires block.Length == BlockSize && used + |bytes| <= BlockSize && Absorbed(h, message, state, block[..used])
      modifies this`used, this`state, this`message, block
      ensures used == (if old(used) + |bytes| == BlockSize then 0 else old(used) + |bytes|)
      ensures message == old(message) + bytes && Absorbed(h, message, state, block[..used])
    {
      AbsorbMore(h, message, state, block[..used], bytes);
      CopyInto(block, used, bytes);
      used := used + |bytes|;
      message := message + bytes;
      if used == BlockSize {
        assert block[..used] == block[..];
        AbsorbBlock(h, message, state, block[..]);
        state := h.compress(state, block[..]);
        used := 0;
        assert block[..used] == [];
      }
    }

    /** Takes any number of further bytes of the message. */
    method Update(data: seq<byte>)
      requires Valid()
      modifies this, block
      ensures Valid() && message == old(message) + data
    {
      var done: nat := 0;
      ghost var start := message;
      assert data[..0] == [] && start + [] == start;
      total := total + |data|;
      while done < |data|
        invariant done <= |data| && block.Length == BlockSize && used < BlockSize && Absorbed(h, message, state, block[..used])
        invariant message == start + data[..done] && total == |start| + |data|
      {
        var take := Min(|data| - done, BlockSize - used);
        Fill(data[done..done + take]);
        Joined(start, data, done, take);
        done := done + take;
      }
      assert data[..done] == data;
    }

    /** A one bit and zeros, up to where the length goes; this can complete a block. */
    method Pad()
      requires Valid()
      modifies this, block
      ensures used == 56 && block.Length == BlockSize && Absorbed(h, message, state, block[..used])
      ensures message == old(message) + [0x80] + Zeros(Filler(old(total)))
    {
      ghost var whole := message;
      UsedIsRemainder(total, used);
      Fill([0x80]);
      ghost var first: nat := 0;
      assert message == whole + [0x80] + Zeros(first);
      if used > 56 {
        first := BlockSize - used;
        Fill(Zeros(BlockSize - used));
      }
      ZerosJoin(whole + [0x80], first, 56 - used);
      Fill(Zeros(56 - used));
    }

    /** Pads the message in the block and returns the digest of everything that was taken. */
    method Finish() returns (digest: seq<byte>)
      requires Valid() && |message| < Longest
      modifies this, block
      ensures digest == Digest(h, old(message))
    {
      ghost var whole, filler := message, Zeros(Filler(total));
      var bits := BigEndian(8 * total, 8);
      Pad();
      Fill(bits);
      Regroup(whole, [0x80], filler, bits);
      assert message[..|message|] == message;
      digest := h.output(state);
    }
  }

  method CopyInto(block: array<byte>, at: nat, bytes: seq<byte>)
    requires at + |bytes| <= block.Length
    modifies block
    ensures block[..at + |bytes|] == old(block[..at]) + bytes
  {
    var i: nat := 0;
    while i < |bytes|
      invariant i <= |bytes| && block[..at + i] == old(block[..at]) + bytes[..i]
    {
      block[at + i] := bytes[i];
      i := i + 1;
    }
    assert bytes[..i] == bytes;
  }

  lemma Joined(start: seq<byte>, data: seq<byte>, done: nat, take: nat)
    requires done + take <= |data|
    ensures start + data[..done] + data[done..done + take] == start + data[..done + take]
  {
    assert data[..done] + data[done..done + take] == data[..done + take];
  }

  /** Where the message stops in its last block decides how many zeros follow. */
  lemma UsedIsRemainder(length: nat, used: nat)
    requires used < BlockSize && used <= length && (length - used) % BlockSize == 0
    ensures Filler(length) == if used < 56 then 55 - used else 119 - used
  {
  }

  lemma ZerosJoin(front: seq<byte>, a: nat, b: nat)
    ensures front + Zeros(a) + Zeros(b) == front + Zeros(a + b)
  {
  }

  lemma Regroup(a: seq<byte>, b: seq<byte>, c: seq<byte>, d: seq<byte>)
    ensures a + b + c + d == a + (b + c + d)
  {
  }

  lemma LastBytes(m: seq<byte>, length: nat)
    ensures var p := m + Padding(length); p[|p| - 8..] == BigEndian(8 * length, 8)
  {
  }

  lemma Pow256Of8Bytes()
    ensures Pow256(8) == 8 * Longest
  {
    Pow256Of8();
  }

  lemma LengthFromBits(a: nat, b: nat)
    requires a < Longest && b < Longest && BigEndian(8 * a, 8) == BigEndian(8 * b, 8)
    ensures a == b
  {
    Pow256Of8Bytes();
    FromBigEndianOf(8 * a, 8);
    FromBigEndianOf(8 * b, 8);
    SmallRemainder(8 * a, Pow256(8));
    SmallRemainder(8 * b, Pow256(8));
  }

  lemma SmallRemainder(x: nat, m: nat)
    requires x < m
    ensures x % m == x
  {
  }

  /** Different messages are padded to different blocks. */
  lemma PaddingDiffers(a: seq<byte>, b: seq<byte>)
    requires |a| < Longest && |b| < Longest && a != b
    ensures a + Padding(|a|) != b + Padding(|b|)
  {
    LastBytes(a, |a|);
    LastBytes(b, |b|);
    if a + Padding(|a|) == b + Padding(|b|) {
      LengthFromBits(|a|, |b|);
      Halves(a, Padding(|a|));
      Halves(b, Padding(|b|));
    }
  }

  // ---- digests of files and of pieces ----

  function Flat(pieces: seq<seq<byte>>): seq<byte>
  {
    if pieces == [] then [] else Flat(pieces[..|pieces| - 1]) + pieces[|pieces| - 1]
  }

  /** However a message is cut into updates, its digest is that of the whole. */
  method DigestPieces<S>(h: Hashing<S>, pieces: seq<seq<byte>>) returns (digest: seq<byte>)
    requires |Flat(pieces)| < Longest
    ensures digest == Digest(h, Flat(pieces))
  {
    var digester := new Digester<S>(h);
    var i: nat := 0;
    while i < |pieces|
      invariant i <= |pieces| && digester.Valid() && fresh(digester) && fresh(digester.block) && digester.h == h
      invariant digester.message == Flat(pieces[..i])
    {
      assert pieces[..i + 1][..i] == pieces[..i];
      digester.Update(pieces[i]);
      i := i + 1;
    }
    assert pieces[..i] == pieces;
    digest := digester.Finish();
  }

  /** Reads buffer by buffer. */
  method DigestBuffered<S>(h: Hashing<S>, data: seq<byte>) returns (digest: seq<byte>)
    requires |data| < Longest
    ensures digest == Digest(h, data)
  {
    var digester := new Digester<S>(h);
    var done: nat := 0;
    while done < |data|
      invariant done <= |data| && digester.Valid() && fresh(digester) && fresh(digester.block) && digester.h == h
      invariant digester.message == data[..done]
    {
      var take := Min(BufferSize, |data| - done);
      assert data[..done] + data[done..done + take] == data[..done + take];
      digester.Update(data[done..done + take]);
      done := done + take;
    }
    assert data[..done] == data;
    digest := digester.Finish();
  }

  const ToTheEnd := UINT64 - 1

  /** The digest of a range of a file; the largest length stands for all that follows the offset. */
  method DigestRange<S>(h: Hashing<S>, file: seq<byte>, offset: nat, length: nat) returns (digest: Option<seq<byte>>)
    requires |file| < Longest
    ensures digest.Some? <==> offset <= |file| && (length == ToTheEnd || offset + length <= |file|)
    ensures digest.Some? ==> digest.value == Digest(h, if length == ToTheEnd then file[offset..] else file[offset..offset + length])
  {
    if offset > |file| {
      return None;
    }
    var available := |file| - offset;
    if length != ToTheEnd && length > available {
      return None;
    }
    var range := if length == ToTheEnd then file[offset..] else file[offset..offset + length];
    var result := DigestBuffered(h, range);
    return Some(result);
  }

  // ---- HMAC: section 2 of RFC 2104 ----

  function ZeroExtended(key: seq<byte>): (r: seq<byte>)
    requires |key| <= BlockSize
    ensures |r| == BlockSize
  {
    key + Zeros(BlockSize - |key|)
  }

  /** A key longer than a block is replaced by its digest. */
  function KeyBlock<S>(h: Hashing<S>, key: seq<byte>): (r: seq<byte>)
    requires |Digest(h, key)| <= BlockSize
    ensures |r| == BlockSize
  {
    ZeroExtended(if |key| > BlockSize then Digest(h, key) else key)
  }

  function Masked(block: seq<byte>, mask: byte): (r: seq<byte>)
    ensures |r| == |block|
  {
    seq(|block|, i requires 0 <= i < |block| => XorByte(block[i], mask))
  }

  function Authentication<S>(h: Hashing<S>, key: seq<byte>, m: seq<byte>): seq<byte>
    requires |Digest(h, key)| <= BlockSize
  {
    var block := KeyBlock(h, key);
    Digest(h, Masked(block, 0x5c) + Digest(h, Masked(block, 0x36) + m))
  }

  class Authenticator<S> {
    const inner: Digester<S>
    const outer: Digester<S>
    ghost var message: seq<byte>
    ghost const block: seq<byte>

    ghost predicate Valid()
      reads this, inner, inner.block, outer, outer.block
    {
      && inner != outer && inner.block != outer.block && inner.Valid() && outer.Valid() && outer.h == inner.h
      && inner.message == Masked(block, 0x36) + message && outer.message == Masked(block, 0x5c)
      && |block| == BlockSize
    }

    constructor (h: Hashing<S>, key: seq<byte>)
      requires |Digest(h, key)| <= BlockSize && |key| < Longest
      ensures Valid() && fresh(inner) && fresh(outer) && fresh(inner.block) && fresh(outer.block)
      ensures inner.h == h && block == KeyBlock(h, key) && message == []
    {
      var short := key;
      if |key| > BlockSize {
        var digester := new Digester<S>(h);
        assert [] + key == key;
        digester.Update(key);
        short := digester.Finish();
      }
      var padded := ZeroExtended(short);
      var first := new Digester<S>(h);
      var second := new Digester<S>(h);
      first.Update(Masked(padded, 0x36));
      second.Update(Masked(padded, 0x5c));
      assert [] + Masked(padded, 0x36) == Masked(padded, 0x36) + [] && [] + Masked(padded, 0x5c) == Masked(padded, 0x5c);
      inner, outer, block, message := first, second, padded, [];
    }

    method Update(data: seq<byte>)
      requires Valid()
      modifies this, inner, inner.block
      ensures Valid() && message == old(message) + data
    {
      Associative(Masked(block, 0x36), message, data);
      inner.Update(data);
      message := message + data;
    }

    method Finish() returns (tag: seq<byte>)
      requires Valid() && |message| < Longest - BlockSize
      requires |Digest(inner.h, Masked(block, 0x36) + message)| < Longest - BlockSize
      modifies inner, inner.block, outer, outer.block
      ensures tag == Digest(inner.h, Masked(block, 0x5c) + Digest(inner.h, Masked(block, 0x36) + message))
    {
      var digest := inner.Finish();
      outer.Update(digest);
      tag := outer.Finish();
    }
  }

  /** The tag of a file's first bytes, read buffer by buffer. */
  method AuthenticateFile<S>(h: Hashing<S>, key: seq<byte>, file: seq<byte>, size: nat) returns (tag: seq<byte>)
    requires size <= |file| < Longest - BlockSize && |key| < Longest && forall m :: |Digest(h, m)| <= BlockSize
    ensures tag == Authentication(h, key, file[..size])
  {
    var authenticator := new Authenticator<S>(h, key);
    var done: nat := 0;
    while done < size
      invariant done <= size && authenticator.Valid() && fresh(authenticator) && authenticator.inner.h == h
      invariant fresh(authenticator.inner) && fresh(authenticator.outer) && fresh(authenticator.inner.block) && fresh(authenticator.outer.block)
      invariant authenticator.block == KeyBlock(h, key) && authenticator.message == file[..done]
    {
      var take := Min(BufferSize, size - done);
      assert file[..done] + file[done..done + take] == file[..done + take];
      authenticator.Update(file[done..done + take]);
      done := done + take;
    }
    tag := authenticator.Finish();
  }
}
