/** One block of SHA-256: section 6.2 of FIPS 180-4. */
module ShaBlock {
  import opened Bytes
  import Sha

  type Word = bv32

  const BlockSize := 64

  function Rotr(v: Word, n: nat): Word
    requires 0 < n < 32
  {
    (v >> n) | (v << (32 - n))
  }

  function Choose(e: Word, f: Word, g: Word): Word
  {
    (e & f) ^ ((!e) & g)
  }

  function Majority(a: Word, b: Word, c: Word): Word
  {
    (a & b) ^ (a & c) ^ (b & c)
  }

  function Sum0(a: Word): Word
  {
    Rotr(a, 2) ^ Rotr(a, 13) ^ Rotr(a, 22)
  }

  function Sum1(e: Word): Word
  {
    Rotr(e, 6) ^ Rotr(e, 11) ^ Rotr(e, 25)
  }

  function Spread0(w: Word): Word
  {
    Rotr(w, 7) ^ Rotr(w, 18) ^ (w >> 3)
  }

  function Spread1(w: Word): Word
  {
    Rotr(w, 17) ^ Rotr(w, 19) ^ (w >> 10)
  }

  function InitialState(): (s: seq<Word>)
    ensures |s| == 8
  {
    [0x6a09e667, 0xbb67ae85, 0x3c6ef372, 0xa54ff53a, 0x510e527f, 0x9b05688c, 0x1f83d9ab, 0x5be0cd19]
  }

  /** Eight of the round constants. */
  function ConstantRow(i: nat): (k: seq<Word>)
    requires i < 8
    ensures |k| == 8
  {
    if i == 0 then [0x428a2f98, 0x71374491, 0xb5c0fbcf, 0xe9b5dba5, 0x3956c25b, 0x59f111f1, 0x923f82a4, 0xab1c5ed5]
    else if i == 1 then [0xd807aa98, 0x12835b01, 0x243185be, 0x550c7dc3, 0x72be5d74, 0x80deb1fe, 0x9bdc06a7, 0xc19bf174]
    else if i == 2 then [0xe49b69c1, 0xefbe4786, 0x0fc19dc6, 0x240ca1cc, 0x2de92c6f, 0x4a7484aa, 0x5cb0a9dc, 0x76f988da]
    else if i == 3 then [0x983e5152, 0xa831c66d, 0xb00327c8, 0xbf597fc7, 0xc6e00bf3, 0xd5a79147, 0x06ca6351, 0x14292967]
    else if i == 4 then [0x27b70a85, 0x2e1b2138, 0x4d2c6dfc, 0x53380d13, 0x650a7354, 0x766a0abb, 0x81c2c92e, 0x92722c85]
    else if i == 5 then [0xa2bfe8a1, 0xa81a664b, 0xc24b8b70, 0xc76c51a3, 0xd192e819, 0xd6990624, 0xf40e3585, 0x106aa070]
    else if i == 6 then [0x19a4c116, 0x1e376c08, 0x2748774c, 0x34b0bcb5, 0x391c0cb3, 0x4ed8aa4a, 0x5b9cca4f, 0x682e6ff3]
    else [0x748f82ee, 0x78a5636f, 0x84c87814, 0x8cc70208, 0x90befffa, 0xa4506ceb, 0xbef9a3f7, 0xc67178f2]
  }

  function ConstantRows(n: nat): (k: seq<Word>)
    requires n <= 8
    ensures |k| == 8 * n
  {
    if n == 0 then [] else ConstantRows(n - 1) + ConstantRow(n - 1)
  }

  function RoundConstants(): (k: seq<Word>)
    ensures |k| == 64
  {
    ConstantRows(8)
  }

  function WordAt(block: seq<byte>, i: nat): Word
    requires 4 * i + 3 < |block|
  {
    ((block[4 * i] as bv32) << 24) | ((block[4 * i + 1] as bv32) << 16) | ((block[4 * i + 2] as bv32) << 8) | (block[4 * i + 3] as bv32)
  }

  /** The message schedule of a block. */
  function Schedule(block: seq<byte>, t: nat): Word
    requires |block| == BlockSize
  {
    if t < 16 then WordAt(block, t)
    else Extended(Schedule(block, t - 16), Schedule(block, t - 15), Schedule(block, t - 7), Schedule(block, t - 2))
  }

  function Extended(w16: Word, w15: Word, w7: Word, w2: Word): Word
  {
    w16 + Spread0(w15) + w7 + Spread1(w2)
  }

  datatype Working = Working(a: Word, b: Word, c: Word, d: Word, e: Word, f: Word, g: Word, h: Word)

  function Loaded(state: seq<Word>): Working
    requires |state| == 8
  {
    Working(state[0], state[1], state[2], state[3], state[4], state[5], state[6], state[7])
  }

  function Round(w: Working, k: Word, m: Word): Working
  {
    var t1 := w.h + Sum1(w.e) + Choose(w.e, w.f, w.g) + k + m;
    var t2 := Sum0(w.a) + Majority(w.a, w.b, w.c);
    Working(t1 + t2, w.a, w.b, w.c, w.d + t1, w.e, w.f, w.g)
  }

  /** The working variables after `t` rounds. */
  function Rounds(state: seq<Word>, block: seq<byte>, t: nat): Working
    requires |state| == 8 && |block| == BlockSize && t <= |RoundConstants()|
  {
    if t == 0 then Loaded(state) else Round(Rounds(state, block, t - 1), RoundConstants()[t - 1], Schedule(block, t - 1))
  }

  function Added(state: seq<Word>, w: Working): (r: seq<Word>)
    requires |state| == 8
    ensures |r| == 8
  {
    [state[0] + w.a, state[1] + w.b, state[2] + w.c, state[3] + w.d, state[4] + w.e, state[5] + w.f, state[6] + w.g, state[7] + w.h]
  }

  function Compress(state: seq<Word>, block: seq<byte>): (r: seq<Word>)
    requires |state| == 8 && |block| == BlockSize
    ensures |r| == 8
  {
    Added(state, Rounds(state, block, |RoundConstants()|))
  }

  predicate Scheduled(w: seq<Word>, block: seq<byte>)
    requires |block| == BlockSize
  {
    forall j :: 0 <= j < |w| ==> w[j] == Schedule(block, j)
  }

  lemma ScheduledMore(w: seq<Word>, block: seq<byte>, x: Word)
    requires |block| == BlockSize && Scheduled(w, block) && x == Schedule(block, |w|)
    ensures Scheduled(w + [x], block)
  {
  }

  lemma ScheduleStep(block: seq<byte>, t: nat, w16: Word, w15: Word, w7: Word, w2: Word)
    requires |block| == BlockSize && t >= 16 && w16 == Schedule(block, t - 16) && w15 == Schedule(block, t - 15)
    requires w7 == Schedule(block, t - 7) && w2 == Schedule(block, t - 2)
    ensures Extended(w16, w15, w7, w2) == Schedule(block, t)
  {
  }

  method ExpandSchedule(chunk: seq<byte>, count: nat) returns (w: seq<Word>)
    requires |chunk| == BlockSize && count >= 16
    ensures |w| == count && Scheduled(w, chunk)
  {
    w := [];
    while |w| < 16
      invariant |w| <= 16 && Scheduled(w, chunk)
    {
      ScheduledMore(w, chunk, WordAt(chunk, |w|));
      w := w + [WordAt(chunk, |w|)];
    }
    while |w| < count
      invariant 16 <= |w| <= count && Scheduled(w, chunk)
    {
      var t := |w|;
      ScheduleStep(chunk, t, w[t - 16], w[t - 15], w[t - 7], w[t - 2]);
      var x := Extended(w[t - 16], w[t - 15], w[t - 7], w[t - 2]);
      ScheduledMore(w, chunk, x);
      w := w + [x];
    }
  }

  lemma RoundsNext(state: seq<Word>, block: seq<byte>, w: seq<Word>, k: seq<Word>, t: nat)
    requires |state| == 8 && |block| == BlockSize && k == RoundConstants() && |w| == |k| && t < |k| && Scheduled(w, block)
    ensures Rounds(state, block, t + 1) == Round(Rounds(state, block, t), k[t], w[t])
  {
  }

  method RunRounds(state: seq<Word>, chunk: seq<byte>, w: seq<Word>, k: seq<Word>) returns (v: Working)
    requires |state| == 8 && |chunk| == BlockSize && k == RoundConstants() && |w| == |k| && Scheduled(w, chunk)
    ensures v == Rounds(state, chunk, |k|)
  {
    v := Loaded(state);
    var t: nat := 0;
    while t < |k|
      invariant t <= |k| && v == Rounds(state, chunk, t)
    {
      RoundsNext(state, chunk, w, k, t);
      v := Round(v, k[t], w[t]);
      t := t + 1;
    }
  }

  method Transform(state: seq<Word>, chunk: seq<byte>) returns (next: seq<Word>)
    requires |state| == 8 && |chunk| == BlockSize
    ensures next == Compress(state, chunk)
  {
    var k := RoundConstants();
    var w := ExpandSchedule(chunk, |k|);
    var v := RunRounds(state, chunk, w, k);
    next := Added(state, v);
  }

  function DigestBytes(state: seq<Word>): (d: seq<byte>)
    ensures |d| == 4 * |state|
  {
    if state == [] then [] else DigestBytes(state[..|state| - 1]) + BigEndian(state[|state| - 1] as int, 4)
  }

  /** SHA-256: the streaming digest of module `Sha` over this block function. */
  function Sha256(): Sha.Hashing<seq<Word>>
  {
    Sha.Hashing(InitialState(), (s: seq<Word>, b: seq<byte>) => if |s| == 8 && |b| == BlockSize then Compress(s, b) else s, (s: seq<Word>) => DigestBytes(s))
  }

  lemma {:induction false} StateSize(s: seq<byte>)
    ensures |Sha.Process(Sha256(), s)| == 8
    decreases |s|
  {
    if |s| >= BlockSize {
      StateSize(s[..|s| - BlockSize]);
    }
  }

  /** Every digest has 32 bytes. */
  lemma DigestSize(m: seq<byte>)
    ensures |Sha.Digest(Sha256(), m)| == 32
  {
    StateSize(m + Sha.Padding(|m|));
  }
}
