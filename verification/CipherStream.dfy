/** Keystream encryption: XOR with a stream cut into blocks, at any position and in any chunks. */
module CipherStream {
  import opened Bytes

  /** Key and nonce fixed: the keystream block for each counter. */
  type BlockFunction = nat -> seq<byte>

  const BufferSize := 1048576
  const UINT32_MAX := 0xFFFF_FFFF
  const ChaChaLimit := 0x40_0000_0000

  /** Exclusive or of the low `bits` bits. */
  function XorBits(a: nat, b: nat, bits: nat): (r: nat)
    ensures r < Pow2(bits)
  {
    if bits == 0 then 0 else 2 * XorBits(a / 2, b / 2, bits - 1) + (a % 2 + b % 2) % 2
  }

  lemma Halved(x: nat, bit: nat)
    requires bit < 2
    ensures (2 * x + bit) / 2 == x && (2 * x + bit) % 2 == bit
  {
  }

  lemma BitTwice(a: nat, k: nat)
    ensures ((a % 2 + k % 2) % 2 + k % 2) % 2 == a % 2
  {
  }

  lemma {:induction false} XorBitsTwice(a: nat, k: nat, bits: nat)
    requires a < Pow2(bits)
    ensures XorBits(XorBits(a, k, bits), k, bits) == a
  {
    if bits > 0 {
      XorBitsTwice(a / 2, k / 2, bits - 1);
      Halved(XorBits(a / 2, k / 2, bits - 1), (a % 2 + k % 2) % 2);
      BitTwice(a, k);
    }
  }

  lemma Pow2Of8()
    ensures Pow2(8) == 256
  {
  }

  function XorByte(a: byte, b: byte): byte
  {
    Pow2Of8();
    XorBits(a, b, 8)
  }

  lemma XorTwice(a: byte, k: byte)
    ensures XorByte(XorByte(a, k), k) == a
  {
    Pow2Of8();
    XorBitsTwice(a, k, 8);
  }

  /** One bit of a number, counted from the lowest. */
  function Bit(n: nat, i: nat): nat
  {
    (n / Pow2(i)) % 2
  }

  lemma BitAbove(n: nat, i: nat)
    ensures Bit(n, i + 1) == Bit(n / 2, i)
  {
    var p := Pow2(i);
    var q := n / (2 * p);
    assert n / 2 / p == q by {
      assert 2 * p * q <= n < 2 * p * q + 2 * p;
      assert p * q <= n / 2 < p * q + p;
      DividesTo(n / 2, p, q);
    }
  }

  lemma DividesTo(n: nat, p: nat, q: nat)
    requires p > 0 && p * q <= n < p * q + p
    ensures n / p == q
  {
    var e := n / p;
    assert n == p * e + n % p && 0 <= n % p < p;
    if e < q {
      Monotone(p, e, q);
    }
    if q < e {
      Monotone(p, q, e);
    }
  }

  lemma LowestBit(n: nat)
    ensures Bit(n, 0) == n % 2
  {
  }

  lemma XorBitsHalved(a: nat, b: nat, bits: nat)
    requires bits > 0
    ensures XorBits(a, b, bits) / 2 == XorBits(a / 2, b / 2, bits - 1)
    ensures XorBits(a, b, bits) % 2 == 1 <==> a % 2 != b % 2
  {
    Halved(XorBits(a / 2, b / 2, bits - 1), (a % 2 + b % 2) % 2);
  }

  lemma {:induction false} XorBitsMeaning(a: nat, b: nat, bits: nat, i: nat)
    requires i < bits
    ensures Bit(XorBits(a, b, bits), i) == 1 <==> Bit(a, i) != Bit(b, i)
    decreases bits
  {
    XorBitsHalved(a, b, bits);
    if i == 0 {
      LowestBit(XorBits(a, b, bits));
      LowestBit(a);
      LowestBit(b);
    } else {
      BitAbove(XorBits(a, b, bits), i - 1);
      BitAbove(a, i - 1);
      BitAbove(b, i - 1);
      XorBitsMeaning(a / 2, b / 2, bits - 1, i - 1);
    }
  }

  /** A bit of the exclusive or of two bytes is set exactly where their bits differ. */
  lemma XorMeaning(a: byte, b: byte, i: nat)
    requires i < 8
    ensures Bit(XorByte(a, b), i) == 1 <==> Bit(a, i) != Bit(b, i)
  {
    Pow2Of8();
    XorBitsMeaning(a, b, 8, i);
  }

  /** Bytes with the same bits are the same. */
  lemma {:induction false} SameBits(a: nat, b: nat, bits: nat)
    requires a < Pow2(bits) && b < Pow2(bits) && forall i :: 0 <= i < bits ==> Bit(a, i) == Bit(b, i)
    ensures a == b
  {
    if bits > 0 {
      forall i | 0 <= i < bits - 1 ensures Bit(a / 2, i) == Bit(b / 2, i) {
        BitAbove(a, i);
        BitAbove(b, i);
      }
      assert Bit(a, 0) == Bit(b, 0);
      SameBits(a / 2, b / 2, bits - 1);
    }
  }

  /** Plain and encrypted byte together give the keystream byte away. */
  lemma KeyFromBoth(a: byte, k: byte)
    ensures XorByte(a, XorByte(a, k)) == k
  {
    Pow2Of8();
    forall i | 0 <= i < 8 ensures Bit(XorByte(a, XorByte(a, k)), i) == Bit(k, i) {
      XorMeaning(a, k, i);
      XorMeaning(a, XorByte(a, k), i);
    }
    SameBits(XorByte(a, XorByte(a, k)), k, 8);
  }

  /** The first `n` blocks of the keystream, one after another. */
  function KeyStream(block: BlockFunction, n: nat): seq<byte>
  {
    if n == 0 then [] else KeyStream(block, n - 1) + block(n - 1)
  }

  /** The keystream byte at a position of the file. */
  function KeyByte(block: BlockFunction, width: nat, position: nat): byte
    requires width > 0
  {
    var b := block(position / width);
    if position % width < |b| then b[position % width] else 0
  }

  /** The bytes that stand at `position`, encrypted or decrypted. */
  function Xored(block: BlockFunction, width: nat, position: nat, data: seq<byte>): (r: seq<byte>)
    requires width > 0
    ensures |r| == |data|
    ensures forall i :: 0 <= i < |data| ==> r[i] == XorByte(data[i], KeyByte(block, width, position + i))
  {
    seq(|data|, i requires 0 <= i < |data| => XorByte(data[i], KeyByte(block, width, position + i)))
  }

  /** That byte is the one at this position of the blocks put together. */
  lemma {:induction false} KeyByteInStream(block: BlockFunction, width: nat, position: nat, n: nat)
    requires width > 0 && position < n * width && forall i :: 0 <= i < n ==> |block(i)| == width
    ensures |KeyStream(block, n)| == n * width && KeyStream(block, n)[position] == KeyByte(block, width, position)
  {
    KeyStreamSize(block, width, n);
    KeyStreamSize(block, width, n - 1);
    if position < (n - 1) * width {
      KeyByteInStream(block, width, position, n - 1);
    } else {
      assert (n - 1) * width <= position < (n - 1) * width + width;
      assert width * (n - 1) == (n - 1) * width;
      DividesTo(position, width, n - 1);
      assert position % width == position - (n - 1) * width;
    }
  }

  lemma {:induction false} KeyStreamSize(block: BlockFunction, width: nat, n: nat)
    requires forall i :: 0 <= i < n ==> |block(i)| == width
    ensures |KeyStream(block, n)| == n * width
  {
    if n > 0 {
      KeyStreamSize(block, width, n - 1);
      assert (n - 1) * width + width == n * width;
    }
  }

  /** How the file is cut does not matter. */
  lemma XoredSplit(block: BlockFunction, width: nat, position: nat, a: seq<byte>, b: seq<byte>)
    requires width > 0
    ensures Xored(block, width, position, a + b) == Xored(block, width, position, a) + Xored(block, width, position + |a|, b)
  {
    var whole, first, second := Xored(block, width, position, a + b), Xored(block, width, position, a), Xored(block, width, position + |a|, b);
    forall i | 0 <= i < |whole| ensures whole[i] == (first + second)[i] {
      if i >= |a| {
        assert (a + b)[i] == b[i - |a|];
      }
    }
  }

  /** Encrypting and decrypting are the same operation. */
  lemma XoredTwice(block: BlockFunction, width: nat, position: nat, data: seq<byte>)
    requires width > 0
    ensures Xored(block, width, position, Xored(block, width, position, data)) == data
  {
    var once := Xored(block, width, position, data);
    forall i | 0 <= i < |data| ensures Xored(block, width, position, once)[i] == data[i] {
      XorTwice(data[i], KeyByte(block, width, position + i));
    }
  }

  // ---- the block loop ----

  lemma Monotone(width: nat, a: nat, b: nat)
    requires a < b
    ensures a * width + width <= b * width
  {
    assert (b - a - 1) * width >= 0;
    assert b * width == a * width + width + (b - a - 1) * width;
  }

  lemma InBlock(width: nat, index: nat, k: nat)
    requires k < width
    ensures (index * width + k) / width == index && (index * width + k) % width == k
  {
    var p := index * width + k;
    var q := p / width;
    assert p == q * width + p % width;
    if q < index {
      Monotone(width, q, index);
    } else if index < q {
      Monotone(width, index, q);
    }
  }

  /** XORs one buffer in place, block by block; fails where the block counter would exceed its range. */
  method XorInPlace(block: BlockFunction, width: nat, limit: nat, position: nat, data: array<byte>) returns (ok: bool)
    requires width > 0 && forall i :: 0 <= i <= limit ==> |block(i)| == width
    modifies data
    ensures ok <==> data.Length == 0 || (position + data.Length - 1) / width <= limit
    ensures ok ==> data[..] == Xored(block, width, position, old(data[..]))
  {
    ghost var before := data[..];
    var index: nat, offset: nat, done: nat := position / width, position % width, 0;
    while done < data.Length
      invariant done <= data.Length
      invariant done < data.Length ==> index * width + offset == position + done && offset < width
      invariant done > 0 ==> (position + done - 1) / width <= limit
      invariant forall i :: 0 <= i < done ==> data[i] == XorByte(before[i], KeyByte(block, width, position + i))
      invariant forall i :: done <= i < data.Length ==> data[i] == before[i]
    {
      InBlock(width, index, offset);
      if index > limit {
        DivGrows(width, position + done, position + data.Length - 1);
        return false;
      }
      var take := Min(data.Length - done, width - offset);
      XorBlock(block, width, index, offset, position, data, done, take, before);
      LastInBlock(width, index, offset, take);
      done, index, offset := done + take, index + 1, 0;
    }
    ok := true;
  }

  lemma DivGrows(width: nat, a: nat, b: nat)
    requires width > 0 && a <= b
    ensures a / width <= b / width
  {
    var p, q := a / width, b / width;
    if q < p {
      Monotone(width, q, p);
    }
  }

  lemma LastInBlock(width: nat, index: nat, offset: nat, take: nat)
    requires offset < width && 0 < take <= width - offset
    ensures (index * width + offset + take - 1) / width == index
    ensures offset + take == width ==> (index + 1) * width == index * width + offset + take
  {
    InBlock(width, index, offset + take - 1);
  }

  /** The part of a buffer that one keystream block covers. */
  method XorBlock(block: BlockFunction, width: nat, index: nat, offset: nat, position: nat, data: array<byte>,
                  done: nat, take: nat, ghost before: seq<byte>)
    requires width > 0 && |block(index)| == width && offset + take <= width && done + take <= data.Length == |before|
    requires index * width + offset == position + done
    requires forall i :: done <= i < data.Length ==> data[i] == before[i]
    modifies data
    ensures forall i :: 0 <= i < done ==> data[i] == old(data[i])
    ensures forall i :: done <= i < done + take ==> data[i] == XorByte(before[i], KeyByte(block, width, position + i))
    ensures forall i :: done + take <= i < data.Length ==> data[i] == before[i]
  {
    var keystream := block(index);
    var i: nat := 0;
    while i < take
      invariant i <= take
      invariant forall j :: 0 <= j < done ==> data[j] == old(data[j])
      invariant forall j :: done <= j < done + i ==> data[j] == XorByte(before[j], KeyByte(block, width, position + j))
      invariant forall j :: done + i <= j < data.Length ==> data[j] == before[j]
    {
      InBlock(width, index, offset + i);
      assert KeyByte(block, width, position + (done + i)) == keystream[offset + i];
      data[done + i] := XorByte(data[done + i], keystream[offset + i]);
      i := i + 1;
    }
  }

  // ---- the counter of CTR mode ----

  /** The counter of a block: the number of the initial block plus the block index, in as many bytes. */
  function CounterBlock(initial: nat, width: nat, index: nat): (r: seq<byte>)
    ensures |r| == width
  {
    BigEndian(initial + index, width)
  }

  lemma SplitByte(value: nat, m: nat)
    requires m > 0
    ensures value % (256 * m) == 256 * ((value / 256) % m) + value % 256
  {
    var q, r := (value / 256) / m, (value / 256) % m;
    assert value / 256 == q * m + r;
    assert value == q * (256 * m) + (256 * r + value % 256);
    assert 256 * r + value % 256 < 256 * m;
    InBlock(256 * m, q, 256 * r + value % 256);
  }

  /** Bytes beyond the width are lost: the number is taken modulo 256 to the width. */
  lemma {:induction false} FromBigEndianOf(value: nat, width: nat)
    ensures FromBigEndian(BigEndian(value, width)) == value % Pow256(width)
  {
    if width > 0 {
      FromBigEndianOf(value / 256, width - 1);
      assert BigEndian(value, width)[..width - 1] == BigEndian(value / 256, width - 1);
      SplitByte(value, Pow256(width - 1));
    }
  }

  lemma {:induction false} BigEndianDrop(value: nat, c: nat, width: nat)
    ensures BigEndian(value + c * Pow256(width), width) == BigEndian(value, width)
  {
    if width > 0 {
      var m := Pow256(width - 1);
      assert value + c * Pow256(width) == value + 256 * (c * m);
      BigEndianDrop(value / 256, c, width - 1);
    }
  }

  /** The counter is the initial block plus the index modulo 2^128, as section 6.5 of NIST SP 800-38A allows. */
  lemma CounterMeaning(initial: nat, width: nat, index: nat)
    ensures FromBigEndian(CounterBlock(initial, width, index)) == (initial + index) % Pow256(width)
  {
    FromBigEndianOf(initial + index, width);
  }

  function Place(n: nat, i: int): nat
    requires -1 <= i < n
  {
    Pow256(n - 1 - i)
  }

  /** One byte weighs as much as its place. */
  lemma {:induction false} ByteReplaced(s: seq<byte>, i: nat, v: byte)
    requires i < |s|
    ensures FromBigEndian(s[i := v]) + s[i] * Place(|s|, i) == FromBigEndian(s) + v * Place(|s|, i)
  {
    var last := |s| - 1;
    if i == last {
      assert s[i := v][..last] == s[..last];
      assert Place(|s|, i) == 1;
    } else {
      ByteReplaced(s[..last], i, v);
      assert s[i := v][..last] == s[..last][i := v];
      PlaceShift(|s|, i);
      Scaled(FromBigEndian(s[..last][i := v]), FromBigEndian(s[..last]), s[i], v, Place(last, i));
    }
  }

  lemma PlaceShift(n: nat, i: int)
    requires -1 <= i < n - 1
    ensures Place(n, i) == 256 * Place(n - 1, i) && Place(n, i) == 256 * Place(n, i + 1)
  {
  }

  lemma Scaled(x: nat, y: nat, a: nat, b: nat, p: nat)
    requires x + a * p == y + b * p
    ensures 256 * x + a * (256 * p) == 256 * y + b * (256 * p)
  {
    assert a * (256 * p) == 256 * (a * p) && b * (256 * p) == 256 * (b * p);
  }

  /** One step of the carry keeps the total. */
  lemma CarryStep(x: nat, y: nat, digit: nat, carry: nat, p: nat)
    requires y + digit * p == x + ((digit + carry % 256) % 256) * p
    ensures y + (carry / 256 + (digit + carry % 256) / 256) * (256 * p) == x + carry * p
  {
    var sum := digit + carry % 256;
    var next := carry / 256 + sum / 256;
    assert sum % 256 + 256 * next == digit + carry;
    assert next * (256 * p) == (256 * next) * p;
    assert (sum % 256) * p + (256 * next) * p == (sum % 256 + 256 * next) * p == (digit + carry) * p == digit * p + carry * p;
  }

  lemma CarriedOn(before: seq<byte>, i: nat, carry: nat, total: nat)
    requires i < |before| && FromBigEndian(before) + carry * Place(|before|, i) == total
    ensures var sum := before[i] + carry % 256;
            FromBigEndian(before[i := sum % 256]) + (carry / 256 + sum / 256) * Place(|before|, i - 1) == total
  {
    var sum := before[i] + carry % 256;
    ByteReplaced(before, i, sum % 256);
    CarryStep(FromBigEndian(before), FromBigEndian(before[i := sum % 256]), before[i], carry, Place(|before|, i));
    PlaceShift(|before|, i - 1);
  }

  /** Adds the block index to the counter block in place, carrying from the last byte to the first. */
  method AddIndex(block: array<byte>, index: nat)
    modifies block
    ensures block[..] == CounterBlock(FromBigEndian(old(block[..])), block.Length, index)
  {
    ghost var counter := block[..];
    ghost var total := FromBigEndian(counter) + index;
    var n := block.Length;
    var carry: nat, i: int := index, n - 1;
    assert counter == block[..] && Place(n, n - 1) == 1;
    while i >= 0 && carry > 0
      invariant -1 <= i < n
      invariant FromBigEndian(block[..]) + carry * Place(n, i) == total
      decreases i
    {
      ghost var before := block[..];
      CarriedOn(before, i, carry, total);
      var sum := block[i] + carry % 256;
      block[i] := sum % 256;
      assert block[..] == before[i := sum % 256];
      carry := carry / 256 + sum / 256;
      i := i - 1;
    }
    BigEndianOfFrom(block[..]);
    CarryLost(FromBigEndian(block[..]), carry, n, i, total);
  }

  /** What is carried out of the first byte is lost. */
  lemma CarryLost(value: nat, carry: nat, width: nat, i: int, total: nat)
    requires -1 <= i < width && value + carry * Place(width, i) == total && (i < 0 || carry == 0)
    ensures BigEndian(value, width) == BigEndian(total, width)
  {
    if carry == 0 {
      assert total == value;
    } else {
      BigEndianDrop(value, carry, width);
    }
  }

  lemma {:induction false} BigEndianDiffer(x: nat, y: nat, width: nat)
    requires x < y < x + Pow256(width)
    ensures BigEndian(x, width) != BigEndian(y, width)
  {
    if width > 0 && x % 256 == y % 256 {
      BigEndianDiffer(x / 256, y / 256, width - 1);
      assert BigEndian(x, width)[..width - 1] == BigEndian(x / 256, width - 1);
      assert BigEndian(y, width)[..width - 1] == BigEndian(y / 256, width - 1);
    } else if width > 0 {
      assert BigEndian(x, width)[width - 1] != BigEndian(y, width)[width - 1];
    }
  }

  /** Different blocks of a file have different counters. */
  lemma CountersDiffer(initial: nat, width: nat, a: nat, b: nat)
    requires a < b < Pow256(width)
    ensures CounterBlock(initial, width, a) != CounterBlock(initial, width, b)
  {
    BigEndianDiffer(initial + a, initial + b, width);
  }

  // ---- a whole stage ----

  /** The chosen cipher with key and nonce: its keystream, the counters it has, and the most bytes it takes. */
  datatype Stage = Plain | Keyed(block: BlockFunction, width: nat, limit: nat, most: nat)

  function ChaCha20(block: BlockFunction): Stage
  {
    Keyed(block, 64, UINT32_MAX, ChaChaLimit - 1)
  }

  function Aes256(encrypt: seq<byte> -> seq<byte>, counter: seq<byte>): Stage
  {
    var initial := FromBigEndian(counter);
    Keyed(i => encrypt(CounterBlock(initial, 16, i)), 16, UINT64, UINT64)
  }

  ghost predicate Sound(stage: Stage)
  {
    stage.Keyed? ==>
      && stage.width > 0 && (forall i :: 0 <= i <= stage.limit ==> |stage.block(i)| == stage.width)
      && (stage.most == 0 || (stage.most - 1) / stage.width <= stage.limit)
  }

  function Applied(stage: Stage, data: seq<byte>): (r: seq<byte>)
    requires stage.Keyed? ==> stage.width > 0
    ensures |r| == |data|
  {
    if stage.Plain? then data else Xored(stage.block, stage.width, 0, data)
  }

  /** Below its size limit no block counter of ChaCha20 is out of range, as section 2.4 of RFC 8439 requires. */
  lemma ChaChaSound(block: BlockFunction)
    requires forall i :: 0 <= i <= UINT32_MAX ==> |block(i)| == 64
    ensures Sound(ChaCha20(block))
  {
  }

  lemma AesSound(encrypt: seq<byte> -> seq<byte>, counter: seq<byte>)
    requires forall b :: |encrypt(b)| == 16
    ensures Sound(Aes256(encrypt, counter))
  {
    var stage := Aes256(encrypt, counter);
    forall i: nat ensures |stage.block(i)| == stage.width {
      assert |encrypt(CounterBlock(FromBigEndian(counter), 16, i))| == 16;
    }
  }

  /** How many blocks of the keystream `n` bytes need. */
  function BlocksFor(n: nat, width: nat): nat
    requires width > 0
  {
    (n + width - 1) / width
  }

  ghost predicate Differ(stream: seq<byte>, data: seq<byte>, coded: seq<byte>)
  {
    |coded| == |data| <= |stream| && forall i :: 0 <= i < |data| ==> XorByte(data[i], coded[i]) == stream[i]
  }

  /** The bytes are left alone without encryption; otherwise they and the result differ by the keystream. */
  ghost predicate Encrypted(stage: Stage, data: seq<byte>, coded: seq<byte>)
  {
    && |coded| == |data| && (stage.Plain? ==> coded == data)
    && (stage.Keyed? ==> stage.width > 0 && Differ(KeyStream(stage.block, BlocksFor(|data|, stage.width)), data, coded))
  }

  lemma EnoughBlocks(n: nat, width: nat)
    requires width > 0
    ensures n <= BlocksFor(n, width) * width
    ensures n > 0 ==> BlocksFor(n, width) - 1 == (n - 1) / width
  {
    var q := BlocksFor(n, width);
    assert n + width - 1 < q * width + width;
    if n > 0 {
      assert q * width <= n + width - 1;
      assert width * (q - 1) == q * width - width && width * q == q * width;
      DividesTo(n - 1, width, q - 1);
    }
  }

  /** What a stage makes of bytes is an encryption of them. */
  lemma AppliedIsEncrypted(stage: Stage, data: seq<byte>)
    requires Sound(stage) && (stage.Keyed? ==> |data| <= stage.most)
    ensures Encrypted(stage, data, Applied(stage, data))
  {
    if stage.Keyed? && data != [] {
      var n := BlocksFor(|data|, stage.width);
      EnoughBlocks(|data|, stage.width);
      DivGrows(stage.width, |data| - 1, stage.most - 1);
      KeyStreamSize(stage.block, stage.width, n);
      forall i | 0 <= i < |data| ensures XorByte(data[i], Applied(stage, data)[i]) == KeyStream(stage.block, n)[i] {
        KeyFromBoth(data[i], KeyByte(stage.block, stage.width, i));
        KeyByteInStream(stage.block, stage.width, i, n);
      }
    }
  }

  /** Encrypts or decrypts a range of a file, buffer by buffer. */
  method CryptStage(input: seq<byte>, offset: nat, length: nat, stage: Stage, hasPassword: bool) returns (output: Option<seq<byte>>)
    requires Sound(stage)
    ensures output.Some? <==> (stage.Plain? || (hasPassword && length <= stage.most)) && offset + length <= |input|
    ensures output.Some? ==> output.value == Applied(stage, input[offset..offset + length])
    ensures output.Some? ==> Encrypted(stage, input[offset..offset + length], output.value)
  {
    if (stage.Keyed? && !hasPassword) || offset + length > |input| {
      return None;
    }
    if stage.Plain? {
      return Some(input[offset..offset + length]);
    }
    if length > stage.most {
      return None;
    }
    var out := CryptRange(input[offset..offset + length], stage);
    AppliedIsEncrypted(stage, input[offset..offset + length]);
    return Some(out);
  }

  method CryptRange(range: seq<byte>, stage: Stage) returns (out: seq<byte>)
    requires stage.Keyed? && Sound(stage) && |range| <= stage.most
    ensures out == Applied(stage, range)
  {
    out := [];
    var position: nat := 0;
    while position < |range|
      invariant position <= |range| && out == Xored(stage.block, stage.width, 0, range[..position])
    {
      var wanted := Min(BufferSize, |range| - position);
      var piece := CryptBuffer(range[position..position + wanted], position, stage);
      XoredSplit(stage.block, stage.width, 0, range[..position], range[position..position + wanted]);
      assert range[..position] + range[position..position + wanted] == range[..position + wanted];
      out := out + piece;
      position := position + wanted;
    }
    assert range[..position] == range;
  }

  /** One buffer, in place; within the size limit its counters never run out. */
  method CryptBuffer(piece: seq<byte>, position: nat, stage: Stage) returns (out: seq<byte>)
    requires stage.Keyed? && Sound(stage) && piece != [] && position + |piece| <= stage.most
    ensures out == Xored(stage.block, stage.width, position, piece)
  {
    var buffer := new byte[|piece|](i requires 0 <= i < |piece| => piece[i]);
    assert buffer[..] == piece;
    DivGrows(stage.width, position + |piece| - 1, stage.most - 1);
    var ok := XorInPlace(stage.block, stage.width, stage.limit, position, buffer);
    assert ok;
    out := buffer[..];
  }

  /** What one stage encrypts, the same stage decrypts. */
  lemma AppliedTwice(stage: Stage, data: seq<byte>)
    requires stage.Keyed? ==> stage.width > 0
    ensures Applied(stage, Applied(stage, data)) == data
  {
    if stage.Keyed? {
      XoredTwice(stage.block, stage.width, 0, data);
    }
  }
}
