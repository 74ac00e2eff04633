/** Bits packed into bytes, most significant bit first, and the writer and reader that do it one bit at a time. */
module BitStream {
  import opened Bytes
  import opened Canonical

  /** The lowest `n` bits of a number, highest first. */
  function ToBits(v: nat, n: nat): (r: HuffCode)
    ensures |r| == n
  {
    if n == 0 then [] else ToBits(v / 2, n - 1) + [v % 2]
  }

  lemma {:induction false} ValueOfToBits(v: nat, n: nat)
    requires v < Pow2(n)
    ensures Value(ToBits(v, n)) == v
  {
    if n > 0 {
      ValueOfToBits(v / 2, n - 1);
      assert ToBits(v, n)[..n - 1] == ToBits(v / 2, n - 1);
    }
  }

  lemma {:induction false} ToBitsOfValue(bits: HuffCode)
    ensures ToBits(Value(bits), |bits|) == bits
  {
    if bits != [] {
      ToBitsOfValue(bits[..|bits| - 1]);
    }
  }

  function ByteBits(b: byte): (r: HuffCode)
    ensures |r| == 8
  {
    ToBits(b, 8)
  }

  function ByteOf(bits: HuffCode): byte
    requires |bits| == 8
  {
    ValueBound(bits);
    PowersUpTo8();
    Value(bits)
  }

  lemma BitsOfByte(b: byte)
    ensures ByteOf(ByteBits(b)) == b
  {
    PowersUpTo8();
    ValueOfToBits(b, 8);
  }

  lemma ByteOfBits(bits: HuffCode)
    requires |bits| == 8
    ensures ByteBits(ByteOf(bits)) == bits
  {
    ToBitsOfValue(bits);
  }

  function Bits(s: seq<byte>): (r: HuffCode)
    ensures |r| == 8 * |s|
  {
    if s == [] then [] else ByteBits(s[0]) + Bits(s[1..])
  }

  /** The shortest byte string holding the bits, zero-padded at the end. */
  function Pack(bits: HuffCode): (s: seq<byte>)
    ensures |s| == (|bits| + 7) / 8
    decreases |bits|
  {
    if bits == [] then []
    else if |bits| < 8 then [ByteOf(bits + Zeros(8 - |bits|))]
    else [ByteOf(bits[..8])] + Pack(bits[8..])
  }

  /** How many padding bits complete the last byte. */
  function Padding(n: nat): (p: nat)
    ensures p < 8 && (n + p) % 8 == 0
  {
    (8 - n % 8) % 8
  }

  lemma BitsOfOne(b: byte)
    ensures Bits([b]) == ByteBits(b)
  {
    assert [b][1..] == [];
  }

  lemma PaddingStep(n: nat)
    requires n > 0
    ensures if n < 8 then Padding(n) == 8 - n else Padding(n) == Padding(n - 8)
  {
  }

  lemma {:induction false} BitsOfPack(bits: HuffCode)
    ensures Bits(Pack(bits)) == bits + Zeros(Padding(|bits|))
    decreases |bits|
  {
    if bits == [] {
      assert Bits(Pack(bits)) == [];
    } else {
      PaddingStep(|bits|);
      if |bits| < 8 {
        var whole := bits + Zeros(8 - |bits|);
        ByteOfBits(whole);
        BitsOfOne(ByteOf(whole));
        assert Pack(bits) == [ByteOf(whole)];
      } else {
        var first, rest := bits[..8], bits[8..];
        BitsOfPack(rest);
        ByteOfBits(first);
        var s := Pack(bits);
        assert s[0] == ByteOf(first) && s[1..] == Pack(rest);
        assert Bits(s) == first + (rest + Zeros(Padding(|rest|)));
        assert bits == first + rest;
      }
    }
  }

  lemma {:induction false} PackOfBits(s: seq<byte>)
    ensures Pack(Bits(s)) == s
  {
    if s != [] {
      PackOfBits(s[1..]);
      BitsOfByte(s[0]);
      assert Bits(s)[..8] == ByteBits(s[0]) && Bits(s)[8..] == Bits(s[1..]);
      assert s == [s[0]] + s[1..];
    }
  }

  lemma {:induction false} BitsConcat(s: seq<byte>, t: seq<byte>)
    ensures Bits(s + t) == Bits(s) + Bits(t)
  {
    if s == [] {
      assert s + t == t && [] + Bits(t) == Bits(t);
    } else {
      BitsConcat(s[1..], t);
      assert (s + t)[1..] == s[1..] + t;
      Associative(ByteBits(s[0]), Bits(s[1..]), Bits(t));
    }
  }

  /** Whole bytes stay where they are when more bits follow. */
  lemma {:induction false} PackAfterBytes(s: seq<byte>, bits: HuffCode)
    ensures Pack(Bits(s) + bits) == s + Pack(bits)
  {
    if s == [] {
      assert Bits(s) + bits == bits && s + Pack(bits) == Pack(bits);
    } else {
      var first, rest := ByteBits(s[0]), Bits(s[1..]) + bits;
      PackAfterBytes(s[1..], bits);
      Associative(first, Bits(s[1..]), bits);
      Halves(first, rest);
      BitsOfByte(s[0]);
      assert Pack(first + rest) == [s[0]] + Pack(rest);
      assert s == [s[0]] + s[1..];
      Associative([s[0]], s[1..], Pack(bits));
    }
  }

  /** The writer: complete bytes in `out`, the low `used` bits of `current` still to be written. */
  class BitWriter {
    var out: seq<byte>
    var current: byte
    var used: nat
    ghost var pending: HuffCode

    ghost predicate Valid()
      reads this
    {
      used == |pending| < 8 && current == Value(pending)
    }

    /** Every bit written so far, after the header the stream began with. */
    ghost function Written(): HuffCode
      reads this
    {
      Bits(out) + pending
    }

    constructor (header: seq<byte>)
      ensures Valid() && out == header && Written() == Bits(header)
    {
      out, current, used, pending := header, 0, 0, [];
      new;
      assert Bits(header) + [] == Bits(header);
    }

    method Write(bits: HuffCode)
      requires Valid()
      modifies this
      ensures Valid() && Written() == old(Written()) + bits
    {
      var i := 0;
      while i < |bits|
        invariant 0 <= i <= |bits| && Valid()
        invariant Written() == old(Written()) + bits[..i]
      {
        WriteBit(bits[i]);
        assert bits[..i + 1] == bits[..i] + [bits[i]];
        i := i + 1;
      }
      assert bits[..i] == bits;
    }

    method WriteBit(bit: bit)
      requires Valid()
      modifies this
      ensures Valid() && Written() == old(Written()) + [bit]
    {
      ghost var more := pending + [bit];
      assert more[..|more| - 1] == pending;
      ValueBound(more);
      PowersUpTo8();
      current := (current * 2 + bit) % 256;
      assert current == Value(more);
      used := used + 1;
      pending := more;
      if used == 8 {
        FlushByte();
      }
    }

    method FlushByte()
      requires used == |pending| == 8 && current == Value(pending)
      modifies this
      ensures Valid() && used == 0 && out == old(out) + [old(current)] && Written() == old(Written())
    {
      ByteOfBits(pending);
      BitsConcat(out, [current]);
      assert Bits([current]) == pending by { assert [current][1..] == []; }
      out := out + [current];
      current, used, pending := 0, 0, [];
    }

    method Finish()
      requires Valid()
      modifies this
      ensures Valid() && used == 0 && out == Pack(old(Written()))
    {
      ghost var whole := pending + Zeros(8 - used);
      FinalByte(out, pending);
      if used != 0 {
        ShiftedIn(pending, 8 - used);
        current := current * Pow2(8 - used) % 256;
        used, pending := 8, whole;
        FlushByte();
      }
    }
  }

  /** Shifting the pending bits to the top of the byte appends zeros to them. */
  lemma ShiftedIn(pending: HuffCode, n: nat)
    requires |pending| + n == 8
    ensures Value(pending) * Pow2(n) == Value(pending + Zeros(n)) < 256
  {
    var whole := pending + Zeros(n);
    ValueConcat(pending, Zeros(n));
    ValueZeros(n);
    ValueBound(whole);
    assert Pow2(|whole|) == 256 by { PowersUpTo8(); }
  }

  /** Packing the written bits adds the padded last byte, if any, to the complete ones. */
  lemma FinalByte(out: seq<byte>, pending: HuffCode)
    requires |pending| < 8
    ensures pending == [] ==> Pack(Bits(out) + pending) == out
    ensures pending != [] ==> Pack(Bits(out) + pending) == out + [ByteOf(pending + Zeros(8 - |pending|))]
  {
    PackAfterBytes(out, pending);
  }

  lemma PowersUpTo8()
    ensures Pow2(0) == 1 && Pow2(1) == 2 && Pow2(2) == 4 && Pow2(3) == 8 && Pow2(4) == 16
    ensures Pow2(5) == 32 && Pow2(6) == 64 && Pow2(7) == 128 && Pow2(8) == 256
  {
  }

  /** The reader: the unread bits of the byte being read stand at the top of `current`, zeros below them. */
  class BitReader {
    const data: seq<byte>
    var position: nat
    var current: byte
    var remaining: nat

    ghost predicate Valid()
      reads this
    {
      && position <= |data| && remaining <= 8
      && forall i :: remaining <= i < 8 ==> ByteBits(current)[i] == 0
    }

    /** The bits still to be read. */
    ghost function Unread(): HuffCode
      requires Valid()
      reads this
    {
      ByteBits(current)[..remaining] + Bits(data[position..])
    }

    constructor (data: seq<byte>, position: nat)
      requires position <= |data|
      ensures Valid() && this.data == data && Unread() == Bits(data[position..])
    {
      this.data := data;
      this.position, current, remaining := position, 0, 0;
      new;
      assert ByteBits(current)[..0] == [];
    }

    /** Starts the next byte once the current one is used up; false at the end of the stream. */
    method Fill() returns (ok: bool)
      requires Valid()
      modifies this
      ensures Valid() && Unread() == old(Unread())
      ensures if ok then remaining > 0 else Unread() == []
    {
      if remaining > 0 {
        return true;
      }
      assert ByteBits(current)[..0] == [];
      if position == |data| {
        return false;
      }
      current := data[position];
      assert data[position..][1..] == data[position + 1..];
      position := position + 1;
      remaining := 8;
      assert ByteBits(current)[..8] == ByteBits(current);
      return true;
    }

    /** The next bit, or -1 at the end of the stream. */
    method Read() returns (bit: int)
      requires Valid()
      modifies this
      ensures Valid()
      ensures if old(Unread()) == [] then bit == -1 && Unread() == []
              else bit == old(Unread())[0] && Unread() == old(Unread())[1..] && remaining < 8
    {
      var ok := Fill();
      if !ok {
        return -1;
      }
      ghost var bits, tail := ByteBits(current), Bits(data[position..]);
      bit := current / 128 % 2;
      ShiftByte(current);
      current := current * 2 % 256;
      remaining := remaining - 1;
      ReadOff(bits, remaining, tail);
    }

    /** True when nothing but zero bits is left of the last byte. */
    method HasOnlyZeroPaddingAndEof() returns (ok: bool)
      requires Valid() && remaining < 8
      ensures ok <==> |Unread()| < 8 && Unread() == Zeros(|Unread()|)
    {
      assert data[position..] == [] ==> Unread() == ByteBits(current)[..remaining];
      ZeroByte(current);
      ok := current == 0 && position == |data|;
    }
  }

  lemma ReadOff(bits: HuffCode, n: nat, tail: HuffCode)
    requires n < |bits|
    ensures var before := bits[..n + 1] + tail; before[0] == bits[0] && before[1..] == (bits[1..] + [0])[..n] + tail
  {
  }

  lemma {:induction false} TopBit(bits: HuffCode)
    requires |bits| == 8
    ensures Value(bits) == 128 * bits[0] + Value(bits[1..])
    ensures Value(bits[1..]) < 128
  {
    var top := [bits[0]];
    assert bits == top + bits[1..];
    ValueConcat(top, bits[1..]);
    ValueBound(bits[1..]);
    assert Value(top) == bits[0] by { assert top[..0] == []; }
    assert Pow2(7) == 128 by { PowersUpTo8(); }
  }

  lemma ShiftByte(b: byte)
    ensures ByteBits(b * 2 % 256) == ByteBits(b)[1..] + [0] && ByteBits(b)[0] == b / 128 % 2
  {
    var bits := ByteBits(b);
    var moved := bits[1..] + [0];
    BitsOfByte(b);
    TopBit(bits);
    assert moved[..7] == bits[1..];
    assert Value(moved) == b * 2 % 256;
    ToBitsOfValue(moved);
  }

  lemma ZeroByte(b: byte)
    ensures b == 0 <==> ByteBits(b) == Zeros(8)
  {
    BitsOfByte(b);
    ValueZeros(8);
    ToBitsOfValue(Zeros(8));
  }
}
