/** The block decoder in the program's own form: it advances through the input and fills an array in place. */
module Lz77Decoder {
  import opened Bytes
  import opened Lz77Format

  /** Reads extension bytes until one is not 255, never letting the value exceed the block size. */
  method ReadExtension(input: seq<byte>, start: nat, base: nat, outputSize: nat) returns (ok: bool, value: nat, read: nat)
    requires start <= |input|
    ensures ok ==> start <= read <= |input| && Extend(base, input[start..], outputSize) == Some((value, input[read..]))
    ensures !ok ==> Extend(base, input[start..], outputSize) == None
  {
    value, read := base, start;
    while true
      invariant start <= read <= |input|
      invariant Extend(value, input[read..], outputSize) == Extend(base, input[start..], outputSize)
      decreases |input| - read
    {
      if value > outputSize || read == |input| {
        return false, value, read;
      }
      var byte := input[read];
      assert input[read..][0] == byte && input[read..][1..] == input[read + 1..];
      read := read + 1;
      if value + byte > outputSize {
        return false, value, read;
      }
      value := value + byte;
      if byte != 255 {
        return true, value, read;
      }
    }
  }

  method ReadCount(input: seq<byte>, start: nat, nibble: nat, outputSize: nat) returns (ok: bool, value: nat, read: nat)
    requires start <= |input|
    ensures ok ==> start <= read <= |input| && ReadLength(nibble, input[start..], outputSize) == Some((value, input[read..]))
    ensures !ok ==> ReadLength(nibble, input[start..], outputSize) == None
  {
    if nibble == 15 {
      ok, value, read := ReadExtension(input, start, 15, outputSize);
    } else {
      ok, value, read := true, nibble, start;
    }
  }

  method CopyLiterals(input: seq<byte>, read: nat, count: nat, output: array<byte>, produced: nat)
    requires read + count <= |input| && produced + count <= output.Length
    modifies output
    ensures output[..produced + count] == old(output[..produced]) + input[read..read + count]
  {
    forall i | 0 <= i < count {
      output[produced + i] := input[read + i];
    }
  }

  lemma {:induction false} CopyOneMore(out: seq<byte>, distance: nat, n: nat)
    requires 1 <= distance <= |out|
    ensures var r := Copy(out, distance, n); Copy(out, distance, n + 1) == r + [r[|r| - distance]]
    decreases n
  {
    if n > 0 {
      CopyOneMore(out + [out[|out| - distance]], distance, n - 1);
    }
  }

  /** The byte-wise copy within the output: source and destination may overlap. */
  method CopyMatch(output: array<byte>, start: nat, distance: nat, length: nat)
    requires 1 <= distance <= start && start + length <= output.Length
    modifies output
    ensures output[..start + length] == Copy(old(output[..start]), distance, length)
  {
    ghost var out := output[..start];
    var index := 0;
    while index < length
      invariant 0 <= index <= length
      invariant output[..start + index] == Copy(out, distance, index)
    {
      CopyOneMore(out, distance, index);
      ghost var before := output[..start + index];
      var produced := start + index;
      output[produced] := output[produced - distance];
      assert output[..produced + 1] == before + [before[|before| - distance]];
      index := index + 1;
    }
  }

  /** The token and literals of one step: copies the literals and returns the match nibble. */
  method DecodeLiterals(input: seq<byte>, start: nat, output: array<byte>, begin: nat)
    returns (ok: bool, nibble: nat, read: nat, produced: nat)
    requires start < |input| && begin <= output.Length
    modifies output
    ensures var unread := input[start..]; var run := ReadLength(unread[0] / 16, unread[1..], output.Length);
            if ok then
              && start < read <= |input| && begin <= produced <= output.Length && nibble == unread[0] % 16
              && run.Some? && produced - begin == run.value.0 <= |run.value.1| && run.value.1[run.value.0..] == input[read..]
              && output[..produced] == old(output[..begin]) + run.value.1[..run.value.0]
            else run.None? || run.value.0 > |run.value.1| || begin + run.value.0 > output.Length
  {
    ghost var unread := input[start..];
    var token := input[start];
    assert unread[0] == token && unread[1..] == input[start + 1..];
    nibble, produced := token % 16, begin;
    var literalCount;
    ok, literalCount, read := ReadCount(input, start + 1, token / 16, output.Length);
    if !ok || literalCount > |input| - read || literalCount > output.Length - begin {
      return false, nibble, read, produced;
    }
    assert input[read..][..literalCount] == input[read..read + literalCount];
    assert input[read..][literalCount..] == input[read + literalCount..];
    CopyLiterals(input, read, literalCount, output, begin);
    read, produced := read + literalCount, begin + literalCount;
  }

  /** The match of one step: its length, its distance and the copy. */
  method DecodeMatch(input: seq<byte>, start: nat, nibble: nat, output: array<byte>, begin: nat, ghost literals: seq<byte>)
    returns (ok: bool, read: nat, produced: nat)
    requires start <= |input| && begin <= output.Length && |literals| <= begin
    modifies output
    ensures var m := ReadMatch(nibble, literals, input[start..], begin - |literals|, output.Length);
            if ok then
              && start < read <= |input| && begin <= produced <= output.Length
              && m.Some? && m.value.0.Match? && m.value.1 == input[read..]
              && 1 <= m.value.0.distance <= begin
              && output[..produced] == Copy(old(output[..begin]), m.value.0.distance, m.value.0.length)
            else m.None?
  {
    var matchCode;
    produced := begin;
    ok, matchCode, read := ReadCount(input, start, nibble, output.Length);
    if !ok || |input| - read < 2 {
      return false, read, produced;
    }
    var length := matchCode + MinMatch;
    var distance := input[read] as int + 256 * (input[read + 1] as int);
    ghost var tail := input[read..];
    assert tail[0] == input[read] && tail[1] == input[read + 1] && tail[2..] == input[read + 2..];
    read := read + 2;
    if distance == 0 || distance > begin || length > output.Length - begin {
      return false, read, produced;
    }
    CopyMatch(output, begin, distance, length);
    produced := begin + length;
  }

  /** One step of the decoder, once its literals are known. */
  lemma StepWithLiterals(input: seq<byte>, out: seq<byte>, size: nat, count: nat, rest: seq<byte>)
    requires |out| < size && input != []
    requires ReadLength(input[0] / 16, input[1..], size) == Some((count, rest)) && count <= |rest| && |out| + count <= size
    ensures |out| + count == size ==> Decode(input, out, size) == if rest[count..] == [] then Some(out + rest[..count]) else None
    ensures |out| + count < size ==>
              var m := ReadMatch(input[0] % 16, rest[..count], rest[count..], |out|, size);
              if m.None? then Decode(input, out, size) == None
              else Fits(m.value.0, |out|, true) && m.value.0.Match? && m.value.0.literals == rest[..count]
                   && |out| + StepSize(m.value.0) <= size
                   && Decode(input, out, size) == Decode(m.value.1, Apply(out, m.value.0), size)
  {
    var r := ReadStep(input, |out|, size);
    if r.Some? {
      StepPrints(input, |out|, size);
    }
  }

  lemma StepWithoutLiterals(input: seq<byte>, out: seq<byte>, size: nat)
    requires |out| < size && input != []
    requires var run := ReadLength(input[0] / 16, input[1..], size);
             run.None? || run.value.0 > |run.value.1| || |out| + run.value.0 > size
    ensures Decode(input, out, size) == None
  {
  }

  /** Decodes a block into an array of its declared size; true exactly when the block is well formed. */
  method DecodeBlock(input: seq<byte>, output: array<byte>) returns (ok: bool)
    modifies output
    ensures ok ==> Decode(input, [], output.Length) == Some(output[..])
    ensures !ok ==> Decode(input, [], output.Length) == None
  {
    var read: nat, produced: nat := 0, 0;
    ghost var goal := Decode(input, [], output.Length);
    assert input[0..] == input && output[..0] == [];
    while true
      invariant read <= |input| && produced <= output.Length
      invariant Decode(input[read..], output[..produced], output.Length) == goal
      decreases |input| - read
    {
      if produced == output.Length {
        assert output[..produced] == output[..];
        return read == |input|;
      }
      if read == |input| {
        return false;
      }
      ghost var unread, out := input[read..], output[..produced];
      ghost var run := ReadLength(unread[0] / 16, unread[1..], output.Length);
      var good, nibble, next, filled := DecodeLiterals(input, read, output, produced);
      if !good {
        StepWithoutLiterals(unread, out, output.Length);
        return false;
      }
      StepWithLiterals(unread, out, output.Length, run.value.0, run.value.1);
      if filled == output.Length {
        assert output[..filled] == output[..];
        return next == |input|;
      }
      ghost var literals := run.value.1[..run.value.0];
      good, read, produced := DecodeMatch(input, next, nibble, output, filled, literals);
      if !good {
        return false;
      }
    }
  }
}
