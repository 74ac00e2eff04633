/** LZ77 compression of a whole file, block by block, and the decompressor that undoes it. */
module Lz77Codec {
  import opened Bytes
  import opened Lz77Format
  import opened Lz77Decoder
  import opened Lz77Encoder

  const TokenBlock := 0
  const StoredBlock := 1

  function Magic(): (m: seq<byte>)
    ensures |m| == 4
  {
    [76, 90, 55, 55]
  }

  // ---- what is written ----

  datatype Payload = Payload(flags: byte, bytes: seq<byte>)

  /** A block is stored verbatim whenever its token stream is not smaller. */
  ghost function PayloadOf(raw: seq<byte>): (p: Payload)
    ensures |p.bytes| <= |raw|
    ensures if p.flags == StoredBlock then p.bytes == raw else p.flags == TokenBlock && |p.bytes| < |raw|
  {
    BlockRoundTrip(raw);
    var encoded := BlockBytes(Steps(raw));
    if |encoded| >= |raw| then Payload(StoredBlock, raw) else Payload(TokenBlock, encoded)
  }

  /** The smaller form is the one that is stored: tokens exactly where they are shorter. */
  lemma PayloadIsSmaller(raw: seq<byte>)
    ensures |PayloadOf(raw).bytes| == Min(TokenSize(raw), |raw|)
    ensures PayloadOf(raw).flags == TokenBlock <==> TokenSize(raw) < |raw|
  {
  }

  ghost function TokenSize(raw: seq<byte>): nat
  {
    BlockRoundTrip(raw);
    |BlockBytes(Steps(raw))|
  }

  function Record(rawLength: nat, payload: Payload): (r: seq<byte>)
    ensures |r| == 9 + |payload.bytes|
  {
    [payload.flags] + LittleEndian(rawLength, 4) + LittleEndian(|payload.bytes|, 4) + payload.bytes
  }

  type Packer = seq<byte> -> Payload

  ghost function EncoderPayloads(): Packer
  {
    raw => PayloadOf(raw)
  }

  /** The records of consecutive blocks, each with the payload chosen for it. */
  ghost function Blocks(data: seq<byte>, pack: Packer): seq<byte>
  {
    if data == [] then []
    else
      var n := Min(BlockSize, |data|);
      Record(n, pack(data[..n])) + Blocks(data[n..], pack)
  }

  ghost function Compressed(data: seq<byte>): seq<byte>
  {
    Magic() + LittleEndian(|data|, 8) + Blocks(data, EncoderPayloads())
  }

  function BlockCount(n: nat): nat
  {
    (n + BlockSize - 1) / BlockSize
  }

  lemma BlockCountStep(n: nat)
    requires n > 0
    ensures BlockCount(n) == 1 + BlockCount(n - Min(BlockSize, n))
  {
  }

  lemma {:induction false} BlocksSize(data: seq<byte>, pack: Packer)
    requires forall raw :: |pack(raw).bytes| <= |raw|
    ensures |Blocks(data, pack)| <= |data| + 9 * BlockCount(|data|)
  {
    if data != [] {
      BlocksSize(data[Min(BlockSize, |data|)..], pack);
      BlockCountStep(|data|);
    }
  }

  /** Compression adds at most 12 bytes and 9 for every block. */
  lemma CompressedSize(data: seq<byte>)
    ensures |Compressed(data)| <= 12 + |data| + 9 * BlockCount(|data|)
  {
    BlocksSize(data, EncoderPayloads());
  }

  // ---- what is read ----

  /** The raw bytes of one block record, or nothing when its payload is not acceptable. */
  function BlockContent(flags: byte, rawLength: nat, body: seq<byte>): (r: Option<seq<byte>>)
    ensures r.Some? ==> |r.value| == rawLength
  {
    if flags == StoredBlock then (if |body| == rawLength then Some(body) else None)
    else if flags == TokenBlock && |body| < rawLength then Decode(body, [], rawLength)
    else None
  }

  /** One block record of a stream that still owes `left` bytes, and what follows it. */
  function ReadBlock(input: seq<byte>, left: nat): (r: Option<(seq<byte>, seq<byte>)>)
    ensures r.Some? ==> 0 < |r.value.0| <= left
  {
    if |input| < 9 then None
    else
      var flags, rawLength, length := input[0], FromLittleEndian(input[1..5]), FromLittleEndian(input[5..9]);
      if rawLength == 0 || rawLength > BlockSize || rawLength > left || |input| < 9 + length then None
      else
        var content := BlockContent(flags, rawLength, input[9..9 + length]);
        if content.None? then None else Some((content.value, input[9 + length..]))
  }

  /** The blocks that must make up the next `left` bytes of output, with nothing after them. */
  function ReadBlocks(input: seq<byte>, left: nat): (r: Option<seq<byte>>)
    ensures r.Some? ==> |r.value| == left
    decreases left
  {
    if left == 0 then (if input == [] then Some([]) else None)
    else
      var block := ReadBlock(input, left);
      if block.None? then None
      else Prepend(block.value.0, ReadBlocks(block.value.1, left - |block.value.0|))
  }

  function Decompressed(input: seq<byte>, expectedSize: nat): (r: Option<seq<byte>>)
    ensures r.Some? ==> |r.value| == expectedSize
  {
    if |input| < 12 || input[..4] != Magic() || FromLittleEndian(input[4..12]) != expectedSize then None
    else ReadBlocks(input[12..], expectedSize)
  }

  // ---- the round trip ----

  /** A payload that the reader turns back into its block, no larger than it. */
  ghost predicate Readable(raw: seq<byte>, payload: Payload)
  {
    BlockContent(payload.flags, |raw|, payload.bytes) == Some(raw) && |payload.bytes| <= |raw|
  }

  lemma PayloadReadable(raw: seq<byte>)
    ensures Readable(raw, PayloadOf(raw))
  {
    BlockRoundTrip(raw);
  }

  lemma Pow256Of4()
    ensures Pow256(4) == 0x1_0000_0000
  {
  }

  lemma RecordLayout(rawLength: nat, payload: Payload, rest: seq<byte>)
    requires rawLength < 0x1_0000_0000 && |payload.bytes| < 0x1_0000_0000
    ensures var input, n := Record(rawLength, payload) + rest, |payload.bytes|;
            && |input| == 9 + n + |rest|
            && input[0] == payload.flags && FromLittleEndian(input[1..5]) == rawLength && FromLittleEndian(input[5..9]) == n
            && input[9..9 + n] == payload.bytes && input[9 + n..] == rest
  {
    Pow256Of4();
    FromLittleEndianOf(rawLength, 4);
    FromLittleEndianOf(|payload.bytes|, 4);
    var input := Record(rawLength, payload) + rest;
    assert input[1..5] == LittleEndian(rawLength, 4) && input[5..9] == LittleEndian(|payload.bytes|, 4);
  }

  /** Reading one record whose payload is acceptable, whatever follows it. */
  lemma RecordReads(raw: seq<byte>, payload: Payload, rest: seq<byte>, left: nat)
    requires Readable(raw, payload) && 0 < |raw| <= BlockSize && |raw| <= left
    ensures ReadBlock(Record(|raw|, payload) + rest, left) == Some((raw, rest))
  {
    RecordLayout(|raw|, payload, rest);
  }

  lemma OneMoreRead(raw: seq<byte>, payload: Payload, more: seq<byte>, rest: seq<byte>)
    requires Readable(raw, payload) && 0 < |raw| <= BlockSize && ReadBlocks(more, |rest|) == Some(rest)
    ensures ReadBlocks(Record(|raw|, payload) + more, |raw + rest|) == Some(raw + rest)
  {
    RecordReads(raw, payload, more, |raw + rest|);
  }

  lemma FirstRead(data: seq<byte>, n: nat, payload: Payload, more: seq<byte>)
    requires 0 < n <= |data| && n <= BlockSize && Readable(data[..n], payload)
    requires ReadBlocks(more, |data[n..]|) == Some(data[n..])
    ensures ReadBlocks(Record(n, payload) + more, |data|) == Some(data)
  {
    OneMoreRead(data[..n], payload, more, data[n..]);
    assert data == data[..n] + data[n..];
  }

  lemma BlocksFirst(data: seq<byte>, pack: Packer)
    requires data != []
    ensures var n := Min(BlockSize, |data|); Blocks(data, pack) == Record(n, pack(data[..n])) + Blocks(data[n..], pack)
  {
  }

  lemma {:induction false} BlocksRead(data: seq<byte>, pack: Packer)
    requires forall raw :: Readable(raw, pack(raw))
    ensures ReadBlocks(Blocks(data, pack), |data|) == Some(data)
  {
    if data != [] {
      var n := Min(BlockSize, |data|);
      BlocksRead(data[n..], pack);
      BlocksFirst(data, pack);
      FirstRead(data, n, pack(data[..n]), Blocks(data[n..], pack));
    }
  }

  lemma FramedRead(body: seq<byte>, size: nat)
    requires size < UINT64
    ensures Decompressed(Magic() + LittleEndian(size, 8) + body, size) == ReadBlocks(body, size)
  {
    var input := Magic() + LittleEndian(size, 8) + body;
    Pow256Of8();
    FromLittleEndianOf(size, 8);
    assert input[..4] == Magic() && input[4..12] == LittleEndian(size, 8) && input[12..] == body;
  }

  lemma FramedPrinted(input: seq<byte>, size: nat)
    requires Decompressed(input, size).Some?
    ensures input == Magic() + LittleEndian(size, 8) + input[12..]
  {
    LittleEndianOfFrom(input[4..12]);
    assert input == input[..4] + input[4..12] + input[12..];
  }

  /** Decompressing what was compressed returns the file. */
  lemma CompressedRoundTrip(data: seq<byte>)
    requires |data| < UINT64
    ensures Decompressed(Compressed(data), |data|) == Some(data)
  {
    FramedRead(Blocks(data, EncoderPayloads()), |data|);
    forall raw ensures Readable(raw, EncoderPayloads()(raw)) {
      PayloadReadable(raw);
    }
    BlocksRead(data, EncoderPayloads());
  }

  // ---- what is accepted ----

  /** One block and the payload it is stored as. */
  datatype Stored = Stored(raw: seq<byte>, payload: Payload)

  ghost predicate Proper(blocks: seq<Stored>)
  {
    forall i :: 0 <= i < |blocks| ==> 0 < |blocks[i].raw| <= BlockSize && Readable(blocks[i].raw, blocks[i].payload)
  }

  function Printed(blocks: seq<Stored>): seq<byte>
  {
    if blocks == [] then [] else Record(|blocks[0].raw|, blocks[0].payload) + Printed(blocks[1..])
  }

  function Content(blocks: seq<Stored>): seq<byte>
  {
    if blocks == [] then [] else blocks[0].raw + Content(blocks[1..])
  }

  lemma {:induction false} PrintedReads(blocks: seq<Stored>)
    requires Proper(blocks)
    ensures ReadBlocks(Printed(blocks), |Content(blocks)|) == Some(Content(blocks))
  {
    if blocks != [] {
      PrintedReads(blocks[1..]);
      OneMoreRead(blocks[0].raw, blocks[0].payload, Printed(blocks[1..]), Content(blocks[1..]));
    }
  }

  lemma RecordPrinted(input: seq<byte>, length: nat)
    requires |input| >= 9 + length && length == FromLittleEndian(input[5..9])
    ensures input == Record(FromLittleEndian(input[1..5]), Payload(input[0], input[9..9 + length])) + input[9 + length..]
  {
    LittleEndianOfFrom(input[1..5]);
    LittleEndianOfFrom(input[5..9]);
    assert input == [input[0]] + input[1..5] + input[5..9] + input[9..9 + length] + input[9 + length..];
  }

  lemma ReadBlockPrinted(input: seq<byte>, left: nat) returns (b: Stored)
    requires ReadBlock(input, left).Some?
    ensures Proper([b]) && b.raw == ReadBlock(input, left).value.0
    ensures input == Record(|b.raw|, b.payload) + ReadBlock(input, left).value.1
  {
    var length := FromLittleEndian(input[5..9]);
    b := Stored(ReadBlock(input, left).value.0, Payload(input[0], input[9..9 + length]));
    RecordPrinted(input, length);
  }

  lemma {:induction false} AcceptedIsPrinted(input: seq<byte>, left: nat) returns (blocks: seq<Stored>)
    requires ReadBlocks(input, left).Some?
    ensures Proper(blocks) && Printed(blocks) == input && Content(blocks) == ReadBlocks(input, left).value
    decreases left
  {
    blocks := [];
    if left > 0 {
      var r := ReadBlock(input, left).value;
      var b := ReadBlockPrinted(input, left);
      var more := AcceptedIsPrinted(r.1, left - |r.0|);
      assert [b][0] == b;
      blocks := [b] + more;
      assert blocks[1..] == more;
    }
  }

  /** The decoder accepts exactly header and blocks, each stored verbatim or as a smaller token stream that denotes it,
      which make up the declared number of bytes; it returns those. */
  lemma DecompressedMeaning(input: seq<byte>, size: nat, out: seq<byte>)
    requires size < UINT64
    ensures Decompressed(input, size) == Some(out) <==>
            |out| == size && exists blocks :: Proper(blocks) && Content(blocks) == out
                                              && input == Magic() + LittleEndian(size, 8) + Printed(blocks)
  {
    if Decompressed(input, size) == Some(out) {
      var blocks := AcceptedIsPrinted(input[12..], size);
      FramedPrinted(input, size);
    }
    forall blocks | Proper(blocks) && Content(blocks) == out && |out| == size && input == Magic() + LittleEndian(size, 8) + Printed(blocks)
      ensures Decompressed(input, size) == Some(out)
    {
      PrintedReads(blocks);
      FramedRead(Printed(blocks), size);
    }
  }

  // ---- the program ----

  method Lz77Compress(input: seq<byte>) returns (output: seq<byte>)
    ensures output == Compressed(input)
    ensures |output| <= 12 + |input| + 9 * BlockCount(|input|)
    ensures |input| < UINT64 ==> Decompressed(output, |input|) == Some(input)
  {
    var blocks := WriteBlocks(input);
    output := Magic() + LittleEndian(|input|, 8) + blocks;
    CompressedSize(input);
    if |input| < UINT64 {
      CompressedRoundTrip(input);
    }
  }

  method WriteBlocks(input: seq<byte>) returns (output: seq<byte>)
    ensures output == Blocks(input, EncoderPayloads())
  {
    output := [];
    var encoder := new Encoder();
    var completed: nat := 0;
    ghost var pack := EncoderPayloads();
    NothingWritten(input, pack);
    while completed < |input|
      invariant encoder.head.Length == HashSize && fresh(encoder) && fresh(encoder.head)
      invariant WrittenTo(input, pack, completed, output)
    {
      var wanted := Min(BlockSize, |input| - completed);
      var payload := EncodePayload(encoder, input[completed..completed + wanted]);
      NextBlock(input, pack, completed, output, wanted, payload);
      output := output + Record(wanted, payload);
      completed := completed + wanted;
    }
    AllWritten(input, pack, output);
  }

  /** What is written so far, then the blocks to come, are all the blocks. */
  ghost predicate WrittenTo(input: seq<byte>, pack: Packer, completed: nat, output: seq<byte>)
  {
    completed <= |input| && output + Blocks(input[completed..], pack) == Blocks(input, pack)
  }

  lemma NothingWritten(input: seq<byte>, pack: Packer)
    ensures WrittenTo(input, pack, 0, [])
  {
    assert input[0..] == input && [] + Blocks(input, pack) == Blocks(input, pack);
  }

  lemma AllWritten(input: seq<byte>, pack: Packer, output: seq<byte>)
    requires WrittenTo(input, pack, |input|, output)
    ensures output == Blocks(input, pack)
  {
    assert input[|input|..] == [] && output + [] == output;
  }

  method EncodePayload(encoder: Encoder, raw: seq<byte>) returns (payload: Payload)
    requires 0 < |raw| <= BlockSize && encoder.head.Length == HashSize
    modifies encoder, encoder.head
    ensures payload == EncoderPayloads()(raw)
  {
    encoder.Encode(raw);
    var encoded := encoder.output;
    if |encoded| >= |raw| {
      payload := Payload(StoredBlock, raw);
    } else {
      payload := Payload(TokenBlock, encoded);
    }
  }

  lemma NextBlock(input: seq<byte>, pack: Packer, completed: nat, output: seq<byte>, n: nat, payload: Payload)
    requires completed < |input| && WrittenTo(input, pack, completed, output)
    requires n == Min(BlockSize, |input| - completed) && payload == pack(input[completed..completed + n])
    ensures WrittenTo(input, pack, completed + n, output + Record(n, payload))
  {
    var rest := input[completed..];
    assert rest[..n] == input[completed..completed + n] && rest[n..] == input[completed + n..];
    Associative(output, Record(n, pack(rest[..n])), Blocks(rest[n..], pack));
  }

  /** Reads one record; the block's raw bytes come out of the payload or of the token decoder. */
  method ReadNext(input: seq<byte>, position: nat, left: nat) returns (ok: bool, raw: seq<byte>, next: nat)
    requires position <= |input|
    ensures if ok then next <= |input| && ReadBlock(input[position..], left) == Some((raw, input[next..]))
            else ReadBlock(input[position..], left) == None
  {
    raw, next := [], position;
    ghost var unread := input[position..];
    if |input| - position < 9 {
      return false, raw, next;
    }
    var flags := input[position];
    var rawLength := FromLittleEndian(input[position + 1..position + 5]);
    var length := FromLittleEndian(input[position + 5..position + 9]);
    assert unread[1..5] == input[position + 1..position + 5] && unread[5..9] == input[position + 5..position + 9];
    if flags != TokenBlock && flags != StoredBlock {
      return false, raw, next;
    }
    if rawLength == 0 || rawLength > BlockSize || rawLength > left {
      return false, raw, next;
    }
    if !(if flags == StoredBlock then length == rawLength else length < rawLength) {
      return false, raw, next;
    }
    if |input| - position - 9 < length {
      return false, raw, next;
    }
    next := position + 9 + length;
    raw := input[position + 9..next];
    assert unread[9..9 + length] == raw && unread[9 + length..] == input[next..];
    ok := true;
    if flags == TokenBlock {
      var buffer := new byte[rawLength];
      ok := DecodeBlock(raw, buffer);
      raw := buffer[..];
    }
  }

  method Lz77Decompress(input: seq<byte>, expectedSize: nat) returns (result: Option<seq<byte>>)
    ensures result == Decompressed(input, expectedSize)
  {
    if |input| < 12 || input[..4] != Magic() || FromLittleEndian(input[4..12]) != expectedSize {
      return None;
    }
    result := ReadAll(input, 12, expectedSize);
  }

  method ReadAll(input: seq<byte>, start: nat, expectedSize: nat) returns (result: Option<seq<byte>>)
    requires start <= |input|
    ensures result == ReadBlocks(input[start..], expectedSize)
  {
    var output: seq<byte> := [];
    var position: nat, left: nat := start, expectedSize;
    ghost var goal := ReadBlocks(input[start..], expectedSize);
    PrependNothing(goal);
    while left > 0
      invariant position <= |input| && goal == Prepend(output, ReadBlocks(input[position..], left))
      decreases left
    {
      var ok, raw, next := ReadNext(input, position, left);
      if !ok {
        return None;
      }
      PrependTwice(output, raw, ReadBlocks(input[next..], left - |raw|));
      output, position, left := output + raw, next, left - |raw|;
    }
    assert output + [] == output;
    if position == |input| {
      return Some(output);
    }
    return None;
  }
}
