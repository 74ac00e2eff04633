/** Run-length compression: runs of at least three equal bytes, everything else buffered as literals. */
module Rle {
  import opened Bytes

  const Cap := 128

  function Magic(): (m: seq<byte>)
    ensures |m| == 4
  {
    [82, 76, 69, 49]
  }

  datatype Run = Run(value: byte, count: nat)

  function Repeat(value: byte, count: nat): (s: seq<byte>)
    ensures |s| == count
  {
    seq(count, _ => value)
  }

  // ---- what is written: runs first, then packets ----

  /** How many bytes at the front equal the first one, at most `cap`. */
  function RunLength(data: seq<byte>, value: byte, cap: nat): (n: nat)
    ensures n <= cap && n <= |data|
  {
    if cap == 0 || data == [] || data[0] != value then 0 else 1 + RunLength(data[1..], value, cap - 1)
  }

  function FirstRun(data: seq<byte>): (n: nat)
    requires data != []
    ensures 1 <= n <= Cap && n <= |data|
  {
    1 + RunLength(data[1..], data[0], Cap - 1)
  }

  /** The data cut into runs of equal bytes, each as long as possible but at most 128. */
  function Runs(data: seq<byte>): seq<Run>
    decreases |data|
  {
    if data == [] then []
    else
      var n := FirstRun(data);
      [Run(data[0], n)] + Runs(data[n..])
  }

  // The control byte before a packet: its top bit marks a run, the rest holds the count less one.

  function Control(isRun: bool, count: nat): byte
    requires 1 <= count <= Cap
  {
    if isRun then 0x80 + (count - 1) else count - 1
  }

  predicate MarksRun(control: byte)
  {
    control >= 0x80
  }

  function CountOf(control: byte): (n: nat)
    ensures 1 <= n <= Cap
  {
    control % 0x80 + 1
  }

  lemma ControlRead(isRun: bool, count: nat)
    requires 1 <= count <= Cap
    ensures MarksRun(Control(isRun, count)) == isRun && CountOf(Control(isRun, count)) == count
  {
  }

  function LiteralPacket(literals: seq<byte>): seq<byte>
    requires |literals| <= Cap
  {
    if literals == [] then [] else [Control(false, |literals|)] + literals
  }

  function RunPacket(run: Run): seq<byte>
    requires 1 <= run.count <= Cap
  {
    [Control(true, run.count), run.value]
  }

  predicate Capped(runs: seq<Run>)
  {
    forall i :: 0 <= i < |runs| ==> 1 <= runs[i].count <= Cap
  }

  /** A run gives up one byte to the literals. */
  function OneLess(runs: seq<Run>): (r: seq<Run>)
    requires Capped(runs) && runs != []
    ensures Capped(r) && (|r| < |runs| || (|r| == |runs| && r[0].count < runs[0].count))
  {
    if runs[0].count == 1 then runs[1..] else runs[0 := Run(runs[0].value, runs[0].count - 1)]
  }

  /** The packets for the remaining runs, with `literals` pending. */
  function Packets(runs: seq<Run>, literals: seq<byte>): seq<byte>
    requires Capped(runs) && |literals| < Cap
    decreases |runs|, if runs == [] then 0 else runs[0].count
  {
    if runs == [] then LiteralPacket(literals)
    else if runs[0].count >= 3 then LiteralPacket(literals) + (RunPacket(runs[0]) + Packets(runs[1..], []))
    else
      var more := literals + [runs[0].value];
      var rest := OneLess(runs);
      if |more| == Cap then LiteralPacket(more) + Packets(rest, []) else Packets(rest, more)
  }

  lemma {:induction false} RunsCapped(data: seq<byte>)
    ensures Capped(Runs(data))
    decreases |data|
  {
    if data != [] {
      RunsCapped(data[FirstRun(data)..]);
    }
  }

  function Body(data: seq<byte>): seq<byte>
  {
    RunsCapped(data);
    Packets(Runs(data), [])
  }

  function Compressed(data: seq<byte>): seq<byte>
  {
    Magic() + LittleEndian(|data|, 8) + Body(data)
  }

  // ---- what is read ----

  /** One packet of a stream that still owes `left` bytes, and what follows it. */
  function ReadPacket(input: seq<byte>, left: nat): (r: Option<(seq<byte>, seq<byte>)>)
    ensures r.Some? ==> 0 < |r.value.0| <= left
  {
    if input == [] || CountOf(input[0]) > left then None
    else
      var count := CountOf(input[0]);
      if MarksRun(input[0]) then
        if |input| < 2 then None else Some((Repeat(input[1], count), input[2..]))
      else if |input| < 1 + count then None
      else Some((input[1..1 + count], input[1 + count..]))
  }

  /** The packets that must make up the next `left` bytes of output, with nothing after them. */
  function ReadPackets(input: seq<byte>, left: nat): (r: Option<seq<byte>>)
    ensures r.Some? ==> |r.value| == left
    decreases left
  {
    if left == 0 then (if input == [] then Some([]) else None)
    else
      var packet := ReadPacket(input, left);
      if packet.None? then None
      else Prepend(packet.value.0, ReadPackets(packet.value.1, left - |packet.value.0|))
  }

  function Decompressed(input: seq<byte>, expectedSize: nat): (r: Option<seq<byte>>)
    ensures r.Some? ==> |r.value| == expectedSize
  {
    if |input| < 12 || input[..4] != Magic() || FromLittleEndian(input[4..12]) != expectedSize then None
    else ReadPackets(input[12..], expectedSize)
  }

  // ---- the round trip ----

  /** The bytes that runs stand for. */
  function Expanded(runs: seq<Run>): seq<byte>
  {
    if runs == [] then [] else Repeat(runs[0].value, runs[0].count) + Expanded(runs[1..])
  }

  lemma {:induction false} RunLengthMeaning(data: seq<byte>, value: byte, cap: nat)
    ensures var n := RunLength(data, value, cap); data[..n] == Repeat(value, n)
    ensures var n := RunLength(data, value, cap); n < cap && n < |data| ==> data[n] != value
  {
    if cap > 0 && data != [] && data[0] == value {
      RunLengthMeaning(data[1..], value, cap - 1);
      var n := RunLength(data[1..], value, cap - 1);
      assert data[..n + 1] == [data[0]] + data[1..][..n];
    }
  }

  lemma FirstRunMeaning(data: seq<byte>)
    requires data != []
    ensures data == Repeat(data[0], FirstRun(data)) + data[FirstRun(data)..]
  {
    RunLengthMeaning(data[1..], data[0], Cap - 1);
    var n := FirstRun(data);
    assert data[..n] == [data[0]] + data[1..][..n - 1];
    assert Repeat(data[0], n) == [data[0]] + Repeat(data[0], n - 1);
  }

  /** The runs are the data. */
  lemma {:induction false} RunsExpand(data: seq<byte>)
    ensures Expanded(Runs(data)) == data
    decreases |data|
  {
    if data != [] {
      FirstRunMeaning(data);
      RunsExpand(data[FirstRun(data)..]);
    }
  }

  lemma LiteralReads(literals: seq<byte>, rest: seq<byte>, left: nat)
    requires 0 < |literals| <= Cap && |literals| <= left
    ensures ReadPackets(LiteralPacket(literals) + rest, left) == Prepend(literals, ReadPackets(rest, left - |literals|))
  {
    var input := LiteralPacket(literals) + rest;
    ControlRead(false, |literals|);
    assert input[0] == Control(false, |literals|) && input[1..1 + |literals|] == literals && input[1 + |literals|..] == rest;
    assert ReadPacket(input, left) == Some((literals, rest));
  }

  lemma RunReads(run: Run, rest: seq<byte>, left: nat)
    requires 1 <= run.count <= Cap && run.count <= left
    ensures ReadPackets(RunPacket(run) + rest, left) == Prepend(Repeat(run.value, run.count), ReadPackets(rest, left - run.count))
  {
    var input := RunPacket(run) + rest;
    ControlRead(true, run.count);
    assert input[0] == Control(true, run.count) && input[1] == run.value && input[2..] == rest;
    assert ReadPacket(input, left) == Some((Repeat(run.value, run.count), rest));
  }

  lemma RepeatLess(value: byte, count: nat)
    requires count > 0
    ensures Repeat(value, count) == [value] + Repeat(value, count - 1)
  {
  }

  lemma OneLessExpanded(runs: seq<Run>)
    requires Capped(runs) && runs != []
    ensures Expanded(runs) == [runs[0].value] + Expanded(OneLess(runs))
  {
    var run, tail := runs[0], Expanded(runs[1..]);
    RepeatLess(run.value, run.count);
    if run.count > 1 {
      assert OneLess(runs)[1..] == runs[1..];
      assert Expanded(OneLess(runs)) == Repeat(run.value, run.count - 1) + tail;
      Associative([run.value], Repeat(run.value, run.count - 1), tail);
    }
  }

  lemma OneLessExpands(runs: seq<Run>, literals: seq<byte>)
    requires Capped(runs) && runs != []
    ensures literals + Expanded(runs) == literals + [runs[0].value] + Expanded(OneLess(runs))
  {
    OneLessExpanded(runs);
    Associative(literals, [runs[0].value], Expanded(OneLess(runs)));
  }

  lemma LiteralStep(literals: seq<byte>, rest: seq<byte>, decoded: seq<byte>)
    requires 0 < |literals| <= Cap && ReadPackets(rest, |decoded|) == Some(decoded)
    ensures ReadPackets(LiteralPacket(literals) + rest, |literals + decoded|) == Some(literals + decoded)
  {
    LiteralReads(literals, rest, |literals + decoded|);
  }

  /** A run packet, after the literals that were pending. */
  lemma RunStep(run: Run, rest: seq<byte>, decoded: seq<byte>, literals: seq<byte>)
    requires 1 <= run.count <= Cap && |literals| < Cap && ReadPackets(rest, |decoded|) == Some(decoded)
    ensures var all := literals + (Repeat(run.value, run.count) + decoded);
            ReadPackets(LiteralPacket(literals) + (RunPacket(run) + rest), |all|) == Some(all)
  {
    var expanded := Repeat(run.value, run.count) + decoded;
    RunReads(run, rest, |expanded|);
    if literals == [] {
      assert LiteralPacket(literals) + (RunPacket(run) + rest) == RunPacket(run) + rest;
      assert literals + expanded == expanded;
    } else {
      LiteralStep(literals, RunPacket(run) + rest, expanded);
    }
  }

  /** Reading the packets returns the pending literals and what the runs stand for. */
  lemma {:induction false} PacketsRead(runs: seq<Run>, literals: seq<byte>)
    requires Capped(runs) && |literals| < Cap
    ensures var all := literals + Expanded(runs); ReadPackets(Packets(runs, literals), |all|) == Some(all)
    decreases |runs|, if runs == [] then 0 else runs[0].count
  {
    var all := literals + Expanded(runs);
    if runs == [] {
      LastLiterals(literals);
      assert all == literals;
    } else if runs[0].count >= 3 {
      var rest := runs[1..];
      PacketsRead(rest, []);
      assert [] + Expanded(rest) == Expanded(rest);
      RunStep(runs[0], Packets(rest, []), Expanded(rest), literals);
    } else {
      var more := literals + [runs[0].value];
      var rest := OneLess(runs);
      OneLessExpands(runs, literals);
      if |more| == Cap {
        PacketsRead(rest, []);
        assert [] + Expanded(rest) == Expanded(rest);
        LiteralStep(more, Packets(rest, []), Expanded(rest));
      } else {
        PacketsRead(rest, more);
      }
    }
  }

  lemma LastLiterals(literals: seq<byte>)
    requires |literals| <= Cap
    ensures ReadPackets(LiteralPacket(literals), |literals|) == Some(literals)
  {
    if literals != [] {
      LiteralReads(literals, [], |literals|);
      assert LiteralPacket(literals) + [] == LiteralPacket(literals) && literals + [] == literals;
    }
  }

  lemma FramedRead(body: seq<byte>, size: nat)
    requires size < UINT64
    ensures Decompressed(Magic() + LittleEndian(size, 8) + body, size) == ReadPackets(body, size)
  {
    var input := Magic() + LittleEndian(size, 8) + body;
    Pow256Of8();
    FromLittleEndianOf(size, 8);
    assert input[..4] == Magic() && input[4..12] == LittleEndian(size, 8) && input[12..] == body;
  }

  lemma FramedPrinted(input: seq<byte>, size: nat)
    requires Decompressed(input, size).Some?
    ensures input == Magic() + LittleEndian(size, 8) + input[12..]
  {
    LittleEndianOfFrom(input[4..12]);
    assert input == input[..4] + input[4..12] + input[12..];
  }

  /** Decompressing what was compressed returns the file. */
  lemma CompressedRoundTrip(data: seq<byte>)
    requires |data| < UINT64
    ensures Decompressed(Compressed(data), |data|) == Some(data)
  {
    FramedRead(Body(data), |data|);
    RunsCapped(data);
    RunsExpand(data);
    PacketsRead(Runs(data), []);
    assert [] + data == data;
  }

  // ---- the size ----

  function Blocks(n: nat): nat
  {
    (n + Cap - 1) / Cap
  }

  lemma BlocksFacts(n: nat, k: nat)
    ensures Blocks(n) <= Blocks(n + k) && Blocks(n + Cap) == Blocks(n) + 1 && (n > 0 ==> Blocks(n) >= 1)
  {
  }

  lemma {:induction false} PacketsSize(runs: seq<Run>, literals: seq<byte>)
    requires Capped(runs) && |literals| < Cap
    ensures var n := |literals| + |Expanded(runs)|; |Packets(runs, literals)| <= n + Blocks(n)
    decreases |runs|, if runs == [] then 0 else runs[0].count
  {
    var n := |literals| + |Expanded(runs)|;
    if runs == [] {
      BlocksFacts(n, 0);
    } else if runs[0].count >= 3 {
      PacketsSize(runs[1..], []);
      BlocksFacts(|Expanded(runs[1..])|, |literals| + runs[0].count);
    } else {
      var more := literals + [runs[0].value];
      var rest := OneLess(runs);
      OneLessExpands(runs, literals);
      if |more| == Cap {
        PacketsSize(rest, []);
        BlocksFacts(|Expanded(rest)|, 0);
      } else {
        PacketsSize(rest, more);
      }
    }
  }

  /** Compression adds at most 12 bytes and one for every 128 of the input. */
  lemma CompressedSize(data: seq<byte>)
    ensures |Compressed(data)| <= 12 + |data| + Blocks(|data|)
  {
    RunsCapped(data);
    RunsExpand(data);
    PacketsSize(Runs(data), []);
  }

  // ---- what is saved ----

  /** A run of at least three bytes at the front, as long as it goes but at most 128, takes two bytes. */
  lemma LongRunTakesTwo(data: seq<byte>, n: nat)
    requires 3 <= n <= Cap && n <= |data| && (forall i :: 0 <= i < n ==> data[i] == data[0])
    requires n == Cap || n == |data| || data[n] != data[0]
    ensures Body(data) == [0x80 + (n - 1), data[0]] + Body(data[n..])
  {
    var run, after := Run(data[0], n), data[n..];
    assert data == Repeat(data[0], n) + after;
    RunEnds(data[0], n, after);
    var runs, rest := Runs(data), Runs(after);
    assert runs[0] == run && runs[1..] == rest;
    RunsCapped(data);
    assert Packets(runs, []) == [] + (RunPacket(run) + Packets(rest, []));
  }

  // ---- what is accepted ----

  /** One packet: bytes as they are, or one byte repeated. */
  datatype Packet = Literals(bytes: seq<byte>) | Repeated(run: Run)

  function Denoted(p: Packet): seq<byte>
  {
    match p
    case Literals(bytes) => bytes
    case Repeated(run) => Repeat(run.value, run.count)
  }

  predicate Proper(p: Packet)
  {
    1 <= |Denoted(p)| <= Cap
  }

  function PacketBytes(p: Packet): seq<byte>
    requires Proper(p)
  {
    match p
    case Literals(bytes) => LiteralPacket(bytes)
    case Repeated(run) => RunPacket(run)
  }

  predicate AllProper(packets: seq<Packet>)
  {
    forall i :: 0 <= i < |packets| ==> Proper(packets[i])
  }

  function Printed(packets: seq<Packet>): seq<byte>
    requires AllProper(packets)
  {
    if packets == [] then [] else PacketBytes(packets[0]) + Printed(packets[1..])
  }

  function Content(packets: seq<Packet>): seq<byte>
  {
    if packets == [] then [] else Denoted(packets[0]) + Content(packets[1..])
  }

  lemma PacketReads(p: Packet, rest: seq<byte>, left: nat)
    requires Proper(p) && |Denoted(p)| <= left
    ensures ReadPackets(PacketBytes(p) + rest, left) == Prepend(Denoted(p), ReadPackets(rest, left - |Denoted(p)|))
  {
    match p
    case Literals(bytes) => LiteralReads(bytes, rest, left);
    case Repeated(run) => RunReads(run, rest, left);
  }

  lemma {:induction false} PrintedReads(packets: seq<Packet>)
    requires AllProper(packets)
    ensures ReadPackets(Printed(packets), |Content(packets)|) == Some(Content(packets))
  {
    if packets != [] {
      PrintedReads(packets[1..]);
      PacketReads(packets[0], Printed(packets[1..]), |Content(packets)|);
    }
  }

  lemma ReadPacketPrinted(input: seq<byte>, left: nat) returns (p: Packet)
    requires ReadPacket(input, left).Some?
    ensures var r := ReadPacket(input, left).value; Proper(p) && Denoted(p) == r.0 && input == PacketBytes(p) + r.1
  {
    var count := CountOf(input[0]);
    if MarksRun(input[0]) {
      p := Repeated(Run(input[1], count));
      assert input == RunPacket(p.run) + input[2..];
    } else {
      p := Literals(input[1..1 + count]);
      assert input == LiteralPacket(p.bytes) + input[1 + count..];
    }
  }

  lemma {:induction false} AcceptedIsPrinted(input: seq<byte>, left: nat) returns (packets: seq<Packet>)
    requires ReadPackets(input, left).Some?
    ensures AllProper(packets) && Printed(packets) == input && Content(packets) == ReadPackets(input, left).value
    decreases left
  {
    packets := [];
    if left > 0 {
      var r := ReadPacket(input, left).value;
      var p := ReadPacketPrinted(input, left);
      var more := AcceptedIsPrinted(r.1, left - |r.0|);
      packets := [p] + more;
      assert packets[1..] == more;
    }
  }

  /** The decoder accepts exactly header and packets that denote the declared number of bytes, and returns those. */
  lemma DecompressedMeaning(input: seq<byte>, size: nat, out: seq<byte>)
    requires size < UINT64
    ensures Decompressed(input, size) == Some(out) <==>
            |out| == size && exists packets :: AllProper(packets) && Content(packets) == out
                                               && input == Magic() + LittleEndian(size, 8) + Printed(packets)
  {
    if Decompressed(input, size) == Some(out) {
      var packets := AcceptedIsPrinted(input[12..], size);
      FramedPrinted(input, size);
    }
    forall packets | AllProper(packets) && Content(packets) == out && |out| == size && input == Magic() + LittleEndian(size, 8) + Printed(packets)
      ensures Decompressed(input, size) == Some(out)
    {
      PrintedReads(packets);
      FramedRead(Printed(packets), size);
    }
  }

  // ---- the program ----

  /** The output and the buffered literals. */
  class Writer {
    var out: seq<byte>
    var literals: seq<byte>

    ghost predicate Valid()
      reads this
    {
      |literals| < Cap
    }

    constructor (header: seq<byte>)
      ensures Valid() && out == header && literals == []
    {
      out, literals := header, [];
    }

    method FlushLiterals()
      requires |literals| <= Cap
      modifies this
      ensures literals == [] && out == old(out) + LiteralPacket(old(literals))
    {
      if literals == [] {
        return;
      }
      out := out + ([Control(false, |literals|)] + literals);
      literals := [];
    }

    method AddLiteral(value: byte)
      requires Valid()
      modifies this
      ensures Valid()
      ensures var more := old(literals) + [value];
              if |more| == Cap then literals == [] && out == old(out) + LiteralPacket(more) else literals == more && out == old(out)
    {
      literals := literals + [value];
      if |literals| == Cap {
        FlushLiterals();
      }
    }

    /** Writes a run, as a packet or byte by byte into the literals. */
    method FlushRun(value: byte, count: nat, ghost rest: seq<Run>)
      requires Valid() && 1 <= count <= Cap && Capped(rest)
      modifies this
      ensures Valid()
      ensures out + Packets(rest, literals) == old(out) + Packets(Left(value, count, rest), old(literals))
    {
      if count >= 3 {
        assert Left(value, count, rest)[1..] == rest;
        FlushLiterals();
        Associative(old(out), LiteralPacket(old(literals)), RunPacket(Run(value, count)) + Packets(rest, []));
        Associative(out, RunPacket(Run(value, count)), Packets(rest, []));
        out := out + RunPacket(Run(value, count));
      } else {
        var left := count;
        while left > 0
          invariant left <= count && Valid()
          invariant out + Packets(Left(value, left, rest), literals) == old(out) + Packets(Left(value, count, rest), old(literals))
        {
          TakeOne(value, left, rest, literals, out);
          AddLiteral(value);
          left := left - 1;
        }
      }
    }
  }

  ghost function Left(value: byte, count: nat, rest: seq<Run>): (r: seq<Run>)
    requires count <= Cap && Capped(rest)
    ensures Capped(r)
  {
    if count == 0 then rest else [Run(value, count)] + rest
  }

  lemma TakeOne(value: byte, count: nat, rest: seq<Run>, literals: seq<byte>, out: seq<byte>)
    requires 1 <= count <= 2 && Capped(rest) && |literals| < Cap
    ensures var more, next := literals + [value], Left(value, count - 1, rest);
            out + Packets(Left(value, count, rest), literals) ==
              if |more| == Cap then out + LiteralPacket(more) + Packets(next, []) else out + Packets(next, more)
  {
    var runs, more, next := Left(value, count, rest), literals + [value], Left(value, count - 1, rest);
    assert runs[1..] == rest;
    assert count == 2 ==> runs[0 := Run(value, 1)] == next;
    if |more| == Cap {
      Associative(out, LiteralPacket(more), Packets(next, []));
    }
  }

  lemma FirstRunExact(value: byte, count: nat, rest: seq<byte>)
    requires 1 <= count <= Cap && (rest == [] || rest[0] != value || count == Cap)
    ensures FirstRun(Repeat(value, count) + rest) == count
  {
    var data := Repeat(value, count) + rest;
    assert data[1..] == Repeat(value, count - 1) + rest;
    RunLengthExact(value, count - 1, rest, Cap - 1);
  }

  /** A pending run that cannot grow is the first run of what is left. */
  lemma RunEnds(value: byte, count: nat, rest: seq<byte>)
    requires 1 <= count <= Cap && (rest == [] || rest[0] != value || count == Cap)
    ensures Runs(Repeat(value, count) + rest) == [Run(value, count)] + Runs(rest)
    ensures Capped(Runs(rest))
  {
    RunsCapped(rest);
    FirstRunExact(value, count, rest);
    Halves(Repeat(value, count), rest);
  }

  lemma {:induction false} RunLengthExact(value: byte, count: nat, rest: seq<byte>, cap: nat)
    requires count <= cap && (rest == [] || rest[0] != value || count == cap)
    ensures RunLength(Repeat(value, count) + rest, value, cap) == count
  {
    if count > 0 {
      assert (Repeat(value, count) + rest)[1..] == Repeat(value, count - 1) + rest;
      RunLengthExact(value, count - 1, rest, cap - 1);
    } else {
      assert Repeat(value, 0) + rest == rest;
    }
  }

  method RleCompress(input: seq<byte>) returns (output: seq<byte>)
    ensures output == Compressed(input)
    ensures |output| <= 12 + |input| + Blocks(|input|)
    ensures |input| < UINT64 ==> Decompressed(output, |input|) == Some(input)
  {
    var writer := new Writer(Magic() + LittleEndian(|input|, 8));
    WritePackets(writer, input);
    output := writer.out;
    CompressedSize(input);
    if |input| < UINT64 {
      CompressedRoundTrip(input);
    }
  }

  /** What is still to be written: the pending run and the bytes not yet looked at. */
  ghost function Pending(value: byte, count: nat, input: seq<byte>, i: nat, literals: seq<byte>): seq<byte>
    requires i <= |input| && |literals| < Cap
  {
    var rest := Repeat(value, count) + input[i..];
    RunsCapped(rest);
    Packets(Runs(rest), literals)
  }

  lemma PendingStart(value: byte, input: seq<byte>)
    ensures Pending(value, 0, input, 0, []) == Body(input)
    ensures input != [] ==> Pending(input[0], 1, input, 1, []) == Body(input)
  {
    assert Repeat(value, 0) + input[0..] == input;
    assert input != [] ==> Repeat(input[0], 1) + input[1..] == input;
  }

  lemma PendingGrows(value: byte, count: nat, input: seq<byte>, i: nat, literals: seq<byte>)
    requires i < |input| && |literals| < Cap && input[i] == value
    ensures Pending(value, count, input, i, literals) == Pending(value, count + 1, input, i + 1, literals)
  {
    assert Repeat(value, count) + input[i..] == Repeat(value, count + 1) + input[i + 1..];
  }

  /** A pending run that cannot grow is the first of what is left. */
  lemma PendingEnds(value: byte, count: nat, input: seq<byte>, i: nat, literals: seq<byte>)
    requires i <= |input| && |literals| < Cap && 1 <= count <= Cap
    requires i == |input| || input[i] != value || count == Cap
    ensures Capped(Runs(input[i..]))
    ensures Pending(value, count, input, i, literals) == Packets(Left(value, count, Runs(input[i..])), literals)
  {
    RunEnds(value, count, input[i..]);
  }

  /** A new run starts with the next byte. */
  lemma PendingBegins(input: seq<byte>, i: nat, literals: seq<byte>)
    requires i < |input| && |literals| < Cap && Capped(Runs(input[i..]))
    ensures Pending(input[i], 1, input, i + 1, literals) == Packets(Runs(input[i..]), literals)
  {
    assert Repeat(input[i], 1) + input[i + 1..] == input[i..];
  }

  method WritePackets(writer: Writer, input: seq<byte>)
    requires writer.Valid() && writer.literals == []
    modifies writer
    ensures writer.out == old(writer.out) + Body(input)
  {
    ghost var goal := writer.out + Body(input);
    var haveRun, runByte: byte, runLength: nat := false, 0, 0;
    var i: nat := 0;
    PendingStart(0, input);
    while i < |input|
      invariant i <= |input| && writer.Valid()
      invariant haveRun <==> i > 0
      invariant if haveRun then 1 <= runLength <= Cap else runLength == 0 && writer.literals == []
      invariant writer.out + Pending(runByte, runLength, input, i, writer.literals) == goal
    {
      var value := input[i];
      if !haveRun {
        PendingStart(runByte, input);
        haveRun, runByte, runLength := true, value, 1;
      } else if value == runByte && runLength < Cap {
        PendingGrows(runByte, runLength, input, i, writer.literals);
        runLength := runLength + 1;
      } else {
        PendingEnds(runByte, runLength, input, i, writer.literals);
        writer.FlushRun(runByte, runLength, Runs(input[i..]));
        PendingBegins(input, i, writer.literals);
        runByte, runLength := value, 1;
      }
      i := i + 1;
    }
    if haveRun {
      PendingEnds(runByte, runLength, input, i, writer.literals);
      assert input[i..] == [];
      writer.FlushRun(runByte, runLength, []);
    } else {
      assert Repeat(runByte, 0) + input[i..] == [];
    }
    writer.FlushLiterals();
  }

  /** Reads one packet. */
  method ReadNext(input: seq<byte>, position: nat, left: nat) returns (ok: bool, chunk: seq<byte>, next: nat)
    requires position <= |input|
    ensures if ok then next <= |input| && ReadPacket(input[position..], left) == Some((chunk, input[next..]))
            else ReadPacket(input[position..], left) == None
  {
    chunk, next := [], position;
    ghost var unread := input[position..];
    if position == |input| {
      return false, chunk, next;
    }
    var control := input[position];
    var count := CountOf(control);
    if count > left {
      return false, chunk, next;
    }
    next := position + (if MarksRun(control) then 2 else 1 + count);
    if next > |input| {
      return false, chunk, next;
    }
    assert unread[next - position..] == input[next..];
    if MarksRun(control) {
      chunk := Repeat(input[position + 1], count);
    } else {
      chunk := input[position + 1..next];
      assert unread[1..1 + count] == chunk;
    }
    ok := true;
  }

  method RleDecompress(input: seq<byte>, expectedSize: nat) returns (result: Option<seq<byte>>)
    ensures result == Decompressed(input, expectedSize)
  {
    if |input| < 12 || input[..4] != Magic() || FromLittleEndian(input[4..12]) != expectedSize {
      return None;
    }
    result := ReadAll(input, 12, expectedSize);
  }

  /** With `left` bytes still owed, what is read and what the rest yields make up the result. */
  ghost predicate ReadTo(goal: Option<seq<byte>>, output: seq<byte>, rest: seq<byte>, left: nat)
  {
    goal == Prepend(output, ReadPackets(rest, left))
  }

  lemma ReadStart(input: seq<byte>, size: nat)
    ensures ReadTo(ReadPackets(input, size), [], input, size)
  {
    PrependNothing(ReadPackets(input, size));
  }

  lemma ReadStep(goal: Option<seq<byte>>, output: seq<byte>, input: seq<byte>, chunk: seq<byte>, rest: seq<byte>, left: nat)
    requires left > 0 && ReadTo(goal, output, input, left) && ReadPacket(input, left) == Some((chunk, rest))
    ensures ReadTo(goal, output + chunk, rest, left - |chunk|)
  {
    PrependTwice(output, chunk, ReadPackets(rest, left - |chunk|));
  }

  lemma ReadStuck(goal: Option<seq<byte>>, output: seq<byte>, input: seq<byte>, left: nat)
    requires left > 0 && ReadTo(goal, output, input, left) && ReadPacket(input, left) == None
    ensures goal == None
  {
  }

  lemma ReadEnd(goal: Option<seq<byte>>, output: seq<byte>, input: seq<byte>)
    requires ReadTo(goal, output, input, 0)
    ensures goal == if input == [] then Some(output) else None
  {
    assert output + [] == output;
  }

  method ReadAll(input: seq<byte>, start: nat, expectedSize: nat) returns (result: Option<seq<byte>>)
    requires start <= |input|
    ensures result == ReadPackets(input[start..], expectedSize)
  {
    var output: seq<byte> := [];
    var position: nat, left: nat := start, expectedSize;
    ghost var goal := ReadPackets(input[start..], expectedSize);
    ReadStart(input[start..], expectedSize);
    while left > 0
      invariant position <= |input| && ReadTo(goal, output, input[position..], left)
      decreases left
    {
      var ok, chunk, next := ReadNext(input, position, left);
      if !ok {
        ReadStuck(goal, output, input[position..], left);
        return None;
      }
      ReadStep(goal, output, input[position..], chunk, input[next..], left);
      output, position, left := output + chunk, next, left - |chunk|;
    }
    ReadEnd(goal, output, input[position..]);
    return if position == |input| then Some(output) else None;
  }
}
