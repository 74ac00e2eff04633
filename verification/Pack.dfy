/** The two pack layouts: entries and file contents in sequence, or contents first and an index after them. */
module Pack {
  import opened Bytes
  import opened Paths
  import opened Entries
  import opened Fields
  import opened EntryCodec

  // ---- lists of entries, whatever the stored form of one is ----

  type Writer = Entry -> seq<byte>
  type Reader = seq<byte> -> Read<Entry>

  function WriterOf(withOffset: bool): Writer
  {
    (e: Entry) => WriteEntry(e, withOffset)
  }

  function ReaderOf(withOffset: bool): Reader
  {
    (s: seq<byte>) => ReadEntry(s, withOffset)
  }

  ghost predicate RoundTrips(write: Writer, read: Reader, e: Entry)
  {
    forall rest :: read(write(e) + rest) == Some((e, rest))
  }

  ghost predicate AllRoundTrip(write: Writer, read: Reader, entries: seq<Entry>)
  {
    forall i :: 0 <= i < |entries| ==> RoundTrips(write, read, entries[i])
  }

  /** Whatever is accepted is what would be written. */
  ghost predicate Canonical(write: Writer, read: Reader)
  {
    forall s :: read(s).Some? ==> s == write(read(s).value.0) + read(s).value.1
  }

  function StoredList(entries: seq<Entry>, withOffset: bool): (r: seq<Entry>)
    ensures |r| == |entries|
    ensures forall i :: 0 <= i < |entries| ==> r[i] == Stored(entries[i], withOffset)
  {
    if entries == [] then [] else [Stored(entries[0], withOffset)] + StoredList(entries[1..], withOffset)
  }

  lemma StoredRoundTrip(entries: seq<Entry>, withOffset: bool)
    requires forall i :: 0 <= i < |entries| ==> Encodable(entries[i])
    ensures AllRoundTrip(WriterOf(withOffset), ReaderOf(withOffset), StoredList(entries, withOffset))
  {
    var write, read, stored := WriterOf(withOffset), ReaderOf(withOffset), StoredList(entries, withOffset);
    forall i | 0 <= i < |stored| ensures RoundTrips(write, read, stored[i]) {
      forall rest ensures read(write(stored[i]) + rest) == Some((stored[i], rest)) {
        EntryRead(stored[i], withOffset, rest);
      }
    }
  }

  lemma FormatCanonical(withOffset: bool)
    ensures Canonical(WriterOf(withOffset), ReaderOf(withOffset))
  {
    forall s | ReadEntry(s, withOffset).Some?
      ensures s == WriteEntry(ReadEntry(s, withOffset).value.0, withOffset) + ReadEntry(s, withOffset).value.1
    {
      EntryPrinted(s, withOffset);
    }
  }

  /** One content for each entry, as long as the entry says. */
  ghost predicate Filled(entries: seq<Entry>, contents: seq<seq<byte>>)
  {
    |contents| == |entries| && forall i :: 0 <= i < |entries| ==> |contents[i]| == entries[i].size
  }

  predicate AddressedAt(packed: seq<byte>, e: Entry, content: seq<byte>)
  {
    e.offset + e.size <= |packed| && packed[e.offset..e.offset + e.size] == content
  }

  /** Each file's bytes stand in the pack where its entry says. */
  ghost predicate Addressed(packed: seq<byte>, entries: seq<Entry>, contents: seq<seq<byte>>)
  {
    |contents| == |entries| && forall i :: 0 <= i < |entries| ==> AddressedAt(packed, entries[i], contents[i])
  }

  lemma AddressedFirst(packed: seq<byte>, e: Entry, more: seq<Entry>, contents: seq<seq<byte>>)
    requires |contents| == |more| + 1 && AddressedAt(packed, e, contents[0]) && Addressed(packed, more, contents[1..])
    ensures Addressed(packed, [e] + more, contents)
  {
    forall i | 0 <= i < |contents| ensures AddressedAt(packed, ([e] + more)[i], contents[i]) {
      if i > 0 {
        assert ([e] + more)[i] == more[i - 1] && contents[i] == contents[1..][i - 1];
      }
    }
  }

  /** The entry count must leave room for the smallest entries. */
  predicate CountFits(count: nat, room: nat, least: nat)
    requires least > 0
  {
    0 < count <= MaxEntries && count <= room / least
  }

  lemma CountFitsRoom(count: nat, room: nat, least: nat)
    requires 0 < count <= MaxEntries && least > 0 && least * count <= room
    ensures CountFits(count, room, least)
  {
    var q := room / least;
    assert room < least * (q + 1);
    assert count > q ==> least * count >= least * (q + 1);
  }

  lemma CountStored(count: nat)
    requires count <= MaxEntries
    ensures FromLittleEndian(LittleEndian(count, 4)) == count
  {
    Pow256Small();
    FromLittleEndianOf(count, 4);
  }

  // ---- the sequential layout ----

  function StreamMagic(): (m: seq<byte>)
    ensures |m| == 8
  {
    [83, 84, 82, 77, 80, 75, 49, 0]
  }

  function Marker(): (m: seq<byte>)
    ensures |m| == 4
  {
    [69, 78, 84, 82]
  }

  function Record(write: Writer, e: Entry, content: seq<byte>): seq<byte>
  {
    Marker() + (write(e) + content)
  }

  function Records(write: Writer, entries: seq<Entry>, contents: seq<seq<byte>>): seq<byte>
    requires |contents| == |entries|
  {
    if entries == [] then [] else Record(write, entries[0], contents[0]) + Records(write, entries[1..], contents[1..])
  }

  function StreamBytes(entries: seq<Entry>, contents: seq<seq<byte>>): seq<byte>
    requires |contents| == |entries|
  {
    StreamMagic() + LittleEndian(|entries|, 4) + Records(WriterOf(false), entries, contents)
  }

  /** The entries as the reader finds them, from position `at` on. */
  function PlacedRecords(write: Writer, entries: seq<Entry>, at: nat): (r: seq<Entry>)
    ensures |r| == |entries|
  {
    if entries == [] then []
    else
      var offset := at + 4 + |write(entries[0])|;
      [entries[0].(offset := offset)] + PlacedRecords(write, entries[1..], offset + entries[0].size)
  }

  /** One record of the pack at `at`: its entry and where the next one starts. */
  function ReadRecord(read: Reader, packed: seq<byte>, at: nat): (r: Option<(Entry, nat)>)
    requires at <= |packed|
    ensures r.Some? ==> at < r.value.1 <= |packed| && r.value.0.offset + r.value.0.size == r.value.1
  {
    if |packed| - at < 4 || packed[at..at + 4] != Marker() then None
    else
      var r := read(packed[at + 4..]);
      if r.None? || |r.value.1| > |packed| - at - 4 || r.value.0.size > |r.value.1| then None
      else
        var offset := |packed| - |r.value.1|;
        Some((r.value.0.(offset := offset), offset + r.value.0.size))
  }

  /** The records that must fill the pack from `at` to its end. */
  function ReadRecords(read: Reader, packed: seq<byte>, at: nat, left: nat): (r: Option<seq<Entry>>)
    requires at <= |packed|
    ensures r.Some? ==> |r.value| == left
    decreases left
  {
    if left == 0 then (if at == |packed| then Some([]) else None)
    else
      var record := ReadRecord(read, packed, at);
      if record.None? then None
      else
        var more := ReadRecords(read, packed, record.value.1, left - 1);
        if more.None? then None else Some([record.value.0] + more.value)
  }

  function ReadStream(packed: seq<byte>): Option<seq<Entry>>
  {
    if |packed| < 12 || packed[..8] != StreamMagic() then None
    else
      var count := FromLittleEndian(packed[8..12]);
      if !CountFits(count, |packed| - 12, 4 + MinimumEntrySize) then None else ReadRecords(ReaderOf(false), packed, 12, count)
  }

  // what was written is read back

  lemma RecordParts(packed: seq<byte>, at: nat, metadata: seq<byte>, content: seq<byte>, after: seq<byte>)
    requires at <= |packed| && packed[at..] == (Marker() + (metadata + content)) + after
    ensures var offset := at + 4 + |metadata|;
            && offset + |content| <= |packed| && packed[at..at + 4] == Marker() && packed[at + 4..] == metadata + (content + after)
            && packed[offset..offset + |content|] == content && packed[offset + |content|..] == after
  {
    var tail, offset := packed[at..], at + 4 + |metadata|;
    assert packed[at..at + 4] == tail[..4] && packed[at + 4..] == tail[4..];
    assert packed[offset..offset + |content|] == tail[4 + |metadata|..4 + |metadata| + |content|];
    assert packed[offset + |content|..] == tail[4 + |metadata| + |content|..];
  }

  lemma RecordRead(write: Writer, read: Reader, packed: seq<byte>, at: nat, e: Entry, content: seq<byte>, after: seq<byte>)
    requires RoundTrips(write, read, e) && |content| == e.size && at <= |packed| && packed[at..] == Record(write, e, content) + after
    ensures var offset := at + 4 + |write(e)|;
            && AddressedAt(packed, e.(offset := offset), content) && packed[offset + e.size..] == after
            && ReadRecord(read, packed, at) == Some((e.(offset := offset), offset + e.size))
  {
    RecordParts(packed, at, write(e), content, after);
  }

  lemma ListTail(write: Writer, read: Reader, entries: seq<Entry>, contents: seq<seq<byte>>)
    requires AllRoundTrip(write, read, entries) && Filled(entries, contents) && entries != []
    ensures AllRoundTrip(write, read, entries[1..]) && Filled(entries[1..], contents[1..])
    ensures RoundTrips(write, read, entries[0]) && |contents[0]| == entries[0].size
  {
  }

  lemma RecordsStep(read: Reader, packed: seq<byte>, at: nat, left: nat, e: Entry, next: nat, more: seq<Entry>)
    requires at <= |packed| && left > 0 && ReadRecord(read, packed, at) == Some((e, next)) && ReadRecords(read, packed, next, left - 1) == Some(more)
    ensures ReadRecords(read, packed, at, left) == Some([e] + more)
  {
  }

  lemma {:induction false} RecordsRead(write: Writer, read: Reader, packed: seq<byte>, at: nat, entries: seq<Entry>, contents: seq<seq<byte>>)
    requires AllRoundTrip(write, read, entries) && Filled(entries, contents) && at <= |packed| && packed[at..] == Records(write, entries, contents)
    ensures ReadRecords(read, packed, at, |entries|) == Some(PlacedRecords(write, entries, at))
    ensures Addressed(packed, PlacedRecords(write, entries, at), contents)
    decreases |entries|
  {
    if entries != [] {
      var e, next := entries[0], at + 4 + |write(entries[0])| + entries[0].size;
      ListTail(write, read, entries, contents);
      RecordRead(write, read, packed, at, e, contents[0], Records(write, entries[1..], contents[1..]));
      RecordsRead(write, read, packed, next, entries[1..], contents[1..]);
      var first, more := e.(offset := next - e.size), PlacedRecords(write, entries[1..], next);
      RecordsStep(read, packed, at, |entries|, first, next, more);
      AddressedFirst(packed, first, more, contents);
    }
  }

  lemma {:induction false} RecordsRoom(write: Writer, entries: seq<Entry>, contents: seq<seq<byte>>, least: nat)
    requires |contents| == |entries| && forall i :: 0 <= i < |entries| ==> |write(entries[i])| >= least
    ensures |Records(write, entries, contents)| >= (4 + least) * |entries|
  {
    if entries != [] {
      RecordsRoom(write, entries[1..], contents[1..], least);
      assert (4 + least) * |entries| == (4 + least) * |entries[1..]| + (4 + least);
    }
  }

  lemma {:induction false} RecordsOfStored(entries: seq<Entry>, contents: seq<seq<byte>>)
    requires |contents| == |entries|
    ensures Records(WriterOf(false), entries, contents) == Records(WriterOf(false), StoredList(entries, false), contents)
  {
    if entries != [] {
      RecordsOfStored(entries[1..], contents[1..]);
      assert StoredList(entries, false)[1..] == StoredList(entries[1..], false);
    }
  }

  ghost predicate Packable(entries: seq<Entry>)
  {
    0 < |entries| <= MaxEntries && forall i :: 0 <= i < |entries| ==> Encodable(entries[i]) && entries[i].path != []
  }

  /** The entries a sequential pack yields: as written, each with the position of its content. */
  function StreamEntries(entries: seq<Entry>): (r: seq<Entry>)
    ensures |r| == |entries|
  {
    PlacedRecords(WriterOf(false), StoredList(entries, false), 12)
  }

  lemma StreamHead(packed: seq<byte>, count: seq<byte>, records: seq<byte>)
    requires |count| == 4 && packed == StreamMagic() + count + records
    ensures |packed| == 12 + |records| && packed[..8] == StreamMagic() && packed[8..12] == count && packed[12..] == records
  {
  }

  /** Reading a sequential pack returns its entries, each addressing its file's bytes. */
  lemma StreamRead(entries: seq<Entry>, contents: seq<seq<byte>>)
    requires Packable(entries) && Filled(entries, contents)
    ensures ReadStream(StreamBytes(entries, contents)) == Some(StreamEntries(entries))
    ensures Addressed(StreamBytes(entries, contents), StreamEntries(entries), contents)
  {
    var write, stored, packed := WriterOf(false), StoredList(entries, false), StreamBytes(entries, contents);
    RecordsOfStored(entries, contents);
    StreamHead(packed, LittleEndian(|entries|, 4), Records(write, stored, contents));
    CountStored(|entries|);
    RecordsRoom(write, stored, contents, MinimumEntrySize);
    CountFitsRoom(|entries|, |packed| - 12, 4 + MinimumEntrySize);
    StoredRoundTrip(entries, false);
    RecordsRead(write, ReaderOf(false), packed, 12, stored, contents);
  }

  // what is accepted is what would be written

  function Slice(packed: seq<byte>, e: Entry): seq<byte>
  {
    if e.offset + e.size <= |packed| then packed[e.offset..e.offset + e.size] else []
  }

  function Slices(packed: seq<byte>, entries: seq<Entry>): (r: seq<seq<byte>>)
    ensures |r| == |entries|
  {
    if entries == [] then [] else [Slice(packed, entries[0])] + Slices(packed, entries[1..])
  }

  lemma RecordSplit(packed: seq<byte>, at: nat, metadata: seq<byte>, offset: nat, next: nat)
    requires at + 4 <= offset <= next <= |packed| && packed[at..at + 4] == Marker()
    requires packed[at + 4..] == metadata + packed[offset..]
    ensures packed[at..] == (Marker() + (metadata + packed[offset..next])) + packed[next..]
  {
    assert packed[at..] == packed[at..at + 4] + packed[at + 4..];
    assert packed[offset..] == packed[offset..next] + packed[next..];
  }

  /** The stored form does not depend on the offset. */
  ghost predicate OffsetFree(write: Writer)
  {
    forall e: Entry, offset: nat :: write(e.(offset := offset)) == write(e)
  }

  lemma RecordPrinted(write: Writer, read: Reader, packed: seq<byte>, at: nat)
    requires Canonical(write, read) && OffsetFree(write) && at <= |packed| && ReadRecord(read, packed, at).Some?
    ensures var e, next := ReadRecord(read, packed, at).value.0, ReadRecord(read, packed, at).value.1;
            packed[at..] == Record(write, e, Slice(packed, e)) + packed[next..]
  {
    var tail := packed[at + 4..];
    var r := read(tail).value;
    var e, next := ReadRecord(read, packed, at).value.0, ReadRecord(read, packed, at).value.1;
    assert write(e) == write(r.0) && tail == write(r.0) + r.1;
    assert r.1 == packed[e.offset..];
    RecordSplit(packed, at, write(e), e.offset, next);
  }

  lemma RecordsCons(write: Writer, e: Entry, content: seq<byte>, entries: seq<Entry>, contents: seq<seq<byte>>)
    requires |contents| == |entries|
    ensures Records(write, [e] + entries, [content] + contents) == Record(write, e, content) + Records(write, entries, contents)
  {
    assert ([e] + entries)[1..] == entries && ([content] + contents)[1..] == contents;
  }

  lemma {:induction false} RecordsPrinted(write: Writer, read: Reader, packed: seq<byte>, at: nat, left: nat)
    requires Canonical(write, read) && OffsetFree(write) && at <= |packed| && ReadRecords(read, packed, at, left).Some?
    ensures var entries := ReadRecords(read, packed, at, left).value;
            packed[at..] == Records(write, entries, Slices(packed, entries))
    decreases left
  {
    if left > 0 {
      RecordPrinted(write, read, packed, at);
      var e, next := ReadRecord(read, packed, at).value.0, ReadRecord(read, packed, at).value.1;
      RecordsPrinted(write, read, packed, next, left - 1);
      var more := ReadRecords(read, packed, next, left - 1).value;
      RecordsCons(write, e, Slice(packed, e), more, Slices(packed, more));
      assert ([e] + more)[1..] == more;
    }
  }

  lemma StreamParts(packed: seq<byte>)
    requires |packed| >= 12
    ensures packed == packed[..8] + packed[8..12] + packed[12..]
  {
  }

  /** An accepted sequential pack is exactly the one written for its entries and the bytes they address. */
  lemma StreamPrinted(packed: seq<byte>)
    requires ReadStream(packed).Some?
    ensures var entries := ReadStream(packed).value; packed == StreamBytes(entries, Slices(packed, entries))
  {
    var count := FromLittleEndian(packed[8..12]);
    FormatCanonical(false);
    RecordsPrinted(WriterOf(false), ReaderOf(false), packed, 12, count);
    LittleEndianOfFrom(packed[8..12]);
    StreamParts(packed);
  }
}
