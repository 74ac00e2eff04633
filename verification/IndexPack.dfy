/** The indexed pack: contents first, then the central directory and a trailer that finds it. */
module IndexPack {
  import opened Bytes
  import opened Entries
  import opened Fields
  import opened EntryCodec
  import opened Pack

  function IndexMagic(): (m: seq<byte>)
    ensures |m| == 8
  {
    [73, 78, 68, 88, 80, 75, 49, 0]
  }

  function CentralMagic(): (m: seq<byte>)
    ensures |m| == 8
  {
    [67, 68, 73, 82, 86, 49, 0, 0]
  }

  function EndMagic(): (m: seq<byte>)
    ensures |m| == 8
  {
    [73, 68, 88, 69, 78, 68, 49, 0]
  }

  function Joined(contents: seq<seq<byte>>): seq<byte>
  {
    if contents == [] then [] else contents[0] + Joined(contents[1..])
  }

  /** The entries with the position of their content, laid out from `at` on. */
  function Laid(entries: seq<Entry>, at: nat): (r: seq<Entry>)
    ensures |r| == |entries|
  {
    if entries == [] then [] else [entries[0].(offset := at)] + Laid(entries[1..], at + entries[0].size)
  }

  function DirectoryBytes(write: Writer, entries: seq<Entry>): seq<byte>
  {
    if entries == [] then [] else write(entries[0]) + DirectoryBytes(write, entries[1..])
  }

  function Central(entries: seq<Entry>): (r: seq<byte>)
    ensures |r| >= 12
  {
    CentralMagic() + LittleEndian(|entries|, 4) + DirectoryBytes(WriterOf(true), entries)
  }

  function TrailerWidths(): (w: seq<nat>)
    ensures |w| == 4 && Sum(w) == 24
  {
    var half: seq<nat> := [8, 8];
    var rest: seq<nat> := [4, 4];
    SumConcat(half, rest);
    assert Sum(half) == 16 && Sum(rest) == 8 && half + rest == [8, 8, 4, 4];
    [8, 8, 4, 4]
  }

  function Trailer(offset: nat, size: nat, count: nat): (r: seq<byte>)
    ensures |r| == 32
  {
    EndMagic() + Print([offset, size, count, 0], TrailerWidths())
  }

  function IndexBytes(entries: seq<Entry>, contents: seq<seq<byte>>): seq<byte>
  {
    var data := Joined(contents);
    var central := Central(Laid(entries, 8));
    IndexMagic() + data + central + Trailer(8 + |data|, |central|, |entries|)
  }

  /** The next `left` records of the directory, and what follows them. */
  function ReadDirectory(read: Reader, s: seq<byte>, left: nat): (r: Read<seq<Entry>>)
    ensures r.Some? ==> |r.value.0| == left
    decreases left
  {
    if left == 0 then Some(([], s))
    else
      var first := read(s);
      if first.None? then None
      else
        var more := ReadDirectory(read, first.value.1, left - 1);
        if more.None? then None else Some(([first.value.0] + more.value.0, more.value.1))
  }

  /** A file's bytes lie between the magic and the central directory. */
  predicate InData(e: Entry, centralOffset: nat)
  {
    e.kind.Regular? ==> e.offset >= 8 && e.offset <= centralOffset && e.size <= centralOffset - e.offset
  }

  function ReadCentral(packed: seq<byte>, centralOffset: nat, centralSize: nat, count: nat): Option<seq<Entry>>
    requires centralOffset + centralSize + 32 == |packed|
  {
    if centralSize < 12 || packed[centralOffset..centralOffset + 8] != CentralMagic()
       || FromLittleEndian(packed[centralOffset + 8..centralOffset + 12]) != count
       || !CountFits(count, centralSize - 12, MinimumEntrySize + 8)
    then None
    else
      var r := ReadDirectory(ReaderOf(true), packed[centralOffset + 12..], count);
      if r.None? || |r.value.1| != 32 || exists i :: 0 <= i < count && !InData(r.value.0[i], centralOffset) then None
      else Some(r.value.0)
  }

  function ReadIndex(packed: seq<byte>): Option<seq<Entry>>
  {
    if |packed| < 40 || packed[..8] != IndexMagic() then None
    else
      var trailer := packed[|packed| - 32..];
      var v := Values(trailer[8..], TrailerWidths());
      if trailer[..8] != EndMagic() || v[3] != 0 || v[0] < 8 || v[0] + v[1] + 32 != |packed| then None
      else ReadCentral(packed, v[0], v[1], v[2])
  }

  // ---- what was written is read back ----

  lemma {:induction false} DirectoryRead(write: Writer, read: Reader, entries: seq<Entry>, rest: seq<byte>)
    requires AllRoundTrip(write, read, entries)
    ensures ReadDirectory(read, DirectoryBytes(write, entries) + rest, |entries|) == Some((entries, rest))
    decreases |entries|
  {
    if entries == [] {
      assert [] + rest == rest;
    } else {
      assert RoundTrips(write, read, entries[0]);
      DirectoryRead(write, read, entries[1..], rest);
      Associative(write(entries[0]), DirectoryBytes(write, entries[1..]), rest);
      assert entries == [entries[0]] + entries[1..];
    }
  }

  lemma {:induction false} DirectoryRoom(write: Writer, entries: seq<Entry>, least: nat)
    requires forall i :: 0 <= i < |entries| ==> |write(entries[i])| >= least
    ensures |DirectoryBytes(write, entries)| >= least * |entries|
  {
    if entries != [] {
      DirectoryRoom(write, entries[1..], least);
      assert least * |entries| == least * |entries[1..]| + least;
    }
  }

  lemma {:induction false} DirectoryOfStored(entries: seq<Entry>)
    ensures DirectoryBytes(WriterOf(true), entries) == DirectoryBytes(WriterOf(true), StoredList(entries, true))
  {
    if entries != [] {
      DirectoryOfStored(entries[1..]);
      assert StoredList(entries, true)[1..] == StoredList(entries[1..], true);
    }
  }

  /** Each content stands where the layout put it. */
  lemma {:induction false} LaidAddressed(packed: seq<byte>, at: nat, entries: seq<Entry>, contents: seq<seq<byte>>, after: seq<byte>)
    requires Filled(entries, contents) && at <= |packed| && packed[at..] == Joined(contents) + after
    ensures Addressed(packed, Laid(entries, at), contents)
    ensures forall i :: 0 <= i < |entries| ==>
      var e := Laid(entries, at)[i]; e == entries[i].(offset := e.offset) && at <= e.offset && e.offset + e.size <= at + |Joined(contents)|
    decreases |entries|
  {
    if entries != [] {
      var e, next := entries[0], at + entries[0].size;
      var tail := packed[at..];
      Associative(contents[0], Joined(contents[1..]), after);
      assert packed[next..] == tail[e.size..] && packed[at..next] == tail[..e.size];
      LaidAddressed(packed, next, entries[1..], contents[1..], after);
      AddressedFirst(packed, e.(offset := at), Laid(entries[1..], next), contents);
    }
  }

  lemma CentralParts(packed: seq<byte>, front: seq<byte>, count: seq<byte>, directory: seq<byte>, trailer: seq<byte>)
    requires |count| == 4 && packed == front + (CentralMagic() + count + directory) + trailer
    ensures var at := |front|;
            && |packed| == at + 12 + |directory| + |trailer|
            && packed[at..at + 8] == CentralMagic() && packed[at + 8..at + 12] == count && packed[at + 12..] == directory + trailer
  {
  }

  lemma CentralRead(packed: seq<byte>, front: seq<byte>, entries: seq<Entry>, trailer: seq<byte>)
    requires packed == front + Central(entries) + trailer && |trailer| == 32 && Packable(entries)
    requires forall i :: 0 <= i < |entries| ==> InData(entries[i], |front|)
    ensures ReadCentral(packed, |front|, |Central(entries)|, |entries|) == Some(StoredList(entries, true))
  {
    var write, stored := WriterOf(true), StoredList(entries, true);
    var directory := DirectoryBytes(write, stored);
    DirectoryOfStored(entries);
    CentralParts(packed, front, LittleEndian(|entries|, 4), directory, trailer);
    CountStored(|entries|);
    DirectoryRoom(write, stored, MinimumEntrySize + 8);
    CountFitsRoom(|entries|, |Central(entries)| - 12, MinimumEntrySize + 8);
    StoredRoundTrip(entries, true);
    DirectoryRead(write, ReaderOf(true), stored, trailer);
    forall i | 0 <= i < |stored| ensures InData(stored[i], |front|) {
      assert InData(entries[i], |front|);
    }
  }

  lemma TrailerRead(offset: nat, size: nat, count: nat)
    requires offset < UINT64 && size < UINT64 && count <= MaxEntries
    ensures Trailer(offset, size, count)[..8] == EndMagic()
    ensures Values(Trailer(offset, size, count)[8..], TrailerWidths()) == [offset, size, count, 0]
  {
    var values := [offset, size, count, 0];
    Pow256Small();
    assert Fits(values, TrailerWidths());
    var printed := Print(values, TrailerWidths());
    ValuesOfPrint(values, TrailerWidths(), []);
    assert printed + [] == printed && Trailer(offset, size, count)[8..] == printed;
  }

  /** The entries an indexed pack yields: as written, each with the position of its content. */
  function IndexEntries(entries: seq<Entry>): (r: seq<Entry>)
    ensures |r| == |entries|
  {
    StoredList(Laid(entries, 8), true)
  }

  lemma LaidPackable(packed: seq<byte>, entries: seq<Entry>, contents: seq<seq<byte>>, after: seq<byte>)
    requires Packable(entries) && Filled(entries, contents) && |packed| >= 8 && packed[8..] == Joined(contents) + after && |packed| < UINT64
    ensures Packable(Laid(entries, 8)) && Addressed(packed, Laid(entries, 8), contents)
    ensures forall i :: 0 <= i < |entries| ==> InData(Laid(entries, 8)[i], 8 + |Joined(contents)|)
  {
    var laid := Laid(entries, 8);
    LaidAddressed(packed, 8, entries, contents, after);
    forall i | 0 <= i < |laid| ensures Encodable(laid[i]) && laid[i].path != [] && InData(laid[i], 8 + |Joined(contents)|) {
      assert Encodable(entries[i]) && laid[i] == entries[i].(offset := laid[i].offset);
    }
  }

  lemma IndexParts(packed: seq<byte>, data: seq<byte>, central: seq<byte>, trailer: seq<byte>)
    requires |trailer| == 32 && packed == IndexMagic() + data + central + trailer
    ensures |packed| == 40 + |data| + |central| && packed[..8] == IndexMagic() && packed[|packed| - 32..] == trailer
    ensures packed[8..] == data + (central + trailer)
  {
  }

  lemma StoredAddressed(packed: seq<byte>, entries: seq<Entry>, contents: seq<seq<byte>>)
    requires Addressed(packed, entries, contents)
    ensures Addressed(packed, StoredList(entries, true), contents)
  {
    forall i | 0 <= i < |entries| ensures AddressedAt(packed, StoredList(entries, true)[i], contents[i]) {
      assert AddressedAt(packed, entries[i], contents[i]);
    }
  }

  /** Reading an indexed pack returns its entries, each addressing its file's bytes. */
  lemma IndexRead(entries: seq<Entry>, contents: seq<seq<byte>>)
    requires Packable(entries) && Filled(entries, contents) && |IndexBytes(entries, contents)| < UINT64
    ensures ReadIndex(IndexBytes(entries, contents)) == Some(IndexEntries(entries))
    ensures Addressed(IndexBytes(entries, contents), IndexEntries(entries), contents)
  {
    var packed, data, laid := IndexBytes(entries, contents), Joined(contents), Laid(entries, 8);
    var central := Central(laid);
    var trailer := Trailer(8 + |data|, |central|, |entries|);
    IndexParts(packed, data, central, trailer);
    LaidPackable(packed, entries, contents, central + trailer);
    StoredAddressed(packed, laid, contents);
    TrailerRead(8 + |data|, |central|, |entries|);
    CentralRead(packed, IndexMagic() + data, laid, trailer);
  }
}
