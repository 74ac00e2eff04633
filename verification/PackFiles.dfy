/** Packing scanned entries with their files, and reading a pack of either layout back. */
module PackFiles {
  import opened Bytes
  import opened Paths
  import opened Entries
  import opened Fields
  import opened EntryCodec
  import opened Pack
  import opened IndexPack

  datatype Layout = Stream | Indexed

  /** A regular file when it is read: its bytes and what `fstat` says of it besides its size. */
  datatype SourceFile = SourceFile(content: seq<byte>, volume: nat, inode: nat, mtime: Time)

  /** The source files, by the archive path of each of their names, at the time they are read. */
  type Files = map<Text, SourceFile>

  function ContentOf(e: Entry, files: Files): seq<byte>
  {
    if e.kind.Regular? && e.path in files then files[e.path].content else []
  }

  function ContentsOf(entries: seq<Entry>, files: Files): (r: seq<seq<byte>>)
    ensures |r| == |entries|
    ensures forall i :: 0 <= i < |entries| ==> r[i] == ContentOf(entries[i], files)
  {
    if entries == [] then [] else [ContentOf(entries[0], files)] + ContentsOf(entries[1..], files)
  }

  /** Still the file the scan saw: the same inode of the same volume, of the same size and time of modification. */
  predicate SameFileState(file: SourceFile, e: Entry)
  {
    |file.content| == e.source.size && file.volume == e.source.volume && file.inode == e.source.inode && file.mtime == e.mtime
  }

  /** A file is still the one the scan saw, under a hardlink's name too, and the strings are not too long. */
  predicate Available(e: Entry, files: Files)
  {
    && (e.kind.Regular? || e.kind.Hardlink? ==> e.path in files && SameFileState(files[e.path], e))
    && (e.kind.Regular? ==> |files[e.path].content| == e.size)
    && |e.path| <= MaxString && |e.link| <= MaxString
  }

  ghost predicate AllAvailable(entries: seq<Entry>, files: Files)
  {
    forall i :: 0 <= i < |entries| ==> Available(entries[i], files)
  }

  function PackBytes(layout: Layout, entries: seq<Entry>, contents: seq<seq<byte>>): seq<byte>
    requires |contents| == |entries|
  {
    if layout.Stream? then StreamBytes(entries, contents) else IndexBytes(entries, contents)
  }

  function PackedEntries(layout: Layout, entries: seq<Entry>): (r: seq<Entry>)
    ensures |r| == |entries|
  {
    if layout.Stream? then StreamEntries(entries) else IndexEntries(entries)
  }

  function ReadLayout(layout: Layout, packed: seq<byte>): Option<seq<Entry>>
  {
    if layout.Stream? then ReadStream(packed) else ReadIndex(packed)
  }

  // ---- writing ----

  method PackStream(entries: seq<Entry>, files: Files) returns (packed: Option<seq<byte>>)
    ensures packed.Some? <==> AllAvailable(entries, files)
    ensures packed.Some? ==> packed.value == StreamBytes(entries, ContentsOf(entries, files))
  {
    ghost var contents, write := ContentsOf(entries, files), WriterOf(false);
    var out := StreamMagic() + LittleEndian(|entries|, 4);
    var i: nat := 0;
    while i < |entries|
      invariant i <= |entries| && forall j :: 0 <= j < i ==> Available(entries[j], files)
      invariant out + Records(write, entries[i..], contents[i..]) == StreamBytes(entries, contents)
    {
      var e := entries[i];
      if !Available(e, files) {
        return None;
      }
      RecordNext(write, entries, contents, i, out);
      out := out + Record(WriterOf(false), e, ContentOf(e, files));
      i := i + 1;
    }
    assert out + [] == out;
    return Some(out);
  }

  lemma RecordNext(write: Writer, entries: seq<Entry>, contents: seq<seq<byte>>, i: nat, out: seq<byte>)
    requires i < |entries| == |contents|
    ensures out + Records(write, entries[i..], contents[i..])
      == out + Record(write, entries[i], contents[i]) + Records(write, entries[i + 1..], contents[i + 1..])
  {
    assert entries[i..][1..] == entries[i + 1..] && contents[i..][1..] == contents[i + 1..];
    Associative(out, Record(write, entries[i], contents[i]), Records(write, entries[i + 1..], contents[i + 1..]));
  }

  /** What has been written with `i` entries done. */
  function Written(entries: seq<Entry>, files: Files, i: nat): (r: seq<byte>)
    requires i <= |entries|
  {
    if i == 0 then IndexMagic() else Written(entries, files, i - 1) + ContentOf(entries[i - 1], files)
  }

  function LaidTo(entries: seq<Entry>, files: Files, i: nat): (r: seq<Entry>)
    requires i <= |entries|
  {
    if i == 0 then [] else LaidTo(entries, files, i - 1) + [entries[i - 1].(offset := |Written(entries, files, i - 1)|)]
  }

  /** Contents first, remembering where each one starts. */
  method PackContents(entries: seq<Entry>, files: Files) returns (ok: bool, out: seq<byte>, laid: seq<Entry>)
    ensures ok <==> AllAvailable(entries, files)
    ensures ok ==> out == Written(entries, files, |entries|) && laid == LaidTo(entries, files, |entries|)
  {
    out, laid := IndexMagic(), [];
    var i: nat := 0;
    while i < |entries|
      invariant i <= |entries| && forall j :: 0 <= j < i ==> Available(entries[j], files)
      invariant out == Written(entries, files, i) && laid == LaidTo(entries, files, i)
    {
      var e := entries[i];
      if !Available(e, files) {
        return false, out, laid;
      }
      laid := laid + [e.(offset := |out|)];
      out := out + ContentOf(e, files);
      i := i + 1;
    }
    ok := true;
  }

  /** What is written so far and what is still to come make up the whole. */
  lemma {:induction false} WrittenGoesOn(entries: seq<Entry>, files: Files, contents: seq<seq<byte>>, i: nat)
    requires i <= |entries| == |contents| && forall j :: 0 <= j < |entries| ==> contents[j] == ContentOf(entries[j], files)
    ensures Written(entries, files, i) + Joined(contents[i..]) == IndexMagic() + Joined(contents)
  {
    if i == 0 {
      assert contents[i..] == contents;
    } else {
      WrittenGoesOn(entries, files, contents, i - 1);
      ContentNext(contents, i - 1, Written(entries, files, i - 1));
    }
  }

  lemma {:induction false} LaidGoesOn(entries: seq<Entry>, files: Files, i: nat, whole: seq<Entry>)
    requires i <= |entries| && whole == LaidBy(entries, files, |IndexMagic()|)
    ensures LaidTo(entries, files, i) + LaidBy(entries[i..], files, |Written(entries, files, i)|) == whole
  {
    if i == 0 {
      assert entries[i..] == entries && [] + whole == whole;
    } else {
      LaidGoesOn(entries, files, i - 1, whole);
      LaidNext(entries, files, i - 1, |Written(entries, files, i - 1)|, LaidTo(entries, files, i - 1));
    }
  }

  lemma WrittenWhole(entries: seq<Entry>, files: Files)
    ensures Written(entries, files, |entries|) == IndexMagic() + Joined(ContentsOf(entries, files))
    ensures LaidTo(entries, files, |entries|) == LaidBy(entries, files, 8)
  {
    var n := |entries|;
    WrittenGoesOn(entries, files, ContentsOf(entries, files), n);
    LaidGoesOn(entries, files, n, LaidBy(entries, files, 8));
    assert ContentsOf(entries, files)[n..] == [] && entries[n..] == [];
    assert Written(entries, files, n) + [] == Written(entries, files, n) && LaidTo(entries, files, n) + [] == LaidTo(entries, files, n);
  }

  /** The layout by the bytes actually written. */
  function LaidBy(entries: seq<Entry>, files: Files, at: nat): seq<Entry>
  {
    if entries == [] then [] else [entries[0].(offset := at)] + LaidBy(entries[1..], files, at + |ContentOf(entries[0], files)|)
  }

  lemma ContentNext(contents: seq<seq<byte>>, i: nat, out: seq<byte>)
    requires i < |contents|
    ensures out + Joined(contents[i..]) == out + contents[i] + Joined(contents[i + 1..])
  {
    assert contents[i..][1..] == contents[i + 1..];
    Associative(out, contents[i], Joined(contents[i + 1..]));
  }

  lemma LaidNext(entries: seq<Entry>, files: Files, i: nat, at: nat, laid: seq<Entry>)
    requires i < |entries|
    ensures laid + LaidBy(entries[i..], files, at) ==
      laid + [entries[i].(offset := at)] + LaidBy(entries[i + 1..], files, at + |ContentOf(entries[i], files)|)
  {
    assert entries[i..][1..] == entries[i + 1..];
    Associative(laid, [entries[i].(offset := at)], LaidBy(entries[i + 1..], files, at + |ContentOf(entries[i], files)|));
  }

  lemma {:induction false} LaidByIsLaid(entries: seq<Entry>, files: Files, at: nat)
    requires forall i :: 0 <= i < |entries| ==> |ContentOf(entries[i], files)| == entries[i].size
    ensures LaidBy(entries, files, at) == Laid(entries, at)
  {
    if entries != [] {
      LaidByIsLaid(entries[1..], files, at + entries[0].size);
    }
  }

  method WriteDirectory(entries: seq<Entry>) returns (out: seq<byte>)
    ensures out == DirectoryBytes(WriterOf(true), entries)
  {
    out := [];
    ghost var write := WriterOf(true);
    var i: nat := 0;
    while i < |entries|
      invariant i <= |entries| && out + DirectoryBytes(write, entries[i..]) == DirectoryBytes(write, entries)
    {
      assert entries[i..][1..] == entries[i + 1..];
      Associative(out, write(entries[i]), DirectoryBytes(write, entries[i + 1..]));
      out := out + WriteEntry(entries[i], true);
      i := i + 1;
    }
    assert out + [] == out;
  }

  method PackIndex(entries: seq<Entry>, files: Files) returns (packed: Option<seq<byte>>)
    requires forall i :: 0 <= i < |entries| && !entries[i].kind.Regular? ==> entries[i].size == 0
    ensures packed.Some? <==> AllAvailable(entries, files)
    ensures packed.Some? ==> packed.value == IndexBytes(entries, ContentsOf(entries, files))
  {
    var ok, out, laid := PackContents(entries, files);
    if !ok {
      return None;
    }
    var directory := WriteDirectory(laid);
    var central := CentralMagic() + LittleEndian(|laid|, 4) + directory;
    IndexAssembled(entries, files, ContentsOf(entries, files));
    return Some(out + central + Trailer(|out|, |central|, |laid|));
  }

  lemma IndexAssembled(entries: seq<Entry>, files: Files, contents: seq<seq<byte>>)
    requires AllAvailable(entries, files) && contents == ContentsOf(entries, files)
    requires forall i :: 0 <= i < |entries| && !entries[i].kind.Regular? ==> entries[i].size == 0
    ensures var out, laid := Written(entries, files, |entries|), LaidTo(entries, files, |entries|);
            && |laid| == |entries|
            && IndexBytes(entries, contents) == out + Central(laid) + Trailer(|out|, |Central(laid)|, |laid|)
  {
    forall i | 0 <= i < |entries| ensures |ContentOf(entries[i], files)| == entries[i].size {
      assert Available(entries[i], files);
    }
    WrittenWhole(entries, files);
    LaidByIsLaid(entries, files, 8);
  }

  // ---- reading ----

  method ReadStreamEntries(packed: seq<byte>) returns (entries: Option<seq<Entry>>)
    ensures entries == ReadStream(packed)
  {
    if |packed| < 12 || packed[..8] != StreamMagic() {
      return None;
    }
    var count := FromLittleEndian(packed[8..12]);
    if !CountFits(count, |packed| - 12, 4 + MinimumEntrySize) {
      return None;
    }
    entries := ReadAllRecords(packed, 12, count, ReaderOf(false));
  }

  method ReadAllRecords(packed: seq<byte>, start: nat, count: nat, read: Reader) returns (entries: Option<seq<Entry>>)
    requires start <= |packed|
    ensures entries == ReadRecords(read, packed, start, count)
  {
    var found: seq<Entry> := [];
    var at: nat, left: nat := start, count;
    ghost var goal := ReadRecords(read, packed, start, count);
    EntriesBefore([], goal);
    while left > 0
      invariant at <= |packed| && goal == Before(found, ReadRecords(read, packed, at, left))
      decreases left
    {
      var record := ReadRecord(read, packed, at);
      if record.None? {
        return None;
      }
      EntriesBefore(found, ReadRecords(read, packed, record.value.1, left - 1));
      BeforeTwice(found, record.value.0, ReadRecords(read, packed, record.value.1, left - 1));
      found, at, left := found + [record.value.0], record.value.1, left - 1;
    }
    assert found + [] == found;
    if at != |packed| {
      return None;
    }
    return Some(found);
  }

  function Before(found: seq<Entry>, more: Option<seq<Entry>>): Option<seq<Entry>>
  {
    if more.None? then None else Some(found + more.value)
  }

  lemma EntriesBefore(found: seq<Entry>, more: Option<seq<Entry>>)
    ensures Before([], more) == more
  {
    if more.Some? {
      assert [] + more.value == more.value;
    }
  }

  lemma BeforeTwice(found: seq<Entry>, e: Entry, more: Option<seq<Entry>>)
    ensures Before(found + [e], more) == Before(found, Before([e], more))
  {
    if more.Some? {
      Associative(found, [e], more.value);
    }
  }

  /** Reads the directory entry by entry; a file whose data overlap the directory ends it. */
  method ReadAllDirectory(s: seq<byte>, count: nat, centralOffset: nat, read: Reader) returns (ok: bool, entries: seq<Entry>, rest: seq<byte>)
    ensures ok <==> ReadDirectory(read, s, count).Some? && forall i :: 0 <= i < count ==> InData(ReadDirectory(read, s, count).value.0[i], centralOffset)
    ensures ok ==> ReadDirectory(read, s, count) == Some((entries, rest))
  {
    entries, rest := [], s;
    var left: nat := count;
    ghost var goal := ReadDirectory(read, s, count);
    DirectoryBefore([], goal);
    while left > 0
      invariant left <= count && |entries| == count - left && goal == DirectoryOf(entries, ReadDirectory(read, rest, left))
      invariant forall i :: 0 <= i < |entries| ==> InData(entries[i], centralOffset)
      decreases left
    {
      var first := read(rest);
      if first.None? {
        return false, entries, rest;
      }
      ghost var more := ReadDirectory(read, first.value.1, left - 1);
      DirectoryTwice(entries, first.value.0, more);
      if !InData(first.value.0, centralOffset) {
        if goal.Some? {
          assert goal.value.0[|entries|] == first.value.0;
        }
        return false, entries, rest;
      }
      entries, rest, left := entries + [first.value.0], first.value.1, left - 1;
    }
    assert entries + [] == entries;
    ok := true;
  }

  function DirectoryOf(found: seq<Entry>, more: Read<seq<Entry>>): Read<seq<Entry>>
  {
    if more.None? then None else Some((found + more.value.0, more.value.1))
  }

  lemma DirectoryBefore(found: seq<Entry>, more: Read<seq<Entry>>)
    ensures DirectoryOf([], more) == more
  {
    if more.Some? {
      assert [] + more.value.0 == more.value.0;
    }
  }

  lemma DirectoryTwice(found: seq<Entry>, e: Entry, more: Read<seq<Entry>>)
    ensures DirectoryOf(found + [e], more) == DirectoryOf(found, DirectoryOf([e], more))
  {
    if more.Some? {
      Associative(found, [e], more.value.0);
    }
  }

  method ReadIndexEntries(packed: seq<byte>) returns (entries: Option<seq<Entry>>)
    ensures entries == ReadIndex(packed)
  {
    if |packed| < 40 || packed[..8] != IndexMagic() {
      return None;
    }
    var trailer := packed[|packed| - 32..];
    var v := Values(trailer[8..], TrailerWidths());
    var centralOffset, centralSize, count := v[0], v[1], v[2];
    if trailer[..8] != EndMagic() || v[3] != 0 || centralOffset < 8 || centralOffset + centralSize + 32 != |packed| {
      return None;
    }
    if centralSize < 12 || packed[centralOffset..centralOffset + 8] != CentralMagic() {
      return None;
    }
    if FromLittleEndian(packed[centralOffset + 8..centralOffset + 12]) != count || !CountFits(count, centralSize - 12, MinimumEntrySize + 8) {
      return None;
    }
    var ok, found, rest := ReadAllDirectory(packed[centralOffset + 12..], count, centralOffset, ReaderOf(true));
    if !ok || |rest| != 32 {
      return None;
    }
    return Some(found);
  }

  /** Accepts a pack exactly when it parses and its entries are well-formed. */
  method ReadPackedEntries(packed: seq<byte>, layout: Layout) returns (entries: Option<seq<Entry>>)
    ensures var parsed := ReadLayout(layout, packed);
            entries == if parsed.Some? && WellFormed(parsed.value, |packed|) then parsed else None
  {
    if layout.Stream? {
      entries := ReadStreamEntries(packed);
    } else {
      entries := ReadIndexEntries(packed);
    }
    if entries.Some? {
      var ok := ValidateEntries(entries.value, |packed|);
      if !ok {
        return None;
      }
    }
  }
}
