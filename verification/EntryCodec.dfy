/** The stored form of an entry's metadata. */
module EntryCodec {
  import opened Bytes
  import opened Entries
  import opened Fields

  const MinimumEntrySize := 74

  // ---- kinds and times as numbers ----

  function KindCode(kind: Kind): (code: nat)
    ensures 1 <= code <= 8
  {
    match kind
    case Regular => 1
    case Directory => 2
    case Symlink => 3
    case Fifo => 4
    case Character => 5
    case Block => 6
    case Socket => 7
    case Hardlink => 8
  }

  function KindOf(code: nat): Kind
    requires 1 <= code <= 8
  {
    if code == 1 then Regular else if code == 2 then Directory else if code == 3 then Symlink else if code == 4 then Fifo
    else if code == 5 then Character else if code == 6 then Block else if code == 7 then Socket else Hardlink
  }

  /** A signed 64-bit number of seconds; the cast to unsigned stores its two's complement. */
  predicate Seconds(t: int)
  {
    -0x8000_0000_0000_0000 <= t < 0x8000_0000_0000_0000
  }

  function Stored64(t: int): nat
  {
    t % UINT64
  }

  function Signed64(v: nat): int
  {
    if v >= 0x8000_0000_0000_0000 then v - UINT64 else v
  }

  lemma SignedOfStored(t: int)
    requires Seconds(t)
    ensures Signed64(Stored64(t)) == t && Stored64(t) < UINT64
  {
    if t < 0 {
      assert t + UINT64 == Stored64(t);
    }
  }

  lemma StoredOfSigned(v: nat)
    requires v < UINT64
    ensures Stored64(Signed64(v)) == v && Seconds(Signed64(v))
  {
    if v >= 0x8000_0000_0000_0000 {
      assert (v - UINT64) % UINT64 == v;
    }
  }

  predicate ValidTime(t: Time)
  {
    Seconds(t.seconds) && t.nanos < 1_000_000_000
  }

  // ---- the fields between path and link ----

  /** Type; mode, owner and group; size; seconds and nanoseconds of access, modification and change. */
  function Widths(): (w: seq<nat>)
    ensures |w| == 11 && Sum(w) == 57
  {
    var stamp: seq<nat> := [8, 4];
    var owner: seq<nat> := [4, 4];
    var front: seq<nat> := [1] + owner;
    var size: seq<nat> := [4, 8];
    assert Sum([1]) == 1 && Sum(owner) == 8 && Sum(size) == 12 && Sum(stamp) == 12;
    SumConcat([1], owner);
    SumConcat(front, size);
    SumConcat(stamp, stamp);
    SumConcat(stamp + stamp, stamp);
    SumConcat(front + size, stamp + stamp + stamp);
    assert front + size + (stamp + stamp + stamp) == [1, 4, 4, 4, 8, 8, 4, 8, 4, 8, 4];
    [1, 4, 4, 4, 8, 8, 4, 8, 4, 8, 4]
  }

  /** What the reader insists on, beyond the widths of the fields. */
  predicate Plausible(e: Entry)
  {
    && e.mode < 4096 && e.uid < 0x1_0000_0000 && e.gid < 0x1_0000_0000 && e.size < UINT64
    && ValidTime(e.atime) && ValidTime(e.mtime) && ValidTime(e.ctime)
    && (!e.kind.Regular? ==> e.size == 0)
    && (!e.kind.Symlink? && !e.kind.Hardlink? ==> e.link == [])
    && (!e.kind.Character? && !e.kind.Block? ==> e.device == 0)
  }

  predicate Encodable(e: Entry)
  {
    Plausible(e) && Storable(e.path) && Storable(e.link) && e.device < UINT64 && e.offset < UINT64
  }

  function ValuesOf(e: Entry): (v: seq<nat>)
    ensures |v| == 11
  {
    [KindCode(e.kind), e.mode, e.uid, e.gid, e.size, Stored64(e.atime.seconds), e.atime.nanos,
     Stored64(e.mtime.seconds), e.mtime.nanos, Stored64(e.ctime.seconds), e.ctime.nanos]
  }

  /** The entry the values describe, if the reader accepts it. */
  function Described(path: seq<byte>, v: seq<nat>, link: seq<byte>, device: nat, offset: nat): Option<Entry>
    requires |v| == 11
  {
    if v[0] < 1 || v[0] > 8 || v[1] >= 4096 || v[6] >= 1_000_000_000 || v[8] >= 1_000_000_000 || v[10] >= 1_000_000_000 then None
    else
      var e := Entry(path, KindOf(v[0]), v[1], v[2], v[3], v[4], Time(Signed64(v[5]), v[6]), Time(Signed64(v[7]), v[8]),
                     Time(Signed64(v[9]), v[10]), link, device, offset, NoSource);
      if (!e.kind.Regular? && e.size != 0) || (!e.kind.Symlink? && !e.kind.Hardlink? && link != [])
         || (!e.kind.Character? && !e.kind.Block? && device != 0)
      then None else Some(e)
  }

  lemma Pow256Small()
    ensures Pow256(1) == 256 && Pow256(4) == 0x1_0000_0000 && Pow256(8) == UINT64
  {
    Pow256Of8();
  }

  lemma ValuesFitWidths(e: Entry)
    requires Plausible(e)
    ensures Fits(ValuesOf(e), Widths())
  {
    Pow256Small();
    SignedOfStored(e.atime.seconds);
    SignedOfStored(e.mtime.seconds);
    SignedOfStored(e.ctime.seconds);
  }

  lemma FitsBounds(v: seq<nat>)
    requires Fits(v, Widths())
    ensures v[1] < 0x1_0000_0000 && v[2] < 0x1_0000_0000 && v[3] < 0x1_0000_0000
    ensures v[4] < UINT64 && v[5] < UINT64 && v[7] < UINT64 && v[9] < UINT64
  {
    Pow256Small();
    assert Widths()[1] == 4 && Widths()[2] == 4 && Widths()[3] == 4;
    assert Widths()[4] == 8 && Widths()[5] == 8 && Widths()[7] == 8 && Widths()[9] == 8;
  }

  /** Describing an entry by its values gives it back. */
  lemma DescribedOf(e: Entry)
    requires Plausible(e)
    ensures Described(e.path, ValuesOf(e), e.link, e.device, e.offset) == Some(e.(source := NoSource))
  {
    SignedOfStored(e.atime.seconds);
    SignedOfStored(e.mtime.seconds);
    SignedOfStored(e.ctime.seconds);
  }

  /** What is accepted is plausible, and its values are the ones read. */
  lemma ValuesOfDescribed(path: seq<byte>, v: seq<nat>, link: seq<byte>, device: nat, offset: nat)
    requires Fits(v, Widths())
    requires Described(path, v, link, device, offset).Some?
    ensures var e := Described(path, v, link, device, offset).value;
            Plausible(e) && ValuesOf(e) == v && e.path == path && e.link == link && e.device == device && e.offset == offset && e.source == NoSource
  {
    FitsBounds(v);
    StoredOfSigned(v[5]);
    StoredOfSigned(v[7]);
    StoredOfSigned(v[9]);
  }

  // ---- the whole record ----

  function WriteEntry(e: Entry, withOffset: bool): (r: seq<byte>)
    ensures |r| == MinimumEntrySize - 1 + |e.path| + |e.link| + (if withOffset then 8 else 0)
  {
    PrintString(e.path) + (Print(ValuesOf(e), Widths()) + (PrintString(e.link) + WriteTail(e, withOffset)))
  }

  function TailWidths(withOffset: bool): (w: seq<nat>)
    ensures Sum(w) == if withOffset then 16 else 8
  {
    var w: seq<nat> := if withOffset then [8, 8] else [8];
    assert withOffset ==> w[..1] == [8] && w[..1][..0] == [];
    assert !withOffset ==> w[..0] == [];
    w
  }

  function WriteTail(e: Entry, withOffset: bool): (r: seq<byte>)
    ensures |r| == if withOffset then 16 else 8
  {
    Print(TailValues(e, withOffset), TailWidths(withOffset))
  }

  /** The metadata at the front of `s`, and what follows it. */
  function ReadEntry(s: seq<byte>, withOffset: bool): Read<Entry>
  {
    var path := ReadString(s);
    if path.None? then None
    else
      var fields := ReadFields(path.value.1, Widths());
      if fields.None? then None
      else
        var link := ReadString(fields.value.1);
        if link.None? then None
        else
          var tail := ReadFields(link.value.1, TailWidths(withOffset));
          if tail.None? then None
          else Assembled(path.value.0, fields.value.0, link.value.0, tail.value.0, tail.value.1)
  }

  function Assembled(path: seq<byte>, v: seq<nat>, link: seq<byte>, tail: seq<nat>, rest: seq<byte>): Read<Entry>
  {
    if |v| != 11 || !(1 <= |tail| <= 2) then None
    else
      var e := Described(path, v, link, tail[0], if |tail| == 2 then tail[1] else 0);
      if e.None? then None else Some((e.value, rest))
  }

  /** What is left of an entry once it has been stored and read again. */
  function Stored(e: Entry, withOffset: bool): Entry
  {
    e.(source := NoSource, offset := if withOffset then e.offset else 0)
  }

  function TailValues(e: Entry, withOffset: bool): (v: seq<nat>)
    ensures |v| == |TailWidths(withOffset)|
  {
    if withOffset then [e.device, e.offset] else [e.device]
  }

  lemma AssembledOf(e: Entry, withOffset: bool, rest: seq<byte>)
    requires Encodable(e)
    ensures Assembled(e.path, ValuesOf(e), e.link, TailValues(e, withOffset), rest) == Some((Stored(e, withOffset), rest))
  {
    DescribedOf(e);
    DescribedOf(e.(offset := 0));
  }

  lemma TailFits(e: Entry, withOffset: bool)
    requires Encodable(e)
    ensures Fits(TailValues(e, withOffset), TailWidths(withOffset))
  {
    Pow256Small();
  }

  /** Reading what was written returns the entry and what follows. */
  lemma EntryRead(e: Entry, withOffset: bool, rest: seq<byte>)
    requires Encodable(e)
    ensures ReadEntry(WriteEntry(e, withOffset) + rest, withOffset) == Some((Stored(e, withOffset), rest))
  {
    var fields, link, tail := Print(ValuesOf(e), Widths()), PrintString(e.link), WriteTail(e, withOffset);
    Nested(PrintString(e.path), fields, link, tail, rest);
    StringRead(e.path, fields + (link + (tail + rest)));
    ValuesFitWidths(e);
    FieldsRead(ValuesOf(e), Widths(), link + (tail + rest));
    StringRead(e.link, tail + rest);
    TailFits(e, withOffset);
    FieldsRead(TailValues(e, withOffset), TailWidths(withOffset), rest);
    AssembledOf(e, withOffset, rest);
  }

  lemma Nested(a: seq<byte>, b: seq<byte>, c: seq<byte>, d: seq<byte>, rest: seq<byte>)
    ensures (a + (b + (c + d))) + rest == a + (b + (c + (d + rest)))
  {
  }

  /** Whatever the reader accepts is exactly what the writer writes for the entry it returns. */
  lemma EntryPrinted(s: seq<byte>, withOffset: bool)
    requires ReadEntry(s, withOffset).Some?
    ensures var r := ReadEntry(s, withOffset).value;
            Encodable(r.0) && r.0 == Stored(r.0, withOffset) && s == WriteEntry(r.0, withOffset) + r.1
  {
    var path := ReadString(s).value;
    var fields := ReadFields(path.1, Widths()).value;
    var link := ReadString(fields.1).value;
    var tail := ReadFields(link.1, TailWidths(withOffset)).value;
    StringPrinted(s);
    FieldsPrinted(path.1, Widths());
    StringPrinted(fields.1);
    FieldsPrinted(link.1, TailWidths(withOffset));
    FitsBounds(fields.0);
    var offset := if |tail.0| == 2 then tail.0[1] else 0;
    ValuesOfDescribed(path.0, fields.0, link.0, tail.0[0], offset);
    TailBounds(tail.0, withOffset);
    Nested(PrintString(path.0), Print(fields.0, Widths()), PrintString(link.0), Print(tail.0, TailWidths(withOffset)), tail.1);
  }

  lemma TailBounds(tail: seq<nat>, withOffset: bool)
    requires Fits(tail, TailWidths(withOffset))
    ensures tail == (if withOffset then [tail[0], tail[1]] else [tail[0]]) && forall i :: 0 <= i < |tail| ==> tail[i] < UINT64
  {
    Pow256Small();
  }

  lemma Places()
    ensures var w := Widths();
            && Sum(w[..0]) == 0 && Sum(w[..1]) == 1 && Sum(w[..2]) == 5 && Sum(w[..3]) == 9 && Sum(w[..4]) == 13 && Sum(w[..5]) == 21
            && Sum(w[..6]) == 29 && Sum(w[..7]) == 33 && Sum(w[..8]) == 41 && Sum(w[..9]) == 45 && Sum(w[..10]) == 53
  {
    var w := Widths();
    for i := 0 to 11
      invariant i >= 1 ==> Sum(w[..1]) == 1
      invariant i >= 2 ==> Sum(w[..2]) == 5
      invariant i >= 3 ==> Sum(w[..3]) == 9
      invariant i >= 4 ==> Sum(w[..4]) == 13
      invariant i >= 5 ==> Sum(w[..5]) == 21
      invariant i >= 6 ==> Sum(w[..6]) == 29
      invariant i >= 7 ==> Sum(w[..7]) == 33
      invariant i >= 8 ==> Sum(w[..8]) == 41
      invariant i >= 9 ==> Sum(w[..9]) == 45
      invariant i >= 10 ==> Sum(w[..10]) == 53
    {
      assert w[..i + 1][..i] == w[..i];
    }
  }

  lemma EntryField(e: Entry, f: seq<byte>, i: nat)
    requires i < 11 && f == Print(ValuesOf(e), Widths())
    ensures var w := Widths();
            Sum(w[..i]) + w[i] <= |f| && f[Sum(w[..i])..Sum(w[..i]) + w[i]] == LittleEndian(ValuesOf(e)[i], w[i])
  {
    var v, w := ValuesOf(e), Widths();
    FieldPlace(v, w, 11, i);
    assert v[..11] == v && w[..11] == w;
  }

  /** The fixed fields of a record: kind, permissions, owner, group, size and the three times, each where it stands. */
  lemma FixedLayout(e: Entry, f: seq<byte>)
    requires f == Print(ValuesOf(e), Widths())
    ensures |f| == 57 && f[0] == (match e.kind
              case Regular => 1 case Directory => 2 case Symlink => 3 case Fifo => 4
              case Character => 5 case Block => 6 case Socket => 7 case Hardlink => 8)
    ensures f[1..5] == LittleEndian(e.mode, 4) && f[5..9] == LittleEndian(e.uid, 4) && f[9..13] == LittleEndian(e.gid, 4)
    ensures f[13..21] == LittleEndian(e.size, 8)
    ensures f[21..29] == LittleEndian(e.atime.seconds % UINT64, 8) && f[29..33] == LittleEndian(e.atime.nanos, 4)
    ensures f[33..41] == LittleEndian(e.mtime.seconds % UINT64, 8) && f[41..45] == LittleEndian(e.mtime.nanos, 4)
    ensures f[45..53] == LittleEndian(e.ctime.seconds % UINT64, 8) && f[53..57] == LittleEndian(e.ctime.nanos, 4)
  {
    Places();
    EntryField(e, f, 0);
    EntryField(e, f, 1);
    EntryField(e, f, 2);
    EntryField(e, f, 3);
    EntryField(e, f, 4);
    EntryField(e, f, 5);
    EntryField(e, f, 6);
    EntryField(e, f, 7);
    EntryField(e, f, 8);
    EntryField(e, f, 9);
    EntryField(e, f, 10);
    OneByte(f, 0, KindCode(e.kind));
  }

  /** The whole record: path, fixed fields, link target, device, and in the indexed layout where the content lies. */
  lemma EntryLayout(e: Entry, withOffset: bool) returns (f: seq<byte>)
    ensures |f| == 57 && f == Print(ValuesOf(e), Widths())
    ensures WriteEntry(e, withOffset) ==
      LittleEndian(|e.path|, 4) + e.path + f + LittleEndian(|e.link|, 4) + e.link + LittleEndian(e.device, 8)
      + (if withOffset then LittleEndian(e.offset, 8) else [])
  {
    f := Print(ValuesOf(e), Widths());
    TailLayout(e, withOffset);
    Flat(LittleEndian(|e.path|, 4), e.path, f, LittleEndian(|e.link|, 4), e.link, LittleEndian(e.device, 8),
         if withOffset then LittleEndian(e.offset, 8) else []);
  }

  lemma Flat(a: seq<byte>, b: seq<byte>, c: seq<byte>, d: seq<byte>, e: seq<byte>, f: seq<byte>, g: seq<byte>)
    ensures a + b + (c + (d + e + (f + g))) == a + b + c + d + e + f + g
  {
  }

  lemma TailLayout(e: Entry, withOffset: bool)
    ensures WriteTail(e, withOffset) == LittleEndian(e.device, 8) + (if withOffset then LittleEndian(e.offset, 8) else [])
  {
    var v, w := TailValues(e, withOffset), TailWidths(withOffset);
    PrintStep(v, w, 0);
    assert v[..|v|] == v && w[..|w|] == w;
    assert v[..1] == [e.device] && w[..1] == [8] && v[..0] == [] && w[..0] == [];
    if withOffset {
      PrintStep(v, w, 1);
    }
  }
}
