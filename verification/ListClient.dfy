/** The client's side of a history list: what it reads out of the response is what the server keeps. */
module ListClient {
  import opened Bytes
  import opened Sessions
  import opened SessionsServer

  /** What a client learns about a backup; the digest comes in hexadecimal. */
  datatype Remote = Remote(id: Text, name: Text, timestamp: nat, size: nat, digest: Text)

  // ---- what travels ----

  predicate Sendable(text: Text)
  {
    |text| <= 65535 && 0 !in text
  }

  predicate Travels(r: Remote)
  {
    Sendable(r.id) && Sendable(r.name) && Sendable(r.digest) && r.timestamp < UINT64 && r.size < UINT64
  }

  predicate AllTravel(list: seq<Remote>)
  {
    |list| <= MaxEntries && forall i :: 0 <= i < |list| ==> Travels(list[i])
  }

  function RemoteBytes(r: Remote): seq<byte>
  {
    StringBytes(r.id) + (StringBytes(r.name) + (BigEndian(r.timestamp, 8) + (BigEndian(r.size, 8) + StringBytes(r.digest))))
  }

  /** Elements one behind the other, each as `write` puts it. */
  function Row(write: Remote -> seq<byte>, list: seq<Remote>): seq<byte>
  {
    if list == [] then [] else write(list[0]) + Row(write, list[1..])
  }

  function RemotesBytes(list: seq<Remote>): seq<byte>
  {
    Row(RemoteBytes, list)
  }

  function Response(list: seq<Remote>): seq<byte>
  {
    BigEndian(|list|, 4) + RemotesBytes(list)
  }

  lemma Pow256Small()
    ensures Pow256(2) == 65536 && Pow256(4) == 0x1_0000_0000 && Pow256(8) == UINT64
  {
    Pow256Of8();
  }

  // ---- reading ----

  /** A value and the bytes after it, or a failure. */
  type Read<T> = Option<(T, seq<byte>)>

  function ReadNumber(s: seq<byte>, width: nat): Read<nat>
  {
    if |s| < width then None else Some((FromBigEndian(s[..width]), s[width..]))
  }

  function ReadText(s: seq<byte>): Read<Text>
  {
    var n := ReadNumber(s, 2);
    if n.None? || |n.value.1| < n.value.0 || 0 in n.value.1[..n.value.0] then None
    else Some((n.value.1[..n.value.0], n.value.1[n.value.0..]))
  }

  function ReadRemote(s: seq<byte>): Read<Remote>
  {
    var id := ReadText(s);
    if id.None? then None else
    var name := ReadText(id.value.1);
    if name.None? then None else
    var timestamp := ReadNumber(name.value.1, 8);
    if timestamp.None? then None else
    var size := ReadNumber(timestamp.value.1, 8);
    if size.None? then None else
    var digest := ReadText(size.value.1);
    if digest.None? then None
    else Some((Remote(id.value.0, name.value.0, timestamp.value.0, size.value.0, digest.value.0), digest.value.1))
  }

  function ReadRow(read: seq<byte> -> Read<Remote>, s: seq<byte>, n: nat): Read<seq<Remote>>
    decreases n
  {
    if n == 0 then Some(([], s)) else
    var first := read(s);
    if first.None? then None else
    var more := ReadRow(read, first.value.1, n - 1);
    if more.None? then None else Some(([first.value.0] + more.value.0, more.value.1))
  }

  function ReadRemotes(s: seq<byte>, n: nat): Read<seq<Remote>>
  {
    ReadRow(ReadRemote, s, n)
  }

  lemma NumberRead(v: nat, width: nat, rest: seq<byte>)
    requires v < Pow256(width)
    ensures ReadNumber(BigEndian(v, width) + rest, width) == Some((v, rest))
  {
    BigEndianBack(v, width);
    Halves(BigEndian(v, width), rest);
  }

  lemma NumberPrinted(s: seq<byte>, width: nat)
    requires ReadNumber(s, width).Some?
    ensures var r := ReadNumber(s, width).value; r.0 < Pow256(width) && s == BigEndian(r.0, width) + r.1
  {
    BigEndianOfFrom(s[..width]);
  }

  lemma TextRead(text: Text, rest: seq<byte>)
    requires Sendable(text)
    ensures ReadText(StringBytes(text) + rest) == Some((text, rest))
  {
    Pow256Small();
    Associative(BigEndian(|text|, 2), text, rest);
    NumberRead(|text|, 2, text + rest);
    Halves(text, rest);
  }

  lemma TextPrinted(s: seq<byte>)
    requires ReadText(s).Some?
    ensures var r := ReadText(s).value; Sendable(r.0) && s == StringBytes(r.0) + r.1
  {
    Pow256Small();
    NumberPrinted(s, 2);
    var n := ReadNumber(s, 2).value;
    Associative(BigEndian(n.0, 2), n.1[..n.0], n.1[n.0..]);
  }

  lemma Nested(a: seq<byte>, b: seq<byte>, c: seq<byte>, d: seq<byte>, e: seq<byte>, rest: seq<byte>)
    ensures (a + (b + (c + (d + e)))) + rest == a + (b + (c + (d + (e + rest))))
  {
  }

  lemma RemoteRead(r: Remote, rest: seq<byte>)
    requires Travels(r)
    ensures ReadRemote(RemoteBytes(r) + rest) == Some((r, rest))
  {
    Pow256Small();
    var id, name, digest := StringBytes(r.id), StringBytes(r.name), StringBytes(r.digest);
    var timestamp, size := BigEndian(r.timestamp, 8), BigEndian(r.size, 8);
    Nested(id, name, timestamp, size, digest, rest);
    TextRead(r.id, name + (timestamp + (size + (digest + rest))));
    TextRead(r.name, timestamp + (size + (digest + rest)));
    NumberRead(r.timestamp, 8, size + (digest + rest));
    NumberRead(r.size, 8, digest + rest);
    TextRead(r.digest, rest);
  }

  lemma RemotePrinted(s: seq<byte>)
    requires ReadRemote(s).Some?
    ensures var r := ReadRemote(s).value; Travels(r.0) && s == RemoteBytes(r.0) + r.1
  {
    Pow256Small();
    var id := ReadText(s).value;
    var name := ReadText(id.1).value;
    var timestamp := ReadNumber(name.1, 8).value;
    var size := ReadNumber(timestamp.1, 8).value;
    var digest := ReadText(size.1).value;
    TextPrinted(s);
    TextPrinted(id.1);
    NumberPrinted(name.1, 8);
    NumberPrinted(timestamp.1, 8);
    TextPrinted(size.1);
    Nested(StringBytes(id.0), StringBytes(name.0), BigEndian(timestamp.0, 8), BigEndian(size.0, 8), StringBytes(digest.0), digest.1);
  }

  lemma {:induction false} RowRead(write: Remote -> seq<byte>, read: seq<byte> -> Read<Remote>, list: seq<Remote>, rest: seq<byte>)
    requires forall r, after :: r in list ==> read(write(r) + after) == Some((r, after))
    ensures ReadRow(read, Row(write, list) + rest, |list|) == Some((list, rest))
  {
    if list == [] {
      assert [] + rest == rest;
    } else {
      Associative(write(list[0]), Row(write, list[1..]), rest);
      RowRead(write, read, list[1..], rest);
      assert list == [list[0]] + list[1..];
    }
  }

  lemma {:induction false} RowPrinted(write: Remote -> seq<byte>, read: seq<byte> -> Read<Remote>, s: seq<byte>, n: nat)
    requires forall t :: read(t).Some? ==> Travels(read(t).value.0) && t == write(read(t).value.0) + read(t).value.1
    requires ReadRow(read, s, n).Some?
    ensures var r := ReadRow(read, s, n).value;
            |r.0| == n && (forall i :: 0 <= i < n ==> Travels(r.0[i])) && s == Row(write, r.0) + r.1
    decreases n
  {
    if n == 0 {
      assert [] + s == s;
    } else {
      var first := read(s).value;
      var more := ReadRow(read, first.1, n - 1).value;
      RowPrinted(write, read, first.1, n - 1);
      assert ([first.0] + more.0)[1..] == more.0;
      Associative(write(first.0), Row(write, more.0), more.1);
    }
  }

  lemma RemotesRead(list: seq<Remote>, rest: seq<byte>)
    requires forall i :: 0 <= i < |list| ==> Travels(list[i])
    ensures ReadRemotes(RemotesBytes(list) + rest, |list|) == Some((list, rest))
  {
    forall r, after | r in list ensures ReadRemote(RemoteBytes(r) + after) == Some((r, after)) {
      RemoteRead(r, after);
    }
    RowRead(RemoteBytes, ReadRemote, list, rest);
  }

  lemma RemotesPrinted(s: seq<byte>, n: nat)
    requires ReadRemotes(s, n).Some?
    ensures var r := ReadRemotes(s, n).value;
            |r.0| == n && (forall i :: 0 <= i < n ==> Travels(r.0[i])) && s == RemotesBytes(r.0) + r.1
  {
    forall t | ReadRemote(t).Some? ensures Travels(ReadRemote(t).value.0) && t == RemoteBytes(ReadRemote(t).value.0) + ReadRemote(t).value.1 {
      RemotePrinted(t);
    }
    RowPrinted(RemoteBytes, ReadRemote, s, n);
  }

  // ---- the client's program ----

  /** The payload of a message and how far it has been read. */
  class Reader {
    const data: seq<byte>
    var offset: nat

    ghost predicate Valid()
      reads this
    {
      offset <= |data|
    }

    ghost function Rest(): seq<byte>
      reads this
      requires Valid()
    {
      data[offset..]
    }

    constructor (payload: seq<byte>)
      ensures Valid() && data == payload && Rest() == payload
    {
      data, offset := payload, 0;
    }

    /** An unsigned number, most significant byte first. */
    method Number(width: nat) returns (v: Option<nat>)
      requires Valid()
      modifies this`offset
      ensures Valid()
      ensures var r := ReadNumber(old(Rest()), width); if r.None? then v.None? else v == Some(r.value.0) && Rest() == r.value.1
    {
      if |data| - offset < width {
        return None;
      }
      ghost var rest := Rest();
      var n: nat, i: nat := 0, 0;
      while i < width
        invariant i <= width && offset == old(offset) + i && width <= |rest| && data[old(offset)..] == rest
        invariant n == FromBigEndian(rest[..i])
      {
        assert rest[..i + 1][..i] == rest[..i] && rest[i] == data[offset];
        n := 256 * n + data[offset];
        offset := offset + 1;
        i := i + 1;
      }
      return Some(n);
    }

    method String() returns (text: Option<Text>)
      requires Valid()
      modifies this`offset
      ensures Valid()
      ensures var r := ReadText(old(Rest())); if r.None? then text.None? else text == Some(r.value.0) && Rest() == r.value.1
    {
      var n := Number(2);
      if n.None? || |data| - offset < n.value {
        return None;
      }
      var s := data[offset..offset + n.value];
      assert s == Rest()[..n.value];
      offset := offset + n.value;
      if 0 in s {
        return None;
      }
      return Some(s);
    }

    method Entry() returns (entry: Option<Remote>)
      requires Valid()
      modifies this`offset
      ensures Valid()
      ensures var r := ReadRemote(old(Rest())); if r.None? then entry.None? else entry == Some(r.value.0) && Rest() == r.value.1
    {
      var id := String();
      if id.None? {
        return None;
      }
      var name := String();
      if name.None? {
        return None;
      }
      var timestamp := Number(8);
      if timestamp.None? {
        return None;
      }
      var size := Number(8);
      if size.None? {
        return None;
      }
      var digest := String();
      if digest.None? {
        return None;
      }
      return Some(Remote(id.value, name.value, timestamp.value, size.value, digest.value));
    }
  }

  lemma RowStops(read: seq<byte> -> Read<Remote>, s: seq<byte>, n: nat)
    requires n > 0 && read(s).None?
    ensures ReadRow(read, s, n).None?
  {
  }

  /** What is still to be read completes what has been read to the whole. */
  ghost predicate Continues(read: seq<byte> -> Read<Remote>, all: Read<seq<Remote>>, entries: seq<Remote>, rest: seq<byte>, n: nat)
  {
    && (all.None? <==> ReadRow(read, rest, n).None?)
    && (all.Some? ==> all.value.0 == entries + ReadRow(read, rest, n).value.0 && all.value.1 == ReadRow(read, rest, n).value.1)
  }

  lemma NothingRead(read: seq<byte> -> Read<Remote>, rest: seq<byte>, n: nat)
    ensures Continues(read, ReadRow(read, rest, n), [], rest, n)
  {
    var all := ReadRow(read, rest, n);
    if all.Some? {
      assert [] + all.value.0 == all.value.0;
    }
  }

  lemma OneRead(read: seq<byte> -> Read<Remote>, all: Read<seq<Remote>>, entries: seq<Remote>, rest: seq<byte>, n: nat)
    requires n > 0 && read(rest).Some? && Continues(read, all, entries, rest, n)
    ensures Continues(read, all, entries + [read(rest).value.0], read(rest).value.1, n - 1)
  {
    var first := read(rest).value;
    var more := ReadRow(read, first.1, n - 1);
    if more.Some? {
      Associative(entries, [first.0], more.value.0);
    }
  }

  ghost predicate ReadsAsEntries(read: seq<byte> -> Read<Remote>)
  {
    forall t {:trigger ReadRemote(t)} :: read(t) == ReadRemote(t)
  }

  method NextEntry(reader: Reader, ghost read: seq<byte> -> Read<Remote>) returns (entry: Option<Remote>)
    requires reader.Valid() && ReadsAsEntries(read)
    modifies reader`offset
    ensures reader.Valid()
    ensures var r := read(old(reader.Rest())); if r.None? then entry.None? else entry == Some(r.value.0) && reader.Rest() == r.value.1
  {
    entry := reader.Entry();
  }

  /** The client's loop reads the next `n` entries. */
  method ReadEntries(reader: Reader, n: nat, ghost read: seq<byte> -> Read<Remote>) returns (list: Option<seq<Remote>>)
    requires reader.Valid() && ReadsAsEntries(read)
    modifies reader`offset
    ensures reader.Valid()
    ensures var r := ReadRow(read, old(reader.Rest()), n);
            if r.None? then list.None? else list == Some(r.value.0) && reader.Rest() == r.value.1
  {
    ghost var all := ReadRow(read, reader.Rest(), n);
    var entries: seq<Remote> := [];
    var i: nat := 0;
    NothingRead(read, reader.Rest(), n);
    while i < n
      invariant i <= n && reader.Valid() && Continues(read, all, entries, reader.Rest(), n - i)
    {
      ghost var before := reader.Rest();
      var entry := NextEntry(reader, read);
      if entry.None? {
        RowStops(read, before, n - i);
        return None;
      }
      OneRead(read, all, entries, before, n - i);
      entries := entries + [entry.value];
      i := i + 1;
    }
    assert entries + [] == entries;
    return Some(entries);
  }

  function AcceptedBy(read: seq<byte> -> Read<Remote>, payload: seq<byte>): Option<seq<Remote>>
  {
    var count := ReadNumber(payload, 4);
    if count.None? || count.value.0 > MaxEntries then None
    else
      var list := ReadRow(read, count.value.1, count.value.0);
      if list.None? || list.value.1 != [] then None else Some(list.value.0)
  }

  /** The list the client takes a payload for, if it accepts it. */
  function Accepted(payload: seq<byte>): Option<seq<Remote>>
  {
    AcceptedBy(ReadRemote, payload)
  }

  lemma ResponseAccepted(l: seq<Remote>)
    requires AllTravel(l)
    ensures Accepted(Response(l)) == Some(l)
  {
    Pow256Small();
    NumberRead(|l|, 4, RemotesBytes(l));
    RemotesRead(l, []);
    assert RemotesBytes(l) + [] == RemotesBytes(l);
  }

  lemma AcceptedIsResponse(payload: seq<byte>)
    requires Accepted(payload).Some?
    ensures AllTravel(Accepted(payload).value) && payload == Response(Accepted(payload).value)
  {
    NumberPrinted(payload, 4);
    var count := ReadNumber(payload, 4).value;
    RemotesPrinted(count.1, count.0);
    assert RemotesBytes(Accepted(payload).value) + [] == RemotesBytes(Accepted(payload).value);
  }

  /** The client accepts exactly the responses of at most 4096 entries, and takes each for the list it was written for. */
  lemma AcceptedMeaning(payload: seq<byte>, l: seq<Remote>)
    ensures Accepted(payload) == Some(l) <==> AllTravel(l) && payload == Response(l)
  {
    if Accepted(payload).Some? {
      AcceptedIsResponse(payload);
    }
    if AllTravel(l) && payload == Response(l) {
      ResponseAccepted(l);
    }
  }

  method ReadPayload(payload: seq<byte>, ghost read: seq<byte> -> Read<Remote>) returns (list: Option<seq<Remote>>)
    requires ReadsAsEntries(read)
    ensures list == AcceptedBy(read, payload)
  {
    var reader := new Reader(payload);
    var count := reader.Number(4);
    if count.None? || count.value > MaxEntries {
      return None;
    }
    list := ReadEntries(reader, count.value, read);
    if list.None? || reader.offset != |payload| {
      return None;
    }
  }

  method ReadList(payload: seq<byte>) returns (list: Option<seq<Remote>>)
    ensures list == Accepted(payload)
  {
    list := ReadPayload(payload, ReadRemote);
  }

  // ---- what the server sends is what the client reads ----

  /** A stored backup as the client learns of it. */
  function Shown(e: Entry): Remote
  {
    Remote(e.id, e.meta.name, e.meta.timestamp, e.meta.size, Hex(e.meta.digest))
  }

  function AllShown(entries: seq<Entry>): (r: seq<Remote>)
    ensures |r| == |entries|
  {
    seq(|entries|, i requires 0 <= i < |entries| => Shown(entries[i]))
  }

  lemma {:induction false} HexClean(s: seq<byte>)
    ensures forall i :: 0 <= i < |Hex(s)| ==> HexDigit(Hex(s)[i])
  {
    if s != [] {
      HexClean(s[1..]);
    }
  }

  /** The digest can be told from its hexadecimal form. */
  lemma {:induction false} HexInjective(a: seq<byte>, b: seq<byte>)
    requires Hex(a) == Hex(b)
    ensures a == b
  {
    if a != [] {
      assert |Hex(a)| == 2 * |a| && |Hex(b)| == 2 * |b|;
      assert Hex(a)[0] == Hex(b)[0] && Hex(a)[1] == Hex(b)[1];
      assert Hex(a)[2..] == Hex(a[1..]) && Hex(b)[2..] == Hex(b[1..]);
      HexInjective(a[1..], b[1..]);
      assert a == [a[0]] + a[1..] && b == [b[0]] + b[1..];
    }
  }

  lemma EntryShown(e: Entry)
    ensures EntryBytes(e) == RemoteBytes(Shown(e))
  {
    Nested(StringBytes(e.id), StringBytes(e.meta.name), BigEndian(e.meta.timestamp, 8), BigEndian(e.meta.size, 8),
           StringBytes(Hex(e.meta.digest)), []);
  }

  lemma {:induction false} RowAppend(write: Remote -> seq<byte>, list: seq<Remote>, r: Remote)
    ensures Row(write, list + [r]) == Row(write, list) + write(r)
  {
    if list == [] {
      assert [] + [r] == [r] && Row(write, [r][1..]) == [];
    } else {
      RowAppend(write, list[1..], r);
      assert (list + [r])[1..] == list[1..] + [r];
      Associative(write(list[0]), Row(write, list[1..]), write(r));
    }
  }

  lemma {:induction false} ListShown(write: Remote -> seq<byte>, entries: seq<Entry>)
    requires forall e :: EntryBytes(e) == write(Shown(e))
    ensures ListBytes(entries) == Row(write, AllShown(entries))
  {
    if entries != [] {
      var n := |entries| - 1;
      ListShown(write, entries[..n]);
      RowAppend(write, AllShown(entries[..n]), Shown(entries[n]));
      assert AllShown(entries) == AllShown(entries[..n]) + [Shown(entries[n])];
    }
  }

  /** What the invariant says of every visible backup, and what a 64-bit field can hold. */
  predicate Listable(e: Entry)
  {
    ValidBackupId(e.id) && ValidMeta(e.meta) && e.meta.timestamp < UINT64 && e.meta.size < UINT64
  }

  lemma ShownTravels(e: Entry)
    requires Listable(e)
    ensures Travels(Shown(e))
  {
    HexClean(e.meta.digest);
  }

  /** What the server writes for a list is a response the client can read, and it stands for these backups. */
  lemma ListArrives(entries: seq<Entry>)
    requires |entries| <= MaxEntries && forall i :: 0 <= i < |entries| ==> Listable(entries[i])
    ensures AllTravel(AllShown(entries)) && BigEndian(|entries|, 4) + ListBytes(entries) == Response(AllShown(entries))
  {
    forall e ensures EntryBytes(e) == RemoteBytes(Shown(e)) {
      EntryShown(e);
    }
    ListShown(RemoteBytes, entries);
    forall i | 0 <= i < |entries| ensures Travels(Shown(entries[i])) {
      ShownTravels(entries[i]);
    }
  }

  /** A sound history with times and sizes of 64 bits always reaches the client: each backup with its own name, time, size and digest. */
  lemma HistoryArrives(h: Hash, dir: Directory, entries: seq<Entry>)
    requires Sound(h, dir) && Listing(entries, dir.metas)
    requires forall id :: id in dir.metas ==> dir.metas[id].timestamp < UINT64 && dir.metas[id].size < UINT64
    ensures AllTravel(AllShown(entries)) && BigEndian(|entries|, 4) + ListBytes(entries) == Response(AllShown(entries))
  {
    forall i | 0 <= i < |entries| ensures Listable(entries[i]) {
      assert entries[i] in entries;
    }
    ListArrives(entries);
  }
}
