/** The server itself: account list, reference counts of active sessions, connections and files, updated in place. */
module SessionsServer {
  import opened Bytes
  import opened Sessions
  import opened SessionsInvariant

  /** The connections logged in to an account. */
  ghost function Holders(connections: map<nat, Connection>, name: Text): set<nat>
  {
    set c | c in connections && connections[c].session.Some? && connections[c].session.value.name == name
  }

  predicate Counts(active: map<Text, nat>, name: Text, holders: set<nat>)
  {
    (name in active <==> holders != {}) && (name in active ==> active[name] == |holders|)
  }

  /** Each key's count is the number of connections that hold it; keys nobody holds are absent. */
  ghost predicate Counted(active: map<Text, nat>, connections: map<nat, Connection>)
  {
    forall name :: Counts(active, name, Holders(connections, name))
  }

  lemma SameSessionsCounted(active: map<Text, nat>, before: map<nat, Connection>, c: nat, conn: Connection)
    requires Counted(active, before)
    requires conn.session == (if c in before then before[c].session else None)
    ensures Counted(active, before[c := conn])
  {
    var changed := before[c := conn];
    forall name ensures Counts(active, name, Holders(changed, name)) {
      assert Holders(changed, name) == Holders(before, name);
    }
  }

  lemma AcquiredCounted(active: map<Text, nat>, before: map<nat, Connection>, c: nat, conn: Connection)
    requires Counted(active, before) && c in before && before[c].session.None? && conn.session.Some?
    ensures var name := conn.session.value.name;
            Counted(active[name := (if name in active then active[name] else 0) + 1], before[c := conn])
  {
    var name, changed := conn.session.value.name, before[c := conn];
    var held := if name in active then active[name] else 0;
    assert Counts(active, name, Holders(before, name));
    assert Holders(changed, name) == Holders(before, name) + {c};
    forall other ensures Counts(active[name := held + 1], other, Holders(changed, other)) {
      if other != name {
        assert Counts(active, other, Holders(before, other));
        assert Holders(changed, other) == Holders(before, other);
      }
    }
  }

  lemma Singleton(holders: set<nat>, c: nat)
    requires c in holders
    ensures |holders| == 1 <==> holders == {c}
  {
    var others := holders - {c};
    assert holders == others + {c};
  }

  lemma ReleasedCounted(active: map<Text, nat>, before: map<nat, Connection>, c: nat)
    requires Counted(active, before) && c in before && before[c].session.Some?
    ensures var name := before[c].session.value.name;
            && name in active && active[name] > 0
            && Counted(if active[name] == 1 then active - {name} else active[name := active[name] - 1], before - {c})
  {
    var name := before[c].session.value.name;
    assert c in Holders(before, name) && Counts(active, name, Holders(before, name));
    Singleton(Holders(before, name), c);
    var after := if active[name] == 1 then active - {name} else active[name := active[name] - 1];
    forall other ensures Counts(after, other, Holders(before - {c}, other)) {
      assert Counts(active, other, Holders(before, other));
      if other == name {
        assert Holders(before - {c}, name) == Holders(before, name) - {c};
      } else {
        assert Holders(before - {c}, other) == Holders(before, other);
      }
    }
  }

  lemma UnusedGoneCounted(active: map<Text, nat>, before: map<nat, Connection>, c: nat)
    requires Counted(active, before) && c in before && before[c].session.None?
    ensures Counted(active, before - {c})
  {
    forall name ensures Holders(before - {c}, name) == Holders(before, name) {
    }
  }

  /** A count of one means that no other connection uses the account. */
  lemma CountOfOne(active: map<Text, nat>, s: State, c: nat)
    requires Counted(active, s.connections) && c in s.connections && s.connections[c].session.Some?
    ensures var name := s.connections[c].session.value.name;
            name in active && (active[name] == 1 <==> !InUse(s, c, name))
  {
    var name := s.connections[c].session.value.name;
    var holders := Holders(s.connections, name);
    assert c in holders && Counts(active, name, holders);
    Singleton(holders, c);
    if holders != {c} {
      var other :| other in holders && other != c;
    } else {
      forall other | other in s.connections && other != c
        ensures s.connections[other].session.None? || s.connections[other].session.value.name != name
      {
        assert other !in holders;
      }
    }
  }

  // ---- the history list ----

  datatype Entry = Entry(id: Text, meta: Meta)

  function SizeOf(entries: seq<Entry>): nat
  {
    if entries == [] then 0 else SizeOf(entries[..|entries| - 1]) + EntrySize(entries[|entries| - 1].id, entries[|entries| - 1].meta)
  }

  /** Exactly the visible backups, each once. */
  ghost predicate Listing(entries: seq<Entry>, metas: map<Text, Meta>)
  {
    && |entries| == |metas| && SizeOf(entries) == TotalSize(metas)
    && (forall e :: e in entries <==> e.id in metas && metas[e.id] == e.meta)
  }

  function HexChar(n: nat): byte
    requires n < 16
  {
    if n < 10 then 48 + n else 87 + n
  }

  function Hex(s: seq<byte>): (r: seq<byte>)
    ensures |r| == 2 * |s|
  {
    if s == [] then [] else [HexChar(s[0] / 16), HexChar(s[0] % 16)] + Hex(s[1..])
  }

  function StringBytes(s: seq<byte>): seq<byte>
  {
    BigEndian(|s|, 2) + s
  }

  function EntryBytes(e: Entry): (r: seq<byte>)
    ensures |e.meta.digest| == 32 ==> |r| == EntrySize(e.id, e.meta)
  {
    StringBytes(e.id) + StringBytes(e.meta.name) + BigEndian(e.meta.timestamp, 8) + BigEndian(e.meta.size, 8) + StringBytes(Hex(e.meta.digest))
  }

  function ListBytes(entries: seq<Entry>): seq<byte>
  {
    if entries == [] then [] else ListBytes(entries[..|entries| - 1]) + EntryBytes(entries[|entries| - 1])
  }

  lemma SizeOfAppend(entries: seq<Entry>, e: Entry)
    ensures SizeOf(entries + [e]) == SizeOf(entries) + EntrySize(e.id, e.meta)
    ensures ListBytes(entries + [e]) == ListBytes(entries) + EntryBytes(e)
  {
    assert (entries + [e])[..|entries|] == entries;
  }

  ghost predicate NewestFirst(entries: seq<Entry>)
  {
    forall i, j :: 0 <= i < j < |entries| ==> entries[i].meta.timestamp >= entries[j].meta.timestamp
  }

  lemma {:induction false} SizeOfConcat(a: seq<Entry>, b: seq<Entry>)
    ensures SizeOf(a + b) == SizeOf(a) + SizeOf(b)
  {
    if b == [] {
      assert a + b == a;
    } else {
      SizeOfConcat(a, b[..|b| - 1]);
      assert (a + b)[..|a + b| - 1] == a + b[..|b| - 1];
    }
  }

  lemma SizeOfInsert(a: seq<Entry>, b: seq<Entry>, e: Entry)
    ensures SizeOf(a + [e] + b) == SizeOf(a + b) + EntrySize(e.id, e.meta)
  {
    SizeOfConcat(a, b);
    SizeOfAppend(a, e);
    SizeOfConcat(a + [e], b);
  }

  lemma OrderInsert(a: seq<Entry>, b: seq<Entry>, e: Entry)
    requires NewestFirst(a + b) && (forall i :: 0 <= i < |a| ==> a[i].meta.timestamp >= e.meta.timestamp)
    requires b != [] ==> b[0].meta.timestamp < e.meta.timestamp
    ensures NewestFirst(a + [e] + b)
  {
    var before, more := a + b, a + [e] + b;
    forall j | 0 <= j < |b| ensures b[j].meta.timestamp <= e.meta.timestamp && b[j] == before[|a| + j] {
      assert b[0] == before[|a|] && b[j] == before[|a| + j];
    }
    forall i, j | 0 <= i < j < |more| ensures more[i].meta.timestamp >= more[j].meta.timestamp {
      assert i != |a| ==> more[i] == before[if i < |a| then i else i - 1];
      assert j != |a| ==> more[j] == before[if j < |a| then j else j - 1];
    }
  }

  /** Puts an entry behind those that are not older. */
  method InsertByTime(entries: seq<Entry>, e: Entry) returns (more: seq<Entry>)
    requires NewestFirst(entries)
    ensures NewestFirst(more) && |more| == |entries| + 1 && SizeOf(more) == SizeOf(entries) + EntrySize(e.id, e.meta)
    ensures forall x :: x in more <==> x in entries || x == e
  {
    var k: nat := 0;
    while k < |entries| && entries[k].meta.timestamp >= e.meta.timestamp
      invariant k <= |entries| && forall i :: 0 <= i < k ==> entries[i].meta.timestamp >= e.meta.timestamp
    {
      k := k + 1;
    }
    var front, back := entries[..k], entries[k..];
    assert entries == front + back;
    SizeOfInsert(front, back, e);
    OrderInsert(front, back, e);
    more := front + [e] + back;
  }

  method SortByTime(entries: seq<Entry>) returns (sorted: seq<Entry>)
    ensures NewestFirst(sorted) && |sorted| == |entries| && SizeOf(sorted) == SizeOf(entries)
    ensures forall x :: x in sorted <==> x in entries
  {
    sorted := [];
    var i: nat := 0;
    assert entries[..0] == [];
    while i < |entries|
      invariant i <= |entries| && |sorted| == i && NewestFirst(sorted) && SizeOf(sorted) == SizeOf(entries[..i])
      invariant forall x :: x in sorted <==> x in entries[..i]
    {
      assert entries[..i + 1] == entries[..i] + [entries[i]];
      SizeOfAppend(entries[..i], entries[i]);
      sorted := InsertByTime(sorted, entries[i]);
      i := i + 1;
    }
    assert entries[..i] == entries;
  }

  /** The entries of a history, the newest first, or nothing when there are too many. */
  method ListEntries(metas: map<Text, Meta>) returns (entries: Option<seq<Entry>>)
    ensures entries.Some? <==> |metas| <= MaxEntries
    ensures entries.Some? ==> Listing(entries.value, metas) && NewestFirst(entries.value)
  {
    var found: seq<Entry>, rest := [], metas;
    while rest != map[]
      invariant |found| + |rest| == |metas| && |found| <= MaxEntries
      invariant SizeOf(found) + TotalSize(rest) == TotalSize(metas)
      invariant forall id :: id in rest ==> id in metas && metas[id] == rest[id]
      invariant forall e :: e in found <==> e.id in metas && metas[e.id] == e.meta && e.id !in rest
      decreases |rest|
    {
      var id :| id in rest;
      if |found| >= MaxEntries {
        assert |rest| > 0;
        return None;
      }
      var e := Entry(id, rest[id]);
      TotalSizeWithout(rest, id);
      SizeOfAppend(found, e);
      found, rest := found + [e], rest - {id};
    }
    var sorted := SortByTime(found);
    return Some(sorted);
  }

  /** The list response, or nothing when it would not fit a frame. */
  method ListPayload(entries: seq<Entry>) returns (payload: Option<seq<byte>>)
    requires forall i :: 0 <= i < |entries| ==> |entries[i].meta.digest| == 32
    ensures payload.Some? <==> |entries| <= MaxEntries && 4 + SizeOf(entries) <= MaxPayload
    ensures payload.Some? ==> payload.value == BigEndian(|entries|, 4) + ListBytes(entries)
  {
    if |entries| > MaxEntries {
      return None;
    }
    var out := BigEndian(|entries|, 4);
    var i: nat := 0;
    assert entries[..0] == [];
    assert out == BigEndian(|entries|, 4) + ListBytes(entries[..0]);
    while i < |entries|
      invariant i <= |entries| && |out| == 4 + SizeOf(entries[..i]) <= MaxPayload
      invariant out == BigEndian(|entries|, 4) + ListBytes(entries[..i])
    {
      assert entries[..i + 1] == entries[..i] + [entries[i]];
      SizeOfAppend(entries[..i], entries[i]);
      Associative(BigEndian(|entries|, 4), ListBytes(entries[..i]), EntryBytes(entries[i]));
      out := out + EntryBytes(entries[i]);
      i := i + 1;
      if |out| > MaxPayload {
        SizeOfGrows(entries, i);
        return None;
      }
    }
    assert entries[..i] == entries;
    return Some(out);
  }

  lemma {:induction false} SizeOfGrows(entries: seq<Entry>, k: nat)
    requires k <= |entries|
    ensures SizeOf(entries[..k]) <= SizeOf(entries)
  {
    if k == |entries| {
      assert entries[..k] == entries;
    } else {
      var shorter := entries[..|entries| - 1];
      SizeOfGrows(shorter, k);
      assert shorter[..k] == entries[..k];
    }
  }

  lemma RemoveUserStep(users: seq<User>, i: nat, name: Text)
    requires i < |users| && users[i].name != name
    ensures users[..i] + RemoveUser(users[i..], name) == users[..i + 1] + RemoveUser(users[i + 1..], name)
  {
    var rest := RemoveUser(users[i + 1..], name);
    assert users[i..][1..] == users[i + 1..] && users[..i + 1] == users[..i] + [users[i]];
    Associative(users[..i], [users[i]], rest);
  }

  // ---- the program ----

  class Server {
    const h: Hash
    var users: seq<User>
    var active: map<Text, nat>
    var connections: map<nat, Connection>
    var directories: map<Text, Directory>

    ghost function View(): State
      reads this
    {
      State(users, connections, directories)
    }

    ghost predicate Valid()
      reads this
    {
      Inv(h, View()) && Counted(active, connections)
    }

    /** The server starts on what an earlier one left stored. */
    constructor (h: Hash, users: seq<User>, directories: map<Text, Directory>)
      requires Inv(h, State(users, map[], directories))
      ensures Valid() && this.h == h && View() == State(users, map[], directories)
    {
      this.h, this.users, this.directories := h, users, directories;
      active, connections := map[], map[];
    }

    method Accept(c: nat)
      requires Valid() && c !in connections
      modifies this
      ensures Valid() && View() == Next(h, old(View()), Connect(c))
    {
      NextKeeps(h, View(), Connect(c));
      SameSessionsCounted(active, connections, c, Connection(None, None, None, false));
      connections := connections[c := Connection(None, None, None, false)];
    }

    /** The connection's destructor gives its session key back. */
    method Release(c: nat)
      requires Valid() && c in connections && connections[c].closing
      modifies this
      ensures Valid() && View() == Next(h, old(View()), Close(c))
    {
      NextKeeps(h, View(), Close(c));
      var session := connections[c].session;
      if session.Some? {
        var name := session.value.name;
        ReleasedCounted(active, connections, c);
        active := if active[name] == 1 then active - {name} else active[name := active[name] - 1];
      } else {
        UnusedGoneCounted(active, connections, c);
      }
      connections := connections - {c};
    }

    method Find(name: Text) returns (user: Option<User>)
      ensures user == FindUser(users, name)
    {
      var i: nat := 0;
      while i < |users|
        invariant i <= |users| && FindUser(users, name) == FindUser(users[i..], name)
      {
        if users[i].name == name {
          return Some(users[i]);
        }
        assert users[i..][1..] == users[i + 1..];
        i := i + 1;
      }
      return None;
    }

    method Known(user: User) returns (found: bool)
      ensures found <==> user in users
    {
      var i: nat := 0;
      while i < |users|
        invariant i <= |users| && user !in users[..i]
      {
        if users[i] == user {
          return true;
        }
        i := i + 1;
      }
      return false;
    }

    /** The command loop ends: the upload's temporary file is removed unless that fails. */
    method End(c: nat, stays: bool)
      requires c in connections && Counted(active, connections)
      modifies this`connections, this`directories
      ensures View() == Ended(h, old(View()), c, stays) && Counted(active, connections)
    {
      var conn := connections[c];
      if conn.upload.Some? && conn.session.Some? && !stays {
        var d := Home(h, conn.session.value.name);
        var dir := if d in directories then directories[d] else NoFiles;
        directories := directories[d := dir.(staged := dir.staged - {conn.upload.value.temp})];
      }
      var last := Connection(None, conn.session, None, true);
      SameSessionsCounted(active, connections, c, last);
      connections := connections[c := last];
    }

    method Register(c: nat, user: User, env: Env)
      requires c in connections && Counted(active, connections)
      modifies this`users, this`connections, this`directories
      ensures View() == Registered(h, old(View()), c, user, env) && Counted(active, connections)
    {
      var existing := Find(user.name);
      if !ValidUsername(user.name) || existing.Some? || |users| >= MaxUsers || env.fault == BeforeCommit {
        End(c, env.stagingStays);
        return;
      }
      users := users + [user];
      if env.fault != Success || env.replyLost {
        End(c, env.stagingStays);
      }
    }

    method StartLogin(c: nat, name: Text, request: nat, env: Env)
      requires c in connections && Counted(active, connections)
      modifies this`connections, this`directories
      ensures View() == LoginStarted(h, old(View()), c, name, request, env) && Counted(active, connections)
    {
      var user := Find(name);
      if !ValidUsername(name) || user.None? || env.fault != Success || env.replyLost {
        End(c, env.stagingStays);
        return;
      }
      var conn := connections[c].(pending := Some(Challenge(user.value, env.nonce, request)));
      SameSessionsCounted(active, connections, c, conn);
      connections := connections[c := conn];
    }

    /** Takes the session key of an account whose record is still the one that was proved. */
    method Acquire(c: nat, challenge: User) returns (ok: bool)
      requires c in connections && Counted(active, connections)
      modifies this`active, this`connections
      ensures Counted(active, connections)
      ensures ok <==> old(connections)[c].session.None? && challenge in users
      ensures connections ==
        if ok then old(connections)[c := old(connections)[c].(pending := None, session := Some(challenge))] else old(connections)
    {
      var known := Known(challenge);
      if connections[c].session.Some? || !known {
        return false;
      }
      var name := challenge.name;
      var conn := connections[c].(pending := None, session := Some(challenge));
      AcquiredCounted(active, connections, c, conn);
      active := active[name := (if name in active then active[name] else 0) + 1];
      connections := connections[c := conn];
      return true;
    }

    method ProveLogin(c: nat, proof: seq<byte>, request: nat, env: Env)
      requires c in connections && Counted(active, connections)
      modifies this`active, this`connections, this`directories
      ensures View() == LoginProved(h, old(View()), c, proof, request, env) && Counted(active, connections)
    {
      var pending := connections[c].pending;
      var ok := false;
      if pending.Some? && request == pending.value.request && |proof| == 32
        && proof == h(pending.value.user.verifier + pending.value.nonce) && env.fault == Success {
        ok := Acquire(c, pending.value.user);
      }
      if !ok || env.replyLost {
        End(c, env.stagingStays);
      }
    }

    method StartUpload(c: nat, frame: Frame, request: nat, env: Env)
      requires c in connections && connections[c].session.Some? && frame.UploadStart? && Counted(active, connections)
      modifies this`connections, this`directories
      ensures View() == UploadStarted(h, old(View()), c, frame, request, env) && Counted(active, connections)
    {
      var d := Home(h, connections[c].session.value.name);
      var dir := if d in directories then directories[d] else NoFiles;
      var base := BaseContent(dir, frame.base);
      if !ValidDisplayName(frame.displayName) || |frame.digest| != 32 || base.None? || env.fault != Success {
        End(c, env.stagingStays);
        return;
      }
      var upload := Upload(request, env.id, env.temp, frame.displayName, frame.size, frame.digest, base.value, 0);
      directories := directories[d := dir.(staged := dir.staged[env.temp := []])];
      SameSessionsCounted(active, connections, c, connections[c].(upload := Some(upload)));
      connections := connections[c := connections[c].(upload := Some(upload))];
      if env.replyLost {
        End(c, env.stagingStays);
      }
    }

    method Write(c: nat, bytes: seq<byte>)
      requires c in connections && connections[c].upload.Some? && Uploading(h, View(), connections[c]) && Counted(active, connections)
      modifies this`connections, this`directories
      ensures Counted(active, connections) && View() == Appended(h, old(View()), c, bytes)
    {
      var conn := connections[c];
      var d, upload := Home(h, conn.session.value.name), conn.upload.value;
      directories := directories[d := Grown(directories[d], upload.temp, bytes)];
      var more := conn.(upload := Some(upload.(received := upload.received + |bytes|)));
      SameSessionsCounted(active, connections, c, more);
      connections := connections[c := more];
    }

    /** Writes the bytes of a chunk, or of the range of the base that a reference names. */
    method Append(c: nat, frame: Frame, env: Env)
      requires c in connections && connections[c].upload.Some? && Uploading(h, View(), connections[c]) && Counted(active, connections)
      modifies this`connections, this`directories
      ensures Counted(active, connections)
      ensures var s, bytes := old(View()), Contribution(old(connections)[c].upload.value, frame);
              View() == if bytes.None? || env.fault != Success then Ended(h, s, c, env.stagingStays) else Appended(h, s, c, bytes.value)
    {
      var bytes := Contribution(connections[c].upload.value, frame);
      if bytes.None? || env.fault != Success {
        End(c, env.stagingStays);
      } else {
        Write(c, bytes.value);
      }
    }

    /** One more entry is admitted only if the list that includes it can still be sent. */
    method Admit(dir: Directory, upload: Upload, now: nat) returns (ok: bool)
      requires Sound(h, dir) && |upload.digest| == 32
      ensures ok <==> Admits(dir, upload, now)
    {
      var entries := ListEntries(dir.metas);
      var meta := MetaOf(upload, now);
      var more := entries.value + [Entry(upload.id, meta)];
      SizeOfAppend(entries.value, Entry(upload.id, meta));
      forall i | 0 <= i < |more| ensures |more[i].meta.digest| == 32 {
        assert more[i] in entries.value || more[i].meta == meta;
      }
      var payload := ListPayload(more);
      ok := payload.Some?;
    }

    method EndUpload(c: nat, env: Env)
      requires Valid() && c in connections && connections[c].upload.Some?
      modifies this`connections, this`directories
      ensures Counted(active, connections) && View() == UploadEnded(h, old(View()), c, env)
    {
      InvInOrderBut(h, View(), c);
      var conn := connections[c];
      var d, upload := Home(h, conn.session.value.name), conn.upload.value;
      var dir := directories[d];
      var admitted := false;
      if upload.received == upload.size && h(dir.staged[upload.temp]) == upload.digest {
        admitted := Admit(dir, upload, env.now);
      }
      if !admitted {
        End(c, env.stagingStays);
        return;
      }
      directories := directories[d := Published(dir, upload, env)];
      if env.fault != Success || env.replyLost {
        End(c, env.stagingStays);
        return;
      }
      SameSessionsCounted(active, connections, c, conn.(upload := None));
      connections := connections[c := conn.(upload := None)];
    }

    /** Deletes an account only when this is its one session and it has no files. */
    method Delete(c: nat, env: Env)
      requires c in connections && connections[c].session.Some? && Counted(active, connections)
      modifies this`users, this`connections, this`directories
      ensures View() == AccountDeleted(h, old(View()), c, env) && Counted(active, connections)
    {
      var name := connections[c].session.value.name;
      CountOfOne(active, View(), c);
      var user := Find(name);
      var d := Home(h, name);
      var empty := d !in directories || directories[d] == NoFiles;
      if active[name] == 1 && user.Some? && empty && env.fault != BeforeCommit {
        Erase(name);
      }
      End(c, env.stagingStays);
    }

    method Erase(name: Text)
      modifies this`users
      ensures users == RemoveUser(old(users), name)
    {
      var i: nat := 0;
      assert users[..0] + RemoveUser(users[0..], name) == RemoveUser(users, name);
      while i < |users| && users[i].name != name
        invariant i <= |users| && users == old(users)
        invariant users[..i] + RemoveUser(users[i..], name) == RemoveUser(users, name)
      {
        RemoveUserStep(users, i, name);
        i := i + 1;
      }
      if i < |users| {
        assert users[i..][1..] == users[i + 1..];
        users := users[..i] + users[i + 1..];
      }
    }

    /** The history of an account can always be listed, completely. */
    method List(c: nat) returns (payload: Option<seq<byte>>, entries: seq<Entry>)
      requires Valid() && c in connections && connections[c].session.Some?
      ensures Listing(entries, At(View(), Home(h, connections[c].session.value.name)).metas) && NewestFirst(entries)
      ensures payload == Some(BigEndian(|entries|, 4) + ListBytes(entries))
    {
      var d := Home(h, connections[c].session.value.name);
      AtInOrder(h, View(), d);
      var dir := if d in directories then directories[d] else NoFiles;
      var listed := ListEntries(dir.metas);
      entries := listed.value;
      payload := ListPayload(listed.value);
    }

    /** Every visible backup can be downloaded, with the content that was published. */
    method Fetch(c: nat, id: Text) returns (content: Option<seq<byte>>)
      requires Valid() && c in connections && connections[c].session.Some?
      ensures var dir := At(View(), Home(h, connections[c].session.value.name));
              && content == Fetched(h, dir, id)
              && (id in dir.metas ==> id in dir.archives && content == Some(dir.archives[id]))
    {
      var d := Home(h, connections[c].session.value.name);
      AtInOrder(h, View(), d);
      var dir := if d in directories then directories[d] else NoFiles;
      if id !in dir.archives || id !in dir.metas {
        return None;
      }
      if h(dir.archives[id]) != dir.metas[id].digest {
        return None;
      }
      content := Some(dir.archives[id]);
    }

    /** One frame of the command loop. */
    method Handle(c: nat, frame: Frame, request: nat, env: Env)
      requires Valid() && Possible(h, View(), Receive(c, frame, request, env)) && !connections[c].closing
      modifies this
      ensures Valid() && View() == Next(h, old(View()), Receive(c, frame, request, env))
    {
      NextKeeps(h, View(), Receive(c, frame, request, env));
      InvInOrderBut(h, View(), c);
      var conn := connections[c];
      if conn.upload.Some? {
        if request != conn.upload.value.request {
          End(c, env.stagingStays);
        } else if frame.UploadEnd? {
          EndUpload(c, env);
        } else {
          Append(c, frame, env);
        }
      } else if frame.Register? {
        Register(c, frame.user, env);
      } else if frame.LoginStart? {
        StartLogin(c, frame.name, request, env);
      } else if frame.LoginProof? {
        ProveLogin(c, frame.proof, request, env);
      } else if conn.session.None? {
        End(c, env.stagingStays);
      } else if frame.UploadStart? {
        StartUpload(c, frame, request, env);
      } else if frame.DeleteAccount? {
        Delete(c, env);
      } else {
        Answer(c, frame, env);
      }
    }

    /** The requests that only read; anything else ends the connection. */
    method Answer(c: nat, frame: Frame, env: Env)
      requires Valid() && c in connections && connections[c].session.Some? && connections[c].upload.None? && !connections[c].closing
      requires !frame.Register? && !frame.LoginStart? && !frame.LoginProof? && !frame.UploadStart? && !frame.DeleteAccount?
      modifies this
      ensures Counted(active, connections) && View() == Received(h, old(View()), c, frame, 0, env)
    {
      AtInOrder(h, View(), Home(h, connections[c].session.value.name));
      var ok := false;
      if frame.List? {
        var payload, _ := List(c);
        ok := payload.Some?;
      } else if frame.Download? {
        var content := Fetch(c, frame.id);
        ok := ValidBackupId(frame.id) && content.Some?;
      }
      if !ok || env.fault != Success || env.replyLost {
        End(c, env.stagingStays);
      }
    }
  }
}
