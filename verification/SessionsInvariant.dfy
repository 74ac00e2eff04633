/** Every step of the server keeps its invariant, and so does every run. */
module SessionsInvariant {
  import opened Bytes
  import opened Sessions

  // ---- proofs: finite maps of entries ----

  lemma {:induction false} TotalSizeWithout(metas: map<Text, Meta>, id: Text)
    requires id in metas
    ensures TotalSize(metas) == EntrySize(id, metas[id]) + TotalSize(metas - {id})
    decreases |metas|
  {
    var first :| first in metas && TotalSize(metas) == EntrySize(first, metas[first]) + TotalSize(metas - {first});
    if first != id {
      TotalSizeWithout(metas - {first}, id);
      TotalSizeWithout(metas - {id}, first);
      assert metas - {first} - {id} == metas - {id} - {first};
    }
  }

  lemma TotalSizeAdd(metas: map<Text, Meta>, id: Text, meta: Meta)
    requires id !in metas
    ensures TotalSize(metas[id := meta]) == TotalSize(metas) + EntrySize(id, meta) && |metas[id := meta]| == |metas| + 1
  {
    TotalSizeWithout(metas[id := meta], id);
    assert metas[id := meta] - {id} == metas;
  }

  // ---- proofs: every step keeps the invariant ----

  /** Everything but connection `c` itself is in order; `c` may have lost its account or its temporary file. */
  ghost predicate InOrderBut(h: Hash, s: State, c: nat)
    requires c in s.connections
  {
    && Accounts(s) && Owned(h, s) && Separate(h, s) && Stored(h, s)
    && (s.connections[c].upload.Some? ==> s.connections[c].session.Some?)
    && forall other :: other in s.connections && other != c ==>
         Genuine(s.users, s.connections[other]) && Uploading(h, s, s.connections[other])
  }

  /** The files an upload in progress relies on are not touched. */
  predicate Undisturbed(h: Hash, conn: Connection, d: Text, before: Directory, after: Directory)
  {
    conn.upload.Some? && conn.session.Some? && Home(h, conn.session.value.name) == d ==>
      && conn.upload.value.temp in before.staged && conn.upload.value.temp in after.staged
      && after.staged[conn.upload.value.temp] == before.staged[conn.upload.value.temp]
      && conn.upload.value.id !in after.archives
  }

  lemma UploadingElsewhere(h: Hash, s: State, d: Text, dir: Directory, conn: Connection)
    requires Uploading(h, s, conn) && Undisturbed(h, conn, d, At(s, d), dir)
    ensures Uploading(h, Put(s, d, dir), conn)
  {
  }

  /** Connection `c` replaces the files of an account, leaving those of other uploads alone. */
  lemma PutKeeps(h: Hash, s: State, c: nat, d: Text, dir: Directory)
    requires c in s.connections && InOrderBut(h, s, c)
    requires Sound(h, dir) && (dir != NoFiles ==> Owner(h, s.users, d))
    requires forall other :: other in s.connections && other != c ==> Undisturbed(h, s.connections[other], d, At(s, d), dir)
    ensures InOrderBut(h, Put(s, d, dir), c)
  {
    var t := Put(s, d, dir);
    forall other | other in t.connections && other != c ensures Uploading(h, t, t.connections[other]) {
      UploadingElsewhere(h, s, d, dir, s.connections[other]);
    }
    assert Owned(h, t);
    assert Separate(h, t);
  }

  /** Connection `c` takes on a new state that is itself in order. */
  lemma WithKeeps(h: Hash, s: State, c: nat, conn: Connection)
    requires c in s.connections && InOrderBut(h, s, c)
    requires Genuine(s.users, conn) && Uploading(h, s, conn)
    requires forall other :: other in s.connections && other != c ==>
      Apart(h, s.connections[other], conn) && Apart(h, conn, s.connections[other])
    ensures Inv(h, With(s, c, conn))
  {
    var t := With(s, c, conn);
    forall x | x in t.connections ensures Uploading(h, t, t.connections[x]) && Genuine(t.users, t.connections[x]) {
      assert Uploading(h, s, t.connections[x]);
    }
    assert Separate(h, t);
  }

  lemma AtInOrder(h: Hash, s: State, d: Text)
    requires Owned(h, s) && Stored(h, s)
    ensures Sound(h, At(s, d)) && (At(s, d) != NoFiles ==> Owner(h, s.users, d))
  {
  }

  lemma StagingRemoved(h: Hash, s: State, c: nat)
    requires c in s.connections && InOrderBut(h, s, c) && s.connections[c].upload.Some?
    ensures var d := Home(h, s.connections[c].session.value.name);
            var dir := At(s, d).(staged := At(s, d).staged - {s.connections[c].upload.value.temp});
            && Sound(h, dir) && (dir != NoFiles ==> Owner(h, s.users, d))
            && forall other :: other in s.connections && other != c ==> Undisturbed(h, s.connections[other], d, At(s, d), dir)
  {
    var d := Home(h, s.connections[c].session.value.name);
    AtInOrder(h, s, d);
    var dir := At(s, d).(staged := At(s, d).staged - {s.connections[c].upload.value.temp});
    forall other | other in s.connections && other != c ensures Undisturbed(h, s.connections[other], d, At(s, d), dir) {
      assert Uploading(h, s, s.connections[other]) && Apart(h, s.connections[other], s.connections[c]);
    }
  }

  lemma EndedKeeps(h: Hash, s: State, c: nat, stays: bool)
    requires c in s.connections && InOrderBut(h, s, c)
    ensures Inv(h, Ended(h, s, c, stays))
  {
    var conn := s.connections[c];
    var last := Connection(None, conn.session, None, true);
    if conn.upload.None? || stays {
      WithKeeps(h, s, c, last);
    } else {
      var d := Home(h, conn.session.value.name);
      StagingRemoved(h, s, c);
      PutKeeps(h, s, c, d, At(s, d).(staged := At(s, d).staged - {conn.upload.value.temp}));
      WithKeeps(h, Unstaged(s, d, conn.upload.value.temp), c, last);
    }
  }

  lemma InvInOrderBut(h: Hash, s: State, c: nat)
    requires Inv(h, s) && c in s.connections
    ensures InOrderBut(h, s, c) && Uploading(h, s, s.connections[c]) && Genuine(s.users, s.connections[c])
  {
  }

  // accounts

  lemma UserAdded(h: Hash, s: State, c: nat, user: User)
    requires c in s.connections && Inv(h, s)
    requires ValidUsername(user.name) && !HasUser(s.users, user.name) && |s.users| < MaxUsers
    ensures Inv(h, s.(users := s.users + [user]))
  {
    var t := s.(users := s.users + [user]);
    forall d | d in t.directories && t.directories[d] != NoFiles ensures Owner(h, t.users, d) {
      var i :| 0 <= i < |s.users| && Home(h, s.users[i].name) == d;
      assert t.users[i] == s.users[i];
    }
    forall x | x in t.connections ensures Uploading(h, t, t.connections[x]) && Genuine(t.users, t.connections[x]) {
      assert Uploading(h, s, s.connections[x]) && Genuine(s.users, s.connections[x]);
    }
  }

  lemma RegisteredKeeps(h: Hash, s: State, c: nat, user: User, env: Env)
    requires c in s.connections && Inv(h, s)
    ensures Inv(h, Registered(h, s, c, user, env))
  {
    InvInOrderBut(h, s, c);
    if !ValidUsername(user.name) || HasUser(s.users, user.name) || |s.users| >= MaxUsers || env.fault == BeforeCommit {
      EndedKeeps(h, s, c, env.stagingStays);
    } else {
      UserAdded(h, s, c, user);
      InvInOrderBut(h, s.(users := s.users + [user]), c);
      EndedKeeps(h, s.(users := s.users + [user]), c, env.stagingStays);
    }
  }

  lemma {:induction false} RemoveUserMember(users: seq<User>, name: Text, user: User)
    requires UniqueNames(users)
    ensures user in RemoveUser(users, name) <==> user in users && user.name != name
  {
    if users != [] {
      RemoveUserMember(users[1..], name, user);
      if users[0].name == name && user in users[1..] {
        var i :| 0 <= i < |users| - 1 && users[1..][i] == user;
        assert users[i + 1] == user;
      }
    }
  }

  /** Removing a user keeps every other one and the names unique. */
  lemma {:induction false} RemoveUserMeaning(users: seq<User>, name: Text)
    requires UniqueNames(users)
    ensures var r := RemoveUser(users, name); |r| <= |users| && UniqueNames(r)
    ensures forall user :: user in RemoveUser(users, name) <==> user in users && user.name != name
  {
    if users != [] {
      RemoveUserMeaning(users[1..], name);
      var r := RemoveUser(users[1..], name);
      forall i | 0 <= i < |r| ensures r[i].name != users[0].name {
        assert r[i] in users[1..];
      }
    }
    forall user ensures user in RemoveUser(users, name) <==> user in users && user.name != name {
      RemoveUserMember(users, name, user);
    }
  }

  /** An account nobody else uses and without files can go. */
  lemma UserRemoved(h: Hash, s: State, c: nat, name: Text)
    requires c in s.connections && Inv(h, s) && !InUse(s, c, name) && At(s, Home(h, name)) == NoFiles
    ensures InOrderBut(h, s.(users := RemoveUser(s.users, name)), c)
  {
    var t := s.(users := RemoveUser(s.users, name));
    RemoveUserMeaning(s.users, name);
    forall d | d in t.directories && t.directories[d] != NoFiles ensures Owner(h, t.users, d) {
      var i :| 0 <= i < |s.users| && Home(h, s.users[i].name) == d;
      assert s.users[i] in t.users;
    }
    forall x | x in t.connections && x != c ensures Uploading(h, t, t.connections[x]) && Genuine(t.users, t.connections[x]) {
      assert Uploading(h, s, s.connections[x]) && Genuine(s.users, s.connections[x]);
    }
    forall i | 0 <= i < |t.users| ensures ValidUsername(t.users[i].name) {
      assert t.users[i] in s.users;
    }
  }

  lemma AccountDeletedKeeps(h: Hash, s: State, c: nat, env: Env)
    requires c in s.connections && s.connections[c].session.Some? && Inv(h, s)
    ensures Inv(h, AccountDeleted(h, s, c, env))
  {
    var name := s.connections[c].session.value.name;
    InvInOrderBut(h, s, c);
    if InUse(s, c, name) || !HasUser(s.users, name) || At(s, Home(h, name)) != NoFiles || env.fault == BeforeCommit {
      EndedKeeps(h, s, c, env.stagingStays);
    } else {
      UserRemoved(h, s, c, name);
      EndedKeeps(h, s.(users := RemoveUser(s.users, name)), c, env.stagingStays);
    }
  }

  // logins

  lemma LoginStartedKeeps(h: Hash, s: State, c: nat, name: Text, request: nat, env: Env)
    requires c in s.connections && s.connections[c].upload.None? && Inv(h, s)
    ensures Inv(h, LoginStarted(h, s, c, name, request, env))
  {
    InvInOrderBut(h, s, c);
    EndedKeeps(h, s, c, env.stagingStays);
    var user := FindUser(s.users, name);
    if user.Some? {
      WithKeeps(h, s, c, s.connections[c].(pending := Some(Challenge(user.value, env.nonce, request))));
    }
  }

  lemma LoginProvedKeeps(h: Hash, s: State, c: nat, proof: seq<byte>, request: nat, env: Env)
    requires c in s.connections && s.connections[c].upload.None? && Inv(h, s)
    ensures Inv(h, LoginProved(h, s, c, proof, request, env))
  {
    InvInOrderBut(h, s, c);
    EndedKeeps(h, s, c, env.stagingStays);
    var conn := s.connections[c];
    if conn.pending.Some? && conn.pending.value.user in s.users {
      var accepted := conn.(pending := None, session := Some(conn.pending.value.user));
      WithKeeps(h, s, c, accepted);
      InvInOrderBut(h, With(s, c, accepted), c);
      EndedKeeps(h, With(s, c, accepted), c, env.stagingStays);
    }
  }

  // uploads

  lemma UploadStartedKeeps(h: Hash, s: State, c: nat, frame: Frame, request: nat, env: Env)
    requires c in s.connections && s.connections[c].session.Some? && s.connections[c].upload.None? && !s.connections[c].closing
    requires frame.UploadStart? && Inv(h, s) && FreshNames(h, s, c, env)
    ensures Inv(h, UploadStarted(h, s, c, frame, request, env))
  {
    var conn := s.connections[c];
    var d := Home(h, conn.session.value.name);
    InvInOrderBut(h, s, c);
    var base := BaseContent(At(s, d), frame.base);
    if !ValidDisplayName(frame.displayName) || |frame.digest| != 32 || base.None? || env.fault != Success {
      EndedKeeps(h, s, c, env.stagingStays);
    } else {
      var upload := Upload(request, env.id, env.temp, frame.displayName, frame.size, frame.digest, base.value, 0);
      var dir := At(s, d).(staged := At(s, d).staged[env.temp := []]);
      StagingAdded(h, s, c, env);
      PutKeeps(h, s, c, d, dir);
      var next, started := Put(s, d, dir), conn.(upload := Some(upload));
      forall other | other in next.connections && other != c
        ensures Apart(h, next.connections[other], started) && Apart(h, started, next.connections[other])
      {
        assert Uploading(h, s, s.connections[other]);
      }
      WithKeeps(h, next, c, started);
      InvInOrderBut(h, With(next, c, started), c);
      EndedKeeps(h, With(next, c, started), c, env.stagingStays);
    }
  }

  lemma GenuineOwner(h: Hash, s: State, c: nat)
    requires c in s.connections && s.connections[c].session.Some? && !s.connections[c].closing && Authenticated(s)
    ensures Owner(h, s.users, Home(h, s.connections[c].session.value.name))
  {
    var user := s.connections[c].session.value;
    assert Genuine(s.users, s.connections[c]);
    var i :| 0 <= i < |s.users| && s.users[i] == user;
  }

  lemma StagingAdded(h: Hash, s: State, c: nat, env: Env)
    requires c in s.connections && s.connections[c].session.Some? && !s.connections[c].closing
    requires Inv(h, s) && FreshNames(h, s, c, env)
    ensures var d := Home(h, s.connections[c].session.value.name);
            var dir := At(s, d).(staged := At(s, d).staged[env.temp := []]);
            && Sound(h, dir) && Owner(h, s.users, d)
            && forall other :: other in s.connections && other != c ==> Undisturbed(h, s.connections[other], d, At(s, d), dir)
  {
    var d := Home(h, s.connections[c].session.value.name);
    AtInOrder(h, s, d);
    GenuineOwner(h, s, c);
    var dir := At(s, d).(staged := At(s, d).staged[env.temp := []]);
    forall other | other in s.connections && other != c ensures Undisturbed(h, s.connections[other], d, At(s, d), dir) {
      assert Uploading(h, s, s.connections[other]);
    }
  }

  lemma StagingAppended(h: Hash, s: State, c: nat, bytes: seq<byte>)
    requires c in s.connections && s.connections[c].upload.Some? && Inv(h, s) && Uploading(h, s, s.connections[c])
    ensures var d, upload := Home(h, s.connections[c].session.value.name), s.connections[c].upload.value;
            var dir := Grown(At(s, d), upload.temp, bytes);
            && Sound(h, dir) && Owner(h, s.users, d)
            && forall other :: other in s.connections && other != c ==> Undisturbed(h, s.connections[other], d, At(s, d), dir)
  {
    var d, upload := Home(h, s.connections[c].session.value.name), s.connections[c].upload.value;
    var dir := Grown(At(s, d), upload.temp, bytes);
    AtInOrder(h, s, d);
    GenuineOwner(h, s, c);
    forall other | other in s.connections && other != c ensures Undisturbed(h, s.connections[other], d, At(s, d), dir) {
      assert Uploading(h, s, s.connections[other]) && Apart(h, s.connections[other], s.connections[c]);
    }
  }

  lemma SameApart(h: Hash, a: Connection, b: Connection, more: Connection)
    requires Apart(h, a, b) && Apart(h, b, a) && more.session == b.session && more.upload.Some? && b.upload.Some?
    requires more.upload.value.temp == b.upload.value.temp && more.upload.value.id == b.upload.value.id
    ensures Apart(h, a, more) && Apart(h, more, a)
  {
  }

  /** The upload of connection `c` moves on under the same names. */
  lemma WithMoreKeeps(h: Hash, s: State, c: nat, more: Connection)
    requires c in s.connections && InOrderBut(h, s, c) && Genuine(s.users, more) && Uploading(h, s, more)
    requires var conn := s.connections[c];
      && more.session == conn.session && more.upload.Some? && conn.upload.Some?
      && more.upload.value.temp == conn.upload.value.temp && more.upload.value.id == conn.upload.value.id
    ensures Inv(h, With(s, c, more))
  {
    forall other | other in s.connections && other != c
      ensures Apart(h, s.connections[other], more) && Apart(h, more, s.connections[other])
    {
      SameApart(h, s.connections[other], s.connections[c], more);
    }
    WithKeeps(h, s, c, more);
  }

  lemma GrownUploading(h: Hash, s: State, conn: Connection, bytes: seq<byte>)
    requires conn.upload.Some? && Uploading(h, s, conn) && conn.upload.value.received + |bytes| <= conn.upload.value.size
    ensures var d, upload := Home(h, conn.session.value.name), conn.upload.value;
            Uploading(h, Put(s, d, Grown(At(s, d), upload.temp, bytes)), conn.(upload := Some(upload.(received := upload.received + |bytes|))))
  {
  }

  lemma GrownKeeps(h: Hash, s: State, c: nat, conn: Connection, bytes: seq<byte>)
    requires c in s.connections && conn == s.connections[c] && conn.upload.Some? && Inv(h, s) && Uploading(h, s, conn)
    requires conn.upload.value.received + |bytes| <= conn.upload.value.size
    ensures var d, upload := Home(h, conn.session.value.name), conn.upload.value;
            Inv(h, With(Put(s, d, Grown(At(s, d), upload.temp, bytes)), c, conn.(upload := Some(upload.(received := upload.received + |bytes|)))))
  {
    var d, upload := Home(h, conn.session.value.name), conn.upload.value;
    InvInOrderBut(h, s, c);
    StagingAppended(h, s, c, bytes);
    PutKeeps(h, s, c, d, Grown(At(s, d), upload.temp, bytes));
    GrownUploading(h, s, conn, bytes);
    WithMoreKeeps(h, Put(s, d, Grown(At(s, d), upload.temp, bytes)), c, conn.(upload := Some(upload.(received := upload.received + |bytes|))));
  }

  lemma AppendedKeeps(h: Hash, s: State, c: nat, bytes: seq<byte>)
    requires c in s.connections && s.connections[c].upload.Some? && Inv(h, s) && Uploading(h, s, s.connections[c])
    requires s.connections[c].upload.value.received + |bytes| <= s.connections[c].upload.value.size
    ensures Inv(h, Appended(h, s, c, bytes))
  {
    var conn := s.connections[c];
    GrownKeeps(h, s, c, conn, bytes);
  }

  lemma CommittedSound(h: Hash, dir: Directory, upload: Upload)
    requires Sound(h, dir) && upload.temp in dir.staged && upload.id !in dir.archives
    ensures Sound(h, Committed(dir, upload)) && upload.id !in dir.metas
  {
    var after := Committed(dir, upload);
    assert upload.id in dir.metas ==> Intact(h, dir, upload.id);
    forall id | id in after.metas
      ensures ValidBackupId(id) && ValidMeta(after.metas[id]) && Intact(h, after, id)
    {
      assert Intact(h, dir, id);
    }
  }

  lemma MadeVisibleSound(h: Hash, dir: Directory, upload: Upload, now: nat)
    requires Sound(h, dir) && upload.id !in dir.metas && Admits(dir, upload, now)
    requires ValidDisplayName(upload.name) && |upload.digest| == 32 && ValidBackupId(upload.id)
    requires upload.id in dir.archives && |dir.archives[upload.id]| == upload.size && h(dir.archives[upload.id]) == upload.digest
    ensures Sound(h, MadeVisible(dir, upload, now))
  {
    var after := MadeVisible(dir, upload, now);
    TotalSizeAdd(dir.metas, upload.id, MetaOf(upload, now));
    forall id | id in after.metas
      ensures ValidBackupId(id) && ValidMeta(after.metas[id]) && Intact(h, after, id)
    {
      assert id != upload.id ==> Intact(h, dir, id);
    }
  }

  lemma CleanedSound(h: Hash, dir: Directory, id: Text, env: Env)
    requires Sound(h, dir)
    ensures Sound(h, Cleaned(dir, id, env))
  {
    var after := Cleaned(dir, id, env);
    if id in dir.metas {
      TotalSizeWithout(dir.metas, id);
    } else {
      assert dir.metas - {id} == dir.metas;
    }
    forall other | other in after.metas
      ensures ValidBackupId(other) && ValidMeta(after.metas[other]) && Intact(h, after, other)
    {
      assert Intact(h, dir, other);
    }
  }

  /** Whatever part of publication and cleanup fails, every visible backup stays complete and the list in bounds. */
  lemma PublishedSound(h: Hash, dir: Directory, upload: Upload, env: Env)
    requires Sound(h, dir) && upload.temp in dir.staged && Admits(dir, upload, env.now)
    requires ValidDisplayName(upload.name) && |upload.digest| == 32 && ValidBackupId(upload.id) && upload.id !in dir.archives
    requires |dir.staged[upload.temp]| == upload.size && h(dir.staged[upload.temp]) == upload.digest
    ensures Sound(h, Published(dir, upload, env))
  {
    match env.fault
    case BeforeCommit =>
      CleanedSound(h, dir, upload.id, env);
    case AfterCommit =>
      CommittedSound(h, dir, upload);
      CleanedSound(h, Committed(dir, upload), upload.id, env);
    case _ =>
      CommittedSound(h, dir, upload);
      MadeVisibleSound(h, Committed(dir, upload), upload, env.now);
      CleanedSound(h, MadeVisible(Committed(dir, upload), upload, env.now), upload.id, env);
  }

  lemma PublishedLeaves(dir: Directory, upload: Upload, env: Env, temp: Text, id: Text)
    requires upload.temp in dir.staged && temp in dir.staged && id !in dir.archives && temp != upload.temp && id != upload.id
    ensures var after := Published(dir, upload, env);
            temp in after.staged && after.staged[temp] == dir.staged[temp] && id !in after.archives
  {
  }

  lemma PublicationLeavesOthers(h: Hash, s: State, c: nat, env: Env)
    requires c in s.connections && s.connections[c].upload.Some? && Inv(h, s) && Uploading(h, s, s.connections[c])
    ensures var d, upload := Home(h, s.connections[c].session.value.name), s.connections[c].upload.value;
            forall other :: other in s.connections && other != c ==>
              Undisturbed(h, s.connections[other], d, At(s, d), Published(At(s, d), upload, env))
  {
    var d, upload := Home(h, s.connections[c].session.value.name), s.connections[c].upload.value;
    forall other | other in s.connections && other != c
      ensures Undisturbed(h, s.connections[other], d, At(s, d), Published(At(s, d), upload, env))
    {
      var conn := s.connections[other];
      assert Uploading(h, s, conn) && Apart(h, conn, s.connections[c]);
      if conn.upload.Some? && Home(h, conn.session.value.name) == d {
        PublishedLeaves(At(s, d), upload, env, conn.upload.value.temp, conn.upload.value.id);
      }
    }
  }

  lemma UploadEndedKeeps(h: Hash, s: State, c: nat, env: Env)
    requires c in s.connections && s.connections[c].upload.Some? && Inv(h, s) && Uploading(h, s, s.connections[c])
    ensures Inv(h, UploadEnded(h, s, c, env))
  {
    var conn := s.connections[c];
    var d, upload := Home(h, conn.session.value.name), conn.upload.value;
    var content := At(s, d).staged[upload.temp];
    InvInOrderBut(h, s, c);
    if upload.received != upload.size || h(content) != upload.digest || !Admits(At(s, d), upload, env.now) {
      EndedKeeps(h, s, c, env.stagingStays);
    } else {
      AtInOrder(h, s, d);
      GenuineOwner(h, s, c);
      PublishedSound(h, At(s, d), upload, env);
      PublicationLeavesOthers(h, s, c, env);
      PutKeeps(h, s, c, d, Published(At(s, d), upload, env));
      EndedKeeps(h, Put(s, d, Published(At(s, d), upload, env)), c, env.stagingStays);
      WithKeeps(h, Put(s, d, Published(At(s, d), upload, env)), c, conn.(upload := None));
    }
  }

  // ---- every step, every run ----

  lemma UploadingKeeps(h: Hash, s: State, c: nat, frame: Frame, request: nat, env: Env)
    requires Inv(h, s) && c in s.connections && !s.connections[c].closing && s.connections[c].upload.Some?
    ensures Inv(h, Received(h, s, c, frame, request, env))
  {
    InvInOrderBut(h, s, c);
    EndedKeeps(h, s, c, env.stagingStays);
    UploadEndedKeeps(h, s, c, env);
    var bytes := Contribution(s.connections[c].upload.value, frame);
    if bytes.Some? {
      AppendedKeeps(h, s, c, bytes.value);
    }
  }

  lemma ReceivedKeeps(h: Hash, s: State, c: nat, frame: Frame, request: nat, env: Env)
    requires Inv(h, s) && Possible(h, s, Receive(c, frame, request, env))
    ensures Inv(h, Received(h, s, c, frame, request, env))
  {
    var conn := s.connections[c];
    if conn.closing {
    } else if conn.upload.Some? {
      UploadingKeeps(h, s, c, frame, request, env);
    } else if frame.Register? {
      RegisteredKeeps(h, s, c, frame.user, env);
    } else if frame.LoginStart? {
      LoginStartedKeeps(h, s, c, frame.name, request, env);
    } else if frame.LoginProof? {
      LoginProvedKeeps(h, s, c, frame.proof, request, env);
    } else if conn.session.Some? && frame.DeleteAccount? {
      AccountDeletedKeeps(h, s, c, env);
    } else if conn.session.Some? && frame.UploadStart? {
      UploadStartedKeeps(h, s, c, frame, request, env);
    } else {
      InvInOrderBut(h, s, c);
      EndedKeeps(h, s, c, env.stagingStays);
    }
  }

  lemma ConnectionsGone(h: Hash, s: State, t: State)
    requires Inv(h, s) && t == s.(connections := t.connections) && t.connections.Keys <= s.connections.Keys
    requires forall c :: c in t.connections ==> t.connections[c] == s.connections[c]
    ensures Inv(h, t)
  {
    forall c | c in t.connections ensures Uploading(h, t, t.connections[c]) && Genuine(t.users, t.connections[c]) {
      assert Uploading(h, s, s.connections[c]) && Genuine(s.users, s.connections[c]);
    }
  }

  lemma Connected(h: Hash, s: State, c: nat)
    requires Inv(h, s) && c !in s.connections
    ensures Inv(h, With(s, c, Connection(None, None, None, false)))
  {
    var t := With(s, c, Connection(None, None, None, false));
    forall x | x in t.connections ensures Uploading(h, t, t.connections[x]) && Genuine(t.users, t.connections[x]) {
      assert x != c ==> Uploading(h, s, s.connections[x]) && Genuine(s.users, s.connections[x]);
    }
  }

  lemma NextKeeps(h: Hash, s: State, event: Event)
    requires Inv(h, s) && Possible(h, s, event)
    ensures Inv(h, Next(h, s, event))
  {
    match event
    case Connect(c) => Connected(h, s, c);
    case Receive(c, frame, request, env) => ReceivedKeeps(h, s, c, frame, request, env);
    case Close(c) => ConnectionsGone(h, s, Next(h, s, event));
    case Restart => ConnectionsGone(h, s, Next(h, s, event));
  }

  /** Every interleaving of commands, failures, disconnections and restarts keeps the invariant. */
  lemma {:induction false} RunsKeep(h: Hash, s: State, events: seq<Event>, t: State)
    requires Inv(h, s) && Run(h, s, events, t)
    ensures Inv(h, t)
    decreases |events|
  {
    if events != [] {
      NextKeeps(h, s, events[0]);
      RunsKeep(h, Next(h, s, events[0]), events[1..], t);
    }
  }

  /** Whatever happens to a server that started with nothing, its invariant holds. */
  lemma ReachableKeeps(h: Hash, events: seq<Event>, t: State)
    requires Run(h, Fresh, events, t)
    ensures Inv(h, t)
  {
    RunsKeep(h, Fresh, events, t);
  }
}
