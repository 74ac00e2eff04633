/** What a run can never do: lose a published backup, publish anything but a finished upload, drop an account in use. */
module SessionsHistory {
  import opened Bytes
  import opened Sessions
  import opened SessionsInvariant

  // ---- published backups are never lost, and only finished uploads publish ----

  ghost predicate Kept(before: Directory, after: Directory)
  {
    forall id :: id in before.metas ==>
      && id in after.metas && after.metas[id] == before.metas[id]
      && id in before.archives && id in after.archives && after.archives[id] == before.archives[id]
  }

  /** What appeared in `after` is the complete upload that this frame ended. */
  ghost predicate Justified(h: Hash, s: State, event: Event, d: Text, id: Text, after: Directory)
  {
    && event.Receive? && event.frame.UploadEnd? && event.connection in s.connections
    && var conn := s.connections[event.connection];
    && conn.session.Some? && Home(h, conn.session.value.name) == d && conn.upload.Some? && conn.upload.value.id == id
    && var upload, dir := conn.upload.value, At(s, d);
    && upload.temp in dir.staged && id in after.archives && after.archives[id] == dir.staged[upload.temp]
    && |after.archives[id]| == upload.size && h(after.archives[id]) == upload.digest && Admits(dir, upload, event.env.now)
  }

  /** Keeps what was visible, and shows nothing else but the complete upload. */
  ghost predicate AddsOnly(before: Directory, after: Directory, upload: Upload, content: seq<byte>)
  {
    && Kept(before, after)
    && forall id :: id in after.metas && id !in before.metas ==>
         id == upload.id && id in after.archives && after.archives[id] == content
  }

  lemma CleanedAddsOnly(before: Directory, after: Directory, upload: Upload, content: seq<byte>, env: Env)
    requires AddsOnly(before, after, upload, content) && upload.id !in before.metas
    ensures AddsOnly(before, Cleaned(after, upload.id, env), upload, content)
  {
  }

  lemma CommittedAddsOnly(h: Hash, dir: Directory, upload: Upload, now: nat)
    requires Sound(h, dir) && upload.temp in dir.staged && upload.id !in dir.archives
    ensures AddsOnly(dir, dir, upload, dir.staged[upload.temp]) && upload.id !in dir.metas
    ensures AddsOnly(dir, Committed(dir, upload), upload, dir.staged[upload.temp])
    ensures AddsOnly(dir, MadeVisible(Committed(dir, upload), upload, now), upload, dir.staged[upload.temp])
  {
    forall id | id in dir.metas ensures id != upload.id && id in dir.archives {
      assert Intact(h, dir, id);
    }
  }

  lemma PublishedAddsOnly(h: Hash, dir: Directory, upload: Upload, env: Env)
    requires Sound(h, dir) && upload.temp in dir.staged && upload.id !in dir.archives
    ensures AddsOnly(dir, Published(dir, upload, env), upload, dir.staged[upload.temp])
  {
    var content := dir.staged[upload.temp];
    CommittedAddsOnly(h, dir, upload, env.now);
    match env.fault
    case Success =>
    case BeforeCommit => CleanedAddsOnly(dir, dir, upload, content, env);
    case AfterCommit => CleanedAddsOnly(dir, Committed(dir, upload), upload, content, env);
    case AfterMeta => CleanedAddsOnly(dir, MadeVisible(Committed(dir, upload), upload, env.now), upload, content, env);
  }

  ghost predicate SameFiles(a: Directory, b: Directory)
  {
    a.metas == b.metas && a.archives == b.archives
  }

  // what each command leaves alone

  predicate OwnTemp(h: Hash, conn: Connection, d: Text, temp: Text)
  {
    conn.upload.Some? && conn.session.Some? && Home(h, conn.session.value.name) == d && conn.upload.value.temp == temp
  }

  /** Other connections, and every temporary file but the connection's own, stay as they are. */
  ghost predicate Spares(h: Hash, s: State, t: State, c: nat, d: Text)
    requires c in s.connections
  {
    && (forall other :: other in s.connections && other != c ==>
          other in t.connections && t.connections[other] == s.connections[other])
    && (forall temp :: temp in At(s, d).staged && !OwnTemp(h, s.connections[c], d, temp) ==>
          temp in At(t, d).staged && At(t, d).staged[temp] == At(s, d).staged[temp])
  }

  lemma EndedEffect(h: Hash, s: State, c: nat, stays: bool, d: Text)
    requires c in s.connections
    ensures var t := Ended(h, s, c, stays); SameFiles(At(t, d), At(s, d)) && t.users == s.users
    ensures Spares(h, s, Ended(h, s, c, stays), c, d)
  {
  }

  lemma RegisteredEffect(h: Hash, s: State, c: nat, user: User, env: Env, d: Text)
    requires c in s.connections
    ensures var t := Registered(h, s, c, user, env);
            SameFiles(At(t, d), At(s, d)) && (t.users == s.users || t.users == s.users + [user])
    ensures Spares(h, s, Registered(h, s, c, user, env), c, d)
  {
    EndedEffect(h, s, c, env.stagingStays, d);
    EndedEffect(h, s.(users := s.users + [user]), c, env.stagingStays, d);
  }

  lemma LoginStartedEffect(h: Hash, s: State, c: nat, name: Text, request: nat, env: Env, d: Text)
    requires c in s.connections
    ensures var t := LoginStarted(h, s, c, name, request, env); SameFiles(At(t, d), At(s, d)) && t.users == s.users
    ensures Spares(h, s, LoginStarted(h, s, c, name, request, env), c, d)
  {
    EndedEffect(h, s, c, env.stagingStays, d);
  }

  lemma LoginProvedEffect(h: Hash, s: State, c: nat, proof: seq<byte>, request: nat, env: Env, d: Text)
    requires c in s.connections && s.connections[c].upload.None?
    ensures var t := LoginProved(h, s, c, proof, request, env); SameFiles(At(t, d), At(s, d)) && t.users == s.users
    ensures Spares(h, s, LoginProved(h, s, c, proof, request, env), c, d)
  {
    EndedEffect(h, s, c, env.stagingStays, d);
    if s.connections[c].pending.Some? {
      var accepted := s.connections[c].(pending := None, session := Some(s.connections[c].pending.value.user));
      EndedEffect(h, With(s, c, accepted), c, env.stagingStays, d);
    }
  }

  /** The command of connection `c` ends after a step that itself spared the others. */
  lemma SpareThenEnd(h: Hash, s: State, t: State, c: nat, stays: bool, d: Text)
    requires c in s.connections && c in t.connections && Spares(h, s, t, c, d)
    requires forall temp :: temp in At(s, d).staged && OwnTemp(h, t.connections[c], d, temp) ==> OwnTemp(h, s.connections[c], d, temp)
    ensures Spares(h, s, Ended(h, t, c, stays), c, d)
  {
    EndedEffect(h, t, c, stays, d);
  }

  lemma UploadStartedEffect(h: Hash, s: State, c: nat, frame: Frame, request: nat, env: Env, d: Text)
    requires c in s.connections && s.connections[c].session.Some? && s.connections[c].upload.None? && frame.UploadStart?
    requires FreshNames(h, s, c, env)
    ensures var t := UploadStarted(h, s, c, frame, request, env); SameFiles(At(t, d), At(s, d)) && t.users == s.users
    ensures Spares(h, s, UploadStarted(h, s, c, frame, request, env), c, d)
  {
    EndedEffect(h, s, c, env.stagingStays, d);
    var conn := s.connections[c];
    var home := Home(h, conn.session.value.name);
    var base := BaseContent(At(s, home), frame.base);
    if base.Some? {
      var upload := Upload(request, env.id, env.temp, frame.displayName, frame.size, frame.digest, base.value, 0);
      var dir := At(s, home).(staged := At(s, home).staged[env.temp := []]);
      var next := With(Put(s, home, dir), c, conn.(upload := Some(upload)));
      SpareThenEnd(h, s, next, c, env.stagingStays, d);
      EndedEffect(h, next, c, env.stagingStays, d);
    }
  }

  lemma AccountDeletedEffect(h: Hash, s: State, c: nat, env: Env, d: Text)
    requires c in s.connections && s.connections[c].session.Some?
    ensures var t, name := AccountDeleted(h, s, c, env), s.connections[c].session.value.name;
            && SameFiles(At(t, d), At(s, d))
            && (t.users == s.users
                || (t.users == RemoveUser(s.users, name) && !InUse(s, c, name) && At(s, Home(h, name)) == NoFiles))
    ensures Spares(h, s, AccountDeleted(h, s, c, env), c, d)
  {
    EndedEffect(h, s, c, env.stagingStays, d);
    EndedEffect(h, s.(users := RemoveUser(s.users, s.connections[c].session.value.name)), c, env.stagingStays, d);
  }

  lemma AppendedEffect(h: Hash, s: State, c: nat, bytes: seq<byte>, d: Text)
    requires c in s.connections && s.connections[c].upload.Some? && Uploading(h, s, s.connections[c])
    ensures var t := Appended(h, s, c, bytes); SameFiles(At(t, d), At(s, d)) && t.users == s.users && Spares(h, s, t, c, d)
  {
  }

  lemma PublishedSpares(dir: Directory, upload: Upload, env: Env, temp: Text)
    requires upload.temp in dir.staged && temp in dir.staged && temp != upload.temp
    ensures var after := Published(dir, upload, env); temp in after.staged && after.staged[temp] == dir.staged[temp]
  {
  }

  lemma PutPublishedSpares(h: Hash, s: State, c: nat, env: Env, d: Text)
    requires c in s.connections && s.connections[c].upload.Some? && Uploading(h, s, s.connections[c])
    ensures var home, upload := Home(h, s.connections[c].session.value.name), s.connections[c].upload.value;
            Spares(h, s, Put(s, home, Published(At(s, home), upload, env)), c, d)
  {
    var home, upload := Home(h, s.connections[c].session.value.name), s.connections[c].upload.value;
    forall temp | temp in At(s, d).staged && home == d && temp != upload.temp
      ensures var after := Published(At(s, home), upload, env); temp in after.staged && after.staged[temp] == At(s, d).staged[temp]
    {
      PublishedSpares(At(s, home), upload, env, temp);
    }
  }

  lemma UploadEndedEffect(h: Hash, s: State, c: nat, env: Env, d: Text)
    requires c in s.connections && s.connections[c].upload.Some? && Uploading(h, s, s.connections[c])
    ensures var t := UploadEnded(h, s, c, env); t.users == s.users && Spares(h, s, t, c, d)
  {
    EndedEffect(h, s, c, env.stagingStays, d);
    var home, upload := Home(h, s.connections[c].session.value.name), s.connections[c].upload.value;
    var next := Put(s, home, Published(At(s, home), upload, env));
    PutPublishedSpares(h, s, c, env, d);
    SpareThenEnd(h, s, next, c, env.stagingStays, d);
  }

  lemma UploadingEffect(h: Hash, s: State, c: nat, frame: Frame, request: nat, env: Env, d: Text)
    requires c in s.connections && Uploads(h, s) && !s.connections[c].closing && s.connections[c].upload.Some?
    ensures var t := Received(h, s, c, frame, request, env);
            && t.users == s.users && Spares(h, s, t, c, d)
            && (!frame.UploadEnd? || request != s.connections[c].upload.value.request ==> SameFiles(At(t, d), At(s, d)))
  {
    EndedEffect(h, s, c, env.stagingStays, d);
    var conn := s.connections[c];
    assert Uploading(h, s, conn);
    if frame.UploadEnd? {
      UploadEndedEffect(h, s, c, env, d);
    } else {
      var bytes := Contribution(conn.upload.value, frame);
      if bytes.Some? {
        AppendedEffect(h, s, c, bytes.value, d);
      }
    }
  }

  /** A frame leaves archives and metadata alone unless it ends an upload, and accounts unless it is about one. */
  lemma ReceivedEffect(h: Hash, s: State, c: nat, frame: Frame, request: nat, env: Env, d: Text)
    requires Uploads(h, s) && Possible(h, s, Receive(c, frame, request, env))
    ensures var t, conn := Received(h, s, c, frame, request, env), s.connections[c];
            && (t.users == s.users
                || (frame.Register? && t.users == s.users + [frame.user])
                || (frame.DeleteAccount? && conn.session.Some? && conn.upload.None? && !conn.closing
                    && t.users == RemoveUser(s.users, conn.session.value.name)
                    && !InUse(s, c, conn.session.value.name) && At(s, Home(h, conn.session.value.name)) == NoFiles))
            && (conn.closing || conn.upload.None? || !frame.UploadEnd? || request != conn.upload.value.request
                ==> SameFiles(At(t, d), At(s, d)))
    ensures Spares(h, s, Received(h, s, c, frame, request, env), c, d)
  {
    var conn := s.connections[c];
    if conn.closing {
    } else if conn.upload.Some? {
      UploadingEffect(h, s, c, frame, request, env, d);
    } else if frame.Register? {
      RegisteredEffect(h, s, c, frame.user, env, d);
    } else if frame.LoginStart? {
      LoginStartedEffect(h, s, c, frame.name, request, env, d);
    } else if frame.LoginProof? {
      LoginProvedEffect(h, s, c, frame.proof, request, env, d);
    } else if conn.session.Some? && frame.DeleteAccount? {
      AccountDeletedEffect(h, s, c, env, d);
    } else if conn.session.Some? && frame.UploadStart? {
      UploadStartedEffect(h, s, c, frame, request, env, d);
    } else {
      EndedEffect(h, s, c, env.stagingStays, d);
    }
  }

  lemma KeptItself(h: Hash, dir: Directory)
    requires Sound(h, dir)
    ensures Kept(dir, dir)
  {
    forall id | id in dir.metas ensures id in dir.archives {
      assert Intact(h, dir, id);
    }
  }

  lemma UploadEndedFiles(h: Hash, s: State, c: nat, env: Env, d: Text)
    requires c in s.connections && s.connections[c].upload.Some? && Uploading(h, s, s.connections[c])
    ensures var home, upload := Home(h, s.connections[c].session.value.name), s.connections[c].upload.value;
            var dir := At(s, home);
            var accepted := upload.received == upload.size && h(dir.staged[upload.temp]) == upload.digest && Admits(dir, upload, env.now);
            SameFiles(At(UploadEnded(h, s, c, env), d), if accepted && home == d then Published(dir, upload, env) else At(s, d))
  {
    var home, upload := Home(h, s.connections[c].session.value.name), s.connections[c].upload.value;
    EndedEffect(h, s, c, env.stagingStays, d);
    EndedEffect(h, Put(s, home, Published(At(s, home), upload, env)), c, env.stagingStays, d);
  }

  lemma UploadEndedJustified(h: Hash, s: State, event: Event, d: Text)
    requires Inv(h, s) && Possible(h, s, event) && event.Receive? && event.frame.UploadEnd?
    requires var conn := s.connections[event.connection]; !conn.closing && conn.upload.Some? && event.request == conn.upload.value.request
    ensures var after := At(UploadEnded(h, s, event.connection, event.env), d);
            && Kept(At(s, d), after)
            && forall id :: id in after.metas && id !in At(s, d).metas ==> Justified(h, s, event, d, id, after)
  {
    var conn := s.connections[event.connection];
    assert Uploading(h, s, conn);
    AtInOrder(h, s, d);
    KeptItself(h, At(s, d));
    UploadEndedFiles(h, s, event.connection, event.env, d);
    if Home(h, conn.session.value.name) == d {
      PublishedAddsOnly(h, At(s, d), conn.upload.value, event.env);
    }
  }

  /** A backup, once visible, survives every step unchanged; a new one is a finished upload of that account. */
  lemma BackupsKept(h: Hash, s: State, event: Event, d: Text)
    requires Inv(h, s) && Possible(h, s, event)
    ensures var after := At(Next(h, s, event), d);
            && Kept(At(s, d), after)
            && forall id :: id in after.metas && id !in At(s, d).metas ==> Justified(h, s, event, d, id, after)
  {
    if event.Receive? && event.frame.UploadEnd? && (var conn := s.connections[event.connection];
      !conn.closing && conn.upload.Some? && event.request == conn.upload.value.request) {
      UploadEndedJustified(h, s, event, d);
    } else {
      if event.Receive? {
        ReceivedEffect(h, s, event.connection, event.frame, event.request, event.env, d);
      }
      AtInOrder(h, s, d);
      KeptItself(h, At(s, d));
    }
  }

  lemma {:induction false} RunsKeepBackups(h: Hash, s: State, events: seq<Event>, t: State, d: Text)
    requires Inv(h, s) && Run(h, s, events, t)
    ensures Kept(At(s, d), At(t, d))
    decreases |events|
  {
    AtInOrder(h, s, d);
    if events == [] {
      forall id | id in At(s, d).metas ensures id in At(s, d).archives {
        assert Intact(h, At(s, d), id);
      }
    } else {
      BackupsKept(h, s, events[0], d);
      NextKeeps(h, s, events[0]);
      RunsKeepBackups(h, Next(h, s, events[0]), events[1..], t, d);
    }
  }

  // ---- accounts go only by their own request, idle and empty ----

  lemma SameNameSameUser(users: seq<User>, a: User, b: User)
    requires UniqueNames(users) && a in users && b in users && a.name == b.name
    ensures a == b
  {
    var i :| 0 <= i < |users| && users[i] == a;
    var j :| 0 <= j < |users| && users[j] == b;
  }

  lemma AccountsKept(h: Hash, s: State, event: Event, user: User)
    requires Inv(h, s) && Possible(h, s, event) && user in s.users && user !in Next(h, s, event).users
    ensures event.Receive? && event.frame.DeleteAccount? && event.connection in s.connections
    ensures var conn := s.connections[event.connection];
      && conn.session == Some(user) && conn.upload.None? && !conn.closing && !InUse(s, event.connection, user.name)
      && At(s, Home(h, user.name)) == NoFiles
  {
    ReceivedEffect(h, s, event.connection, event.frame, event.request, event.env, []);
    var conn := s.connections[event.connection];
    assert Genuine(s.users, conn);
    RemoveUserMember(s.users, conn.session.value.name, user);
    SameNameSameUser(s.users, user, conn.session.value);
  }
}
