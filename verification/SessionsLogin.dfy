/** Who is logged in: every session goes back to a proof that answers the challenge issued to that very connection. */
module SessionsLogin {
  import opened Bytes
  import opened Sessions
  import opened SessionsInvariant
  import opened SessionsHistory

  // ---- one step ----

  /** The frame proves the account of the challenge that is pending, and the account is still stored as it was. */
  predicate Proves(h: Hash, users: seq<User>, conn: Connection, frame: Frame, request: nat, user: User)
  {
    && conn.pending.Some? && frame.LoginProof? && user == conn.pending.value.user && user in users
    && request == conn.pending.value.request && frame.proof == h(user.verifier + conn.pending.value.nonce)
  }

  predicate SessionFollows(h: Hash, users: seq<User>, before: Connection, after: Connection, frame: Frame, request: nat)
  {
    after.session == before.session
    || (before.session.None? && after.session.Some? && Proves(h, users, before, frame, request, after.session.value))
  }

  /** A challenge goes with the next login attempt or command that fails, and is replaced by the next one issued. */
  predicate ChallengeFollows(users: seq<User>, before: Connection, after: Connection, frame: Frame, request: nat, nonce: seq<byte>)
  {
    after.pending.None?
    || if frame.LoginStart? then
         && after.pending.value == Challenge(after.pending.value.user, nonce, request)
         && after.pending.value.user in users && after.pending.value.user.name == frame.name
       else after.pending == before.pending
  }

  /** Every connection stays; connection `c` keeps its session and can only lose its challenge. */
  predicate KeepsLogins(s: State, t: State, c: nat)
    requires c in s.connections
  {
    && t.connections.Keys == s.connections.Keys && t.connections[c].session == s.connections[c].session
    && (t.connections[c].pending.None? || t.connections[c].pending == s.connections[c].pending)
  }

  lemma EndedKeepsLogins(h: Hash, s: State, t: State, c: nat, stays: bool)
    requires c in s.connections && KeepsLogins(s, t, c)
    ensures KeepsLogins(s, Ended(h, t, c, stays), c) && Ended(h, t, c, stays).connections[c].pending.None?
  {
  }

  lemma UploadEndedKeepsLogins(h: Hash, s: State, c: nat, env: Env)
    requires c in s.connections && s.connections[c].upload.Some? && Uploading(h, s, s.connections[c])
    ensures KeepsLogins(s, UploadEnded(h, s, c, env), c)
  {
    var d, upload := Home(h, s.connections[c].session.value.name), s.connections[c].upload.value;
    EndedKeepsLogins(h, s, s, c, env.stagingStays);
    EndedKeepsLogins(h, s, Put(s, d, Published(At(s, d), upload, env)), c, env.stagingStays);
  }

  lemma OwnUpload(h: Hash, s: State, c: nat, frame: Frame, request: nat, env: Env)
    requires c in s.connections && Uploads(h, s) && s.connections[c].upload.Some? && !s.connections[c].closing
    ensures var t := Received(h, s, c, frame, request, env);
            KeepsLogins(s, t, c) && (frame.LoginStart? ==> t.connections[c].pending.None?)
  {
    assert Uploading(h, s, s.connections[c]);
    EndedKeepsLogins(h, s, s, c, env.stagingStays);
    if frame.UploadEnd? {
      UploadEndedKeepsLogins(h, s, c, env);
    }
  }

  lemma OtherCommand(h: Hash, s: State, c: nat, frame: Frame, request: nat, env: Env)
    requires c in s.connections && Uploads(h, s) && s.connections[c].upload.None? && !s.connections[c].closing
    requires !frame.LoginStart? && !frame.LoginProof?
    ensures KeepsLogins(s, Received(h, s, c, frame, request, env), c)
  {
    EndedKeepsLogins(h, s, s, c, env.stagingStays);
  }

  lemma OwnLogin(h: Hash, s: State, c: nat, frame: Frame, request: nat, env: Env)
    requires c in s.connections && Uploads(h, s) && !s.connections[c].closing
    ensures var t := Received(h, s, c, frame, request, env);
            && t.connections.Keys == s.connections.Keys
            && SessionFollows(h, s.users, s.connections[c], t.connections[c], frame, request)
            && ChallengeFollows(s.users, s.connections[c], t.connections[c], frame, request, env.nonce)
  {
    var conn := s.connections[c];
    if conn.upload.Some? {
      OwnUpload(h, s, c, frame, request, env);
    } else if !frame.LoginStart? && !frame.LoginProof? {
      OtherCommand(h, s, c, frame, request, env);
    }
  }

  /** A connection's session changes only from none to a proved one, and its challenge only to one issued to it. */
  predicate Follows(h: Hash, s: State, event: Event, c: nat, after: Connection)
  {
    if c !in s.connections then event == Connect(c) && after.session.None? && after.pending.None?
    else if event.Receive? && event.connection == c then
      && SessionFollows(h, s.users, s.connections[c], after, event.frame, event.request)
      && ChallengeFollows(s.users, s.connections[c], after, event.frame, event.request, event.env.nonce)
    else after == s.connections[c] && !event.Restart? && event != Close(c)
  }

  lemma ReceiveOnConnection(h: Hash, s: State, event: Event, c: nat)
    requires Uploads(h, s) && Possible(h, s, event) && event.Receive?
    requires var t := Received(h, s, event.connection, event.frame, event.request, event.env); c in t.connections
    ensures Follows(h, s, event, c, Received(h, s, event.connection, event.frame, event.request, event.env).connections[c])
  {
    OwnLogin(h, s, event.connection, event.frame, event.request, event.env);
    ReceivedEffect(h, s, event.connection, event.frame, event.request, event.env, []);
  }

  lemma StepOnConnection(h: Hash, s: State, event: Event, c: nat)
    requires Uploads(h, s) && Possible(h, s, event) && c in Next(h, s, event).connections
    ensures Follows(h, s, event, c, Next(h, s, event).connections[c])
  {
    if event.Receive? {
      ReceiveOnConnection(h, s, event, c);
    }
  }

  // ---- whole runs ----

  /** A frame on connection `c` that answers the challenge `nonce` for `user`. */
  predicate Answers(h: Hash, event: Event, c: nat, user: User, nonce: seq<byte>, request: nat)
  {
    event.Receive? && event.connection == c && event.request == request && event.frame == LoginProof(h(user.verifier + nonce))
  }

  /** A frame on connection `c` to which the server answers with the challenge `nonce`. */
  predicate Challenges(event: Event, c: nat, user: User, nonce: seq<byte>, request: nat)
  {
    event.Receive? && event.connection == c && event.request == request && event.frame == LoginStart(user.name) && event.env.nonce == nonce
  }

  /** Ends connection `c`, or asks for another challenge on it. */
  predicate Disturbs(event: Event, c: nat)
  {
    event.Restart? || event == Close(c) || (event.Receive? && event.connection == c && event.frame.LoginStart?)
  }

  predicate Undisturbed(events: seq<Event>, from: nat, to: nat, c: nat)
  {
    forall k :: from <= k < to && k < |events| ==> !Disturbs(events[k], c)
  }

  /** The challenge that event `j` answers was the last one issued on the connection, at event `i` or before the run. */
  predicate Issued(s: State, events: seq<Event>, i: int, j: nat, c: nat, user: User, nonce: seq<byte>, request: nat)
  {
    && -1 <= i < j < |events| && Undisturbed(events, i + 1, j, c)
    && if i >= 0 then Challenges(events[i], c, user, nonce, request)
       else c in s.connections && s.connections[c].pending == Some(Challenge(user, nonce, request))
  }

  datatype Login = Kept | Proved(asked: int, answered: nat, nonce: seq<byte>, request: nat)

  predicate LoggedIn(s: State, c: nat, user: User)
  {
    c in s.connections && s.connections[c].session == Some(user)
  }

  /** A login is one from before the run, or was proved in it against the last challenge issued on its connection. */
  predicate Explains(h: Hash, s: State, events: seq<Event>, c: nat, user: User, login: Login)
  {
    match login
    case Kept => LoggedIn(s, c, user)
    case Proved(i, j, nonce, request) =>
      Issued(s, events, i, j, c, user, nonce, request) && Answers(h, events[j], c, user, nonce, request)
  }

  lemma KeptBefore(h: Hash, s: State, events: seq<Event>, c: nat, user: User) returns (login: Login)
    requires events != [] && Uploads(h, s) && Possible(h, s, events[0]) && LoggedIn(Next(h, s, events[0]), c, user)
    ensures Explains(h, s, events, c, user, login)
  {
    StepOnConnection(h, s, events[0], c);
    if LoggedIn(s, c, user) {
      login := Kept;
    } else {
      var challenge := s.connections[c].pending.value;
      login := Proved(-1, 0, challenge.nonce, challenge.request);
    }
  }

  lemma ProvedBefore(h: Hash, s: State, events: seq<Event>, c: nat, user: User, later: Login) returns (login: Login)
    requires events != [] && Uploads(h, s) && Possible(h, s, events[0])
    requires later.Proved? && Explains(h, Next(h, s, events[0]), events[1..], c, user, later)
    ensures login.Proved? && Explains(h, s, events, c, user, login)
  {
    var i, j, nonce, request := later.asked, later.answered, later.nonce, later.request;
    assert events[1..][j] == events[j + 1];
    forall k | i + 2 <= k < j + 1 ensures !Disturbs(events[k], c) {
      assert events[1..][k - 1] == events[k];
    }
    if i >= 0 {
      assert events[1..][i] == events[i + 1];
      login := Proved(i + 1, j + 1, nonce, request);
    } else {
      StepOnConnection(h, s, events[0], c);
      login := Proved(if Challenges(events[0], c, user, nonce, request) then 0 else -1, j + 1, nonce, request);
    }
  }

  lemma {:induction false} LoginExplained(h: Hash, s: State, events: seq<Event>, t: State, c: nat, user: User) returns (login: Login)
    requires Run(h, s, events, t) && LoggedIn(t, c, user)
    ensures Explains(h, s, events, c, user, login)
    decreases |events|
  {
    if events == [] {
      login := Kept;
    } else {
      login := LoginExplained(h, Next(h, s, events[0]), events[1..], t, c, user);
      if login.Kept? {
        login := KeptBefore(h, s, events, c, user);
      } else {
        login := ProvedBefore(h, s, events, c, user, login);
      }
    }
  }

  /** In every state of every run, a session was proved on its own connection, against the last challenge issued there. */
  lemma LoginsAreProved(h: Hash, events: seq<Event>, t: State, c: nat, user: User)
    returns (asked: nat, answered: nat, nonce: seq<byte>, request: nat)
    requires Run(h, Fresh, events, t) && LoggedIn(t, c, user)
    ensures asked < answered < |events| && Challenges(events[asked], c, user, nonce, request)
    ensures Undisturbed(events, asked + 1, answered, c) && Answers(h, events[answered], c, user, nonce, request)
  {
    var login := LoginExplained(h, Fresh, events, t, c, user);
    asked, answered, nonce, request := login.asked, login.answered, login.nonce, login.request;
  }
}
