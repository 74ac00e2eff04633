/** What commands achieve: accounts are made and go, right proofs log in, requests are answered, nothing is left behind. */
module SessionsProgress {
  import opened Bytes
  import opened Sessions
  import opened SessionsInvariant
  import opened SessionsHistory
  import opened SessionsLogin

  predicate Reliable(env: Env)
  {
    env.fault == Success && !env.replyLost
  }

  /** A connection on which nothing has gone wrong and no upload is in progress. */
  predicate Idle(s: State, c: nat)
  {
    c in s.connections && !s.connections[c].closing && s.connections[c].upload.None?
  }

  // ---- accounts ----

  /** A free, well-formed name is registered. */
  lemma RegisterTakes(h: Hash, s: State, c: nat, user: User, request: nat, env: Env)
    requires Inv(h, s) && Idle(s, c) && Reliable(env)
    requires ValidUsername(user.name) && !HasUser(s.users, user.name) && |s.users| < MaxUsers
    ensures Possible(h, s, Receive(c, Register(user), request, env))
    ensures var t := Next(h, s, Receive(c, Register(user), request, env)); user in t.users && t.connections == s.connections
  {
    assert (s.users + [user])[|s.users|] == user;
  }

  /** The one session of an account without files deletes it, and no other account. */
  lemma DeleteTakes(h: Hash, s: State, c: nat, user: User, request: nat, env: Env)
    requires Inv(h, s) && Idle(s, c) && s.connections[c].session == Some(user) && env.fault != BeforeCommit
    requires !InUse(s, c, user.name) && At(s, Home(h, user.name)) == NoFiles
    ensures Possible(h, s, Receive(c, DeleteAccount, request, env))
    ensures var t := Next(h, s, Receive(c, DeleteAccount, request, env));
            forall other :: other in t.users <==> other in s.users && other != user
  {
    assert Genuine(s.users, s.connections[c]);
    var i :| 0 <= i < |s.users| && s.users[i] == user;
    assert HasUser(s.users, user.name);
    RemoveUserMeaning(s.users, user.name);
    forall other | other in s.users && other.name == user.name ensures other == user {
      SameNameSameUser(s.users, other, user);
    }
  }

  /** The user's own connection asks for the account's deletion. */
  predicate OwnDeletion(s: State, event: Event, user: User)
  {
    event.Receive? && event.frame.DeleteAccount? && event.connection in s.connections && s.connections[event.connection].session == Some(user)
  }

  /** Along the run nobody logged in as the user deletes the account. */
  ghost predicate Undeleted(h: Hash, s: State, events: seq<Event>, user: User)
    decreases |events|
  {
    events != [] ==>
      && Uploads(h, s) && Possible(h, s, events[0]) && !OwnDeletion(s, events[0], user)
      && Undeleted(h, Next(h, s, events[0]), events[1..], user)
  }

  lemma {:induction false} StaysRegistered(h: Hash, s: State, events: seq<Event>, t: State, user: User)
    requires Inv(h, s) && Run(h, s, events, t) && user in s.users && Undeleted(h, s, events, user)
    ensures Inv(h, t) && user in t.users
    decreases |events|
  {
    if events != [] {
      NextKeeps(h, s, events[0]);
      if user !in Next(h, s, events[0]).users {
        AccountsKept(h, s, events[0], user);
      }
      StaysRegistered(h, Next(h, s, events[0]), events[1..], t, user);
    }
  }

  // ---- logging in ----

  /** Has nothing to do with connection `c`. */
  predicate Elsewhere(event: Event, c: nat)
  {
    !event.Restart? && event != Close(c) && !(event.Receive? && event.connection == c)
  }

  lemma ElsewhereLeaves(h: Hash, s: State, event: Event, c: nat)
    requires Uploads(h, s) && Possible(h, s, event) && Elsewhere(event, c) && c in s.connections
    ensures c in Next(h, s, event).connections && Next(h, s, event).connections[c] == s.connections[c]
  {
    if event.Receive? {
      ReceivedEffect(h, s, event.connection, event.frame, event.request, event.env, []);
    }
  }

  lemma {:induction false} LeftAlone(h: Hash, s: State, events: seq<Event>, t: State, c: nat)
    requires Inv(h, s) && Run(h, s, events, t) && c in s.connections && forall k :: 0 <= k < |events| ==> Elsewhere(events[k], c)
    ensures Inv(h, t) && c in t.connections && t.connections[c] == s.connections[c]
    decreases |events|
  {
    if events != [] {
      NextKeeps(h, s, events[0]);
      ElsewhereLeaves(h, s, events[0], c);
      LeftAlone(h, Next(h, s, events[0]), events[1..], t, c);
    }
  }

  /** A stored name is answered with a challenge for exactly its record. */
  lemma ChallengeTakes(h: Hash, s: State, c: nat, user: User, request: nat, env: Env)
    requires Inv(h, s) && Idle(s, c) && user in s.users && Reliable(env)
    ensures Possible(h, s, Receive(c, LoginStart(user.name), request, env))
    ensures var t := Next(h, s, Receive(c, LoginStart(user.name), request, env));
            t == With(s, c, s.connections[c].(pending := Some(Challenge(user, env.nonce, request))))
  {
    var i :| 0 <= i < |s.users| && s.users[i] == user;
    assert ValidUsername(s.users[i].name) && HasUser(s.users, user.name);
    SameNameSameUser(s.users, FindUser(s.users, user.name).value, user);
  }

  /** The right answer to the challenge pending on a connection without a session makes that user's session. */
  lemma AnswerTakes(h: Hash, s: State, c: nat, user: User, nonce: seq<byte>, request: nat, env: Env)
    requires Inv(h, s) && Idle(s, c) && s.connections[c].session.None? && user in s.users && Reliable(env)
    requires s.connections[c].pending == Some(Challenge(user, nonce, request)) && |h(user.verifier + nonce)| == 32
    ensures Possible(h, s, Receive(c, LoginProof(h(user.verifier + nonce)), request, env))
    ensures var t := Next(h, s, Receive(c, LoginProof(h(user.verifier + nonce)), request, env));
            Idle(t, c) && LoggedIn(t, c, user) && t.users == s.users
  {
  }

  /**
   Whoever asks for a challenge under a stored name and answers it rightly is logged in, whatever other connections do
   in between, as long as the very record is still stored.
   */
  lemma LoginSucceeds(h: Hash, s: State, c: nat, user: User, request: nat, asked: Env, between: seq<Event>, t: State, answered: Env)
    requires Inv(h, s) && Idle(s, c) && s.connections[c].session.None? && user in s.users && Reliable(asked)
    requires Possible(h, s, Receive(c, LoginStart(user.name), request, asked))
    requires Run(h, Next(h, s, Receive(c, LoginStart(user.name), request, asked)), between, t)
    requires forall k :: 0 <= k < |between| ==> Elsewhere(between[k], c)
    requires user in t.users && |h(user.verifier + asked.nonce)| == 32 && Reliable(answered)
    ensures var proof := Receive(c, LoginProof(h(user.verifier + asked.nonce)), request, answered);
            Inv(h, t) && Possible(h, t, proof) && Idle(Next(h, t, proof), c) && LoggedIn(Next(h, t, proof), c, user)
  {
    var start := Receive(c, LoginStart(user.name), request, asked);
    NextKeeps(h, s, start);
    ChallengeTakes(h, s, c, user, request, asked);
    LeftAlone(h, Next(h, s, start), between, t, c);
    AnswerTakes(h, t, c, user, asked.nonce, request, answered);
  }

  /**
   From registration to session: an account that is registered and not deleted by its own user can be used. `before` leads from its
   registration on one connection to a login on another one, or the same; `between` from challenge to answer.
   */
  lemma RegisteredCanLogIn(h: Hash, s: State, r: nat, user: User, first: nat, registered: Env, before: seq<Event>, m: State,
                           c: nat, request: nat, asked: Env, between: seq<Event>, t: State, answered: Env)
    requires Inv(h, s) && Idle(s, r) && Reliable(registered)
    requires ValidUsername(user.name) && !HasUser(s.users, user.name) && |s.users| < MaxUsers
    requires Possible(h, s, Receive(r, Register(user), first, registered))
    requires Run(h, Next(h, s, Receive(r, Register(user), first, registered)), before, m)
    requires Undeleted(h, Next(h, s, Receive(r, Register(user), first, registered)), before, user)
    requires Idle(m, c) && m.connections[c].session.None? && Reliable(asked)
    requires Uploads(h, m) && Possible(h, m, Receive(c, LoginStart(user.name), request, asked))
    requires Run(h, Next(h, m, Receive(c, LoginStart(user.name), request, asked)), between, t)
    requires Undeleted(h, Next(h, m, Receive(c, LoginStart(user.name), request, asked)), between, user)
    requires forall k :: 0 <= k < |between| ==> Elsewhere(between[k], c)
    requires |h(user.verifier + asked.nonce)| == 32 && Reliable(answered)
    ensures var proof := Receive(c, LoginProof(h(user.verifier + asked.nonce)), request, answered);
            Inv(h, t) && Possible(h, t, proof) && Idle(Next(h, t, proof), c) && LoggedIn(Next(h, t, proof), c, user)
  {
    var register, start := Receive(r, Register(user), first, registered), Receive(c, LoginStart(user.name), request, asked);
    RegisterTakes(h, s, r, user, first, registered);
    NextKeeps(h, s, register);
    StaysRegistered(h, Next(h, s, register), before, m, user);
    ChallengeTakes(h, m, c, user, request, asked);
    NextKeeps(h, m, start);
    StaysRegistered(h, Next(h, m, start), between, t, user);
    LoginSucceeds(h, m, c, user, request, asked, between, t, answered);
  }

  // ---- requests ----

  /** Asking for the history, or for a visible backup, succeeds and changes nothing. */
  lemma RequestsAreAnswered(h: Hash, s: State, c: nat, frame: Frame, request: nat, env: Env)
    requires Inv(h, s) && Idle(s, c) && s.connections[c].session.Some? && Reliable(env)
    requires var dir := At(s, Home(h, s.connections[c].session.value.name));
      frame.List? || (frame.Download? && frame.id in dir.metas)
    ensures Possible(h, s, Receive(c, frame, request, env)) && Next(h, s, Receive(c, frame, request, env)) == s
  {
    var d := Home(h, s.connections[c].session.value.name);
    AtInOrder(h, s, d);
    if frame.Download? {
      assert Intact(h, At(s, d), frame.id);
    }
  }

  /** However an upload ends, its temporary file is gone, unless removing it fails. */
  lemma NothingStaged(h: Hash, s: State, c: nat, frame: Frame, request: nat, env: Env)
    requires Inv(h, s) && Possible(h, s, Receive(c, frame, request, env)) && s.connections[c].upload.Some? && !env.stagingStays
    ensures var t, d := Next(h, s, Receive(c, frame, request, env)), Home(h, s.connections[c].session.value.name);
            && c in t.connections
            && (t.connections[c].upload.None? ==> s.connections[c].upload.value.temp !in At(t, d).staged)
  {
    assert Uploading(h, s, s.connections[c]);
  }
}
