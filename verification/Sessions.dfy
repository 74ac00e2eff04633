/** The backup server as a step system: accounts, logins, uploads and deletions of concurrent connections. */
module Sessions {
  import opened Bytes

  type Text = seq<byte>
  type Hash = seq<byte> -> seq<byte>

  const MaxUsers := 100000
  const MaxEntries := 4096
  const MaxPayload := 1048576
  const ChunkSize := 524288

  datatype User = User(name: Text, salt: seq<byte>, verifier: seq<byte>)

  /** The published description of one backup; its identifier is its file name. */
  datatype Meta = Meta(name: Text, timestamp: nat, size: nat, digest: seq<byte>)

  /** One account's files: temporary files, archives and the metadata that makes an archive visible. */
  datatype Directory = Directory(staged: map<Text, seq<byte>>, archives: map<Text, seq<byte>>, metas: map<Text, Meta>)

  datatype Challenge = Challenge(user: User, nonce: seq<byte>, request: nat)

  /** An upload in progress; the bytes received are in the temporary file. */
  datatype Upload = Upload(request: nat, id: Text, temp: Text, name: Text, size: nat, digest: seq<byte>,
                           base: Option<seq<byte>>, received: nat)

  /** A connection: `session` is the account record it proved; `closing` once its command loop has ended. */
  datatype Connection = Connection(pending: Option<Challenge>, session: Option<User>, upload: Option<Upload>, closing: bool)

  datatype State = State(users: seq<User>, connections: map<nat, Connection>, directories: map<Text, Directory>)

  datatype Frame =
    | Register(user: User)
    | LoginStart(name: Text)
    | LoginProof(proof: seq<byte>)
    | UploadStart(displayName: Text, size: nat, digest: seq<byte>, base: Option<Text>)
    | UploadCopy(offset: nat, count: nat)
    | UploadChunk(bytes: seq<byte>)
    | UploadEnd
    | List
    | Download(id: Text)
    | DeleteAccount
    | Unusable

  /** How far a step that stores something got: a file can appear and the call still fail. */
  datatype Fault = Success | BeforeCommit | AfterCommit | AfterMeta

  /** What the step cannot choose: failures, random values, temporary names and the clock. */
  datatype Env = Env(fault: Fault, replyLost: bool, stagingStays: bool, metaRemoved: bool, archiveRemoved: bool,
                     nonce: seq<byte>, id: Text, temp: Text, now: nat)

  datatype Event =
    | Connect(connection: nat)
    | Receive(connection: nat, frame: Frame, request: nat, env: Env)
    | Close(connection: nat)
    | Restart

  // ---- the checks the commands make ----

  predicate UsernameByte(c: byte)
  {
    48 <= c <= 57 || 65 <= c <= 90 || 97 <= c <= 122 || c == 95 || c == 45 || c == 46
  }

  predicate ValidUsername(name: Text)
  {
    1 <= |name| <= 64 && forall i :: 0 <= i < |name| ==> UsernameByte(name[i])
  }

  predicate ValidBackupId(id: Text)
  {
    |id| == 32 && forall i :: 0 <= i < |id| ==> HexDigit(id[i])
  }

  predicate ValidDisplayName(name: Text)
  {
    |name| <= 256 && 0 !in name
  }

  predicate ValidMeta(meta: Meta)
  {
    ValidDisplayName(meta.name) && |meta.digest| == 32
  }

  predicate HasUser(users: seq<User>, name: Text)
  {
    exists i :: 0 <= i < |users| && users[i].name == name
  }

  /** The record `findUser` returns: the first of that name. */
  function FindUser(users: seq<User>, name: Text): (r: Option<User>)
    ensures r.Some? <==> HasUser(users, name)
    ensures r.Some? ==> r.value in users && r.value.name == name
  {
    if users == [] then None
    else if users[0].name == name then Some(users[0])
    else
      var r := FindUser(users[1..], name);
      assert r.Some? ==> HasUser(users, name) by {
        if i :| 0 <= i < |users| - 1 && users[1..][i].name == name {
          assert users[i + 1].name == name;
        }
      }
      assert HasUser(users, name) ==> r.Some? by {
        if i :| 0 <= i < |users| && users[i].name == name {
          assert users[1..][i - 1].name == name;
        }
      }
      r
  }

  function RemoveUser(users: seq<User>, name: Text): (r: seq<User>)
    ensures !HasUser(users, name) ==> r == users
  {
    if users == [] then []
    else if users[0].name == name then users[1..]
    else
      assert HasUser(users[1..], name) ==> HasUser(users, name) by {
        if i :| 0 <= i < |users| - 1 && users[1..][i].name == name {
          assert users[i + 1].name == name;
        }
      }
      [users[0]] + RemoveUser(users[1..], name)
  }

  const NoFiles := Directory(map[], map[], map[])

  function Home(h: Hash, name: Text): Text
  {
    h(name)
  }

  function At(s: State, d: Text): Directory
  {
    if d in s.directories then s.directories[d] else NoFiles
  }

  function With(s: State, c: nat, conn: Connection): State
  {
    s.(connections := s.connections[c := conn])
  }

  function Put(s: State, d: Text, dir: Directory): State
  {
    s.(directories := s.directories[d := dir])
  }

  /** Bytes one history entry takes in a list response. */
  function EntrySize(id: Text, meta: Meta): nat
  {
    (2 + |id|) + (2 + |meta.name|) + 8 + 8 + (2 + 64)
  }

  /** Bytes the entries of a history take together. */
  ghost function TotalSize(metas: map<Text, Meta>): nat
    decreases |metas|
  {
    if metas == map[] then 0
    else
      var id :| id in metas;
      EntrySize(id, metas[id]) + TotalSize(metas - {id})
  }

  ghost predicate ListFits(metas: map<Text, Meta>)
  {
    |metas| <= MaxEntries && 4 + TotalSize(metas) <= MaxPayload
  }

  // ---- what every step keeps ----

  ghost predicate UniqueNames(users: seq<User>)
  {
    forall i, j :: 0 <= i < j < |users| ==> users[i].name != users[j].name
  }

  ghost predicate Accounts(s: State)
  {
    |s.users| <= MaxUsers && UniqueNames(s.users) && forall i :: 0 <= i < |s.users| ==> ValidUsername(s.users[i].name)
  }

  predicate Genuine(users: seq<User>, conn: Connection)
  {
    conn.session.Some? && !conn.closing ==> conn.session.value in users
  }

  /** The account of every authenticated connection still in its command loop is the exact record it proved. */
  ghost predicate Authenticated(s: State)
  {
    forall c :: c in s.connections ==> Genuine(s.users, s.connections[c])
  }

  predicate Owner(h: Hash, users: seq<User>, d: Text)
  {
    exists i :: 0 <= i < |users| && Home(h, users[i].name) == d
  }

  /** No file, not even a temporary one, belongs to a missing account. */
  ghost predicate Owned(h: Hash, s: State)
  {
    forall d :: d in s.directories && s.directories[d] != NoFiles ==> Owner(h, s.users, d)
  }

  /** The temporary file of an upload holds what was received, never more than was declared. */
  ghost predicate Uploading(h: Hash, s: State, conn: Connection)
  {
    conn.upload.Some? ==>
      && conn.session.Some? && !conn.closing
      && var upload, dir := conn.upload.value, At(s, Home(h, conn.session.value.name));
      && upload.temp in dir.staged && |dir.staged[upload.temp]| == upload.received <= upload.size
      && ValidDisplayName(upload.name) && |upload.digest| == 32 && ValidBackupId(upload.id) && upload.id !in dir.archives
  }

  predicate Apart(h: Hash, a: Connection, b: Connection)
  {
    a.upload.Some? && b.upload.Some? && a.session.Some? && b.session.Some?
    && Home(h, a.session.value.name) == Home(h, b.session.value.name)
    ==> a.upload.value.temp != b.upload.value.temp && a.upload.value.id != b.upload.value.id
  }

  ghost predicate Separate(h: Hash, s: State)
  {
    forall a, b :: a in s.connections && b in s.connections && a != b ==> Apart(h, s.connections[a], s.connections[b])
  }

  ghost predicate Uploads(h: Hash, s: State)
  {
    Separate(h, s) && forall c :: c in s.connections ==> Uploading(h, s, s.connections[c])
  }

  /** A backup whose archive has the size and digest its metadata states. */
  predicate Intact(h: Hash, dir: Directory, id: Text)
  {
    && id in dir.metas && id in dir.archives
    && |dir.archives[id]| == dir.metas[id].size && h(dir.archives[id]) == dir.metas[id].digest
  }

  /** Every visible backup is complete and readable, and the history fits one list response. */
  ghost predicate Sound(h: Hash, dir: Directory)
  {
    ListFits(dir.metas)
    && forall id :: id in dir.metas ==> ValidBackupId(id) && ValidMeta(dir.metas[id]) && Intact(h, dir, id)
  }

  ghost predicate Stored(h: Hash, s: State)
  {
    forall d :: d in s.directories ==> Sound(h, s.directories[d])
  }

  ghost predicate Inv(h: Hash, s: State)
  {
    Accounts(s) && Authenticated(s) && Owned(h, s) && Uploads(h, s) && Stored(h, s)
  }

  // ---- the steps ----

  /** The command loop of a connection ends: its temporary file goes, unless removing it fails. */
  function Ended(h: Hash, s: State, c: nat, stays: bool): State
    requires c in s.connections
  {
    var conn := s.connections[c];
    var last := Connection(None, conn.session, None, true);
    if conn.upload.None? || conn.session.None? || stays then With(s, c, last)
    else With(Unstaged(s, Home(h, conn.session.value.name), conn.upload.value.temp), c, last)
  }

  function Unstaged(s: State, d: Text, temp: Text): State
  {
    Put(s, d, At(s, d).(staged := At(s, d).staged - {temp}))
  }

  function Registered(h: Hash, s: State, c: nat, user: User, env: Env): State
    requires c in s.connections
  {
    if !ValidUsername(user.name) || HasUser(s.users, user.name) || |s.users| >= MaxUsers || env.fault == BeforeCommit then
      Ended(h, s, c, env.stagingStays)
    else
      var next := s.(users := s.users + [user]);
      if env.fault != Success || env.replyLost then Ended(h, next, c, env.stagingStays) else next
  }

  function LoginStarted(h: Hash, s: State, c: nat, name: Text, request: nat, env: Env): State
    requires c in s.connections
  {
    var user := FindUser(s.users, name);
    if !ValidUsername(name) || user.None? || env.fault != Success || env.replyLost then Ended(h, s, c, env.stagingStays)
    else With(s, c, s.connections[c].(pending := Some(Challenge(user.value, env.nonce, request))))
  }

  /** A proof is accepted only for the challenge just issued and only while the very same record is stored. */
  function LoginProved(h: Hash, s: State, c: nat, proof: seq<byte>, request: nat, env: Env): State
    requires c in s.connections
  {
    var conn := s.connections[c];
    if conn.pending.None? || request != conn.pending.value.request || |proof| != 32
       || proof != h(conn.pending.value.user.verifier + conn.pending.value.nonce)
       || conn.session.Some? || conn.pending.value.user !in s.users || env.fault != Success
    then Ended(h, s, c, env.stagingStays)
    else
      var next := With(s, c, conn.(pending := None, session := Some(conn.pending.value.user)));
      if env.replyLost then Ended(h, next, c, env.stagingStays) else next
  }

  /** The bytes an incremental upload may refer to, or nothing when its base is not a visible backup. */
  function BaseContent(dir: Directory, base: Option<Text>): Option<Option<seq<byte>>>
  {
    if base.None? then Some(None)
    else if ValidBackupId(base.value) && base.value in dir.metas && base.value in dir.archives
    then Some(Some(dir.archives[base.value]))
    else None
  }

  function UploadStarted(h: Hash, s: State, c: nat, frame: Frame, request: nat, env: Env): State
    requires c in s.connections && s.connections[c].session.Some? && frame.UploadStart?
  {
    var conn := s.connections[c];
    var d := Home(h, conn.session.value.name);
    var base := BaseContent(At(s, d), frame.base);
    if !ValidDisplayName(frame.displayName) || |frame.digest| != 32 || base.None? || env.fault != Success then
      Ended(h, s, c, env.stagingStays)
    else
      var upload := Upload(request, env.id, env.temp, frame.displayName, frame.size, frame.digest, base.value, 0);
      var next := With(Put(s, d, At(s, d).(staged := At(s, d).staged[env.temp := []])), c, conn.(upload := Some(upload)));
      if env.replyLost then Ended(h, next, c, env.stagingStays) else next
  }

  /** The bytes a frame adds to an upload, or nothing when it is refused. */
  function Contribution(upload: Upload, frame: Frame): (r: Option<seq<byte>>)
    requires upload.received <= upload.size
    ensures r.Some? ==> upload.received + |r.value| <= upload.size
  {
    match frame
    case UploadChunk(bytes) => if |bytes| <= upload.size - upload.received then Some(bytes) else None
    case UploadCopy(offset, count) =>
      if upload.base.Some? && 0 < count <= ChunkSize && offset <= |upload.base.value|
         && count <= |upload.base.value| - offset && count <= upload.size - upload.received
      then Some(upload.base.value[offset..offset + count])
      else None
    case _ => None
  }

  function Grown(dir: Directory, temp: Text, bytes: seq<byte>): Directory
    requires temp in dir.staged
  {
    dir.(staged := dir.staged[temp := dir.staged[temp] + bytes])
  }

  function Appended(h: Hash, s: State, c: nat, bytes: seq<byte>): State
    requires c in s.connections && s.connections[c].session.Some? && s.connections[c].upload.Some?
    requires s.connections[c].upload.value.temp in At(s, Home(h, s.connections[c].session.value.name)).staged
  {
    var conn := s.connections[c];
    var d, upload := Home(h, conn.session.value.name), conn.upload.value;
    var more := conn.(upload := Some(upload.(received := upload.received + |bytes|)));
    With(Put(s, d, Grown(At(s, d), upload.temp, bytes)), c, more)
  }

  function MetaOf(upload: Upload, now: nat): Meta
  {
    Meta(if upload.name == [] then upload.id else upload.name, now, upload.size, upload.digest)
  }

  /** One more entry still fits the history. */
  ghost predicate Admits(dir: Directory, upload: Upload, now: nat)
  {
    |dir.metas| + 1 <= MaxEntries && 4 + TotalSize(dir.metas) + EntrySize(upload.id, MetaOf(upload, now)) <= MaxPayload
  }

  /** The handler of a failed publication: the metadata goes first, the archive only if that worked. */
  function Cleaned(dir: Directory, id: Text, env: Env): Directory
  {
    if !env.metaRemoved then dir
    else if !env.archiveRemoved then dir.(metas := dir.metas - {id})
    else dir.(metas := dir.metas - {id}, archives := dir.archives - {id})
  }

  function Committed(dir: Directory, upload: Upload): Directory
    requires upload.temp in dir.staged
  {
    Directory(dir.staged - {upload.temp}, dir.archives[upload.id := dir.staged[upload.temp]], dir.metas)
  }

  function MadeVisible(dir: Directory, upload: Upload, now: nat): Directory
  {
    dir.(metas := dir.metas[upload.id := MetaOf(upload, now)])
  }

  /** The archive is renamed into place first, then its metadata; either may appear and its call still fail. */
  function Published(dir: Directory, upload: Upload, env: Env): Directory
    requires upload.temp in dir.staged
  {
    match env.fault
    case Success => MadeVisible(Committed(dir, upload), upload, env.now)
    case BeforeCommit => Cleaned(dir, upload.id, env)
    case AfterCommit => Cleaned(Committed(dir, upload), upload.id, env)
    case AfterMeta => Cleaned(MadeVisible(Committed(dir, upload), upload, env.now), upload.id, env)
  }

  ghost function UploadEnded(h: Hash, s: State, c: nat, env: Env): State
    requires c in s.connections && s.connections[c].session.Some? && s.connections[c].upload.Some?
    requires s.connections[c].upload.value.temp in At(s, Home(h, s.connections[c].session.value.name)).staged
  {
    var conn := s.connections[c];
    var d, upload := Home(h, conn.session.value.name), conn.upload.value;
    var content := At(s, d).staged[upload.temp];
    if upload.received != upload.size || h(content) != upload.digest || !Admits(At(s, d), upload, env.now) then
      Ended(h, s, c, env.stagingStays)
    else
      var next := Put(s, d, Published(At(s, d), upload, env));
      if env.fault != Success || env.replyLost then Ended(h, next, c, env.stagingStays)
      else With(next, c, conn.(upload := None))
  }

  /** Another live connection is logged in to the same account. */
  predicate InUse(s: State, c: nat, name: Text)
  {
    exists other :: other in s.connections && other != c
      && s.connections[other].session.Some? && s.connections[other].session.value.name == name
  }

  function AccountDeleted(h: Hash, s: State, c: nat, env: Env): State
    requires c in s.connections && s.connections[c].session.Some?
  {
    var name := s.connections[c].session.value.name;
    if InUse(s, c, name) || !HasUser(s.users, name) || At(s, Home(h, name)) != NoFiles || env.fault == BeforeCommit
    then Ended(h, s, c, env.stagingStays)
    else Ended(h, s.(users := RemoveUser(s.users, name)), c, env.stagingStays)
  }

  /** The archive a download sends: only one that is visible and still has its digest. */
  function Fetched(h: Hash, dir: Directory, id: Text): Option<seq<byte>>
  {
    if id in dir.metas && id in dir.archives && h(dir.archives[id]) == dir.metas[id].digest then Some(dir.archives[id]) else None
  }

  /** One frame handled by the command loop of connection `c`. */
  ghost function Received(h: Hash, s: State, c: nat, frame: Frame, request: nat, env: Env): State
    requires c in s.connections && Uploads(h, s)
  {
    var conn := s.connections[c];
    if conn.closing then s
    else if conn.upload.Some? then
      if request != conn.upload.value.request then Ended(h, s, c, env.stagingStays)
      else if frame.UploadEnd? then UploadEnded(h, s, c, env)
      else
        var bytes := Contribution(conn.upload.value, frame);
        if bytes.None? || env.fault != Success then Ended(h, s, c, env.stagingStays) else Appended(h, s, c, bytes.value)
    else if frame.Register? then Registered(h, s, c, frame.user, env)
    else if frame.LoginStart? then LoginStarted(h, s, c, frame.name, request, env)
    else if frame.LoginProof? then LoginProved(h, s, c, frame.proof, request, env)
    else if conn.session.None? then Ended(h, s, c, env.stagingStays)
    else
      var dir := At(s, Home(h, conn.session.value.name));
      match frame
      case UploadStart(_, _, _, _) => UploadStarted(h, s, c, frame, request, env)
      case List =>
        if ListFits(dir.metas) && env.fault == Success && !env.replyLost then s else Ended(h, s, c, env.stagingStays)
      case Download(id) =>
        if ValidBackupId(id) && Fetched(h, dir, id).Some? && env.fault == Success && !env.replyLost then s
        else Ended(h, s, c, env.stagingStays)
      case DeleteAccount => AccountDeleted(h, s, c, env)
      case _ => Ended(h, s, c, env.stagingStays)
  }

  /** An upload never starts under a name already taken: the identifier is drawn again while an archive has it,
      a temporary name is new, and no upload still in progress drew the same identifier. */
  ghost predicate FreshNames(h: Hash, s: State, c: nat, env: Env)
    requires c in s.connections
  {
    s.connections[c].session.Some? ==>
      var d := Home(h, s.connections[c].session.value.name);
      && env.temp !in At(s, d).staged && env.id !in At(s, d).archives && ValidBackupId(env.id)
      && forall other :: other in s.connections && s.connections[other].session.Some? && s.connections[other].upload.Some?
          ==> Home(h, s.connections[other].session.value.name) == d ==> s.connections[other].upload.value.id != env.id
  }

  ghost predicate Possible(h: Hash, s: State, event: Event)
  {
    match event
    case Connect(c) => c !in s.connections
    case Receive(c, frame, request, env) =>
      c in s.connections && !s.connections[c].closing && (frame.UploadStart? ==> FreshNames(h, s, c, env))
    case Close(c) => c in s.connections && s.connections[c].closing
    case Restart => true
  }

  ghost function Next(h: Hash, s: State, event: Event): State
    requires Uploads(h, s) && Possible(h, s, event)
  {
    match event
    case Connect(c) => With(s, c, Connection(None, None, None, false))
    case Receive(c, frame, request, env) => Received(h, s, c, frame, request, env)
    case Close(c) => s.(connections := s.connections - {c})
    case Restart => s.(connections := map[])
  }

  /** A server that has never served anyone. */
  const Fresh := State([], map[], map[])

  /** A run: each event is possible in the state the earlier ones led to. */
  ghost predicate Run(h: Hash, s: State, events: seq<Event>, t: State)
    decreases |events|
  {
    if events == [] then s == t
    else Uploads(h, s) && Possible(h, s, events[0]) && Run(h, Next(h, s, events[0]), events[1..], t)
  }
}
