/** An upload as a conversation: the client sends blocks or references to the server's previous version. */
module IncrementalUpload {
  import opened Bytes
  import opened Sessions
  import opened SessionsInvariant
  import opened SessionsHistory

  const MaxIndex := 1048576
  const IndexFrame := 128

  type Digest = seq<byte>

  function Start(k: nat): nat
  {
    k * ChunkSize
  }

  function ChunkAt(s: seq<byte>, k: nat): (r: seq<byte>)
    requires Start(k) <= |s|
    ensures |r| == Min(ChunkSize, |s| - Start(k))
  {
    s[Start(k)..Min(Start(k) + ChunkSize, |s|)]
  }

  // ---- the index of the base ----

  function BlockCount(n: nat): nat
  {
    n / ChunkSize + if n % ChunkSize != 0 then 1 else 0
  }

  /** The digests of the next `left` blocks of the base, as far as it goes. */
  function Index(h: Hash, base: seq<byte>, k: nat, left: nat): (r: seq<Digest>)
    ensures |r| <= left
    decreases left
  {
    if left == 0 || Start(k) >= |base| then [] else [h(ChunkAt(base, k))] + Index(h, base, k + 1, left - 1)
  }

  function BaseIndex(h: Hash, base: Option<seq<byte>>, size: nat): (r: seq<Digest>)
    ensures |r| <= MaxIndex
  {
    if base.None? then [] else Index(h, base.value, 0, Min(MaxIndex, BlockCount(size)))
  }

  lemma {:induction false} IndexAt(h: Hash, base: seq<byte>, k: nat, left: nat, i: nat)
    requires i < |Index(h, base, k, left)|
    ensures Start(k + i) < |base| && Index(h, base, k, left)[i] == h(ChunkAt(base, k + i))
    decreases left
  {
    if i > 0 {
      IndexAt(h, base, k + 1, left - 1, i - 1);
    }
  }

  function Joined(frames: seq<seq<Digest>>): seq<Digest>
  {
    if frames == [] then [] else Joined(frames[..|frames| - 1]) + frames[|frames| - 1]
  }

  lemma JoinedAppend(frames: seq<seq<Digest>>, frame: seq<Digest>)
    ensures Joined(frames + [frame]) == Joined(frames) + frame
  {
    assert (frames + [frame])[..|frames|] == frames;
  }

  /** A full frame is sent: what was sent and collected stays the same. */
  lemma Flushed(frames: seq<seq<Digest>>, hashes: seq<Digest>)
    requires IndexFrames(frames) && 1 <= |hashes| <= IndexFrame
    ensures IndexFrames(frames + [hashes])
    ensures Joined(frames + [hashes]) == Joined(frames) + hashes && Joined(frames + [hashes]) + [] == Joined(frames) + hashes
  {
    JoinedAppend(frames, hashes);
  }

  predicate IndexFrames(frames: seq<seq<Digest>>)
  {
    forall i :: 0 <= i < |frames| ==> 1 <= |frames[i]| <= IndexFrame
  }

  /** The server reads the base block by block and sends the digests 128 to a frame. */
  method SendIndex(h: Hash, base: seq<byte>, size: nat) returns (frames: seq<seq<Digest>>)
    ensures IndexFrames(frames) && Joined(frames) == BaseIndex(h, Some(base), size)
  {
    frames := SendFrom(h, base, 0, Min(MaxIndex, BlockCount(size)));
  }

  lemma IndexStep(h: Hash, base: seq<byte>, k: nat, left: nat, sent: seq<Digest>, hashes: seq<Digest>)
    requires left > 0 && Start(k) < |base|
    ensures sent + hashes + Index(h, base, k, left) == sent + (hashes + [h(ChunkAt(base, k))]) + Index(h, base, k + 1, left - 1)
  {
  }

  method SendFrom(h: Hash, base: seq<byte>, first: nat, blocks: nat) returns (frames: seq<seq<Digest>>)
    ensures IndexFrames(frames) && Joined(frames) == Index(h, base, first, blocks)
  {
    frames := [];
    var left: nat, k: nat := blocks, first;
    var hashes: seq<Digest> := [];
    ghost var goal := Index(h, base, first, blocks);
    while left > 0 && Start(k) < |base|
      invariant IndexFrames(frames) && |hashes| < IndexFrame
      invariant Joined(frames) + hashes + Index(h, base, k, left) == goal
      decreases left
    {
      IndexStep(h, base, k, left, Joined(frames), hashes);
      hashes := hashes + [h(ChunkAt(base, k))];
      k, left := k + 1, left - 1;
      if |hashes| == IndexFrame {
        Flushed(frames, hashes);
        frames, hashes := frames + [hashes], [];
      }
    }
    if hashes != [] {
      Flushed(frames, hashes);
      frames := frames + [hashes];
    }
  }

  /** The client collects the index and refuses an empty frame or more digests than the limit. */
  method ReceiveIndex(frames: seq<seq<Digest>>) returns (index: Option<seq<Digest>>)
    ensures index == if (exists i :: 0 <= i < |frames| && frames[i] == []) || |Joined(frames)| > MaxIndex then None else Some(Joined(frames))
  {
    var hashes: seq<Digest>, i: nat := [], 0;
    assert frames[..0] == [];
    while i < |frames|
      invariant i <= |frames| && hashes == Joined(frames[..i]) && |hashes| <= MaxIndex
      invariant forall j :: 0 <= j < i ==> frames[j] != []
    {
      assert frames[..i + 1] == frames[..i] + [frames[i]];
      JoinedAppend(frames[..i], frames[i]);
      if frames[i] == [] || |hashes| + |frames[i]| > MaxIndex {
        JoinedGrows(frames, i + 1);
        return None;
      }
      hashes := hashes + frames[i];
      i := i + 1;
    }
    assert frames[..i] == frames;
    return Some(hashes);
  }

  lemma {:induction false} JoinedGrows(frames: seq<seq<Digest>>, i: nat)
    requires i <= |frames|
    ensures |Joined(frames[..i])| <= |Joined(frames)|
  {
    if i == |frames| {
      assert frames[..i] == frames;
    } else {
      var shorter := frames[..|frames| - 1];
      JoinedGrows(shorter, i);
      assert shorter[..i] == frames[..i];
    }
  }

  // ---- the client's frames ----

  /** A block whose digest is the base's at the same place is sent as a reference, any other as it is. */
  function FrameAt(h: Hash, file: seq<byte>, index: seq<Digest>, k: nat): Frame
    requires Start(k) < |file|
  {
    var chunk := ChunkAt(file, k);
    if k < |index| && h(chunk) == index[k] then UploadCopy(Start(k), |chunk|) else UploadChunk(chunk)
  }

  function Plan(h: Hash, file: seq<byte>, index: seq<Digest>, k: nat): seq<Frame>
    decreases |file| - Start(k)
  {
    if Start(k) >= |file| then [] else [FrameAt(h, file, index, k)] + Plan(h, file, index, k + 1)
  }

  method Upload(h: Hash, file: seq<byte>, index: seq<Digest>) returns (frames: seq<Frame>)
    ensures frames == Plan(h, file, index, 0)
  {
    frames := [];
    var sent: nat := 0;
    ghost var k: nat := 0;
    assert [] + Plan(h, file, index, 0) == Plan(h, file, index, 0);
    while sent < |file|
      invariant sent == Min(Start(k), |file|)
      invariant frames + Plan(h, file, index, k) == Plan(h, file, index, 0)
      decreases |file| - sent
    {
      assert sent / ChunkSize == k;
      var chunk := file[sent..Min(sent + ChunkSize, |file|)];
      var at := sent / ChunkSize;
      var reused := at < |index| && h(chunk) == index[at];
      Associative(frames, [FrameAt(h, file, index, k)], Plan(h, file, index, k + 1));
      if reused {
        frames := frames + [UploadCopy(sent, |chunk|)];
      } else {
        frames := frames + [UploadChunk(chunk)];
      }
      sent := sent + |chunk|;
      k := k + 1;
    }
    assert frames + [] == frames;
  }

  /** Equal digests of the blocks at the same place mean equal blocks. */
  ghost predicate NoCollision(h: Hash, file: seq<byte>, base: seq<byte>)
  {
    forall k: nat :: Start(k) < |file| && Start(k) < |base| && h(ChunkAt(file, k)) == h(ChunkAt(base, k))
      ==> ChunkAt(file, k) == ChunkAt(base, k)
  }

  lemma SameBlock(base: seq<byte>, k: nat, chunk: seq<byte>)
    requires Start(k) < |base| && chunk == ChunkAt(base, k)
    ensures 0 < |chunk| <= ChunkSize && Start(k) + |chunk| <= |base| && base[Start(k)..Start(k) + |chunk|] == chunk
  {
  }

  lemma CopyRebuilds(u: Upload, base: seq<byte>, k: nat, chunk: seq<byte>)
    requires u.base == Some(base) && Start(k) < |base| && chunk == ChunkAt(base, k)
    requires u.received <= u.size && |chunk| <= u.size - u.received
    ensures Contribution(u, UploadCopy(Start(k), |chunk|)) == Some(chunk)
  {
    SameBlock(base, k, chunk);
  }

  /** The server accepts the client's next frame and gets the next block of the file out of it. */
  lemma FrameRebuilds(h: Hash, file: seq<byte>, k: nat, u: Upload)
    requires Start(k) < |file| && u.received == Start(k) && u.size == |file|
    requires u.base.Some? ==> NoCollision(h, file, u.base.value)
    ensures Contribution(u, FrameAt(h, file, BaseIndex(h, u.base, |file|), k)) == Some(ChunkAt(file, k))
  {
    var index := BaseIndex(h, u.base, |file|);
    var chunk := ChunkAt(file, k);
    if k < |index| && h(chunk) == index[k] {
      var base := u.base.value;
      IndexAt(h, base, 0, Min(MaxIndex, BlockCount(|file|)), k);
      assert ChunkAt(base, k) == chunk;
      CopyRebuilds(u, base, k, chunk);
    }
  }

  /** The index covers every block of the base that it has room for. */
  lemma {:induction false} IndexCovers(h: Hash, base: seq<byte>, k: nat, left: nat, i: nat)
    requires i < left && Start(k + i) < |base|
    ensures i < |Index(h, base, k, left)|
    decreases left
  {
    if i > 0 {
      IndexCovers(h, base, k + 1, left - 1, i - 1);
    }
  }

  lemma {:induction false} PlanAt(h: Hash, file: seq<byte>, index: seq<Digest>, k: nat, i: nat)
    requires i < |Plan(h, file, index, k)|
    ensures Start(k + i) < |file| && Plan(h, file, index, k)[i] == FrameAt(h, file, index, k + i)
    decreases i
  {
    if i > 0 {
      PlanAt(h, file, index, k + 1, i - 1);
    }
  }

  /** Which blocks travel: within the reach of the index, exactly those that are not the base's at the same place. */
  lemma OnlyChangesTravel(h: Hash, base: seq<byte>, file: seq<byte>, i: nat)
    requires NoCollision(h, file, base) && i < |Plan(h, file, BaseIndex(h, Some(base), |file|), 0)|
    ensures Start(i) < |file|
    ensures Plan(h, file, BaseIndex(h, Some(base), |file|), 0)[i] ==
      if i < MaxIndex && Start(i) < |base| && ChunkAt(base, i) == ChunkAt(file, i)
      then UploadCopy(Start(i), |ChunkAt(file, i)|) else UploadChunk(ChunkAt(file, i))
  {
    var blocks := Min(MaxIndex, BlockCount(|file|));
    var index := BaseIndex(h, Some(base), |file|);
    PlanAt(h, file, index, 0, i);
    assert i < BlockCount(|file|);
    if i < |index| {
      IndexAt(h, base, 0, blocks, i);
    } else if i < MaxIndex && Start(i) < |base| {
      IndexCovers(h, base, 0, blocks, i);
    }
  }

  // ---- the conversation, among everything else the server does ----

  /** What stays fixed during one upload: connection, account directory, request and the file being sent. */
  datatype Transfer = Transfer(connection: nat, directory: Text, upload: Upload, file: seq<byte>)

  /** The upload is open and its temporary file holds the first `k` blocks. */
  ghost predicate Progress(h: Hash, s: State, x: Transfer, k: nat)
  {
    && x.connection in s.connections
    && var conn, sent := s.connections[x.connection], Min(Start(k), |x.file|);
    && !conn.closing && conn.session.Some? && Home(h, conn.session.value.name) == x.directory
    && conn.upload == Some(x.upload.(received := sent)) && x.upload.size == |x.file|
    && x.upload.temp in At(s, x.directory).staged && At(s, x.directory).staged[x.upload.temp] == x.file[..sent]
  }

  function ClientPlan(h: Hash, x: Transfer, k: nat): seq<Frame>
  {
    Plan(h, x.file, BaseIndex(h, x.upload.base, |x.file|), k)
  }

  /** In `events` this connection sends exactly `frames`, in order and without a failure; others do as they please. */
  ghost predicate Conversation(events: seq<Event>, c: nat, request: nat, frames: seq<Frame>)
  {
    if events == [] then frames == []
    else if events[0].Receive? && events[0].connection == c then
      && frames != [] && events[0].frame == frames[0] && events[0].request == request && events[0].env.fault == Success
      && Conversation(events[1..], c, request, frames[1..])
    else !events[0].Restart? && Conversation(events[1..], c, request, frames)
  }

  /** A step of another connection leaves the transfer where it is. */
  lemma OtherStep(h: Hash, s: State, event: Event, x: Transfer, k: nat)
    requires Inv(h, s) && Possible(h, s, event) && Progress(h, s, x, k)
    requires !event.Restart? && !(event.Receive? && event.connection == x.connection)
    ensures Progress(h, Next(h, s, event), x, k)
  {
    if event.Receive? {
      ReceivedEffect(h, s, event.connection, event.frame, event.request, event.env, x.directory);
      assert Apart(h, s.connections[x.connection], s.connections[event.connection]);
    }
  }

  lemma BlocksJoin(file: seq<byte>, k: nat)
    requires Start(k) < |file|
    ensures file[..Start(k)] + ChunkAt(file, k) == file[..Min(Start(k + 1), |file|)]
    ensures Start(k) + |ChunkAt(file, k)| == Min(Start(k + 1), |file|)
  {
  }

  lemma AppendedProgress(h: Hash, s: State, x: Transfer, k: nat)
    requires Progress(h, s, x, k) && Start(k) < |x.file|
    ensures Progress(h, Appended(h, s, x.connection, ChunkAt(x.file, k)), x, k + 1)
  {
    BlocksJoin(x.file, k);
  }

  /** The transfer's own frame adds the next block. */
  lemma OwnStep(h: Hash, s: State, event: Event, x: Transfer, k: nat)
    requires Inv(h, s) && Possible(h, s, event) && Progress(h, s, x, k) && Start(k) < |x.file|
    requires event.Receive? && event.connection == x.connection && event.request == x.upload.request && event.env.fault == Success
    requires event.frame == FrameAt(h, x.file, BaseIndex(h, x.upload.base, |x.file|), k)
    requires x.upload.base.Some? ==> NoCollision(h, x.file, x.upload.base.value)
    ensures Progress(h, Next(h, s, event), x, k + 1)
  {
    FrameRebuilds(h, x.file, k, s.connections[x.connection].upload.value);
    AppendedProgress(h, s, x, k);
  }

  lemma PlanStep(h: Hash, x: Transfer, k: nat)
    ensures ClientPlan(h, x, k) == if Start(k) >= |x.file| then [] else
      [FrameAt(h, x.file, BaseIndex(h, x.upload.base, |x.file|), k)] + ClientPlan(h, x, k + 1)
    ensures Start(k) < |x.file| ==> ClientPlan(h, x, k)[1..] == ClientPlan(h, x, k + 1)
  {
  }

  /** One event of a run: the transfer is as far as before, or one block further. */
  lemma Advance(h: Hash, s: State, events: seq<Event>, x: Transfer, k: nat) returns (further: nat)
    requires events != [] && Inv(h, s) && Possible(h, s, events[0]) && Progress(h, s, x, k)
    requires Conversation(events, x.connection, x.upload.request, ClientPlan(h, x, k))
    requires x.upload.base.Some? ==> NoCollision(h, x.file, x.upload.base.value)
    ensures Progress(h, Next(h, s, events[0]), x, further)
    ensures Conversation(events[1..], x.connection, x.upload.request, ClientPlan(h, x, further))
  {
    if events[0].Receive? && events[0].connection == x.connection {
      PlanStep(h, x, k);
      OwnStep(h, s, events[0], x, k);
      further := k + 1;
    } else {
      OtherStep(h, s, events[0], x, k);
      further := k;
    }
  }

  /** Whatever other connections do meanwhile, the server accepts every frame and rebuilds exactly the client's file. */
  lemma {:induction false} TransferCompletes(h: Hash, s: State, events: seq<Event>, t: State, x: Transfer, k: nat)
    requires Inv(h, s) && Run(h, s, events, t) && Progress(h, s, x, k)
    requires Conversation(events, x.connection, x.upload.request, ClientPlan(h, x, k))
    requires x.upload.base.Some? ==> NoCollision(h, x.file, x.upload.base.value)
    ensures Inv(h, t) && exists n: nat :: Start(n) >= |x.file| && Progress(h, t, x, n)
    decreases |events|
  {
    if events == [] {
      assert Start(k) >= |x.file|;
    } else {
      NextKeeps(h, s, events[0]);
      var further := Advance(h, s, events, x, k);
      TransferCompletes(h, Next(h, s, events[0]), events[1..], t, x, further);
    }
  }

  /** The end frame of a complete transfer publishes the file; only a full history can refuse it. */
  lemma TransferPublishes(h: Hash, s: State, x: Transfer, n: nat, env: Env)
    requires Inv(h, s) && Progress(h, s, x, n) && Start(n) >= |x.file| && x.upload.digest == h(x.file) && env.fault == Success
    ensures var t := Next(h, s, Receive(x.connection, UploadEnd, x.upload.request, env));
            var dir, id := At(t, x.directory), x.upload.id;
            if Admits(At(s, x.directory), s.connections[x.connection].upload.value, env.now)
            then id in dir.metas && Intact(h, dir, id) && dir.archives[id] == x.file && dir.metas[id].size == |x.file|
            else dir.metas == At(s, x.directory).metas && t.connections[x.connection].closing
  {
    assert x.file[..|x.file|] == x.file;
  }

  // ---- from the first frame to the last ----

  /** What an honest client sends first: the size and digest of its file, and perhaps a visible backup to build on. */
  ghost predicate Opens(h: Hash, s: State, event: Event, file: seq<byte>)
  {
    && event.Receive? && event.frame.UploadStart? && event.frame.size == |file| && event.frame.digest == h(file) && |h(file)| == 32
    && ValidDisplayName(event.frame.displayName) && event.env.fault == Success && !event.env.replyLost
    && event.connection in s.connections
    && var conn := s.connections[event.connection];
    && conn.session.Some? && conn.upload.None?
    && (event.frame.base.Some? ==>
         ValidBackupId(event.frame.base.value) && event.frame.base.value in At(s, Home(h, conn.session.value.name)).metas)
  }

  ghost function Opened(h: Hash, s: State, event: Event, file: seq<byte>): Transfer
    requires Opens(h, s, event, file)
  {
    var d := Home(h, s.connections[event.connection].session.value.name);
    var base := if event.frame.base.Some? && event.frame.base.value in At(s, d).archives
                then Some(At(s, d).archives[event.frame.base.value]) else None;
    Transfer(event.connection, d,
      Sessions.Upload.Upload(event.request, event.env.id, event.env.temp, event.frame.displayName, |file|, h(file), base, 0), file)
  }

  /** The server accepts it, with the whole archive of the named backup as the base. */
  lemma TransferStarts(h: Hash, s: State, event: Event, file: seq<byte>)
    requires Inv(h, s) && Possible(h, s, event) && Opens(h, s, event, file)
    ensures Progress(h, Next(h, s, event), Opened(h, s, event, file), 0)
    ensures event.frame.base.Some? <==> Opened(h, s, event, file).upload.base.Some?
  {
    var d := Home(h, s.connections[event.connection].session.value.name);
    AtInOrder(h, s, d);
    if event.frame.base.Some? {
      assert Intact(h, At(s, d), event.frame.base.value);
    }
    assert file[..0] == [];
  }

  /** An honest upload ends with the client's file published, whatever other connections do, unless the history is full. */
  lemma HonestUpload(h: Hash, s: State, start: Event, events: seq<Event>, t: State, env: Env, file: seq<byte>)
    requires Inv(h, s) && Possible(h, s, start) && Opens(h, s, start, file)
    requires Run(h, Next(h, s, start), events, t) && env.fault == Success
    requires var x := Opened(h, s, start, file);
      && Conversation(events, x.connection, x.upload.request, ClientPlan(h, x, 0))
      && (x.upload.base.Some? ==> NoCollision(h, file, x.upload.base.value))
    ensures var x, end := Opened(h, s, start, file), Receive(start.connection, UploadEnd, start.request, env);
            && Inv(h, t) && Possible(h, t, end) && t.connections[x.connection].upload.Some?
            && var dir, id := At(Next(h, t, end), x.directory), start.env.id;
            if Admits(At(t, x.directory), t.connections[x.connection].upload.value, env.now)
            then id in dir.metas && Intact(h, dir, id) && dir.archives[id] == file && dir.metas[id].size == |file|
            else dir.metas == At(t, x.directory).metas
  {
    var x := Opened(h, s, start, file);
    NextKeeps(h, s, start);
    TransferStarts(h, s, start, file);
    TransferCompletes(h, Next(h, s, start), events, t, x, 0);
    var n: nat :| Start(n) >= |file| && Progress(h, t, x, n);
    TransferPublishes(h, t, x, n, env);
  }
}
