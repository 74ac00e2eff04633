/** The automatic backup loop: events, deadlines, retries and retention. */
module Snapshots {
  import opened Bytes
  import opened Paths
  import opened Retention

  const MaxBatches := 64
  const MaxRetries := 3
  const ShortestRetry := 100
  const LongestRetry := 5000

  /** Times are milliseconds of the steady clock. */
  datatype Settings = Settings(realtime: bool, interval: nat, keep: nat, maxBackups: nat, prefix: Text)

  predicate ValidSettings(s: Settings)
  {
    0 < s.keep <= 10000 && 20 <= s.interval <= 604800000
  }

  /** What one round of the loop meets. An event is true when it is a real change, not a notice about a watch. */
  datatype Round = Round(arrived: seq<bool>, batches: seq<nat>, polled: nat, checked: nat,
                         beforeCreate: seq<bool>, created: bool, duringCreate: seq<bool>, name: Text, folder: Folder, finished: nat)

  /** The loop's variables, and for the specification which events were delivered, read and covered by a snapshot. */
  datatype Head = Head(next: nat, completed: nat, failures: nat, pending: bool,
                       events: seq<bool>, drained: nat, covered: nat, attempts: nat)

  datatype Outcome = Going | Done | GaveUp

  /** Every change delivered so far is covered by a snapshot, still queued, or will be acted on. */
  ghost predicate NothingLost(h: Head)
  {
    && h.covered <= |h.events| && h.drained <= |h.events|
    && (h.completed > 0 && !h.pending ==> forall i :: h.covered <= i < h.drained ==> !h.events[i])
  }

  /** `attempts` counts failed attempts since the last success: never more than the retries while the loop goes on. */
  ghost predicate Retrying(h: Head)
  {
    h.failures == h.attempts <= MaxRetries && (h.failures > 0 ==> h.pending)
  }

  ghost predicate Sound(h: Head)
  {
    NothingLost(h) && Retrying(h)
  }

  function Clamp(x: nat, low: nat, high: nat): nat
  {
    if x < low then low else if x > high then high else x
  }

  // ---- one round ----

  /** The poll: a first change sets the deadline, a later one does not move it. */
  function Noticed(s: Settings, h: Head, r: Round, drained: nat): Head
    requires h.drained <= drained <= |h.events + r.arrived|
  {
    var events := h.events + r.arrived;
    if !s.realtime then h.(events := events)
    else if AnyChange(events, h.drained, drained) && !h.pending then
      h.(events := events, drained := drained, pending := true,
         next := if h.completed > 0 && h.failures == 0 then r.polled + s.interval else h.next)
    else h.(events := events, drained := drained)
  }

  /** A snapshot is due when there is a reason for one and its time has come. */
  predicate Due(s: Settings, h: Head, r: Round)
  {
    (h.completed == 0 || !s.realtime || h.pending) && r.checked >= h.next
  }

  /** The attempt: success covers the changes delivered before it began; the fourth failure in a row ends the loop. */
  function Attempted(s: Settings, h: Head, r: Round): (Head, Outcome)
  {
    var start := h.events + r.beforeCreate;
    var events := start + r.duringCreate;
    if !r.created then
      if h.failures + 1 > MaxRetries then (h.(events := events, failures := h.failures + 1, attempts := h.attempts + 1), GaveUp)
      else
        (h.(events := events, failures := h.failures + 1, attempts := h.attempts + 1, pending := true,
            next := r.finished + Clamp(s.interval, ShortestRetry, LongestRetry)), Going)
    else
      var done := s.maxBackups > 0 && h.completed + 1 >= s.maxBackups;
      (h.(events := events, failures := 0, attempts := 0, completed := h.completed + 1, covered := |start|, pending := false,
          next := r.finished + s.interval), if done then Done else Going)
  }

  function Next(s: Settings, h: Head, r: Round, drained: nat): (Head, Outcome)
    requires h.drained <= drained <= |h.events + r.arrived|
  {
    var noticed := Noticed(s, h, r, drained);
    if Due(s, noticed, r) then Attempted(s, noticed, r) else (noticed, Going)
  }

  // ---- reading events ----

  /** Some event of the range is a real change. */
  predicate AnyChange(events: seq<bool>, from: nat, to: nat)
    requires from <= to <= |events|
  {
    exists i :: from <= i < to && events[i]
  }

  /** How many of the first `n` reads are interrupted before they return an event. */
  function Interrupted(batches: seq<nat>, n: nat): nat
  {
    if n == 0 then 0 else Interrupted(batches, n - 1) + if n <= |batches| && batches[n - 1] == 0 then 1 else 0
  }

  /** The reads stopped because nothing was left, or after 64 of them, each of which took an event unless interrupted. */
  predicate Drains(events: seq<bool>, from: nat, to: nat, batches: seq<nat>)
  {
    from <= to <= |events| && (to == |events| || to + Interrupted(batches, MaxBatches) >= from + MaxBatches)
  }

  /** Reads batches of events until none are left or 64 batches were read; a batch can be interrupted and empty. */
  method Changed(events: seq<bool>, drained: nat, batches: seq<nat>) returns (changed: bool, now: nat)
    requires drained <= |events|
    ensures Drains(events, drained, now, batches) && (changed <==> AnyChange(events, drained, now))
  {
    changed, now := false, drained;
    var batch: nat := 0;
    while batch < MaxBatches && now < |events|
      invariant batch <= MaxBatches && drained <= now <= |events| && (changed <==> AnyChange(events, drained, now))
      invariant now == |events| || now + Interrupted(batches, batch) >= drained + batch
    {
      var count: nat := if batch < |batches| && batches[batch] <= |events| - now then batches[batch] else |events| - now;
      var i: nat := 0;
      ghost var start := now;
      while i < count
        invariant i <= count && now == start + i && now <= |events| && start + count <= |events|
        invariant changed <==> AnyChange(events, drained, now)
      {
        AnyChangeNext(events, drained, now);
        changed := changed || events[now];
        now, i := now + 1, i + 1;
      }
      batch := batch + 1;
    }
  }

  lemma AnyChangeNext(events: seq<bool>, from: nat, to: nat)
    requires from <= to < |events|
    ensures AnyChange(events, from, to + 1) <==> AnyChange(events, from, to) || events[to]
  {
    if AnyChange(events, from, to) {
      var i :| from <= i < to && events[i];
      assert from <= i < to + 1;
    }
  }

  // ---- what every round keeps ----

  lemma NoticedKeeps(s: Settings, h: Head, r: Round, drained: nat)
    requires Sound(h) && h.drained <= drained <= |h.events + r.arrived|
    ensures Sound(Noticed(s, h, r, drained))
  {
    var n := Noticed(s, h, r, drained);
    if n.completed > 0 && !n.pending {
      forall i | n.covered <= i < n.drained ensures !n.events[i] {
        assert i < h.drained ==> n.events[i] == h.events[i];
      }
    }
  }

  lemma AttemptedKeeps(s: Settings, h: Head, r: Round)
    requires Sound(h)
    ensures var t := Attempted(s, h, r); NothingLost(t.0) && (t.1 != GaveUp ==> Sound(t.0))
    ensures Attempted(s, h, r).1.GaveUp? ==> Attempted(s, h, r).0.attempts == MaxRetries + 1
  {
  }

  /** No delivered change is ever lost, and at most four attempts in a row fail. */
  lemma NextKeeps(s: Settings, h: Head, r: Round, drained: nat)
    requires Sound(h) && h.drained <= drained <= |h.events + r.arrived|
    ensures var t := Next(s, h, r, drained);
            NothingLost(t.0) && t.0.attempts <= MaxRetries + 1 && (t.1 != GaveUp ==> Sound(t.0))
  {
    NoticedKeeps(s, h, r, drained);
    AttemptedKeeps(s, Noticed(s, h, r, drained), r);
  }

  /** Once a change is waiting, later events do not move its deadline; only an attempt does. */
  lemma DeadlineFixed(s: Settings, h: Head, r: Round, drained: nat)
    requires h.pending && h.drained <= drained <= |h.events + r.arrived|
    ensures var t := Next(s, h, r, drained);
            if r.checked >= h.next then t == Attempted(s, Noticed(s, h, r, drained), r)
            else t.0.next == h.next && t.0.pending && t.1 == Going
  {
  }

  // ---- whole runs ----

  /** One head follows the other by a round; with a watch, the round reads what it can of the queue. */
  ghost predicate Follows(s: Settings, h: Head, r: Round, t: Head, outcome: Outcome)
  {
    && h.drained <= t.drained <= |h.events + r.arrived| && Next(s, h, r, t.drained) == (t, outcome)
    && (s.realtime ==> Drains(h.events + r.arrived, h.drained, t.drained, r.batches))
  }

  /** Each head follows from the one before, and only the last round may end the loop. */
  ghost predicate Chained(s: Settings, rounds: seq<Round>, heads: seq<Head>, outcome: Outcome)
  {
    && 1 <= |heads| <= |rounds| + 1
    && forall i :: 0 <= i < |heads| - 1 ==> Follows(s, heads[i], rounds[i], heads[i + 1], if i == |heads| - 2 then outcome else Going)
  }

  lemma ChainedOn(s: Settings, rounds: seq<Round>, heads: seq<Head>, t: Head, outcome: Outcome)
    requires Chained(s, rounds, heads, Going) && |heads| <= |rounds|
    requires Follows(s, heads[|heads| - 1], rounds[|heads| - 1], t, outcome)
    ensures Chained(s, rounds, heads + [t], outcome)
  {
  }

  /** A run of the loop from its start. */
  ghost predicate Ran(s: Settings, start: nat, rounds: seq<Round>, heads: seq<Head>, outcome: Outcome)
  {
    && Chained(s, rounds, heads, outcome) && heads[0] == Head(start, 0, 0, false, [], 0, 0, 0)
    && (outcome.Going? ==> |heads| == |rounds| + 1)
  }

  lemma {:induction false} RunsKeep(s: Settings, start: nat, rounds: seq<Round>, heads: seq<Head>, outcome: Outcome, k: nat)
    requires Ran(s, start, rounds, heads, outcome) && k < |heads|
    ensures NothingLost(heads[k]) && heads[k].attempts <= MaxRetries + 1
    ensures k < |heads| - 1 || outcome != GaveUp ==> Sound(heads[k])
  {
    if k > 0 {
      RunsKeep(s, start, rounds, heads, outcome, k - 1);
      assert Follows(s, heads[k - 1], rounds[k - 1], heads[k], if k - 1 == |heads| - 2 then outcome else Going);
      NextKeeps(s, heads[k - 1], rounds[k - 1], heads[k].drained);
    }
  }

  /** Round `k` notices the first change since a snapshot, with no failed attempt to retry. */
  ghost predicate FirstNoticed(s: Settings, heads: seq<Head>, rounds: seq<Round>, k: nat)
    requires k + 1 < |heads| && k < |rounds|
  {
    && s.realtime && heads[k].completed > 0 && heads[k].failures == 0 && !heads[k].pending
    && heads[k].drained <= heads[k + 1].drained <= |heads[k].events + rounds[k].arrived|
    && AnyChange(heads[k].events + rounds[k].arrived, heads[k].drained, heads[k + 1].drained)
  }

  /** Before its deadline a noticed change waits: no attempt is made, and whatever else happens leaves the deadline alone. */
  lemma {:induction false} DeadlineHolds(s: Settings, start: nat, rounds: seq<Round>, heads: seq<Head>, outcome: Outcome, k: nat, j: nat)
    requires Ran(s, start, rounds, heads, outcome) && k < j < |heads| && FirstNoticed(s, heads, rounds, k)
    requires forall i :: k <= i < j ==> rounds[i].checked < rounds[k].polled + s.interval
    ensures heads[j].pending && heads[j].next == rounds[k].polled + s.interval
    ensures heads[j].completed == heads[k].completed && heads[j].failures == 0 && heads[j].covered == heads[k].covered
    ensures j == |heads| - 1 ==> outcome.Going?
    decreases j
  {
    var o := if j - 1 == |heads| - 2 then outcome else Going;
    assert Follows(s, heads[j - 1], rounds[j - 1], heads[j], o);
    if j - 1 == k {
      assert Noticed(s, heads[k], rounds[k], heads[k + 1].drained).next == rounds[k].polled + s.interval;
    } else {
      DeadlineHolds(s, start, rounds, heads, outcome, k, j - 1);
      DeadlineFixed(s, heads[j - 1], rounds[j - 1], heads[j].drained);
    }
  }

  /** What the poll of round `j` makes of the head before it. */
  ghost function Polled(s: Settings, heads: seq<Head>, rounds: seq<Round>, j: nat): Head
    requires j + 1 < |heads| && j < |rounds| && heads[j].drained <= heads[j + 1].drained <= |heads[j].events + rounds[j].arrived|
  {
    Noticed(s, heads[j], rounds[j], heads[j + 1].drained)
  }

  /**
   The first round whose clock has reached the deadline makes the attempt, one interval after the change was noticed;
   a success covers every event delivered before it began, those that came while the change was waiting included.
   */
  lemma ChangeIsActedOn(s: Settings, start: nat, rounds: seq<Round>, heads: seq<Head>, outcome: Outcome, k: nat, j: nat)
    requires Ran(s, start, rounds, heads, outcome) && k <= j < |heads| - 1 && FirstNoticed(s, heads, rounds, k)
    requires forall i :: k <= i < j ==> rounds[i].checked < rounds[k].polled + s.interval
    requires rounds[j].checked >= rounds[k].polled + s.interval
    ensures heads[j].drained <= heads[j + 1].drained <= |heads[j].events + rounds[j].arrived|
    ensures (heads[j + 1], if j == |heads| - 2 then outcome else Going) == Attempted(s, Polled(s, heads, rounds, j), rounds[j])
    ensures rounds[j].created ==>
      && heads[j + 1].completed == heads[k].completed + 1 && !heads[j + 1].pending
      && heads[j + 1].covered == |heads[j].events| + |rounds[j].arrived| + |rounds[j].beforeCreate|
    ensures !rounds[j].created ==> heads[j + 1].completed == heads[k].completed && heads[j + 1].failures == 1 && heads[j + 1].pending
  {
    assert Follows(s, heads[j], rounds[j], heads[j + 1], if j == |heads| - 2 then outcome else Going);
    if k < j {
      DeadlineHolds(s, start, rounds, heads, outcome, k, j);
      DeadlineFixed(s, heads[j], rounds[j], heads[j + 1].drained);
    }
  }

  lemma {:induction false} FewInterruptions(batches: seq<nat>, n: nat)
    requires forall b :: 0 <= b < |batches| ==> batches[b] > 0
    ensures Interrupted(batches, n) == 0
  {
    if n > 0 {
      FewInterruptions(batches, n - 1);
    }
  }

  /** Unless reads are interrupted, a change among the first 64 queued events is noticed by the very next poll. */
  lemma ChangeIsNoticed(s: Settings, start: nat, rounds: seq<Round>, heads: seq<Head>, outcome: Outcome, k: nat, e: nat)
    requires Ran(s, start, rounds, heads, outcome) && k + 1 < |heads| && s.realtime
    requires heads[k].completed > 0 && heads[k].failures == 0 && !heads[k].pending
    requires heads[k].drained <= e < |heads[k].events + rounds[k].arrived| && e < heads[k].drained + MaxBatches
    requires (heads[k].events + rounds[k].arrived)[e]
    requires forall b :: 0 <= b < |rounds[k].batches| ==> rounds[k].batches[b] > 0
    ensures FirstNoticed(s, heads, rounds, k) && heads[k + 1].drained > e
  {
    assert Follows(s, heads[k], rounds[k], heads[k + 1], if k == |heads| - 2 then outcome else Going);
    FewInterruptions(rounds[k].batches, MaxBatches);
    assert heads[k].drained <= e < heads[k + 1].drained;
  }

  lemma {:induction false} EventsGrow(s: Settings, rounds: seq<Round>, heads: seq<Head>, outcome: Outcome, i: nat, j: nat)
    requires Chained(s, rounds, heads, outcome) && i < j < |heads|
    ensures |heads[i].events| + |rounds[i].arrived| <= |heads[j].events|
    decreases j
  {
    assert Follows(s, heads[j - 1], rounds[j - 1], heads[j], if j - 1 == |heads| - 2 then outcome else Going);
    if i < j - 1 {
      EventsGrow(s, rounds, heads, outcome, i, j - 1);
    }
  }

  /**
   From a change to its snapshot: a change near the head of the queue is noticed by the next poll, waits one interval,
   and a success of the attempt then due covers it.
   */
  lemma ChangeIsSnapshotted(s: Settings, start: nat, rounds: seq<Round>, heads: seq<Head>, outcome: Outcome, k: nat, e: nat, j: nat)
    requires Ran(s, start, rounds, heads, outcome) && k <= j < |heads| - 1 && s.realtime
    requires heads[k].completed > 0 && heads[k].failures == 0 && !heads[k].pending
    requires heads[k].drained <= e < |heads[k].events + rounds[k].arrived| && e < heads[k].drained + MaxBatches
    requires (heads[k].events + rounds[k].arrived)[e]
    requires forall b :: 0 <= b < |rounds[k].batches| ==> rounds[k].batches[b] > 0
    requires forall i :: k <= i < j ==> rounds[i].checked < rounds[k].polled + s.interval
    requires rounds[j].checked >= rounds[k].polled + s.interval && rounds[j].created
    ensures heads[j + 1].completed == heads[k].completed + 1 && heads[j + 1].covered > e
  {
    ChangeIsNoticed(s, start, rounds, heads, outcome, k, e);
    ChangeIsActedOn(s, start, rounds, heads, outcome, k, j);
    if k < j {
      EventsGrow(s, rounds, heads, outcome, k, j);
    }
  }

  // ---- when attempts are made ----

  /** How round `r` looks when it makes the attempt: what changed from one head to the next, and the outcome. */
  predicate Tried(s: Settings, h: Head, r: Round, t: Head, outcome: Outcome)
  {
    if r.created then
      && t.completed == h.completed + 1 && t.failures == 0 && !t.pending && t.next == r.finished + s.interval
      && (outcome.Done? <==> s.maxBackups > 0 && h.completed + 1 >= s.maxBackups) && !outcome.GaveUp?
    else
      && t.completed == h.completed && t.failures == h.failures + 1 && !outcome.Done? && (outcome.GaveUp? <==> h.failures == 3)
      && (outcome.Going? ==> t.pending)
      && (outcome.Going? ==> t.next == r.finished + (if s.interval < 100 then 100 else if s.interval > 5000 then 5000 else s.interval))
  }

  /** An attempt is due whatever the events: there is no snapshot yet, an attempt failed, or the clock alone decides. */
  predicate Unconditional(s: Settings, h: Head)
  {
    h.completed == 0 || h.failures > 0 || !s.realtime
  }

  function OutcomeOf(heads: seq<Head>, outcome: Outcome, j: nat): Outcome
  {
    if j + 2 == |heads| then outcome else Going
  }

  /** Until the clock reaches the time set, no attempt is made and that time stays. */
  lemma {:induction false} NothingBeforeItsTime(s: Settings, start: nat, rounds: seq<Round>, heads: seq<Head>, outcome: Outcome, k: nat, j: nat)
    requires Ran(s, start, rounds, heads, outcome) && k <= j < |heads| && Unconditional(s, heads[k])
    requires k < |heads| - 1 || outcome != GaveUp
    requires forall i :: k <= i < j ==> rounds[i].checked < heads[k].next
    ensures heads[j].completed == heads[k].completed && heads[j].failures == heads[k].failures && heads[j].next == heads[k].next
    ensures k < j == |heads| - 1 ==> outcome.Going?
    decreases j
  {
    if k < j {
      NothingBeforeItsTime(s, start, rounds, heads, outcome, k, j - 1);
      RunsKeep(s, start, rounds, heads, outcome, j - 1);
      assert Follows(s, heads[j - 1], rounds[j - 1], heads[j], if j - 1 == |heads| - 2 then outcome else Going);
    }
  }

  /** The first round whose clock has reached that time makes the attempt. */
  lemma AttemptAtItsTime(s: Settings, start: nat, rounds: seq<Round>, heads: seq<Head>, outcome: Outcome, k: nat, j: nat)
    requires Ran(s, start, rounds, heads, outcome) && k <= j < |heads| - 1 && Unconditional(s, heads[k])
    requires (forall i :: k <= i < j ==> rounds[i].checked < heads[k].next) && rounds[j].checked >= heads[k].next
    ensures Tried(s, heads[j], rounds[j], heads[j + 1], OutcomeOf(heads, outcome, j))
  {
    NothingBeforeItsTime(s, start, rounds, heads, outcome, k, j);
    RunsKeep(s, start, rounds, heads, outcome, j);
    assert Follows(s, heads[j], rounds[j], heads[j + 1], if j == |heads| - 2 then outcome else Going);
  }

  /** The first snapshot is attempted in the first round from the start on, in either mode. */
  lemma FirstSnapshot(s: Settings, start: nat, rounds: seq<Round>, heads: seq<Head>, outcome: Outcome, j: nat)
    requires Ran(s, start, rounds, heads, outcome) && j < |heads| - 1
    requires (forall i :: 0 <= i < j ==> rounds[i].checked < start) && rounds[j].checked >= start
    ensures forall i :: 0 <= i <= j ==> heads[i].completed == 0 && heads[i].failures == 0
    ensures Tried(s, heads[j], rounds[j], heads[j + 1], OutcomeOf(heads, outcome, j))
  {
    forall i | 0 <= i <= j ensures heads[i].completed == 0 && heads[i].failures == 0 {
      NothingBeforeItsTime(s, start, rounds, heads, outcome, 0, i);
    }
    AttemptAtItsTime(s, start, rounds, heads, outcome, 0, j);
  }

  /** Without a watch, the next snapshot is attempted in the first round one interval after the last one, and not before. */
  lemma IntervalSnapshot(s: Settings, start: nat, rounds: seq<Round>, heads: seq<Head>, outcome: Outcome, q: nat, j: nat)
    requires Ran(s, start, rounds, heads, outcome) && q < j < |heads| - 1 && !s.realtime
    requires heads[q + 1].completed == heads[q].completed + 1
    requires forall i :: q < i < j ==> rounds[i].checked < rounds[q].finished + s.interval
    requires rounds[j].checked >= rounds[q].finished + s.interval
    ensures forall i :: q < i <= j ==> heads[i].completed == heads[q].completed + 1 && heads[i].failures == 0
    ensures Tried(s, heads[j], rounds[j], heads[j + 1], OutcomeOf(heads, outcome, j))
  {
    assert Follows(s, heads[q], rounds[q], heads[q + 1], if q == |heads| - 2 then outcome else Going);
    forall i | q < i <= j ensures heads[i].completed == heads[q].completed + 1 && heads[i].failures == 0 {
      NothingBeforeItsTime(s, start, rounds, heads, outcome, q + 1, i);
    }
    AttemptAtItsTime(s, start, rounds, heads, outcome, q + 1, j);
  }

  /** A failed attempt is repeated in the first round after the retry time, in either mode, and not before. */
  lemma RetryFollows(s: Settings, start: nat, rounds: seq<Round>, heads: seq<Head>, outcome: Outcome, q: nat, j: nat)
    requires Ran(s, start, rounds, heads, outcome) && q < j < |heads| - 1 && heads[q + 1].failures == heads[q].failures + 1
    requires var due := rounds[q].finished + (if s.interval < 100 then 100 else if s.interval > 5000 then 5000 else s.interval);
      (forall i :: q < i < j ==> rounds[i].checked < due) && rounds[j].checked >= due
    ensures forall i :: q < i <= j ==> heads[i].completed == heads[q].completed && heads[i].failures == heads[q].failures + 1
    ensures Tried(s, heads[j], rounds[j], heads[j + 1], OutcomeOf(heads, outcome, j))
  {
    assert Follows(s, heads[q], rounds[q], heads[q + 1], if q == |heads| - 2 then outcome else Going);
    forall i | q < i <= j ensures heads[i].completed == heads[q].completed && heads[i].failures == heads[q].failures + 1 {
      NothingBeforeItsTime(s, start, rounds, heads, outcome, q + 1, i);
    }
    AttemptAtItsTime(s, start, rounds, heads, outcome, q + 1, j);
  }

  /** With a watch, a round that meets no change makes no attempt once there is a snapshot and nothing failed. */
  lemma QuietRound(s: Settings, start: nat, rounds: seq<Round>, heads: seq<Head>, outcome: Outcome, k: nat)
    requires Ran(s, start, rounds, heads, outcome) && k < |heads| - 1 && s.realtime
    requires heads[k].completed > 0 && heads[k].failures == 0 && !heads[k].pending && !FirstNoticed(s, heads, rounds, k)
    ensures heads[k + 1] == heads[k].(events := heads[k].events + rounds[k].arrived, drained := heads[k + 1].drained)
    ensures OutcomeOf(heads, outcome, k).Going?
  {
    assert Follows(s, heads[k], rounds[k], heads[k + 1], if k == |heads| - 2 then outcome else Going);
  }

  /** The folder after each successful attempt holds what retention leaves; no other round touches it. */
  ghost predicate Thinned(s: Settings, rounds: seq<Round>, heads: seq<Head>, folders: seq<Folder>)
    requires |heads| <= |rounds| + 1
  {
    && |folders| == |heads|
    && forall i :: 0 <= i < |heads| - 1 ==>
         if heads[i + 1].completed > heads[i].completed
         then Retained(rounds[i].folder[rounds[i].name := true], folders[i + 1], s.prefix, rounds[i].name, s.keep)
         else folders[i + 1] == folders[i]
  }

  lemma ThinnedOn(s: Settings, rounds: seq<Round>, heads: seq<Head>, folders: seq<Folder>, t: Head, folder: Folder)
    requires 1 <= |heads| <= |rounds| && Thinned(s, rounds, heads, folders)
    requires var r := rounds[|heads| - 1];
      if t.completed > heads[|heads| - 1].completed then Retained(r.folder[r.name := true], folder, s.prefix, r.name, s.keep)
      else folder == folders[|heads| - 1]
    ensures Thinned(s, rounds, heads + [t], folders + [folder])
  {
  }

  // ---- the program ----

  /** The variables of the loop, and the output directory. */
  class Automation {
    const s: Settings
    var next: nat
    var completed: nat
    var failures: nat
    var pending: bool
    var events: seq<bool>
    var drained: nat
    var folder: Folder
    ghost var covered: nat

    ghost function View(): Head
      reads this
    {
      Head(next, completed, failures, pending, events, drained, covered, failures)
    }

    constructor (s: Settings, start: nat)
      ensures this.s == s && View() == Head(start, 0, 0, false, [], 0, 0, 0) && folder == map[]
    {
      this.s, next, completed, failures, pending := s, start, 0, 0, false;
      events, drained, covered, folder := [], 0, 0, map[];
    }

    /** The poll at the head of a round. */
    method Poll(r: Round)
      requires drained <= |events|
      modifies this`events, this`drained, this`pending, this`next
      ensures old(drained) <= drained <= |old(events) + r.arrived|
      ensures s.realtime ==> Drains(old(events) + r.arrived, old(drained), drained, r.batches)
      ensures View() == Noticed(s, old(View()), r, drained)
    {
      events := events + r.arrived;
      if s.realtime {
        var changed;
        changed, drained := Changed(events, drained, r.batches);
        if changed && !pending {
          pending := true;
          if completed > 0 && failures == 0 {
            next := r.polled + s.interval;
          }
        }
      }
    }

    /** The attempt of a round; a success thins out the earlier snapshots. */
    method Attempt(r: Round) returns (outcome: Outcome)
      requires ValidSettings(s) && failures <= MaxRetries
      modifies this
      ensures (View(), outcome) == Attempted(s, old(View()), r)
      ensures if r.created then Retained(r.folder[r.name := true], folder, s.prefix, r.name, s.keep) else folder == old(folder)
    {
      ghost var start := |events + r.beforeCreate|;
      events := events + r.beforeCreate + r.duringCreate;
      if !r.created {
        failures := failures + 1;
        if failures > MaxRetries {
          return GaveUp;
        }
        pending := true;
        next := r.finished + Clamp(s.interval, ShortestRetry, LongestRetry);
        return Going;
      }
      failures := 0;
      folder := RetainSnapshots(r.folder[r.name := true], s.prefix, r.name, s.keep);
      completed := completed + 1;
      covered := start;
      pending := false;
      next := r.finished + s.interval;
      return if s.maxBackups > 0 && completed >= s.maxBackups then Done else Going;
    }

    method Iterate(r: Round) returns (outcome: Outcome)
      requires ValidSettings(s) && Sound(View())
      modifies this
      ensures Follows(s, old(View()), r, View(), outcome)
      ensures if completed > old(completed) then Retained(r.folder[r.name := true], folder, s.prefix, r.name, s.keep) else folder == old(folder)
      ensures outcome != GaveUp ==> Sound(View())
    {
      ghost var head := View();
      Poll(r);
      NextKeeps(s, head, r, drained);
      outcome := Going;
      if (completed == 0 || !s.realtime || pending) && r.checked >= next {
        outcome := Attempt(r);
      }
    }
  }

  /** Rounds of the loop until it is done, gives up or the rounds considered are over. */
  method Automatic(s: Settings, start: nat, rounds: seq<Round>)
    returns (outcome: Outcome, total: nat, ghost heads: seq<Head>, ghost folders: seq<Folder>)
    requires ValidSettings(s)
    ensures Ran(s, start, rounds, heads, outcome) && Thinned(s, rounds, heads, folders)
    ensures total == heads[|heads| - 1].completed
    ensures outcome.Done? <==> s.maxBackups > 0 && total == s.maxBackups
  {
    var loop := new Automation(s, start);
    heads, folders := [loop.View()], [loop.folder];
    outcome := Going;
    var k: nat := 0;
    while k < |rounds| && outcome.Going?
      invariant k <= |rounds| && |heads| == |folders| == k + 1 && fresh(loop) && loop.s == s
      invariant heads[k] == loop.View() && folders[k] == loop.folder && heads[0] == Head(start, 0, 0, false, [], 0, 0, 0)
      invariant Chained(s, rounds, heads, outcome) && Thinned(s, rounds, heads, folders)
      invariant outcome != GaveUp ==> Sound(heads[k])
      invariant s.maxBackups > 0 ==> loop.completed <= s.maxBackups
      invariant outcome.Done? <==> s.maxBackups > 0 && loop.completed == s.maxBackups
    {
      outcome := loop.Iterate(rounds[k]);
      ChainedOn(s, rounds, heads, loop.View(), outcome);
      ThinnedOn(s, rounds, heads, folders, loop.View(), loop.folder);
      heads, folders := heads + [loop.View()], folders + [loop.folder];
      k := k + 1;
    }
    total := loop.completed;
  }
}
