/** The greedy encoder with one step of lazy evaluation, and the hash chains it searches. */
module Lz77Encoder {
  import opened Bytes
  import opened Lz77Format

  const BlockSize := 1024 * 1024
  const MaxMatch := 0xFFFF
  const MaxChain := 64
  const HashSize := 0x1_0000
  const NoPosition := 0xFFFF_FFFF

  function Hash(a: byte, b: byte, c: byte): (h: nat)
    ensures h < HashSize
  {
    var value := a as int * 0x1_0000 + b as int * 0x100 + c as int;
    value * 2654435761 % 0x1_0000_0000 / 0x1_0000
  }

  function HashAt(data: seq<byte>, p: nat): (h: nat)
    requires p + MinMatch <= |data|
    ensures h < HashSize
  {
    Hash(data[p], data[p + 1], data[p + 2])
  }

  // ---- what is searched for, without chains ----

  /** Every inserted position has three readable bytes. */
  predicate Inserted(data: seq<byte>, inserted: seq<nat>)
  {
    forall i :: 0 <= i < |inserted| ==> inserted[i] + MinMatch <= |data|
  }

  /** The inserted positions with hash `h`, the latest first. */
  function Candidates(data: seq<byte>, inserted: seq<nat>, h: nat): seq<nat>
    requires Inserted(data, inserted)
  {
    if inserted == [] then []
    else
      var front, last := inserted[..|inserted| - 1], inserted[|inserted| - 1];
      if HashAt(data, last) == h then [last] + Candidates(data, front, h) else Candidates(data, front, h)
  }

  /** How far the bytes from `c` on and from `p` on agree, up to `limit`. */
  function MatchLength(data: seq<byte>, c: nat, p: nat, limit: nat): (n: nat)
    requires c <= p && p + limit <= |data|
    ensures n <= limit
    decreases limit
  {
    if limit == 0 || data[c] != data[p] then 0 else 1 + MatchLength(data, c + 1, p + 1, limit - 1)
  }

  lemma {:induction false} MatchLengthMeaning(data: seq<byte>, c: nat, p: nat, limit: nat)
    requires c <= p && p + limit <= |data|
    ensures var n := MatchLength(data, c, p, limit);
            data[c..c + n] == data[p..p + n] && (n < limit ==> data[c + n] != data[p + n])
    decreases limit
  {
    if limit > 0 && data[c] == data[p] {
      MatchLengthMeaning(data, c + 1, p + 1, limit - 1);
      var n := 1 + MatchLength(data, c + 1, p + 1, limit - 1);
      assert data[c..c + n] == [data[c]] + data[c + 1..c + n];
      assert data[p..p + n] == [data[p]] + data[p + 1..p + n];
    }
  }

  datatype Found = Found(length: nat, distance: nat)

  function Limit(data: seq<byte>, p: nat): nat
    requires p <= |data|
  {
    Min(|data| - p, MaxMatch)
  }

  /** A candidate counts when it lies before `p` and within the window. */
  predicate Reachable(c: nat, p: nat)
  {
    c < p && p - c <= MaxDistance
  }

  /** The better of a candidate's match and the best so far. */
  function Better(data: seq<byte>, p: nat, c: nat, best: Found): (r: Found)
    requires p <= |data|
    ensures best.length <= r.length
    ensures Reachable(c, p) ==> MatchLength(data, c, p, Limit(data, p)) <= r.length
  {
    if Reachable(c, p) && MatchLength(data, c, p, Limit(data, p)) > best.length
    then Found(MatchLength(data, c, p, Limit(data, p)), p - c) else best
  }

  /** The first of the longest matches among the candidates; a match of full length ends the walk. */
  function Best(data: seq<byte>, p: nat, candidates: seq<nat>, best: Found): (r: Found)
    requires p <= |data|
    ensures best.length <= r.length
    decreases |candidates|
  {
    if candidates == [] then best
    else
      var better := Better(data, p, candidates[0], best);
      if better.length > best.length && better.length == Limit(data, p) then better
      else Best(data, p, candidates[1..], better)
  }

  function Search(data: seq<byte>, inserted: seq<nat>, p: nat): Found
    requires Inserted(data, inserted) && p + MinMatch <= |data|
  {
    var candidates := Candidates(data, inserted, HashAt(data, p));
    Best(data, p, candidates[..Min(|candidates|, MaxChain)], Found(0, 0))
  }

  /** The match to emit at `p`; none when it is too short or the next position starts a strictly longer one. */
  function Chosen(data: seq<byte>, inserted: seq<nat>, p: nat): (r: Option<Found>)
    ensures r.Some? ==> p + MinMatch <= |data| && r.value.length >= MinMatch && IsMatch(data, p, r.value)
  {
    if !Inserted(data, inserted) || p + MinMatch > |data| then None
    else
      var found := Search(data, inserted, p);
      if found.length < MinMatch then None
      else if p + 1 + MinMatch <= |data| && Search(data, inserted, p + 1).length > found.length then None
      else
        SearchFits(data, inserted, p);
        Some(found)
  }

  type Chooser = (seq<nat>, nat) -> Option<Found>

  /** A way of choosing matches that only chooses real ones. */
  ghost predicate Sound(data: seq<byte>, choose: Chooser)
  {
    forall inserted, p: nat :: choose(inserted, p).Some? ==>
      var found := choose(inserted, p).value;
      p + MinMatch <= |data| && found.length >= MinMatch && IsMatch(data, p, found)
  }

  /** The steps the encoder emits from `position` on, with literals pending since `start`. */
  function Parse(data: seq<byte>, choose: Chooser, inserted: seq<nat>, start: nat, position: nat): seq<Step>
    requires start <= position
    decreases |data| - position
  {
    if position + MinMatch > |data| then
      if start < |data| then [Last(data[start..], 0)] else []
    else
      var more := inserted + [position];
      var chosen := choose(more, position);
      if chosen.None? then Parse(data, choose, more, start, position + 1)
      else if chosen.value.length == 0 then []
      else
        var next := position + chosen.value.length;
        [Match(data[start..position], chosen.value.length, chosen.value.distance)] + Parse(data, choose, more, next, next)
  }

  function LazyChoice(data: seq<byte>): Chooser
  {
    (inserted, p: nat) => Chosen(data, inserted, p)
  }

  /** The encoder's steps for a block. */
  function Steps(data: seq<byte>): seq<Step>
  {
    Parse(data, LazyChoice(data), [], 0, 0)
  }

  // ---- matches are real ----

  /** What a search result promises: bytes that stand `distance` back, whatever the hashes were. */
  predicate IsMatch(data: seq<byte>, p: nat, found: Found)
  {
    found.length > 0 ==>
      && 1 <= found.distance <= MaxDistance && found.distance <= p && p + found.length <= |data| && found.length <= MaxMatch
      && data[p - found.distance..p - found.distance + found.length] == data[p..p + found.length]
  }

  lemma BetterIsMatch(data: seq<byte>, p: nat, c: nat, best: Found)
    requires p <= |data| && IsMatch(data, p, best)
    ensures IsMatch(data, p, Better(data, p, c, best))
  {
    if Reachable(c, p) {
      MatchLengthMeaning(data, c, p, Limit(data, p));
      assert p - (p - c) == c;
    }
  }

  lemma {:induction false} BestIsMatch(data: seq<byte>, p: nat, candidates: seq<nat>, best: Found)
    requires p <= |data| && IsMatch(data, p, best)
    ensures IsMatch(data, p, Best(data, p, candidates, best))
    decreases |candidates|
  {
    if candidates != [] {
      BetterIsMatch(data, p, candidates[0], best);
      BestIsMatch(data, p, candidates[1..], Better(data, p, candidates[0], best));
    }
  }

  /** No candidate that was looked at matches further than the result. */
  lemma {:induction false} BestIsLongest(data: seq<byte>, p: nat, candidates: seq<nat>, best: Found, k: nat)
    requires p <= |data| && k < |candidates| && Reachable(candidates[k], p)
    ensures MatchLength(data, candidates[k], p, Limit(data, p)) <= Best(data, p, candidates, best).length
    decreases |candidates|
  {
    if k > 0 {
      assert candidates[1..][k - 1] == candidates[k];
      BestIsLongest(data, p, candidates[1..], Better(data, p, candidates[0], best), k - 1);
    }
  }

  lemma SearchFits(data: seq<byte>, inserted: seq<nat>, p: nat)
    requires Inserted(data, inserted) && p + MinMatch <= |data|
    ensures IsMatch(data, p, Search(data, inserted, p))
  {
    var candidates := Candidates(data, inserted, HashAt(data, p));
    BestIsMatch(data, p, candidates[..Min(|candidates|, MaxChain)], Found(0, 0));
  }

  /**
   The search returns a longest match among the latest 64 inserted positions with the same hash that
   lie before `p` and within the window.
   */
  lemma SearchIsLongest(data: seq<byte>, inserted: seq<nat>, p: nat, k: nat)
    requires Inserted(data, inserted) && p + MinMatch <= |data|
    requires var c := Candidates(data, inserted, HashAt(data, p)); k < |c| && k < MaxChain && Reachable(c[k], p)
    ensures MatchLength(data, Candidates(data, inserted, HashAt(data, p))[k], p, Limit(data, p))
              <= Search(data, inserted, p).length
  {
    var candidates := Candidates(data, inserted, HashAt(data, p));
    BestIsLongest(data, p, candidates[..Min(|candidates|, MaxChain)], Found(0, 0), k);
  }

  // ---- when a match starts ----

  /** Candidate `k` of a position: among the latest 64 with its hash, before it and within the window. */
  predicate Admissible(data: seq<byte>, inserted: seq<nat>, p: nat, k: nat)
    requires Inserted(data, inserted) && p + MinMatch <= |data|
  {
    var c := Candidates(data, inserted, HashAt(data, p));
    k < |c| && k < MaxChain && Reachable(c[k], p)
  }

  /** How far an admissible candidate agrees with the bytes at the position. */
  function Agreement(data: seq<byte>, inserted: seq<nat>, p: nat, k: nat): nat
    requires Inserted(data, inserted) && p + MinMatch <= |data| && Admissible(data, inserted, p, k)
  {
    MatchLength(data, Candidates(data, inserted, HashAt(data, p))[k], p, Limit(data, p))
  }

  /** `k` is the latest of the candidates that agree furthest, for `n` bytes. */
  ghost predicate Furthest(data: seq<byte>, inserted: seq<nat>, p: nat, k: nat, n: nat)
    requires Inserted(data, inserted) && p + MinMatch <= |data|
  {
    && Admissible(data, inserted, p, k) && Agreement(data, inserted, p, k) == n
    && NoneBeyond(data, inserted, p, n)
    && forall j :: 0 <= j < k && Admissible(data, inserted, p, j) ==> Agreement(data, inserted, p, j) < n
  }

  ghost predicate NoneBeyond(data: seq<byte>, inserted: seq<nat>, p: nat, n: nat)
    requires Inserted(data, inserted) && p + MinMatch <= |data|
  {
    forall k: nat :: Admissible(data, inserted, p, k) ==> Agreement(data, inserted, p, k) <= n
  }

  /**
   A match starts at `p`: a candidate agrees for at least three bytes, and none of the next position, where there is
   one, agrees further than the furthest of this one.
   */
  ghost predicate Starts(data: seq<byte>, inserted: seq<nat>, p: nat, k: nat, n: nat)
    requires Inserted(data, inserted) && p + MinMatch <= |data|
  {
    n >= MinMatch && Furthest(data, inserted, p, k, n) && (p + 1 + MinMatch <= |data| ==> NoneBeyond(data, inserted, p + 1, n))
  }

  ghost predicate MatchStarts(data: seq<byte>, inserted: seq<nat>, p: nat)
    requires Inserted(data, inserted) && p + MinMatch <= |data|
  {
    exists k, n: nat :: Starts(data, inserted, p, k, n)
  }

  /** The result of the walk is the best so far, or the first candidate that agrees further than all before it and it. */
  lemma {:induction false} BestIsFirst(data: seq<byte>, p: nat, candidates: seq<nat>, best: Found) returns (k: nat)
    requires p <= |data|
    ensures var r := Best(data, p, candidates, best);
            if r.length == best.length then r == best
            else && k < |candidates| && Reachable(candidates[k], p)
                 && r == Found(MatchLength(data, candidates[k], p, Limit(data, p)), p - candidates[k])
                 && (forall j :: 0 <= j < k && Reachable(candidates[j], p) ==>
                       MatchLength(data, candidates[j], p, Limit(data, p)) < r.length)
    decreases |candidates|
  {
    k := 0;
    if candidates != [] {
      var better := Better(data, p, candidates[0], best);
      if !(better.length > best.length && better.length == Limit(data, p)) {
        var later := BestIsFirst(data, p, candidates[1..], better);
        if Best(data, p, candidates[1..], better).length > better.length {
          k := later + 1;
          forall j | 0 <= j < k && Reachable(candidates[j], p)
            ensures MatchLength(data, candidates[j], p, Limit(data, p)) < Best(data, p, candidates, best).length
          {
            assert j > 0 ==> candidates[1..][j - 1] == candidates[j];
          }
        }
      }
    }
  }

  lemma SearchIsFurthest(data: seq<byte>, inserted: seq<nat>, p: nat) returns (k: nat)
    requires Inserted(data, inserted) && p + MinMatch <= |data|
    ensures NoneBeyond(data, inserted, p, Search(data, inserted, p).length)
    ensures var found := Search(data, inserted, p);
            found.length > 0 ==>
              && Furthest(data, inserted, p, k, found.length)
              && found.distance == p - Candidates(data, inserted, HashAt(data, p))[k]
  {
    var all := Candidates(data, inserted, HashAt(data, p));
    var looked := all[..Min(|all|, MaxChain)];
    k := BestIsFirst(data, p, looked, Found(0, 0));
    forall j: nat | Admissible(data, inserted, p, j)
      ensures Agreement(data, inserted, p, j) <= Search(data, inserted, p).length
    {
      SearchIsLongest(data, inserted, p, j);
    }
  }

  /** A match is chosen exactly where one starts, and it is the furthest one. */
  lemma ChosenMeaning(data: seq<byte>, inserted: seq<nat>, p: nat) returns (k: nat)
    requires Inserted(data, inserted) && p + MinMatch <= |data|
    ensures var r := Chosen(data, inserted, p);
            if r.Some? then Starts(data, inserted, p, k, r.value.length)
                            && r.value.distance == p - Candidates(data, inserted, HashAt(data, p))[k]
            else !MatchStarts(data, inserted, p)
  {
    k := SearchIsFurthest(data, inserted, p);
    var found := Search(data, inserted, p);
    if p + 1 + MinMatch <= |data| {
      var later := SearchIsFurthest(data, inserted, p + 1);
    }
    forall m, n: nat | Starts(data, inserted, p, m, n) ensures n == found.length {
      assert Agreement(data, inserted, p, m) <= found.length;
    }
  }

  /**
   The law of the encoder at every position it reaches: where a match starts, the pending literals and the furthest match
   are emitted and encoding goes on behind it; anywhere else the byte joins the literals.
   */
  lemma ParseLaw(data: seq<byte>, inserted: seq<nat>, start: nat, position: nat) returns (k: nat, n: nat)
    requires Inserted(data, inserted) && start <= position && position + MinMatch <= |data|
    ensures var more, choose := inserted + [position], LazyChoice(data);
            && Inserted(data, more)
            && if MatchStarts(data, more, position)
               then && Starts(data, more, position, k, n)
                    && Parse(data, choose, inserted, start, position) ==
                         [Match(data[start..position], n, position - Candidates(data, more, HashAt(data, position))[k])]
                         + Parse(data, choose, more, position + n, position + n)
               else Parse(data, choose, inserted, start, position) == Parse(data, choose, more, start, position + 1)
  {
    var more := inserted + [position];
    k := ChosenMeaning(data, more, position);
    n := 0;
    ParseNext(data, LazyChoice(data), inserted, start, position);
    var chosen := Chosen(data, more, position);
    if chosen.Some? {
      n := chosen.value.length;
    }
  }

  lemma {:induction false} EqualBytesMatch(data: seq<byte>, c: nat, p: nat, limit: nat)
    requires c <= p && p + limit <= |data| && forall i :: 0 <= i < |data| ==> data[i] == data[0]
    ensures MatchLength(data, c, p, limit) == limit
    decreases limit
  {
    if limit > 0 {
      EqualBytesMatch(data, c + 1, p + 1, limit - 1);
    }
  }

  lemma EqualBytesCandidates(data: seq<byte>)
    requires |data| >= 4 && forall i :: 0 <= i < |data| ==> data[i] == data[0]
    ensures Inserted(data, [0]) && Inserted(data, [0, 1])
    ensures Candidates(data, [0], HashAt(data, 0)) == [0]
    ensures Candidates(data, [0, 1], HashAt(data, 1)) == [1, 0] && HashAt(data, 1) == HashAt(data, 0)
  {
    assert HashAt(data, 1) == HashAt(data, 0);
    assert [0, 1][..1] == [0] && [0][..0] == [];
    assert Candidates(data, [], HashAt(data, 0)) == [];
    assert Candidates(data, [0], HashAt(data, 0)) == [0];
  }

  lemma EqualBytesFirst(data: seq<byte>)
    requires |data| >= 4 && forall i :: 0 <= i < |data| ==> data[i] == data[0]
    ensures Chosen(data, [0], 0).None?
  {
    EqualBytesCandidates(data);
    var k := SearchIsFurthest(data, [0], 0);
  }

  lemma EqualBytesSecond(data: seq<byte>)
    requires 4 <= |data| <= MaxMatch && forall i :: 0 <= i < |data| ==> data[i] == data[0]
    ensures Chosen(data, [0, 1], 1) == Some(Found(|data| - 1, 1))
  {
    var n, c := |data| - 1, Candidates(data, [0, 1], HashAt(data, 1));
    EqualBytesCandidates(data);
    EqualBytesMatch(data, 0, 1, n);
    var k := SearchIsFurthest(data, [0, 1], 1);
    assert Admissible(data, [0, 1], 1, 1) && Agreement(data, [0, 1], 1, 1) == n && !Admissible(data, [0, 1], 1, 0);
    SearchFits(data, [0, 1], 1);
    if 2 + MinMatch <= |data| {
      SearchFits(data, [0, 1], 2);
    }
  }

  /** A block of equal bytes becomes one literal and one match. */
  lemma EqualBytesSteps(data: seq<byte>)
    requires 4 <= |data| <= MaxMatch && forall i :: 0 <= i < |data| ==> data[i] == data[0]
    ensures Steps(data) == [Match([data[0]], |data| - 1, 1)]
  {
    var choose, n := LazyChoice(data), |data|;
    EqualBytesFirst(data);
    EqualBytesSecond(data);
    assert [] + [0] == [0] && [0] + [1] == [0, 1] && data[0..1] == [data[0]];
    ParseNext(data, choose, [], 0, 0);
    ParseNext(data, choose, [0], 0, 1);
    ParseDone(data, choose, [0, 1]);
  }

  lemma ParseDone(data: seq<byte>, choose: Chooser, inserted: seq<nat>)
    ensures Parse(data, choose, inserted, |data|, |data|) == []
  {
  }

  // ---- the steps denote the data ----

  /** An overlapping copy of matching bytes continues the data. */
  lemma {:induction false} CopyContinues(data: seq<byte>, p: nat, distance: nat, n: nat)
    requires 1 <= distance <= p && p + n <= |data|
    requires data[p - distance..p - distance + n] == data[p..p + n]
    ensures Copy(data[..p], distance, n) == data[..p + n]
    decreases n
  {
    if n > 0 {
      var from := p - distance;
      assert data[from..from + n][0] == data[from] && data[p..p + n][0] == data[p];
      assert data[..p] + [data[from]] == data[..p + 1];
      assert data[from + 1..from + n] == data[from..from + n][1..] && data[p + 1..p + n] == data[p..p + n][1..];
      CopyContinues(data, p + 1, distance, n - 1);
    }
  }

  /** The steps continue the data from `start` to its end. */
  ghost predicate Continues(data: seq<byte>, start: nat, steps: seq<Step>)
    requires start <= |data|
  {
    Valid(steps, data[..start]) && Expand(steps, data[..start]) == data
  }

  lemma LastContinues(data: seq<byte>, start: nat)
    requires start < |data|
    ensures Continues(data, start, [Last(data[start..], 0)])
  {
    var last := Last(data[start..], 0);
    assert [last][1..] == [] && data[..start] + data[start..] == data;
    assert Expand([], data) == data;
  }

  lemma MatchContinues(data: seq<byte>, start: nat, position: nat, found: Found, rest: seq<Step>)
    requires start <= position && position + MinMatch <= |data| && IsMatch(data, position, found) && found.length >= MinMatch
    requires Continues(data, position + found.length, rest)
    ensures Continues(data, start, [Match(data[start..position], found.length, found.distance)] + rest)
  {
    var step := Match(data[start..position], found.length, found.distance);
    assert data[..start] + data[start..position] == data[..position];
    CopyContinues(data, position, found.distance, found.length);
    assert Apply(data[..start], step) == data[..position + found.length];
    Front(step, rest, data[..start]);
  }

  lemma Front(step: Step, rest: seq<Step>, out: seq<byte>)
    requires step.Match? && Fits(step, |out|, true) && Valid(rest, Apply(out, step))
    ensures Valid([step] + rest, out) && Expand([step] + rest, out) == Expand(rest, Apply(out, step))
  {
    assert ([step] + rest)[1..] == rest;
  }

  lemma ParseEnds(data: seq<byte>, choose: Chooser, inserted: seq<nat>, start: nat, position: nat)
    requires start <= position <= |data| < position + MinMatch
    ensures Continues(data, start, Parse(data, choose, inserted, start, position))
  {
    if start < |data| {
      LastContinues(data, start);
    } else {
      assert data[..start] == data;
    }
  }

  lemma ParseNext(data: seq<byte>, choose: Chooser, inserted: seq<nat>, start: nat, position: nat)
    requires Sound(data, choose) && start <= position && position + MinMatch <= |data|
    ensures var more := inserted + [position]; var chosen := choose(more, position);
            Parse(data, choose, inserted, start, position) ==
              if chosen.None? then Parse(data, choose, more, start, position + 1)
              else var next := position + chosen.value.length;
                   [Match(data[start..position], chosen.value.length, chosen.value.distance)]
                     + Parse(data, choose, more, next, next)
  {
  }

  lemma ChosenIsMatch(data: seq<byte>, choose: Chooser, inserted: seq<nat>, p: nat)
    requires Sound(data, choose) && choose(inserted, p).Some?
    ensures var found := choose(inserted, p).value;
            p + MinMatch <= |data| && found.length >= MinMatch && IsMatch(data, p, found) && p + found.length <= |data|
  {
  }

  /** Whatever matches are chosen, as long as they are real, the steps denote the data. */
  lemma {:induction false} ParseContinues(data: seq<byte>, choose: Chooser, inserted: seq<nat>, start: nat, position: nat)
    requires Sound(data, choose) && start <= position <= |data|
    ensures Continues(data, start, Parse(data, choose, inserted, start, position))
    decreases |data| - position
  {
    if position + MinMatch > |data| {
      ParseEnds(data, choose, inserted, start, position);
    } else {
      ParseNext(data, choose, inserted, start, position);
      var more := inserted + [position];
      if choose(more, position).None? {
        ParseContinues(data, choose, more, start, position + 1);
      } else {
        var found := choose(more, position).value;
        var next := position + found.length;
        ChosenIsMatch(data, choose, more, position);
        ParseContinues(data, choose, more, next, next);
        MatchContinues(data, start, position, found, Parse(data, choose, more, next, next));
      }
    }
  }

  /** Decoding an encoded block returns it. */
  lemma BlockRoundTrip(data: seq<byte>)
    ensures Valid(Steps(data), []) && Printable(Steps(data))
    ensures Decode(BlockBytes(Steps(data)), [], |data|) == Some(data)
  {
    assert data[..0] == [];
    assert Sound(data, LazyChoice(data));
    ParseContinues(data, LazyChoice(data), [], 0, 0);
    ValidIsPrintable(Steps(data), []);
    DecodePrinted(Steps(data), [], |data|);
  }

  // ---- the hash chains ----

  /** Following `previous` from `c` on visits exactly `list`. */
  ghost predicate Follows(previous: seq<nat>, c: nat, list: seq<nat>)
    decreases |list|
  {
    if list == [] then c == NoPosition
    else c == list[0] && c != NoPosition && c < |previous| && Follows(previous, previous[c], list[1..])
  }

  /** The chain arrays hold the candidate list of every hash. */
  ghost predicate Chained(data: seq<byte>, inserted: seq<nat>, head: seq<nat>, previous: seq<nat>)
  {
    && |head| == HashSize && Inserted(data, inserted)
    && forall h :: 0 <= h < HashSize ==> Follows(previous, head[h], Candidates(data, inserted, h))
  }

  lemma {:induction false} FollowsElsewhere(previous: seq<nat>, c: nat, list: seq<nat>, p: nat, x: nat)
    requires Follows(previous, c, list) && p < |previous| && p !in list
    ensures Follows(previous[p := x], c, list)
    decreases |list|
  {
    if list != [] {
      FollowsElsewhere(previous, previous[c], list[1..], p, x);
    }
  }

  lemma {:induction false} CandidatesInserted(data: seq<byte>, inserted: seq<nat>, h: nat, c: nat)
    requires Inserted(data, inserted) && c in Candidates(data, inserted, h)
    ensures c in inserted
  {
    if inserted != [] && c != inserted[|inserted| - 1] {
      CandidatesInserted(data, inserted[..|inserted| - 1], h, c);
    }
  }

  /** Candidates are visited from the latest insertion to the earliest. */
  lemma {:induction false} CandidatesDecrease(data: seq<byte>, inserted: seq<nat>, h: nat)
    requires Inserted(data, inserted) && Ascending(inserted)
    ensures forall i, j :: 0 <= i < j < |Candidates(data, inserted, h)| ==>
              Candidates(data, inserted, h)[j] < Candidates(data, inserted, h)[i]
  {
    if inserted != [] {
      var front := inserted[..|inserted| - 1];
      CandidatesDecrease(data, front, h);
      var tail := Candidates(data, front, h);
      forall j | 0 <= j < |tail| ensures tail[j] < inserted[|inserted| - 1] {
        CandidatesInserted(data, front, h, tail[j]);
      }
    }
  }

  predicate Ascending(inserted: seq<nat>)
  {
    forall i, j :: 0 <= i < j < |inserted| ==> inserted[i] < inserted[j]
  }

  lemma InsertChained(data: seq<byte>, inserted: seq<nat>, head: seq<nat>, previous: seq<nat>, p: nat)
    requires Chained(data, inserted, head, previous) && |previous| == |data| < NoPosition
    requires p + MinMatch <= |data| && p !in inserted
    ensures var h := HashAt(data, p); Chained(data, inserted + [p], head[h := p], previous[p := head[h]])
  {
    var h := HashAt(data, p);
    var more, previous' := inserted + [p], previous[p := head[h]];
    assert more[..|more| - 1] == inserted;
    forall g | 0 <= g < HashSize ensures Follows(previous', head[h := p][g], Candidates(data, more, g)) {
      var list := Candidates(data, inserted, g);
      if p in list { CandidatesInserted(data, inserted, g, p); }
      FollowsElsewhere(previous, head[g], list, p, head[h]);
      if g == h {
        assert ([p] + list)[1..] == list;
      }
    }
  }

  /** One step of a walk that may still look at `n` candidates after this one. */
  lemma WalkOn(data: seq<byte>, p: nat, list: seq<nat>, n: nat, best: Found)
    requires p <= |data| && list != []
    ensures var better := Better(data, p, list[0], best);
            Best(data, p, list[..Min(|list|, n + 1)], best) ==
              if better.length > best.length && better.length == Limit(data, p) then better
              else Best(data, p, list[1..][..Min(|list| - 1, n)], better)
  {
    assert list[..Min(|list|, n + 1)][1..] == list[1..][..Min(|list| - 1, n)];
  }

  /** Halfway through a block: the bytes written and those of the steps to come make up the whole. */
  ghost predicate Emitting(data: seq<byte>, choose: Chooser, inserted: seq<nat>, start: nat, position: nat, steps: seq<Step>,
                           output: seq<byte>, whole: seq<byte>)
  {
    && start <= position <= |data| && Printable(steps) && Sound(data, choose)
    && steps == Parse(data, choose, inserted, start, position)
    && output + BlockBytes(steps) == whole
  }

  lemma StartEmitting(data: seq<byte>, start: nat, none: seq<nat>, output: seq<byte>)
    requires start == 0 && none == [] && output == [] && Printable(Steps(data))
    ensures Emitting(data, LazyChoice(data), none, start, start, Steps(data), output, BlockBytes(Steps(data)))
  {
    assert output + BlockBytes(Steps(data)) == BlockBytes(Steps(data));
    assert Sound(data, LazyChoice(data));
  }

  lemma SkipPosition(data: seq<byte>, choose: Chooser, inserted: seq<nat>, start: nat, position: nat, steps: seq<Step>,
                     output: seq<byte>, whole: seq<byte>)
    requires Emitting(data, choose, inserted, start, position, steps, output, whole) && position + MinMatch <= |data|
    requires choose(inserted + [position], position).None?
    ensures Emitting(data, choose, inserted + [position], start, position + 1, steps, output, whole)
  {
    ParseNext(data, choose, inserted, start, position);
  }

  lemma EmitMatch(data: seq<byte>, choose: Chooser, inserted: seq<nat>, start: nat, position: nat, steps: seq<Step>,
                  output: seq<byte>, whole: seq<byte>, found: Found)
    requires Emitting(data, choose, inserted, start, position, steps, output, whole) && position + MinMatch <= |data|
    requires choose(inserted + [position], position) == Some(found)
    ensures steps != [] && MinMatch <= found.length && found.distance <= MaxDistance
    ensures var next := position + found.length;
            Emitting(data, choose, inserted + [position], next, next, steps[1..],
                     output + StepBytes(Match(data[start..position], found.length, found.distance)), whole)
  {
    var next, step := position + found.length, Match(data[start..position], found.length, found.distance);
    ChosenIsMatch(data, choose, inserted + [position], position);
    ParseNext(data, choose, inserted, start, position);
    Halves([step], Parse(data, choose, inserted + [position], next, next));
    FirstStep(steps);
    Associative(output, StepBytes(step), BlockBytes(steps[1..]));
  }

  /** One round of the main loop keeps the account. */
  lemma Advance(data: seq<byte>, choose: Chooser, inserted: seq<nat>, start: nat, position: nat, steps: seq<Step>,
                output: seq<byte>, whole: seq<byte>, chosen: Option<Found>,
                start': nat, position': nat, steps': seq<Step>, output': seq<byte>)
    requires Emitting(data, choose, inserted, start, position, steps, output, whole) && position + MinMatch <= |data|
    requires chosen == choose(inserted + [position], position)
    requires chosen.Some? ==> chosen.value.length >= MinMatch && chosen.value.distance <= MaxDistance
    requires if chosen.None? then start' == start && position' == position + 1 && steps' == steps && output' == output
             else start' == position' == position + chosen.value.length && steps' == Tail(steps)
                  && output' == output + StepBytes(Match(data[start..position], chosen.value.length, chosen.value.distance))
    ensures Emitting(data, choose, inserted + [position], start', position', steps', output', whole)
  {
    if chosen.None? {
      SkipPosition(data, choose, inserted, start, position, steps, output, whole);
    } else {
      EmitMatch(data, choose, inserted, start, position, steps, output, whole, chosen.value);
    }
  }

  ghost function Tail(steps: seq<Step>): seq<Step>
  {
    if steps == [] then [] else steps[1..]
  }

  lemma EmitLast(data: seq<byte>, choose: Chooser, inserted: seq<nat>, start: nat, position: nat, steps: seq<Step>,
                 output: seq<byte>, whole: seq<byte>)
    requires Emitting(data, choose, inserted, start, position, steps, output, whole) && position + MinMatch > |data|
    ensures whole == if start < |data| then output + StepBytes(Last(data[start..], 0)) else output
  {
    if start < |data| {
      OneStep(Last(data[start..], 0));
    } else {
      assert BlockBytes([]) == [] && output + [] == output;
    }
  }

  function HeadBytes(literals: seq<byte>, nibble: nat): seq<byte>
    requires nibble < 16
  {
    [Token(|literals|, nibble)] + LengthBytes(|literals|) + literals
  }

  lemma AppendedHead(start: seq<byte>, literals: seq<byte>, nibble: nat)
    requires nibble < 16
    ensures start + [Token(|literals|, nibble)] + LengthBytes(|literals|) + literals == start + HeadBytes(literals, nibble)
  {
  }

  lemma AppendedMatch(start: seq<byte>, literals: seq<byte>, length: nat, distance: nat)
    requires length >= MinMatch && distance <= MaxDistance
    ensures start + HeadBytes(literals, Min(length - MinMatch, 15)) + LengthBytes(length - MinMatch) + [distance % 256] + [distance / 256]
              == start + StepBytes(Match(literals, length, distance))
  {
    var head, tail := HeadBytes(literals, Min(length - MinMatch, 15)), LengthBytes(length - MinMatch);
    assert StepBytes(Match(literals, length, distance)) == head + (tail + [distance % 256, distance / 256]);
  }

  lemma FirstStep(steps: seq<Step>)
    requires steps != [] && Printable(steps)
    ensures Printable(steps[1..]) && BlockBytes(steps) == StepBytes(steps[0]) + BlockBytes(steps[1..])
  {
  }

  lemma ShortSteps(data: seq<byte>)
    requires |data| < MinMatch
    requires data != []
    ensures Printable(Steps(data)) && BlockBytes(Steps(data)) == StepBytes(Last(data, 0))
  {
    var last := Last(data, 0);
    assert Steps(data) == [last] by { assert data[0..] == data; }
    OneStep(last);
  }

  lemma OneStep(step: Step)
    requires PrintableStep(step)
    ensures Printable([step]) && BlockBytes([step]) == StepBytes(step)
  {
    assert [step][1..] == [] && StepBytes(step) + [] == StepBytes(step);
  }

  // ---- the encoder in the program's own form ----

  class Encoder {
    var output: seq<byte>
    var previous: array<nat>
    const head: array<nat>

    /** The chains hold the inserted positions of `data`. */
    ghost predicate Ready(data: seq<byte>, inserted: seq<nat>)
      reads this`previous, head, previous
    {
      previous.Length == |data| < NoPosition && head != previous && Chained(data, inserted, head[..], previous[..])
    }

    constructor ()
      ensures head.Length == HashSize && fresh(head) && fresh(previous)
    {
      output := [];
      previous := new nat[0];
      head := new nat[HashSize](_ => NoPosition);
    }

    /** Encodes one block into `output`. */
    method Encode(data: seq<byte>)
      requires |data| <= BlockSize && head.Length == HashSize
      modifies this, head
      ensures fresh(previous) || previous == old(previous)
      ensures Printable(Steps(data))
      ensures output == if data == [] then StepBytes(Last(data, 0)) else BlockBytes(Steps(data))
    {
      output := [];
      BlockRoundTrip(data);
      if |data| < MinMatch {
        AppendStep(data, 0, 0);
        if data != [] { ShortSteps(data); }
        return;
      }
      forall i | 0 <= i < head.Length {
        head[i] := NoPosition;
      }
      previous := new nat[|data|];
      EncodeTokens(data);
    }

    method EncodeTokens(data: seq<byte>)
      requires MinMatch <= |data| < NoPosition && Printable(Steps(data)) && output == []
      requires Ready(data, [])
      modifies this`output, head, previous
      ensures output == BlockBytes(Steps(data))
    {
      ghost var choose, whole, steps := LazyChoice(data), BlockBytes(Steps(data)), Steps(data);
      ghost var inserted: seq<nat> := [];
      var literalStart: nat, position: nat := 0, 0;
      StartEmitting(data, literalStart, inserted, output);
      while position + MinMatch <= |data|
        invariant Emitting(data, choose, inserted, literalStart, position, steps, output, whole)
        invariant Ready(data, inserted)
        invariant forall i :: 0 <= i < |inserted| ==> inserted[i] < position
        decreases |data| - position
      {
        ghost var start, at, left, before := literalStart, position, steps, output;
        var chosen := EncodePosition(data, inserted, literalStart, position);
        if chosen.None? {
          position := position + 1;
        } else {
          position := position + chosen.value.length;
          literalStart := position;
          steps := Tail(steps);
        }
        Advance(data, choose, inserted, start, at, left, before, whole, chosen, literalStart, position, steps, output);
        inserted := inserted + [at];
      }
      EmitLast(data, choose, inserted, literalStart, position, steps, output, whole);
      if literalStart < |data| {
        AppendStep(data[literalStart..], 0, 0);
      }
    }

    /** One round of the main loop: insert the position, then skip it or emit a match. */
    method EncodePosition(data: seq<byte>, ghost inserted: seq<nat>, start: nat, position: nat) returns (chosen: Option<Found>)
      requires Ready(data, inserted) && start <= position && position + MinMatch <= |data| && position !in inserted
      modifies this`output, head, previous
      ensures Ready(data, inserted + [position])
      ensures chosen == LazyChoice(data)(inserted + [position], position)
      ensures chosen.Some? ==> chosen.value.length >= MinMatch && chosen.value.distance <= MaxDistance
      ensures chosen.None? ==> output == old(output)
      ensures chosen.Some? ==>
        output == old(output) + StepBytes(Match(data[start..position], chosen.value.length, chosen.value.distance))
    {
      Insert(data, position, inserted);
      chosen := Choose(data, position, inserted + [position]);
      if chosen.Some? {
        AppendStep(data[start..position], chosen.value.length, chosen.value.distance);
      }
    }

    /** Greedy with one lazy step: no match when it is too short or the next position starts a strictly longer one. */
    method Choose(data: seq<byte>, position: nat, ghost inserted: seq<nat>) returns (chosen: Option<Found>)
      requires Ready(data, inserted)
      requires position + MinMatch <= |data|
      ensures chosen == LazyChoice(data)(inserted, position)
    {
      var found := SearchChain(data, position, inserted);
      if found.length < MinMatch {
        return None;
      }
      if position + 1 + MinMatch <= |data| {
        var later := SearchChain(data, position + 1, inserted);
        if later.length > found.length {
          return None;
        }
      }
      return Some(found);
    }

    /** Appends the bytes of one sequence; length 0 means literals only. */
    method AppendStep(literals: seq<byte>, matchLength: nat, distance: nat)
      requires matchLength == 0 || (MinMatch <= matchLength && distance <= MaxDistance)
      modifies this`output
      ensures output == old(output)
        + StepBytes(if matchLength == 0 then Last(literals, 0) else Match(literals, matchLength, distance))
    {
      var matchCode := if matchLength == 0 then 0 else matchLength - MinMatch;
      ghost var start, nibble := output, Min(matchCode, 15);
      output := output + [Token(|literals|, Min(matchCode, 15))];
      AppendLength(|literals|);
      output := output + literals;
      AppendedHead(start, literals, nibble);
      if matchLength == 0 {
        assert HeadBytes(literals, 0) + [] == HeadBytes(literals, 0);
        return;
      }
      AppendLength(matchCode);
      output := output + [distance % 256] + [distance / 256];
      AppendedMatch(start, literals, matchLength, distance);
    }

    /** Extension bytes, only once the nibble is used up. */
    method AppendLength(count: nat)
      modifies this`output
      ensures output == old(output) + LengthBytes(count)
    {
      if count >= 15 {
        AppendExtension(count - 15);
      } else {
        assert output + [] == output;
      }
    }

    method AppendExtension(extra: nat)
      modifies this`output
      ensures output == old(output) + Extension(extra)
    {
      var left := extra;
      while left >= 255
        invariant output + Extension(left) == old(output) + Extension(extra)
      {
        Associative(output, [255], Extension(left - 255));
        output := output + [255];
        left := left - 255;
      }
      output := output + [left];
    }

    method Insert(data: seq<byte>, position: nat, ghost inserted: seq<nat>)
      requires Ready(data, inserted) && position + MinMatch <= |data| && position !in inserted
      modifies head, previous
      ensures Ready(data, inserted + [position])
    {
      InsertChained(data, inserted, head[..], previous[..], position);
      var hash := HashAt(data, position);
      previous[position] := head[hash];
      assert previous[..] == old(previous[..])[position := old(head[hash])];
      head[hash] := position;
      assert head[..] == old(head[..])[hash := position];
    }

    /** The chain walk: at most 64 candidates, those at or after the position skipped. */
    method SearchChain(data: seq<byte>, position: nat, ghost inserted: seq<nat>) returns (best: Found)
      requires Ready(data, inserted)
      requires position + MinMatch <= |data|
      ensures best == Search(data, inserted, position)
    {
      best := Found(0, 0);
      var candidate := head[HashAt(data, position)];
      var steps: nat := 0;
      ghost var list := Candidates(data, inserted, HashAt(data, position));
      ghost var goal := Best(data, position, list[..Min(|list|, MaxChain)], best);
      while candidate != NoPosition && steps < MaxChain
        invariant steps <= MaxChain && Follows(previous[..], candidate, list)
        invariant Best(data, position, list[..Min(|list|, MaxChain - steps)], best) == goal
        decreases MaxChain - steps
      {
        steps := steps + 1;
        WalkOn(data, position, list, MaxChain - steps, best);
        var better := Consider(data, candidate, position, best);
        if better.length > best.length && better.length == Min(|data| - position, MaxMatch) {
          return better;
        }
        best := better;
        candidate := previous[candidate];
        list := list[1..];
      }
      assert list[..Min(|list|, MaxChain - steps)] == [];
    }

    method Consider(data: seq<byte>, candidate: nat, position: nat, best: Found) returns (better: Found)
      requires position <= |data|
      ensures better == Better(data, position, candidate, best)
    {
      better := best;
      if candidate < position {
        var distance := position - candidate;
        if distance <= MaxDistance {
          var limit := Min(|data| - position, MaxMatch);
          var length := CommonLength(data, candidate, position, limit);
          if length > best.length {
            better := Found(length, distance);
          }
        }
      }
    }

    method CommonLength(data: seq<byte>, candidate: nat, position: nat, limit: nat) returns (length: nat)
      requires candidate <= position && position + limit <= |data|
      ensures length == MatchLength(data, candidate, position, limit)
    {
      length := 0;
      ghost var goal := MatchLength(data, candidate, position, limit);
      while length < limit && data[candidate + length] == data[position + length]
        invariant 0 <= length <= limit
        invariant goal == length + MatchLength(data, candidate + length, position + length, limit - length)
      {
        length := length + 1;
      }
    }
  }
}
