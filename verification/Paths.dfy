/** Archive paths as byte strings: ancestors, depth, safe components and the order of `std::string`. */
module Paths {
  import opened Bytes

  type Text = seq<byte>

  const Slash: byte := 47
  const Dot: byte := 46

  // ---- ancestors ----

  /** `a` is a proper ancestor of `p`: `p` goes on after `a` with a slash. */
  predicate IsAncestor(a: Text, p: Text)
  {
    |a| < |p| && p[..|a|] == a && p[|a|] == Slash
  }

  function Below(a: Text, name: Text): (p: Text)
    ensures IsAncestor(a, p)
  {
    a + [Slash] + name
  }

  lemma AncestorTransitive(a: Text, b: Text, c: Text)
    requires IsAncestor(a, b) && IsAncestor(b, c)
    ensures IsAncestor(a, c)
  {
    assert c[..|a|] == c[..|b|][..|a|];
  }

  /** Two ancestors of one path are the same or one is an ancestor of the other. */
  lemma AncestorsOrdered(a: Text, b: Text, p: Text)
    requires IsAncestor(a, p) && IsAncestor(b, p)
    ensures a == b || IsAncestor(a, b) || IsAncestor(b, a)
  {
    if |a| <= |b| {
      assert p[..|b|][..|a|] == p[..|a|];
      if |a| < |b| {
        assert b[|a|] == p[|a|];
      }
    } else {
      assert p[..|a|][..|b|] == p[..|b|];
      assert a[|b|] == p[|b|];
    }
  }

  function Slashes(p: Text): nat
  {
    if p == [] then 0 else Slashes(p[..|p| - 1]) + if p[|p| - 1] == Slash then 1 else 0
  }

  function Depth(p: Text): nat
  {
    Slashes(p) + 1
  }

  lemma {:induction false} SlashesPrefix(p: Text, i: nat)
    requires i < |p|
    ensures Slashes(p[..i]) + (if p[i] == Slash then 1 else 0) <= Slashes(p)
  {
    if i < |p| - 1 {
      SlashesPrefix(p[..|p| - 1], i);
      assert p[..|p| - 1][..i] == p[..i];
    }
  }

  /** An ancestor is less deep. */
  lemma AncestorDepth(a: Text, p: Text)
    requires IsAncestor(a, p)
    ensures Depth(a) < Depth(p)
  {
    SlashesPrefix(p, |a|);
  }

  // ---- components ----

  /** What stands between the slashes. */
  function Components(p: Text): (r: seq<Text>)
    ensures r != []
    decreases |p|
  {
    if p == [] then [[]]
    else
      var rest, last := Components(p[..|p| - 1]), p[|p| - 1];
      if last == Slash then rest + [[]] else rest[..|rest| - 1] + [rest[|rest| - 1] + [last]]
  }

  predicate SafeComponent(c: Text)
  {
    c != [] && c != [Dot] && c != [Dot, Dot] && 0 !in c
  }

  /** A path the archive accepts: relative, and every component names something inside. */
  predicate Safe(p: Text)
  {
    forall c :: c in Components(p) ==> SafeComponent(c)
  }

  predicate SafeName(name: Text)
  {
    SafeComponent(name) && Slash !in name
  }

  lemma {:induction false} ComponentsOfName(name: Text)
    requires Slash !in name
    ensures Components(name) == [name]
  {
    if name != [] {
      ComponentsOfName(name[..|name| - 1]);
      assert name == name[..|name| - 1] + [name[|name| - 1]];
    }
  }

  lemma {:induction false} ComponentsBelow(a: Text, name: Text)
    requires Slash !in name
    ensures Components(Below(a, name)) == Components(a) + [name]
    decreases |name|
  {
    var p := Below(a, name);
    if name == [] {
      assert p[..|p| - 1] == a;
    } else {
      var shorter, last := name[..|name| - 1], name[|name| - 1];
      ComponentsBelow(a, shorter);
      assert p[..|p| - 1] == Below(a, shorter);
      assert name == shorter + [last];
      assert Components(a) + [shorter + [last]] == (Components(a) + [shorter])[..|Components(a)|] + [shorter + [last]];
    }
  }

  lemma SafeNameIsSafe(name: Text)
    requires SafeName(name)
    ensures Safe(name)
  {
    ComponentsOfName(name);
  }

  lemma SafeBelow(a: Text, name: Text)
    requires Safe(a) && SafeName(name)
    ensures Safe(Below(a, name))
  {
    ComponentsBelow(a, name);
  }

  lemma {:induction false} LeadingSlash(p: Text)
    requires p != [] && p[0] == Slash
    ensures Components(p)[0] == []
  {
    if |p| > 1 {
      LeadingSlash(p[..|p| - 1]);
      LeadingComponent(p);
    }
  }

  /** Only the last component grows with the path. */
  lemma LeadingComponent(p: Text)
    requires |p| > 1 && p[0] == Slash
    ensures Components(p)[0] == Components(p[..|p| - 1])[0]
  {
    var shorter := p[..|p| - 1];
    MoreSlashes(shorter);
  }

  lemma {:induction false} MoreSlashes(p: Text)
    ensures |Components(p)| == Slashes(p) + 1
    ensures p != [] && p[0] == Slash ==> |Components(p)| > 1
  {
    if p != [] {
      MoreSlashes(p[..|p| - 1]);
    }
  }

  /** A safe path has a nonempty name before each of its slashes. */
  lemma SafeSlash(p: Text, k: nat)
    requires Safe(p) && k < |p| && p[k] == Slash
    ensures k > 0
  {
    assert Components(p)[0] in Components(p);
    if k == 0 {
      LeadingSlash(p);
    }
  }

  /** A byte that is no slash stands in some component. */
  lemma {:induction false} ByteInComponent(p: Text, b: byte)
    requires b in p && b != Slash
    ensures exists c :: c in Components(p) && b in c
  {
    var rest, last := Components(p[..|p| - 1]), p[|p| - 1];
    var all := Components(p);
    if b in p[..|p| - 1] {
      ByteInComponent(p[..|p| - 1], b);
      var k :| 0 <= k < |rest| && b in rest[k];
      assert k < |all| && b in all[k];
    } else {
      assert b == last && b in all[|all| - 1];
    }
  }

  lemma SafeNoNul(p: Text)
    requires Safe(p)
    ensures 0 !in p && p != []
  {
    assert Components(p)[0] in Components(p);
    if 0 in p {
      ByteInComponent(p, 0);
    }
  }

  lemma {:induction false} ComponentBytes(p: Text, c: Text, b: byte)
    requires c in Components(p) && b in c
    ensures b in p && b != Slash
    decreases |p|
  {
    if p != [] {
      var rest, last := Components(p[..|p| - 1]), p[|p| - 1];
      var k :| 0 <= k < |Components(p)| && Components(p)[k] == c;
      if k < |rest| && rest[k] == c {
        assert c in rest;
        ComponentBytes(p[..|p| - 1], c, b);
      } else if b != last {
        assert b in rest[|rest| - 1] && rest[|rest| - 1] in rest;
        ComponentBytes(p[..|p| - 1], rest[|rest| - 1], b);
      }
    }
  }

  lemma {:induction false} JoinedComponents(parts: seq<Text>)
    requires parts != [] && forall c :: c in parts ==> Slash !in c
    ensures Components(JoinParts(parts)) == parts
  {
    if |parts| == 1 {
      ComponentsOfName(parts[0]);
    } else {
      var front, last := parts[..|parts| - 1], parts[|parts| - 1];
      JoinedComponents(front);
      ComponentsBelow(JoinParts(front), last);
      assert parts == front + [last];
    }
  }

  /** Where a path leads from inside a directory: `.` stays, `..` goes up, and above the start there is nothing. */
  function Walked(parts: seq<Text>): Option<seq<Text>>
  {
    if parts == [] then Some([])
    else
      var at, last := Walked(parts[..|parts| - 1]), parts[|parts| - 1];
      if at.None? then None
      else if last == [] || last == [Dot] then at
      else if last != [Dot, Dot] then Some(at.value + [last])
      else if at.value == [] then None
      else Some(at.value[..|at.value| - 1])
  }

  lemma {:induction false} WalkedStraight(parts: seq<Text>)
    ensures Walked(parts).Some? ==> |Walked(parts).value| <= |parts|
    ensures Walked(parts) == Some(parts) <==> [] !in parts && [Dot] !in parts && [Dot, Dot] !in parts
  {
    if parts != [] {
      var front, last := parts[..|parts| - 1], parts[|parts| - 1];
      assert parts == front + [last];
      WalkedStraight(front);
      if Walked(parts) == Some(parts) {
        assert Walked(front).Some? && Walked(front).value == front;
      }
    }
  }

  /** An accepted path leads straight down by the names it is written with, and never out of the directory it starts in. */
  lemma SafeMeaning(p: Text)
    ensures Safe(p) <==> 0 !in p && Walked(Components(p)) == Some(Components(p))
  {
    WalkedStraight(Components(p));
    if 0 in p {
      ByteInComponent(p, 0);
    }
    forall c | c in Components(p) && 0 in c ensures 0 in p {
      ComponentBytes(p, c, 0);
    }
  }

  function JoinParts(parts: seq<Text>): Text
    requires parts != []
  {
    if |parts| == 1 then parts[0] else Below(JoinParts(parts[..|parts| - 1]), parts[|parts| - 1])
  }

  /** A path is its components, joined. */
  lemma {:induction false} JoinedBack(p: Text)
    ensures JoinParts(Components(p)) == p
    decreases |p|
  {
    if p != [] {
      var shorter, last := p[..|p| - 1], p[|p| - 1];
      var rest := Components(shorter);
      var n := |rest| - 1;
      JoinedBack(shorter);
      assert p == shorter + [last];
      if last == Slash {
        assert (rest + [[]])[..n + 1] == rest;
      } else {
        assert Components(p)[..n] == rest[..n];
        if n > 0 {
          Associative(JoinParts(rest[..n]) + [Slash], rest[n], [last]);
        }
      }
    }
  }

  /** What stands above a path is what its components begin with. */
  lemma {:induction false} AncestorParts(a: Text, p: Text)
    ensures IsAncestor(a, p) <==> Components(a) < Components(p)
    decreases |p|
  {
    if p != [] {
      var shorter, last := p[..|p| - 1], p[|p| - 1];
      assert p == shorter + [last];
      AncestorParts(a, shorter);
      assert IsAncestor(a, p) <==> IsAncestor(a, shorter) || (a == shorter && last == Slash);
      if last == Slash {
        JoinedBack(a);
        JoinedBack(shorter);
        assert Components(a) < Components(p) <==> Components(a) <= Components(shorter);
        assert Components(a) <= Components(shorter) <==> Components(a) == Components(shorter) || Components(a) < Components(shorter);
      } else {
        var n := |Components(shorter)| - 1;
        assert Components(p)[..n] == Components(shorter)[..n];
        assert Components(a) < Components(p) <==> Components(a) <= Components(p)[..n];
        assert Components(a) < Components(shorter) <==> Components(a) <= Components(shorter)[..n];
      }
    }
  }

  /** One is where the other leads, or on the way there. */
  predicate Along(a: seq<Text>, b: seq<Text>)
  {
    a <= b || b <= a
  }

  lemma AlongMeaning(q: Text, p: Text)
    ensures Along(Components(q), Components(p)) <==> q == p || IsAncestor(p, q) || IsAncestor(q, p)
  {
    AncestorParts(p, q);
    AncestorParts(q, p);
    if Components(p) == Components(q) {
      JoinedBack(p);
      JoinedBack(q);
    }
  }

  /** Where the last slash is; -1 when there is none. */
  function LastSlash(p: Text): (k: int)
    ensures -1 <= k < |p| && (k >= 0 ==> p[k] == Slash)
    ensures forall i :: 0 <= i < |p| && p[i] == Slash ==> i <= k
  {
    if p == [] then -1 else if p[|p| - 1] == Slash then |p| - 1 else LastSlash(p[..|p| - 1])
  }

  /** `parent_path` of a relative path. */
  function Parent(p: Text): (r: Text)
    ensures r == [] || IsAncestor(r, p)
  {
    if LastSlash(p) < 0 then [] else p[..LastSlash(p)]
  }

  // ---- the order of strings ----

  predicate Less(a: Text, b: Text)
  {
    b != [] && (a == [] || a[0] < b[0] || (a[0] == b[0] && Less(a[1..], b[1..])))
  }

  lemma {:induction false} LessIrreflexive(a: Text)
    ensures !Less(a, a)
  {
    if a != [] {
      LessIrreflexive(a[1..]);
    }
  }

  lemma {:induction false} LessTransitive(a: Text, b: Text, c: Text)
    requires Less(a, b) && Less(b, c)
    ensures Less(a, c)
  {
    if a != [] && a[0] == b[0] && b[0] == c[0] {
      LessTransitive(a[1..], b[1..], c[1..]);
    }
  }

  lemma {:induction false} LessTotal(a: Text, b: Text)
    ensures a == b || Less(a, b) || Less(b, a)
  {
    if a != [] && b != [] && a[0] == b[0] {
      LessTotal(a[1..], b[1..]);
      assert a == [a[0]] + a[1..] && b == [b[0]] + b[1..];
    }
  }

  /** A path sorts before everything that continues it. */
  lemma {:induction false} PrefixLess(a: Text, b: Text)
    requires |a| < |b| && b[..|a|] == a
    ensures Less(a, b)
  {
    if a != [] {
      assert a[0] == b[..|a|][0] && b[1..][..|a| - 1] == b[..|a|][1..];
      PrefixLess(a[1..], b[1..]);
    }
  }

  /** Between a prefix and something that has it, everything has it. */
  lemma {:induction false} PrefixBetween(x: Text, s: Text, t: Text)
    requires !Less(s, x) && |x| <= |t| && t[..|x|] == x && !Less(t, s)
    ensures |x| <= |s| && s[..|x|] == x
  {
    if x != [] {
      assert t[0] == t[..|x|][0] == x[0];
      assert t[1..][..|x| - 1] == t[..|x|][1..] == x[1..];
      PrefixBetween(x[1..], s[1..], t[1..]);
      assert s[..|x|] == [s[0]] + s[1..][..|x| - 1];
    }
  }

  ghost predicate Sorted(paths: seq<Text>)
  {
    forall i, j :: 0 <= i < j < |paths| ==> Less(paths[i], paths[j])
  }

  /** `std::lower_bound`: where the first path not before `x` stands. */
  method LowerBound(paths: seq<Text>, x: Text) returns (k: nat)
    requires Sorted(paths)
    ensures k <= |paths|
    ensures forall i :: 0 <= i < k ==> Less(paths[i], x)
    ensures forall i :: k <= i < |paths| ==> !Less(paths[i], x)
  {
    var first: nat, count: nat := 0, |paths|;
    while count > 0
      invariant first + count <= |paths|
      invariant forall i :: 0 <= i < first ==> Less(paths[i], x)
      invariant forall i :: first + count <= i < |paths| ==> !Less(paths[i], x)
      decreases count
    {
      var step := count / 2;
      var middle := first + step;
      if Less(paths[middle], x) {
        forall i | 0 <= i <= middle ensures Less(paths[i], x) {
          if i < middle {
            LessTransitive(paths[i], paths[middle], x);
          }
        }
        first, count := middle + 1, count - step - 1;
      } else {
        forall i | middle <= i < |paths| ensures !Less(paths[i], x) {
          if i > middle && Less(paths[i], x) {
            LessTransitive(paths[middle], paths[i], x);
          }
        }
        count := step;
      }
    }
    k := first;
  }

  /** `std::binary_search`. */
  method Contains(paths: seq<Text>, x: Text) returns (found: bool)
    requires Sorted(paths)
    ensures found <==> x in paths
  {
    LessIrreflexive(x);
    var k := LowerBound(paths, x);
    found := k < |paths| && !Less(x, paths[k]);
    if found {
      LessTotal(x, paths[k]);
    }
  }

  /** Inserts a path into a sorted, duplicate-free list. */
  method InsertPath(paths: seq<Text>, x: Text) returns (more: seq<Text>)
    requires Sorted(paths)
    ensures Sorted(more) && forall p :: p in more <==> p in paths || p == x
  {
    var k := LowerBound(paths, x);
    if k < |paths| && paths[k] == x {
      return paths;
    }
    forall i | k <= i < |paths| ensures Less(x, paths[i]) {
      LessTotal(x, paths[k]);
      if i > k {
        LessTransitive(x, paths[k], paths[i]);
      }
    }
    more := paths[..k] + [x] + paths[k..];
    assert forall p :: p in more <==> p in paths[..k] || p == x || p in paths[k..];
    assert paths == paths[..k] + paths[k..];
  }

  /** Sorted and without duplicates. */
  method SortUnique(paths: seq<Text>) returns (sorted: seq<Text>)
    ensures Sorted(sorted) && forall p :: p in sorted <==> p in paths
  {
    sorted := [];
    var i: nat := 0;
    while i < |paths|
      invariant i <= |paths| && Sorted(sorted)
      invariant forall p :: p in sorted <==> p in paths[..i]
    {
      assert paths[..i + 1] == paths[..i] + [paths[i]];
      sorted := InsertPath(sorted, paths[i]);
      i := i + 1;
    }
    assert paths[..i] == paths;
  }
}
