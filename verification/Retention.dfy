/** Names of automatic snapshots and which of them are kept. */
module Retention {
  import opened Bytes
  import opened Paths

  // ---- names ----

  const StampWidth := 20
  const SaltWidth := 16

  function Suffix(): (s: Text)
    ensures |s| == 4
  {
    [46, 98, 97, 107]
  }

  predicate Digit(c: byte)
  {
    48 <= c <= 57
  }

  /** A zero-padded decimal number. */
  function Decimal(n: nat, width: nat): (s: Text)
    ensures |s| == width && forall i :: 0 <= i < width ==> Digit(s[i])
  {
    if width == 0 then [] else Decimal(n / 10, width - 1) + [48 + n % 10]
  }

  function Pow10(n: nat): nat
  {
    if n == 0 then 1 else 10 * Pow10(n - 1)
  }

  /** The microseconds of the clock, a dash, and a random part. */
  function SnapshotName(prefix: Text, stamp: nat, salt: Text): Text
  {
    prefix + Decimal(stamp, StampWidth) + [45] + salt + Suffix()
  }

  predicate IsSalt(salt: Text)
  {
    |salt| == SaltWidth && forall i :: 0 <= i < |salt| ==> HexDigit(salt[i])
  }

  predicate IsSnapshot(prefix: Text, name: Text)
  {
    && |name| == |prefix| + StampWidth + 1 + SaltWidth + 4 && name[..|prefix|] == prefix
    && name[|name| - 4..] == Suffix() && name[|prefix| + StampWidth] == 45
    && (forall i :: |prefix| <= i < |prefix| + StampWidth ==> Digit(name[i]))
    && (forall i :: |prefix| + StampWidth + 1 <= i < |prefix| + StampWidth + 1 + SaltWidth ==> HexDigit(name[i]))
  }

  /** The names the program makes are the names it recognises. */
  lemma SnapshotNamed(prefix: Text, stamp: nat, salt: Text)
    requires IsSalt(salt)
    ensures IsSnapshot(prefix, SnapshotName(prefix, stamp, salt))
  {
    var name, stampText := SnapshotName(prefix, stamp, salt), Decimal(stamp, StampWidth);
    var n := |prefix|;
    assert name[..n] == prefix && name[n..n + StampWidth] == stampText;
    assert name[n + StampWidth + 1..n + StampWidth + 1 + SaltWidth] == salt;
    forall i | n <= i < n + StampWidth ensures Digit(name[i]) {
      assert name[i] == stampText[i - n];
    }
    forall i | n + StampWidth + 1 <= i < n + StampWidth + 1 + SaltWidth ensures HexDigit(name[i]) {
      assert name[i] == salt[i - n - StampWidth - 1];
    }
  }

  predicate AllDigits(s: Text)
  {
    forall i :: 0 <= i < |s| ==> Digit(s[i])
  }

  function Number(s: Text): nat
    requires AllDigits(s)
  {
    if s == [] then 0
    else
      assert Digit(s[|s| - 1]);
      10 * Number(s[..|s| - 1]) + (s[|s| - 1] as int - 48)
  }

  lemma {:induction false} DecimalOfNumber(s: Text)
    requires AllDigits(s)
    ensures Number(s) < Pow10(|s|) && Decimal(Number(s), |s|) == s
  {
    if s != [] {
      var front, last := s[..|s| - 1], s[|s| - 1];
      DecimalOfNumber(front);
      assert Digit(last);
      LastDigit(Number(front), last - 48);
      assert Number(s) == 10 * Number(front) + (last - 48);
      assert s == front + [last];
    }
  }

  lemma LastDigit(n: nat, d: int)
    requires 0 <= d < 10
    ensures (10 * n + d) / 10 == n && (10 * n + d) % 10 == d
  {
  }

  lemma SnapshotParts(prefix: Text, name: Text) returns (digits: Text, salt: Text)
    requires IsSnapshot(prefix, name)
    ensures |digits| == StampWidth && AllDigits(digits) && IsSalt(salt)
    ensures name == prefix + digits + [45] + salt + Suffix()
  {
    var n := |prefix|;
    digits, salt := name[n..n + StampWidth], name[n + StampWidth + 1..n + StampWidth + 1 + SaltWidth];
  }

  /** A file counts as a snapshot exactly when its name is that of some time and some random part. */
  lemma SnapshotMeaning(prefix: Text, name: Text)
    ensures IsSnapshot(prefix, name) <==>
      exists stamp, salt :: 0 <= stamp < Pow10(StampWidth) && IsSalt(salt) && name == SnapshotName(prefix, stamp, salt)
  {
    if IsSnapshot(prefix, name) {
      var digits, salt := SnapshotParts(prefix, name);
      DecimalOfNumber(digits);
      assert name == SnapshotName(prefix, Number(digits), salt);
    }
    if stamp, salt :| 0 <= stamp < Pow10(StampWidth) && IsSalt(salt) && name == SnapshotName(prefix, stamp, salt) {
      SnapshotNamed(prefix, stamp, salt);
    }
  }

  lemma {:induction false} LessAfter(p: Text, a: Text, b: Text)
    requires Less(a, b)
    ensures Less(p + a, p + b)
  {
    if p == [] {
      assert p + a == a && p + b == b;
    } else {
      LessAfter(p[1..], a, b);
      assert (p + a)[1..] == p[1..] + a && (p + b)[1..] == p[1..] + b;
    }
  }

  lemma {:induction false} LessLonger(a: Text, b: Text, x: Text, y: Text)
    requires |a| == |b| && Less(a, b)
    ensures Less(a + x, b + y)
  {
    if a[0] == b[0] {
      LessLonger(a[1..], b[1..], x, y);
      assert (a + x)[1..] == a[1..] + x && (b + y)[1..] == b[1..] + y;
    }
  }

  lemma {:induction false} DecimalOrder(a: nat, b: nat, width: nat)
    requires a < b < Pow10(width)
    ensures Less(Decimal(a, width), Decimal(b, width))
  {
    if a / 10 == b / 10 {
      assert Less([48 + a % 10], [48 + b % 10]);
      LessAfter(Decimal(a / 10, width - 1), [48 + a % 10], [48 + b % 10]);
    } else {
      DecimalOrder(a / 10, b / 10, width - 1);
      LessLonger(Decimal(a / 10, width - 1), Decimal(b / 10, width - 1), [48 + a % 10], [48 + b % 10]);
    }
  }

  /** Names sort by the time they were made. */
  lemma NewerSortsLater(prefix: Text, a: nat, b: nat, x: Text, y: Text)
    requires a < b < Pow10(StampWidth)
    ensures Less(SnapshotName(prefix, a, x), SnapshotName(prefix, b, y))
  {
    var s, t := Decimal(a, StampWidth), Decimal(b, StampWidth);
    DecimalOrder(a, b, StampWidth);
    LessAfter(prefix, s, t);
    LessLonger(prefix + s, prefix + t, [45] + x + Suffix(), [45] + y + Suffix());
    Regroup(prefix + s, [45], x, Suffix());
    Regroup(prefix + t, [45], y, Suffix());
  }

  lemma Regroup(a: Text, b: Text, c: Text, d: Text)
    ensures a + b + c + d == a + (b + c + d)
  {
  }

  // ---- keeping the newest ----

  /** Files of the output directory: name, and whether it is a regular file. */
  type Folder = map<Text, bool>

  predicate Expirable(folder: Folder, prefix: Text, current: Text, name: Text)
  {
    name in folder && name != current && folder[name] && IsSnapshot(prefix, name)
  }

  /** What is left: all foreign files, the current snapshot, and the newest others up to the number to keep. */
  ghost predicate Retained(before: Folder, after: Folder, prefix: Text, current: Text, keep: nat)
  {
    && after.Keys <= before.Keys && (forall p :: p in after ==> after[p] == before[p])
    && (forall p :: p in before && !Expirable(before, prefix, current, p) ==> p in after)
    && (forall p, q :: Expirable(before, prefix, current, p) && Expirable(before, prefix, current, q) && p !in after && q in after ==> Less(p, q))
    && var kept := set p | p in after && Expirable(before, prefix, current, p);
       |kept| <= keep - 1 && (after == before || |kept| == keep - 1)
  }

  method CollectSnapshots(folder: Folder, prefix: Text, current: Text) returns (names: seq<Text>)
    ensures forall p :: p in names <==> Expirable(folder, prefix, current, p)
  {
    names := [];
    var rest := folder.Keys;
    while rest != {}
      invariant rest <= folder.Keys
      invariant forall p :: p in names <==> p !in rest && Expirable(folder, prefix, current, p)
      decreases |rest|
    {
      var name :| name in rest;
      rest := rest - {name};
      if Expirable(folder, prefix, current, name) {
        names := names + [name];
      }
    }
  }

  /** Removes all but the newest `keep - 1` earlier snapshots, from the newest expired one down. */
  method RetainSnapshots(folder: Folder, prefix: Text, current: Text, keep: nat) returns (left: Folder)
    requires keep > 0
    ensures Retained(folder, left, prefix, current, keep)
  {
    var names := CollectSnapshots(folder, prefix, current);
    var previous := SortUnique(names);
    var n := |previous|;
    left := folder;
    forall i | 0 <= i < n ensures previous[i] in folder {
      assert previous[i] in previous;
    }
    var index: nat := keep - 1;
    while index < n
      invariant index >= keep - 1 && (index <= n || index == keep - 1)
      invariant left.Keys <= folder.Keys && forall p :: p in left ==> left[p] == folder[p]
      invariant forall p :: p in folder && !Expirable(folder, prefix, current, p) ==> p in left
      invariant forall i :: 0 <= i < n ==> (previous[i] in left <==> i < n - index || i > n - keep)
      decreases n - index
    {
      Distinct(previous);
      left := left - {previous[n - 1 - index]};
      index := index + 1;
    }
    KeptNewest(folder, left, previous, prefix, current, keep);
  }

  lemma Distinct(paths: seq<Text>)
    requires Sorted(paths)
    ensures forall i, j :: 0 <= i < j < |paths| ==> paths[i] != paths[j]
  {
    forall i, j | 0 <= i < j < |paths| ensures paths[i] != paths[j] {
      LessIrreflexive(paths[i]);
    }
  }

  lemma SetOfSorted(paths: seq<Text>)
    requires Sorted(paths)
    ensures |set p | p in paths| == |paths|
  {
    if paths != [] {
      var shorter := paths[..|paths| - 1];
      SetOfSorted(shorter);
      Distinct(paths);
      assert (set p | p in paths) == (set p | p in shorter) + {paths[|paths| - 1]};
    }
  }

  lemma KeptNewest(folder: Folder, left: Folder, previous: seq<Text>, prefix: Text, current: Text, keep: nat)
    requires keep > 0 && Sorted(previous) && forall p :: p in previous <==> Expirable(folder, prefix, current, p)
    requires left.Keys <= folder.Keys && forall p :: p in left ==> left[p] == folder[p]
    requires forall p :: p in folder && !Expirable(folder, prefix, current, p) ==> p in left
    requires forall i :: 0 <= i < |previous| ==> (previous[i] in left <==> i > |previous| - keep)
    ensures Retained(folder, left, prefix, current, keep)
  {
    var n := |previous|;
    forall p, q | Expirable(folder, prefix, current, p) && Expirable(folder, prefix, current, q) && p !in left && q in left
      ensures Less(p, q)
    {
      var i :| 0 <= i < n && previous[i] == p;
      var j :| 0 <= j < n && previous[j] == q;
    }
    var kept := set p | p in left && Expirable(folder, prefix, current, p);
    var first := if n < keep then 0 else n - keep + 1;
    var newest := previous[first..];
    SetOfSorted(newest);
    forall p ensures p in kept <==> p in newest {
      if p in kept {
        var i :| 0 <= i < n && previous[i] == p;
        assert newest[i - first] == p;
      }
    }
    assert kept == set p | p in newest;
    if n < keep {
      forall p | p in folder ensures p in left {
        if Expirable(folder, prefix, current, p) {
          var i :| 0 <= i < n && previous[i] == p;
        }
      }
      assert left == folder;
    }
  }
}
