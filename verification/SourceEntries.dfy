/** The entry list of a backup: normalised selection, walked source, sorted entries, hardlinks found. */
module SourceEntries {
  import opened Bytes
  import opened Paths
  import opened Entries
  import opened Scan

  // ---- the selection ----

  /** `a/./b//c/` is `a/b/c`: empty components and single dots do not matter. */
  function Meaningful(parts: seq<Text>): seq<Text>
  {
    if parts == [] then []
    else
      var rest, last := Meaningful(parts[..|parts| - 1]), parts[|parts| - 1];
      if last == [] || last == [Dot] then rest else rest + [last]
  }

  /** The archive-relative form of a selected path, or nothing when it is empty, absolute, climbs out or names the root. */
  function Normalized(raw: Text): Option<Text>
  {
    if raw == [] || raw[0] == Slash || [Dot, Dot] in Components(raw) then None
    else
      var parts := Meaningful(Components(raw));
      if parts == [] then None else Some(JoinParts(parts))
  }

  lemma {:induction false} MeaningfulMembers(parts: seq<Text>, c: Text)
    ensures c in Meaningful(parts) <==> c in parts && c != [] && c != [Dot]
  {
    if parts != [] {
      MeaningfulMembers(parts[..|parts| - 1], c);
      assert parts == parts[..|parts| - 1] + [parts[|parts| - 1]];
    }
  }

  lemma {:induction false} MeaningfulAlready(parts: seq<Text>)
    requires [] !in parts && [Dot] !in parts
    ensures Meaningful(parts) == parts
  {
    if parts != [] {
      MeaningfulAlready(parts[..|parts| - 1]);
      assert parts == parts[..|parts| - 1] + [parts[|parts| - 1]];
    }
  }

  /** The normal form has exactly the meaningful components, in order; it is a safe path, and its own normal form. */
  lemma NormalizedMeaning(raw: Text, p: Text)
    requires Normalized(raw) == Some(p)
    ensures Components(p) == Meaningful(Components(raw))
    ensures 0 !in raw ==> Safe(p)
    ensures Normalized(p) == Some(p)
  {
    var all := Components(raw);
    var parts := Meaningful(all);
    forall c | c in parts ensures c in all && c != [] && c != [Dot] && c != [Dot, Dot] && Slash !in c && (0 in c ==> 0 in raw) {
      MeaningfulMembers(all, c);
      if Slash in c {
        ComponentBytes(raw, c, Slash);
      }
      if 0 in c {
        ComponentBytes(raw, c, 0);
      }
    }
    JoinedComponents(parts);
    MeaningfulAlready(parts);
    assert parts[0] in parts;
    if p != [] && p[0] == Slash {
      LeadingSlash(p);
    }
  }

  ghost predicate AllNormal(includes: seq<Text>, clean: seq<Text>)
  {
    |clean| == |includes| && forall i :: 0 <= i < |includes| ==> Normalized(includes[i]) == Some(clean[i])
  }

  /** Sorted, duplicate-free, and nothing at all when one selected path is unacceptable. */
  method NormalizeIncludes(includes: seq<Text>) returns (selected: Option<seq<Text>>, ghost clean: seq<Text>)
    ensures selected.None? ==> exists i :: 0 <= i < |includes| && Normalized(includes[i]).None?
    ensures selected.Some? ==> AllNormal(includes, clean) && Sorted(selected.value)
    ensures selected.Some? ==> forall p :: p in selected.value <==> p in clean
  {
    var paths: seq<Text> := [];
    var i: nat := 0;
    while i < |includes|
      invariant i <= |includes| && |paths| == i
      invariant forall j :: 0 <= j < i ==> Normalized(includes[j]) == Some(paths[j])
    {
      var normal := Normalized(includes[i]);
      if normal.None? {
        return None, paths;
      }
      paths := paths + [normal.value];
      i := i + 1;
    }
    var sorted := SortUnique(paths);
    return Some(sorted), paths;
  }

  predicate AllAcceptable(includes: seq<Text>)
  {
    forall i :: 0 <= i < |includes| ==> Normalized(includes[i]).Some?
  }

  /** The selection as the scan uses it: sorted, and exactly the normal forms of what was asked for. */
  ghost predicate Selection(includes: seq<Text>, selected: seq<Text>)
  {
    && Sorted(selected)
    && forall p :: p in selected <==> exists i :: 0 <= i < |includes| && Normalized(includes[i]) == Some(p)
  }

  lemma SelectionMade(includes: seq<Text>, clean: seq<Text>, selected: seq<Text>)
    requires AllNormal(includes, clean) && Sorted(selected) && forall p :: p in selected <==> p in clean
    ensures AllAcceptable(includes) && Selection(includes, selected)
  {
    forall p ensures p in selected <==> exists i :: 0 <= i < |includes| && Normalized(includes[i]) == Some(p) {
      if p in selected {
        var i :| 0 <= i < |clean| && clean[i] == p;
        assert Normalized(includes[i]) == Some(p);
      }
      if i :| 0 <= i < |includes| && Normalized(includes[i]) == Some(p) {
        assert clean[i] == p;
      }
    }
  }

  /** What a backup takes, in terms of what was asked for: the paths on the way to a selected one and those below it. */
  lemma WantedMeaning(includes: seq<Text>, selected: seq<Text>, p: Text)
    requires AllAcceptable(includes) && Selection(includes, selected)
    ensures Wanted(selected, p) <==>
      includes == [] || exists i :: 0 <= i < |includes| && Along(Meaningful(Components(includes[i])), Components(p))
  {
    assert selected != [] ==> selected[0] in selected;
    if includes != [] {
      assert Normalized(includes[0]).value in selected;
    }
    if i :| 0 <= i < |includes| && Along(Meaningful(Components(includes[i])), Components(p)) {
      var q := Normalized(includes[i]).value;
      NormalizedMeaning(includes[i], q);
      AlongMeaning(q, p);
      assert q in selected && Wanted(selected, p);
    }
    if Wanted(selected, p) && selected != [] {
      var q :| q in selected && (q == p || IsAncestor(p, q) || IsAncestor(q, p));
      var i :| 0 <= i < |includes| && Normalized(includes[i]) == Some(q);
      NormalizedMeaning(includes[i], q);
      AlongMeaning(q, p);
      assert Along(Meaningful(Components(includes[i])), Components(p));
    }
  }

  // ---- entries ----

  function MakeEntry(path: Text, stat: Stat): Entry
  {
    var size := if stat.kind.Regular? then stat.size else 0;
    Entry(path, stat.kind, stat.mode, stat.uid, stat.gid, size, stat.atime, stat.mtime, stat.ctime,
          if stat.kind.Symlink? then stat.link else [],
          if stat.kind.Character? || stat.kind.Block? then stat.device else 0,
          0, Source(stat.volume, stat.inode, size))
  }

  function ItemEntry(root: Text, x: Item): Entry
  {
    MakeEntry(Below(root, x.path), x.stat)
  }

  function TotalSize(entries: seq<Entry>): nat
  {
    if entries == [] then 0 else TotalSize(entries[..|entries| - 1]) + entries[|entries| - 1].size
  }

  predicate PathOrder(a: Entry, b: Entry)
  {
    !Less(b.path, a.path)
  }

  lemma PathOrderTotal()
    ensures TotalPreorder(PathOrder)
  {
    forall a, b ensures PathOrder(a, b) || PathOrder(b, a) {
      LessIrreflexive(a.path);
      if Less(b.path, a.path) && Less(a.path, b.path) {
        LessTransitive(a.path, b.path, a.path);
      }
    }
    forall a, b, c | PathOrder(a, b) && PathOrder(b, c) ensures PathOrder(a, c) {
      LessTotal(a.path, b.path);
      if Less(c.path, a.path) && a.path != b.path {
        LessTransitive(c.path, a.path, b.path);
      }
    }
  }

  // ---- hardlinks ----

  predicate SameFile(a: Entry, b: Entry)
  {
    a.kind.Regular? && b.kind.Regular? && a.source.volume == b.source.volume && a.source.inode == b.source.inode
  }

  /** The first entry that is the same file. */
  function FirstAlias(entries: seq<Entry>, i: nat, j: nat): (r: nat)
    requires j <= i < |entries| && entries[i].kind.Regular?
    ensures j <= r <= i && SameFile(entries[r], entries[i])
    ensures forall m :: j <= m < r ==> !SameFile(entries[m], entries[i])
    decreases i - j
  {
    if j == i || SameFile(entries[j], entries[i]) then j else FirstAlias(entries, i, j + 1)
  }

  /** A later name of a file becomes a link to the first one, with that one's access time and no size. */
  function Alias(e: Entry, target: Entry): Entry
  {
    e.(atime := target.atime, kind := Hardlink, link := target.path, size := 0)
  }

  function Aliased(entries: seq<Entry>, i: nat): Entry
    requires i < |entries|
  {
    if !entries[i].kind.Regular? || FirstAlias(entries, i, 0) == i then entries[i]
    else Alias(entries[i], entries[FirstAlias(entries, i, 0)])
  }

  predicate SameScan(e: Entry, target: Entry)
  {
    e.mode == target.mode && e.uid == target.uid && e.gid == target.gid && e.source.size == target.source.size && e.mtime == target.mtime
  }

  /** The names of one file were all seen with the same metadata. */
  predicate Unchanged(entries: seq<Entry>, i: nat)
    requires i < |entries|
  {
    entries[i].kind.Regular? ==> SameScan(entries[i], entries[FirstAlias(entries, i, 0)])
  }

  ghost predicate Originals(entries: seq<Entry>, originals: map<(nat, nat), nat>, i: nat)
    requires i <= |entries|
  {
    && (forall j :: 0 <= j < i && entries[j].kind.Regular? ==> (entries[j].source.volume, entries[j].source.inode) in originals)
    && (forall key :: key in originals ==>
          && originals[key] < i && entries[originals[key]].kind.Regular?
          && key == (entries[originals[key]].source.volume, entries[originals[key]].source.inode)
          && forall m :: 0 <= m < originals[key] ==> !SameFile(entries[m], entries[originals[key]]))
  }

  lemma OriginalIsFirst(entries: seq<Entry>, originals: map<(nat, nat), nat>, i: nat)
    requires i < |entries| && Originals(entries, originals, i) && entries[i].kind.Regular?
    ensures var key := (entries[i].source.volume, entries[i].source.inode);
            if key in originals then FirstAlias(entries, i, 0) == originals[key] else FirstAlias(entries, i, 0) == i
  {
    var key, first := (entries[i].source.volume, entries[i].source.inode), FirstAlias(entries, i, 0);
    if key in originals {
      var known := originals[key];
      assert SameFile(entries[known], entries[i]);
      assert SameFile(entries[first], entries[i]) ==> SameFile(entries[first], entries[known]);
    }
  }

  /** The first `i` entries have been looked at. */
  ghost predicate LinkedUpTo(entries: seq<Entry>, linked: seq<Entry>, originals: map<(nat, nat), nat>, i: nat)
    requires i <= |entries|
  {
    && |linked| == |entries| && Originals(entries, originals, i)
    && (forall j :: 0 <= j < i ==> Unchanged(entries, j) && linked[j] == Aliased(entries, j))
    && (forall j :: i <= j < |entries| ==> linked[j] == entries[j])
  }

  /** One entry: the first name of a file is recorded, a later one becomes a link. */
  method LinkEntry(entries: seq<Entry>, linked: seq<Entry>, originals: map<(nat, nat), nat>, i: nat, bytes: nat)
    returns (ok: bool, more: seq<Entry>, known: map<(nat, nat), nat>, left: nat)
    requires i < |entries| && LinkedUpTo(entries, linked, originals, i) && bytes == TotalSize(linked)
    ensures ok <==> Unchanged(entries, i)
    ensures ok ==> LinkedUpTo(entries, more, known, i + 1) && left == TotalSize(more)
  {
    var e := entries[i];
    ok, more, known, left := true, linked, originals, bytes;
    if e.kind.Regular? {
      OriginalIsFirst(entries, originals, i);
      var key := (e.source.volume, e.source.inode);
      if key in originals {
        var target := entries[originals[key]];
        ok := SameScan(e, target);
        SizeReplaced(linked, i, Alias(e, target));
        more := linked[i := Alias(e, target)];
        left := bytes - e.size;
      } else {
        OriginalAdded(entries, originals, i);
        known := originals[key := i];
      }
    }
  }

  /** Turns repeated names of one file into hardlinks to the first; fails when their metadata differ. */
  method DetectLinks(entries: seq<Entry>, total: nat) returns (ok: bool, linked: seq<Entry>, bytes: nat)
    requires total == TotalSize(entries)
    ensures ok <==> forall i :: 0 <= i < |entries| ==> Unchanged(entries, i)
    ensures ok ==> |linked| == |entries| && bytes == TotalSize(linked) && forall i :: 0 <= i < |entries| ==> linked[i] == Aliased(entries, i)
  {
    var originals: map<(nat, nat), nat> := map[];
    linked, bytes := entries, total;
    var i: nat := 0;
    while i < |entries|
      invariant i <= |entries| && LinkedUpTo(entries, linked, originals, i) && bytes == TotalSize(linked)
    {
      ok, linked, originals, bytes := LinkEntry(entries, linked, originals, i, bytes);
      if !ok {
        return;
      }
      i := i + 1;
    }
    ok := true;
  }

  lemma OriginalAdded(entries: seq<Entry>, originals: map<(nat, nat), nat>, i: nat)
    requires i < |entries| && Originals(entries, originals, i) && entries[i].kind.Regular?
    requires (entries[i].source.volume, entries[i].source.inode) !in originals
    ensures Originals(entries, originals[(entries[i].source.volume, entries[i].source.inode) := i], i + 1)
  {
  }

  lemma {:induction false} SizeReplaced(entries: seq<Entry>, i: nat, e: Entry)
    requires i < |entries|
    ensures TotalSize(entries[i := e]) + entries[i].size == TotalSize(entries) + e.size
  {
    var last := |entries| - 1;
    if i == last {
      assert entries[i := e][..last] == entries[..last];
    } else {
      SizeReplaced(entries[..last], i, e);
      assert entries[i := e][..last] == entries[..last][i := e];
    }
  }

  // ---- the scan ----

  ghost predicate Picked(tree: Tree, selected: seq<Text>, x: Item)
  {
    x in Everything([], tree.children) && Wanted(selected, x.path)
  }

  /** The root and exactly the wanted part of the tree, sorted by path. */
  ghost predicate Scanned(root: Text, tree: Tree, selected: seq<Text>, scanned: seq<Entry>)
  {
    && scanned != [] && scanned[0] == MakeEntry(root, tree.stat) && DistinctPaths(scanned) && Ordered(scanned[1..], PathOrder)
    && (forall x :: Picked(tree, selected, x) ==> ItemEntry(root, x) in scanned[1..])
    && (forall e :: e in scanned[1..] ==> exists x :: Picked(tree, selected, x) && e == ItemEntry(root, x))
  }

  predicate ProperRoot(root: Text, tree: Tree)
  {
    SafeName(root) && tree.stat.kind.Directory?
  }

  lemma TotalAppend(entries: seq<Entry>, e: Entry)
    ensures TotalSize(entries + [e]) == TotalSize(entries) + e.size
  {
    assert (entries + [e])[..|entries|] == entries;
  }

  method BuildEntries(root: Text, items: seq<Item>) returns (entries: seq<Entry>, bytes: nat)
    ensures |entries| == |items| && bytes == TotalSize(entries)
    ensures forall i :: 0 <= i < |items| ==> entries[i] == ItemEntry(root, items[i])
  {
    entries, bytes := [], 0;
    var i: nat := 0;
    while i < |items|
      invariant i <= |items| && |entries| == i && bytes == TotalSize(entries)
      invariant forall j :: 0 <= j < i ==> entries[j] == ItemEntry(root, items[j])
    {
      var e := ItemEntry(root, items[i]);
      TotalAppend(entries, e);
      if e.kind.Regular? {
        bytes := bytes + e.size;
      }
      entries := entries + [e];
      i := i + 1;
    }
  }

  lemma BelowInjective(root: Text, a: Text, b: Text)
    requires Below(root, a) == Below(root, b)
    ensures a == b
  {
    assert Below(root, a)[|root| + 1..] == a && Below(root, b)[|root| + 1..] == b;
  }

  lemma EntriesDistinct(root: Text, items: seq<Item>, entries: seq<Entry>)
    requires DistinctItems(items) && |entries| == |items|
    requires forall i :: 0 <= i < |items| ==> entries[i] == ItemEntry(root, items[i])
    ensures DistinctPaths(entries)
  {
    forall i, j | 0 <= i < j < |entries| ensures entries[i].path != entries[j].path {
      if entries[i].path == entries[j].path {
        BelowInjective(root, items[i].path, items[j].path);
      }
    }
  }

  lemma WalkPicked(tree: Tree, selected: seq<Text>, items: seq<Item>)
    requires Named(tree.children) && items == Walk([], tree.children, Keeping(selected))
    ensures DistinctItems(items) && forall x :: x in items <==> Picked(tree, selected, x)
  {
    var all, keep := Everything([], tree.children), Keeping(selected);
    WalkIsChosen([], tree.children, selected);
    EverythingDistinct([], tree.children);
    ChosenDistinct(all, keep);
    forall x ensures x in items <==> Picked(tree, selected, x) {
      ChosenMember(all, keep, x);
    }
  }

  lemma PickedScanned(root: Text, tree: Tree, selected: seq<Text>, items: seq<Item>, entries: seq<Entry>, sorted: seq<Entry>)
    requires |entries| == |items| && forall i :: 0 <= i < |items| ==> entries[i] == ItemEntry(root, items[i])
    requires forall x :: x in items <==> Picked(tree, selected, x)
    requires Members(sorted, entries) && DistinctPaths(sorted) && Ordered(sorted, PathOrder)
    ensures Scanned(root, tree, selected, [MakeEntry(root, tree.stat)] + sorted)
  {
    var scanned := [MakeEntry(root, tree.stat)] + sorted;
    assert scanned[1..] == sorted;
    forall e | e in sorted ensures exists x :: Picked(tree, selected, x) && e == ItemEntry(root, x) {
      var i :| 0 <= i < |entries| && entries[i] == e;
      assert Picked(tree, selected, items[i]);
    }
    forall x | Picked(tree, selected, x) ensures ItemEntry(root, x) in sorted {
      var i :| 0 <= i < |items| && items[i] == x;
      assert entries[i] in entries;
    }
    forall j | 0 <= j < |sorted| ensures sorted[j].path != root {
      assert sorted[j] in sorted;
      var x :| Picked(tree, selected, x) && sorted[j] == ItemEntry(root, x);
    }
  }

  /** Walks the source and sorts what it found behind the root. */
  method CollectEntries(root: Text, tree: Tree, selected: seq<Text>) returns (scanned: seq<Entry>, bytes: nat)
    requires ProperRoot(root, tree) && Named(tree.children) && Sorted(selected)
    ensures Scanned(root, tree, selected, scanned) && bytes == TotalSize(scanned)
  {
    var items := WalkSource(tree.children, selected);
    WalkPicked(tree, selected, items);
    var entries;
    entries, bytes := BuildEntries(root, items);
    EntriesDistinct(root, items, entries);
    PathOrderTotal();
    var sorted := SortBy(entries, PathOrder);
    scanned := [MakeEntry(root, tree.stat)] + sorted;
    PickedScanned(root, tree, selected, items, entries, sorted);
    SameTotal(entries, sorted);
    TotalWithRoot(MakeEntry(root, tree.stat), sorted);
  }

  /** Sorting does not change the total. */
  lemma {:induction false} SameTotal(a: seq<Entry>, b: seq<Entry>)
    requires DistinctPaths(a) && DistinctPaths(b) && Members(b, a) && |a| == |b|
    ensures TotalSize(a) == TotalSize(b)
  {
    if a != [] {
      var e := a[|a| - 1];
      assert e in b;
      var k :| 0 <= k < |b| && b[k] == e;
      TotalWithout(b, k);
      var shorter, rest := a[..|a| - 1], RemoveAt(b, k);
      forall x ensures x in rest <==> x in shorter {
        assert x in a <==> x in shorter || x == e;
        MemberWithout(b, k, x);
      }
      assert DistinctPaths(rest);
      SameTotal(shorter, rest);
    }
  }

  lemma MemberWithout(b: seq<Entry>, k: nat, x: Entry)
    requires k < |b| && DistinctPaths(b)
    ensures x in RemoveAt(b, k) <==> x in b && x != b[k]
  {
    if x in b && x != b[k] {
      var j :| 0 <= j < |b| && b[j] == x;
      assert RemoveAt(b, k)[if j < k then j else j - 1] == x;
    }
  }

  lemma {:induction false} TotalWithout(b: seq<Entry>, k: nat)
    requires k < |b|
    ensures TotalSize(b) == TotalSize(RemoveAt(b, k)) + b[k].size
  {
    var last := |b| - 1;
    if k == last {
      assert RemoveAt(b, k) == b[..last];
    } else {
      TotalWithout(b[..last], k);
      assert RemoveAt(b, k)[..last - 1] == RemoveAt(b[..last], k);
    }
  }

  lemma TotalWithRoot(root: Entry, rest: seq<Entry>)
    requires root.size == 0
    ensures TotalSize([root] + rest) == TotalSize(rest)
  {
    TotalWithout([root] + rest, 0);
    assert RemoveAt([root] + rest, 0) == rest;
  }

  /** The scanned entries with repeated names of one file turned into hardlinks. */
  ghost predicate LinkedList(scanned: seq<Entry>, linked: seq<Entry>)
  {
    && |linked| == |scanned|
    && forall i :: 0 <= i < |scanned| ==> Unchanged(scanned, i) && linked[i] == Aliased(scanned, i)
  }

  /** A hardlink follows its content entry and has the same metadata. */
  lemma AliasLinked(scanned: seq<Entry>, linked: seq<Entry>, i: nat)
    requires LinkedList(scanned, linked) && i < |scanned| && !scanned[i].kind.Hardlink?
    ensures Linked(linked, i)
  {
    if linked[i].kind.Hardlink? {
      var j := FirstAlias(scanned, i, 0);
      assert Unchanged(scanned, i) && linked[i] == Aliased(scanned, i);
      FirstIsFirst(scanned, i);
      assert linked[j] == Aliased(scanned, j) == scanned[j];
      assert SameMetadata(linked[i], linked[j]);
    }
  }

  lemma FirstIsFirst(scanned: seq<Entry>, i: nat)
    requires i < |scanned| && scanned[i].kind.Regular?
    ensures var j := FirstAlias(scanned, i, 0); FirstAlias(scanned, j, 0) == j
  {
    var j := FirstAlias(scanned, i, 0);
    var k := FirstAlias(scanned, j, 0);
    assert SameFile(scanned[k], scanned[i]);
  }

  lemma RootAncestors(root: Text, rel: Text, a: Text)
    requires Slash !in root && IsAncestor(a, Below(root, rel))
    ensures a == root || (IsAncestor(root, a) && a == Below(root, a[|root| + 1..]) && IsAncestor(a[|root| + 1..], rel))
  {
    var p := Below(root, rel);
    AncestorsOrdered(a, root, p);
    if IsAncestor(root, a) {
      var inner := a[|root| + 1..];
      assert a == root + [Slash] + inner;
      assert rel == p[|root| + 1..];
    }
  }

  /** Everything above a scanned entry was scanned too. */
  lemma ScannedParents(root: Text, tree: Tree, selected: seq<Text>, scanned: seq<Entry>, x: Item, a: Text)
    requires Scanned(root, tree, selected, scanned) && ProperRoot(root, tree) && Named(tree.children)
    requires Picked(tree, selected, x) && IsAncestor(a, Below(root, x.path))
    ensures HasDirectory(scanned, a)
  {
    RootAncestors(root, x.path, a);
    if a == root {
      assert scanned[0].path == root;
    } else {
      var inner, all := a[|root| + 1..], Everything([], tree.children);
      var i :| 0 <= i < |all| && all[i] == x;
      EverythingParents([], tree.children, i, inner);
      var j :| 0 <= j < |all| && all[j].path == inner && all[j].stat.kind.Directory?;
      WantedAbove(selected, x.path, inner);
      assert Picked(tree, selected, all[j]);
      var k :| 0 <= k < |scanned| - 1 && scanned[1..][k] == ItemEntry(root, all[j]);
      assert scanned[k + 1].path == a;
    }
  }

  lemma ScannedEntry(root: Text, tree: Tree, selected: seq<Text>, scanned: seq<Entry>, i: nat) returns (x: Item)
    requires Scanned(root, tree, selected, scanned) && ProperRoot(root, tree) && Named(tree.children) && 1 <= i < |scanned|
    ensures Picked(tree, selected, x) && scanned[i] == ItemEntry(root, x) && Archivable(root, x)
  {
    assert scanned[i] in scanned[1..];
    x :| Picked(tree, selected, x) && scanned[i] == ItemEntry(root, x);
    var all := Everything([], tree.children);
    var j :| 0 <= j < |all| && all[j] == x;
    SafeNameIsSafe(root);
    EverythingArchivable(root, [], tree.children, j);
  }

  lemma ListParents(scanned: seq<Entry>, linked: seq<Entry>, a: Text)
    requires LinkedList(scanned, linked) && HasDirectory(scanned, a)
    ensures HasDirectory(linked, a)
  {
    var j :| 0 <= j < |scanned| && scanned[j].path == a && scanned[j].kind.Directory?;
    assert linked[j] == Aliased(scanned, j);
  }

  /** The scanned list has the structure every archive must have. */
  lemma ScanStructured(root: Text, tree: Tree, selected: seq<Text>, scanned: seq<Entry>, linked: seq<Entry>)
    requires Scanned(root, tree, selected, scanned) && ProperRoot(root, tree) && Named(tree.children)
    requires |scanned| <= MaxEntries && LinkedList(scanned, linked)
    ensures Structured(linked)
  {
    forall i | 0 <= i < |linked| ensures linked[i].path == scanned[i].path {
      assert linked[i] == Aliased(scanned, i);
    }
    SafeNameIsSafe(root);
    forall i | 0 <= i < |linked|
      ensures Safe(linked[i].path) && Linked(linked, i) && ParentsListed(linked, linked[i].path)
      ensures i >= 1 ==> IsAncestor(root, linked[i].path)
    {
      if i == 0 {
        AliasLinked(scanned, linked, 0);
        forall a ensures !IsAncestor(a, root) {
          assert |a| < |root| ==> root[|a|] != Slash;
        }
      } else {
        var x := ScannedEntry(root, tree, selected, scanned, i);
        AliasLinked(scanned, linked, i);
        forall a | IsAncestor(a, linked[i].path) ensures HasDirectory(linked, a) {
          ScannedParents(root, tree, selected, scanned, x, a);
          ListParents(scanned, linked, a);
        }
      }
    }
    assert linked[0] == Aliased(scanned, 0);
  }

  /** Every selected path is in the list. */
  method AllSelectedFound(root: Text, scanned: seq<Entry>, selected: seq<Text>) returns (ok: bool)
    requires scanned != [] && DistinctPaths(scanned) && Ordered(scanned[1..], PathOrder) && scanned[0].path == root
    requires forall i :: 1 <= i < |scanned| ==> IsAncestor(root, scanned[i].path)
    ensures ok <==> AllFound(root, scanned, selected)
  {
    var paths := seq(|scanned|, i requires 0 <= i < |scanned| => scanned[i].path);
    PathsSorted(scanned, paths);
    var k: nat := 0;
    while k < |selected|
      invariant k <= |selected|
      invariant forall j :: 0 <= j < k ==> exists i :: 0 <= i < |scanned| && scanned[i].path == Below(root, selected[j])
    {
      var found := Contains(paths, Below(root, selected[k]));
      if !found {
        forall i | 0 <= i < |scanned| ensures scanned[i].path != Below(root, selected[k]) {
          assert paths[i] in paths;
        }
        assert selected[k] in selected;
        return false;
      }
      var i :| 0 <= i < |paths| && paths[i] == Below(root, selected[k]);
      assert scanned[i].path == Below(root, selected[k]);
      k := k + 1;
    }
    return true;
  }

  lemma PathsSorted(scanned: seq<Entry>, paths: seq<Text>)
    requires |paths| == |scanned| && scanned != [] && forall i :: 0 <= i < |scanned| ==> paths[i] == scanned[i].path
    requires DistinctPaths(scanned) && Ordered(scanned[1..], PathOrder)
    requires forall i :: 1 <= i < |scanned| ==> IsAncestor(scanned[0].path, scanned[i].path)
    ensures Sorted(paths)
  {
    forall i, j | 0 <= i < j < |paths| ensures Less(paths[i], paths[j]) {
      if i == 0 {
        PrefixLess(paths[0], paths[j]);
      } else {
        assert PathOrder(scanned[1..][i - 1], scanned[1..][j - 1]);
        LessTotal(paths[i], paths[j]);
      }
    }
  }

  /** Every selected path was found. */
  ghost predicate AllFound(root: Text, scanned: seq<Entry>, selected: seq<Text>)
  {
    forall p :: p in selected ==> exists i :: 0 <= i < |scanned| && scanned[i].path == Below(root, p)
  }

  /** What a scan can use: not too many entries, every selected path found, and no file seen with differing metadata. */
  ghost predicate Scannable(root: Text, scanned: seq<Entry>, selected: seq<Text>)
  {
    |scanned| <= MaxEntries && AllFound(root, scanned, selected) && forall i :: 0 <= i < |scanned| ==> Unchanged(scanned, i)
  }

  /** There is one selection and one sorted list for what was asked for: what a scan finds is determined. */
  lemma ScannedOnce(root: Text, tree: Tree, includes: seq<Text>, selected: seq<Text>, scanned: seq<Entry>, others: seq<Text>, again: seq<Entry>)
    requires Selection(includes, selected) && Selection(includes, others)
    requires Scanned(root, tree, selected, scanned) && Scanned(root, tree, others, again)
    ensures selected == others && scanned == again
  {
    SortedOnce(selected, others);
    ListedOnce(root, tree, selected, scanned, again);
  }

  lemma ListedOnce(root: Text, tree: Tree, selected: seq<Text>, scanned: seq<Entry>, again: seq<Entry>)
    requires Scanned(root, tree, selected, scanned) && Scanned(root, tree, selected, again)
    ensures scanned == again
  {
    var a, b := scanned[1..], again[1..];
    forall e ensures e in a <==> e in b {
      ScannedMember(root, tree, selected, scanned, e);
      ScannedMember(root, tree, selected, again, e);
    }
    TailDistinct(scanned);
    TailDistinct(again);
    EntriesOnce(a, b);
    assert scanned == [scanned[0]] + a && again == [again[0]] + b;
  }

  lemma TailDistinct(list: seq<Entry>)
    requires list != [] && DistinctPaths(list)
    ensures DistinctPaths(list[1..])
  {
  }

  lemma ScannedMember(root: Text, tree: Tree, selected: seq<Text>, scanned: seq<Entry>, e: Entry)
    requires Scanned(root, tree, selected, scanned)
    ensures e in scanned[1..] <==> exists x :: Picked(tree, selected, x) && e == ItemEntry(root, x)
  {
  }

  lemma SameEmptiness<T>(a: seq<T>, b: seq<T>)
    requires forall x :: x in a <==> x in b
    ensures a == [] <==> b == []
  {
    if a != [] {
      assert a[0] in a;
    }
    if b != [] {
      assert b[0] in b;
    }
  }

  lemma {:induction false} SortedOnce(a: seq<Text>, b: seq<Text>)
    requires Sorted(a) && Sorted(b) && forall p :: p in a <==> p in b
    ensures a == b
  {
    SameEmptiness(a, b);
    if a != [] {
      SameLast(a, b);
      var m, n := |a| - 1, |b| - 1;
      forall p ensures p in a[..m] <==> p in b[..n] {
        NotBeforeLast(a, p);
        NotBeforeLast(b, p);
      }
      SortedOnce(a[..m], b[..n]);
      assert a == a[..m] + [a[m]] && b == b[..n] + [b[n]];
    }
  }

  lemma SameLast(a: seq<Text>, b: seq<Text>)
    requires Sorted(a) && Sorted(b) && a != [] && b != [] && forall p :: p in a <==> p in b
    ensures a[|a| - 1] == b[|b| - 1]
  {
    var x, y := a[|a| - 1], b[|b| - 1];
    assert x in b && y in a;
    if x != y {
      LessTransitive(x, y, x);
      LessIrreflexive(x);
    }
  }

  lemma NotBeforeLast(a: seq<Text>, p: Text)
    requires Sorted(a) && a != []
    ensures p in a[..|a| - 1] <==> p in a && p != a[|a| - 1]
  {
    LessIrreflexive(a[|a| - 1]);
  }

  lemma {:induction false} EntriesOnce(a: seq<Entry>, b: seq<Entry>)
    requires DistinctPaths(a) && DistinctPaths(b) && Ordered(a, PathOrder) && Ordered(b, PathOrder)
    requires forall e :: e in a <==> e in b
    ensures a == b
  {
    SameEmptiness(a, b);
    if a != [] {
      SameLastEntry(a, b);
      var m, n := |a| - 1, |b| - 1;
      forall e ensures e in a[..m] <==> e in b[..n] {
        EntryNotLast(a, e);
        EntryNotLast(b, e);
      }
      EntriesOnce(a[..m], b[..n]);
      assert a == a[..m] + [a[m]] && b == b[..n] + [b[n]];
    }
  }

  lemma EntryNotLast(a: seq<Entry>, e: Entry)
    requires DistinctPaths(a) && a != []
    ensures e in a[..|a| - 1] <==> e in a && e != a[|a| - 1]
  {
  }

  lemma SameLastEntry(a: seq<Entry>, b: seq<Entry>)
    requires DistinctPaths(a) && DistinctPaths(b) && Ordered(a, PathOrder) && Ordered(b, PathOrder)
    requires a != [] && b != [] && forall e :: e in a <==> e in b
    ensures a[|a| - 1] == b[|b| - 1]
  {
    var x, y := a[|a| - 1], b[|b| - 1];
    assert x in b && y in a;
    if x != y {
      var i :| 0 <= i < |a| && a[i] == y;
      var j :| 0 <= j < |b| && b[j] == x;
      assert PathOrder(y, x) && PathOrder(x, y);
      LessTotal(x.path, y.path);
    }
  }

  /** What was asked for can be scanned, in terms of the source alone. */
  ghost predicate CanScan(root: Text, tree: Tree, includes: seq<Text>)
  {
    AllAcceptable(includes) && exists selected, scanned ::
      Selection(includes, selected) && Scanned(root, tree, selected, scanned) && Scannable(root, scanned, selected)
  }

  lemma CanScanMeaning(root: Text, tree: Tree, includes: seq<Text>, selected: seq<Text>, scanned: seq<Entry>)
    requires AllAcceptable(includes) && Selection(includes, selected) && Scanned(root, tree, selected, scanned)
    ensures CanScan(root, tree, includes) <==> Scannable(root, scanned, selected)
  {
    if CanScan(root, tree, includes) {
      var others, again :| Selection(includes, others) && Scanned(root, tree, others, again) && Scannable(root, again, others);
      ScannedOnce(root, tree, includes, selected, scanned, others, again);
    }
  }

  /**
   The entries of a backup: exactly the wanted part of the source, structured as an archive requires.
   It succeeds exactly when every selected path is acceptable and what is found can be used.
   */
  method ScanDirectory(root: Text, tree: Tree, includes: seq<Text>)
    returns (result: Option<seq<Entry>>, bytes: nat, ghost selected: seq<Text>, ghost scanned: seq<Entry>)
    requires ProperRoot(root, tree) && Named(tree.children)
    ensures AllAcceptable(includes) ==> Selection(includes, selected) && Scanned(root, tree, selected, scanned)
    ensures result.Some? <==> CanScan(root, tree, includes)
    ensures result.Some? ==> Scannable(root, scanned, selected)
    ensures result.Some? ==> LinkedList(scanned, result.value) && Structured(result.value) && bytes == TotalSize(result.value)
  {
    result, bytes, selected, scanned := None, 0, [], [];
    ghost var clean;
    var paths;
    paths, clean := NormalizeIncludes(includes);
    if paths.None? {
      return;
    }
    selected := paths.value;
    SelectionMade(includes, clean, selected);
    var entries;
    entries, bytes := CollectEntries(root, tree, paths.value);
    scanned := entries;
    CanScanMeaning(root, tree, includes, selected, scanned);
    if |entries| > MaxEntries {
      return;
    }
    forall i | 1 <= i < |entries| ensures IsAncestor(root, entries[i].path) {
      var x := ScannedEntry(root, tree, selected, scanned, i);
    }
    var ok := AllSelectedFound(root, entries, paths.value);
    if !ok {
      return;
    }
    var linked;
    ok, linked, bytes := DetectLinks(entries, bytes);
    if !ok {
      return;
    }
    ScanStructured(root, tree, selected, scanned, linked);
    result := Some(linked);
  }
}
