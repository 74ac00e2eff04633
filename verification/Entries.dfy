/** Archive entries and the structure every accepted list has. */
module Entries {
  import opened Bytes
  import opened Paths

  const MaxEntries := 1000000

  datatype Kind = Regular | Directory | Symlink | Fifo | Character | Block | Socket | Hardlink

  datatype Time = Time(seconds: int, nanos: nat)

  /** Where a scanned entry came from; nothing of it is stored in an archive. */
  datatype Source = Source(volume: nat, inode: nat, size: nat)

  const NoSource := Source(0, 0, 0)

  datatype Entry = Entry(path: Text, kind: Kind, mode: nat, uid: nat, gid: nat, size: nat, atime: Time, mtime: Time, ctime: Time,
                         link: Text, device: nat, offset: nat, source: Source)

  // ---- what an accepted list looks like ----

  predicate SameMetadata(a: Entry, b: Entry)
  {
    a.mode == b.mode && a.uid == b.uid && a.gid == b.gid && a.mtime == b.mtime && a.atime == b.atime
  }

  ghost predicate DistinctPaths(entries: seq<Entry>)
  {
    forall i, j :: 0 <= i < j < |entries| ==> entries[i].path != entries[j].path
  }

  predicate InsidePack(e: Entry, packedSize: nat)
  {
    e.kind.Regular? ==> e.offset <= packedSize && e.size <= packedSize - e.offset
  }

  /** The content entry of a hardlink comes before it. */
  ghost predicate Linked(entries: seq<Entry>, i: nat)
    requires i < |entries|
  {
    entries[i].kind.Hardlink? ==>
      exists j :: 0 <= j < i && entries[j].kind.Regular? && entries[j].path == entries[i].link && SameMetadata(entries[i], entries[j])
  }

  ghost predicate HasDirectory(entries: seq<Entry>, p: Text)
  {
    exists j :: 0 <= j < |entries| && entries[j].path == p && entries[j].kind.Directory?
  }

  /** Everything above an entry is in the list and is a directory. */
  ghost predicate ParentsListed(entries: seq<Entry>, p: Text)
  {
    forall a :: IsAncestor(a, p) ==> HasDirectory(entries, a)
  }

  ghost predicate Rooted(entries: seq<Entry>)
  {
    && entries != [] && Slash !in entries[0].path && entries[0].kind.Directory?
    && forall i :: 1 <= i < |entries| ==> IsAncestor(entries[0].path, entries[i].path)
  }

  /** The shape of the list, whatever the pack holds. */
  ghost predicate Structured(entries: seq<Entry>)
  {
    && |entries| <= MaxEntries && DistinctPaths(entries) && Rooted(entries)
    && forall i :: 0 <= i < |entries| ==>
         Safe(entries[i].path) && Linked(entries, i) && ParentsListed(entries, entries[i].path)
  }

  ghost predicate WellFormed(entries: seq<Entry>, packedSize: nat)
  {
    Structured(entries) && forall i :: 0 <= i < |entries| ==> InsidePack(entries[i], packedSize)
  }

  // ---- sorting ----

  type Order = (Entry, Entry) -> bool

  ghost predicate Ordered(list: seq<Entry>, before: Order)
  {
    forall i, j :: 0 <= i < j < |list| ==> before(list[i], list[j])
  }

  ghost predicate TotalPreorder(before: Order)
  {
    && (forall a, b :: before(a, b) || before(b, a))
    && (forall a, b, c :: before(a, b) && before(b, c) ==> before(a, c))
  }

  ghost predicate Members(list: seq<Entry>, entries: seq<Entry>)
  {
    forall e :: e in list <==> e in entries
  }

  method SortBy(list: seq<Entry>, before: Order) returns (sorted: seq<Entry>)
    requires DistinctPaths(list) && TotalPreorder(before)
    ensures Ordered(sorted, before) && DistinctPaths(sorted) && Members(sorted, list) && |sorted| == |list|
  {
    sorted := [];
    var i: nat := 0;
    assert list[..0] == [];
    while i < |list|
      invariant i <= |list| && |sorted| == i && Ordered(sorted, before) && DistinctPaths(sorted) && Members(sorted, list[..i])
    {
      var e := list[i];
      var k: nat := 0;
      while k < |sorted| && before(sorted[k], e)
        invariant k <= |sorted|
        invariant forall j :: 0 <= j < k ==> before(sorted[j], e)
      {
        k := k + 1;
      }
      InsertFacts(sorted, list[..i], e, k, before);
      assert list[..i + 1] == list[..i] + [e];
      sorted := sorted[..k] + [e] + sorted[k..];
      i := i + 1;
    }
    assert list[..i] == list;
  }

  lemma InsertFacts(sorted: seq<Entry>, done: seq<Entry>, e: Entry, k: nat, before: Order)
    requires k <= |sorted| && Ordered(sorted, before) && DistinctPaths(sorted) && Members(sorted, done) && TotalPreorder(before)
    requires forall j :: 0 <= j < |done| ==> done[j].path != e.path
    requires forall j :: 0 <= j < k ==> before(sorted[j], e)
    requires k < |sorted| ==> !before(sorted[k], e)
    ensures var r := sorted[..k] + [e] + sorted[k..]; Ordered(r, before) && DistinctPaths(r) && Members(r, done + [e])
  {
    var r := sorted[..k] + [e] + sorted[k..];
    forall j | 0 <= j < |sorted| ensures sorted[j].path != e.path && (j >= k ==> before(e, sorted[j])) {
      assert sorted[j] in done;
      assert j > k ==> before(sorted[k], sorted[j]);
    }
    assert forall x :: x in r <==> x in sorted || x == e;
  }

  // ---- the check ----

  /** The first pass: safe and distinct paths, content inside the pack, hardlinks to earlier files. */
  method CheckEach(entries: seq<Entry>, packedSize: nat) returns (ok: bool)
    ensures ok <==> DistinctPaths(entries) && forall i :: 0 <= i < |entries| ==>
      Safe(entries[i].path) && InsidePack(entries[i], packedSize) && Linked(entries, i)
  {
    var paths: set<Text>, originals: map<Text, Entry> := {}, map[];
    var i: nat := 0;
    while i < |entries|
      invariant i <= |entries| && DistinctPaths(entries[..i])
      invariant forall p :: p in paths <==> exists j :: 0 <= j < i && entries[j].path == p
      invariant forall j :: 0 <= j < i && entries[j].kind.Regular? ==> entries[j].path in originals && originals[entries[j].path] == entries[j]
      invariant forall p :: p in originals ==> exists j :: 0 <= j < i && entries[j] == originals[p] && entries[j].path == p && entries[j].kind.Regular?
      invariant forall j :: 0 <= j < i ==> Safe(entries[j].path) && InsidePack(entries[j], packedSize) && Linked(entries, j)
    {
      var e := entries[i];
      if !Safe(e.path) || e.path in paths {
        return false;
      }
      paths := paths + {e.path};
      if e.kind.Regular? {
        if !InsidePack(e, packedSize) {
          return false;
        }
        originals := originals[e.path := e];
      } else if e.kind.Hardlink? {
        if !Safe(e.link) || e.link !in originals {
          return false;
        }
        if !SameMetadata(e, originals[e.link]) {
          return false;
        }
      }
      i := i + 1;
    }
    assert entries[..i] == entries;
    return true;
  }

  /** The second pass: one top-level directory, and everything below it. */
  method CheckRoot(entries: seq<Entry>) returns (ok: bool)
    requires entries != [] && Safe(entries[0].path)
    ensures ok <==> Rooted(entries)
  {
    var root := entries[0].path;
    if LastSlash(root) >= 0 || !entries[0].kind.Directory? {
      return false;
    }
    var i: nat := 1;
    while i < |entries|
      invariant 1 <= i <= |entries|
      invariant forall j :: 1 <= j < i ==> IsAncestor(root, entries[j].path)
    {
      if !IsAncestor(root, entries[i].path) {
        return false;
      }
      i := i + 1;
    }
    return true;
  }

  ghost predicate Hierarchy(entries: seq<Entry>, hierarchy: map<Text, Kind>)
  {
    && (forall i :: 0 <= i < |entries| ==> entries[i].path in hierarchy && hierarchy[entries[i].path] == entries[i].kind)
    && (forall p :: p in hierarchy ==> exists i :: 0 <= i < |entries| && entries[i].path == p)
  }

  lemma HierarchyDirectory(entries: seq<Entry>, hierarchy: map<Text, Kind>, p: Text)
    requires Hierarchy(entries, hierarchy)
    ensures HasDirectory(entries, p) <==> p in hierarchy && hierarchy[p].Directory?
  {
  }

  /** Walks from the parent of one entry up to the top. */
  method CheckParents(entries: seq<Entry>, hierarchy: map<Text, Kind>, path: Text) returns (ok: bool)
    requires Hierarchy(entries, hierarchy) && Safe(path)
    ensures ok <==> ParentsListed(entries, path)
  {
    var current := path;
    var parent := Parent(path);
    while parent != []
      invariant current == path || IsAncestor(current, path)
      invariant parent == Parent(current)
      invariant forall a :: IsAncestor(a, path) ==> a == current || IsAncestor(a, current) || HasDirectory(entries, a)
      invariant current == path || HasDirectory(entries, current)
      decreases |parent|
    {
      HierarchyDirectory(entries, hierarchy, parent);
      if current != path {
        AncestorTransitive(parent, current, path);
      }
      if parent !in hierarchy || hierarchy[parent] != Directory {
        return false;
      }
      forall a | IsAncestor(a, current) ensures a == parent || IsAncestor(a, parent) {
        AncestorsOrdered(a, parent, current);
      }
      current, parent := parent, Parent(parent);
    }
    forall a | IsAncestor(a, path) ensures HasDirectory(entries, a) {
      if IsAncestor(a, current) {
        assert current[|a|] == Slash;
        NoParentNoSlash(path, current, |a|);
      }
    }
    return true;
  }

  /** Below a safe path's top there is no empty parent. */
  lemma NoParentNoSlash(path: Text, current: Text, k: nat)
    requires Safe(path) && (current == path || IsAncestor(current, path)) && k < |current| && current[k] == Slash
    ensures Parent(current) != []
  {
    if LastSlash(current) == 0 {
      assert path[0] == current[0] == Slash;
      SafeSlash(path, 0);
    }
  }

  method BuildHierarchy(entries: seq<Entry>) returns (hierarchy: map<Text, Kind>)
    requires DistinctPaths(entries)
    ensures Hierarchy(entries, hierarchy)
  {
    hierarchy := map[];
    var i: nat := 0;
    while i < |entries|
      invariant i <= |entries|
      invariant forall j :: 0 <= j < i ==> entries[j].path in hierarchy && hierarchy[entries[j].path] == entries[j].kind
      invariant forall p :: p in hierarchy ==> exists j :: 0 <= j < i && entries[j].path == p
    {
      hierarchy := hierarchy[entries[i].path := entries[i].kind];
      i := i + 1;
    }
  }

  /** Accepts exactly the well-formed lists. */
  method ValidateEntries(entries: seq<Entry>, packedSize: nat) returns (ok: bool)
    ensures ok <==> WellFormed(entries, packedSize)
  {
    if entries == [] || |entries| > MaxEntries {
      return false;
    }
    ok := CheckEach(entries, packedSize);
    if !ok {
      return false;
    }
    ok := CheckRoot(entries);
    if !ok {
      return false;
    }
    var hierarchy := BuildHierarchy(entries);
    var i: nat := 0;
    while i < |entries|
      invariant i <= |entries|
      invariant forall j :: 0 <= j < i ==> ParentsListed(entries, entries[j].path)
    {
      ok := CheckParents(entries, hierarchy, entries[i].path);
      if !ok {
        return false;
      }
      i := i + 1;
    }
    return true;
  }
}
