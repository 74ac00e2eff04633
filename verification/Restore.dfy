/** Restoring a validated list of entries into an empty destination directory. */
module Restore {
  import opened Bytes
  import opened Paths
  import opened Entries

  const PrivateMode := 448
  const LinkMode := 511

  datatype Attributes = Attributes(mode: nat, uid: nat, gid: nat, atime: Time, mtime: Time)

  datatype Node =
    | Folder(attributes: Attributes)
    | File(inode: nat)
    | Special(kind: Kind, target: Text, device: nat, attributes: Attributes)

  datatype Inode = Inode(content: seq<byte>, attributes: Attributes)

  /** The permission bits its owner needs to open a directory and look inside. */
  predicate Passable(mode: nat)
  {
    (mode / 256) % 2 == 1 && (mode / 64) % 2 == 1
  }

  predicate Writable(mode: nat)
  {
    (mode / 128) % 2 == 1
  }

  /** Every directory above `path` exists and can be opened, one inside the other. */
  ghost predicate Reachable(nodes: map<Text, Node>, path: Text)
  {
    forall a :: IsAncestor(a, path) ==> a in nodes && nodes[a].Folder? && Passable(nodes[a].attributes.mode)
  }

  /** A new name may be made in the directory of `path`; the destination itself is writable. */
  predicate CanCreate(nodes: map<Text, Node>, path: Text)
  {
    Parent(path) == [] || (Parent(path) in nodes && nodes[Parent(path)].Folder? && Writable(nodes[Parent(path)].attributes.mode))
  }

  /** Making a name changes the modification time of the directory that holds it. */
  function Touched(nodes: map<Text, Node>, path: Text, now: Time): map<Text, Node>
  {
    var parent := Parent(path);
    if parent in nodes && nodes[parent].Folder?
    then nodes[parent := Folder(nodes[parent].attributes.(mtime := now))]
    else nodes
  }

  /** The permissions of a symbolic link are not its own to set. */
  function AttributesOf(e: Entry): Attributes
  {
    Attributes(if e.kind.Symlink? then LinkMode else e.mode, e.uid, e.gid, e.atime, e.mtime)
  }

  /** The destination and one temporary node, made under a name no entry has. */
  class FileSystem {
    var nodes: map<Text, Node>
    var inodes: map<nat, Inode>
    var next: nat
    var temporary: Option<Node>

    constructor ()
      ensures nodes == map[] && inodes == map[] && next == 0 && temporary == None
    {
      nodes, inodes, next, temporary := map[], map[], 0, None;
    }

    /** Opens the directories above `path` from the top, refusing anything that is not one. */
    method OpenParent(path: Text) returns (ok: bool)
      ensures ok <==> Reachable(nodes, path)
    {
      var i: nat := 0;
      while i < |path|
        invariant i <= |path|
        invariant forall a :: IsAncestor(a, path) && |a| < i ==> a in nodes && nodes[a].Folder? && Passable(nodes[a].attributes.mode)
      {
        if path[i] == Slash {
          var current := path[..i];
          assert IsAncestor(current, path);
          if current !in nodes || !nodes[current].Folder? || !Passable(nodes[current].attributes.mode) {
            return false;
          }
        }
        i := i + 1;
      }
      return true;
    }

    /** Makes a directory only its owner can use. */
    method EnsureDirectory(path: Text, overwrite: bool, now: Time) returns (ok: bool)
      modifies this`nodes
      ensures ok <==> if path in old(nodes) then overwrite && old(nodes)[path].Folder? else CanCreate(old(nodes), path)
      ensures nodes == if ok && path !in old(nodes)
        then Touched(old(nodes), path, now)[path := Folder(Attributes(PrivateMode, 0, 0, now, now))]
        else old(nodes)
    {
      if path in nodes {
        return overwrite && nodes[path].Folder?;
      }
      if !CanCreate(nodes, path) {
        return false;
      }
      nodes := Touched(nodes, path, now)[path := Folder(Attributes(PrivateMode, 0, 0, now, now))];
      return true;
    }

    /** A file of its own inode, filled from the pack, with the entry's attributes. */
    method CreateFile(content: seq<byte>, attributes: Attributes)
      modifies this`inodes, this`next, this`temporary
      ensures temporary == Some(File(old(next))) && next == old(next) + 1
      ensures inodes == old(inodes)[old(next) := Inode(content, attributes)]
    {
      inodes := inodes[next := Inode(content, attributes)];
      temporary := Some(File(next));
      next := next + 1;
    }

    method CreateNode(node: Node)
      modifies this`temporary
      ensures temporary == Some(node)
    {
      temporary := Some(node);
    }

    method Discard()
      modifies this`temporary
      ensures temporary == None
    {
      temporary := None;
    }

    /** Gives the temporary node its name; without `overwrite` the name must be free. */
    method Commit(path: Text, overwrite: bool, now: Time) returns (ok: bool)
      requires temporary.Some?
      modifies this`nodes, this`temporary
      ensures temporary == None
      ensures ok <==> CanCreate(old(nodes), path) && (path in old(nodes) ==> overwrite && !old(nodes)[path].Folder?)
      ensures nodes == if ok then Touched(old(nodes), path, now)[path := old(temporary).value] else old(nodes)
    {
      ok := CanCreate(nodes, path) && (path in nodes ==> overwrite && !nodes[path].Folder?);
      if ok {
        nodes := Touched(nodes, path, now)[path := temporary.value];
      }
      temporary := None;
    }

    /** Sets owner, permissions and times of a directory. */
    method ApplyMetadata(path: Text, attributes: Attributes) returns (ok: bool)
      modifies this`nodes
      ensures ok <==> path in old(nodes) && old(nodes)[path].Folder?
      ensures nodes == if ok then old(nodes)[path := Folder(attributes)] else old(nodes)
    {
      if path !in nodes || !nodes[path].Folder? {
        return false;
      }
      nodes := nodes[path := Folder(attributes)];
      return true;
    }
  }

  // ---- ordering the directories ----

  predicate Shallower(a: Entry, b: Entry)
  {
    Depth(a.path) <= Depth(b.path)
  }

  predicate Deeper(a: Entry, b: Entry)
  {
    Depth(a.path) >= Depth(b.path)
  }

  // ---- what is on the disk along the way ----

  predicate Anything(e: Entry)
  {
    true
  }

  predicate IsFolder(e: Entry)
  {
    e.kind.Directory?
  }

  predicate IsFile(e: Entry)
  {
    e.kind.Regular?
  }

  /** The paths of the first `k` entries that are of a sort. */
  function PathsOf(entries: seq<Entry>, k: nat, sort: Entry -> bool): set<Text>
    requires k <= |entries|
  {
    if k == 0 then {} else PathsOf(entries, k - 1, sort) + if sort(entries[k - 1]) then {entries[k - 1].path} else {}
  }

  lemma {:induction false} PathsOfMeaning(entries: seq<Entry>, k: nat, sort: Entry -> bool, p: Text)
    requires k <= |entries|
    ensures p in PathsOf(entries, k, sort) <==> exists i :: 0 <= i < k && sort(entries[i]) && entries[i].path == p
  {
    if k > 0 {
      PathsOfMeaning(entries, k - 1, sort, p);
    }
  }

  lemma PathOf(entries: seq<Entry>, k: nat, sort: Entry -> bool, i: nat)
    requires i < k <= |entries| && sort(entries[i])
    ensures entries[i].path in PathsOf(entries, k, sort)
  {
    PathsOfMeaning(entries, k, sort, entries[i].path);
  }

  /** Open to its owner and to nobody else. */
  predicate Private(node: Node)
  {
    node.Folder? && node.attributes.mode / 64 == 7 && node.attributes.mode % 64 == 0
  }

  ghost predicate PrivateFolders(nodes: map<Text, Node>)
  {
    forall p :: p in nodes && nodes[p].Folder? ==> Private(nodes[p])
  }

  /** Exactly the first `k` directories, still in their owner's hands only. */
  ghost predicate OnlyFolders(nodes: map<Text, Node>, list: seq<Entry>, k: nat)
    requires k <= |list|
  {
    nodes.Keys == PathsOf(list, k, Anything) && forall p :: p in nodes ==> Private(nodes[p])
  }

  ghost predicate ClosedUp(list: seq<Entry>)
  {
    forall i, a :: 0 <= i < |list| && IsAncestor(a, list[i].path) ==> a in PathsOf(list, |list|, Anything)
  }

  /** The node of an entry, given the inode of each file restored so far. */
  ghost predicate Placed(nodes: map<Text, Node>, inodes: map<nat, Inode>, e: Entry, restored: map<Text, nat>, packed: seq<byte>)
  {
    e.path in nodes && InsidePack(e, |packed|) &&
    match e.kind
    case Directory => true
    case Regular =>
      && e.path in restored && restored[e.path] in inodes && nodes[e.path] == File(restored[e.path])
      && inodes[restored[e.path]] == Inode(packed[e.offset..e.offset + e.size], AttributesOf(e))
    case Hardlink => e.link in restored && nodes[e.path] == File(restored[e.link])
    case _ => nodes[e.path] == Special(e.kind, e.link, e.device, AttributesOf(e))
  }

  /** Each restored file has an inode of its own. */
  ghost predicate OwnInodes(next: nat, inodes: map<nat, Inode>, entries: seq<Entry>, k: nat, restored: map<Text, nat>)
    requires k <= |entries|
  {
    && restored.Keys == PathsOf(entries, k, IsFile)
    && (forall n :: n in inodes ==> n < next)
    && (forall p :: p in restored ==> restored[p] in inodes)
    && (forall p, q :: p in restored && q in restored && p != q ==> restored[p] != restored[q])
  }

  /** All directories and the first `k` entries, nothing else. */
  ghost predicate PrefixRestored(nodes: map<Text, Node>, inodes: map<nat, Inode>, entries: seq<Entry>, k: nat,
                                 restored: map<Text, nat>, packed: seq<byte>)
    requires k <= |entries|
  {
    && nodes.Keys == PathsOf(entries, |entries|, IsFolder) + PathsOf(entries, k, Anything)
    && (forall i :: 0 <= i < |entries| && entries[i].kind.Directory? ==>
          entries[i].path in nodes && nodes[entries[i].path].Folder?)
    && (forall i :: 0 <= i < k ==> Placed(nodes, inodes, entries[i], restored, packed))
  }

  /** Halfway through the list: `k` entries done, every directory still private. */
  ghost predicate Halfway(nodes: map<Text, Node>, inodes: map<nat, Inode>, next: nat, entries: seq<Entry>, k: nat,
                          restored: map<Text, nat>, packed: seq<byte>)
    requires k <= |entries|
  {
    OwnInodes(next, inodes, entries, k, restored) && PrivateFolders(nodes) && PrefixRestored(nodes, inodes, entries, k, restored, packed)
  }

  // ---- making the directories, shallow first ----

  /** In depth order, what is above an entry comes before it. */
  lemma AncestorEarlier(list: seq<Entry>, i: nat, j: nat)
    requires i < |list| && j < |list| && IsAncestor(list[j].path, list[i].path)
    ensures Ordered(list, Shallower) ==> j < i
    ensures Ordered(list, Deeper) ==> i < j
  {
    AncestorDepth(list[j].path, list[i].path);
    assert i != j;
    assert Ordered(list, Shallower) && i < j ==> Shallower(list[i], list[j]);
    assert Ordered(list, Deeper) && j < i ==> Deeper(list[j], list[i]);
  }

  lemma ParentMade(nodes: map<Text, Node>, list: seq<Entry>, i: nat)
    requires Ordered(list, Shallower) && ClosedUp(list) && i < |list| && OnlyFolders(nodes, list, i)
    ensures Reachable(nodes, list[i].path) && CanCreate(nodes, list[i].path)
  {
    forall a | IsAncestor(a, list[i].path) ensures a in nodes && Private(nodes[a]) {
      PathsOfMeaning(list, |list|, Anything, a);
      var j :| 0 <= j < |list| && list[j].path == a;
      AncestorEarlier(list, i, j);
      PathOf(list, i, Anything, j);
    }
  }

  lemma FolderMade(nodes: map<Text, Node>, list: seq<Entry>, i: nat, now: Time)
    requires i < |list| && DistinctPaths(list) && OnlyFolders(nodes, list, i)
    ensures list[i].path !in nodes
    ensures OnlyFolders(Touched(nodes, list[i].path, now)[list[i].path := Folder(Attributes(PrivateMode, 0, 0, now, now))], list, i + 1)
  {
    PathsOfMeaning(list, i, Anything, list[i].path);
  }

  method MakeDirectories(disk: FileSystem, directories: seq<Entry>, overwrite: bool, now: Time, budget: nat)
    returns (ok: bool, left: nat)
    requires Ordered(directories, Shallower) && ClosedUp(directories) && DistinctPaths(directories) && disk.nodes == map[]
    modifies disk`nodes
    ensures ok <==> budget >= |directories|
    ensures ok ==> left == budget - |directories|
    ensures OnlyFolders(disk.nodes, directories, if ok then |directories| else budget)
  {
    left := budget;
    var i: nat := 0;
    while i < |directories|
      invariant i <= |directories| && left + i == budget && OnlyFolders(disk.nodes, directories, i)
    {
      if left == 0 {
        return false, left;
      }
      ParentMade(disk.nodes, directories, i);
      FolderMade(disk.nodes, directories, i, now);
      var reached := disk.OpenParent(directories[i].path);
      var made := disk.EnsureDirectory(directories[i].path, overwrite, now);
      assert reached && made;
      left := left - 1;
      i := i + 1;
    }
    return true, left;
  }

  // ---- everything else, in list order ----

  lemma EntryNotYetThere(nodes: map<Text, Node>, inodes: map<nat, Inode>, entries: seq<Entry>, k: nat, restored: map<Text, nat>, packed: seq<byte>)
    requires k < |entries| && DistinctPaths(entries) && !entries[k].kind.Directory?
    requires PrefixRestored(nodes, inodes, entries, k, restored, packed)
    ensures entries[k].path !in nodes
  {
    PathsOfMeaning(entries, k, Anything, entries[k].path);
    PathsOfMeaning(entries, |entries|, IsFolder, entries[k].path);
  }

  lemma EntryReachable(nodes: map<Text, Node>, inodes: map<nat, Inode>, entries: seq<Entry>, k: nat, restored: map<Text, nat>, packed: seq<byte>)
    requires k < |entries| && ParentsListed(entries, entries[k].path)
    requires PrefixRestored(nodes, inodes, entries, k, restored, packed) && PrivateFolders(nodes)
    ensures Reachable(nodes, entries[k].path) && CanCreate(nodes, entries[k].path)
  {
    forall a | IsAncestor(a, entries[k].path) ensures a in nodes && Private(nodes[a]) {
      assert HasDirectory(entries, a);
    }
  }

  /** What is in place stays in place when another inode or name comes along. */
  lemma PlacedStays(nodes: map<Text, Node>, inodes: map<nat, Inode>, e: Entry, restored: map<Text, nat>, packed: seq<byte>,
                    nodes2: map<Text, Node>, inodes2: map<nat, Inode>, restored2: map<Text, nat>)
    requires Placed(nodes, inodes, e, restored, packed)
    requires e.path in nodes2 && (!e.kind.Directory? ==> nodes2[e.path] == nodes[e.path])
    requires forall n :: n in inodes ==> n in inodes2 && inodes2[n] == inodes[n]
    requires forall p :: p in restored ==> p in restored2 && restored2[p] == restored[p]
    ensures Placed(nodes2, inodes2, e, restored2, packed)
  {
  }

  lemma TouchedStays(nodes: map<Text, Node>, path: Text, now: Time, node: Node, p: Text)
    ensures var after := Touched(nodes, path, now)[path := node];
            && after.Keys == nodes.Keys + {path}
            && (p in nodes && p != path ==>
                  after[p].Folder? == nodes[p].Folder? && (!nodes[p].Folder? ==> after[p] == nodes[p])
                  && (Private(nodes[p]) ==> Private(after[p])))
  {
  }

  /** The node of entry `k` takes its place. */
  lemma EntryPlaced(nodes: map<Text, Node>, inodes: map<nat, Inode>, entries: seq<Entry>, k: nat, restored: map<Text, nat>, packed: seq<byte>,
                    node: Node, now: Time, inodes2: map<nat, Inode>, restored2: map<Text, nat>)
    requires k < |entries| && DistinctPaths(entries) && !entries[k].kind.Directory? && !node.Folder?
    requires PrefixRestored(nodes, inodes, entries, k, restored, packed) && PrivateFolders(nodes) && entries[k].path !in nodes
    requires forall n :: n in inodes ==> n in inodes2 && inodes2[n] == inodes[n]
    requires forall p :: p in restored ==> p in restored2 && restored2[p] == restored[p]
    requires Placed(map[entries[k].path := node], inodes2, entries[k], restored2, packed)
    ensures var after := Touched(nodes, entries[k].path, now)[entries[k].path := node];
            PrefixRestored(after, inodes2, entries, k + 1, restored2, packed) && PrivateFolders(after)
  {
    var path := entries[k].path;
    var after := Touched(nodes, path, now)[path := node];
    forall i | 0 <= i < |entries| && entries[i].kind.Directory?
      ensures entries[i].path in after && after[entries[i].path].Folder?
    {
      TouchedStays(nodes, path, now, node, entries[i].path);
    }
    forall i | 0 <= i < k + 1 ensures Placed(after, inodes2, entries[i], restored2, packed) {
      if i < k {
        TouchedStays(nodes, path, now, node, entries[i].path);
        assert Placed(nodes, inodes, entries[i], restored, packed);
        PlacedStays(nodes, inodes, entries[i], restored, packed, after, inodes2, restored2);
      }
    }
    forall p | p in after && after[p].Folder? ensures Private(after[p]) {
      TouchedStays(nodes, path, now, node, p);
    }
  }

  lemma InodeAdded(next: nat, inodes: map<nat, Inode>, entries: seq<Entry>, k: nat, restored: map<Text, nat>, inode: Inode)
    requires k < |entries| && OwnInodes(next, inodes, entries, k, restored) && entries[k].kind.Regular? && DistinctPaths(entries)
    ensures entries[k].path !in restored && next !in inodes
    ensures OwnInodes(next + 1, inodes[next := inode], entries, k + 1, restored[entries[k].path := next])
  {
    PathsOfMeaning(entries, k, IsFile, entries[k].path);
  }

  /** A validated hardlink's target has been restored by the time the link is. */
  lemma LinkRestored(next: nat, inodes: map<nat, Inode>, entries: seq<Entry>, k: nat, restored: map<Text, nat>, packedSize: nat)
    requires k < |entries| && WellFormed(entries, packedSize) && entries[k].kind.Hardlink?
    requires OwnInodes(next, inodes, entries, k, restored)
    ensures entries[k].link in restored
  {
    assert Linked(entries, k);
    PathsOfMeaning(entries, k, IsFile, entries[k].link);
  }

  /** Makes the temporary node of an entry; a hardlink's target is always there to link to. */
  method CreateTemporary(disk: FileSystem, packed: seq<byte>, entries: seq<Entry>, k: nat, restored: map<Text, nat>)
    returns (more: map<Text, nat>)
    requires k < |entries| && WellFormed(entries, |packed|) && !entries[k].kind.Directory?
    requires OwnInodes(disk.next, disk.inodes, entries, k, restored)
    modifies disk`inodes, disk`next, disk`temporary
    ensures disk.temporary.Some? && !disk.temporary.value.Folder?
    ensures Placed(map[entries[k].path := disk.temporary.value], disk.inodes, entries[k], more, packed)
    ensures forall n :: n in old(disk.inodes) ==> n in disk.inodes && disk.inodes[n] == old(disk.inodes)[n]
    ensures forall p :: p in restored ==> p in more && more[p] == restored[p]
    ensures OwnInodes(disk.next, disk.inodes, entries, k + 1, more)
  {
    var e := entries[k];
    assert InsidePack(e, |packed|);
    if e.kind.Regular? {
      InodeAdded(disk.next, disk.inodes, entries, k, restored, Inode(packed[e.offset..e.offset + e.size], AttributesOf(e)));
      more := restored[e.path := disk.next];
      disk.CreateFile(packed[e.offset..e.offset + e.size], AttributesOf(e));
    } else {
      more := restored;
      if e.kind.Hardlink? {
        LinkRestored(disk.next, disk.inodes, entries, k, restored, |packed|);
        disk.CreateNode(File(restored[e.link]));
      } else {
        disk.CreateNode(Special(e.kind, e.link, e.device, AttributesOf(e)));
      }
    }
  }

  lemma PrefixStays(nodes: map<Text, Node>, inodes: map<nat, Inode>, entries: seq<Entry>, k: nat, restored: map<Text, nat>, packed: seq<byte>,
                    inodes2: map<nat, Inode>, restored2: map<Text, nat>)
    requires k <= |entries| && PrefixRestored(nodes, inodes, entries, k, restored, packed)
    requires forall n :: n in inodes ==> n in inodes2 && inodes2[n] == inodes[n]
    requires forall p :: p in restored ==> p in restored2 && restored2[p] == restored[p]
    ensures PrefixRestored(nodes, inodes2, entries, k, restored2, packed)
  {
    forall i | 0 <= i < k ensures Placed(nodes, inodes2, entries[i], restored2, packed) {
      PlacedStays(nodes, inodes, entries[i], restored, packed, nodes, inodes2, restored2);
    }
  }

  /** Restores one entry that is not a directory; `budget` runs out where the user stops it. */
  method RestoreEntry(disk: FileSystem, packed: seq<byte>, entries: seq<Entry>, k: nat, restored: map<Text, nat>,
                      overwrite: bool, now: Time, budget: nat)
    returns (ok: bool, more: map<Text, nat>)
    requires k < |entries| && WellFormed(entries, |packed|) && !entries[k].kind.Directory?
    requires Halfway(disk.nodes, disk.inodes, disk.next, entries, k, restored, packed)
    modifies disk
    ensures disk.temporary == None && (ok <==> budget >= 2)
    ensures ok ==> Halfway(disk.nodes, disk.inodes, disk.next, entries, k + 1, more, packed)
    ensures !ok ==> PrefixRestored(disk.nodes, disk.inodes, entries, k, more, packed)
  {
    more := restored;
    if budget == 0 {
      disk.Discard();
      return false, more;
    }
    ghost var nodes, inodes := disk.nodes, disk.inodes;
    EntryNotYetThere(nodes, inodes, entries, k, restored, packed);
    EntryReachable(nodes, inodes, entries, k, restored, packed);
    var reached := disk.OpenParent(entries[k].path);
    assert reached;
    more := CreateTemporary(disk, packed, entries, k, restored);
    if budget == 1 {
      disk.Discard();
      PrefixStays(nodes, inodes, entries, k, restored, packed, disk.inodes, more);
      return false, more;
    }
    EntryPlaced(nodes, inodes, entries, k, restored, packed, disk.temporary.value, now, disk.inodes, more);
    ok := disk.Commit(entries[k].path, overwrite, now);
  }

  /** A directory in the list is already there. */
  lemma DirectorySkipped(nodes: map<Text, Node>, inodes: map<nat, Inode>, next: nat, entries: seq<Entry>, k: nat,
                         restored: map<Text, nat>, packed: seq<byte>)
    requires k < |entries| && entries[k].kind.Directory? && Halfway(nodes, inodes, next, entries, k, restored, packed)
    ensures Halfway(nodes, inodes, next, entries, k + 1, restored, packed)
  {
    PathOf(entries, |entries|, IsFolder, k);
  }

  /** The loop's body: a directory is there already, anything else is restored. */
  method RestoreNext(disk: FileSystem, packed: seq<byte>, entries: seq<Entry>, k: nat, restored: map<Text, nat>,
                     overwrite: bool, now: Time, budget: nat)
    returns (ok: bool, more: map<Text, nat>)
    requires k < |entries| && WellFormed(entries, |packed|) && disk.temporary == None
    requires Halfway(disk.nodes, disk.inodes, disk.next, entries, k, restored, packed)
    modifies disk
    ensures disk.temporary == None && (ok <==> entries[k].kind.Directory? || budget >= 2)
    ensures ok ==> Halfway(disk.nodes, disk.inodes, disk.next, entries, k + 1, more, packed)
    ensures !ok ==> PrefixRestored(disk.nodes, disk.inodes, entries, k, more, packed)
  {
    if entries[k].kind.Directory? {
      DirectorySkipped(disk.nodes, disk.inodes, disk.next, entries, k, restored, packed);
      return true, restored;
    }
    ok, more := RestoreEntry(disk, packed, entries, k, restored, overwrite, now, budget);
  }

  /** How many of the first `k` entries are not directories. */
  function Others(entries: seq<Entry>, k: nat): nat
    requires k <= |entries|
  {
    if k == 0 then 0 else Others(entries, k - 1) + if entries[k - 1].kind.Directory? then 0 else 1
  }

  lemma {:induction false} OthersGrow(entries: seq<Entry>, i: nat, k: nat)
    requires i <= k <= |entries|
    ensures Others(entries, i) <= Others(entries, k)
  {
    if i < k {
      OthersGrow(entries, i, k - 1);
    }
  }

  /** All entries that are not directories, in list order; stopped early, a prefix of them. */
  method RestoreEntries(disk: FileSystem, packed: seq<byte>, entries: seq<Entry>, overwrite: bool, now: Time, budget: nat)
    returns (ok: bool, left: nat, ghost done: nat, ghost restored: map<Text, nat>)
    requires WellFormed(entries, |packed|) && disk.temporary == None
    requires Halfway(disk.nodes, disk.inodes, disk.next, entries, 0, map[], packed)
    modifies disk
    ensures done <= |entries| && disk.temporary == None && PrefixRestored(disk.nodes, disk.inodes, entries, done, restored, packed)
    ensures ok <==> budget >= 2 * Others(entries, |entries|)
    ensures ok ==> done == |entries| && left == budget - 2 * Others(entries, |entries|)
    ensures ok ==> Halfway(disk.nodes, disk.inodes, disk.next, entries, done, restored, packed)
  {
    var files: map<Text, nat> := map[];
    left := budget;
    var i: nat := 0;
    while i < |entries|
      invariant i <= |entries| && left + 2 * Others(entries, i) == budget && disk.temporary == None
      invariant Halfway(disk.nodes, disk.inodes, disk.next, entries, i, files, packed)
    {
      OthersGrow(entries, i + 1, |entries|);
      ok, files := RestoreNext(disk, packed, entries, i, files, overwrite, now, left);
      if !ok {
        done, restored := i, files;
        return;
      }
      left := if entries[i].kind.Directory? then left else left - 2;
      i := i + 1;
    }
    ok, done, restored := true, i, files;
  }

  // ---- the directories' own metadata, deepest first ----

  /** The first `k` directories have their attributes; the rest are still private. */
  ghost predicate Finished(nodes: map<Text, Node>, list: seq<Entry>, k: nat)
    requires k <= |list|
  {
    && (forall i :: 0 <= i < k ==> list[i].path in nodes && nodes[list[i].path] == Folder(AttributesOf(list[i])))
    && (forall i :: k <= i < |list| ==> list[i].path in nodes && Private(nodes[list[i].path]))
  }

  ghost predicate AllFolders(entries: seq<Entry>, list: seq<Entry>)
  {
    DistinctPaths(list) && forall e :: e in list <==> e in entries && e.kind.Directory?
  }

  lemma StillReachable(nodes: map<Text, Node>, entries: seq<Entry>, list: seq<Entry>, k: nat)
    requires k < |list| && Ordered(list, Deeper) && AllFolders(entries, list) && Finished(nodes, list, k)
    requires ParentsListed(entries, list[k].path)
    ensures Reachable(nodes, list[k].path)
  {
    forall a | IsAncestor(a, list[k].path) ensures a in nodes && Private(nodes[a]) {
      assert HasDirectory(entries, a);
      var e :| e in entries && e.path == a && e.kind.Directory?;
      var j :| 0 <= j < |list| && list[j] == e;
      AncestorEarlier(list, k, j);
    }
  }

  lemma MetadataApplied(nodes: map<Text, Node>, inodes: map<nat, Inode>, entries: seq<Entry>, list: seq<Entry>, k: nat,
                        restored: map<Text, nat>, packed: seq<byte>)
    requires k < |list| && AllFolders(entries, list) && DistinctPaths(entries) && Finished(nodes, list, k)
    requires PrefixRestored(nodes, inodes, entries, |entries|, restored, packed)
    ensures var after := nodes[list[k].path := Folder(AttributesOf(list[k]))];
            Finished(after, list, k + 1) && PrefixRestored(after, inodes, entries, |entries|, restored, packed)
  {
    var e := list[k];
    var after := nodes[e.path := Folder(AttributesOf(e))];
    var m :| 0 <= m < |entries| && entries[m] == e;
    forall i | 0 <= i < |entries| ensures Placed(after, inodes, entries[i], restored, packed) {
      assert i < m || i == m || m < i;
      PlacedStays(nodes, inodes, entries[i], restored, packed, after, inodes, restored);
    }
    assert after.Keys == nodes.Keys;
  }

  method ApplyDirectories(disk: FileSystem, entries: seq<Entry>, list: seq<Entry>, budget: nat,
                          ghost restored: map<Text, nat>, ghost packed: seq<byte>)
    returns (ok: bool)
    requires WellFormed(entries, |packed|) && Ordered(list, Deeper) && AllFolders(entries, list) && Finished(disk.nodes, list, 0)
    requires PrefixRestored(disk.nodes, disk.inodes, entries, |entries|, restored, packed)
    modifies disk`nodes
    ensures ok <==> budget >= |list|
    ensures ok ==> Finished(disk.nodes, list, |list|)
    ensures PrefixRestored(disk.nodes, disk.inodes, entries, |entries|, restored, packed)
  {
    var left: nat, i: nat := budget, 0;
    while i < |list|
      invariant i <= |list| && left + i == budget && Finished(disk.nodes, list, i)
      invariant PrefixRestored(disk.nodes, disk.inodes, entries, |entries|, restored, packed)
    {
      if left == 0 {
        return false;
      }
      FolderListed(entries, list, i, |packed|);
      StillReachable(disk.nodes, entries, list, i);
      MetadataApplied(disk.nodes, disk.inodes, entries, list, i, restored, packed);
      var reached := disk.OpenParent(list[i].path);
      var applied := disk.ApplyMetadata(list[i].path, AttributesOf(list[i]));
      assert reached && applied;
      left, i := left - 1, i + 1;
    }
    return true;
  }

  lemma FolderListed(entries: seq<Entry>, list: seq<Entry>, i: nat, packedSize: nat)
    requires WellFormed(entries, packedSize) && AllFolders(entries, list) && i < |list|
    ensures ParentsListed(entries, list[i].path)
  {
    var m :| 0 <= m < |entries| && entries[m] == list[i];
  }

  // ---- the whole restore ----

  /** What the restored tree shows for an entry. */
  ghost predicate Shows(nodes: map<Text, Node>, inodes: map<nat, Inode>, e: Entry, packed: seq<byte>)
  {
    e.path in nodes && InsidePack(e, |packed|) &&
    match e.kind
    case Directory => nodes[e.path] == Folder(AttributesOf(e))
    case Regular =>
      && nodes[e.path].File? && nodes[e.path].inode in inodes
      && inodes[nodes[e.path].inode] == Inode(packed[e.offset..e.offset + e.size], AttributesOf(e))
    case Hardlink =>
      && e.link in nodes && nodes[e.path] == nodes[e.link] && nodes[e.path].File? && nodes[e.path].inode in inodes
      && inodes[nodes[e.path].inode].attributes == AttributesOf(e)
    case _ => nodes[e.path] == Special(e.kind, e.link, e.device, AttributesOf(e))
  }

  /** The listed tree and nothing else: two files share an inode only as hardlink and target. */
  ghost predicate ExactTree(nodes: map<Text, Node>, inodes: map<nat, Inode>, entries: seq<Entry>, packed: seq<byte>)
  {
    && nodes.Keys == PathsOf(entries, |entries|, Anything)
    && (forall i :: 0 <= i < |entries| ==> Shows(nodes, inodes, entries[i], packed))
    && (forall i, j :: 0 <= i < j < |entries| && entries[i].kind.Regular? && entries[j].kind.Regular?
          ==> nodes[entries[i].path] != nodes[entries[j].path])
  }

  /** The owner, permissions and times found at a path; a file keeps them in its inode. */
  function AttributesAt(nodes: map<Text, Node>, inodes: map<nat, Inode>, p: Text): Option<Attributes>
  {
    if p !in nodes then None
    else match nodes[p]
      case Folder(attributes) => Some(attributes)
      case Special(_, _, _, attributes) => Some(attributes)
      case File(inode) => if inode in inodes then Some(inodes[inode].attributes) else None
  }

  /** Field by field: every entry's path has its owner and times, and its mode unless it is a symbolic link. */
  ghost predicate OwnAttributes(nodes: map<Text, Node>, inodes: map<nat, Inode>, entries: seq<Entry>)
  {
    forall e :: e in entries ==>
      var found := AttributesAt(nodes, inodes, e.path);
      && found.Some? && (!e.kind.Symlink? ==> found.value.mode == e.mode)
      && found.value.uid == e.uid && found.value.gid == e.gid && found.value.atime == e.atime && found.value.mtime == e.mtime
  }

  /** In the listed tree nothing has another entry's metadata or an invented one. */
  lemma ExactAttributes(nodes: map<Text, Node>, inodes: map<nat, Inode>, entries: seq<Entry>, packed: seq<byte>)
    requires ExactTree(nodes, inodes, entries, packed)
    ensures OwnAttributes(nodes, inodes, entries)
  {
    forall e | e in entries
      ensures var found := AttributesAt(nodes, inodes, e.path);
              && found.Some? && (!e.kind.Symlink? ==> found.value.mode == e.mode)
              && found.value.uid == e.uid && found.value.gid == e.gid && found.value.atime == e.atime && found.value.mtime == e.mtime
    {
      var i :| 0 <= i < |entries| && entries[i] == e;
      assert Shows(nodes, inodes, entries[i], packed);
    }
  }

  lemma LinkShown(nodes: map<Text, Node>, inodes: map<nat, Inode>, next: nat, entries: seq<Entry>, i: nat,
                  restored: map<Text, nat>, packed: seq<byte>)
    requires i < |entries| && entries[i].kind.Hardlink? && Linked(entries, i)
    requires OwnInodes(next, inodes, entries, |entries|, restored) && PrefixRestored(nodes, inodes, entries, |entries|, restored, packed)
    ensures Shows(nodes, inodes, entries[i], packed)
  {
    var j :| 0 <= j < i && entries[j].kind.Regular? && entries[j].path == entries[i].link && SameMetadata(entries[i], entries[j]);
    assert Placed(nodes, inodes, entries[i], restored, packed) && Placed(nodes, inodes, entries[j], restored, packed);
  }

  lemma FolderShown(nodes: map<Text, Node>, inodes: map<nat, Inode>, entries: seq<Entry>, list: seq<Entry>, e: Entry, packed: seq<byte>)
    requires AllFolders(entries, list) && Finished(nodes, list, |list|) && e in entries && e.kind.Directory?
    ensures Shows(nodes, inodes, e, packed)
  {
    var j :| 0 <= j < |list| && list[j] == e;
  }

  lemma {:induction false} FoldersAmongAll(entries: seq<Entry>, k: nat)
    requires k <= |entries|
    ensures PathsOf(entries, k, IsFolder) <= PathsOf(entries, k, Anything)
  {
    if k > 0 {
      FoldersAmongAll(entries, k - 1);
    }
  }

  /** Everything in place and every directory finished is the listed tree. */
  lemma AllShown(nodes: map<Text, Node>, inodes: map<nat, Inode>, next: nat, entries: seq<Entry>, list: seq<Entry>,
                 restored: map<Text, nat>, packed: seq<byte>)
    requires WellFormed(entries, |packed|) && AllFolders(entries, list) && Finished(nodes, list, |list|)
    requires OwnInodes(next, inodes, entries, |entries|, restored) && PrefixRestored(nodes, inodes, entries, |entries|, restored, packed)
    ensures ExactTree(nodes, inodes, entries, packed)
  {
    FoldersAmongAll(entries, |entries|);
    forall i | 0 <= i < |entries| ensures Shows(nodes, inodes, entries[i], packed) {
      assert Placed(nodes, inodes, entries[i], restored, packed);
      if entries[i].kind.Hardlink? {
        LinkShown(nodes, inodes, next, entries, i, restored, packed);
      } else if entries[i].kind.Directory? {
        FolderShown(nodes, inodes, entries, list, entries[i], packed);
      }
    }
    forall i, j | 0 <= i < j < |entries| && entries[i].kind.Regular? && entries[j].kind.Regular?
      ensures nodes[entries[i].path] != nodes[entries[j].path]
    {
      assert Placed(nodes, inodes, entries[i], restored, packed) && Placed(nodes, inodes, entries[j], restored, packed);
    }
  }

  method CollectFolders(entries: seq<Entry>) returns (list: seq<Entry>)
    requires DistinctPaths(entries)
    ensures AllFolders(entries, list) && |list| + Others(entries, |entries|) == |entries|
  {
    list := [];
    var i: nat := 0;
    while i < |entries|
      invariant i <= |entries| && |list| + Others(entries, i) == i && DistinctPaths(list)
      invariant forall e :: e in list <==> e in entries[..i] && e.kind.Directory?
    {
      assert entries[..i + 1] == entries[..i] + [entries[i]];
      if entries[i].kind.Directory? {
        forall j | 0 <= j < |list| ensures list[j].path != entries[i].path {
          assert list[j] in entries[..i];
        }
        list := list + [entries[i]];
      }
      i := i + 1;
    }
    assert entries[..i] == entries;
  }

  lemma SortedFolders(entries: seq<Entry>, list: seq<Entry>, sorted: seq<Entry>)
    requires AllFolders(entries, list) && Members(sorted, list) && DistinctPaths(sorted)
    ensures AllFolders(entries, sorted)
  {
  }

  lemma FolderPaths(entries: seq<Entry>, list: seq<Entry>)
    requires AllFolders(entries, list)
    ensures PathsOf(list, |list|, Anything) == PathsOf(entries, |entries|, IsFolder)
  {
    forall p ensures p in PathsOf(list, |list|, Anything) <==> p in PathsOf(entries, |entries|, IsFolder) {
      PathsOfMeaning(list, |list|, Anything, p);
      PathsOfMeaning(entries, |entries|, IsFolder, p);
      if i :| 0 <= i < |list| && list[i].path == p {
        assert list[i] in entries;
      }
      if i :| 0 <= i < |entries| && entries[i].kind.Directory? && entries[i].path == p {
        assert entries[i] in list;
      }
    }
  }

  lemma FoldersClosedUp(entries: seq<Entry>, list: seq<Entry>, packedSize: nat)
    requires WellFormed(entries, packedSize) && AllFolders(entries, list)
    ensures ClosedUp(list)
  {
    forall i, a | 0 <= i < |list| && IsAncestor(a, list[i].path) ensures a in PathsOf(list, |list|, Anything) {
      FolderListed(entries, list, i, packedSize);
      assert HasDirectory(entries, a);
      var e :| e in entries && e.path == a && e.kind.Directory?;
      var j :| 0 <= j < |list| && list[j] == e;
      PathOf(list, |list|, Anything, j);
    }
  }

  /** With the directories made, the restore of everything else can begin. */
  lemma FoldersReady(nodes: map<Text, Node>, entries: seq<Entry>, list: seq<Entry>, packed: seq<byte>)
    requires AllFolders(entries, list) && OnlyFolders(nodes, list, |list|)
    ensures Halfway(nodes, map[], 0, entries, 0, map[], packed)
  {
    FolderPaths(entries, list);
    forall i | 0 <= i < |entries| && entries[i].kind.Directory? ensures entries[i].path in nodes {
      PathOf(entries, |entries|, IsFolder, i);
    }
  }

  lemma FoldersUnfinished(nodes: map<Text, Node>, inodes: map<nat, Inode>, next: nat, entries: seq<Entry>, list: seq<Entry>,
                          restored: map<Text, nat>, packed: seq<byte>)
    requires AllFolders(entries, list) && Halfway(nodes, inodes, next, entries, |entries|, restored, packed)
    ensures Finished(nodes, list, 0)
  {
    forall i | 0 <= i < |list| ensures list[i].path in nodes && Private(nodes[list[i].path]) {
      assert list[i] in entries;
      var m :| 0 <= m < |entries| && entries[m] == list[i];
    }
  }

  /** Into an empty destination a validated list always restores to exactly its tree, unless it is stopped;
      stopped between entries it leaves the directories and a prefix of the other entries. */
  method ExtractEntries(disk: FileSystem, packed: seq<byte>, entries: seq<Entry>, overwrite: bool, now: Time, budget: nat)
    returns (ok: bool, ghost order: seq<Entry>, ghost done: nat, ghost restored: map<Text, nat>)
    requires WellFormed(entries, |packed|)
    requires disk.nodes == map[] && disk.inodes == map[] && disk.next == 0 && disk.temporary == None
    modifies disk
    ensures disk.temporary == None && AllFolders(entries, order) && Ordered(order, Shallower) && done <= |entries|
    ensures ok <==> budget >= 2 * |entries|
    ensures ok ==> ExactTree(disk.nodes, disk.inodes, entries, packed) && OwnAttributes(disk.nodes, disk.inodes, entries)
    ensures budget < |order| ==> OnlyFolders(disk.nodes, order, budget)
    ensures budget >= |order| ==> PrefixRestored(disk.nodes, disk.inodes, entries, done, restored, packed)
  {
    done, restored := 0, map[];
    var folders := CollectFolders(entries);
    var shallow := SortBy(folders, Shallower);
    order := shallow;
    SortedFolders(entries, folders, shallow);
    FoldersClosedUp(entries, shallow, |packed|);
    var left: nat;
    ok, left := MakeDirectories(disk, shallow, overwrite, now, budget);
    if !ok {
      return;
    }
    FoldersReady(disk.nodes, entries, shallow, packed);
    ok, left, done, restored := RestoreEntries(disk, packed, entries, overwrite, now, left);
    if !ok {
      return;
    }
    var deep := SortBy(shallow, Deeper);
    SortedFolders(entries, shallow, deep);
    FoldersUnfinished(disk.nodes, disk.inodes, disk.next, entries, deep, restored, packed);
    ok := ApplyDirectories(disk, entries, deep, left, restored, packed);
    if ok {
      AllShown(disk.nodes, disk.inodes, disk.next, entries, deep, restored, packed);
      ExactAttributes(disk.nodes, disk.inodes, entries, packed);
    }
  }
}
