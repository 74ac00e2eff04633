/** From a source tree to an archive and back: the restored tree is the scanned one. */
module Pipeline {
  import opened Bytes
  import opened Paths
  import opened Entries
  import opened Scan
  import opened SourceEntries
  import opened Fields
  import opened EntryCodec
  import opened Pack
  import opened IndexPack
  import opened PackFiles
  import opened ArchiveHeader
  import opened Archive
  import CipherStream
  import opened Restore

  // ---- the entries a pack yields ----

  /** The same entry, apart from where its content lies and where it was scanned. */
  predicate SameEntry(a: Entry, b: Entry)
  {
    a.(offset := 0, source := NoSource) == b.(offset := 0, source := NoSource)
  }

  ghost predicate SameEntries(a: seq<Entry>, b: seq<Entry>)
  {
    |a| == |b| && forall i :: 0 <= i < |a| ==> SameEntry(a[i], b[i])
  }

  lemma {:induction false} PlacedSame(write: Writer, entries: seq<Entry>, at: nat)
    ensures SameEntries(PlacedRecords(write, entries, at), entries)
  {
    if entries != [] {
      PlacedSame(write, entries[1..], at + 4 + |write(entries[0])| + entries[0].size);
    }
  }

  lemma {:induction false} LaidSame(entries: seq<Entry>, at: nat)
    ensures SameEntries(Laid(entries, at), entries)
  {
    if entries != [] {
      LaidSame(entries[1..], at + entries[0].size);
    }
  }

  lemma PackedSame(layout: Layout, entries: seq<Entry>)
    ensures SameEntries(PackedEntries(layout, entries), entries)
  {
    if layout.Stream? {
      PlacedSame(WriterOf(false), StoredList(entries, false), 12);
    } else {
      LaidSame(entries, 8);
    }
  }

  lemma LinkedSame(a: seq<Entry>, b: seq<Entry>, i: nat)
    requires SameEntries(a, b) && i < |a| && Linked(a, i)
    ensures Linked(b, i)
  {
    assert SameEntry(a[i], b[i]);
    if b[i].kind.Hardlink? {
      var j :| 0 <= j < i && a[j].kind.Regular? && a[j].path == a[i].link && SameMetadata(a[i], a[j]);
      assert SameEntry(a[j], b[j]);
    }
  }

  lemma ParentsSame(a: seq<Entry>, b: seq<Entry>, p: Text)
    requires SameEntries(a, b) && ParentsListed(a, p)
    ensures ParentsListed(b, p)
  {
    forall d | IsAncestor(d, p) ensures HasDirectory(b, d) {
      assert HasDirectory(a, d);
      var j :| 0 <= j < |a| && a[j].path == d && a[j].kind.Directory?;
      assert SameEntry(a[j], b[j]);
    }
  }

  /** The structure of a list does not depend on offsets. */
  lemma StructuredSame(a: seq<Entry>, b: seq<Entry>)
    requires SameEntries(a, b) && Structured(a)
    ensures Structured(b)
  {
    forall i | 0 <= i < |b|
      ensures b[i].path == a[i].path && b[i].kind == a[i].kind && Safe(b[i].path) && Linked(b, i) && ParentsListed(b, b[i].path)
    {
      assert SameEntry(a[i], b[i]);
      LinkedSame(a, b, i);
      ParentsSame(a, b, a[i].path);
    }
  }

  // ---- what a scan can be packed ----

  /** What the operating system reports fits the fields that store it. */
  predicate ValidStat(stat: Stat)
  {
    && stat.mode < 4096 && stat.uid < 0x1_0000_0000 && stat.gid < 0x1_0000_0000 && stat.size < UINT64
    && ValidTime(stat.atime) && ValidTime(stat.mtime) && ValidTime(stat.ctime) && stat.device < UINT64 && 0 !in stat.link
  }

  ghost predicate ValidTree(root: Text, tree: Tree)
  {
    && ProperRoot(root, tree) && Named(tree.children) && ValidStat(tree.stat)
    && forall x :: x in Everything([], tree.children) ==> ValidStat(x.stat)
  }

  lemma MadePlausible(path: Text, stat: Stat)
    requires ValidStat(stat) && !stat.kind.Hardlink?
    ensures Plausible(MakeEntry(path, stat)) && 0 !in MakeEntry(path, stat).link && MakeEntry(path, stat).device < UINT64
  {
  }

  lemma ScannedPlausible(root: Text, tree: Tree, selected: seq<Text>, scanned: seq<Entry>, i: nat)
    requires ValidTree(root, tree) && Scanned(root, tree, selected, scanned) && i < |scanned|
    ensures Plausible(scanned[i]) && 0 !in scanned[i].link && scanned[i].device < UINT64 && scanned[i].offset == 0
  {
    if i == 0 {
      MadePlausible(root, tree.stat);
    } else {
      var x := ScannedEntry(root, tree, selected, scanned, i);
      MadePlausible(Below(root, x.path), x.stat);
    }
  }

  lemma LinkedPackable(root: Text, tree: Tree, selected: seq<Text>, scanned: seq<Entry>, linked: seq<Entry>, files: Files)
    requires ValidTree(root, tree) && Scanned(root, tree, selected, scanned) && LinkedList(scanned, linked)
    requires Structured(linked) && AllAvailable(linked, files)
    ensures Packable(linked)
  {
    forall i | 0 <= i < |linked| ensures Encodable(linked[i]) && linked[i].path != [] {
      ScannedPlausible(root, tree, selected, scanned, i);
      SafeNoNul(linked[i].path);
      assert Available(linked[i], files) && linked[i] == Aliased(scanned, i);
      if linked[i] != scanned[i] {
        var j := FirstAlias(scanned, i, 0);
        ScannedPlausible(root, tree, selected, scanned, j);
        assert linked[j] == Aliased(scanned, j);
        SafeNoNul(linked[j].path);
      }
    }
  }

  // ---- backing up ----

  lemma ContentsFill(linked: seq<Entry>, files: Files)
    requires AllAvailable(linked, files) && Packable(linked)
    ensures Filled(linked, ContentsOf(linked, files))
  {
    forall i | 0 <= i < |linked| ensures |ContentsOf(linked, files)[i]| == linked[i].size {
      assert Available(linked[i], files) && Encodable(linked[i]);
    }
  }

  /** What the user asks for. */
  datatype Options = Options(includes: seq<Text>, layout: Layout, compression: Compression, encryption: Encryption, password: seq<byte>)

  /** The scanned entries with repeated names of one file turned into hardlinks. */
  ghost function Links(scanned: seq<Entry>): (linked: seq<Entry>)
    ensures |linked| == |scanned|
  {
    seq(|scanned|, i requires 0 <= i < |scanned| => Aliased(scanned, i))
  }

  ghost function PackOf(layout: Layout, linked: seq<Entry>, files: Files): seq<byte>
  {
    PackBytes(layout, linked, ContentsOf(linked, files))
  }

  /** The files have not changed, and their pack, once compressed, has a size the cipher takes. */
  ghost predicate ArchiveFits(suite: Suite, options: Options, salt: seq<byte>, linked: seq<Entry>, files: Files)
  {
    && AllAvailable(linked, files) && |PackOf(options.layout, linked, files)| < UINT64
    && Enciphers(suite, options.encryption, options.password, salt,
                 |Compressed(options.compression, PackOf(options.layout, linked, files))|)
  }

  /** What a backup needs: an acceptable selection, entries it can use, and files it can archive. */
  ghost predicate Backable(suite: Suite, root: Text, options: Options, salt: seq<byte>, selected: seq<Text>, scanned: seq<Entry>, files: Files)
  {
    AllAcceptable(options.includes) && Scannable(root, scanned, selected) && ArchiveFits(suite, options, salt, Links(scanned), files)
  }

  /** The backup asked for can be made, in terms of the source and the request alone. */
  ghost predicate CanBackUp(suite: Suite, root: Text, tree: Tree, options: Options, salt: seq<byte>, files: Files)
  {
    exists selected, scanned ::
      Selection(options.includes, selected) && Scanned(root, tree, selected, scanned)
      && Backable(suite, root, options, salt, selected, scanned, files)
  }

  lemma CanBackUpMeaning(suite: Suite, root: Text, tree: Tree, options: Options, salt: seq<byte>, files: Files,
                         selected: seq<Text>, scanned: seq<Entry>)
    requires Selection(options.includes, selected) && Scanned(root, tree, selected, scanned)
    ensures CanBackUp(suite, root, tree, options, salt, files) <==> Backable(suite, root, options, salt, selected, scanned, files)
  {
    if CanBackUp(suite, root, tree, options, salt, files) {
      var others, again :| Selection(options.includes, others) && Scanned(root, tree, others, again)
        && Backable(suite, root, options, salt, others, again, files);
      ScannedOnce(root, tree, options.includes, selected, scanned, others, again);
    }
  }

  /** Sizes known before compressing suffice: the growth of every compression is bounded. */
  lemma SmallIsBackable(suite: Suite, root: Text, tree: Tree, options: Options, salt: seq<byte>, selected: seq<Text>, scanned: seq<Entry>, files: Files)
    requires Selection(options.includes, selected) && Scanned(root, tree, selected, scanned)
    requires AllAcceptable(options.includes) && Scannable(root, scanned, selected) && AllAvailable(Links(scanned), files)
    requires Enciphers(suite, options.encryption, options.password, salt,
                       CompressedLimit(options.compression, |PackOf(options.layout, Links(scanned), files)|))
    ensures Backable(suite, root, options, salt, selected, scanned, files) && CanBackUp(suite, root, tree, options, salt, files)
  {
    SmallEnough(suite, options.compression, options.encryption, options.password, salt, PackOf(options.layout, Links(scanned), files));
  }

  /** An archive of what was asked for, with this pack inside for this password. */
  ghost predicate ArchiveOf(suite: Suite, archive: seq<byte>, h: Header, options: Options, salt: seq<byte>, packed: seq<byte>)
    requires Usable(suite)
  {
    && Requested(h, options.layout, options.compression, options.encryption, salt) && Permitted(h, options.password, false)
    && exists payload :: Holds(suite, archive, h, payload, packed, options.password)
         && CipherStream.Encrypted(suite.cipher(options.encryption, options.password, salt), Compressed(options.compression, packed), payload)
  }

  lemma LinksListed(scanned: seq<Entry>, linked: seq<Entry>)
    requires LinkedList(scanned, linked)
    ensures linked == Links(scanned)
  {
  }

  lemma OnlyFilesHaveSizes(root: Text, tree: Tree, selected: seq<Text>, scanned: seq<Entry>, linked: seq<Entry>)
    requires ValidTree(root, tree) && Scanned(root, tree, selected, scanned) && LinkedList(scanned, linked)
    ensures forall i :: 0 <= i < |linked| && !linked[i].kind.Regular? ==> linked[i].size == 0
  {
    forall i | 0 <= i < |linked| && !linked[i].kind.Regular? ensures linked[i].size == 0 {
      ScannedPlausible(root, tree, selected, scanned, i);
      assert linked[i] == Aliased(scanned, i);
    }
  }

  method PackEntries(layout: Layout, entries: seq<Entry>, files: Files) returns (packed: Option<seq<byte>>)
    requires forall i :: 0 <= i < |entries| && !entries[i].kind.Regular? ==> entries[i].size == 0
    ensures packed.Some? <==> AllAvailable(entries, files)
    ensures packed.Some? ==> packed.value == PackBytes(layout, entries, ContentsOf(entries, files))
  {
    if layout.Stream? {
      packed := PackStream(entries, files);
    } else {
      packed := PackIndex(entries, files);
    }
  }

  /** A backup needs a scan, and with one no more than files it can archive. */
  lemma CanScanBefore(suite: Suite, root: Text, tree: Tree, options: Options, salt: seq<byte>, files: Files,
                      selected: seq<Text>, scanned: seq<Entry>)
    requires AllAcceptable(options.includes) ==> Selection(options.includes, selected) && Scanned(root, tree, selected, scanned)
    ensures CanBackUp(suite, root, tree, options, salt, files) <==>
      CanScan(root, tree, options.includes) && ArchiveFits(suite, options, salt, Links(scanned), files)
  {
    if AllAcceptable(options.includes) {
      CanScanMeaning(root, tree, options.includes, selected, scanned);
      CanBackUpMeaning(suite, root, tree, options, salt, files, selected, scanned);
    }
  }

  /** What is left once the entries are there: packing them and putting the archive together. */
  method ArchiveEntries(suite: Suite, options: Options, linked: seq<Entry>, files: Files, salt: seq<byte>)
    returns (archive: Option<seq<byte>>, ghost h: Header)
    requires Usable(suite) && |salt| == 16
    requires forall i :: 0 <= i < |linked| && !linked[i].kind.Regular? ==> linked[i].size == 0
    ensures archive.Some? <==> ArchiveFits(suite, options, salt, linked, files)
    ensures archive.Some? ==> ArchiveOf(suite, archive.value, h, options, salt, PackOf(options.layout, linked, files))
  {
    archive := None;
    h := Header(0, options.layout, options.compression, options.encryption, 0, 0, [], [], []);
    var packed := PackEntries(options.layout, linked, files);
    // A file can be no larger than its size field can say.
    if packed.None? || |packed.value| >= UINT64 {
      return;
    }
    ghost var payload;
    archive, h, payload :=
      CreateArchive(suite, packed.value, options.layout, options.compression, options.encryption, options.password, salt);
  }

  /** Scans, packs, compresses, encrypts and puts the archive together. */
  method Backup(suite: Suite, root: Text, tree: Tree, options: Options, files: Files, salt: seq<byte>)
    returns (archive: Option<seq<byte>>, ghost selected: seq<Text>, ghost scanned: seq<Entry>, ghost h: Header)
    requires Usable(suite) && ValidTree(root, tree) && |salt| == 16
    ensures AllAcceptable(options.includes) ==> Selection(options.includes, selected) && Scanned(root, tree, selected, scanned)
    ensures archive.Some? <==> CanBackUp(suite, root, tree, options, salt, files)
    ensures archive.Some? ==> Backable(suite, root, options, salt, selected, scanned, files)
    ensures archive.Some? ==> LinkedList(scanned, Links(scanned)) && Structured(Links(scanned)) && Packable(Links(scanned))
    ensures archive.Some? ==> ArchiveOf(suite, archive.value, h, options, salt, PackOf(options.layout, Links(scanned), files))
  {
    archive := None;
    h := Header(0, options.layout, options.compression, options.encryption, 0, 0, [], [], []);
    var entries, bytes;
    entries, bytes, selected, scanned := ScanDirectory(root, tree, options.includes);
    CanScanBefore(suite, root, tree, options, salt, files, selected, scanned);
    if entries.None? {
      return;
    }
    LinksListed(scanned, entries.value);
    OnlyFilesHaveSizes(root, tree, selected, scanned, entries.value);
    archive, h := ArchiveEntries(suite, options, entries.value, files, salt);
    if archive.Some? {
      LinkedPackable(root, tree, selected, scanned, entries.value, files);
    }
  }

  // ---- restoring ----

  /** The archive holds a pack of well-formed entries, and the restore is not stopped. */
  ghost predicate Restorable(suite: Suite, archive: seq<byte>, h: Header, payload: seq<byte>, packed: seq<byte>, parsed: seq<Entry>,
                             password: seq<byte>, allowLegacy: bool, budget: nat)
    requires Usable(suite)
  {
    && Holds(suite, archive, h, payload, packed, password) && Permitted(h, password, allowLegacy) && h.version > Legacy
    && ReadLayout(h.layout, packed) == Some(parsed) && WellFormed(parsed, |packed|) && budget >= 2 * |parsed|
  }

  /** Decodes an archive and restores it into an empty destination. */
  method RestoreArchive(suite: Suite, archive: seq<byte>, password: seq<byte>, allowLegacy: bool, disk: FileSystem,
                        overwrite: bool, now: Time, budget: nat)
    returns (ok: bool, ghost entries: seq<Entry>, ghost packed: seq<byte>)
    requires Usable(suite) && disk.nodes == map[] && disk.inodes == map[] && disk.next == 0 && disk.temporary == None
    modifies disk
    ensures ok ==> ExactTree(disk.nodes, disk.inodes, entries, packed) && WellFormed(entries, |packed|)
    ensures forall h, payload, p, parsed :: Restorable(suite, archive, h, payload, p, parsed, password, allowLegacy, budget) ==>
      ok && entries == parsed && packed == p
  {
    entries, packed := [], [];
    var decoded := DecodeArchive(suite, archive, password, allowLegacy);
    if decoded.None? {
      return false, entries, packed;
    }
    var header, bytes := decoded.value.0, decoded.value.1;
    forall h, payload, p | Holds(suite, archive, h, payload, p, password) ensures h == header && p == bytes {
      HoldsOnce(suite, archive, h, payload, p, header, PayloadOf(archive, header), bytes, password);
    }
    var found := ReadPackedEntries(bytes, header.layout);
    if found.None? {
      return false, entries, packed;
    }
    entries, packed := found.value, bytes;
    if header.version == Legacy {
      var linked := HasHardlink(found.value);
      if linked {
        return false, entries, packed;
      }
    }
    ghost var order, done, restored;
    ok, order, done, restored := ExtractEntries(disk, bytes, found.value, overwrite, now, budget);
  }

  /** The first archive version knows no hardlinks. */
  method HasHardlink(entries: seq<Entry>) returns (found: bool)
    ensures found <==> exists i :: 0 <= i < |entries| && entries[i].kind.Hardlink?
  {
    var i: nat := 0;
    while i < |entries|
      invariant i <= |entries| && forall j :: 0 <= j < i ==> !entries[j].kind.Hardlink?
    {
      if entries[i].kind.Hardlink? {
        return true;
      }
      i := i + 1;
    }
    return false;
  }

  // ---- the whole way ----

  /** What the restored tree shows for a scanned entry. */
  ghost predicate ShowsSource(nodes: map<Text, Node>, inodes: map<nat, Inode>, e: Entry, files: Files)
  {
    e.path in nodes &&
    match e.kind
    case Directory => nodes[e.path] == Folder(AttributesOf(e))
    case Regular =>
      && e.path in files && nodes[e.path].File? && nodes[e.path].inode in inodes
      && inodes[nodes[e.path].inode] == Inode(files[e.path].content, AttributesOf(e))
    case Hardlink =>
      && e.link in nodes && nodes[e.path] == nodes[e.link] && nodes[e.path].File? && nodes[e.path].inode in inodes
      && inodes[nodes[e.path].inode].attributes == AttributesOf(e)
    case _ => nodes[e.path] == Special(e.kind, e.link, e.device, AttributesOf(e))
  }

  /** Exactly the scanned entries, each with its own metadata and its file's bytes; no files share an inode by accident. */
  ghost predicate SourceRestored(nodes: map<Text, Node>, inodes: map<nat, Inode>, linked: seq<Entry>, files: Files)
  {
    && (forall p :: p in nodes <==> exists i :: 0 <= i < |linked| && linked[i].path == p)
    && (forall i :: 0 <= i < |linked| ==> ShowsSource(nodes, inodes, linked[i], files))
    && (forall i, j :: 0 <= i < j < |linked| && linked[i].kind.Regular? && linked[j].kind.Regular?
          ==> nodes[linked[i].path] != nodes[linked[j].path])
  }

  lemma PackReadable(layout: Layout, linked: seq<Entry>, files: Files)
    requires Packable(linked) && AllAvailable(linked, files) && Structured(linked)
    requires |PackBytes(layout, linked, ContentsOf(linked, files))| < UINT64
    ensures var packed, parsed := PackBytes(layout, linked, ContentsOf(linked, files)), PackedEntries(layout, linked);
            && ReadLayout(layout, packed) == Some(parsed) && WellFormed(parsed, |packed|)
            && SameEntries(parsed, linked) && Addressed(packed, parsed, ContentsOf(linked, files))
  {
    var contents := ContentsOf(linked, files);
    var packed, parsed := PackBytes(layout, linked, contents), PackedEntries(layout, linked);
    ContentsFill(linked, files);
    if layout.Stream? {
      StreamRead(linked, contents);
    } else {
      IndexRead(linked, contents);
    }
    PackedSame(layout, linked);
    SameBack(parsed, linked);
    StructuredSame(linked, parsed);
    forall i | 0 <= i < |parsed| ensures InsidePack(parsed[i], |packed|) {
      assert AddressedAt(packed, parsed[i], contents[i]);
    }
  }

  lemma SameBack(a: seq<Entry>, b: seq<Entry>)
    requires SameEntries(a, b)
    ensures SameEntries(b, a)
  {
    forall i | 0 <= i < |a| ensures SameEntry(b[i], a[i]) {
      assert SameEntry(a[i], b[i]);
    }
  }

  /** The exact tree of the parsed entries is the tree of the scanned ones. */
  lemma ExactIsSource(nodes: map<Text, Node>, inodes: map<nat, Inode>, parsed: seq<Entry>, packed: seq<byte>, linked: seq<Entry>, files: Files)
    requires ExactTree(nodes, inodes, parsed, packed) && SameEntries(parsed, linked)
    requires AllAvailable(linked, files) && Addressed(packed, parsed, ContentsOf(linked, files))
    ensures SourceRestored(nodes, inodes, linked, files)
  {
    forall p ensures p in nodes <==> exists i :: 0 <= i < |linked| && linked[i].path == p {
      PathsOfMeaning(parsed, |parsed|, Anything, p);
      if i :| 0 <= i < |parsed| && parsed[i].path == p {
        assert SameEntry(parsed[i], linked[i]);
      }
      if i :| 0 <= i < |linked| && linked[i].path == p {
        assert SameEntry(parsed[i], linked[i]);
      }
    }
    forall i | 0 <= i < |linked| ensures ShowsSource(nodes, inodes, linked[i], files) && linked[i].path == parsed[i].path && linked[i].kind == parsed[i].kind {
      assert SameEntry(parsed[i], linked[i]) && Shows(nodes, inodes, parsed[i], packed);
      assert Available(linked[i], files) && AddressedAt(packed, parsed[i], ContentsOf(linked, files)[i]);
    }
  }

  /** An inode has one content, whatever name it is read by. */
  ghost predicate OneContent(files: Files)
  {
    forall p, q :: p in files && q in files && files[p].volume == files[q].volume && files[p].inode == files[q].inode
      ==> files[p].content == files[q].content
  }

  /** Every hardlink shows the bytes of the file scanned under its own name. */
  ghost predicate AliasesShown(nodes: map<Text, Node>, inodes: map<nat, Inode>, linked: seq<Entry>, files: Files)
  {
    forall i :: 0 <= i < |linked| && linked[i].kind.Hardlink? ==>
      && linked[i].path in nodes && nodes[linked[i].path].File? && nodes[linked[i].path].inode in inodes
      && linked[i].path in files && inodes[nodes[linked[i].path].inode].content == files[linked[i].path].content
  }

  lemma AliasShown(nodes: map<Text, Node>, inodes: map<nat, Inode>, scanned: seq<Entry>, linked: seq<Entry>, files: Files, i: nat)
    requires SourceRestored(nodes, inodes, linked, files) && LinkedList(scanned, linked) && AllAvailable(linked, files)
    requires OneContent(files) && i < |linked| && linked[i].kind.Hardlink? && !scanned[i].kind.Hardlink?
    ensures linked[i].path in nodes && nodes[linked[i].path].File? && nodes[linked[i].path].inode in inodes
    ensures linked[i].path in files && inodes[nodes[linked[i].path].inode].content == files[linked[i].path].content
  {
    assert linked[i] == Aliased(scanned, i);
    var j := FirstAlias(scanned, i, 0);
    FirstIsFirst(scanned, i);
    assert linked[j] == Aliased(scanned, j) == scanned[j];
    assert Available(linked[i], files) && Available(linked[j], files);
    assert ShowsSource(nodes, inodes, linked[i], files) && ShowsSource(nodes, inodes, linked[j], files);
  }

  lemma AllAliasesShown(root: Text, tree: Tree, selected: seq<Text>, nodes: map<Text, Node>, inodes: map<nat, Inode>,
                        scanned: seq<Entry>, linked: seq<Entry>, files: Files)
    requires ValidTree(root, tree) && Scanned(root, tree, selected, scanned)
    requires SourceRestored(nodes, inodes, linked, files) && LinkedList(scanned, linked) && AllAvailable(linked, files)
    ensures OneContent(files) ==> AliasesShown(nodes, inodes, linked, files)
  {
    if OneContent(files) {
      forall i | 0 <= i < |linked| && linked[i].kind.Hardlink?
        ensures linked[i].path in nodes && nodes[linked[i].path].File? && nodes[linked[i].path].inode in inodes
        ensures linked[i].path in files && inodes[nodes[linked[i].path].inode].content == files[linked[i].path].content
      {
        NoScannedLinks(root, tree, selected, scanned, i);
        AliasShown(nodes, inodes, scanned, linked, files, i);
      }
    }
  }

  lemma NoScannedLinks(root: Text, tree: Tree, selected: seq<Text>, scanned: seq<Entry>, i: nat)
    requires ValidTree(root, tree) && Scanned(root, tree, selected, scanned) && i < |scanned|
    ensures !scanned[i].kind.Hardlink?
  {
    if i > 0 {
      var x := ScannedEntry(root, tree, selected, scanned, i);
    }
  }

  // ---- the restored tree beside the source tree ----

  /** Two names of one file in the source. */
  predicate OneFile(a: Stat, b: Stat)
  {
    a.kind.Regular? && b.kind.Regular? && a.volume == b.volume && a.inode == b.inode
  }

  /** Of the names picked for the file of `x`, the first in the archive; what is no file has one name. */
  ghost predicate FirstName(root: Text, tree: Tree, selected: seq<Text>, x: Item, y: Item)
  {
    && Picked(tree, selected, y) && (y == x || OneFile(y.stat, x.stat))
    && forall z :: Picked(tree, selected, z) && OneFile(z.stat, x.stat) ==> !Less(Below(root, z.path), Below(root, y.path))
  }

  /** At `p` stands what the system reported: the kind with its target or device, and field by field the metadata. */
  ghost predicate ShowsStat(nodes: map<Text, Node>, inodes: map<nat, Inode>, p: Text, stat: Stat, atime: Time)
  {
    && p in nodes
    && (stat.kind.Directory? ==> nodes[p].Folder?)
    && (stat.kind.Regular? ==> nodes[p].File?)
    && (!stat.kind.Directory? && !stat.kind.Regular? ==> nodes[p].Special? && nodes[p].kind == stat.kind)
    && (stat.kind.Symlink? ==> nodes[p].target == stat.link)
    && (stat.kind.Character? || stat.kind.Block? ==> nodes[p].device == stat.device)
    && var found := AttributesAt(nodes, inodes, p);
    && found.Some? && (!stat.kind.Symlink? ==> found.value.mode == stat.mode)
    && found.value.uid == stat.uid && found.value.gid == stat.gid && found.value.mtime == stat.mtime && found.value.atime == atime
  }

  /** A picked item as it is restored: the access time and the bytes of a file are those read under its first name. */
  ghost predicate ItemRestored(root: Text, tree: Tree, selected: seq<Text>, nodes: map<Text, Node>, inodes: map<nat, Inode>, files: Files, x: Item)
  {
    exists y :: FirstName(root, tree, selected, x, y)
      && ShowsStat(nodes, inodes, Below(root, x.path), x.stat, y.stat.atime)
      && (x.stat.kind.Regular? ==>
            && Below(root, y.path) in files && nodes[Below(root, x.path)].inode in inodes
            && inodes[nodes[Below(root, x.path)].inode].content == files[Below(root, y.path)].content)
  }

  /** The picked part of the source tree and nothing else, with names of one file exactly where the source has them. */
  ghost predicate Mirrors(root: Text, tree: Tree, selected: seq<Text>, nodes: map<Text, Node>, inodes: map<nat, Inode>, files: Files)
  {
    && (forall p :: p in nodes <==> p == root || exists x :: Picked(tree, selected, x) && p == Below(root, x.path))
    && ShowsStat(nodes, inodes, root, tree.stat, tree.stat.atime)
    && (forall x :: Picked(tree, selected, x) ==> ItemRestored(root, tree, selected, nodes, inodes, files, x))
    && (forall x, z :: Picked(tree, selected, x) && Picked(tree, selected, z) && x.stat.kind.Regular? && z.stat.kind.Regular? ==>
          (nodes[Below(root, x.path)] == nodes[Below(root, z.path)] <==> OneFile(x.stat, z.stat)))
  }

  lemma ItemAt(root: Text, tree: Tree, selected: seq<Text>, scanned: seq<Entry>, x: Item) returns (i: nat)
    requires Scanned(root, tree, selected, scanned) && Picked(tree, selected, x)
    ensures 1 <= i < |scanned| && scanned[i] == ItemEntry(root, x)
  {
    var k :| 0 <= k < |scanned| - 1 && scanned[1..][k] == ItemEntry(root, x);
    i := k + 1;
  }

  /** Where the first name of a file stands in the scan, and which item it is. */
  lemma FirstNameAt(root: Text, tree: Tree, selected: seq<Text>, scanned: seq<Entry>, x: Item, i: nat) returns (y: Item)
    requires ValidTree(root, tree) && Scanned(root, tree, selected, scanned) && Picked(tree, selected, x)
    requires 1 <= i < |scanned| && scanned[i] == ItemEntry(root, x) && x.stat.kind.Regular?
    ensures FirstName(root, tree, selected, x, y) && scanned[FirstAlias(scanned, i, 0)] == ItemEntry(root, y)
  {
    var j := FirstAlias(scanned, i, 0);
    assert SameFile(scanned[j], scanned[i]) && j != 0;
    y := ScannedEntry(root, tree, selected, scanned, j);
    forall z | Picked(tree, selected, z) && OneFile(z.stat, x.stat) ensures !Less(Below(root, z.path), Below(root, y.path)) {
      var k := ItemAt(root, tree, selected, scanned, z);
      assert SameFile(scanned[k], scanned[i]);
      if k == j {
        LessIrreflexive(scanned[j].path);
      } else {
        assert PathOrder(scanned[1..][j - 1], scanned[1..][k - 1]);
      }
    }
  }

  /** A file's name is restored as the node of its first name, and first names are files of their own. */
  lemma SharesFirst(nodes: map<Text, Node>, inodes: map<nat, Inode>, scanned: seq<Entry>, linked: seq<Entry>, files: Files, i: nat)
    requires SourceRestored(nodes, inodes, linked, files) && LinkedList(scanned, linked) && i < |scanned| && scanned[i].kind.Regular?
    ensures var j := FirstAlias(scanned, i, 0);
            && linked[j].kind.Regular? && linked[j].path == scanned[j].path && scanned[i].path in nodes && scanned[j].path in nodes
            && nodes[scanned[i].path] == nodes[scanned[j].path]
  {
    var j := FirstAlias(scanned, i, 0);
    FirstIsFirst(scanned, i);
    assert linked[i] == Aliased(scanned, i) && linked[j] == Aliased(scanned, j) == scanned[j];
    assert ShowsSource(nodes, inodes, linked[i], files) && ShowsSource(nodes, inodes, linked[j], files);
  }

  lemma StatShown(nodes: map<Text, Node>, inodes: map<nat, Inode>, files: Files, e: Entry, path: Text, stat: Stat)
    requires ShowsSource(nodes, inodes, e, files) && e == MakeEntry(path, stat) && !stat.kind.Hardlink?
    ensures ShowsStat(nodes, inodes, path, stat, stat.atime)
  {
  }

  lemma AliasStatShown(nodes: map<Text, Node>, inodes: map<nat, Inode>, files: Files, e: Entry, path: Text, stat: Stat, first: Entry)
    requires ShowsSource(nodes, inodes, e, files) && e == Alias(MakeEntry(path, stat), first) && stat.kind.Regular?
    ensures ShowsStat(nodes, inodes, path, stat, first.atime)
  {
  }

  lemma FileShown(root: Text, tree: Tree, selected: seq<Text>, nodes: map<Text, Node>, inodes: map<nat, Inode>,
                  scanned: seq<Entry>, linked: seq<Entry>, files: Files, x: Item, i: nat)
    requires ValidTree(root, tree) && Scanned(root, tree, selected, scanned) && Picked(tree, selected, x)
    requires SourceRestored(nodes, inodes, linked, files) && LinkedList(scanned, linked) && x.stat.kind.Regular?
    requires 1 <= i < |scanned| && scanned[i] == ItemEntry(root, x)
    ensures ItemRestored(root, tree, selected, nodes, inodes, files, x)
  {
    var y := FirstNameAt(root, tree, selected, scanned, x, i);
    var j, p := FirstAlias(scanned, i, 0), Below(root, x.path);
    FirstIsFirst(scanned, i);
    assert linked[j] == scanned[j] && linked[j].path == Below(root, y.path) by {
      assert linked[j] == Aliased(scanned, j);
    }
    assert ShowsSource(nodes, inodes, linked[j], files);
    assert ShowsStat(nodes, inodes, p, x.stat, y.stat.atime) by {
      assert linked[i] == Aliased(scanned, i) && ShowsSource(nodes, inodes, linked[i], files);
      if i == j {
        StatShown(nodes, inodes, files, linked[i], p, x.stat);
      } else {
        AliasStatShown(nodes, inodes, files, linked[i], p, x.stat, scanned[j]);
      }
    }
    SharesFirst(nodes, inodes, scanned, linked, files, i);
  }

  lemma ItemShown(root: Text, tree: Tree, selected: seq<Text>, nodes: map<Text, Node>, inodes: map<nat, Inode>,
                  scanned: seq<Entry>, linked: seq<Entry>, files: Files, x: Item)
    requires ValidTree(root, tree) && Scanned(root, tree, selected, scanned) && Picked(tree, selected, x)
    requires SourceRestored(nodes, inodes, linked, files) && LinkedList(scanned, linked)
    ensures ItemRestored(root, tree, selected, nodes, inodes, files, x)
  {
    var i := ItemAt(root, tree, selected, scanned, x);
    if x.stat.kind.Regular? {
      FileShown(root, tree, selected, nodes, inodes, scanned, linked, files, x, i);
    } else {
      NoScannedLinks(root, tree, selected, scanned, i);
      assert linked[i] == Aliased(scanned, i) && ShowsSource(nodes, inodes, linked[i], files);
      StatShown(nodes, inodes, files, linked[i], Below(root, x.path), x.stat);
      assert FirstName(root, tree, selected, x, x);
    }
  }

  lemma SharedAsInSource(root: Text, tree: Tree, selected: seq<Text>, nodes: map<Text, Node>, inodes: map<nat, Inode>,
                         scanned: seq<Entry>, linked: seq<Entry>, files: Files, x: Item, z: Item)
    requires ValidTree(root, tree) && Scanned(root, tree, selected, scanned) && Picked(tree, selected, x) && Picked(tree, selected, z)
    requires SourceRestored(nodes, inodes, linked, files) && LinkedList(scanned, linked) && x.stat.kind.Regular? && z.stat.kind.Regular?
    ensures Below(root, x.path) in nodes && Below(root, z.path) in nodes
    ensures nodes[Below(root, x.path)] == nodes[Below(root, z.path)] <==> OneFile(x.stat, z.stat)
  {
    var i := ItemAt(root, tree, selected, scanned, x);
    var k := ItemAt(root, tree, selected, scanned, z);
    var j, m := FirstAlias(scanned, i, 0), FirstAlias(scanned, k, 0);
    SharesFirst(nodes, inodes, scanned, linked, files, i);
    SharesFirst(nodes, inodes, scanned, linked, files, k);
    if j == m {
      assert SameFile(scanned[j], scanned[i]) && SameFile(scanned[m], scanned[k]);
    } else {
      assert !SameFile(scanned[i], scanned[k]) by {
        if SameFile(scanned[i], scanned[k]) {
          assert SameFile(scanned[j], scanned[k]) && SameFile(scanned[m], scanned[i]);
        }
      }
    }
  }

  /** The names of the scan are the root's and the picked ones. */
  lemma ScannedNames(root: Text, tree: Tree, selected: seq<Text>, scanned: seq<Entry>, p: Text)
    requires ValidTree(root, tree) && Scanned(root, tree, selected, scanned)
    ensures (exists i :: 0 <= i < |scanned| && scanned[i].path == p) <==> p == root || exists x :: Picked(tree, selected, x) && p == Below(root, x.path)
  {
    if i :| 0 <= i < |scanned| && scanned[i].path == p {
      if i > 0 {
        var x := ScannedEntry(root, tree, selected, scanned, i);
      }
    }
    if p == root {
      assert scanned[0].path == p;
    } else if x :| Picked(tree, selected, x) && p == Below(root, x.path) {
      var i := ItemAt(root, tree, selected, scanned, x);
      assert scanned[i].path == p;
    }
  }

  lemma LinkedNames(scanned: seq<Entry>, linked: seq<Entry>, p: Text)
    requires LinkedList(scanned, linked)
    ensures (exists i :: 0 <= i < |linked| && linked[i].path == p) <==> exists i :: 0 <= i < |scanned| && scanned[i].path == p
  {
    forall i | 0 <= i < |scanned| ensures linked[i].path == scanned[i].path {
      assert linked[i] == Aliased(scanned, i);
    }
  }

  lemma RootShown(root: Text, tree: Tree, selected: seq<Text>, nodes: map<Text, Node>, inodes: map<nat, Inode>,
                  scanned: seq<Entry>, linked: seq<Entry>, files: Files)
    requires ValidTree(root, tree) && Scanned(root, tree, selected, scanned)
    requires SourceRestored(nodes, inodes, linked, files) && LinkedList(scanned, linked)
    ensures ShowsStat(nodes, inodes, root, tree.stat, tree.stat.atime)
  {
    assert linked[0] == Aliased(scanned, 0) == scanned[0] && ShowsSource(nodes, inodes, linked[0], files);
    StatShown(nodes, inodes, files, linked[0], root, tree.stat);
  }

  /** Exactly the scanned entries is exactly the picked part of the source tree. */
  lemma RestoredMirrors(root: Text, tree: Tree, selected: seq<Text>, nodes: map<Text, Node>, inodes: map<nat, Inode>,
                        scanned: seq<Entry>, linked: seq<Entry>, files: Files)
    requires ValidTree(root, tree) && Scanned(root, tree, selected, scanned)
    requires SourceRestored(nodes, inodes, linked, files) && LinkedList(scanned, linked)
    ensures Mirrors(root, tree, selected, nodes, inodes, files)
  {
    forall p ensures p in nodes <==> p == root || exists x :: Picked(tree, selected, x) && p == Below(root, x.path) {
      ScannedNames(root, tree, selected, scanned, p);
      LinkedNames(scanned, linked, p);
    }
    RootShown(root, tree, selected, nodes, inodes, scanned, linked, files);
    forall x | Picked(tree, selected, x) ensures ItemRestored(root, tree, selected, nodes, inodes, files, x) {
      ItemShown(root, tree, selected, nodes, inodes, scanned, linked, files, x);
    }
    forall x, z | Picked(tree, selected, x) && Picked(tree, selected, z) && x.stat.kind.Regular? && z.stat.kind.Regular?
      ensures nodes[Below(root, x.path)] == nodes[Below(root, z.path)] <==> OneFile(x.stat, z.stat)
    {
      SharedAsInSource(root, tree, selected, nodes, inodes, scanned, linked, files, x, z);
    }
  }

  /** Restoring a created archive with the same password yields exactly the scanned tree,
      for every selection, layout, compression and encryption asked for; and the archive is made whenever it can be. */
  method BackupThenRestore(suite: Suite, root: Text, tree: Tree, options: Options, files: Files, salt: seq<byte>,
                           disk: FileSystem, overwrite: bool, now: Time, budget: nat)
    returns (archive: Option<seq<byte>>, ok: bool, ghost selected: seq<Text>, ghost scanned: seq<Entry>, ghost h: Header)
    requires Usable(suite) && ValidTree(root, tree) && |salt| == 16
    requires disk.nodes == map[] && disk.inodes == map[] && disk.next == 0 && disk.temporary == None
    modifies disk
    ensures AllAcceptable(options.includes) ==> Selection(options.includes, selected) && Scanned(root, tree, selected, scanned)
    ensures archive.Some? <==> CanBackUp(suite, root, tree, options, salt, files)
    ensures archive.Some? ==> Backable(suite, root, options, salt, selected, scanned, files)
    ensures archive.Some? ==> ArchiveOf(suite, archive.value, h, options, salt, PackOf(options.layout, Links(scanned), files))
    ensures archive.Some? && budget >= 2 * |scanned| ==>
      && ok && SourceRestored(disk.nodes, disk.inodes, Links(scanned), files)
      && (OneContent(files) ==> AliasesShown(disk.nodes, disk.inodes, Links(scanned), files))
      && Mirrors(root, tree, selected, disk.nodes, disk.inodes, files)
  {
    ghost var entries, packed;
    archive, selected, scanned, h := Backup(suite, root, tree, options, files, salt);
    ok := false;
    if archive.Some? {
      ghost var linked := Links(scanned);
      PackReadable(options.layout, linked, files);
      ok, entries, packed := RestoreArchive(suite, archive.value, options.password, false, disk, overwrite, now, budget);
      ghost var bytes, parsed := PackOf(options.layout, Links(scanned), files), PackedEntries(options.layout, linked);
      ghost var payload :| Holds(suite, archive.value, h, payload, bytes, options.password);
      assert budget >= 2 * |scanned| ==> Restorable(suite, archive.value, h, payload, bytes, parsed, options.password, false, budget);
      if budget >= 2 * |scanned| {
        ExactIsSource(disk.nodes, disk.inodes, entries, packed, linked, files);
        AllAliasesShown(root, tree, selected, disk.nodes, disk.inodes, scanned, linked, files);
        RestoredMirrors(root, tree, selected, disk.nodes, disk.inodes, scanned, linked, files);
      }
    }
  }
}
