/**
 * Properties of the archive engine that relate several operations: what
 * a freshly created archive gives back, how the header's copy of the root
 * and the root node in the file drift apart, and what the reallocation
 * callback preserves.
 */
module EngineProperties {
  import opened Helpers
  import opened Layout
  import opened DirectoryTree
  import opened Allocator
  import opened ArchiveEngine
  import ArchiveFile

  /** The state of an archive right after `Create(unit)`. */
  function Fresh(unit: uint32): (s: EngineState)
    ensures Sane(s) && s.root == NewDirectory(0) && s.cursor == Position(RootOffset as uint32, NewDirectory(0))
  {
    Opened(InitialHeader(unit), map[])
  }

  /** A name for a single-component path below the root. */
  predicate PlainName(name: string)
  {
    0 < |name| < NameSize && NoNul(name) && forall j :: 0 <= j < |name| ==> name[j] != '/'
  }

  /**
   * In a fresh archive, creating `/name` lands in the root: the parent is
   * the root, which has room, and the new block gets the first unit after
   * the header.
   */
  lemma FreshPrepare(unit: uint32, name: string)
    requires unit > 0 && PlainName(name)
    ensures Split("/" + name, "/") != [] && Leaf("/" + name) == name
    ensures Prepare(Fresh(unit), unit, ArchiveFile.ReadWrite, "/" + name) ==
      (Fresh(unit), Ok(Position(RootOffset as uint32, NewDirectory(0))))
  {
    var s := Fresh(unit);
    OneComponentAbsoluteUsesCursor(s.store, s.root, s.cursor, name);
    assert ParentOf(s, "/" + name) == Ok(s.cursor);
  }

  /** The first allocation in a fresh archive takes the first unit after the header. */
  lemma FreshAlloc(unit: uint32, size: uint32)
    requires unit > 0 && Sectors(size, unit) >= 1 && Sectors(size, unit) as nat <= TableUnits
    ensures AllocStep(Fresh(unit), unit, size).1 == Ok(HeaderSize as uint32)
  {
    var s := Fresh(unit);
    var n := Sectors(size, unit);
    assert s.table == InitialHeader(unit).table;
    EmptyTableFirstFit(s.table, n as nat);
    assert AllocStep(s, unit, size).1 == Ok(AllocOffset(HeaderSize as uint32, unit, 0));
  }

  /** A run for `size` bytes has at most `size` units. */
  lemma SectorsAtMostSize(size: uint32, unit: uint32)
    requires unit > 0 && size >= 1
    ensures 1 <= Sectors(size, unit) <= size
  {
    SectorsIsCeiling(size, unit);
    var n := Sectors(size, unit) as nat;
    MulMonotone(n - 1, n - 1, 1, unit as nat);
  }

  /** The root of a fresh archive after `e` was added to it. */
  function RootWith(e: ArchiveEntry): (d: DirectoryImage)
    ensures WellShaped(d) && d.magic == DirectoryMagic && d.next == 0 && d.parent == 0
    ensures Visible(d) == [e] && d.entries[0] == e
  {
    var d := Added(NewDirectory(0), e).value;
    assert d.entries[0] == Visible(d)[0];
    d
  }

  /** The state of a fresh archive after its first successful creation of `/name`. */
  function AfterFirst(unit: uint32, e: ArchiveEntry, size: uint32, block: Block): (s: EngineState)
    requires unit > 0
    ensures Sane(s)
  {
    var n := if unit > 0 then Sectors(size, unit) as nat else 0;
    EngineState(map[RootOffset as uint32 := Node(RootWith(e)), HeaderSize as uint32 := block],
                RootWith(e), MarkRun(Fresh(unit).table, 0, n), Position(RootOffset as uint32, RootWith(e)))
  }

  /** A length below 2^32 is kept as it is by the truncation to `uint32`. */
  lemma TruncatedSmall(n: nat)
    requires n < TwoTo32
    ensures Truncated(n) == n as uint32
  {
  }

  /** Creating the file `/name` in a fresh archive succeeds, with the entry in the root. */
  lemma FreshCreateFile(unit: uint32, name: string, data: seq<byte>)
    requires unit > 0 && PlainName(name) && 0 < |data| < TwoTo32
    requires Sectors(|data| as uint32, unit) as nat <= TableUnits
    ensures Split("/" + name, "/") != [] && Sectors(Truncated(|data|), unit) >= 1
    ensures FileEntry(name, HeaderSize as uint32, |data| as uint32).Ok?
    ensures CreateFileSpec(Fresh(unit), unit, ArchiveFile.ReadWrite, "/" + name, data) ==
      (AfterFirst(unit, FileEntry(name, HeaderSize as uint32, |data| as uint32).value, |data| as uint32, Payload(data)), Ok(()))
  {
    var size := Truncated(|data|);
    TruncatedSmall(|data|);
    SectorsIsCeiling(size, unit);
    FreshPrepare(unit, name);
    FreshAlloc(unit, size);
    var e := FileEntry(name, HeaderSize as uint32, size).value;
    var s1 := AfterFirst(unit, e, size, Payload(data));
    assert Insert(AllocStep(Fresh(unit), unit, size).0, Position(RootOffset as uint32, NewDirectory(0)), e, HeaderSize as uint32, Payload(data)).store == s1.store;
  }

  /** In the state after the first creation, `/name` finds the new entry in the root. */
  lemma AfterFirstLookup(unit: uint32, name: string, e: ArchiveEntry, size: uint32, block: Block)
    requires unit > 0 && PlainName(name) && EntryName(e) == name
    ensures Split("/" + name, "/") != []
    ensures var s := AfterFirst(unit, e, size, block);
      Lookup(s.store, s.root, s.cursor, "/" + name) == Ok(e)
  {
    var s := AfterFirst(unit, e, size, block);
    var d := RootWith(e);
    OneComponentAbsoluteUsesCursor(s.store, s.root, s.cursor, name);
    assert ReadNode(s.store, RootOffset as uint32) == Ok(d);
    assert FirstNamed(d, name, 0) == Some(0);
  }

  /**
   * Writing a file into a fresh archive and reading it back by the same
   * path returns exactly the bytes written.
   */
  lemma FreshFileRoundTrip(unit: uint32, name: string, data: seq<byte>)
    requires unit > 0 && PlainName(name) && 0 < |data| < TwoTo32
    requires Sectors(|data| as uint32, unit) as nat <= TableUnits
    ensures Split("/" + name, "/") != [] && Sectors(Truncated(|data|), unit) >= 1
    ensures var (s1, r) := CreateFileSpec(Fresh(unit), unit, ArchiveFile.ReadWrite, "/" + name, data);
      r == Ok(()) && WholeFile(s1, ArchiveFile.ReadWrite, "/" + name) == Ok(data)
  {
    FreshCreateFile(unit, name, data);
    CStrOfNoNul(name);
    var e := FileEntry(name, HeaderSize as uint32, |data| as uint32).value;
    var s1 := AfterFirst(unit, e, |data| as uint32, Payload(data));
    AfterFirstLookup(unit, name, e, |data| as uint32, Payload(data));
    assert e.offset == HeaderSize as uint32 && e.size as nat == |data|;
    assert s1.store[HeaderSize as uint32] == Payload(data);
    assert data[..e.size] == data;
    assert Content(s1.store, e) == Ok(data);
    assert data + ArchiveFile.Zeros(0) == data;
  }

  /** A plain name is a one-component path. */
  lemma PlainNameSplit(name: string)
    requires PlainName(name)
    ensures Split(name, "/") == [name]
  {
    forall j | 0 <= j < |name|
      ensures !SepAt(name, "/", j)
    {
      SingleSepAt(name, '/', j);
    }
    SplitStep(name, "/", 0, |name|);
    assert name[0..] == name;
  }

  /** Creating the directory `/name` in a fresh archive succeeds, with the entry in the root. */
  lemma FreshCreateDirectory(unit: uint32, name: string)
    requires unit > 0 && PlainName(name)
    ensures Split("/" + name, "/") != [] && DirectoryEntry(name, HeaderSize as uint32).Ok?
    ensures CreateDirectorySpec(Fresh(unit), unit, ArchiveFile.ReadWrite, "/" + name) ==
      (AfterFirst(unit, DirectoryEntry(name, HeaderSize as uint32).value, DirectorySize as uint32,
                  Node(NewDirectory(RootOffset as uint32))), Ok(()))
  {
    var size := DirectorySize as uint32;
    SectorsAtMostSize(size, unit);
    FreshPrepare(unit, name);
    FreshAlloc(unit, size);
    var e := DirectoryEntry(name, HeaderSize as uint32).value;
    var child := NewDirectory(RootOffset as uint32);
    var s1 := AfterFirst(unit, e, size, Node(child));
    assert Insert(AllocStep(Fresh(unit), unit, size).0, Position(RootOffset as uint32, NewDirectory(0)), e,
                  HeaderSize as uint32, Node(child)).store == s1.store;
  }

  /** After the first creation, listing `/` gives just the new name. */
  lemma AfterFirstListing(unit: uint32, e: ArchiveEntry, size: uint32, block: Block)
    requires unit > 0
    ensures Listing(AfterFirst(unit, e, size, block), ArchiveFile.ReadWrite, "/") == Ok([EntryName(e)])
  {
    var s1 := AfterFirst(unit, e, size, block);
    ResolveRoot(s1.store, s1.root, s1.cursor);
    assert ReadNode(s1.store, RootOffset as uint32) == Ok(RootWith(e));
    assert Names(RootWith(e)) == [EntryName(e)];
  }

  /** After the first creation of a directory, its path resolves to the new empty node. */
  lemma AfterFirstEnter(unit: uint32, name: string, e: ArchiveEntry)
    requires unit > 0 && PlainName(name) && name != "." && name != ".."
    requires EntryName(e) == name && e.entryType == DirectoryType
    requires e.offset == HeaderSize as uint32
    ensures var s1 := AfterFirst(unit, e, DirectorySize as uint32, Node(NewDirectory(RootOffset as uint32)));
      Resolve(s1.store, s1.root, s1.cursor, "/" + name) == Ok(Position(HeaderSize as uint32, NewDirectory(RootOffset as uint32)))
  {
    var child := NewDirectory(RootOffset as uint32);
    var s1 := AfterFirst(unit, e, DirectorySize as uint32, Node(child));
    PlainNameSplit(name);
    assert ("/" + name)[1..] == name;
    var root := Position(RootOffset as uint32, RootWith(e));
    assert ReadNode(s1.store, HeaderSize as uint32) == Ok(child);
    assert Scan(s1.store, root, name, 0, false) == Scan(s1.store, Position(HeaderSize as uint32, child), name, 1, true);
    assert [name][1..] == [];
    assert Walk(s1.store, root, [name], Fuel(s1.store)) == Walk(s1.store, Position(HeaderSize as uint32, child), [], Fuel(s1.store));
  }

  /**
   * Creating the directory `/name` in a fresh archive succeeds; listing
   * `/` then gives just that name, and `/name` resolves to the new, empty
   * directory whose parent is the root.
   */
  lemma FreshDirectoryListed(unit: uint32, name: string)
    requires unit > 0 && PlainName(name) && name != "." && name != ".."
    ensures Split("/" + name, "/") != []
    ensures var (s1, r) := CreateDirectorySpec(Fresh(unit), unit, ArchiveFile.ReadWrite, "/" + name);
      r == Ok(()) && Listing(s1, ArchiveFile.ReadWrite, "/") == Ok([name]) &&
      Resolve(s1.store, s1.root, s1.cursor, "/" + name) == Ok(Position(HeaderSize as uint32, NewDirectory(RootOffset as uint32)))
  {
    FreshCreateDirectory(unit, name);
    CStrOfNoNul(name);
    var e := DirectoryEntry(name, HeaderSize as uint32).value;
    AfterFirstListing(unit, e, DirectorySize as uint32, Node(NewDirectory(RootOffset as uint32)));
    AfterFirstEnter(unit, name, e);
  }

  /**
   * `SetCurrentDirectory("/")`: the cursor path becomes `/` and the cursor
   * offset the root's, but the cursor's node is the root node as stored in
   * the file, which need not be the header's copy.
   */
  lemma SetCursorToRoot(s: EngineState, cursorPath: string, mode: ArchiveFile.OpenMode, d: DirectoryImage)
    requires Sane(s) && |cursorPath| >= 1 && mode != ArchiveFile.WriteOnly
    requires ReadNode(s.store, RootOffset as uint32) == Ok(d)
    ensures SetCursor(s, cursorPath, mode, "/") == (s.(cursor := Position(RootOffset as uint32, d)), "/", Ok(()))
  {
    ResolveRoot(s.store, s.root, s.cursor);
    SplitEmpty("/");
    assert "/"[1..] == "";
    assert Normalize(Entered(cursorPath, "/")) == Ok("/");
  }

  /** The entry moved by the reallocation callback reads back the same bytes at its new offset. */
  lemma CopyKeepsContent(store: Store, e: ArchiveEntry, newOffset: uint32)
    requires Content(store, e).Ok?
    ensures Content(store[newOffset := Copied(store[e.offset], e.size)], e.(offset := newOffset)) == Content(store, e)
  {
    var b := store[e.offset].bytes;
    assert b[..e.size][..e.size] == b[..e.size];
  }

  /** With units of at most 128 KiB every allocation lies after the header. */
  lemma AllocAfterHeader(s: EngineState, unit: uint32, size: uint32)
    requires Sane(s) && 0 < unit <= 0x2_0000 && Sectors(size, unit) >= 1
    ensures AllocStep(s, unit, size).1.Ok? ==> AllocStep(s, unit, size).1.value >= HeaderSize as uint32
  {
    var f := FirstFit(s.table, Sectors(size, unit) as nat);
    if f.Some? {
      assert RunClear(s.table, f.value, Sectors(size, unit) as nat);
      AllocOffsetAfterHeader(unit, f.value);
    }
  }

  /**
   * Creating `/name` while the cursor is a full root without overflow node:
   * the chain walk links a new node from the root and writes the root back
   * with that link, but the allocation for the entry itself then flushes
   * the header, whose copy of the root never got the link, over the root
   * in the file. The entry lands in the overflow node, which nothing points
   * to any more.
   */
  lemma RootOverflowState(s: EngineState, unit: uint32, name: string, data: seq<byte>)
    requires Sane(s) && 0 < unit <= 0x2_0000 && PlainName(name)
    requires Sectors(Truncated(|data|), unit) >= 1
    requires s.cursor == Position(RootOffset as uint32, s.root)
    requires RootOffset as uint32 in s.store && s.store[RootOffset as uint32] == Node(s.root)
    requires s.root.magic == DirectoryMagic && s.root.numEntries == EntryCapacity as uint32 && s.root.next == 0
    requires Split("/" + name, "/") != []
    requires CreateFileSpec(s, unit, ArchiveFile.ReadWrite, "/" + name, data).1 == Ok(())
    ensures var s1 := CreateFileSpec(s, unit, ArchiveFile.ReadWrite, "/" + name, data).0;
      s1.root == s.root && s1.cursor == s.cursor &&
      RootOffset as uint32 in s1.store && s1.store[RootOffset as uint32] == Node(s.root)
  {
    var path := "/" + name;
    var mode := ArchiveFile.ReadWrite;
    OneComponentAbsoluteUsesCursor(s.store, s.root, s.cursor, name);
    var p := s.cursor;
    assert ParentOf(s, path) == Ok(p);
    assert ChainEnd(s.store, p, Fuel(s.store)) == Ok(p);
    SectorsIsCeiling(DirectorySize as uint32, unit);
    AllocAfterHeader(s, unit, DirectorySize as uint32);
    var (sa, a) := AllocStep(s, unit, DirectorySize as uint32);
    assert a.Ok?;
    var o1 := a.value;
    var q := Position(o1, NewDirectory(s.root.parent));
    var sg := sa.(store := sa.store[RootOffset as uint32 := Node(s.root.(next := o1))]);
    assert Prepare(s, unit, mode, path) == (sg, Ok(q));
    AllocAfterHeader(sg, unit, Truncated(|data|));
    var (sb, b) := AllocStep(sg, unit, Truncated(|data|));
    assert b.Ok?;
    var o2 := b.value;
    assert sb.store[RootOffset as uint32] == Node(s.root);
    var e := FileEntry(Leaf(path), o2, Truncated(|data|)).value;
    var s1 := Insert(sb, q, e, o2, Payload(data));
    assert CreateFileSpec(s, unit, mode, path, data) == (s1, Ok(()));
  }

  /**
   * The consequence of the lost link: after the creation succeeded,
   * listing `/` gives the old names only, and the new file is not found.
   */
  lemma RootOverflowLinkLost(s: EngineState, unit: uint32, name: string, data: seq<byte>)
    requires Sane(s) && 0 < unit <= 0x2_0000 && PlainName(name)
    requires Sectors(Truncated(|data|), unit) >= 1
    requires s.cursor == Position(RootOffset as uint32, s.root)
    requires RootOffset as uint32 in s.store && s.store[RootOffset as uint32] == Node(s.root)
    requires s.root.magic == DirectoryMagic && s.root.numEntries == EntryCapacity as uint32 && s.root.next == 0
    requires Split("/" + name, "/") != []
    requires CreateFileSpec(s, unit, ArchiveFile.ReadWrite, "/" + name, data).1 == Ok(())
    ensures var s1 := CreateFileSpec(s, unit, ArchiveFile.ReadWrite, "/" + name, data).0;
      Listing(s1, ArchiveFile.ReadWrite, "/") == Ok(Names(s.root)) &&
      (name !in Names(s.root) ==> Lookup(s1.store, s1.root, s1.cursor, "/" + name) == Err(NotFound))
  {
    RootOverflowState(s, unit, name, data);
    var s1 := CreateFileSpec(s, unit, ArchiveFile.ReadWrite, "/" + name, data).0;
    ResolveRoot(s1.store, s1.root, s1.cursor);
    assert ReadNode(s1.store, RootOffset as uint32) == Ok(s.root);
    OneComponentAbsoluteUsesCursor(s1.store, s1.root, s1.cursor, name);
    var k := FirstNamed(s.root, name, 0);
    if k.Some? {
      assert Names(s.root)[k.value] == name;
    }
  }

  /**
   * The node that receives a new entry is the end of the parent's chain
   * walk: that node itself when it has room, otherwise (it is the last
   * node, every node being full) a new empty node with the same parent,
   * linked from it.
   */
  lemma PrepareReceiver(s: EngineState, unit: uint32, mode: ArchiveFile.OpenMode, path: string)
    requires Sane(s) && unit > 0 && Split(path, "/") != [] && Prepare(s, unit, mode, path).1.Ok?
    ensures mode != ArchiveFile.ReadOnly && ParentOf(s, path).Ok?
    ensures ChainEnd(s.store, ParentOf(s, path).value, Fuel(s.store)).Ok?
    ensures var q := ChainEnd(s.store, ParentOf(s, path).value, Fuel(s.store)).value;
      var (s1, g) := Prepare(s, unit, mode, path);
      (HasFreeSlot(q.node) ==> s1 == s && g.value == q) &&
      (!HasFreeSlot(q.node) ==>
        q.node.next == 0 && g.value.node == NewDirectory(q.node.parent) &&
        q.offset in s1.store && s1.store[q.offset] == Node(q.node.(next := g.value.offset)))
  {
  }

  /**
   * What a successful CreateDirectory writes: the new node, empty and
   * with the receiving node as parent, at a freshly allocated offset; a
   * directory entry for it appended to the receiving node, which is
   * written back; and the header's root and the cursor replaced by the
   * receiving node when they are that node.
   */
  lemma CreateDirectoryWrites(s: EngineState, unit: uint32, mode: ArchiveFile.OpenMode, path: string)
    requires Sane(s) && unit > 0 && Split(path, "/") != []
    requires CreateDirectorySpec(s, unit, mode, path).1.Ok?
    ensures Prepare(s, unit, mode, path).1.Ok?
    ensures var (s1, g) := Prepare(s, unit, mode, path);
      var p := g.value;
      var n := Sectors(DirectorySize as uint32, unit) as nat;
      FirstFit(s1.table, n).Some? &&
      var o := AllocOffset(HeaderSize as uint32, unit, FirstFit(s1.table, n).value);
      DirectoryEntry(Leaf(path), o).Ok? &&
      var e := DirectoryEntry(Leaf(path), o).value;
      var d := Added(p.node, e).value;
      var r := CreateDirectorySpec(s, unit, mode, path).0;
      e.entryType == DirectoryType && e.size == DirectorySize as uint32 && EntryName(e) == CStr(Leaf(path)) &&
      o in r.store && r.store[o] == Node(NewDirectory(p.offset)) &&
      (o != p.offset ==> p.offset in r.store && r.store[p.offset] == Node(d)) &&
      Visible(d) == Visible(p.node) + [e] &&
      (p.offset == RootOffset as uint32 ==> r.root == d) &&
      (p.offset == s.cursor.offset ==> r.cursor == Position(p.offset, d))
  {
    SectorsIsCeiling(DirectorySize as uint32, unit);
  }

  /**
   * What a successful CreateFile writes: the data whole at a freshly
   * allocated offset, and a file entry recording that offset and the
   * data's length as a `uint32_t`, appended to the receiving node; the
   * mirror rule as for directories.
   */
  lemma CreateFileWrites(s: EngineState, unit: uint32, mode: ArchiveFile.OpenMode, path: string, data: seq<byte>)
    requires Sane(s) && unit > 0 && Split(path, "/") != [] && Sectors(Truncated(|data|), unit) >= 1
    requires CreateFileSpec(s, unit, mode, path, data).1.Ok?
    ensures Prepare(s, unit, mode, path).1.Ok?
    ensures var (s1, g) := Prepare(s, unit, mode, path);
      var p := g.value;
      var n := Sectors(Truncated(|data|), unit) as nat;
      FirstFit(s1.table, n).Some? &&
      var o := AllocOffset(HeaderSize as uint32, unit, FirstFit(s1.table, n).value);
      FileEntry(Leaf(path), o, Truncated(|data|)).Ok? &&
      var e := FileEntry(Leaf(path), o, Truncated(|data|)).value;
      var d := Added(p.node, e).value;
      var r := CreateFileSpec(s, unit, mode, path, data).0;
      e.entryType == FileType && e.size as nat == |data| % TwoTo32 && EntryName(e) == CStr(Leaf(path)) &&
      o in r.store && r.store[o] == Payload(data) &&
      (o != p.offset ==> p.offset in r.store && r.store[p.offset] == Node(d)) &&
      Visible(d) == Visible(p.node) + [e] &&
      (p.offset == RootOffset as uint32 ==> r.root == d) &&
      (p.offset == s.cursor.offset ==> r.cursor == Position(p.offset, d))
  {
  }
}
