/**
 * What CreateFile and CreateDirectory guarantee on any archive that is in
 * good order, not only on a fresh one: the new file reads back, its size
 * is the recorded length, and the parent's listing gains exactly the new
 * name at its end; repeated creations in one directory list their names
 * in order.
 *
 * "Good order" is what the engine's own operations keep: every stored
 * block other than the header's root lies on units the table marks in use
 * (so a fresh allocation never lands on a stored block), the header's root
 * copy is the node stored at the root offset, and a node that links to an
 * overflow node is full and does not link to the root.
 */
module CreateProperties {
  import opened Helpers
  import opened Layout
  import opened DirectoryTree
  import opened Allocator
  import opened ArchiveEngine
  import opened TreeFrame
  import ArchiveFile
  import EngineProperties

  // ---------------------------------------------------------------------
  // The invariant

  /** `k` is the offset `Allocate` returned for a unit the table marks in use. */
  ghost predicate Marked(s: EngineState, unit: uint32, k: uint32)
  {
    exists i :: 0 <= i < |s.table| && s.table[i] && k == AllocOffset(HeaderSize as uint32, unit, i)
  }

  /** Every stored block but the header's root was allocated and is still in use. */
  ghost predicate Tracked(s: EngineState, unit: uint32)
  {
    forall k {:trigger Marked(s, unit, k)} :: k in s.store && k != RootOffset as uint32 ==> Marked(s, unit, k)
  }

  /** A node that links onward is full and does not link back to the root. */
  predicate Packed(st: Store)
  {
    forall k :: k in st && st[k].Node? && WellShaped(st[k].dir) && st[k].dir.next != 0 ==>
      !HasFreeSlot(st[k].dir) && st[k].dir.next != RootOffset as uint32
  }

  /** The state is in good order for allocation units of `unit` bytes. */
  ghost predicate Orderly(s: EngineState, unit: uint32)
  {
    Sane(s) && 0 < unit <= 0x2_0000 && ReadNode(s.store, RootOffset as uint32) == Ok(s.root) &&
    Tracked(s, unit) && Packed(s.store)
  }

  /** The cursor's copy is the node stored at its offset. */
  predicate CursorSynced(s: EngineState)
  {
    ReadNode(s.store, s.cursor.offset) == Ok(s.cursor.node)
  }

  // ---------------------------------------------------------------------
  // Fresh allocations

  /** With units of at most 128 KiB the offset of unit `i` is computed without wrapping. */
  lemma AllocOffsetExact(unit: uint32, i: nat)
    requires 0 < unit <= 0x2_0000 && i < TableUnits
    ensures AllocOffset(HeaderSize as uint32, unit, i) as nat == HeaderSize + i * unit as nat
  {
    MulMonotone(i, TableUnits - 1, unit as nat, 0x2_0000);
  }

  /** Different units start at different offsets. */
  lemma AllocOffsetInjective(unit: uint32, i: nat, j: nat)
    requires 0 < unit <= 0x2_0000 && i < TableUnits && j < TableUnits
    requires AllocOffset(HeaderSize as uint32, unit, i) == AllocOffset(HeaderSize as uint32, unit, j)
    ensures i == j
  {
    AllocOffsetExact(unit, i);
    AllocOffsetExact(unit, j);
    if i < j {
      MulMonotone(i + 1, j, unit as nat, unit as nat);
    } else if j < i {
      MulMonotone(j + 1, i, unit as nat, unit as nat);
    }
  }

  /** The first free run starts at an offset past the header where nothing is stored. */
  lemma AllocFresh(s: EngineState, unit: uint32, n: nat)
    requires Orderly(s, unit) && n >= 1 && FirstFit(s.table, n).Some?
    ensures var o := AllocOffset(HeaderSize as uint32, unit, FirstFit(s.table, n).value);
      o as nat >= HeaderSize && o !in s.store
  {
    var f := FirstFit(s.table, n).value;
    assert f < |s.table| && !s.table[f];
    FreeUnitFresh(s, unit, f);
  }

  /** A unit the table marks free starts at an offset past the header where nothing is stored. */
  lemma FreeUnitFresh(s: EngineState, unit: uint32, f: nat)
    requires Orderly(s, unit) && f < |s.table| && !s.table[f]
    ensures var o := AllocOffset(HeaderSize as uint32, unit, f);
      o as nat >= HeaderSize && o !in s.store
  {
    var o := AllocOffset(HeaderSize as uint32, unit, f);
    AllocOffsetExact(unit, f);
    if o in s.store {
      assert Marked(s, unit, o);
      var i :| 0 <= i < |s.table| && s.table[i] && o == AllocOffset(HeaderSize as uint32, unit, i);
      AllocOffsetInjective(unit, i, f);
      assert false;
    }
  }

  /** Units in use stay in use, so what was tracked stays tracked. */
  lemma TrackedGrows(s: EngineState, s1: EngineState, unit: uint32)
    requires Tracked(s, unit) && Grows(s.table, s1.table) && s1.store.Keys <= s.store.Keys
    ensures Tracked(s1, unit)
  {
    forall k | k in s1.store && k != RootOffset as uint32
      ensures Marked(s1, unit, k)
    {
      assert Marked(s, unit, k);
      var i :| 0 <= i < |s.table| && s.table[i] && k == AllocOffset(HeaderSize as uint32, unit, i);
      assert s1.table[i];
    }
  }

  /** The unit at `FirstFit` is in use once the run is marked. */
  lemma MarkedAfterAlloc(s: EngineState, s1: EngineState, unit: uint32, n: nat)
    requires n >= 1 && FirstFit(s.table, n).Some?
    requires SetsRange(s.table, s1.table, FirstFit(s.table, n).value, FirstFit(s.table, n).value + n)
    ensures Marked(s1, unit, AllocOffset(HeaderSize as uint32, unit, FirstFit(s.table, n).value))
  {
    var f := FirstFit(s.table, n).value;
    assert s1.table[f];
  }

  /** A unit marked in use stays marked while the table only grows. */
  lemma MarkedGrows(s: EngineState, s1: EngineState, unit: uint32, k: uint32)
    requires Marked(s, unit, k) && Grows(s.table, s1.table)
    ensures Marked(s1, unit, k)
  {
    var i :| 0 <= i < |s.table| && s.table[i] && k == AllocOffset(HeaderSize as uint32, unit, i);
    assert s1.table[i];
  }

  // ---------------------------------------------------------------------
  // The steps of a creation on a state in good order

  /**
   * The end of a chain in a packed file is the last node, stored where the
   * walk found it, and it is the root only when the walk started there.
   */
  lemma {:induction false} ChainEndFacts(st: Store, p: Position, fuel: nat)
    requires Packed(st) && WellShaped(p.node) && ReadNode(st, p.offset) == Ok(p.node)
    requires ChainEnd(st, p, fuel).Ok?
    ensures var q := ChainEnd(st, p, fuel).value;
      q.node.next == 0 && ReadNode(st, q.offset) == Ok(q.node) &&
      (q.offset == RootOffset as uint32 ==> q == p)
    decreases fuel
  {
    if !HasFreeSlot(p.node) && p.node.next != 0 {
      var n := ReadNode(st, p.node.next).value;
      ChainEndSkipsFull(st, p, n, fuel);
      ChainEndFacts(st, Position(p.node.next, n), fuel - 1);
    }
  }

  /**
   * The parent's head node has room when it is the root: an overflow node
   * linked from the root is lost at the next table flush (see
   * RootOverflowState), so the properties below leave that case out.
   */
  predicate RootHasRoom(s: EngineState, path: string)
    requires Sane(s) && Split(path, "/") != []
  {
    ParentOf(s, path).Ok? && ParentOf(s, path).value.offset == RootOffset as uint32 ==>
      HasFreeSlot(ParentOf(s, path).value.node)
  }

  /**
   * What the preparation of a creation did: the parent's chain ends at its
   * last node `q`; when `q` has room nothing changed and `q` receives the
   * entry, otherwise a fresh overflow node at `link` receives it and `q`,
   * written back, points to `link`. Good order is kept.
   */
  lemma PrepareShape(s: EngineState, unit: uint32, mode: ArchiveFile.OpenMode, path: string) returns (q: Position, link: uint32)
    requires Orderly(s, unit) && Split(path, "/") != [] && RootHasRoom(s, path)
    requires Prepare(s, unit, mode, path).1.Ok?
    ensures ParentOf(s, path).Ok? && ChainEnd(s.store, ParentOf(s, path).value, Fuel(s.store)) == Ok(q)
    ensures q.node.next == 0 && ReadNode(s.store, q.offset) == Ok(q.node)
    ensures var (s1, g) := Prepare(s, unit, mode, path);
      Orderly(s1, unit) && s1.root == s.root && s1.cursor == s.cursor && Grows(s.table, s1.table) &&
      (HasFreeSlot(q.node) ==> s1 == s && g.value == q) &&
      (!HasFreeSlot(q.node) ==>
        link as nat >= HeaderSize && link !in s.store && Marked(s1, unit, link) && q.offset != RootOffset as uint32 &&
        g.value == Position(link, NewDirectory(q.node.parent)) &&
        s1.store == s.store[q.offset := Node(q.node.(next := link))])
  {
    var p := ParentOf(s, path).value;
    q := ChainEnd(s.store, p, Fuel(s.store)).value;
    ChainEndFacts(s.store, p, Fuel(s.store));
    var (s1, g) := Prepare(s, unit, mode, path);
    assert (s1, g) == GrowChain(s, unit, q);
    if HasFreeSlot(q.node) {
      link := 0;
    } else {
      var n := Sectors(DirectorySize as uint32, unit) as nat;
      SectorsIsCeiling(DirectorySize as uint32, unit);
      link := g.value.offset;
      AllocFresh(s, unit, n);
      MarkedAfterAlloc(s, s1, unit, n);
      assert s.store[RootOffset as uint32 := Node(s.root)] == s.store;
      TrackedGrows(s, s1, unit);
    }
  }

  /** An allocation on a state in good order: a fresh offset past the header, the file unchanged. */
  lemma AllocShape(s: EngineState, unit: uint32, size: uint32)
    requires Orderly(s, unit) && Sectors(size, unit) >= 1 && AllocStep(s, unit, size).1.Ok?
    ensures var (s2, a) := AllocStep(s, unit, size);
      Orderly(s2, unit) && s2.store == s.store && s2.root == s.root && s2.cursor == s.cursor &&
      a.value as nat >= HeaderSize && a.value !in s.store && !Marked(s, unit, a.value) && Marked(s2, unit, a.value)
  {
    var (s2, a) := AllocStep(s, unit, size);
    var n := Sectors(size, unit) as nat;
    var f := FirstFit(s.table, n).value;
    AllocFresh(s, unit, n);
    MarkedAfterAlloc(s, s2, unit, n);
    assert s.store[RootOffset as uint32 := Node(s.root)] == s.store;
    TrackedGrows(s, s2, unit);
    if Marked(s, unit, a.value) {
      var i :| 0 <= i < |s.table| && s.table[i] && a.value == AllocOffset(HeaderSize as uint32, unit, i);
      AllocOffsetInjective(unit, i, f);
      assert false;
    }
  }

  /** Writing the receiving node and the new block keeps good order. */
  lemma InsertOrderly(s: EngineState, unit: uint32, p: Position, e: ArchiveEntry, o: uint32, block: Block)
    requires Orderly(s, unit) && WellShaped(p.node) && HasFreeSlot(p.node) && p.node.next == 0
    requires p.node.magic == DirectoryMagic
    requires p.offset == RootOffset as uint32 || Marked(s, unit, p.offset)
    requires o as nat >= HeaderSize && o != p.offset && Marked(s, unit, o)
    requires block.Node? ==> block.dir.next == 0
    ensures Orderly(Insert(s, p, e, o, block), unit)
  {
    var r := Insert(s, p, e, o, block);
    forall k | k in r.store && k != RootOffset as uint32
      ensures Marked(r, unit, k)
    {
      if k != o && k != p.offset {
        assert Marked(s, unit, k);
      }
    }
  }

  /**
   * The insertion of the entry `e`, for the block at the fresh offset
   * `e.offset`, into the receiver `r` that the preparation `s` to `sp`
   * produced (`q` itself, or a new overflow node at `link` after `q`).
   */
  lemma InsertShape(s: EngineState, sp: EngineState, s2: EngineState, unit: uint32, q: Position, link: uint32,
                    r: Position, e: ArchiveEntry, block: Block)
    requires Orderly(s, unit) && Orderly(s2, unit) && sp.root == s.root && sp.cursor == s.cursor
    requires WellShaped(q.node) && q.node.next == 0 && ReadNode(s.store, q.offset) == Ok(q.node)
    requires HasFreeSlot(q.node) ==> sp == s && r == q
    requires !HasFreeSlot(q.node) ==>
      link as nat >= HeaderSize && link !in s.store && Marked(sp, unit, link) && q.offset != RootOffset as uint32 &&
      r == Position(link, NewDirectory(q.node.parent)) && sp.store == s.store[q.offset := Node(q.node.(next := link))]
    requires Grows(sp.table, s2.table) && s2.store == sp.store && s2.root == sp.root && s2.cursor == sp.cursor
    requires e.offset as nat >= HeaderSize && e.offset !in sp.store && !Marked(sp, unit, e.offset) && Marked(s2, unit, e.offset)
    requires block.Node? ==> block.dir.next == 0
    ensures var s1 := Insert(s2, r, e, e.offset, block);
      Orderly(s1, unit) && EntryAppended(s.store, s1.store, q, e, link) &&
      e.offset !in s.store && e.offset in s1.store && s1.store[e.offset] == block &&
      Grown(s.root, s1.root, e, link) && s1.cursor.offset == s.cursor.offset &&
      (CursorSynced(s) ==> Grown(s.cursor.node, s1.cursor.node, e, link))
  {
    if HasFreeSlot(q.node) {
      InsertInPlace(s, s2, unit, q, link, e, block);
    } else {
      InsertOverflow(s, sp, s2, unit, q, link, e, block);
    }
  }

  /** InsertShape where the last node of the chain has room and takes the entry itself. */
  lemma InsertInPlace(s: EngineState, s2: EngineState, unit: uint32, q: Position, link: uint32, e: ArchiveEntry, block: Block)
    requires Orderly(s, unit) && Orderly(s2, unit)
    requires WellShaped(q.node) && q.node.next == 0 && ReadNode(s.store, q.offset) == Ok(q.node) && HasFreeSlot(q.node)
    requires Grows(s.table, s2.table) && s2.store == s.store && s2.root == s.root && s2.cursor == s.cursor
    requires e.offset as nat >= HeaderSize && e.offset !in s.store && Marked(s2, unit, e.offset)
    requires block.Node? ==> block.dir.next == 0
    ensures var s1 := Insert(s2, q, e, e.offset, block);
      Orderly(s1, unit) && EntryAppended(s.store, s1.store, q, e, link) &&
      e.offset !in s.store && e.offset in s1.store && s1.store[e.offset] == block &&
      Grown(s.root, s1.root, e, link) && s1.cursor.offset == s.cursor.offset &&
      (CursorSynced(s) ==> Grown(s.cursor.node, s1.cursor.node, e, link))
  {
    assert q.offset in s.store;
    if q.offset != RootOffset as uint32 {
      MarkedGrows(s, s2, unit, q.offset);
    }
    InsertOrderly(s2, unit, q, e, e.offset, block);
  }

  /** InsertShape where the last node of the chain is full and the entry goes to a new node at `link`. */
  lemma InsertOverflow(s: EngineState, sp: EngineState, s2: EngineState, unit: uint32, q: Position, link: uint32,
                       e: ArchiveEntry, block: Block)
    requires Orderly(s, unit) && Orderly(s2, unit) && sp.root == s.root && sp.cursor == s.cursor
    requires WellShaped(q.node) && q.node.next == 0 && ReadNode(s.store, q.offset) == Ok(q.node) && !HasFreeSlot(q.node)
    requires link as nat >= HeaderSize && link !in s.store && Marked(sp, unit, link) && q.offset != RootOffset as uint32
    requires sp.store == s.store[q.offset := Node(q.node.(next := link))]
    requires Grows(sp.table, s2.table) && s2.store == sp.store && s2.root == sp.root && s2.cursor == sp.cursor
    requires e.offset as nat >= HeaderSize && e.offset !in sp.store && !Marked(sp, unit, e.offset) && Marked(s2, unit, e.offset)
    requires block.Node? ==> block.dir.next == 0
    ensures var s1 := Insert(s2, Position(link, NewDirectory(q.node.parent)), e, e.offset, block);
      Orderly(s1, unit) && EntryAppended(s.store, s1.store, q, e, link) &&
      e.offset !in s.store && e.offset in s1.store && s1.store[e.offset] == block &&
      Grown(s.root, s1.root, e, link) && s1.cursor.offset == s.cursor.offset &&
      (CursorSynced(s) ==> Grown(s.cursor.node, s1.cursor.node, e, link))
  {
    MarkedGrows(sp, s2, unit, link);
    InsertOrderly(s2, unit, Position(link, NewDirectory(q.node.parent)), e, e.offset, block);
    OverflowAppended(s, sp, s2, q, link, e, block);
  }

  /** What InsertOverflow does to the file, the root and the cursor, good order aside. */
  lemma OverflowAppended(s: EngineState, sp: EngineState, s2: EngineState, q: Position, link: uint32, e: ArchiveEntry, block: Block)
    requires Sane(s) && ReadNode(s.store, RootOffset as uint32) == Ok(s.root) && sp.root == s.root && sp.cursor == s.cursor
    requires WellShaped(q.node) && q.node.next == 0 && ReadNode(s.store, q.offset) == Ok(q.node) && !HasFreeSlot(q.node)
    requires link != 0 && link !in s.store && q.offset != RootOffset as uint32 && link != e.offset
    requires sp.store == s.store[q.offset := Node(q.node.(next := link))]
    requires s2.store == sp.store && s2.root == sp.root && s2.cursor == sp.cursor && Sane(s2)
    requires e.offset !in sp.store
    ensures var s1 := Insert(s2, Position(link, NewDirectory(q.node.parent)), e, e.offset, block);
      EntryAppended(s.store, s1.store, q, e, link) &&
      e.offset !in s.store && e.offset in s1.store && s1.store[e.offset] == block &&
      Grown(s.root, s1.root, e, link) && s1.cursor.offset == s.cursor.offset &&
      (CursorSynced(s) ==> Grown(s.cursor.node, s1.cursor.node, e, link))
  {
  }

  /**
   * A creation, from the preparation to the insertion of the entry `e`
   * for the block allocated at `e.offset`: the file gains the entry at the
   * end of the parent's chain, the block at a fresh offset and nothing
   * else; the root and the cursor copies are the old ones grown; good
   * order is kept.
   */
  lemma PlacedShape(s: EngineState, unit: uint32, mode: ArchiveFile.OpenMode, path: string, size: uint32,
                    e: ArchiveEntry, block: Block) returns (q: Position, link: uint32)
    requires Orderly(s, unit) && Split(path, "/") != [] && RootHasRoom(s, path) && Sectors(size, unit) >= 1
    requires Prepare(s, unit, mode, path).1.Ok?
    requires AllocStep(Prepare(s, unit, mode, path).0, unit, size).1.Ok?
    requires e.offset == AllocStep(Prepare(s, unit, mode, path).0, unit, size).1.value
    requires block.Node? ==> block.dir.next == 0
    ensures ParentOf(s, path).Ok? && ChainEnd(s.store, ParentOf(s, path).value, Fuel(s.store)) == Ok(q)
    ensures var s1 := Insert(AllocStep(Prepare(s, unit, mode, path).0, unit, size).0,
                             Prepare(s, unit, mode, path).1.value, e, e.offset, block);
      Orderly(s1, unit) && EntryAppended(s.store, s1.store, q, e, link) &&
      e.offset !in s.store && e.offset in s1.store && s1.store[e.offset] == block &&
      Grown(s.root, s1.root, e, link) && s1.cursor.offset == s.cursor.offset &&
      (CursorSynced(s) ==> Grown(s.cursor.node, s1.cursor.node, e, link))
  {
    var (sp, g) := Prepare(s, unit, mode, path);
    q, link := PrepareShape(s, unit, mode, path);
    AllocShape(sp, unit, size);
    var s2 := AllocStep(sp, unit, size).0;
    InsertShape(s, sp, s2, unit, q, link, g.value, e, block);
  }

  /** CreateFile on a state in good order, seen as one appended entry and one fresh payload block. */
  lemma CreateFileShape(s: EngineState, unit: uint32, mode: ArchiveFile.OpenMode, path: string, data: seq<byte>)
    returns (q: Position, e: ArchiveEntry, link: uint32)
    requires Orderly(s, unit) && Split(path, "/") != [] && RootHasRoom(s, path) && Sectors(Truncated(|data|), unit) >= 1
    requires CreateFileSpec(s, unit, mode, path, data).1.Ok?
    ensures ParentOf(s, path).Ok? && ChainEnd(s.store, ParentOf(s, path).value, Fuel(s.store)) == Ok(q)
    ensures EntryName(e) == CStr(Leaf(path)) && e.size == Truncated(|data|) && e.entryType == FileType
    ensures var s1 := CreateFileSpec(s, unit, mode, path, data).0;
      Orderly(s1, unit) && EntryAppended(s.store, s1.store, q, e, link) &&
      e.offset !in s.store && e.offset in s1.store && s1.store[e.offset] == Payload(data) &&
      Grown(s.root, s1.root, e, link) && s1.cursor.offset == s.cursor.offset &&
      (CursorSynced(s) ==> Grown(s.cursor.node, s1.cursor.node, e, link))
  {
    var (sp, g) := Prepare(s, unit, mode, path);
    var (s2, a) := AllocStep(sp, unit, Truncated(|data|));
    e := FileEntry(Leaf(path), a.value, Truncated(|data|)).value;
    assert CreateFileSpec(s, unit, mode, path, data).0 == Insert(s2, g.value, e, e.offset, Payload(data));
    q, link := PlacedShape(s, unit, mode, path, Truncated(|data|), e, Payload(data));
  }

  /** CreateDirectory on a state in good order, seen as one appended entry and one fresh empty node. */
  lemma CreateDirectoryShape(s: EngineState, unit: uint32, mode: ArchiveFile.OpenMode, path: string)
    returns (q: Position, e: ArchiveEntry, link: uint32)
    requires Orderly(s, unit) && Split(path, "/") != [] && RootHasRoom(s, path)
    requires CreateDirectorySpec(s, unit, mode, path).1.Ok?
    ensures ParentOf(s, path).Ok? && ChainEnd(s.store, ParentOf(s, path).value, Fuel(s.store)) == Ok(q)
    ensures EntryName(e) == CStr(Leaf(path)) && e.entryType == DirectoryType
    ensures var s1 := CreateDirectorySpec(s, unit, mode, path).0;
      Orderly(s1, unit) && EntryAppended(s.store, s1.store, q, e, link) &&
      e.offset !in s.store && e.offset in s1.store && s1.store[e.offset].Node? &&
      s1.store[e.offset].dir == NewDirectory(Prepare(s, unit, mode, path).1.value.offset) &&
      Grown(s.root, s1.root, e, link) && s1.cursor.offset == s.cursor.offset &&
      (CursorSynced(s) ==> Grown(s.cursor.node, s1.cursor.node, e, link))
  {
    var (sp, g) := Prepare(s, unit, mode, path);
    SectorsIsCeiling(DirectorySize as uint32, unit);
    var (s2, a) := AllocStep(sp, unit, DirectorySize as uint32);
    e := DirectoryEntry(Leaf(path), a.value).value;
    var block := Node(NewDirectory(g.value.offset));
    assert CreateDirectorySpec(s, unit, mode, path).0 == Insert(s2, g.value, e, e.offset, block);
    q, link := PlacedShape(s, unit, mode, path, DirectorySize as uint32, e, block);
  }

  // ---------------------------------------------------------------------
  // Reading back and listing after a creation

  /** The leaf of a path without NUL has no NUL, so an entry stores it as it is. */
  lemma LeafNoNul(path: string)
    requires Split(path, "/") != [] && NoNul(path)
    ensures NoNul(Leaf(path)) && CStr(Leaf(path)) == Leaf(path)
  {
    var comps := Split(path, "/");
    SplitNoNul(path, "/");
    assert comps[|comps| - 1] in comps;
    CStrOfNoNul(Leaf(path));
  }

  /** In a node with no entry named `name`, an appended entry of that name is the first match. */
  lemma AddedFirstNamed(d: DirectoryImage, e: ArchiveEntry, name: string)
    requires WellShaped(d) && HasFreeSlot(d) && name !in Names(d) && EntryName(e) == name
    ensures FirstNamed(Added(d, e).value, name, 0) == Some(d.numEntries as nat)
  {
    var a := Added(d, e).value;
    NamesAdded(d, e);
    assert Names(a)[d.numEntries] == name;
  }

  /**
   * After an entry named like the leaf was appended to the head node of
   * the parent, which had room and no entry of that name, `_GetEntry`
   * finds that entry.
   */
  lemma LookupAppended(s: EngineState, s1: EngineState, path: string, q: Position, e: ArchiveEntry, link: uint32)
    requires Sane(s) && Sane(s1) && Split(path, "/") != []
    requires EntryAppended(s.store, s1.store, q, e, link) && HasFreeSlot(q.node)
    requires ParentOf(s, path) == Ok(q) && Leaf(path) !in Names(q.node)
    requires EntryName(e) == Leaf(path) && Leaf(path) !in Walked(ParentPath(path))
    requires e.offset !in s.store && e.offset in s1.store
    requires Grown(s.root, s1.root, e, link) && s1.cursor.offset == s.cursor.offset
    requires !IsAbsolute(ParentPath(path)) ==> Grown(s.cursor.node, s1.cursor.node, e, link)
    ensures Lookup(s1.store, s1.root, s1.cursor, path) == Ok(e)
  {
    AppendedGrown(s.store, s1.store, q, e, link);
    FuelGrows(s.store, s1.store, e.offset);
    ResolveGrown(s.store, s1.store, s.root, s1.root, s.cursor, s1.cursor, ParentPath(path), e, link);
    var d := Added(q.node, e).value;
    assert ReadNode(s1.store, q.offset) == Ok(d);
    AddedFirstNamed(q.node, e, Leaf(path));
  }

  /** An entry that `_GetEntry` finds, pointing at a payload of at least its size, reads back as that payload's prefix. */
  lemma ReadFound(s1: EngineState, path: string, e: ArchiveEntry, data: seq<byte>)
    requires Sane(s1) && Split(path, "/") != [] && Lookup(s1.store, s1.root, s1.cursor, path) == Ok(e)
    requires e.offset in s1.store && s1.store[e.offset] == Payload(data) && e.size as nat <= |data|
    ensures FileSize(s1, ArchiveFile.ReadWrite, path) == Ok(e.size)
    ensures WholeFile(s1, ArchiveFile.ReadWrite, path) == Ok(data[..e.size])
  {
    assert Content(s1.store, e) == Ok(data[..e.size]);
    assert data[..e.size] + ArchiveFile.Zeros(0) == data[..e.size];
  }

  /**
   * CreateFile followed by GetFileSize and ReadFile of the same path: the
   * recorded length and the data (the first `Truncated(|data|)` bytes, the
   * length the entry records). `_GetEntry` searches only the head node of
   * the parent, so the entry must land there: the head has room. The leaf
   * must not already name an entry of the head (the first match is found),
   * nor any directory on the way to the parent (the parent path must still
   * resolve to the same node); a relative parent path is resolved from the
   * cursor's copy, which must be the stored node.
   */
  lemma CreateFileReadBack(s: EngineState, unit: uint32, mode: ArchiveFile.OpenMode, path: string, data: seq<byte>)
    requires Orderly(s, unit) && Split(path, "/") != [] && NoNul(path) && Sectors(Truncated(|data|), unit) >= 1
    requires IsAbsolute(ParentPath(path)) || CursorSynced(s)
    requires Leaf(path) !in Walked(ParentPath(path))
    requires ParentOf(s, path).Ok? && HasFreeSlot(ParentOf(s, path).value.node)
    requires Leaf(path) !in Names(ParentOf(s, path).value.node)
    requires CreateFileSpec(s, unit, mode, path, data).1.Ok?
    ensures var s1 := CreateFileSpec(s, unit, mode, path, data).0;
      FileSize(s1, ArchiveFile.ReadWrite, path) == Ok(Truncated(|data|)) &&
      WholeFile(s1, ArchiveFile.ReadWrite, path) == Ok(data[..Truncated(|data|)])
  {
    var s1 := CreateFileSpec(s, unit, mode, path, data).0;
    var q, e, link := CreateFileShape(s, unit, mode, path, data);
    LeafNoNul(path);
    LookupAppended(s, s1, path, q, e, link);
    ReadFound(s1, path, e, data);
  }

  /**
   * After an entry was appended at the end `q` of the chain of the node
   * `dir` resolves to, `dir` still resolves there, and its listing is the
   * old one followed by the new name.
   */
  lemma ListAppendedAt(s: EngineState, s1: EngineState, dir: string, p: Position, q: Position, e: ArchiveEntry, link: uint32)
    requires Sane(s) && Sane(s1)
    requires Resolve(s.store, s.root, s.cursor, dir).Ok? && Resolve(s.store, s.root, s.cursor, dir).value.offset == p.offset
    requires ReadNode(s.store, p.offset) == Ok(p.node) && ChainEnd(s.store, p, Fuel(s.store)) == Ok(q)
    requires EntryAppended(s.store, s1.store, q, e, link) && e.offset !in s.store && e.offset in s1.store
    requires EntryName(e) !in Walked(dir)
    requires Grown(s.root, s1.root, e, link) && s1.cursor.offset == s.cursor.offset
    requires !IsAbsolute(dir) ==> Grown(s.cursor.node, s1.cursor.node, e, link)
    requires List(s.store, s.root, s.cursor, dir).Ok?
    ensures Resolve(s1.store, s1.root, s1.cursor, dir).Ok? && Resolve(s1.store, s1.root, s1.cursor, dir).value.offset == p.offset
    ensures List(s1.store, s1.root, s1.cursor, dir) == Ok(List(s.store, s.root, s.cursor, dir).value + [EntryName(e)])
  {
    AppendedGrown(s.store, s1.store, q, e, link);
    FuelGrows(s.store, s1.store, e.offset);
    ResolveGrown(s.store, s1.store, s.root, s1.root, s.cursor, s1.cursor, dir, e, link);
    ListAppended(s.store, s1.store, p, Fuel(s.store), Fuel(s.store), Fuel(s1.store), q, e, link);
  }

  /**
   * CreateFile followed by ListDirectory of the parent: the old listing
   * followed by the new name, wherever in the parent's chain the entry
   * landed (in the last node, or in a new overflow node). The parent path
   * still resolves to the same node, and good order is kept.
   */
  lemma CreateFileListed(s: EngineState, unit: uint32, mode: ArchiveFile.OpenMode, path: string, data: seq<byte>)
    requires Orderly(s, unit) && Split(path, "/") != [] && NoNul(path) && Sectors(Truncated(|data|), unit) >= 1
    requires IsAbsolute(ParentPath(path)) || CursorSynced(s)
    requires Leaf(path) !in Walked(ParentPath(path)) && RootHasRoom(s, path)
    requires Listing(s, ArchiveFile.ReadWrite, ParentPath(path)).Ok?
    requires CreateFileSpec(s, unit, mode, path, data).1.Ok?
    ensures var s1 := CreateFileSpec(s, unit, mode, path, data).0;
      Orderly(s1, unit) &&
      Resolve(s1.store, s1.root, s1.cursor, ParentPath(path)).Ok? &&
      Resolve(s1.store, s1.root, s1.cursor, ParentPath(path)).value.offset == Resolve(s.store, s.root, s.cursor, ParentPath(path)).value.offset &&
      Listing(s1, ArchiveFile.ReadWrite, ParentPath(path)) == Ok(Listing(s, ArchiveFile.ReadWrite, ParentPath(path)).value + [Leaf(path)])
  {
    var s1 := CreateFileSpec(s, unit, mode, path, data).0;
    var q, e, link := CreateFileShape(s, unit, mode, path, data);
    LeafNoNul(path);
    ListAppendedAt(s, s1, ParentPath(path), ParentOf(s, path).value, q, e, link);
  }

  /** CreateDirectory followed by ListDirectory of the parent: the old listing followed by the new name. */
  lemma CreateDirectoryListed(s: EngineState, unit: uint32, mode: ArchiveFile.OpenMode, path: string)
    requires Orderly(s, unit) && Split(path, "/") != [] && NoNul(path)
    requires IsAbsolute(ParentPath(path)) || CursorSynced(s)
    requires Leaf(path) !in Walked(ParentPath(path)) && RootHasRoom(s, path)
    requires Listing(s, ArchiveFile.ReadWrite, ParentPath(path)).Ok?
    requires CreateDirectorySpec(s, unit, mode, path).1.Ok?
    ensures var s1 := CreateDirectorySpec(s, unit, mode, path).0;
      Orderly(s1, unit) &&
      Resolve(s1.store, s1.root, s1.cursor, ParentPath(path)).Ok? &&
      Resolve(s1.store, s1.root, s1.cursor, ParentPath(path)).value.offset == Resolve(s.store, s.root, s.cursor, ParentPath(path)).value.offset &&
      Listing(s1, ArchiveFile.ReadWrite, ParentPath(path)) == Ok(Listing(s, ArchiveFile.ReadWrite, ParentPath(path)).value + [Leaf(path)])
  {
    var s1 := CreateDirectorySpec(s, unit, mode, path).0;
    var q, e, link := CreateDirectoryShape(s, unit, mode, path);
    LeafNoNul(path);
    ListAppendedAt(s, s1, ParentPath(path), ParentOf(s, path).value, q, e, link);
  }

  // ---------------------------------------------------------------------
  // Several creations in one directory

  /** One creation a client asks for: a file with its data, or a directory. */
  datatype Request = MakeFile(path: string, data: seq<byte>) | MakeDirectory(path: string)

  /** The request names an entry, and a file's data takes at least one unit. */
  predicate Acceptable(req: Request, unit: uint32)
    requires unit > 0
  {
    Split(req.path, "/") != [] && (req.MakeFile? ==> Sectors(Truncated(|req.data|), unit) >= 1)
  }

  /** CreateFile or CreateDirectory, as the request says. */
  function Apply(s: EngineState, unit: uint32, mode: ArchiveFile.OpenMode, req: Request): (r: (EngineState, Result<()>))
    requires Sane(s) && unit > 0 && Acceptable(req, unit)
    ensures Sane(r.0) && r.0.cursor.offset == s.cursor.offset && Grows(s.table, r.0.table)
    ensures mode == ArchiveFile.ReadOnly ==> r == (s, Err(NotWritable))
  {
    match req
    case MakeFile(path, data) => CreateFileSpec(s, unit, mode, path, data)
    case MakeDirectory(path) => CreateDirectorySpec(s, unit, mode, path)
  }

  /**
   * `states` is a run of the requests: each request, applied to the state
   * before it, succeeds and leaves the state after it.
   */
  ghost predicate Succeeds(states: seq<EngineState>, unit: uint32, mode: ArchiveFile.OpenMode, reqs: seq<Request>)
  {
    |states| == |reqs| + 1 && unit > 0 &&
    (forall i :: 0 <= i < |states| ==> Sane(states[i])) &&
    (forall i :: 0 <= i < |reqs| ==> Acceptable(reqs[i], unit)) &&
    forall i {:trigger Apply(states[i], unit, mode, reqs[i])} :: 0 <= i < |reqs| ==>
      Apply(states[i], unit, mode, reqs[i]) == (states[i + 1], Ok(()))
  }

  /** The names the requests create, in order. */
  function Leaves(reqs: seq<Request>): (r: seq<string>)
    requires forall i :: 0 <= i < |reqs| ==> Split(reqs[i].path, "/") != []
    ensures |r| == |reqs| && forall i :: 0 <= i < |reqs| ==> r[i] == Leaf(reqs[i].path)
  {
    seq(|reqs|, i requires 0 <= i < |reqs| => Leaf(reqs[i].path))
  }

  /** The request creates an entry directly in the directory `dir`, under a name none of `dir`'s components has. */
  predicate InDirectory(req: Request, unit: uint32, dir: string)
    requires unit > 0
  {
    Acceptable(req, unit) && NoNul(req.path) && ParentPath(req.path) == dir && Leaf(req.path) !in Walked(dir)
  }

  /** One request in the directory `dir`, leading from `s` to `s1`: the listing gains the new name, and good order and the directory's offset are kept. */
  lemma ApplyListed(s: EngineState, s1: EngineState, unit: uint32, mode: ArchiveFile.OpenMode, dir: string, req: Request)
    requires Orderly(s, unit) && IsAbsolute(dir) && InDirectory(req, unit, dir)
    requires Resolve(s.store, s.root, s.cursor, dir).Ok? && Resolve(s.store, s.root, s.cursor, dir).value.offset != RootOffset as uint32
    requires Listing(s, ArchiveFile.ReadWrite, dir).Ok?
    requires Apply(s, unit, mode, req) == (s1, Ok(()))
    ensures Orderly(s1, unit)
    ensures Resolve(s1.store, s1.root, s1.cursor, dir).Ok? &&
      Resolve(s1.store, s1.root, s1.cursor, dir).value.offset == Resolve(s.store, s.root, s.cursor, dir).value.offset
    ensures Listing(s1, ArchiveFile.ReadWrite, dir) == Ok(Listing(s, ArchiveFile.ReadWrite, dir).value + [Leaf(req.path)])
  {
    if req.MakeFile? {
      CreateFileListed(s, unit, mode, req.path, req.data);
    } else {
      CreateDirectoryListed(s, unit, mode, req.path);
    }
  }

  /** The rest of a run is a run. */
  lemma SucceedsTail(states: seq<EngineState>, unit: uint32, mode: ArchiveFile.OpenMode, reqs: seq<Request>)
    requires Succeeds(states, unit, mode, reqs) && reqs != []
    ensures Succeeds(states[1..], unit, mode, reqs[1..])
  {
    var t, r := states[1..], reqs[1..];
    forall i | 0 <= i < |r|
      ensures Apply(t[i], unit, mode, r[i]) == (t[i + 1], Ok(()))
    {
      assert t[i] == states[i + 1] && r[i] == reqs[i + 1] && t[i + 1] == states[i + 2];
      assert Apply(states[i + 1], unit, mode, reqs[i + 1]) == (states[i + 2], Ok(()));
    }
  }

  /**
   * Creations of files and directories in one directory `dir`, all
   * successful: the listing of `dir` is the old one followed by the new
   * names in the order they were created. `dir` is absolute (the cursor's
   * copy goes stale as nodes are written) and not the root (a root whose
   * head fills up loses its overflow link).
   */
  lemma {:induction false} ApplyAllListed(states: seq<EngineState>, unit: uint32, mode: ArchiveFile.OpenMode, dir: string, reqs: seq<Request>)
    requires Succeeds(states, unit, mode, reqs) && Orderly(states[0], unit) && IsAbsolute(dir)
    requires forall i :: 0 <= i < |reqs| ==> InDirectory(reqs[i], unit, dir)
    requires var s := states[0];
      Resolve(s.store, s.root, s.cursor, dir).Ok? && Resolve(s.store, s.root, s.cursor, dir).value.offset != RootOffset as uint32
    requires Listing(states[0], ArchiveFile.ReadWrite, dir).Ok?
    ensures Listing(states[|reqs|], ArchiveFile.ReadWrite, dir) == Ok(Listing(states[0], ArchiveFile.ReadWrite, dir).value + Leaves(reqs))
    decreases |reqs|
  {
    var listed := Listing(states[0], ArchiveFile.ReadWrite, dir).value;
    if reqs != [] {
      var x := Leaf(reqs[0].path);
      FirstStep(states, unit, mode, dir, reqs);
      ApplyAllListed(states[1..], unit, mode, dir, reqs[1..]);
      var next := Listing(states[1], ArchiveFile.ReadWrite, dir).value;
      var last := Listing(states[|reqs|], ArchiveFile.ReadWrite, dir).value;
      assert last == next + Leaves(reqs[1..]);
      Compose(listed, next, last, x, Leaves(reqs[1..]));
    } else {
      assert listed + Leaves(reqs) == listed;
    }
  }

  /** The first creation of a run, and what it leaves for the rest of the run. */
  lemma FirstStep(states: seq<EngineState>, unit: uint32, mode: ArchiveFile.OpenMode, dir: string, reqs: seq<Request>)
    requires Succeeds(states, unit, mode, reqs) && Orderly(states[0], unit) && IsAbsolute(dir) && reqs != []
    requires forall i :: 0 <= i < |reqs| ==> InDirectory(reqs[i], unit, dir)
    requires var s := states[0];
      Resolve(s.store, s.root, s.cursor, dir).Ok? && Resolve(s.store, s.root, s.cursor, dir).value.offset != RootOffset as uint32
    requires Listing(states[0], ArchiveFile.ReadWrite, dir).Ok?
    ensures Succeeds(states[1..], unit, mode, reqs[1..]) && Orderly(states[1], unit)
    ensures forall i :: 0 <= i < |reqs[1..]| ==> InDirectory(reqs[1..][i], unit, dir)
    ensures var s := states[1..][0];
      Resolve(s.store, s.root, s.cursor, dir).Ok? && Resolve(s.store, s.root, s.cursor, dir).value.offset != RootOffset as uint32
    ensures Listing(states[1], ArchiveFile.ReadWrite, dir).Ok?
    ensures Listing(states[1], ArchiveFile.ReadWrite, dir).value == Listing(states[0], ArchiveFile.ReadWrite, dir).value + [Leaf(reqs[0].path)]
    ensures states[1..][0] == states[1] && states[1..][|reqs[1..]|] == states[|reqs|]
    ensures Leaves(reqs) == [Leaf(reqs[0].path)] + Leaves(reqs[1..])
  {
    assert Apply(states[0], unit, mode, reqs[0]) == (states[1], Ok(()));
    assert InDirectory(reqs[0], unit, dir);
    ApplyListed(states[0], states[1], unit, mode, dir, reqs[0]);
    SucceedsTail(states, unit, mode, reqs);
    RestInDirectory(unit, dir, reqs);
    LeavesFirst(reqs);
  }

  /** Bookkeeping for `ApplyAllListed`: the remaining requests are still in `dir`. */
  lemma RestInDirectory(unit: uint32, dir: string, reqs: seq<Request>)
    requires unit > 0 && reqs != []
    requires forall i :: 0 <= i < |reqs| ==> InDirectory(reqs[i], unit, dir)
    ensures forall i :: 0 <= i < |reqs[1..]| ==> InDirectory(reqs[1..][i], unit, dir)
  {
    assert forall i :: 0 <= i < |reqs[1..]| ==> reqs[1..][i] == reqs[i + 1];
  }

  /** Bookkeeping for `ApplyAllListed`: the leaves of a run are its first leaf, then the rest. */
  lemma LeavesFirst(reqs: seq<Request>)
    requires reqs != [] && forall i :: 0 <= i < |reqs| ==> Split(reqs[i].path, "/") != []
    ensures Leaves(reqs) == [Leaf(reqs[0].path)] + Leaves(reqs[1..])
  {
  }

  /** Bookkeeping for `ApplyAllListed`: appending the first leaf and then the rest is appending both. */
  lemma Compose(listed: seq<string>, next: seq<string>, last: seq<string>, x: string, rest: seq<string>)
    requires next == listed + [x] && last == next + rest
    ensures last == listed + ([x] + rest)
  {
  }

  // ---------------------------------------------------------------------
  // From a fresh archive

  /** A fresh archive is in good order once its first creation has written the root. */
  lemma AfterFirstOrderly(unit: uint32, e: ArchiveEntry, size: uint32, block: Block)
    requires 0 < unit <= 0x2_0000 && size >= 1
    requires block.Node? ==> WellShaped(block.dir) && block.dir.next == 0
    ensures Orderly(EngineProperties.AfterFirst(unit, e, size, block), unit)
  {
    var s1 := EngineProperties.AfterFirst(unit, e, size, block);
    EngineProperties.SectorsAtMostSize(size, unit);
    assert s1.table[0];
    AllocOffsetExact(unit, 0);
    assert Marked(s1, unit, HeaderSize as uint32);
  }

  /**
   * Create an archive, create the directory `/name` in it, and then run
   * creations in `/name`: the listing of `/name` is exactly the created
   * names, in order.
   */
  lemma FreshDirectoryFilled(unit: uint32, name: string, states: seq<EngineState>, mode: ArchiveFile.OpenMode, reqs: seq<Request>)
    requires 0 < unit <= 0x2_0000 && EngineProperties.PlainName(name) && name != "." && name != ".."
    requires Split("/" + name, "/") != []
    requires states != [] && states[0] == CreateDirectorySpec(EngineProperties.Fresh(unit), unit, ArchiveFile.ReadWrite, "/" + name).0
    requires Succeeds(states, unit, mode, reqs)
    requires forall i :: 0 <= i < |reqs| ==> InDirectory(reqs[i], unit, "/" + name)
    ensures Listing(states[|reqs|], ArchiveFile.ReadWrite, "/" + name) == Ok(Leaves(reqs))
  {
    EngineProperties.FreshDirectoryListed(unit, name);
    EngineProperties.FreshCreateDirectory(unit, name);
    var e := DirectoryEntry(name, HeaderSize as uint32).value;
    var child := NewDirectory(RootOffset as uint32);
    AfterFirstOrderly(unit, e, DirectorySize as uint32, Node(child));
    var s0 := states[0];
    assert ReadNode(s0.store, HeaderSize as uint32) == Ok(child);
    assert Listing(s0, ArchiveFile.ReadWrite, "/" + name) == Ok([]);
    assert IsAbsolute("/" + name);
    ApplyAllListed(states, unit, mode, "/" + name, reqs);
    assert [] + Leaves(reqs) == Leaves(reqs);
  }
}
