/**
 * The archive engine (`Archive` in xArchive.cpp): a directory tree kept
 * inside one archive file, with a header holding the allocation table and
 * a copy of the root node, an allocator handing out runs of allocation
 * units after the header, and a cursor (the current directory) made of an
 * offset, a copy of its node and a textual path.
 *
 * The archive file is the map `store` from offset to what was written
 * there (see module DirectoryTree). A table flush requested by the allocator
 * writes the whole header, so it stores the header's copy of the root
 * at the root offset, whether or not that copy is up to date.
 */
module ArchiveEngine {
  import opened Helpers
  import opened Layout
  import opened DirectoryTree
  import opened Allocator
  import ArchiveFile

  // ---------------------------------------------------------------------
  // The state as a value

  /** The header as read from the start of the archive file. */
  datatype HeaderImage = HeaderImage(magic: bv32, allocationSize: uint32, table: seq<bool>, root: DirectoryImage)

  /** What the engine's operations change: the file, the header's root and table, the cursor. */
  datatype EngineState = EngineState(store: Store, root: DirectoryImage, table: seq<bool>, cursor: Position)

  predicate Sane(s: EngineState)
  {
    WellShaped(s.root) && WellShaped(s.cursor.node) && |s.table| == TableUnits
  }

  /** The table with units `i..i+n-1` marked in use. */
  function MarkRun(t: seq<bool>, i: nat, n: nat): (r: seq<bool>)
    ensures SetsRange(t, r, i, i + n)
  {
    seq(|t|, g requires 0 <= g < |t| => (i <= g < i + n) || t[g])
  }

  /** `SetsRange` determines the new table. */
  lemma SetsRangeIsMarkRun(t0: seq<bool>, t1: seq<bool>, i: nat, n: nat)
    requires SetsRange(t0, t1, i, i + n)
    ensures t1 == MarkRun(t0, i, n)
  {
    var m := MarkRun(t0, i, n);
    assert forall g :: 0 <= g < |t1| ==> t1[g] == m[g];
  }

  /** Every unit in use in `t0` is in use in `t1`. */
  predicate Grows(t0: seq<bool>, t1: seq<bool>)
  {
    |t1| == |t0| && forall g :: 0 <= g < |t0| && t0[g] ==> t1[g]
  }

  /** `_AllocationTableUpdated`: the whole header is written, the root copy included. */
  function Flushed(s: EngineState): (r: EngineState)
    ensures r.store == s.store[RootOffset as uint32 := Node(s.root)]
    ensures r.root == s.root && r.table == s.table && r.cursor == s.cursor
  {
    s.(store := s.store[RootOffset as uint32 := Node(s.root)])
  }

  /**
   * `Allocate` seen from the engine: the first free run of `Sectors(size)`
   * units is marked and its offset after the header returned, and the
   * flush callback rewrites the header; or "out of memory" with nothing
   * changed.
   */
  function AllocStep(s: EngineState, unit: uint32, size: uint32): (r: (EngineState, Result<uint32>))
    requires unit > 0 && Sectors(size, unit) >= 1
    ensures r.1.Err? ==> r.1.error == OutOfMemory && r.0 == s
    ensures Grows(s.table, r.0.table)
    ensures r.1.Ok? <==> FirstFit(s.table, Sectors(size, unit)).Some?
    ensures r.1.Ok? ==> (var i := FirstFit(s.table, Sectors(size, unit)).value;
                         r.1.value == AllocOffset(HeaderSize as uint32, unit, i) &&
                         SetsRange(s.table, r.0.table, i, i + Sectors(size, unit)) &&
                         r.0.store == s.store[RootOffset as uint32 := Node(s.root)] &&
                         r.0.root == s.root && r.0.cursor == s.cursor)
  {
    var n := Sectors(size, unit);
    match FirstFit(s.table, n)
    case None => (s, Err(OutOfMemory))
    case Some(i) => (Flushed(s.(table := MarkRun(s.table, i, n))), Ok(AllocOffset(HeaderSize as uint32, unit, i)))
  }

  /** With units of at most 128 KiB no allocation wraps around to reach back into the header. */
  lemma AllocOffsetAfterHeader(unit: uint32, i: nat)
    requires 0 < unit <= 0x2_0000 && i < TableUnits
    ensures AllocOffset(HeaderSize as uint32, unit, i) >= HeaderSize
  {
    assert i * unit <= (TableUnits - 1) * 0x2_0000 by {
      assert i <= TableUnits - 1;
      MulMonotone(i, TableUnits - 1, unit, 0x2_0000);
    }
  }

  /** The node `p` after the mirror rule: the header's root and the cursor follow a rewritten node. */
  function Mirrored(s: EngineState, offset: uint32, d: DirectoryImage): (r: EngineState)
    ensures r.store == s.store && r.table == s.table
    ensures r.root == if offset == RootOffset as uint32 then d else s.root
    ensures r.cursor == if offset == s.cursor.offset then Position(offset, d) else s.cursor
  {
    s.(root := if offset == RootOffset as uint32 then d else s.root,
       cursor := if offset == s.cursor.offset then Position(offset, d) else s.cursor)
  }

  /** The parent directory of a path to create or look up, with its head node read afresh. */
  function ParentOf(s: EngineState, path: string): (r: Result<Position>)
    requires Sane(s) && Split(path, "/") != []
    ensures r.Ok? ==> WellShaped(r.value.node) && ReadNode(s.store, r.value.offset) == Ok(r.value.node)
  {
    match Resolve(s.store, s.root, s.cursor, ParentPath(path))
    case Err(err) => Err(err)
    case Ok(p) =>
      match ReadNode(s.store, p.offset)
      case Err(err) => Err(err)
      case Ok(d) => Ok(Position(p.offset, d))
  }

  /**
   * The end of the chain walk that has no room: one overflow node is
   * allocated, the last node's `Next` is set to it and that node written
   * back, and an empty node with the same parent becomes the receiver.
   */
  function GrowChain(s: EngineState, unit: uint32, q: Position): (r: (EngineState, Result<Position>))
    requires Sane(s) && unit > 0 && WellShaped(q.node)
    ensures r.1.Ok? ==> WellShaped(r.1.value.node) && HasFreeSlot(r.1.value.node)
    ensures Sane(r.0) && r.0.cursor == s.cursor && r.0.root == s.root && Grows(s.table, r.0.table)
    ensures HasFreeSlot(q.node) ==> r == (s, Ok(q))
    ensures !HasFreeSlot(q.node) && r.1.Ok? ==> (
      var n := Sectors(DirectorySize as uint32, unit) as nat;
      FirstFit(s.table, n).Some? &&
      r.1.value.offset == AllocOffset(HeaderSize as uint32, unit, FirstFit(s.table, n).value) &&
      r.1.value.node == NewDirectory(q.node.parent) &&
      r.0.table == MarkRun(s.table, FirstFit(s.table, n).value, n) &&
      r.0.store == s.store[RootOffset as uint32 := Node(s.root)][q.offset := Node(q.node.(next := r.1.value.offset))])
  {
    if HasFreeSlot(q.node) then (s, Ok(q))
    else
      SectorsIsCeiling(DirectorySize as uint32, unit);
      var (s1, a) := AllocStep(s, unit, DirectorySize as uint32);
      match a
      case Err(err) => (s1, Err(err))
      case Ok(o) =>
        (s1.(store := s1.store[q.offset := Node(q.node.(next := o))]), Ok(Position(o, NewDirectory(q.node.parent))))
  }

  /**
   * Everything CreateDirectory and CreateFile do before allocating the new
   * entry: the write check, the parent, the chain walk and the overflow
   * node. The result is the node that receives the entry.
   */
  function Prepare(s: EngineState, unit: uint32, mode: ArchiveFile.OpenMode, path: string): (r: (EngineState, Result<Position>))
    requires Sane(s) && unit > 0 && Split(path, "/") != []
    ensures r.1.Ok? ==> WellShaped(r.1.value.node) && HasFreeSlot(r.1.value.node)
    ensures Sane(r.0) && r.0.cursor == s.cursor && r.0.root == s.root && Grows(s.table, r.0.table)
    ensures mode == ArchiveFile.ReadOnly ==> r == (s, Err(NotWritable))
  {
    if mode == ArchiveFile.ReadOnly then (s, Err(NotWritable))
    else match ParentOf(s, path)
      case Err(err) => (s, Err(err))
      case Ok(p) =>
        EndAndGrow(s, unit, p)
  }

  /** The walk to the end of the chain from `p`, then the overflow node when that end is full. */
  function EndAndGrow(s: EngineState, unit: uint32, p: Position): (r: (EngineState, Result<Position>))
    requires Sane(s) && unit > 0 && WellShaped(p.node)
    ensures r.1.Ok? ==> WellShaped(r.1.value.node) && HasFreeSlot(r.1.value.node)
    ensures Sane(r.0) && r.0.cursor == s.cursor && r.0.root == s.root && Grows(s.table, r.0.table)
    ensures HasFreeSlot(p.node) ==> r == (s, Ok(p))
  {
    match ChainEnd(s.store, p, Fuel(s.store))
    case Err(err) => (s, Err(err))
    case Ok(q) => GrowChain(s, unit, q)
  }

  /** The receiving node with its new entry written back and mirrored, and the new block stored. */
  function Insert(s: EngineState, p: Position, e: ArchiveEntry, o: uint32, block: Block): (r: EngineState)
    requires WellShaped(p.node) && HasFreeSlot(p.node)
    ensures Sane(s) ==> Sane(r)
    ensures r.table == s.table && r.cursor.offset == s.cursor.offset
    ensures o in r.store && r.store[o] == block
    ensures o != p.offset ==> p.offset in r.store && r.store[p.offset] == Node(Added(p.node, e).value)
    ensures forall k :: k in s.store && k != o && k != p.offset ==> k in r.store && r.store[k] == s.store[k]
  {
    var d := Added(p.node, e).value;
    Mirrored(s.(store := s.store[p.offset := Node(d)][o := block]), p.offset, d)
  }

  /** CreateDirectory on the state: the new state and the outcome. */
  function CreateDirectorySpec(s: EngineState, unit: uint32, mode: ArchiveFile.OpenMode, path: string): (r: (EngineState, Result<()>))
    requires Sane(s) && unit > 0 && Split(path, "/") != []
    ensures Sane(r.0) && r.0.cursor.offset == s.cursor.offset && Grows(s.table, r.0.table)
    ensures mode == ArchiveFile.ReadOnly ==> r == (s, Err(NotWritable))
  {
    var (s1, g) := Prepare(s, unit, mode, path);
    match g
    case Err(err) => (s1, Err(err))
    case Ok(p) =>
      SectorsIsCeiling(DirectorySize as uint32, unit);
      var (s2, a) := AllocStep(s1, unit, DirectorySize as uint32);
      match a
      case Err(err) => (s2, Err(err))
      case Ok(o) =>
        match DirectoryEntry(Leaf(path), o)
        case Err(err) => (s2, Err(err))
        case Ok(e) => (Insert(s2, p, e, o, Node(NewDirectory(p.offset))), Ok(()))
  }

  /** The `size_t` length of a payload as the `uint32_t` the entry records. */
  function Truncated(n: nat): (r: uint32)
    ensures r as nat <= n && (n < TwoTo32 ==> r as nat == n)
  {
    n % TwoTo32
  }

  /** CreateFile on the state: the new state and the outcome. */
  function CreateFileSpec(s: EngineState, unit: uint32, mode: ArchiveFile.OpenMode, path: string, data: seq<byte>): (r: (EngineState, Result<()>))
    requires Sane(s) && unit > 0 && Split(path, "/") != [] && Sectors(Truncated(|data|), unit) >= 1
    ensures Sane(r.0) && r.0.cursor.offset == s.cursor.offset && Grows(s.table, r.0.table)
    ensures mode == ArchiveFile.ReadOnly ==> r == (s, Err(NotWritable))
  {
    var (s1, g) := Prepare(s, unit, mode, path);
    match g
    case Err(err) => (s1, Err(err))
    case Ok(p) =>
      var (s2, a) := AllocStep(s1, unit, Truncated(|data|));
      match a
      case Err(err) => (s2, Err(err))
      case Ok(o) =>
        match FileEntry(Leaf(path), o, Truncated(|data|))
        case Err(err) => (s2, Err(err))
        case Ok(e) => (Insert(s2, p, e, o, Payload(data)), Ok(()))
  }

  // ---------------------------------------------------------------------
  // Opening, the mode checks and the read side on the state

  /** ArchiveOpenFlags: bit 0 (eReadonly) asks for a read-only open, otherwise read-write. */
  function OpenModeOf(flags: uint32): (m: ArchiveFile.OpenMode)
    ensures m == ArchiveFile.ReadOnly <==> flags % 2 == 1
    ensures m != ArchiveFile.WriteOnly
  {
    if flags % 2 == 1 then ArchiveFile.ReadOnly else ArchiveFile.ReadWrite
  }

  /** `_CheckRead`: only a write-only archive refuses reading. */
  function CheckRead(mode: ArchiveFile.OpenMode): (r: Result<()>)
    ensures r.Err? <==> mode == ArchiveFile.WriteOnly
    ensures r.Err? ==> r.error == NotReadable
  {
    if mode == ArchiveFile.WriteOnly then Err(NotReadable) else Ok(())
  }

  /** `_CheckWrite`: only a read-only archive refuses writing. */
  function CheckWrite(mode: ArchiveFile.OpenMode): (r: Result<()>)
    ensures r.Err? <==> mode == ArchiveFile.ReadOnly
    ensures r.Err? ==> r.error == NotWritable
  {
    if mode == ArchiveFile.ReadOnly then Err(NotWritable) else Ok(())
  }

  /**
   * The constructor's checks on the header it read: the archive tag, then
   * the root's directory tag (and, in the model, a root with at most 16
   * entries in use).
   */
  function HeaderCheck(h: HeaderImage): (r: Result<()>)
    ensures r.Ok? <==> h.magic == ArchiveMagic && h.root.magic == DirectoryMagic && WellShaped(h.root)
    ensures h.magic != ArchiveMagic ==> r == Err(NotAnArchive)
    ensures h.magic == ArchiveMagic && r.Err? ==> r == Err(Corrupted)
  {
    if h.magic != ArchiveMagic then Err(NotAnArchive)
    else if h.root.magic != DirectoryMagic || !WellShaped(h.root) then Err(Corrupted)
    else Ok(())
  }

  /** The state right after opening: the cursor is the header's root at the root offset. */
  function Opened(h: HeaderImage, rest: Store): (s: EngineState)
    requires |h.table| == TableUnits && WellShaped(h.root)
    ensures Sane(s) && s.cursor == Position(RootOffset as uint32, h.root)
    ensures ReadNode(s.store, RootOffset as uint32).Ok? <==> h.root.magic == DirectoryMagic
  {
    EngineState(rest[RootOffset as uint32 := Node(h.root)], h.root, h.table, Position(RootOffset as uint32, h.root))
  }

  /** The header `Create` writes: an empty table and an empty root without parent. */
  function InitialHeader(unit: uint32): (h: HeaderImage)
    ensures HeaderCheck(h).Ok? && |h.table| == TableUnits && h.allocationSize == unit
    ensures forall g :: 0 <= g < TableUnits ==> !h.table[g]
  {
    HeaderImage(ArchiveMagic, unit, seq(TableUnits, _ => false), NewDirectory(0))
  }

  /** `_GetEntry` after `_CheckRead`. */
  function EntryOf(s: EngineState, mode: ArchiveFile.OpenMode, path: string): (r: Result<ArchiveEntry>)
    requires Sane(s) && Split(path, "/") != []
    ensures mode == ArchiveFile.WriteOnly ==> r == Err(NotReadable)
    ensures r.Ok? ==> EntryName(r.value) == Leaf(path)
  {
    match CheckRead(mode)
    case Err(err) => Err(err)
    case Ok(_) => Lookup(s.store, s.root, s.cursor, path)
  }

  /** `GetFileSize`: the size recorded in the entry. */
  function FileSize(s: EngineState, mode: ArchiveFile.OpenMode, path: string): (r: Result<uint32>)
    requires Sane(s) && Split(path, "/") != []
    ensures r.Ok? <==> EntryOf(s, mode, path).Ok?
    ensures r.Ok? ==> r.value == EntryOf(s, mode, path).value.size
  {
    match EntryOf(s, mode, path)
    case Err(err) => Err(err)
    case Ok(e) => Ok(e.size)
  }

  /**
   * The `Size` bytes at the entry's offset. The file is a map of blocks:
   * the bytes are there when a payload at least that long was stored at
   * that offset (what a directory entry points to is a node, not bytes).
   */
  function Content(store: Store, e: ArchiveEntry): (r: Result<seq<byte>>)
    ensures r.Ok? ==> |r.value| == e.size as nat
    ensures r.Err? ==> r.error == NoPayload
  {
    if e.offset in store && store[e.offset].Payload? && |store[e.offset].bytes| >= e.size as nat
    then Ok(store[e.offset].bytes[..e.size])
    else Err(NoPayload)
  }

  /**
   * `ReadFile` into a buffer of `bufferSize` bytes: the entry's bytes,
   * then zeros up to the end of the buffer; "insufficient buffer" when the
   * buffer is shorter than the entry's size.
   */
  function ReadInto(s: EngineState, mode: ArchiveFile.OpenMode, path: string, bufferSize: nat): (r: Result<seq<byte>>)
    requires Sane(s) && Split(path, "/") != []
    ensures r.Ok? ==> |r.value| == bufferSize
    ensures r.Ok? ==> (EntryOf(s, mode, path).Ok? &&
      var e := EntryOf(s, mode, path).value;
      e.size as nat <= bufferSize && Content(s.store, e).Ok? &&
      r.value[..e.size] == Content(s.store, e).value &&
      forall k :: e.size as nat <= k < bufferSize ==> r.value[k] == 0)
    ensures EntryOf(s, mode, path).Ok? && bufferSize < EntryOf(s, mode, path).value.size as nat ==>
      r == Err(InsufficientBuffer)
  {
    match EntryOf(s, mode, path)
    case Err(err) => Err(err)
    case Ok(e) =>
      if bufferSize < e.size as nat then Err(InsufficientBuffer)
      else match Content(s.store, e)
        case Err(err) => Err(err)
        case Ok(b) => Ok(b + ArchiveFile.Zeros(bufferSize - e.size as nat))
  }

  /** The `ReadFile` overload returning a vector: a buffer of exactly the file's size. */
  function WholeFile(s: EngineState, mode: ArchiveFile.OpenMode, path: string): (r: Result<seq<byte>>)
    requires Sane(s) && Split(path, "/") != []
    ensures r.Ok? ==> FileSize(s, mode, path).Ok? && |r.value| == FileSize(s, mode, path).value as nat
    ensures r.Ok? ==> (EntryOf(s, mode, path).Ok? && Content(s.store, EntryOf(s, mode, path).value).Ok? &&
                       r.value == Content(s.store, EntryOf(s, mode, path).value).value)
  {
    match FileSize(s, mode, path)
    case Err(err) => Err(err)
    case Ok(n) => ReadInto(s, mode, path, n as nat)
  }

  /** `ListDirectory` after `_CheckRead`. */
  function Listing(s: EngineState, mode: ArchiveFile.OpenMode, path: string): (r: Result<seq<string>>)
    requires Sane(s)
    ensures mode == ArchiveFile.WriteOnly ==> r == Err(NotReadable)
    ensures r.Ok? ==>
      var p := Resolve(s.store, s.root, s.cursor, path);
      p.Ok? && ReadNode(s.store, p.value.offset).Ok? && Names(ReadNode(s.store, p.value.offset).value) <= r.value
  {
    match CheckRead(mode)
    case Err(err) => Err(err)
    case Ok(_) => List(s.store, s.root, s.cursor, path)
  }

  /** `pre` in front of a successful listing. */
  function Prefixed(pre: seq<string>, r: Result<seq<string>>): Result<seq<string>>
  {
    match r
    case Err(err) => Err(err)
    case Ok(v) => Ok(pre + v)
  }

  /** The parent path of a path without NUL has no NUL. */
  lemma ParentPathNoNul(path: string)
    requires NoNul(path) && Split(path, "/") != []
    ensures NoNul(ParentPath(path))
  {
    var comps := Split(path, "/");
    SplitNoNul(path, "/");
    assert forall c :: c in comps[..|comps| - 1] ==> c in comps;
    JoinNoNul(comps[..|comps| - 1], "/");
  }

  /** A normalized path built from a path without NUL has no NUL. */
  lemma NormalizeNoNul(path: string)
    requires |path| >= 1 && NoNul(path)
    ensures Normalize(path).Ok? ==> NoNul(Normalize(path).value)
  {
    SplitNoNul(path[1..], "/");
    var r := NormalizedComponents(path);
    if r.Ok? && r.value != [] {
      JoinNoNul(r.value, "/");
    }
  }

  /**
   * `SetCurrentDirectory` on the state and the textual cursor. The offset
   * is taken before the node is read, so a node that cannot be read leaves
   * the new offset with the old node. A relative path is appended to the
   * textual cursor with a `/`, and the result normalized.
   */
  function SetCursor(s: EngineState, cursorPath: string, mode: ArchiveFile.OpenMode, path: string): (r: (EngineState, string, Result<()>))
    requires Sane(s) && |cursorPath| >= 1
    ensures Sane(r.0) && r.0.store == s.store && r.0.root == s.root && r.0.table == s.table
    ensures r.2.Ok? ==> (Resolve(s.store, s.root, s.cursor, path).Ok? &&
      r.0.cursor.offset == Resolve(s.store, s.root, s.cursor, path).value.offset &&
      ReadNode(s.store, r.0.cursor.offset) == Ok(r.0.cursor.node) &&
      Normalize(Entered(cursorPath, path)) == Ok(r.1))
    ensures Resolve(s.store, s.root, s.cursor, path).Err? ==> r.0 == s && r.1 == cursorPath
  {
    match CheckRead(mode)
    case Err(err) => (s, cursorPath, Err(err))
    case Ok(_) =>
      match Resolve(s.store, s.root, s.cursor, path)
      case Err(err) => (s, cursorPath, Err(err))
      case Ok(p) =>
        match ReadNode(s.store, p.offset)
        case Err(err) => (s.(cursor := Position(p.offset, s.cursor.node)), cursorPath, Err(err))
        case Ok(d) =>
          var entered := Entered(cursorPath, path);
          match Normalize(entered)
          case Err(err) => (s.(cursor := Position(p.offset, d)), entered, Err(err))
          case Ok(q) => (s.(cursor := Position(p.offset, d)), q, Ok(()))
  }

  /** What `_ReallocationHandler` writes at the new offset: the first `size` bytes of the old block. */
  function Copied(b: Block, size: uint32): (r: Block)
    requires b.Payload? ==> |b.bytes| >= size as nat
    ensures r.Payload? <==> b.Payload?
    ensures b.Payload? ==> |r.bytes| == size as nat && r.bytes <= b.bytes
    ensures b.Node? ==> r == b
  {
    if b.Payload? then Payload(b.bytes[..size]) else b
  }

  // ---------------------------------------------------------------------
  // The engine

  class Archive {
    /** m_Mode. */
    const mode: ArchiveFile.OpenMode
    /** m_pAllocator, working on the header's allocation table. */
    const allocator: ArchiveAllocator
    /** The archive file: what is stored at each offset. */
    var store: Store
    /** m_pHeader->Root: the header's copy of the root node. */
    var root: DirectoryImage
    /** m_CurrentDirectoryOffset. */
    var cursorOffset: uint32
    /** m_pCurrentDirectory: the engine's copy of the current directory's node. */
    var cursorNode: DirectoryImage
    /** m_CurrentDirectoryPath. */
    var cursorPath: string

    ghost predicate Valid()
      reads this, allocator
    {
      allocator.Valid() && allocator.base == HeaderSize as uint32 &&
      WellShaped(root) && WellShaped(cursorNode) && |cursorPath| >= 1 && NoNul(cursorPath)
    }

    /** The state the operations are specified on. */
    ghost function State(): (s: EngineState)
      reads this, allocator, allocator.table
      requires Valid()
      ensures Sane(s)
    {
      EngineState(store, root, allocator.table[..], Position(cursorOffset, cursorNode))
    }

    /**
     * The constructor after its checks: the allocator works on a table
     * holding the header's flags, with unit 0 right after the header, and
     * the cursor is the header's root at `/`.
     */
    constructor FromHeader(mode: ArchiveFile.OpenMode, header: HeaderImage, rest: Store)
      requires header.allocationSize > 0 && |header.table| == TableUnits && WellShaped(header.root)
      ensures Valid() && fresh(allocator) && fresh(allocator.table)
      ensures this.mode == mode && allocator.unit == header.allocationSize && cursorPath == "/"
      ensures State() == Opened(header, rest)
    {
      var t := new bool[TableUnits](g requires 0 <= g < TableUnits => header.table[g]);
      var alloc := new ArchiveAllocator(t, header.allocationSize);
      alloc.SetAllocationBase(HeaderSize as uint32);
      this.mode := mode;
      allocator := alloc;
      store := rest[RootOffset as uint32 := Node(header.root)];
      root := header.root;
      cursorOffset := RootOffset as uint32;
      cursorNode := header.root;
      cursorPath := "/";
      new;
      assert allocator.table[..] == header.table;
    }

    /** The private constructor: reads the header and refuses a file that is not an archive. */
    static method Load(mode: ArchiveFile.OpenMode, header: HeaderImage, rest: Store) returns (r: Result<Archive>)
      requires header.allocationSize > 0 && |header.table| == TableUnits
      ensures HeaderCheck(header).Err? ==> r == Err(HeaderCheck(header).error)
      ensures HeaderCheck(header).Ok? ==>
        r.Ok? && fresh(r.value) && fresh(r.value.allocator) && fresh(r.value.allocator.table) &&
        r.value.Valid() && r.value.mode == mode && r.value.allocator.unit == header.allocationSize &&
        r.value.cursorPath == "/" && r.value.State() == Opened(header, rest)
    {
      var ok := HeaderCheck(header);
      if ok.Err? {
        return Err(ok.error);
      }
      var a := new Archive.FromHeader(mode, header, rest);
      return Ok(a);
    }

    /** `Open`: the mode follows the read-only flag. */
    static method Open(flags: uint32, header: HeaderImage, rest: Store) returns (r: Result<Archive>)
      requires header.allocationSize > 0 && |header.table| == TableUnits
      ensures HeaderCheck(header).Err? ==> r == Err(HeaderCheck(header).error)
      ensures HeaderCheck(header).Ok? ==>
        r.Ok? && fresh(r.value) && fresh(r.value.allocator) && fresh(r.value.allocator.table) &&
        r.value.Valid() && r.value.mode == OpenModeOf(flags) && r.value.allocator.unit == header.allocationSize &&
        r.value.cursorPath == "/" && r.value.State() == Opened(header, rest)
    {
      r := Load(OpenModeOf(flags), header, rest);
    }

    /**
     * `Create`: writes a fresh header (an empty table, an empty root) as the
     * whole file and opens it read-write. The unit defaults to 4096 bytes.
     */
    static method Create(unit: uint32 := DefaultAllocationSize) returns (a: Archive)
      requires unit > 0
      ensures fresh(a) && fresh(a.allocator) && fresh(a.allocator.table)
      ensures a.Valid() && a.mode == ArchiveFile.ReadWrite && a.allocator.unit == unit && a.cursorPath == "/"
      ensures a.State() == Opened(InitialHeader(unit), map[])
    {
      var r := Load(ArchiveFile.ReadWrite, InitialHeader(unit), map[]);
      a := r.value;
    }

    // -------------------------------------------------------------------
    // Resolution

    /** The `for` loop over one node's entries in `_GetDirectoryOffset`. */
    method ScanNode(pos: Position, c: string) returns (r: Result<(Position, bool)>)
      requires WellShaped(pos.node)
      ensures r == Scan(store, pos, c, 0, false)
    {
      var cur := pos;
      var found := false;
      var i: nat := 0;
      while i < cur.node.numEntries as nat
        invariant WellShaped(cur.node) && i <= EntryCapacity
        invariant Scan(store, cur, c, i, found) == Scan(store, pos, c, 0, false)
        decreases EntryCapacity - i
      {
        var e := cur.node.entries[i];
        if EntryName(e) == c {
          if e.entryType != DirectoryType {
            return Err(NotADirectory);
          }
          var child := ReadNode(store, e.offset);
          if child.Err? {
            return Err(child.error);
          }
          cur := Position(e.offset, child.value);
          found := true;
        }
        i := i + 1;
      }
      return Ok((cur, found));
    }

    /** The `while (!directoryFound)` loop: scan, then follow `Next` keeping the offset. */
    method SearchComponent(pos: Position, c: string) returns (r: Result<Position>)
      requires WellShaped(pos.node)
      ensures r == SearchChain(store, pos, c, Fuel(store))
    {
      var cur := pos;
      var fuel := Fuel(store);
      while true
        invariant WellShaped(cur.node)
        invariant SearchChain(store, cur, c, fuel) == SearchChain(store, pos, c, Fuel(store))
        decreases fuel
      {
        var scanned := ScanNode(cur, c);
        if scanned.Err? {
          return Err(scanned.error);
        }
        if scanned.value.1 {
          return Ok(scanned.value.0);
        }
        if cur.node.next == 0 {
          return Err(NotFound);
        }
        if fuel == 0 {
          return Err(Corrupted);
        }
        var n := ReadNode(store, cur.node.next);
        if n.Err? {
          return Err(n.error);
        }
        SearchChainNext(store, cur, c, fuel, scanned.value.0, n.value);
        cur := Position(cur.offset, n.value);
        fuel := fuel - 1;
      }
    }

    /** `_GetDirectoryOffset`, with the node it ends on. */
    method GetDirectoryOffset(path: string) returns (r: Result<Position>)
      requires Valid() && NoNul(path)
      ensures r == Resolve(store, root, Position(cursorOffset, cursorNode), path)
    {
      var absolute := StringStartsWith(path, "/");
      CStrOfNoNul(path);
      CStrOfNoNul("/");
      var pos := Position(cursorOffset, cursorNode);
      var rest := path;
      if absolute {
        pos := Position(RootOffset as uint32, root);
        rest := path[1..];
      }
      var comps := StringSplit(rest, "/");
      r := WalkComponents(pos, comps);
    }

    /** The `for` loop over the components in `_GetDirectoryOffset`. */
    method WalkComponents(start: Position, comps: seq<string>) returns (r: Result<Position>)
      requires WellShaped(start.node)
      ensures r == Walk(store, start, comps, Fuel(store))
    {
      var pos := start;
      ghost var goal := Walk(store, pos, comps, Fuel(store));
      var k := 0;
      while k < |comps|
        invariant k <= |comps| && WellShaped(pos.node)
        invariant Walk(store, pos, comps[k..], Fuel(store)) == goal
      {
        var c := comps[k];
        WalkAt(store, pos, comps, k, Fuel(store));
        if c == "." {
        } else if c == ".." {
          if pos.node.parent == 0 {
            return Err(InvalidPath);
          }
          var n := ReadNode(store, pos.node.parent);
          if n.Err? {
            return Err(n.error);
          }
          pos := Position(pos.node.parent, n.value);
        } else {
          var found := SearchComponent(pos, c);
          if found.Err? {
            return found;
          }
          pos := found.value;
        }
        k := k + 1;
      }
      return Ok(pos);
    }

    /** The leaf and the parent path, as CreateDirectory, CreateFile and `_GetEntry` compute them. */
    method SplitLeaf(path: string) returns (leaf: string, parentPath: string)
      requires NoNul(path) && Split(path, "/") != []
      ensures leaf == Leaf(path) && parentPath == ParentPath(path) && NoNul(parentPath)
    {
      var comps := StringSplit(path, "/");
      leaf := comps[|comps| - 1];
      comps := comps[..|comps| - 1];
      var absolute := StringStartsWith(path, "/");
      CStrOfNoNul(path);
      CStrOfNoNul("/");
      parentPath := if absolute then "" else "./";
      var joined := StringJoin(comps, "/");
      parentPath := parentPath + joined;
      ParentPathNoNul(path);
    }

    /** `_GetEntry`: the first entry with the leaf's name in the head node of the parent. */
    method GetEntry(path: string) returns (r: Result<ArchiveEntry>)
      requires Valid() && NoNul(path) && Split(path, "/") != []
      ensures r == Lookup(store, root, Position(cursorOffset, cursorNode), path)
    {
      var leaf, parentPath := SplitLeaf(path);
      var p := GetDirectoryOffset(parentPath);
      if p.Err? {
        return Err(p.error);
      }
      var d := ReadNode(store, p.value.offset);
      if d.Err? {
        return Err(d.error);
      }
      var dir := d.value;
      var i: nat := 0;
      while i < dir.numEntries as nat
        invariant i <= dir.numEntries as nat
        invariant FirstNamed(dir, leaf, i) == FirstNamed(dir, leaf, 0)
      {
        if EntryName(dir.entries[i]) == leaf {
          return Ok(dir.entries[i]);
        }
        i := i + 1;
      }
      return Err(NotFound);
    }

    /** `ListDirectory`: the names of every node along the chain of the directory. */
    method ListDirectory(path: string) returns (r: Result<seq<string>>)
      requires Valid() && NoNul(path)
      ensures r == Listing(State(), mode, path)
    {
      var check := CheckRead(mode);
      if check.Err? {
        return Err(check.error);
      }
      var p := GetDirectoryOffset(path);
      if p.Err? {
        return Err(p.error);
      }
      var head := ReadNode(store, p.value.offset);
      if head.Err? {
        return Err(head.error);
      }
      r := ListChain(head.value);
    }

    /** The `while (currentDirectory)` loop of `ListDirectory`. */
    method ListChain(head: DirectoryImage) returns (r: Result<seq<string>>)
      requires WellShaped(head)
      ensures r == ListFrom(store, head, Fuel(store))
    {
      var entries: seq<string> := [];
      var cur := head;
      var fuel := Fuel(store);
      if ListFrom(store, cur, fuel).Ok? {
        assert [] + ListFrom(store, cur, fuel).value == ListFrom(store, cur, fuel).value;
      }
      while true
        invariant WellShaped(cur)
        invariant Prefixed(entries, ListFrom(store, cur, fuel)) == ListFrom(store, head, Fuel(store))
        decreases fuel
      {
        ghost var before := entries;
        entries := AppendNames(entries, cur);
        if cur.next == 0 {
          return Ok(entries);
        }
        if fuel == 0 {
          return Err(Corrupted);
        }
        var n := ReadNode(store, cur.next);
        if n.Err? {
          return Err(n.error);
        }
        if ListFrom(store, n.value, fuel - 1).Ok? {
          var rest := ListFrom(store, n.value, fuel - 1).value;
          assert before + (Names(cur) + rest) == entries + rest;
        }
        cur := n.value;
        fuel := fuel - 1;
      }
    }

    /** The `for` loop of `ListDirectory`: pushes the names of one node. */
    static method AppendNames(entries: seq<string>, d: DirectoryImage) returns (r: seq<string>)
      requires WellShaped(d)
      ensures r == entries + Names(d)
    {
      r := entries;
      var i: nat := 0;
      while i < d.numEntries as nat
        invariant i <= d.numEntries as nat
        invariant r == entries + Names(d)[..i]
      {
        r := r + [EntryName(d.entries[i])];
        i := i + 1;
      }
      assert Names(d)[..i] == Names(d);
    }

    /** `GetFileSize`. */
    method GetFileSize(path: string) returns (r: Result<uint32>)
      requires Valid() && NoNul(path) && Split(path, "/") != []
      ensures r == FileSize(State(), mode, path)
    {
      var check := CheckRead(mode);
      if check.Err? {
        return Err(check.error);
      }
      var e := GetEntry(path);
      if e.Err? {
        return Err(e.error);
      }
      return Ok(e.value.size);
    }

    /**
     * `ReadFile` into a caller's buffer: refuses a buffer shorter than the
     * entry, copies the entry's bytes and zeroes the rest of the buffer.
     * The buffer is not touched when the read fails.
     */
    method ReadFile(path: string, buffer: array<byte>) returns (r: Result<()>)
      requires Valid() && NoNul(path) && Split(path, "/") != []
      modifies buffer
      ensures match ReadInto(State(), mode, path, buffer.Length)
        case Ok(b) => r == Ok(()) && buffer[..] == b
        case Err(err) => r == Err(err) && buffer[..] == old(buffer[..])
    {
      var check := CheckRead(mode);
      if check.Err? {
        return Err(check.error);
      }
      var found := GetEntry(path);
      if found.Err? {
        return Err(found.error);
      }
      var e := found.value;
      if buffer.Length < e.size as nat {
        return Err(InsufficientBuffer);
      }
      var bytes := Content(store, e);
      if bytes.Err? {
        return Err(bytes.error);
      }
      var k: nat := 0;
      while k < buffer.Length
        invariant k <= buffer.Length
        invariant forall j :: 0 <= j < k ==> buffer[j] == if j < e.size as nat then bytes.value[j] else 0
      {
        buffer[k] := if k < e.size as nat then bytes.value[k] else 0;
        k := k + 1;
      }
      assert buffer[..] == bytes.value + ArchiveFile.Zeros(buffer.Length - e.size as nat);
      return Ok(());
    }

    /** The `ReadFile` overload returning a vector sized by `GetFileSize`. */
    method ReadWholeFile(path: string) returns (r: Result<seq<byte>>)
      requires Valid() && NoNul(path) && Split(path, "/") != []
      ensures r == WholeFile(State(), mode, path)
    {
      var size := GetFileSize(path);
      if size.Err? {
        return Err(size.error);
      }
      var buffer := new byte[size.value];
      var read := ReadFile(path, buffer);
      if read.Err? {
        return Err(read.error);
      }
      return Ok(buffer[..]);
    }

    // -------------------------------------------------------------------
    // The cursor

    /** `GetCurrentDirectory`: the textual cursor. */
    function GetCurrentDirectory(): (r: string)
      reads this, allocator
      requires Valid()
      ensures |r| >= 1 && NoNul(r) && r == cursorPath
    {
      cursorPath
    }

    /** `_NormalizeCurrentDirectoryPath`: rebuilds the textual cursor from a component stack. */
    method NormalizeCurrentDirectoryPath() returns (r: Result<()>)
      requires |cursorPath| >= 1 && NoNul(cursorPath)
      modifies this
      ensures match Normalize(old(cursorPath))
        case Ok(q) => r == Ok(()) && cursorPath == q
        case Err(err) => r == Err(err) && cursorPath == old(cursorPath)
      ensures store == old(store) && root == old(root)
      ensures cursorOffset == old(cursorOffset) && cursorNode == old(cursorNode)
    {
      var comps := StringSplit(cursorPath[1..], "/");
      var stack: seq<string> := [];
      var k := 0;
      while k < |comps|
        invariant k <= |comps| && Clean(stack)
        invariant NormalizeFrom(comps[k..], stack) == NormalizeFrom(comps, [])
      {
        var c := comps[k];
        assert comps[k..][1..] == comps[k + 1..];
        if c == "." {
        } else if c == ".." {
          if stack == [] {
            return Err(InvalidPath);
          }
          stack := stack[..|stack| - 1];
        } else {
          stack := stack + [c];
        }
        k := k + 1;
      }
      if |stack| == 0 {
        cursorPath := "/";
      } else {
        var joined := StringJoin(stack, "/");
        cursorPath := "/" + joined + "/";
      }
      return Ok(());
    }

    /** `SetCurrentDirectory`. */
    method SetCurrentDirectory(path: string) returns (r: Result<()>)
      requires Valid() && NoNul(path)
      modifies this
      ensures Valid()
      ensures (State(), cursorPath, r) == SetCursor(old(State()), old(cursorPath), mode, path)
    {
      var check := CheckRead(mode);
      if check.Err? {
        return Err(check.error);
      }
      var p := GetDirectoryOffset(path);
      if p.Err? {
        return Err(p.error);
      }
      cursorOffset := p.value.offset;
      var d := ReadNode(store, p.value.offset);
      if d.Err? {
        return Err(d.error);
      }
      cursorNode := d.value;
      var absolute := StringStartsWith(path, "/");
      CStrOfNoNul(path);
      CStrOfNoNul("/");
      if absolute {
        cursorPath := path;
      } else {
        cursorPath := cursorPath + (path + "/");
      }
      assert cursorPath == Entered(old(cursorPath), path);
      NormalizeNoNul(cursorPath);
      r := NormalizeCurrentDirectoryPath();
    }

    // -------------------------------------------------------------------
    // Creation

    /** `Allocate` followed by the flush callback `_AllocationTableUpdated`, which writes the header. */
    method AllocateAndFlush(size: uint32) returns (r: Result<uint32>)
      requires Valid() && Sectors(size, allocator.unit) >= 1
      modifies this, allocator, allocator.table
      ensures Valid() && cursorPath == old(cursorPath)
      ensures (State(), r) == AllocStep(old(State()), allocator.unit, size)
    {
      r := allocator.Allocate(size);
      if r.Ok? {
        store := store[RootOffset as uint32 := Node(root)];
        var i := FirstFit(old(allocator.table[..]), Sectors(size, allocator.unit)).value;
        SetsRangeIsMarkRun(old(allocator.table[..]), allocator.table[..], i, Sectors(size, allocator.unit) as nat);
      }
    }

    /**
     * The part CreateDirectory and CreateFile share: the write check, the
     * parent, and the `while (!HasFreeSpace())` loop that walks the chain
     * and, at a full last node, allocates an overflow node, links it from
     * the last node and writes that node back.
     */
    method ReceivingNode(path: string) returns (leaf: string, r: Result<Position>)
      requires Valid() && NoNul(path) && Split(path, "/") != []
      modifies this, allocator, allocator.table
      ensures Valid() && cursorPath == old(cursorPath) && leaf == Leaf(path)
      ensures (State(), r) == Prepare(old(State()), allocator.unit, mode, path)
    {
      leaf := Leaf(path);
      var check := CheckWrite(mode);
      if check.Err? {
        return leaf, Err(check.error);
      }
      var parentPath;
      leaf, parentPath := SplitLeaf(path);
      var found := GetDirectoryOffset(parentPath);
      if found.Err? {
        return leaf, Err(found.error);
      }
      var head := ReadNode(store, found.value.offset);
      if head.Err? {
        return leaf, Err(head.error);
      }
      var p := Position(found.value.offset, head.value);
      r := GrowToFreeSlot(p);
    }

    /**
     * The `while (!HasFreeSpace())` loop: walks the chain and, at a full
     * last node, allocates an overflow node, links it from the last node and
     * writes that node back.
     */
    method GrowToFreeSlot(start: Position) returns (r: Result<Position>)
      requires Valid() && WellShaped(start.node)
      modifies this, allocator, allocator.table
      ensures Valid() && cursorPath == old(cursorPath)
      ensures (State(), r) == EndAndGrow(old(State()), allocator.unit, start)
    {
      var p := start;
      ghost var s0 := State();
      ghost var target := ChainEnd(s0.store, p, Fuel(s0.store));
      ghost var grown := false;
      var fuel := Fuel(store);
      while !HasFreeSlot(p.node)
        invariant Valid() && cursorPath == old(cursorPath) && WellShaped(p.node)
        invariant !grown ==> State() == s0 && ChainEnd(s0.store, p, fuel) == target
        invariant grown ==> target.Ok? && HasFreeSlot(p.node) && GrowChain(s0, allocator.unit, target.value) == (State(), Ok(p))
        decreases fuel, if grown then 0 else 1
      {
        if p.node.next != 0 {
          if fuel == 0 {
            return Err(Corrupted);
          }
          var n := ReadNode(store, p.node.next);
          if n.Err? {
            return Err(n.error);
          }
          ChainEndSkipsFull(store, p, n.value, fuel);
          p := Position(p.node.next, n.value);
          fuel := fuel - 1;
        } else {
          SectorsIsCeiling(DirectorySize as uint32, allocator.unit);
          var a := AllocateAndFlush(DirectorySize as uint32);
          if a.Err? {
            return Err(a.error);
          }
          store := store[p.offset := Node(p.node.(next := a.value))];
          p := Position(a.value, NewDirectory(p.node.parent));
          grown := true;
        }
      }
      return Ok(p);
    }

    /**
     * The entry added to the receiving node, which is written back, the new
     * block written, and the header's root and the cursor replaced by the
     * receiving node when they are that node.
     */
    method InsertEntry(p: Position, e: ArchiveEntry, o: uint32, block: Block)
      requires Valid() && WellShaped(p.node) && HasFreeSlot(p.node)
      modifies this
      ensures Valid() && cursorPath == old(cursorPath)
      ensures State() == Insert(old(State()), p, e, o, block)
    {
      var parent := new ArchiveDirectory.Load(p.node);
      var added := parent.AddEntry(e);
      var d := parent.Image();
      store := store[p.offset := Node(d)][o := block];
      if p.offset == RootOffset as uint32 {
        root := d;
      }
      if p.offset == cursorOffset {
        cursorNode := d;
      }
    }

    /** `CreateDirectory`. */
    method CreateDirectory(path: string) returns (r: Result<()>)
      requires Valid() && NoNul(path) && Split(path, "/") != []
      modifies this, allocator, allocator.table
      ensures Valid() && cursorPath == old(cursorPath)
      ensures (State(), r) == CreateDirectorySpec(old(State()), allocator.unit, mode, path)
    {
      var leaf, g := ReceivingNode(path);
      if g.Err? {
        return Err(g.error);
      }
      var p := g.value;
      SectorsIsCeiling(DirectorySize as uint32, allocator.unit);
      var a := AllocateAndFlush(DirectorySize as uint32);
      if a.Err? {
        return Err(a.error);
      }
      var child := new ArchiveDirectory(p.offset);
      var e := DirectoryEntry(leaf, a.value);
      if e.Err? {
        return Err(e.error);
      }
      InsertEntry(p, e.value, a.value, Node(child.Image()));
      return Ok(());
    }

    /** `CreateFile`: the payload is written whole; the entry records its length as a `uint32_t`. */
    method CreateFile(path: string, data: seq<byte>) returns (r: Result<()>)
      requires Valid() && NoNul(path) && Split(path, "/") != []
      requires Sectors(Truncated(|data|), allocator.unit) >= 1
      modifies this, allocator, allocator.table
      ensures Valid() && cursorPath == old(cursorPath)
      ensures (State(), r) == CreateFileSpec(old(State()), allocator.unit, mode, path, data)
    {
      var leaf, g := ReceivingNode(path);
      if g.Err? {
        return Err(g.error);
      }
      var p := g.value;
      var size := Truncated(|data|);
      var a := AllocateAndFlush(size);
      if a.Err? {
        return Err(a.error);
      }
      var e := FileEntry(leaf, a.value, size);
      if e.Err? {
        return Err(e.error);
      }
      InsertEntry(p, e.value, a.value, Payload(data));
      return Ok(());
    }

    /** `_ReallocationHandler`: copies `size` bytes from the old offset to the new one. */
    method ReallocationHandler(oldOffset: uint32, newOffset: uint32, size: uint32)
      requires oldOffset in store
      requires store[oldOffset].Payload? ==> |store[oldOffset].bytes| >= size as nat
      requires store[oldOffset].Node? ==> size == DirectorySize as uint32
      modifies this
      ensures store == old(store)[newOffset := Copied(old(store)[oldOffset], size)]
      ensures root == old(root) && cursorOffset == old(cursorOffset) && cursorNode == old(cursorNode)
      ensures cursorPath == old(cursorPath)
    {
      var b := store[oldOffset];
      store := store[newOffset := Copied(b, size)];
    }
  }
}
