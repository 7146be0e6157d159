/**
 * The directory tree as the archive engine sees it (xArchive.cpp): nodes
 * stored at byte offsets, linked by `Next` into overflow chains and by
 * `Parent` back to the directory that holds their entry. The functions
 * here say what resolving a path, listing a directory, looking up an
 * entry, walking a chain to a node with room and normalizing the textual
 * cursor produce; the engine's loops are proved against them.
 *
 * The archive file is modelled as a map from offset to what was written
 * there: a directory node or a run of payload bytes.
 */
module DirectoryTree {
  import opened Helpers
  import opened Layout

  /** What was last written at an offset of the archive file. */
  datatype Block = Node(dir: DirectoryImage) | Payload(bytes: seq<byte>)

  type Store = map<uint32, Block>

  /** A directory offset together with the copy of the node read for it. */
  datatype Position = Position(offset: uint32, node: DirectoryImage)

  /**
   * `_ReadDirectory`: the node stored at `offset`, checked for the
   * directory tag. Offset 0 stands for "no node" (the source returns a
   * null pointer, which its callers then dereference); the model reports
   * it, like anything that is not a tagged node, as `Corrupted`.
   */
  function ReadNode(store: Store, offset: uint32): (r: Result<DirectoryImage>)
    ensures r.Ok? <==> (offset != 0 && offset in store && store[offset].Node? &&
                        store[offset].dir.magic == DirectoryMagic && WellShaped(store[offset].dir))
    ensures r.Ok? ==> r.value == store[offset].dir
    ensures r.Err? ==> r.error == Corrupted
  {
    if offset == 0 || offset !in store || !store[offset].Node? then Err(Corrupted)
    else if store[offset].dir.magic != DirectoryMagic || !WellShaped(store[offset].dir) then Err(Corrupted)
    else Ok(store[offset].dir)
  }

  /**
   * The bound on `Next` steps: a chain that visits no node twice takes at
   * most one step per stored block, so only a cyclic chain runs out.
   */
  function Fuel(store: Store): nat
  {
    |store|
  }

  // ---------------------------------------------------------------------
  // Path resolution (_GetDirectoryOffset)

  /**
   * The `for` loop over the entries of one node. It has no `break`: after
   * descending into a matching directory it goes on comparing the same
   * component with the entries of the child, from the next index on.
   */
  function Scan(store: Store, pos: Position, c: string, i: nat, found: bool): (r: Result<(Position, bool)>)
    requires WellShaped(pos.node)
    ensures r.Ok? ==> WellShaped(r.value.0.node)
    ensures r.Ok? && !r.value.1 ==> !found && r.value.0 == pos
    ensures r.Err? ==> r.error in {NotADirectory, Corrupted}
    decreases EntryCapacity - i
  {
    if i >= pos.node.numEntries as nat then Ok((pos, found))
    else
      var e := pos.node.entries[i];
      if EntryName(e) == c then
        if e.entryType != DirectoryType then Err(NotADirectory)
        else match ReadNode(store, e.offset)
          case Err(err) => Err(err)
          case Ok(child) => Scan(store, Position(e.offset, child), c, i + 1, true)
      else Scan(store, pos, c, i + 1, found)
  }

  /**
   * The `while (!directoryFound)` loop: scans a node and, when nothing
   * matched, moves to the next node of the chain. The offset is not
   * updated when following `Next`. The end of the chain is "not found".
   */
  function SearchChain(store: Store, pos: Position, c: string, fuel: nat): (r: Result<Position>)
    requires WellShaped(pos.node)
    ensures r.Ok? ==> WellShaped(r.value.node)
    ensures r.Err? ==> r.error in {NotADirectory, Corrupted, NotFound}
    decreases fuel
  {
    match Scan(store, pos, c, 0, false)
    case Err(err) => Err(err)
    case Ok((p, found)) =>
      if found then Ok(p)
      else if pos.node.next == 0 then Err(NotFound)
      else if fuel == 0 then Err(Corrupted)
      else match ReadNode(store, pos.node.next)
        case Err(err) => Err(err)
        case Ok(n) => SearchChain(store, Position(pos.offset, n), c, fuel - 1)
  }

  /** A node without the component, and with a readable `Next`, hands the search on to that node. */
  lemma SearchChainNext(store: Store, pos: Position, c: string, fuel: nat, p: Position, n: DirectoryImage)
    requires WellShaped(pos.node) && Scan(store, pos, c, 0, false) == Ok((p, false))
    requires pos.node.next != 0 && fuel > 0 && ReadNode(store, pos.node.next) == Ok(n)
    ensures WellShaped(n)
    ensures SearchChain(store, pos, c, fuel) == SearchChain(store, Position(pos.offset, n), c, fuel - 1)
  {
  }

  /** One path component: `.` stays, `..` moves to the parent, a name is searched. */
  function Step(store: Store, pos: Position, c: string, fuel: nat): (r: Result<Position>)
    requires WellShaped(pos.node)
    ensures r.Ok? ==> WellShaped(r.value.node)
  {
    if c == "." then Ok(pos)
    else if c == ".." then
      if pos.node.parent == 0 then Err(InvalidPath)
      else match ReadNode(store, pos.node.parent)
        case Err(err) => Err(err)
        case Ok(n) => Ok(Position(pos.node.parent, n))
    else SearchChain(store, pos, c, fuel)
  }

  /** The components in order, stopping at the first failure. */
  function Walk(store: Store, pos: Position, comps: seq<string>, fuel: nat): (r: Result<Position>)
    requires WellShaped(pos.node)
    ensures r.Ok? ==> WellShaped(r.value.node)
    decreases |comps|
  {
    if comps == [] then Ok(pos)
    else match Step(store, pos, comps[0], fuel)
      case Err(err) => Err(err)
      case Ok(p) => Walk(store, p, comps[1..], fuel)
  }

  /** The path starts with `/` (StringStartsWith(path, "/") on a path without NUL). */
  predicate IsAbsolute(path: string)
  {
    |path| > 0 && path[0] == '/'
  }

  /** On a path without NUL, IsAbsolute is the answer of StringStartsWith(path, "/"). */
  lemma IsAbsoluteStartsWith(path: string)
    requires NoNul(path)
    ensures IsAbsolute(path) <==> CStr("/") <= CStr(path)
  {
    CStrOfNoNul(path);
    CStrOfNoNul("/");
  }

  /**
   * `_GetDirectoryOffset`, with the node it read for the result: an
   * absolute path starts at the root offset with the header's copy of the
   * root, any other path at the cursor with the cursor's copy.
   */
  function Resolve(store: Store, root: DirectoryImage, cursor: Position, path: string): (r: Result<Position>)
    requires WellShaped(root) && WellShaped(cursor.node)
    ensures r.Ok? ==> WellShaped(r.value.node)
  {
    if IsAbsolute(path) then Walk(store, Position(RootOffset as uint32, root), Split(path[1..], "/"), Fuel(store))
    else Walk(store, cursor, Split(path, "/"), Fuel(store))
  }

  // ---------------------------------------------------------------------
  // Properties of resolution

  /** Entries `i..j-1` in use are not named `c`. */
  predicate NoMatchBetween(d: DirectoryImage, c: string, i: nat, j: nat)
    requires WellShaped(d)
  {
    forall k :: i <= k < j && k < d.numEntries as nat ==> EntryName(d.entries[k]) != c
  }

  /** Entries that do not match are skipped. */
  lemma {:induction false} ScanSkips(store: Store, pos: Position, c: string, i: nat, j: nat, found: bool)
    requires WellShaped(pos.node) && i <= j && NoMatchBetween(pos.node, c, i, j)
    ensures Scan(store, pos, c, i, found) == Scan(store, pos, c, j, found)
    decreases j - i
  {
    if i < j && i < pos.node.numEntries as nat {
      ScanSkips(store, pos, c, i + 1, j, found);
    }
  }

  /** A node with no entry named `c` is left as it was. */
  lemma ScanNoMatch(store: Store, pos: Position, c: string, found: bool)
    requires WellShaped(pos.node) && NoMatchBetween(pos.node, c, 0, EntryCapacity)
    ensures Scan(store, pos, c, 0, found) == Ok((pos, found))
  {
    ScanSkips(store, pos, c, 0, EntryCapacity, found);
  }

  /** When the first entry named `c` is a file, the component fails with "not a directory". */
  lemma FirstMatchIsFile(store: Store, pos: Position, c: string, i: nat)
    requires WellShaped(pos.node) && i < pos.node.numEntries as nat
    requires NoMatchBetween(pos.node, c, 0, i)
    requires EntryName(pos.node.entries[i]) == c && pos.node.entries[i].entryType != DirectoryType
    ensures Scan(store, pos, c, 0, false) == Err(NotADirectory)
    ensures Step(store, pos, c, Fuel(store)) == Err(NotADirectory) || c in {".", ".."}
  {
    ScanSkips(store, pos, c, 0, i, false);
  }

  /**
   * When the first entry named `c` is a directory whose node has no entry
   * named `c` after index `i`, the component moves into that directory.
   */
  lemma FirstMatchDescends(store: Store, pos: Position, c: string, i: nat)
    requires WellShaped(pos.node) && i < pos.node.numEntries as nat
    requires NoMatchBetween(pos.node, c, 0, i)
    requires var e := pos.node.entries[i];
      EntryName(e) == c && e.entryType == DirectoryType && ReadNode(store, e.offset).Ok? &&
      NoMatchBetween(ReadNode(store, e.offset).value, c, i + 1, EntryCapacity)
    ensures var e := pos.node.entries[i];
      Scan(store, pos, c, 0, false) == Ok((Position(e.offset, ReadNode(store, e.offset).value), true))
  {
    var e := pos.node.entries[i];
    var child := Position(e.offset, ReadNode(store, e.offset).value);
    ScanSkips(store, pos, c, 0, i, false);
    ScanSkips(store, child, c, i + 1, EntryCapacity, true);
  }

  /** A node of the chain without a match hands the search to the next node. */
  lemma SearchMovesAlongChain(store: Store, pos: Position, c: string, fuel: nat)
    requires WellShaped(pos.node) && NoMatchBetween(pos.node, c, 0, EntryCapacity)
    requires pos.node.next != 0 && fuel > 0
    ensures SearchChain(store, pos, c, fuel) ==
      match ReadNode(store, pos.node.next)
      case Err(err) => Err(err)
      case Ok(n) => SearchChain(store, Position(pos.offset, n), c, fuel - 1)
  {
    ScanNoMatch(store, pos, c, false);
  }

  /** The last node of the chain without a match ends the search with "not found". */
  lemma SearchEndsAtChainEnd(store: Store, pos: Position, c: string, fuel: nat)
    requires WellShaped(pos.node) && NoMatchBetween(pos.node, c, 0, EntryCapacity)
    requires pos.node.next == 0
    ensures SearchChain(store, pos, c, fuel) == Err(NotFound)
  {
    ScanNoMatch(store, pos, c, false);
  }

  /** Walking from component `k` takes one step, then walks the rest. */
  lemma WalkAt(store: Store, pos: Position, comps: seq<string>, k: nat, fuel: nat)
    requires WellShaped(pos.node) && k < |comps|
    ensures Walk(store, pos, comps[k..], fuel)
         == (var st := Step(store, pos, comps[k], fuel);
             if st.Err? then Err(st.error) else Walk(store, st.value, comps[k + 1..], fuel))
  {
    assert comps[k..][1..] == comps[k + 1..];
  }

  /** `.` is a no-op. */
  lemma WalkDot(store: Store, pos: Position, comps: seq<string>, fuel: nat)
    requires WellShaped(pos.node)
    ensures Walk(store, pos, ["."] + comps, fuel) == Walk(store, pos, comps, fuel)
  {
    assert (["."] + comps)[1..] == comps;
  }

  /** `..` fails at a node without a parent, and otherwise moves to the parent. */
  lemma WalkDotDot(store: Store, pos: Position, comps: seq<string>, fuel: nat)
    requires WellShaped(pos.node)
    ensures pos.node.parent == 0 ==> Walk(store, pos, [".."] + comps, fuel) == Err(InvalidPath)
    ensures pos.node.parent != 0 && ReadNode(store, pos.node.parent).Ok? ==>
      Walk(store, pos, [".."] + comps, fuel) ==
      Walk(store, Position(pos.node.parent, ReadNode(store, pos.node.parent).value), comps, fuel)
  {
    assert ([".."] + comps)[1..] == comps;
  }

  /** "/" is the root, with the header's copy of the root node. */
  lemma ResolveRoot(store: Store, root: DirectoryImage, cursor: Position)
    requires WellShaped(root) && WellShaped(cursor.node)
    ensures Resolve(store, root, cursor, "/") == Ok(Position(RootOffset as uint32, root))
  {
    SplitEmpty("/");
    assert "/"[1..] == "";
  }

  /** The empty path and "." are the cursor. */
  lemma ResolveCursor(store: Store, root: DirectoryImage, cursor: Position)
    requires WellShaped(root) && WellShaped(cursor.node)
    ensures Resolve(store, root, cursor, "") == Ok(cursor)
    ensures Resolve(store, root, cursor, ".") == Ok(cursor)
  {
    SplitEmpty("/");
    SingleSepAt(".", '/', 0);
    SplitStep(".", "/", 0, 1);
  }

  /**
   * The missing `break`: with "x" a directory at index 0 of the root and
   * also a directory at index 1 of that directory's node, "/x" resolves
   * to the inner one.
   */
  lemma NoBreakDescendsTwice(store: Store, root: DirectoryImage, cursor: Position, a: DirectoryImage, b: DirectoryImage)
    requires WellShaped(root) && WellShaped(cursor.node)
    requires root.numEntries == 1 && EntryName(root.entries[0]) == "x" && root.entries[0].entryType == DirectoryType
    requires ReadNode(store, root.entries[0].offset) == Ok(a)
    requires a.numEntries == 2 && EntryName(a.entries[1]) == "x" && a.entries[1].entryType == DirectoryType
    requires ReadNode(store, a.entries[1].offset) == Ok(b) && b.numEntries <= 2
    ensures Resolve(store, root, cursor, "/x") == Ok(Position(a.entries[1].offset, b))
  {
    assert "/x"[1..] == "x";
    SplitStep("x", "/", 0, 1);
    var pa := Position(root.entries[0].offset, a);
    var pb := Position(a.entries[1].offset, b);
    assert Scan(store, pa, "x", 1, true) == Scan(store, pb, "x", 2, true);
    assert Scan(store, Position(RootOffset as uint32, root), "x", 0, false) == Scan(store, pa, "x", 1, true);
    assert Walk(store, pb, [], Fuel(store)) == Ok(pb);
  }

  // ---------------------------------------------------------------------
  // The parent path of CreateDirectory, CreateFile and _GetEntry

  /** The last component, the name of the entry to create or look up. */
  function Leaf(path: string): string
    requires Split(path, "/") != []
  {
    var comps := Split(path, "/");
    comps[|comps| - 1]
  }

  /**
   * The path of the parent: the other components joined with `/`, after
   * "./" when the path is not absolute.
   */
  function ParentPath(path: string): string
    requires Split(path, "/") != []
  {
    var comps := Split(path, "/");
    (if IsAbsolute(path) then "" else "./") + Join(comps[..|comps| - 1], "/")
  }

  /** "/" followed by a name without `/` splits into an empty component and the name. */
  lemma SplitOneAbsolute(name: string)
    requires name != [] && forall j :: 0 <= j < |name| ==> name[j] != '/'
    ensures Split("/" + name, "/") == ["", name]
  {
    var s := "/" + name;
    SingleSepAt(s, '/', 0);
    SplitStep(s, "/", 0, 0);
    forall j | 1 <= j < |s|
      ensures !SepAt(s, "/", j)
    {
      SingleSepAt(s, '/', j);
    }
    SplitStep(s, "/", 1, |s|);
    assert s[1..] == name;
  }

  /**
   * A one-component absolute path has the empty parent path, which is
   * not absolute: "/name" is created in, or looked up in, the cursor's
   * directory rather than the root.
   */
  lemma OneComponentAbsoluteUsesCursor(store: Store, root: DirectoryImage, cursor: Position, name: string)
    requires WellShaped(root) && WellShaped(cursor.node)
    requires name != [] && forall j :: 0 <= j < |name| ==> name[j] != '/'
    ensures Split("/" + name, "/") != [] && Leaf("/" + name) == name
    ensures ParentPath("/" + name) == ""
    ensures Resolve(store, root, cursor, ParentPath("/" + name)) == Ok(cursor)
  {
    SplitOneAbsolute(name);
    assert Split("/" + name, "/")[..1] == [""];
    ResolveCursor(store, root, cursor);
  }

  /**
   * "/" is not a path without components: it splits into one empty
   * component, so the create and lookup operations take the empty name as
   * the leaf, under the empty parent path, which resolves to the cursor.
   */
  lemma SlashIsEmptyLeaf()
    ensures Split("/", "/") == [""]
    ensures Leaf("/") == "" && ParentPath("/") == ""
  {
    SplitTrailingSep("", '/');
    assert "" + ['/'] == "/";
  }

  /** An absolute path with two or more components has an absolute parent path. */
  lemma AbsoluteParentPath(path: string)
    requires IsAbsolute(path) && |Split(path, "/")| >= 3
    ensures IsAbsolute(ParentPath(path))
  {
    var comps := Split(path, "/");
    SingleSepAt(path, '/', 0);
    SplitLeadingSep(path, "/");
    var init := comps[..|comps| - 1];
    assert |init| >= 2 && init[0] == "";
    assert Join(init, "/") == "" + "/" + Join(init[1..], "/");
  }

  /**
   * The parent path and the leaf put back together give the path again,
   * when the path does not end in `/`: the rebuild relies on StringJoin
   * undoing StringSplit.
   */
  lemma ParentPathRebuilds(path: string)
    requires |Split(path, "/")| >= 2 && !IsSuffix("/", path)
    ensures Join(Split(path, "/")[..|Split(path, "/")| - 1], "/") + "/" + Leaf(path) == path
  {
    var comps := Split(path, "/");
    var init := comps[..|comps| - 1];
    JoinSnoc(init, Leaf(path), "/");
    assert init + [Leaf(path)] == comps;
    JoinSplit(path, "/");
  }

  // ---------------------------------------------------------------------
  // Listing and lookup

  /** The names of the entries in use, in slot order. */
  function Names(d: DirectoryImage): (r: seq<string>)
    requires WellShaped(d)
    ensures |r| == d.numEntries as nat
    ensures forall i :: 0 <= i < |r| ==> r[i] == EntryName(d.entries[i])
  {
    seq(d.numEntries as nat, i requires 0 <= i < d.numEntries as nat => EntryName(d.entries[i]))
  }

  /** The names of a node, then those of each node along its `Next` chain. */
  function ListFrom(store: Store, d: DirectoryImage, fuel: nat): (r: Result<seq<string>>)
    requires WellShaped(d)
    ensures r.Ok? ==> Names(d) <= r.value
    ensures d.next == 0 ==> r == Ok(Names(d))
    ensures r.Err? ==> r.error == Corrupted
    decreases fuel
  {
    if d.next == 0 then Ok(Names(d))
    else if fuel == 0 then Err(Corrupted)
    else match ReadNode(store, d.next)
      case Err(err) => Err(err)
      case Ok(n) =>
        match ListFrom(store, n, fuel - 1)
        case Err(err) => Err(err)
        case Ok(rest) => Ok(Names(d) + rest)
  }

  /** Listing a node whose successor is readable is its names, then the successor's listing. */
  lemma ListFollowsNext(store: Store, d: DirectoryImage, n: DirectoryImage, fuel: nat)
    requires WellShaped(d) && d.next != 0 && fuel > 0 && ReadNode(store, d.next) == Ok(n)
    ensures ListFrom(store, d, fuel).Ok? <==> ListFrom(store, n, fuel - 1).Ok?
    ensures ListFrom(store, d, fuel).Ok? ==> ListFrom(store, d, fuel).value == Names(d) + ListFrom(store, n, fuel - 1).value
  {
  }

  /** Adding an entry appends its name to the node's names. */
  lemma NamesAdded(d: DirectoryImage, e: ArchiveEntry)
    requires WellShaped(d) && HasFreeSlot(d)
    ensures Names(Added(d, e).value) == Names(d) + [EntryName(e)]
  {
    var a := Added(d, e).value;
    assert Visible(a) == Visible(d) + [e];
    assert forall i :: 0 <= i < d.numEntries ==> a.entries[i] == Visible(a)[i] == Visible(d)[i] == d.entries[i];
  }

  /** `ListDirectory`: resolve, read the node afresh, list along the chain. */
  function List(store: Store, root: DirectoryImage, cursor: Position, path: string): (r: Result<seq<string>>)
    requires WellShaped(root) && WellShaped(cursor.node)
    ensures r.Ok? ==> (Resolve(store, root, cursor, path).Ok? &&
                       ReadNode(store, Resolve(store, root, cursor, path).value.offset).Ok? &&
                       Names(ReadNode(store, Resolve(store, root, cursor, path).value.offset).value) <= r.value)
  {
    match Resolve(store, root, cursor, path)
    case Err(err) => Err(err)
    case Ok(p) =>
      match ReadNode(store, p.offset)
      case Err(err) => Err(err)
      case Ok(d) => ListFrom(store, d, Fuel(store))
  }

  /** The lowest index at or after `i` of an entry in use named `name`. */
  function FirstNamed(d: DirectoryImage, name: string, i: nat): (r: Option<nat>)
    requires WellShaped(d)
    ensures r.Some? ==> i <= r.value < d.numEntries as nat && EntryName(d.entries[r.value]) == name
    ensures r.Some? ==> NoMatchBetween(d, name, i, r.value)
    ensures r.None? ==> NoMatchBetween(d, name, i, EntryCapacity)
    decreases EntryCapacity - i
  {
    if i >= d.numEntries as nat then None
    else if EntryName(d.entries[i]) == name then Some(i)
    else FirstNamed(d, name, i + 1)
  }

  /**
   * `_GetEntry`: the first entry named like the leaf in the head node of
   * the parent directory, read afresh; the `Next` chain is not searched.
   */
  function Lookup(store: Store, root: DirectoryImage, cursor: Position, path: string): (r: Result<ArchiveEntry>)
    requires WellShaped(root) && WellShaped(cursor.node) && Split(path, "/") != []
    ensures r.Ok? ==> EntryName(r.value) == Leaf(path)
  {
    match Resolve(store, root, cursor, ParentPath(path))
    case Err(err) => Err(err)
    case Ok(p) =>
      match ReadNode(store, p.offset)
      case Err(err) => Err(err)
      case Ok(d) =>
        match FirstNamed(d, Leaf(path), 0)
        case None => Err(NotFound)
        case Some(k) => Ok(d.entries[k])
  }

  /**
   * An entry is found exactly when the head node of the parent holds one
   * with the leaf's name; an entry that lives only in an overflow node of
   * the parent is not found.
   */
  lemma LookupHeadOnly(store: Store, root: DirectoryImage, cursor: Position, path: string)
    requires WellShaped(root) && WellShaped(cursor.node) && Split(path, "/") != []
    requires Resolve(store, root, cursor, ParentPath(path)).Ok?
    requires ReadNode(store, Resolve(store, root, cursor, ParentPath(path)).value.offset).Ok?
    ensures var d := ReadNode(store, Resolve(store, root, cursor, ParentPath(path)).value.offset).value;
      (Lookup(store, root, cursor, path).Ok? <==> Leaf(path) in Names(d)) &&
      (Lookup(store, root, cursor, path).Ok? ==>
        Lookup(store, root, cursor, path).value in Visible(d) &&
        EntryName(Lookup(store, root, cursor, path).value) == Leaf(path)) &&
      (Lookup(store, root, cursor, path).Err? ==> Lookup(store, root, cursor, path).error == NotFound)
  {
    var d := ReadNode(store, Resolve(store, root, cursor, ParentPath(path)).value.offset).value;
    var k := FirstNamed(d, Leaf(path), 0);
    if k.Some? {
      assert Names(d)[k.value] == Leaf(path);
      assert d.entries[k.value] == Visible(d)[k.value];
    } else {
      assert forall i :: 0 <= i < |Names(d)| ==> Names(d)[i] != Leaf(path);
    }
  }

  // ---------------------------------------------------------------------
  // The chain walk of CreateDirectory and CreateFile

  /**
   * The node that receives a new entry: the first node of the chain with a
   * free slot or, when every node is full, the last one.
   */
  function ChainEnd(store: Store, p: Position, fuel: nat): (r: Result<Position>)
    requires WellShaped(p.node)
    ensures r.Ok? ==> WellShaped(r.value.node) && (HasFreeSlot(r.value.node) || r.value.node.next == 0)
    ensures r.Err? ==> r.error == Corrupted
    ensures HasFreeSlot(p.node) ==> r == Ok(p)
    decreases fuel
  {
    if HasFreeSlot(p.node) || p.node.next == 0 then Ok(p)
    else if fuel == 0 then Err(Corrupted)
    else match ReadNode(store, p.node.next)
      case Err(err) => Err(err)
      case Ok(n) => ChainEnd(store, Position(p.node.next, n), fuel - 1)
  }

  /** A full node hands the walk to its successor. */
  lemma ChainEndSkipsFull(store: Store, p: Position, n: DirectoryImage, fuel: nat)
    requires WellShaped(p.node) && !HasFreeSlot(p.node) && p.node.next != 0 && fuel > 0
    requires ReadNode(store, p.node.next) == Ok(n)
    ensures ChainEnd(store, p, fuel) == ChainEnd(store, Position(p.node.next, n), fuel - 1)
  {
  }

  // ---------------------------------------------------------------------
  // The textual cursor (_NormalizeCurrentDirectoryPath)

  /** Components that are neither `.` nor `..`. */
  predicate Clean(cs: seq<string>)
  {
    forall i :: 0 <= i < |cs| ==> cs[i] != "." && cs[i] != ".."
  }

  /**
   * The vector of components: `.` is skipped, `..` pops the last one, any
   * other component is pushed. Popping an empty vector is undefined in
   * the source; the model reports `InvalidPath`.
   */
  function NormalizeFrom(comps: seq<string>, acc: seq<string>): (r: Result<seq<string>>)
    requires Clean(acc)
    ensures r.Ok? ==> Clean(r.value)
    ensures r.Ok? ==> forall c :: c in r.value ==> c in acc || c in comps
    ensures r.Err? ==> r.error == InvalidPath
    decreases |comps|
  {
    if comps == [] then Ok(acc)
    else if comps[0] == "." then NormalizeFrom(comps[1..], acc)
    else if comps[0] == ".." then
      if acc == [] then Err(InvalidPath) else NormalizeFrom(comps[1..], acc[..|acc| - 1])
    else NormalizeFrom(comps[1..], acc + [comps[0]])
  }

  /** `/` for no components, otherwise `/c1/.../ck/`. */
  function Render(cs: seq<string>): (r: string)
    ensures |r| >= 1 && r[0] == '/' && r[|r| - 1] == '/'
  {
    if cs == [] then "/" else "/" + Join(cs, "/") + "/"
  }

  /**
   * The components of a normalized cursor path: those of the path after
   * its leading `/`, with `.` and `..` resolved textually. None of them
   * is `.` or `..` or holds a `/`.
   */
  function NormalizedComponents(path: string): (r: Result<seq<string>>)
    requires |path| >= 1
    ensures r.Ok? ==> Clean(r.value) && forall c :: c in r.value ==> !ContainsSep(c, "/")
    ensures r.Err? ==> r.error == InvalidPath
  {
    SplitNoSep(path[1..], "/");
    NormalizeFrom(Split(path[1..], "/"), [])
  }

  /** `_NormalizeCurrentDirectoryPath` on the textual cursor: `/` or `/c1/.../ck/`. */
  function Normalize(path: string): (r: Result<string>)
    requires |path| >= 1
    ensures r.Ok? <==> NormalizedComponents(path).Ok?
    ensures r.Ok? ==> |r.value| >= 1 && r.value[0] == '/' && r.value[|r.value| - 1] == '/'
  {
    match NormalizedComponents(path)
    case Err(err) => Err(err)
    case Ok(cs) => Ok(Render(cs))
  }

  /** The cursor path after `SetCurrentDirectory(path)`, before normalization. */
  function Entered(cursorPath: string, path: string): (r: string)
    ensures (IsAbsolute(cursorPath) || IsAbsolute(path)) ==> IsAbsolute(r)
    ensures !IsAbsolute(path) ==> cursorPath <= r && |r| > 0 && r[|r| - 1] == '/'
  {
    if IsAbsolute(path) then path else cursorPath + path + "/"
  }

  lemma ConsEqual<T>(whole: seq<T>, x: T, rest: seq<T>, lit: seq<T>)
    requires whole == [x] + rest && lit == [x] + rest
    ensures whole == lit
  {
  }

  lemma SplitExampleDown()
    ensures Split("a/b/", "/") == ["a", "b"]
  {
    var s := "a/b/";
    SingleSepAt(s, '/', 0);
    SingleSepAt(s, '/', 1);
    SplitStep(s, "/", 0, 1);
    SplitDownFrom2();
    assert s[0..1] == "a";
    ConsEqual(Split(s, "/"), "a", ["b"], ["a", "b"]);
  }

  lemma SplitDownFrom2()
    ensures SplitFrom("a/b/", "/", 2) == ["b"]
  {
    var s := "a/b/";
    SingleSepAt(s, '/', 2);
    SingleSepAt(s, '/', 3);
    SplitStep(s, "/", 2, 3);
    SplitEnd(s, "/");
    assert s[2..3] == "b";
  }

  lemma SplitExampleUp()
    ensures Split("a/b/../", "/") == ["a", "b", ".."]
  {
    var s := "a/b/../";
    SingleSepAt(s, '/', 0);
    SingleSepAt(s, '/', 1);
    SplitStep(s, "/", 0, 1);
    SplitUpFrom2();
    assert s[0..1] == "a";
    ConsEqual(Split(s, "/"), "a", ["b", ".."], ["a", "b", ".."]);
  }

  lemma SplitUpFrom2()
    ensures SplitFrom("a/b/../", "/", 2) == ["b", ".."]
  {
    var s := "a/b/../";
    SingleSepAt(s, '/', 2);
    SingleSepAt(s, '/', 3);
    SplitStep(s, "/", 2, 3);
    SplitUpFrom4();
    assert s[2..3] == "b";
    ConsEqual(SplitFrom(s, "/", 2), "b", [".."], ["b", ".."]);
  }

  lemma SplitUpFrom4()
    ensures SplitFrom("a/b/../", "/", 4) == [".."]
  {
    var s := "a/b/../";
    SingleSepAt(s, '/', 4);
    SingleSepAt(s, '/', 5);
    SingleSepAt(s, '/', 6);
    SplitStep(s, "/", 4, 6);
    SplitEnd(s, "/");
    assert s[4..6] == "..";
  }

  /** From `/`, entering `a/b` gives `/a/b/`. */
  lemma NormalizeExampleDown()
    ensures Normalize(Entered("/", "a/b")) == Ok("/a/b/")
  {
    assert Entered("/", "a/b")[1..] == "a/b/";
    SplitExampleDown();
    assert ["a", "b"][1..] == ["b"];
    assert [] + ["a"] == ["a"] && ["a"] + ["b"] == ["a", "b"];
    assert NormalizeFrom(["a", "b"], []) == NormalizeFrom(["b"], ["a"]);
    assert NormalizeFrom(["b"], ["a"]) == NormalizeFrom([], ["a", "b"]);
    assert Join(["b"], "/") == "b";
    assert Join(["a", "b"], "/") == "a" + "/" + "b" == "a/b";
    assert Render(["a", "b"]) == "/a/b/";
  }

  lemma NormalizeFromExampleUp()
    ensures NormalizeFrom(["a", "b", ".."], []) == Ok(["a"])
  {
    assert ["a", "b", ".."][1..] == ["b", ".."] && ["b", ".."][1..] == [".."];
    assert [] + ["a"] == ["a"] && ["a"] + ["b"] == ["a", "b"] && ["a", "b"][..1] == ["a"];
    assert NormalizeFrom(["a", "b", ".."], []) == NormalizeFrom(["b", ".."], ["a"]);
    assert NormalizeFrom(["b", ".."], ["a"]) == NormalizeFrom([".."], ["a", "b"]);
    assert NormalizeFrom([".."], ["a", "b"]) == NormalizeFrom([], ["a"]);
  }

  /** Entering `..` from `/a/b/` gives `/a/`. */
  lemma NormalizeExampleUp()
    ensures Normalize(Entered("/a/b/", "..")) == Ok("/a/")
  {
    assert Entered("/a/b/", "..")[1..] == "a/b/../";
    SplitExampleUp();
    NormalizeFromExampleUp();
    assert Join(["a"], "/") == "a";
    assert Render(["a"]) == "/a/";
  }
}
