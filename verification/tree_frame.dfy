/**
 * How resolution and listing carry over from an archive file to the file
 * a creation leaves behind. A creation appends one entry to one node, or,
 * when the last node of a chain is full, links that node to a new overflow
 * node holding the entry; everything else it writes goes to offsets no node
 * could reach before. The lemmas here say that a path that resolved before
 * resolves to the same offset afterwards, as long as the new entry's name
 * is none of its components, and that the chain's listing gains exactly
 * the new name at its end.
 */
module TreeFrame {
  import opened Helpers
  import opened Layout
  import opened DirectoryTree

  /** `y` is the node `x` as it was, with `e` appended, or, being the last of its chain, linked to `link`. */
  predicate Grown(x: DirectoryImage, y: DirectoryImage, e: ArchiveEntry, link: uint32)
  {
    WellShaped(x) && WellShaped(y) &&
    (y == x || (HasFreeSlot(x) && y == Added(x, e).value) || (x.next == 0 && y == x.(next := link)))
  }

  /** The block at `k` is still in `st2`, as it was or, for a node, grown. */
  predicate KeptAt(st: Store, st2: Store, k: uint32, e: ArchiveEntry, link: uint32)
    requires k in st
  {
    k in st2 && (st2[k] == st[k] || (st[k].Node? && st2[k].Node? && Grown(st[k].dir, st2[k].dir, e, link)))
  }

  /** Every block of `st` is still in `st2`, as it was or, for a node, grown. */
  predicate StoreGrown(st: Store, st2: Store, e: ArchiveEntry, link: uint32)
  {
    forall k {:trigger KeptAt(st, st2, k, e, link)} :: k in st ==> KeptAt(st, st2, k, e, link)
  }

  /** A grown node keeps its tag, its parent and its entries, and at most gains `e` after them. */
  lemma GrownFields(x: DirectoryImage, y: DirectoryImage, e: ArchiveEntry, link: uint32)
    requires Grown(x, y, e, link)
    ensures y.magic == x.magic && y.parent == x.parent
    ensures x.next != 0 ==> y.next == x.next
    ensures y.numEntries == x.numEntries || (y.numEntries as nat == x.numEntries as nat + 1 && y.entries[x.numEntries] == e)
    ensures forall i :: 0 <= i < x.numEntries as nat ==> y.entries[i] == x.entries[i]
  {
    if y != x && HasFreeSlot(x) && y == Added(x, e).value {
      assert Visible(y) == Visible(x) + [e];
      assert y.entries[x.numEntries] == Visible(y)[x.numEntries];
      forall i | 0 <= i < x.numEntries as nat
        ensures y.entries[i] == x.entries[i]
      {
        assert y.entries[i] == Visible(y)[i] && x.entries[i] == Visible(x)[i];
      }
    }
  }

  /** Where the search in the old file ended, the search in the new one ends at the same offset, on the node grown. */
  predicate LandsAlike(r: Result<Position>, r2: Result<Position>, e: ArchiveEntry, link: uint32)
  {
    r.Ok? ==> r2.Ok? && r2.value.offset == r.value.offset && Grown(r.value.node, r2.value.node, e, link)
  }

  /** Carries LandsAlike over to two results equal to the ones it was shown for. */
  lemma LandsAlikeEqual(r: Result<Position>, r2: Result<Position>, q: Result<Position>, q2: Result<Position>, e: ArchiveEntry, link: uint32)
    requires r == q && r2 == q2 && LandsAlike(q, q2, e, link)
    ensures LandsAlike(r, r2, e, link)
  {
  }

  /** LandsAlike for the entry loop, which also says whether the component matched. */
  predicate ScansAlike(r: Result<(Position, bool)>, r2: Result<(Position, bool)>, e: ArchiveEntry, link: uint32)
  {
    r.Ok? ==> (r2.Ok? && r2.value.1 == r.value.1 && r2.value.0.offset == r.value.0.offset &&
               Grown(r.value.0.node, r2.value.0.node, e, link))
  }

  /** A node that could be read before can still be read, and is the same node grown. */
  lemma ReadGrown(st: Store, st2: Store, k: uint32, e: ArchiveEntry, link: uint32)
    requires StoreGrown(st, st2, e, link) && ReadNode(st, k).Ok?
    ensures ReadNode(st2, k).Ok? && Grown(ReadNode(st, k).value, ReadNode(st2, k).value, e, link)
  {
    assert KeptAt(st, st2, k, e, link);
    if st2[k] != st[k] {
      GrownFields(st[k].dir, st2[k].dir, e, link);
    }
  }

  /** The entry loop over a grown node finds what it found before: the new entry is not named `c`. */
  lemma {:induction false} ScanGrown(st: Store, st2: Store, pos: Position, pos2: Position, c: string, i: nat, found: bool,
                                      e: ArchiveEntry, link: uint32)
    requires StoreGrown(st, st2, e, link) && EntryName(e) != c
    requires pos2.offset == pos.offset && Grown(pos.node, pos2.node, e, link)
    requires Scan(st, pos, c, i, found).Ok?
    ensures ScansAlike(Scan(st, pos, c, i, found), Scan(st2, pos2, c, i, found), e, link)
    decreases EntryCapacity - i
  {
    GrownFields(pos.node, pos2.node, e, link);
    var n := pos.node.numEntries as nat;
    if i < n {
      var x := pos.node.entries[i];
      if EntryName(x) == c {
        ReadGrown(st, st2, x.offset, e, link);
        var child, child2 := ReadNode(st, x.offset).value, ReadNode(st2, x.offset).value;
        ScanGrown(st, st2, Position(x.offset, child), Position(x.offset, child2), c, i + 1, true, e, link);
      } else {
        ScanGrown(st, st2, pos, pos2, c, i + 1, found, e, link);
      }
    } else if i == n && pos2.node.numEntries as nat > n {
      assert Scan(st2, pos2, c, i, found) == Scan(st2, pos2, c, i + 1, found);
    }
  }

  /** The search along a grown chain ends where it ended before, with at least as much fuel. */
  lemma {:induction false} SearchGrown(st: Store, st2: Store, pos: Position, pos2: Position, c: string, fuel: nat, fuel2: nat,
                                        e: ArchiveEntry, link: uint32)
    requires StoreGrown(st, st2, e, link) && EntryName(e) != c && fuel <= fuel2
    requires pos2.offset == pos.offset && Grown(pos.node, pos2.node, e, link)
    requires SearchChain(st, pos, c, fuel).Ok?
    ensures LandsAlike(SearchChain(st, pos, c, fuel), SearchChain(st2, pos2, c, fuel2), e, link)
    decreases fuel
  {
    if Scan(st, pos, c, 0, false).Ok? && Scan(st, pos, c, 0, false).value.1 {
      SearchGrownFound(st, st2, pos, pos2, c, fuel, fuel2, e, link);
    } else {
      NextGrown(st, st2, pos, pos2, c, fuel, fuel2, e, link);
      var n, n2 := ReadNode(st, pos.node.next).value, ReadNode(st2, pos.node.next).value;
      SearchGrown(st, st2, Position(pos.offset, n), Position(pos2.offset, n2), c, fuel - 1, fuel2 - 1, e, link);
      LandsAlikeEqual(SearchChain(st, pos, c, fuel), SearchChain(st2, pos2, c, fuel2),
                      SearchChain(st, Position(pos.offset, n), c, fuel - 1), SearchChain(st2, Position(pos2.offset, n2), c, fuel2 - 1), e, link);
    }
  }

  /** Where the first node holds the name, it does so in both files. */
  lemma SearchGrownFound(st: Store, st2: Store, pos: Position, pos2: Position, c: string, fuel: nat, fuel2: nat,
                         e: ArchiveEntry, link: uint32)
    requires StoreGrown(st, st2, e, link) && EntryName(e) != c
    requires pos2.offset == pos.offset && Grown(pos.node, pos2.node, e, link)
    requires Scan(st, pos, c, 0, false).Ok? && Scan(st, pos, c, 0, false).value.1
    ensures SearchChain(st, pos, c, fuel).Ok? && LandsAlike(SearchChain(st, pos, c, fuel), SearchChain(st2, pos2, c, fuel2), e, link)
  {
    ScanGrown(st, st2, pos, pos2, c, 0, false, e, link);
    var p, p2 := Scan(st, pos, c, 0, false).value.0, Scan(st2, pos2, c, 0, false).value.0;
    assert SearchChain(st, pos, c, fuel) == Ok(p);
    assert SearchChain(st2, pos2, c, fuel2) == Ok(p2);
  }

  /** The node the search moves on to, in both files. */
  lemma NextGrown(st: Store, st2: Store, pos: Position, pos2: Position, c: string, fuel: nat, fuel2: nat,
                  e: ArchiveEntry, link: uint32)
    requires StoreGrown(st, st2, e, link) && EntryName(e) != c && fuel <= fuel2
    requires pos2.offset == pos.offset && Grown(pos.node, pos2.node, e, link)
    requires SearchChain(st, pos, c, fuel).Ok?
    requires !(Scan(st, pos, c, 0, false).Ok? && Scan(st, pos, c, 0, false).value.1)
    ensures fuel > 0 && ReadNode(st, pos.node.next).Ok? && ReadNode(st2, pos.node.next).Ok?
    ensures Grown(ReadNode(st, pos.node.next).value, ReadNode(st2, pos.node.next).value, e, link)
    ensures SearchChain(st, pos, c, fuel) == SearchChain(st, Position(pos.offset, ReadNode(st, pos.node.next).value), c, fuel - 1)
    ensures SearchChain(st2, pos2, c, fuel2) == SearchChain(st2, Position(pos2.offset, ReadNode(st2, pos.node.next).value), c, fuel2 - 1)
  {
    ScanGrown(st, st2, pos, pos2, c, 0, false, e, link);
    var p, p2 := Scan(st, pos, c, 0, false).value.0, Scan(st2, pos2, c, 0, false).value.0;
    GrownFields(pos.node, pos2.node, e, link);
    ReadGrown(st, st2, pos.node.next, e, link);
    var n, n2 := ReadNode(st, pos.node.next).value, ReadNode(st2, pos.node.next).value;
    SearchChainNext(st, pos, c, fuel, p, n);
    SearchChainNext(st2, pos2, c, fuel2, p2, n2);
  }

  /** One component over the grown file moves to the offset it moved to before. */
  lemma StepGrown(st: Store, st2: Store, pos: Position, pos2: Position, c: string, fuel: nat, fuel2: nat,
                  e: ArchiveEntry, link: uint32)
    requires StoreGrown(st, st2, e, link) && EntryName(e) != c && fuel <= fuel2
    requires pos2.offset == pos.offset && Grown(pos.node, pos2.node, e, link)
    requires Step(st, pos, c, fuel).Ok?
    ensures LandsAlike(Step(st, pos, c, fuel), Step(st2, pos2, c, fuel2), e, link)
  {
    GrownFields(pos.node, pos2.node, e, link);
    if c == ".." {
      ReadGrown(st, st2, pos.node.parent, e, link);
    } else if c != "." {
      SearchGrown(st, st2, pos, pos2, c, fuel, fuel2, e, link);
    }
  }

  /** A walk over the grown file ends at the offset it ended at before. */
  lemma {:induction false} WalkGrown(st: Store, st2: Store, pos: Position, pos2: Position, comps: seq<string>, fuel: nat, fuel2: nat,
                                      e: ArchiveEntry, link: uint32)
    requires StoreGrown(st, st2, e, link) && EntryName(e) !in comps && fuel <= fuel2
    requires pos2.offset == pos.offset && Grown(pos.node, pos2.node, e, link)
    requires Walk(st, pos, comps, fuel).Ok?
    ensures Walk(st2, pos2, comps, fuel2).Ok?
    ensures Walk(st2, pos2, comps, fuel2).value.offset == Walk(st, pos, comps, fuel).value.offset
    decreases |comps|
  {
    if comps != [] {
      StepGrown(st, st2, pos, pos2, comps[0], fuel, fuel2, e, link);
      var p, p2 := Step(st, pos, comps[0], fuel).value, Step(st2, pos2, comps[0], fuel2).value;
      assert forall x :: x in comps[1..] ==> x in comps;
      WalkGrown(st, st2, p, p2, comps[1..], fuel, fuel2, e, link);
    }
  }

  /** The components `Resolve` walks for a path. */
  function Walked(path: string): (r: seq<string>)
    ensures r == if IsAbsolute(path) then Split(path[1..], "/") else Split(path, "/")
  {
    if IsAbsolute(path) then Split(path[1..], "/") else Split(path, "/")
  }

  /** A subset has no more elements than its superset. */
  lemma {:induction false} SubsetCard<T>(a: set<T>, b: set<T>)
    requires a <= b
    ensures |a| <= |b|
    decreases a
  {
    if a != {} {
      var x :| x in a;
      SubsetCard(a - {x}, b - {x});
    }
  }

  /** A file that kept every offset and gained `k` has more fuel. */
  lemma FuelGrows(st: Store, st2: Store, k: uint32)
    requires st.Keys <= st2.Keys && k !in st && k in st2
    ensures Fuel(st) + 1 <= Fuel(st2)
  {
    SubsetCard(st.Keys + {k}, st2.Keys);
    assert |st.Keys + {k}| == |st.Keys| + 1;
  }

  /**
   * A path that resolved in the old file resolves to the same offset in the
   * grown one, from a grown copy of the root and of the cursor, when the new
   * entry's name is none of its components.
   */
  lemma ResolveGrown(st: Store, st2: Store, root: DirectoryImage, root2: DirectoryImage, cursor: Position, cursor2: Position,
                     path: string, e: ArchiveEntry, link: uint32)
    requires StoreGrown(st, st2, e, link) && Fuel(st) <= Fuel(st2) && EntryName(e) !in Walked(path)
    requires WellShaped(root) && WellShaped(cursor.node) && WellShaped(root2) && WellShaped(cursor2.node)
    requires IsAbsolute(path) ==> Grown(root, root2, e, link)
    requires !IsAbsolute(path) ==> cursor2.offset == cursor.offset && Grown(cursor.node, cursor2.node, e, link)
    requires Resolve(st, root, cursor, path).Ok?
    ensures Resolve(st2, root2, cursor2, path).Ok?
    ensures Resolve(st2, root2, cursor2, path).value.offset == Resolve(st, root, cursor, path).value.offset
  {
    if IsAbsolute(path) {
      WalkGrown(st, st2, Position(RootOffset as uint32, root), Position(RootOffset as uint32, root2),
                Split(path[1..], "/"), Fuel(st), Fuel(st2), e, link);
    } else {
      WalkGrown(st, st2, cursor, cursor2, Split(path, "/"), Fuel(st), Fuel(st2), e, link);
    }
  }

  // ---------------------------------------------------------------------
  // The listing of the chain that received the entry

  /**
   * `st2` is `st` after the entry `e` went to the end `q` of a chain, `q`
   * being the last node: into `q` itself when it has room, otherwise into a
   * new node at `link`, with the parent of `q`, that `q` now points to.
   * Blocks at offsets `st` did not have may be added besides.
   */
  predicate EntryAppended(st: Store, st2: Store, q: Position, e: ArchiveEntry, link: uint32)
  {
    WellShaped(q.node) && q.node.next == 0 && ReadNode(st, q.offset) == Ok(q.node) &&
    st.Keys <= st2.Keys && (forall k :: k in st && k != q.offset ==> st2[k] == st[k]) &&
    if HasFreeSlot(q.node) then st2[q.offset] == Node(Added(q.node, e).value)
    else link != 0 && link !in st && st2[q.offset] == Node(q.node.(next := link)) &&
         link in st2 && st2[link] == Node(Added(NewDirectory(q.node.parent), e).value)
  }

  /** The file after an appended entry is the old one grown. */
  lemma AppendedGrown(st: Store, st2: Store, q: Position, e: ArchiveEntry, link: uint32)
    requires EntryAppended(st, st2, q, e, link)
    ensures StoreGrown(st, st2, e, link)
  {
  }

  /** A node's names do not depend on its link. */
  lemma NamesRelinked(d: DirectoryImage, link: uint32)
    requires WellShaped(d)
    ensures Names(d.(next := link)) == Names(d)
  {
  }

  /**
   * Listing a chain that ends at `q`, after the entry was appended there:
   * the old listing followed by the new name.
   */
  lemma {:induction false} ListAppended(st: Store, st2: Store, p: Position, fuel: nat, lf: nat, lf2: nat,
                                         q: Position, e: ArchiveEntry, link: uint32)
    requires EntryAppended(st, st2, q, e, link)
    requires WellShaped(p.node) && ReadNode(st, p.offset) == Ok(p.node)
    requires ChainEnd(st, p, fuel) == Ok(q) && ListFrom(st, p.node, lf).Ok? && lf < lf2
    ensures ReadNode(st2, p.offset).Ok?
    ensures ListFrom(st2, ReadNode(st2, p.offset).value, lf2) == Ok(ListFrom(st, p.node, lf).value + [EntryName(e)])
    decreases fuel
  {
    if HasFreeSlot(p.node) || p.node.next == 0 {
      assert p == q;
      if HasFreeSlot(q.node) {
        NamesAdded(q.node, e);
      } else {
        var n := Added(NewDirectory(q.node.parent), e).value;
        NamesAdded(NewDirectory(q.node.parent), e);
        assert ReadNode(st2, link) == Ok(n) && Names(n) == [EntryName(e)];
        NamesRelinked(q.node, link);
      }
    } else {
      var n := ReadNode(st, p.node.next).value;
      assert p.offset != q.offset;
      ListAppended(st, st2, Position(p.node.next, n), fuel - 1, lf - 1, lf2 - 1, q, e, link);
      var rest := ListFrom(st, n, lf - 1).value;
      assert ListFrom(st, p.node, lf) == Ok(Names(p.node) + rest);
      assert Names(p.node) + (rest + [EntryName(e)]) == Names(p.node) + rest + [EntryName(e)];
    }
  }
}
