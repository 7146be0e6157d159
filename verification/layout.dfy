/**
 * The on-disk records of the archive (xArchive.h) and the in-place
 * operations of a directory node (`ArchiveDirectory` in xArchive.cpp).
 *
 * A directory node is a value `DirectoryImage` wherever it is copied
 * around (read from the file, written back, mirrored into the header);
 * the class `ArchiveDirectory` is the node object whose entry array
 * `AddEntry` and `RemoveEntry` update in place, proved against the
 * functions `Added` and `Removed` on images.
 */
module Layout {
  import opened Helpers

  // ---------------------------------------------------------------------
  // Sizes, derived from the struct declarations

  /** Every numeric field of the records is a `uint32_t`. */
  const FieldSize: nat := 4
  /** `char Name[32]` of an entry. */
  const NameSize: nat := 32
  /** `Entries[16]` of a directory node. */
  const EntryCapacity: nat := 16
  /** `ArchiveAllocationTable` is `uint32_t[1024]`. */
  const TableWordCount: nat := 1024

  /** sizeof(ArchiveEntry): the name, then offset, size and type. */
  const EntrySize: nat := NameSize + 3 * FieldSize
  /** sizeof(ArchiveDirectory): magic, parent, next, count, then the entries. */
  const DirectorySize: nat := 4 * FieldSize + EntryCapacity * EntrySize
  /** OffsetOf(ArchiveHeader, Root): after the magic, the unit size and the table. */
  const RootOffset: nat := 2 * FieldSize + TableWordCount * FieldSize
  /** sizeof(ArchiveHeader), the allocation base of every archive. */
  const HeaderSize: nat := RootOffset + DirectorySize
  /** The allocation unit `Create` uses unless told otherwise. */
  const DefaultAllocationSize: uint32 := 4096

  lemma LayoutSizes()
    ensures EntrySize == 44 && DirectorySize == 720
    ensures RootOffset == 4104 && HeaderSize == 4824
    ensures RootOffset + DirectorySize == HeaderSize
  {
  }

  // ---------------------------------------------------------------------
  // Tags

  /** ArchiveMagic: the four-character tags, byte-swapped. */
  const ArchiveMagic: bv32 := BSwap(0x41524348)    // 'ARCH'
  const DirectoryMagic: bv32 := BSwap(0x44495220)  // 'DIR '
  const FileMagic: bv32 := BSwap(0x46494C45)       // 'FILE'

  /** The tags as stored: the characters in reading order in a little-endian word. */
  lemma MagicValues()
    ensures ArchiveMagic == 0x48435241 && DirectoryMagic == 0x20524944 && FileMagic == 0x454C4946
    ensures ArchiveMagic != DirectoryMagic && DirectoryMagic != FileMagic && ArchiveMagic != FileMagic
  {
  }

  /** ArchiveEntryType. */
  const DirectoryType: uint32 := 0
  const FileType: uint32 := 1
  /** `ArchiveEntryType(-1)`, the type of a default-constructed entry. */
  const NoType: uint32 := 0xFFFF_FFFF

  // ---------------------------------------------------------------------
  // Entries

  /** ArchiveEntry: a fixed 32-character name and three 32-bit fields. */
  datatype ArchiveEntry = ArchiveEntry(name: string, offset: uint32, size: uint32, entryType: uint32)

  /** A name buffer holding only NUL characters. */
  function NulName(): (r: string)
    ensures |r| == NameSize && forall j :: 0 <= j < NameSize ==> r[j] == '\0'
  {
    seq(NameSize, _ => '\0')
  }

  /** The default entry constructor: an all-NUL name, zero offset and size, no type. */
  const DefaultEntry: ArchiveEntry := ArchiveEntry(NulName(), 0, 0, NoType)

  /** An entry whose bytes were all cleared by `memset`. */
  const ZeroEntry: ArchiveEntry := ArchiveEntry(NulName(), 0, 0, 0)

  /** The name an entry shows to `std::string` comparisons and listings. */
  function EntryName(e: ArchiveEntry): string
  {
    CStr(e.name)
  }

  /** The first NUL of `s + [NUL] + t` is the first NUL of `s`, or the appended one. */
  lemma {:induction false} NulIndexStore(s: string, t: string)
    ensures NulIndex(s + ['\0'] + t) == NulIndex(s)
  {
    if s != [] && s[0] != '\0' {
      assert (s + ['\0'] + t)[1..] == s[1..] + ['\0'] + t;
      NulIndexStore(s[1..], t);
    }
  }

  /**
   * The entry constructor: stores the name with StringToArray into a
   * cleared name buffer, which fails with "Insufficient buffer" when the
   * name and its terminator do not fit in 32 characters.
   */
  function NewEntry(name: string, offset: uint32, size: uint32, entryType: uint32): (r: Result<ArchiveEntry>)
    ensures r.Ok? <==> |name| < NameSize
    ensures r.Err? ==> r.error == InsufficientBuffer
    ensures r.Ok? ==> |r.value.name| == NameSize && EntryName(r.value) == CStr(name)
    ensures r.Ok? ==> r.value.offset == offset && r.value.size == size && r.value.entryType == entryType
  {
    if |name| + 1 > NameSize then Err(InsufficientBuffer)
    else
      var stored := StoreCString(NulName(), name);
      assert stored == name + ['\0'] + NulName()[|name| + 1..] by {
        if |name| + 1 == NameSize {
          assert stored == (name + ['\0'] + [])[NameSize - 1 := '\0'];
        }
      }
      NulIndexStore(name, NulName()[|name| + 1..]);
      assert CStr(name) == name[..NulIndex(name)];
      Ok(ArchiveEntry(stored, offset, size, entryType))
  }

  /** ArchiveDirectoryEntry: a directory entry records the size of a directory node. */
  function DirectoryEntry(name: string, offset: uint32): (r: Result<ArchiveEntry>)
    ensures r.Ok? <==> |name| < NameSize
    ensures r.Err? ==> r.error == InsufficientBuffer
    ensures r.Ok? ==> (EntryName(r.value) == CStr(name) && r.value.offset == offset &&
                       r.value.size == DirectorySize && r.value.entryType == DirectoryType)
  {
    NewEntry(name, offset, DirectorySize as uint32, DirectoryType)
  }

  /** ArchiveFileEntry: a file entry records the length of its data. */
  function FileEntry(name: string, offset: uint32, size: uint32): (r: Result<ArchiveEntry>)
    ensures r.Ok? <==> |name| < NameSize
    ensures r.Err? ==> r.error == InsufficientBuffer
    ensures r.Ok? ==> (EntryName(r.value) == CStr(name) && r.value.offset == offset &&
                       r.value.size == size && r.value.entryType == FileType)
  {
    NewEntry(name, offset, size, FileType)
  }

  // ---------------------------------------------------------------------
  // Directory nodes as values

  /** ArchiveDirectory as stored: magic, parent offset, next offset, count, 16 entry slots. */
  datatype DirectoryImage = DirectoryImage(
    magic: bv32,
    parent: uint32,
    next: uint32,
    numEntries: uint32,
    entries: seq<ArchiveEntry>)

  /** Sixteen slots, of which the first `numEntries` are in use. */
  predicate WellShaped(d: DirectoryImage)
  {
    |d.entries| == EntryCapacity && d.numEntries <= EntryCapacity
  }

  /** The entries in use, in slot order. */
  function Visible(d: DirectoryImage): seq<ArchiveEntry>
    requires WellShaped(d)
  {
    d.entries[..d.numEntries]
  }

  /** The directory constructor: a tagged, empty, unlinked node with cleared slots. */
  function NewDirectory(parent: uint32): (d: DirectoryImage)
    ensures WellShaped(d) && Visible(d) == []
    ensures d.magic == DirectoryMagic && d.parent == parent && d.next == 0
    ensures forall k :: 0 <= k < EntryCapacity ==> d.entries[k] == ZeroEntry
  {
    DirectoryImage(DirectoryMagic, parent, 0, 0, seq(EntryCapacity, _ => ZeroEntry))
  }

  /** HasFreeSpace on a value. */
  function HasFreeSlot(d: DirectoryImage): (r: bool)
    requires WellShaped(d)
    ensures r <==> |Visible(d)| < EntryCapacity
  {
    d.numEntries < EntryCapacity as uint32
  }

  /**
   * AddEntry on a value: "Out of memory" when all 16 slots are in use;
   * otherwise the entry takes the first free slot and nothing else changes.
   */
  function Added(d: DirectoryImage, e: ArchiveEntry): (r: Result<DirectoryImage>)
    requires WellShaped(d)
    ensures r.Ok? <==> HasFreeSlot(d)
    ensures r.Err? ==> r.error == OutOfMemory
    ensures r.Ok? ==> WellShaped(r.value) && Visible(r.value) == Visible(d) + [e]
    ensures r.Ok? ==> r.value.entries[d.numEntries + 1..] == d.entries[d.numEntries + 1..]
    ensures r.Ok? ==> r.value.magic == d.magic && r.value.parent == d.parent && r.value.next == d.next
  {
    if d.numEntries == EntryCapacity as uint32 then Err(OutOfMemory)
    else
      var r := d.(entries := d.entries[d.numEntries := e], numEntries := d.numEntries + 1);
      assert Visible(r) == Visible(d) + [e];
      Ok(r)
  }

  /**
   * The slots after RemoveEntry's `memmove` of `count - n` entries one
   * place down from `n + 1`. The last of them is read from past the
   * sixteen slots when all are in use; the model then keeps that slot.
   */
  function Shifted(s: seq<ArchiveEntry>, n: nat, count: nat): (r: seq<ArchiveEntry>)
    ensures |r| == |s|
  {
    seq(|s|, k requires 0 <= k < |s| => if n <= k < count && k + 1 < |s| then s[k + 1] else s[k])
  }

  /**
   * RemoveEntry on a value: fails on an empty node and on an index not in
   * use; otherwise the entries in use are the old ones without entry `n`,
   * in the same order.
   */
  function Removed(d: DirectoryImage, n: uint32): (r: Result<DirectoryImage>)
    requires WellShaped(d)
    ensures r.Ok? <==> n < d.numEntries
    ensures d.numEntries == 0 ==> r == Err(NoEntries)
    ensures 0 < d.numEntries <= n ==> r == Err(IndexOutOfRange)
    ensures r.Ok? ==> WellShaped(r.value) && Visible(r.value) == Visible(d)[..n] + Visible(d)[n + 1..]
    ensures r.Ok? && d.numEntries < EntryCapacity ==> r.value.entries[d.numEntries - 1] == d.entries[d.numEntries]
    ensures r.Ok? ==> r.value.magic == d.magic && r.value.parent == d.parent && r.value.next == d.next
  {
    if d.numEntries == 0 then Err(NoEntries)
    else if n >= d.numEntries then Err(IndexOutOfRange)
    else
      var r := d.(entries := Shifted(d.entries, n as nat, d.numEntries as nat), numEntries := d.numEntries - 1);
      assert Visible(r) == Visible(d)[..n] + Visible(d)[n + 1..];
      Ok(r)
  }

  /** GetEntry on a value: the entry in slot `n` when that slot is in use. */
  function EntryAt(d: DirectoryImage, n: uint32): (r: Result<ArchiveEntry>)
    requires WellShaped(d)
    ensures r.Ok? <==> n < d.numEntries
    ensures r.Err? ==> r.error == IndexOutOfRange
    ensures r.Ok? ==> r.value == Visible(d)[n]
  {
    if n >= d.numEntries then Err(IndexOutOfRange) else Ok(d.entries[n])
  }

  /** Removing the entry just added gives back the entries in use before. */
  lemma AddThenRemoveLast(d: DirectoryImage, e: ArchiveEntry)
    requires WellShaped(d) && HasFreeSlot(d)
    ensures Removed(Added(d, e).value, d.numEntries).Ok?
    ensures Visible(Removed(Added(d, e).value, d.numEntries).value) == Visible(d)
  {
    var a := Added(d, e).value;
    assert Visible(a)[..d.numEntries] == Visible(d);
  }

  /** The entry just added is found at the index that was the count. */
  lemma AddThenGet(d: DirectoryImage, e: ArchiveEntry)
    requires WellShaped(d) && HasFreeSlot(d)
    ensures EntryAt(Added(d, e).value, d.numEntries) == Ok(e)
  {
    var a := Added(d, e).value;
    assert Visible(a)[d.numEntries] == e;
  }

  /** After a removal, slot `k >= n` in use holds the entry that was one slot further on. */
  lemma RemoveThenGet(d: DirectoryImage, n: uint32, k: uint32)
    requires WellShaped(d) && n <= k && k + 1 < d.numEntries
    ensures EntryAt(Removed(d, n).value, k) == EntryAt(d, k + 1)
  {
    var r := Removed(d, n).value;
    assert Visible(r)[k] == (Visible(d)[..n] + Visible(d)[n + 1..])[k] == Visible(d)[k + 1];
  }

  // ---------------------------------------------------------------------
  // Directory nodes as objects

  class ArchiveDirectory {
    var magic: bv32
    var parent: uint32
    var next: uint32
    var numEntries: uint32
    /** `Entries[16]`, updated in place. */
    const entries: array<ArchiveEntry>

    predicate Valid()
      reads this
    {
      entries.Length == EntryCapacity && numEntries <= EntryCapacity
    }

    /** The node's value, as it would be copied or written to the file. */
    function Image(): (d: DirectoryImage)
      reads this, entries
      requires Valid()
      ensures WellShaped(d)
    {
      DirectoryImage(magic, parent, next, numEntries, entries[..])
    }

    /** The directory constructor. */
    constructor (parent: uint32)
      ensures Valid() && fresh(entries) && Image() == NewDirectory(parent)
    {
      magic := DirectoryMagic;
      this.parent := parent;
      next := 0;
      numEntries := 0;
      entries := new ArchiveEntry[EntryCapacity](_ => ZeroEntry);
      new;
      assert entries[..] == NewDirectory(parent).entries;
    }

    /** A node object holding a copy of a node read from the file. */
    constructor Load(d: DirectoryImage)
      requires WellShaped(d)
      ensures Valid() && fresh(entries) && Image() == d
    {
      magic := d.magic;
      parent := d.parent;
      next := d.next;
      numEntries := d.numEntries;
      entries := new ArchiveEntry[EntryCapacity](k requires 0 <= k < EntryCapacity => d.entries[k]);
      new;
      assert entries[..] == d.entries;
    }

    /** HasFreeSpace. */
    function HasFreeSpace(): (r: bool)
      reads this, entries
      requires Valid()
      ensures r == HasFreeSlot(Image())
    {
      numEntries < EntryCapacity as uint32
    }

    /** GetEntry. */
    function GetEntry(n: uint32): (r: Result<ArchiveEntry>)
      reads this, entries
      requires Valid()
      ensures r == EntryAt(Image(), n)
    {
      if n >= numEntries then Err(IndexOutOfRange) else Ok(entries[n])
    }

    /** AddEntry: stores the entry in the first free slot and counts it. */
    method AddEntry(e: ArchiveEntry) returns (r: Result<()>)
      requires Valid()
      modifies this, entries
      ensures Valid()
      ensures match Added(old(Image()), e)
        case Ok(d) => r == Ok(()) && Image() == d
        case Err(err) => r == Err(err) && Image() == old(Image())
    {
      if numEntries == EntryCapacity as uint32 {
        return Err(OutOfMemory);
      }
      entries[numEntries] := e;
      numEntries := numEntries + 1;
      r := Ok(());
    }

    /**
     * RemoveEntry: checks the count and the index, moves the entries after
     * slot `n` one place down (the `memmove`), then drops the count.
     */
    method RemoveEntry(n: uint32) returns (r: Result<()>)
      requires Valid()
      modifies this, entries
      ensures Valid()
      ensures match Removed(old(Image()), n)
        case Ok(d) => r == Ok(()) && Image() == d
        case Err(err) => r == Err(err) && Image() == old(Image())
    {
      if numEntries == 0 {
        return Err(NoEntries);
      }
      if n >= numEntries {
        return Err(IndexOutOfRange);
      }
      ghost var s := entries[..];
      var k := n;
      while k < numEntries && k + 1 < EntryCapacity as uint32
        invariant n <= k <= numEntries
        invariant numEntries == old(numEntries) && magic == old(magic)
        invariant parent == old(parent) && next == old(next)
        invariant forall j :: n <= j < k ==> j + 1 < |s| && entries[j] == s[j + 1]
        invariant forall j :: 0 <= j < EntryCapacity && !(n <= j < k) ==> entries[j] == s[j]
      {
        entries[k] := entries[k + 1];
        k := k + 1;
      }
      numEntries := numEntries - 1;
      r := Ok(());
      assert entries[..] == Shifted(s, n as nat, old(numEntries) as nat);
    }
  }
}
