/**
 * The bitmap block allocator of the archive (xArchiveAllocator.cpp).
 *
 * The allocation table describes `TableWords` words of `WordBits` bits;
 * bit `s` of word `b` records whether allocation unit `WordBits*b + s` is in
 * use. The model keeps one flag per allocation unit, indexed by that unit
 * number, and walks it with the source's own word/bit counters. Every
 * mutating operation is stated as "exactly these units become used (or
 * free), every other unit keeps its flag".
 *
 * Index conventions of the source, kept as written: `Allocate` returns the
 * byte offset `base + i*unit` of the run found at unit `i`, while `Free`,
 * `_ExpandAllocation` and `_ShrinkAllocation` use their `offset` argument
 * (plus `k*unit`) directly as a unit number. The two agree only when
 * `base == 0` and `unit == 1`.
 *
 * The two owner callbacks (flush the table to the file, copy an entry that
 * moved) are recorded in an event log that the owning archive interprets.
 */
module Allocator {
  import opened Helpers

  /** The number of words in the header's allocation table (xArchive.h). */
  const TableWords: nat := 1024

  /** `BitSizeOfElement` of the table: the bits per table word. */
  const WordBits: nat := 32

  /** The number of allocation units the table can describe. */
  const TableUnits: nat := 32768

  // ---------------------------------------------------------------------
  // Runs of units

  /** Units `lo..lo+n-1` are all inside the table and all free. */
  predicate RunClear(t: seq<bool>, lo: nat, n: nat)
  {
    lo + n <= |t| && forall g :: lo <= g < lo + n ==> !t[g]
  }

  /** Units `lo..lo+n-1` are all inside the table and all in use. */
  predicate RunSet(t: seq<bool>, lo: nat, n: nat)
  {
    lo + n <= |t| && forall g :: lo <= g < lo + n ==> t[g]
  }

  /** `t1` is `t0` with units `lo..hi-1` marked in use and nothing else changed. */
  predicate SetsRange(t0: seq<bool>, t1: seq<bool>, lo: nat, hi: nat)
  {
    |t1| == |t0| && forall g :: 0 <= g < |t0| ==> t1[g] == ((lo <= g < hi) || t0[g])
  }

  /** `t1` is `t0` with units `lo..hi-1` marked free and nothing else changed. */
  predicate ClearsRange(t0: seq<bool>, t1: seq<bool>, lo: nat, hi: nat)
  {
    |t1| == |t0| && forall g :: 0 <= g < |t0| ==> t1[g] == (!(lo <= g < hi) && t0[g])
  }

  /**
   * `t1` is `t0` after a relocation: units `i..i+n-1` marked in use, then
   * units `o..o+m-1` marked free.
   */
  predicate MovesRun(t0: seq<bool>, t1: seq<bool>, i: nat, n: nat, o: nat, m: nat)
  {
    |t1| == |t0| &&
    forall g :: 0 <= g < |t0| ==> t1[g] == (!(o <= g < o + m) && ((i <= g < i + n) || t0[g]))
  }

  /** Marking a run and then freeing another is a relocation. */
  lemma SetsThenClears(t0: seq<bool>, t1: seq<bool>, t2: seq<bool>, i: nat, n: nat, o: nat, m: nat)
    requires SetsRange(t0, t1, i, i + n) && ClearsRange(t1, t2, o, o + m)
    ensures MovesRun(t0, t2, i, n, o, m)
  {
  }

  // ---------------------------------------------------------------------
  // The number of units in use

  /** How many units the table marks in use. */
  function Count(t: seq<bool>): (r: nat)
    ensures r <= |t|
  {
    if t == [] then 0 else Count(t[..|t| - 1]) + (if t[|t| - 1] then 1 else 0)
  }

  /** How many of the units `lo..hi-1` lie below `k`. */
  function Below(lo: nat, hi: nat, k: nat): nat
    requires lo <= hi
  {
    if k <= lo then 0 else if k >= hi then hi - lo else k - lo
  }

  /**
   * `t1` is `t0` with units `lo..hi-1` turned from free to in use: among the
   * first `k` units it has one more in use for each of them below `k`.
   */
  lemma {:induction false} CountFlipped(t0: seq<bool>, t1: seq<bool>, lo: nat, hi: nat, k: nat)
    requires |t1| == |t0| && lo <= hi <= |t0| && k <= |t0|
    requires forall g :: 0 <= g < |t0| && !(lo <= g < hi) ==> t1[g] == t0[g]
    requires forall g :: lo <= g < hi ==> t1[g] && !t0[g]
    ensures Count(t1[..k]) == Count(t0[..k]) + Below(lo, hi, k)
  {
    if k > 0 {
      CountFlipped(t0, t1, lo, hi, k - 1);
      assert t0[..k][..k - 1] == t0[..k - 1];
      assert t1[..k][..k - 1] == t1[..k - 1];
    }
  }

  /** Marking a free run of `n` units in use raises the count by exactly `n`. */
  lemma CountSetsRange(t0: seq<bool>, t1: seq<bool>, lo: nat, n: nat)
    requires RunClear(t0, lo, n) && SetsRange(t0, t1, lo, lo + n)
    ensures Count(t1) == Count(t0) + n
  {
    CountFlipped(t0, t1, lo, lo + n, |t0|);
    assert t0[..|t0|] == t0 && t1[..|t1|] == t1;
  }

  /** Freeing a run of `n` units in use lowers the count by exactly `n`. */
  lemma CountClearsRange(t0: seq<bool>, t1: seq<bool>, lo: nat, n: nat)
    requires RunSet(t0, lo, n) && ClearsRange(t0, t1, lo, lo + n)
    ensures Count(t1) + n == Count(t0)
  {
    CountFlipped(t1, t0, lo, lo + n, |t0|);
    assert t0[..|t0|] == t0 && t1[..|t1|] == t1;
  }

  /** A table with no unit in use counts none. */
  lemma {:induction false} CountNone(t: seq<bool>)
    requires forall g :: 0 <= g < |t| ==> !t[g]
    ensures Count(t) == 0
  {
    if t != [] {
      CountNone(t[..|t| - 1]);
    }
  }

  /**
   * The count is not the total size of the live runs: with the archive's
   * settings, `Free(4824, 1)` after the first allocation frees nothing, and
   * the count stays at one although the only run was given back.
   */
  lemma FreeKeepsCount(t0: seq<bool>, t1: seq<bool>, t2: seq<bool>)
    requires |t0| == TableUnits && forall g :: 0 <= g < |t0| ==> !t0[g]
    requires SetsRange(t0, t1, 0, Sectors(1, 4096))
    requires ClearsRange(t1, t2, AllocOffset(4824, 4096, 0), AllocOffset(4824, 4096, 0) + Sectors(1, 4096))
    ensures Count(t0) == 0 && Count(t1) == 1 && Count(t2) == 1
  {
    assert Sectors(1, 4096) == 1 && AllocOffset(4824, 4096, 0) == 4824;
    CountNone(t0);
    CountSetsRange(t0, t1, 0, 1);
    assert !t1[4824];
    assert t2 == t1;
  }

  // ---------------------------------------------------------------------
  // Sizes and offsets

  /**
   * `((size - 1) / unit) + 1` evaluated in `uint32_t`: the number of
   * allocation units a request of `size` bytes takes. For `size == 0` the
   * subtraction wraps around.
   */
  function Sectors(size: uint32, unit: uint32): uint32
    requires unit > 0
  {
    (((size - 1) % TwoTo32) / unit + 1) % TwoTo32
  }

  lemma {:induction false} MulAtLeast(a: nat, b: nat)
    requires b >= 1
    ensures a <= a * b
    decreases b
  {
    if b > 1 {
      MulAtLeast(a, b - 1);
      assert a * b == a * (b - 1) + a;
    }
  }

  /** Products of naturals grow with both factors. */
  lemma MulMonotone(a: nat, b: nat, c: nat, d: nat)
    requires a <= b && c <= d
    ensures a * c <= b * d
  {
    assert a * c <= b * c;
    assert b * c <= b * d;
  }

  /** For a non-empty request nothing wraps around. */
  lemma SectorsNoWrap(size: uint32, unit: uint32)
    requires unit > 0 && size >= 1
    ensures Sectors(size, unit) == (size - 1) / unit + 1
  {
    var s1: nat := size - 1;
    assert s1 % TwoTo32 == s1;
    MulAtLeast(s1 / unit, unit);
    assert s1 / unit * unit <= s1;
  }

  /** For a non-empty request, `Sectors` is the ceiling of `size / unit`. */
  lemma SectorsIsCeiling(size: uint32, unit: uint32)
    requires unit > 0 && size >= 1
    ensures Sectors(size, unit) >= 1
    ensures (Sectors(size, unit) - 1) * unit < size <= Sectors(size, unit) * unit
  {
    SectorsNoWrap(size, unit);
    var q: nat, r: nat := (size - 1) / unit, (size - 1) % unit;
    assert size - 1 == q * unit + r && r < unit;
    assert (q + 1) * unit == q * unit + unit;
  }

  /**
   * A request of zero bytes wraps around: with one-byte units it asks for
   * no units at all, with the default 4096-byte units for 2^20 units, more
   * than the table holds.
   */
  lemma ZeroSizeWraps()
    ensures Sectors(0, 1) == 0
    ensures Sectors(0, 4096) == 0x10_0000 && Sectors(0, 4096) > TableUnits
  {
  }

  /**
   * Above 128 KiB the offset of a unit wraps around: with 2^31-byte units,
   * unit 2 gets the header size 4824 as its offset, the offset of unit 0.
   */
  lemma LargeUnitWraps()
    ensures AllocOffset(4824, 0x8000_0000, 2) == AllocOffset(4824, 0x8000_0000, 0) == 4824
  {
  }

  /** `base + i*unit` evaluated in `uint32_t`: the byte offset `Allocate` returns for unit `i`. */
  function AllocOffset(base: uint32, unit: uint32, i: nat): uint32
  {
    (base + i * unit) % TwoTo32
  }

  /**
   * Given the offset `Allocate` returned for unit `i`, `RunPosition` is the
   * offset of unit `i + k`: a byte offset, where expansion and shrinking
   * expect a unit number.
   */
  lemma RunPositionIsOffset(base: uint32, unit: uint32, i: nat, k: uint32)
    ensures RunPosition(AllocOffset(base, unit, i), k, unit) == AllocOffset(base, unit, i + k as nat)
  {
    var a := base as nat + i * unit as nat;
    var y := k as nat * unit as nat;
    ModAddLeft(a, y);
    assert (i + k as nat) * unit as nat == i * unit as nat + y;
  }

  /** Reducing the left operand first does not change a sum modulo 2^32. */
  lemma ModAddLeft(a: nat, y: nat)
    ensures (a % TwoTo32 + y) % TwoTo32 == (a + y) % TwoTo32
  {
    var q := a / TwoTo32;
    assert a == q * TwoTo32 + a % TwoTo32;
    assert a + y == q * TwoTo32 + (a % TwoTo32 + y);
  }

  /** `offset + k*unit` evaluated in `uint32_t`: the unit number expansion and shrinking start at. */
  function RunPosition(offset: uint32, k: uint32, unit: uint32): uint32
  {
    (offset + k * unit) % TwoTo32
  }

  // ---------------------------------------------------------------------
  // First fit

  /** The lowest unit at or after `i` that starts a free run of `n` units. */
  function FirstFitFrom(t: seq<bool>, n: nat, i: nat): (r: Option<nat>)
    ensures r.Some? ==> i <= r.value && RunClear(t, r.value, n)
    ensures r.Some? ==> forall j :: i <= j < r.value ==> !RunClear(t, j, n)
    ensures r.None? ==> forall j :: i <= j ==> !RunClear(t, j, n)
    decreases |t| - i
  {
    if i + n > |t| then None
    else if RunClear(t, i, n) then Some(i)
    else FirstFitFrom(t, n, i + 1)
  }

  /** The lowest unit that starts a free run of `n` units, if there is one. */
  function FirstFit(t: seq<bool>, n: nat): (r: Option<nat>)
    ensures r.Some? ==> RunClear(t, r.value, n) && forall j :: 0 <= j < r.value ==> !RunClear(t, j, n)
    ensures r.None? ==> forall j :: 0 <= j ==> !RunClear(t, j, n)
  {
    FirstFitFrom(t, n, 0)
  }

  /** A free run with no free run of the same length before it is the first fit. */
  lemma FirstFitIs(t: seq<bool>, n: nat, i: nat)
    requires RunClear(t, i, n)
    requires forall j: nat :: j < i ==> !RunClear(t, j, n)
    ensures FirstFit(t, n) == Some(i)
  {
  }

  /** When no run starting before `s` fits and none can start at or after it, nothing fits. */
  lemma FirstFitNone(t: seq<bool>, n: nat, s: nat)
    requires forall j: nat :: j < s ==> !RunClear(t, j, n)
    requires s + n > |t|
    ensures FirstFit(t, n) == None
  {
  }

  /** A unit in use at `g` rules out every run of `n` that starts in `lo..g` and reaches it. */
  lemma UnitInUseBlocksRuns(t: seq<bool>, n: nat, lo: nat, g: nat)
    requires g < |t| && t[g] && lo <= g && g < lo + n
    requires forall j: nat :: j < lo ==> !RunClear(t, j, n)
    ensures forall j: nat :: j < g + 1 ==> !RunClear(t, j, n)
  {
    forall j: nat | lo <= j < g + 1
      ensures !RunClear(t, j, n)
    {
      assert j <= g < j + n;
    }
  }

  /**
   * While a relocation searches for its new run the old run is still marked
   * in use, so the new run never overlaps it.
   */
  lemma RelocationDisjoint(t: seq<bool>, o: nat, m: nat, n: nat)
    requires RunSet(t, o, m) && FirstFit(t, n).Some?
    ensures var i := FirstFit(t, n).value; n == 0 || m == 0 || i + n <= o || o + m <= i
  {
    var i := FirstFit(t, n).value;
    if n > 0 && m > 0 {
      // the first unit of each run is outside the other run
      assert t[o] && !t[i];
    }
  }

  /**
   * With `base == 0` and `unit == 1` the offset `Allocate` returns is the
   * unit number of its run, so freeing that offset with the same size clears
   * exactly the run that was set, and the table is as before.
   */
  lemma {:induction false} AllocateFreeRoundTrip(t0: seq<bool>, t1: seq<bool>, t2: seq<bool>, size: uint32)
    requires |t0| == TableUnits && size >= 1 && FirstFit(t0, Sectors(size, 1)).Some?
    requires var i := FirstFit(t0, Sectors(size, 1)).value;
      SetsRange(t0, t1, i, i + Sectors(size, 1)) &&
      ClearsRange(t1, t2, AllocOffset(0, 1, i), AllocOffset(0, 1, i) + Sectors(size, 1))
    ensures t2 == t0
  {
    var n := Sectors(size, 1);
    var i := FirstFit(t0, n).value;
    assert AllocOffset(0, 1, i) == i;
    forall g | 0 <= g < |t0|
      ensures t2[g] == t0[g]
    {
      if i <= g < i + n {
        assert !t0[g];
      }
    }
  }

  /**
   * Expanding a run in place and then shrinking it back to its old size
   * marks and then frees the same units, so the table is as before.
   */
  lemma ExpandShrinkRoundTrip(t0: seq<bool>, t1: seq<bool>, t2: seq<bool>, offset: uint32, oldSize: uint32, newSize: uint32, unit: uint32)
    requires unit > 0 && Sectors(newSize, unit) > Sectors(oldSize, unit)
    requires var p, n := RunPosition(offset, Sectors(oldSize, unit), unit), Sectors(newSize, unit) - Sectors(oldSize, unit);
      RunClear(t0, p, n) && SetsRange(t0, t1, p, p + n) && ClearsRange(t1, t2, p, p + n)
    ensures t2 == t0
  {
    var p, n := RunPosition(offset, Sectors(oldSize, unit), unit), Sectors(newSize, unit) - Sectors(oldSize, unit);
    forall g | 0 <= g < |t0|
      ensures t2[g] == t0[g]
    {
      if p <= g < p + n {
        assert !t0[g];
      }
    }
  }

  /**
   * With the archive's own settings (base 4824, unit 4096) the first
   * allocation in an empty table returns offset 4824, and `Free(4824, ...)`
   * frees unit 4824 instead of unit 0: the conventions disagree.
   */
  lemma FreeMissesAllocatedUnit(t0: seq<bool>, t1: seq<bool>, t2: seq<bool>)
    requires |t0| == TableUnits && forall g :: 0 <= g < |t0| ==> !t0[g]
    requires SetsRange(t0, t1, 0, Sectors(1, 4096))
    requires ClearsRange(t1, t2, AllocOffset(4824, 4096, 0), AllocOffset(4824, 4096, 0) + Sectors(1, 4096))
    ensures FirstFit(t0, Sectors(1, 4096)) == Some(0)
    ensures AllocOffset(4824, 4096, 0) == 4824
    ensures t2[0] && t2 != t0
  {
    assert RunClear(t0, 0, 1);
    FirstFitIs(t0, 1, 0);
    assert t1[0];
  }

  /** In a table with no unit in use every request that fits starts at unit 0. */
  lemma EmptyTableFirstFit(t: seq<bool>, n: nat)
    requires forall g :: 0 <= g < |t| ==> !t[g]
    requires n <= |t|
    ensures FirstFit(t, n) == Some(0)
  {
    assert RunClear(t, 0, n);
    FirstFitIs(t, n, 0);
  }

  // ---------------------------------------------------------------------
  // The allocator

  /** What the allocator asks of its owner (AllocatorCallbacks in xArchiveAllocator.h). */
  datatype Event =
    | FlushTable                                                     // pfnFlushAllocationTable
    | CopyEntry(oldOffset: uint32, newOffset: uint32, size: uint32)  // pfnReallocateEntry

  class ArchiveAllocator {
    /** The owner's allocation table, one flag per unit, updated in place. */
    const table: array<bool>
    /** m_AllocationSize: bytes per allocation unit. */
    const unit: uint32
    /** m_AllocationBase: the byte offset of unit 0. */
    var base: uint32
    /** The callbacks invoked so far, oldest first. */
    var events: seq<Event>

    predicate Valid()
      reads this
    {
      table.Length == TableUnits && unit > 0
    }

    constructor (table: array<bool>, unit: uint32)
      requires table.Length == TableUnits && unit > 0
      ensures Valid()
      ensures this.table == table && this.unit == unit && base == 0 && events == []
    {
      this.table := table;
      this.unit := unit;
      base := 0;
      events := [];
    }

    method SetAllocationBase(base: uint32)
      modifies this
      ensures this.base == base && events == old(events)
    {
      this.base := base;
    }

    function GetAllocationBase(): (r: uint32)
      reads this
      ensures r == base
    {
      base
    }

    // -------------------------------------------------------------------
    // The table loops

    /**
     * The scan of `_Allocate`: walks the table word by word and bit by bit,
     * restarting the candidate run after every unit in use, until `n` free
     * units follow the candidate start. Where the source would go on to read
     * the word past the table, the model reports no fit.
     */
    method FindFreeRun(n: nat) returns (r: Option<nat>)
      requires Valid() && n >= 1
      ensures r == FirstFit(table[..], n)
    {
      ghost var t := table[..];
      var block, sector := 0, 0;
      var free, freeBlock, freeSector := 0, 0, 0;
      while block < TableWords
        invariant block <= TableWords && sector <= WordBits && freeSector <= WordBits
        invariant WordBits * block + sector <= TableUnits
        invariant free < n
        invariant WordBits * freeBlock + freeSector + free == WordBits * block + sector
        invariant forall g :: WordBits * freeBlock + freeSector <= g < WordBits * block + sector ==> !t[g]
        invariant forall j: nat :: j < WordBits * freeBlock + freeSector ==> !RunClear(t, j, n)
        decreases TableWords - block, WordBits - sector
      {
        if sector == WordBits {
          block, sector := block + 1, 0;
          if block == TableWords {
            break;
          }
        }
        while sector < WordBits && table[WordBits * block + sector]
          invariant sector <= WordBits && freeSector <= WordBits && free < n
          invariant WordBits * freeBlock + freeSector + free == WordBits * block + sector
          invariant forall g :: WordBits * freeBlock + freeSector <= g < WordBits * block + sector ==> !t[g]
          invariant forall j: nat :: j < WordBits * freeBlock + freeSector ==> !RunClear(t, j, n)
        {
          UnitInUseBlocksRuns(t, n, WordBits * freeBlock + freeSector, WordBits * block + sector);
          sector := sector + 1;
          free := 0;
          freeBlock, freeSector := block, sector;
        }
        ghost var sector0, free0 := sector, free;
        while sector < WordBits && free < n && !table[WordBits * block + sector]
          invariant sector0 <= sector <= WordBits && free <= n
          invariant free - free0 == sector - sector0
          invariant WordBits * freeBlock + freeSector + free == WordBits * block + sector
          invariant forall g :: WordBits * freeBlock + freeSector <= g < WordBits * block + sector ==> !t[g]
        {
          sector := sector + 1;
          free := free + 1;
        }
        if free == n {
          var start := WordBits * freeBlock + freeSector;
          FirstFitIs(t, n, start);
          return Some(start);
        }
      }
      FirstFitNone(t, n, WordBits * freeBlock + freeSector);
      return None;
    }

    /**
     * The marking loop of `_Allocate` and `_ExpandAllocation`: marks units
     * `p..p+n-1` in use, stepping to the next word after its last bit.
     */
    method SetRun(p: nat, n: nat)
      requires Valid() && p + n <= TableUnits
      modifies table
      ensures SetsRange(old(table[..]), table[..], p, p + n)
    {
      var block, sector := p / WordBits, p % WordBits;
      var k := 0;
      while k < n
        invariant k <= n && sector <= WordBits
        invariant WordBits * block + sector == p + k
        invariant SetsRange(old(table[..]), table[..], p, p + k)
      {
        if sector == WordBits {
          block, sector := block + 1, 0;
        }
        table[WordBits * block + sector] := true;
        sector, k := sector + 1, k + 1;
      }
    }

    /**
     * The clearing loop of `_Free` and `_ShrinkAllocation`: marks units
     * `p..p+n-1` free, stepping to the next word after its last bit.
     */
    method ClearRun(p: nat, n: nat)
      requires Valid() && p + n <= TableUnits
      modifies table
      ensures ClearsRange(old(table[..]), table[..], p, p + n)
    {
      var block, sector := p / WordBits, p % WordBits;
      var k := 0;
      while k < n
        invariant k <= n && sector <= WordBits
        invariant WordBits * block + sector == p + k
        invariant ClearsRange(old(table[..]), table[..], p, p + k)
      {
        if sector == WordBits {
          block, sector := block + 1, 0;
        }
        table[WordBits * block + sector] := false;
        sector, k := sector + 1, k + 1;
      }
    }

    /** The checking loop of `_ExpandAllocation`: are units `p..p+n-1` all free? */
    method RunIsClear(p: nat, n: nat) returns (r: bool)
      requires Valid() && p + n <= TableUnits
      ensures r <==> RunClear(table[..], p, n)
    {
      var block, sector := p / WordBits, p % WordBits;
      var k := 0;
      while k < n
        invariant k <= n && sector <= WordBits
        invariant WordBits * block + sector == p + k
        invariant forall g :: p <= g < p + k ==> !table[g]
      {
        if sector == WordBits {
          block, sector := block + 1, 0;
        }
        if table[WordBits * block + sector] {
          return false;
        }
        sector, k := sector + 1, k + 1;
      }
      return true;
    }

    // -------------------------------------------------------------------
    // The operations

    /**
     * `_Allocate`: marks the first free run of `Sectors(size)` units and
     * returns its byte offset, or fails with "Out of memory" and leaves the
     * table as it was.
     */
    method AllocateRun(size: uint32) returns (r: Result<uint32>)
      requires Valid() && Sectors(size, unit) >= 1
      modifies table
      ensures var n := Sectors(size, unit);
        match FirstFit(old(table[..]), n)
        case Some(i) => r == Ok(AllocOffset(base, unit, i)) && SetsRange(old(table[..]), table[..], i, i + n)
        case None => r == Err(OutOfMemory) && table[..] == old(table[..])
      ensures r.Ok? ==> Count(table[..]) == Count(old(table[..])) + Sectors(size, unit) as nat
    {
      var n := Sectors(size, unit);
      var found := FindFreeRun(n);
      match found
      case None =>
        return Err(OutOfMemory);
      case Some(i) =>
        ghost var t0 := table[..];
        SetRun(i, n);
        CountSetsRange(t0, table[..], i, n as nat);
        return Ok(AllocOffset(base, unit, i));
    }

    /** `Allocate`: `_Allocate`, then a table flush when it succeeded. */
    method Allocate(size: uint32) returns (r: Result<uint32>)
      requires Valid() && Sectors(size, unit) >= 1
      modifies this, table
      ensures base == old(base)
      ensures var n := Sectors(size, unit);
        match FirstFit(old(table[..]), n)
        case Some(i) =>
          r == Ok(AllocOffset(base, unit, i)) && SetsRange(old(table[..]), table[..], i, i + n) &&
          events == old(events) + [FlushTable]
        case None =>
          r == Err(OutOfMemory) && table[..] == old(table[..]) && events == old(events)
    {
      r := AllocateRun(size);
      if r.Ok? {
        events := events + [FlushTable];
      }
    }

    /**
     * `_ExpandAllocation`: grows a run from `Sectors(oldSize)` to
     * `Sectors(newSize)` units in place when the units after it are free;
     * otherwise the table is unchanged.
     */
    method ExpandRun(offset: uint32, oldSize: uint32, newSize: uint32) returns (ok: bool)
      requires Valid()
      requires var alloc, req := Sectors(oldSize, unit), Sectors(newSize, unit);
        req > alloc ==> RunPosition(offset, alloc, unit) + (req - alloc) <= TableUnits
      modifies table
      ensures var alloc, req := Sectors(oldSize, unit), Sectors(newSize, unit);
        var p, n := RunPosition(offset, alloc, unit), if req > alloc then req - alloc else 0;
        (ok <==> n == 0 || RunClear(old(table[..]), p, n)) &&
        (ok ==> SetsRange(old(table[..]), table[..], p, p + n)) &&
        (!ok ==> table[..] == old(table[..]))
    {
      var alloc, req := Sectors(oldSize, unit), Sectors(newSize, unit);
      var p: nat := RunPosition(offset, alloc, unit);
      var n: nat := if req > alloc then req - alloc else 0;
      if n == 0 {
        // nothing to check and nothing to mark
        return true;
      }
      ok := RunIsClear(p, n);
      if ok {
        SetRun(p, n);
      }
    }

    /**
     * `_ShrinkAllocation`: frees the units a run no longer needs when it
     * shrinks from `Sectors(oldSize)` to `Sectors(newSize)` units.
     */
    method ShrinkRun(offset: uint32, oldSize: uint32, newSize: uint32)
      requires Valid()
      requires var alloc, req := Sectors(oldSize, unit), Sectors(newSize, unit);
        alloc > req ==> RunPosition(offset, req, unit) + (alloc - req) <= TableUnits
      modifies table
      ensures var alloc, req := Sectors(oldSize, unit), Sectors(newSize, unit);
        var p, n := RunPosition(offset, req, unit), if alloc > req then alloc - req else 0;
        ClearsRange(old(table[..]), table[..], p, p + n)
    {
      var alloc, req := Sectors(oldSize, unit), Sectors(newSize, unit);
      var p: nat := RunPosition(offset, req, unit);
      var n: nat := if alloc > req then alloc - req else 0;
      if n == 0 {
        // nothing to free
        return;
      }
      ClearRun(p, n);
    }

    /** `_Free`: frees units `offset..offset+Sectors(size)-1`. */
    method FreeRun(offset: uint32, size: uint32)
      requires Valid() && offset + Sectors(size, unit) <= TableUnits
      modifies table
      ensures ClearsRange(old(table[..]), table[..], offset, offset + Sectors(size, unit))
      ensures RunSet(old(table[..]), offset as nat, Sectors(size, unit) as nat) ==>
        Count(table[..]) + Sectors(size, unit) as nat == Count(old(table[..]))
    {
      ghost var t0 := table[..];
      ClearRun(offset, Sectors(size, unit));
      if RunSet(t0, offset as nat, Sectors(size, unit) as nat) {
        CountClearsRange(t0, table[..], offset as nat, Sectors(size, unit) as nat);
      }
    }

    /** `Free`: `_Free`, then a table flush. */
    method Free(offset: uint32, size: uint32)
      requires Valid() && offset + Sectors(size, unit) <= TableUnits
      modifies this, table
      ensures base == old(base)
      ensures ClearsRange(old(table[..]), table[..], offset, offset + Sectors(size, unit))
      ensures events == old(events) + [FlushTable]
    {
      FreeRun(offset, size);
      events := events + [FlushTable];
    }

    /**
     * `_Reallocate`: a run that must grow is expanded in place when the
     * units after it are free, and otherwise moved: a new run is allocated,
     * the owner copies the entry across, and the old run is freed. A run
     * that must shrink frees its tail. An allocation failure leaves the
     * table as it was.
     */
    method ReallocateRun(offset: uint32, oldSize: uint32, newSize: uint32) returns (r: Result<uint32>)
      requires Valid() && Sectors(newSize, unit) >= 1
      requires var alloc, req := Sectors(oldSize, unit), Sectors(newSize, unit);
        (req > alloc ==> RunPosition(offset, alloc, unit) + (req - alloc) <= TableUnits &&
                         offset + alloc <= TableUnits) &&
        (alloc > req ==> RunPosition(offset, req, unit) + (alloc - req) <= TableUnits)
      modifies this, table
      ensures base == old(base)
      ensures var alloc, req := Sectors(oldSize, unit), Sectors(newSize, unit);
        req == alloc ==> r == Ok(offset) && table[..] == old(table[..]) && events == old(events)
      ensures var alloc, req := Sectors(oldSize, unit), Sectors(newSize, unit);
        alloc > req ==>
          r == Ok(offset) && events == old(events) &&
          ClearsRange(old(table[..]), table[..], RunPosition(offset, req, unit), RunPosition(offset, req, unit) + (alloc - req))
      ensures var alloc, req := Sectors(oldSize, unit), Sectors(newSize, unit);
        var p := RunPosition(offset, alloc, unit);
        req > alloc && RunClear(old(table[..]), p, req - alloc) ==>
          r == Ok(offset) && events == old(events) &&
          SetsRange(old(table[..]), table[..], p, p + (req - alloc))
      ensures var alloc, req := Sectors(oldSize, unit), Sectors(newSize, unit);
        var p := RunPosition(offset, alloc, unit);
        req > alloc && !RunClear(old(table[..]), p, req - alloc) ==>
          match FirstFit(old(table[..]), req)
          case None => r == Err(OutOfMemory) && table[..] == old(table[..]) && events == old(events)
          case Some(i) =>
            r == Ok(AllocOffset(base, unit, i)) &&
            events == old(events) + [CopyEntry(offset, AllocOffset(base, unit, i), oldSize)] &&
            MovesRun(old(table[..]), table[..], i, req, offset, alloc)
    {
      var alloc, req := Sectors(oldSize, unit), Sectors(newSize, unit);
      r := Ok(offset);
      if req > alloc {
        var expanded := ExpandRun(offset, oldSize, newSize);
        if !expanded {
          ghost var t0 := table[..];
          var moved := AllocateRun(newSize);
          if moved.Err? {
            return moved;
          }
          ghost var t1 := table[..];
          events := events + [CopyEntry(offset, moved.value, oldSize)];
          FreeRun(offset, oldSize);
          SetsThenClears(t0, t1, table[..], FirstFit(t0, req).value, req, offset, alloc);
          r := moved;
        }
      }
      if req < alloc {
        ShrinkRun(offset, oldSize, newSize);
      }
    }

    /** `Reallocate`: `_Reallocate`, then a table flush when it succeeded. */
    method Reallocate(offset: uint32, oldSize: uint32, newSize: uint32) returns (r: Result<uint32>)
      requires Valid() && Sectors(newSize, unit) >= 1
      requires var alloc, req := Sectors(oldSize, unit), Sectors(newSize, unit);
        (req > alloc ==> RunPosition(offset, alloc, unit) + (req - alloc) <= TableUnits &&
                         offset + alloc <= TableUnits) &&
        (alloc > req ==> RunPosition(offset, req, unit) + (alloc - req) <= TableUnits)
      modifies this, table
      ensures base == old(base)
      ensures var alloc, req := Sectors(oldSize, unit), Sectors(newSize, unit);
        req == alloc ==> r == Ok(offset) && table[..] == old(table[..]) && events == old(events) + [FlushTable]
      ensures var alloc, req := Sectors(oldSize, unit), Sectors(newSize, unit);
        alloc > req ==>
          r == Ok(offset) && events == old(events) + [FlushTable] &&
          ClearsRange(old(table[..]), table[..], RunPosition(offset, req, unit), RunPosition(offset, req, unit) + (alloc - req))
      ensures var alloc, req := Sectors(oldSize, unit), Sectors(newSize, unit);
        var p := RunPosition(offset, alloc, unit);
        req > alloc && RunClear(old(table[..]), p, req - alloc) ==>
          r == Ok(offset) && events == old(events) + [FlushTable] &&
          SetsRange(old(table[..]), table[..], p, p + (req - alloc))
      ensures var alloc, req := Sectors(oldSize, unit), Sectors(newSize, unit);
        var p := RunPosition(offset, alloc, unit);
        req > alloc && !RunClear(old(table[..]), p, req - alloc) ==>
          match FirstFit(old(table[..]), req)
          case None => r == Err(OutOfMemory) && table[..] == old(table[..]) && events == old(events)
          case Some(i) =>
            r == Ok(AllocOffset(base, unit, i)) &&
            events == old(events) + [CopyEntry(offset, AllocOffset(base, unit, i), oldSize), FlushTable] &&
            MovesRun(old(table[..]), table[..], i, req, offset, alloc)
    {
      r := ReallocateRun(offset, oldSize, newSize);
      if r.Ok? {
        events := events + [FlushTable];
      }
    }
  }
}
