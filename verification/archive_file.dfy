/**
 * The in-memory archive file (`CompressedArchiveFile` in xArchiveFile.cpp):
 * the whole uncompressed content of the file is held in a growable byte
 * buffer with a read/write cursor. The file on disk is modelled by its
 * uncompressed bytes; zlib itself is not modelled.
 */
module ArchiveFile {
  import opened Helpers

  /** ArchiveFileOpenMode (xArchiveFile.h). */
  datatype OpenMode = ReadOnly | WriteOnly | ReadWrite

  /** The origin codes of the C library's `fseek`. */
  const SeekSet: int := 0
  const SeekCur: int := 1
  const SeekEnd: int := 2

  /** The range of `ptrdiff_t`. */
  predicate IsPtrDiff(x: int)
  {
    -0x8000_0000_0000_0000 <= x < 0x8000_0000_0000_0000
  }

  function Zeros(n: nat): (r: seq<byte>)
    ensures |r| == n && forall i :: 0 <= i < n ==> r[i] == 0
  {
    seq(n, _ => 0)
  }

  function Max(a: nat, b: nat): nat
  {
    if a < b then b else a
  }

  function Min(a: nat, b: nat): nat
  {
    if a < b then a else b
  }

  /**
   * The buffer after writing `d` at the cursor `p`: the buffer grows with
   * zero bytes to reach `p + |d|` when it is shorter, and `d` replaces the
   * bytes at `p..p+|d|-1`.
   */
  function Written(buf: seq<byte>, p: nat, d: seq<byte>): (r: seq<byte>)
    ensures |r| == Max(|buf|, p + |d|)
    ensures r[p..p + |d|] == d
    ensures forall i :: 0 <= i < |r| && !(p <= i < p + |d|) ==> r[i] == if i < |buf| then buf[i] else 0
  {
    var grown := if p + |d| > |buf| then buf + Zeros(p + |d| - |buf|) else buf;
    grown[..p] + d + grown[p + |d|..]
  }

  /** The bytes a read of `n` bytes at the cursor `p` copies out: at most up to the end of the buffer. */
  function ReadOut(buf: seq<byte>, p: nat, n: nat): (r: seq<byte>)
    requires p <= |buf|
    ensures |r| == Min(n, |buf| - p)
    ensures r == buf[p..p + |r|]
  {
    buf[p..p + Min(n, |buf| - p)]
  }

  /** Reading back what was just written at the same position yields exactly that data. */
  lemma WriteThenRead(buf: seq<byte>, p: nat, d: seq<byte>)
    ensures p <= |Written(buf, p, d)|
    ensures ReadOut(Written(buf, p, d), p, |d|) == d
  {
  }

  /** Writing at the end of the buffer appends. */
  lemma WriteAtEndAppends(buf: seq<byte>, d: seq<byte>)
    ensures Written(buf, |buf|, d) == buf + d
  {
    var r := Written(buf, |buf|, d);
    assert r[..|buf|] == buf;
    assert r == r[..|buf|] + r[|buf|..];
  }

  /** Two consecutive writes are one write of the concatenated data. */
  lemma {:induction false} ConsecutiveWrites(buf: seq<byte>, p: nat, d1: seq<byte>, d2: seq<byte>)
    ensures Written(Written(buf, p, d1), p + |d1|, d2) == Written(buf, p, d1 + d2)
  {
    var a := Written(Written(buf, p, d1), p + |d1|, d2);
    var b := Written(buf, p, d1 + d2);
    assert |a| == |b|;
    forall i | 0 <= i < |a|
      ensures a[i] == b[i]
    {
      if p <= i < p + |d1| {
        assert a[i] == Written(buf, p, d1)[i] == d1[i - p];
        assert b[i] == (d1 + d2)[i - p];
      } else if p + |d1| <= i < p + |d1| + |d2| {
        assert a[i] == d2[i - p - |d1|];
        assert b[i] == (d1 + d2)[i - p];
      }
    }
  }

  /** A write leaves the bytes before the cursor untouched. */
  lemma WriteKeepsPrefix(buf: seq<byte>, p: nat, d: seq<byte>)
    requires p <= |buf|
    ensures Written(buf, p, d)[..p] == buf[..p]
  {
  }

  class CompressedArchiveFile {
    /** m_Filename. */
    const name: string
    /** m_Mode. */
    const mode: OpenMode
    /** m_IsOpen: set by the constructor and never cleared. */
    var isOpen: bool
    /** m_pBuffer: the uncompressed content. */
    var buffer: seq<byte>
    /** m_PointerOffset: the cursor, a `size_t`. */
    var ptr: uint64
    /** The uncompressed content of the file on disk. */
    var stored: seq<byte>

    /**
     * Opening: a write-only file starts empty, any other mode loads the
     * whole content of the file (a read-write open creates a missing file,
     * whose content is then empty).
     */
    constructor (name: string, mode: OpenMode, onDisk: seq<byte>)
      ensures this.name == name && this.mode == mode
      ensures isOpen && ptr == 0 && stored == onDisk
      ensures buffer == if mode == WriteOnly then [] else onDisk
    {
      this.name := name;
      this.mode := mode;
      isOpen := true;
      ptr := 0;
      stored := onDisk;
      buffer := if mode == WriteOnly then [] else onDisk;
    }

    /** `Write`: grows the buffer when needed, copies `data` in at the cursor and advances it. */
    method Write(data: seq<byte>)
      requires ptr + |data| < TwoTo64
      modifies this
      ensures buffer == Written(old(buffer), old(ptr), data)
      ensures ptr == old(ptr) + |data|
      ensures isOpen == old(isOpen) && stored == old(stored)
    {
      if ptr + |data| > |buffer| {
        buffer := buffer + Zeros(ptr + |data| - |buffer|);
      }
      buffer := buffer[..ptr] + data + buffer[ptr + |data|..];
      ptr := ptr + |data|;
    }

    /**
     * `Read`: copies the bytes from the cursor on, at most `size` and at
     * most up to the end of the buffer, into `dest`; the cursor advances by
     * `size` regardless. The cursor must not be past the end of the buffer.
     */
    method Read(dest: array<byte>, size: uint64)
      requires ptr <= |buffer| && Min(size, |buffer| - ptr) <= dest.Length
      modifies this, dest
      ensures var k := Min(size, |old(buffer)| - old(ptr));
        dest[..k] == ReadOut(old(buffer), old(ptr), size) && dest[k..] == old(dest[k..])
      ensures buffer == old(buffer) && ptr == (old(ptr) + size) % TwoTo64
      ensures isOpen == old(isOpen) && stored == old(stored)
    {
      var k := Min(size, |buffer| - ptr);
      var j := 0;
      while j < k
        invariant j <= k
        invariant buffer == old(buffer) && ptr == old(ptr) && isOpen == old(isOpen) && stored == old(stored)
        invariant forall i :: 0 <= i < j ==> dest[i] == buffer[ptr + i]
        invariant dest[k..] == old(dest[k..])
      {
        dest[j] := buffer[ptr + j];
        j := j + 1;
      }
      assert dest[..k] == buffer[ptr..ptr + k];
      ptr := (ptr + size) % TwoTo64;
    }

    /**
     * `Seek`: moves the cursor relative to the start, the cursor or the end,
     * in `size_t` arithmetic. Each of the three origins returns before the
     * resize at the end of the function, so seeking never grows the buffer;
     * only an unknown origin reaches the resize, with the cursor unchanged.
     */
    method Seek(offset: int, origin: int)
      requires IsPtrDiff(offset)
      modifies this
      ensures origin == SeekSet ==> ptr == offset % TwoTo64 && buffer == old(buffer)
      ensures origin == SeekCur ==> ptr == (old(ptr) + offset) % TwoTo64 && buffer == old(buffer)
      ensures origin == SeekEnd ==> ptr == (|old(buffer)| + offset) % TwoTo64 && buffer == old(buffer)
      ensures origin !in {SeekSet, SeekCur, SeekEnd} ==>
        ptr == old(ptr) &&
        buffer == if ptr > |old(buffer)| then old(buffer) + Zeros(ptr - |old(buffer)|) else old(buffer)
      ensures isOpen == old(isOpen) && stored == old(stored)
    {
      if origin == SeekSet {
        ptr := offset % TwoTo64;
        return;
      } else if origin == SeekCur {
        ptr := (ptr + offset) % TwoTo64;
        return;
      } else if origin == SeekEnd {
        ptr := (|buffer| + offset) % TwoTo64;
        return;
      }
      if ptr > |buffer| {
        buffer := buffer + Zeros(ptr - |buffer|);
      }
    }

    /** `Tell`: the cursor. */
    function Tell(): (r: uint64)
      reads this
      ensures r == ptr
    {
      ptr
    }

    /** `Flush`: the buffer is only written out by `Close`. */
    method Flush()
      ensures buffer == old(buffer) && ptr == old(ptr) && stored == old(stored)
    {
    }

    /**
     * `Close`: stores the whole buffer as the file's content unless the file
     * was opened read-only. `isOpen` is never cleared, so every call stores.
     */
    method Close()
      modifies this
      ensures stored == if old(isOpen) && mode != ReadOnly then buffer else old(stored)
      ensures buffer == old(buffer) && ptr == old(ptr) && isOpen == old(isOpen)
    {
      if !isOpen || mode == ReadOnly {
        return;
      }
      stored := buffer;
    }
  }

  /**
   * Seeking to `p`, writing `d`, seeking back to `p` and reading `|d|`
   * bytes yields `d`.
   */
  method SeekWriteSeekRead(f: CompressedArchiveFile, p: uint64, d: seq<byte>, dest: array<byte>)
    requires p < 0x8000_0000_0000_0000 && p + |d| < TwoTo64 && |d| <= dest.Length
    modifies f, dest
    ensures dest[..|d|] == d
  {
    f.Seek(p, SeekSet);
    f.Write(d);
    f.Seek(p, SeekSet);
    WriteThenRead(old(f.buffer), p, d);
    f.Read(dest, |d|);
  }
}
