/**
 * Binary-layout and string helpers of the archive engine (xArchiveHelpers.h):
 * prefix and suffix tests, fixed-size name encoding, join and split over a
 * separator, and the 32-bit byte swap used to build the magic tags.
 *
 * Strings are `seq<char>`. The source works on `std::string`s whose data is
 * also read as NUL-terminated C strings; `CStr` gives that view.
 */
module Helpers {

  /** The source's `uint32_t`. */
  type uint32 = x: int | 0 <= x < 0x1_0000_0000

  const TwoTo32: int := 0x1_0000_0000

  const TwoTo64: int := 0x1_0000_0000_0000_0000

  /** The source's `size_t`, a 64-bit unsigned integer. */
  type uint64 = x: int | 0 <= x < 0x1_0000_0000_0000_0000

  /** One byte of a buffer or a file. */
  type byte = x: int | 0 <= x < 256

  datatype Option<T> = None | Some(value: T)

  /** The failures the engine reports by throwing; the message text is not modelled. */
  datatype Error =
    | OutOfMemory          // allocation table or directory node full
    | NoEntries            // RemoveEntry on an empty node
    | IndexOutOfRange      // entry index at or past NumEntries
    | InsufficientBuffer   // name longer than its fixed field, or caller buffer too small
    | NotAnArchive         // header magic is not 'ARCH'
    | Corrupted            // a node read from the file does not carry the 'DIR ' magic
    | InvalidPath          // ".." above a node whose Parent is 0
    | NotFound             // a path component or entry name is missing
    | NotADirectory        // a path component names a file
    | NotReadable          // archive opened write-only
    | NotWritable          // archive opened read-only
    | NoPayload            // the model holds no file bytes at an entry's offset

  datatype Result<T> = Ok(value: T) | Err(error: Error)

  // ---------------------------------------------------------------------
  // The C-string view of a character sequence

  /** Index of the first NUL character of `s`, or `|s|` when there is none. */
  function NulIndex(s: string): (k: nat)
    ensures k <= |s|
    ensures k < |s| ==> s[k] == '\0'
    ensures forall j :: 0 <= j < k ==> s[j] != '\0'
  {
    if s == [] then 0
    else if s[0] == '\0' then 0
    else 1 + NulIndex(s[1..])
  }

  /** What a reader of `s` as a NUL-terminated string sees. */
  function CStr(s: string): string
  {
    s[..NulIndex(s)]
  }

  predicate NoNul(s: string)
  {
    forall j :: 0 <= j < |s| ==> s[j] != '\0'
  }

  lemma {:induction false} CStrOfNoNul(s: string)
    requires NoNul(s)
    ensures CStr(s) == s
  {
  }

  predicate IsSuffix(b: string, a: string)
  {
    |b| <= |a| && a[|a| - |b|..] == b
  }

  // ---------------------------------------------------------------------
  // StringStartsWith / StringEndsWith

  /**
   * StringStartsWith: walks both strings with two cursors while neither has
   * reached its terminator and the characters agree; true when `b` ran out.
   * So `b`, read as a C string, is a prefix of `a` read as a C string; an
   * empty `b` always gives true.
   */
  method StringStartsWith(a: string, b: string) returns (r: bool)
    ensures r <==> CStr(b) <= CStr(a)
  {
    var i := 0;
    while i < |a| && i < |b| && a[i] != '\0' && b[i] != '\0' && a[i] == b[i]
      invariant 0 <= i <= |a| && i <= |b|
      invariant i <= NulIndex(a) && i <= NulIndex(b)
      invariant a[..i] == b[..i]
    {
      i := i + 1;
    }
    r := i == |b| || b[i] == '\0';
    if r {
      assert NulIndex(b) == i;
      assert CStr(b) == a[..i] == CStr(a)[..i];
    } else {
      assert i < NulIndex(b);
      if i == |a| || a[i] == '\0' {
        assert NulIndex(a) == i;
      } else {
        assert CStr(b)[i] != CStr(a)[i];
      }
    }
  }

  /**
   * StringEndsWith: walks both strings backwards from their terminators while
   * the characters agree; true when all of `b` was matched, i.e. `b` is a
   * suffix of `a` (by length, so embedded NULs compare like other characters).
   */
  method StringEndsWith(a: string, b: string) returns (r: bool)
    ensures r <==> IsSuffix(b, a)
  {
    var k := 0;
    while k < |a| && k < |b| && a[|a| - 1 - k] == b[|b| - 1 - k]
      invariant k <= |a| && k <= |b|
      invariant a[|a| - k..] == b[|b| - k..]
    {
      assert a[|a| - (k + 1)..] == [a[|a| - 1 - k]] + a[|a| - k..];
      assert b[|b| - (k + 1)..] == [b[|b| - 1 - k]] + b[|b| - k..];
      k := k + 1;
    }
    r := k == |b|;
    if !r && k < |a| && |b| <= |a| {
      assert a[|a| - |b|..][|b| - 1 - k] == a[|a| - 1 - k];
    }
  }

  // ---------------------------------------------------------------------
  // StringToArray

  /**
   * The contents of an N-character buffer after `s` has been stored into it:
   * `s`, a terminating NUL, the old tail, and a NUL forced into the last slot.
   */
  function StoreCString(buf: string, s: string): (r: string)
    requires |s| + 1 <= |buf|
    ensures |r| == |buf|
    ensures r[..|s|] == s && r[|s|] == '\0' && r[|buf| - 1] == '\0'
    ensures forall j :: |s| < j < |buf| - 1 ==> r[j] == buf[j]
  {
    (s + ['\0'] + buf[|s| + 1..])[|buf| - 1 := '\0']
  }

  /**
   * StringToArray: fails (leaving the array alone) when `s` and its
   * terminator do not fit; otherwise copies `min(N - 1, |s| + 1)` characters
   * of `s` and its terminator, then writes NUL into the last slot.
   */
  method StringToArray(s: string, arr: array<char>) returns (ok: bool)
    modifies arr
    ensures ok <==> |s| + 1 <= arr.Length
    ensures !ok ==> arr[..] == old(arr[..])
    ensures ok ==> arr[..] == StoreCString(old(arr[..]), s)
  {
    if arr.Length < |s| + 1 {
      return false;
    }
    var src := s + ['\0'];
    var count := if arr.Length - 1 < |s| + 1 then arr.Length - 1 else |s| + 1;
    var i := 0;
    while i < count
      invariant 0 <= i <= count
      invariant arr[..i] == src[..i]
      invariant arr[i..] == old(arr[i..])
    {
      arr[i] := src[i];
      i := i + 1;
    }
    arr[arr.Length - 1] := '\0';
    ok := true;
    assert arr[..] == StoreCString(old(arr[..]), s);
  }

  // ---------------------------------------------------------------------
  // StringJoin

  /** The elements of `parts` in order with `sep` between neighbours. */
  function Join(parts: seq<string>, sep: string): string
  {
    if |parts| == 0 then ""
    else if |parts| == 1 then parts[0]
    else parts[0] + sep + Join(parts[1..], sep)
  }

  function TotalLength(parts: seq<string>): nat
  {
    if parts == [] then 0 else |parts[0]| + TotalLength(parts[1..])
  }

  lemma {:induction false} JoinLength(parts: seq<string>, sep: string)
    requires |parts| > 0
    ensures |Join(parts, sep)| == TotalLength(parts) + |sep| * (|parts| - 1)
  {
    if |parts| > 1 {
      JoinLength(parts[1..], sep);
    }
  }

  lemma {:induction false} JoinSnoc(parts: seq<string>, x: string, sep: string)
    requires |parts| > 0
    ensures Join(parts + [x], sep) == Join(parts, sep) + sep + x
  {
    if |parts| == 1 {
      assert parts + [x] == [parts[0], x];
    } else {
      assert (parts + [x])[1..] == parts[1..] + [x];
      JoinSnoc(parts[1..], x, sep);
    }
  }

  /**
   * StringJoin: appends each element and, after every element but the last,
   * the separator.
   */
  method StringJoin(strings: seq<string>, sep: string) returns (joined: string)
    ensures joined == Join(strings, sep)
  {
    joined := "";
    var i := 0;
    while i < |strings|
      invariant 0 <= i <= |strings|
      invariant i == 0 ==> joined == ""
      invariant 0 < i ==> joined == Join(strings[..i], sep) + (if i < |strings| then sep else "")
    {
      if i > 0 {
        JoinSnoc(strings[..i], strings[i], sep);
        assert strings[..i + 1] == strings[..i] + [strings[i]];
      } else {
        assert strings[..1] == [strings[0]];
      }
      joined := joined + strings[i];
      if i < |strings| - 1 {
        joined := joined + sep;
      }
      i := i + 1;
    }
    assert strings[..i] == strings;
  }

  // ---------------------------------------------------------------------
  // StringSplit with a non-empty separator

  /** `sep` occurs in `s` at position `j`. */
  predicate SepAt(s: string, sep: string, j: nat)
  {
    j + |sep| <= |s| && MatchFrom(s, sep, j, 0)
  }

  /** The characters of `sep` from index `m` on follow position `j + m` of `s`. */
  predicate MatchFrom(s: string, sep: string, j: nat, m: nat)
    requires j + |sep| <= |s| && m <= |sep|
    decreases |sep| - m, 1
  {
    m == |sep| || CharsMatch(s, sep, j, m)
  }

  /** Character `m` of `sep` follows position `j + m`, and so do the rest. */
  predicate CharsMatch(s: string, sep: string, j: nat, m: nat)
    requires j + |sep| <= |s| && m < |sep|
    decreases |sep| - m, 0
  {
    s[j + m] == sep[m] && MatchFrom(s, sep, j, m + 1)
  }

  lemma {:induction false} MatchFromSlice(s: string, sep: string, j: nat, m: nat)
    requires j + |sep| <= |s| && m <= |sep|
    ensures MatchFrom(s, sep, j, m) == (s[j + m..j + |sep|] == sep[m..])
    decreases |sep| - m
  {
    if m < |sep| {
      MatchFromSlice(s, sep, j, m + 1);
      assert s[j + m..j + |sep|] == [s[j + m]] + s[j + m + 1..j + |sep|];
      assert sep[m..] == [sep[m]] + sep[m + 1..];
    }
  }

  /** SepAt is the slice comparison `s[j..j + |sep|] == sep`. */
  lemma SepAtSlice(s: string, sep: string, j: nat)
    ensures SepAt(s, sep, j) == (j + |sep| <= |s| && s[j..j + |sep|] == sep)
  {
    if j + |sep| <= |s| {
      MatchFromSlice(s, sep, j, 0);
    }
  }

  /** The first position at or after `i` where `sep` occurs, or `|s|`. */
  function FindSep(s: string, sep: string, i: nat): (k: nat)
    requires i <= |s|
    ensures i <= k <= |s|
    ensures k < |s| ==> k + |sep| <= |s|
    decreases |s| - i
  {
    if i == |s| then |s|
    else if SepAt(s, sep, i) then i
    else FindSep(s, sep, i + 1)
  }

  /** `FindSep` finds the first occurrence of `sep` at or after `i`, or reports `|s|` when there is none. */
  lemma {:induction false} FindSepSpec(s: string, sep: string, i: nat)
    requires i <= |s|
    ensures FindSep(s, sep, i) < |s| ==> SepAt(s, sep, FindSep(s, sep, i))
    ensures forall j :: i <= j < FindSep(s, sep, i) ==> !SepAt(s, sep, j)
    decreases |s| - i
  {
    if i < |s| && !SepAt(s, sep, i) {
      FindSepSpec(s, sep, i + 1);
    }
  }

  /** The components of `s[b..]`: text up to each occurrence of `sep`. */
  function SplitFrom(s: string, sep: string, b: nat): seq<string>
    requires |sep| > 0 && b <= |s|
    decreases |s| - b
  {
    if b == |s| then []
    else
      var k := FindSep(s, sep, b);
      if k == |s| then [s[b..]]
      else [s[b..k]] + SplitFrom(s, sep, k + |sep|)
  }

  /** The components StringSplit produces. */
  function Split(s: string, sep: string): seq<string>
    requires |sep| > 0
  {
    SplitFrom(s, sep, 0)
  }

  /** Unfolds SplitFrom once where a separator follows `b`. */
  lemma SplitAt(s: string, sep: string, b: nat)
    requires |sep| > 0 && b < |s| && FindSep(s, sep, b) < |s|
    ensures SplitFrom(s, sep, b) == [s[b..FindSep(s, sep, b)]] + SplitFrom(s, sep, FindSep(s, sep, b) + |sep|)
  {
  }

  /** Unfolds SplitFrom once where no separator follows `b`. */
  lemma SplitLast(s: string, sep: string, b: nat)
    requires |sep| > 0 && b < |s| && FindSep(s, sep, b) == |s|
    ensures SplitFrom(s, sep, b) == [s[b..]]
  {
  }

  lemma SplitFromNonEmpty(s: string, sep: string, b: nat)
    requires |sep| > 0 && b < |s|
    ensures |SplitFrom(s, sep, b)| > 0
  {
  }

  /** A join whose first part is `x`, followed by a non-empty rest that joins to `r`. */
  lemma JoinCons(parts: seq<string>, x: string, rest: seq<string>, sep: string, r: string, whole: string)
    requires parts == [x] + rest && |rest| > 0
    requires Join(rest, sep) == r && whole == x + sep + r
    ensures Join(parts, sep) == whole
  {
    assert parts[1..] == rest;
  }

  /** Joining the split from `b` puts the separator back between the first part and the rest. */
  lemma JoinSplitAt(s: string, sep: string, b: nat, k: nat)
    requires |sep| > 0 && b < |s| && k == FindSep(s, sep, b) && k + |sep| < |s|
    ensures Join(SplitFrom(s, sep, b), sep) == s[b..k] + sep + Join(SplitFrom(s, sep, k + |sep|), sep)
  {
    SplitAt(s, sep, b);
    SplitFromNonEmpty(s, sep, k + |sep|);
    JoinCons(SplitFrom(s, sep, b), s[b..k], SplitFrom(s, sep, k + |sep|), sep,
             Join(SplitFrom(s, sep, k + |sep|), sep), s[b..k] + sep + Join(SplitFrom(s, sep, k + |sep|), sep));
  }

  /** Two strings made of the same head around equal tails are equal. */
  lemma SameAround(j: string, x: string, sep: string, j': string, d': string, d: string)
    requires j == x + sep + j' && j' == d' && d == x + sep + d'
    ensures j == d
  {
  }

  /** Around a separator at `k` that is not a suffix, `s[b..]` is the text before, `sep` and the text after. */
  lemma SliceAroundSep(s: string, sep: string, b: nat, k: nat)
    requires b <= k && SepAt(s, sep, k) && !IsSuffix(sep, s)
    ensures k + |sep| < |s| && s[b..] == s[b..k] + sep + s[k + |sep|..]
  {
    SepAtSlice(s, sep, k);
    assert k + |sep| == |s| ==> IsSuffix(sep, s);
    assert s[b..] == s[b..k] + s[k..k + |sep|] + s[k + |sep|..];
  }

  lemma ConsTail<T>(xs: seq<T>, ys: seq<T>, x: T, y: T, a: seq<T>, c: seq<T>, tail: seq<T>)
    requires xs == [x] + a && ys == [y] + c && x == y && c == a + tail
    ensures ys == xs + tail
  {
  }

  lemma SplitEnd(s: string, sep: string)
    requires |sep| > 0
    ensures SplitFrom(s, sep, |s|) == []
  {
  }

  lemma PushAssoc<T>(p: seq<T>, x: T, r: seq<T>)
    ensures (p + [x]) + r == p + ([x] + r)
  {
  }

  /** The first separator at or after `b` is at `e` when none comes earlier. */
  lemma {:induction false} FindSepUnique(s: string, sep: string, b: nat, e: nat)
    requires b <= e <= |s|
    requires forall j :: b <= j < e ==> !SepAt(s, sep, j)
    requires e == |s| || SepAt(s, sep, e)
    ensures FindSep(s, sep, b) == e
    decreases e - b
  {
    if b < e {
      FindSepUnique(s, sep, b + 1, e);
    }
  }

  /** One step of the split: the component `s[b..e]` ends at separator or end `e`. */
  lemma {:induction false} SplitStep(s: string, sep: string, b: nat, e: nat)
    requires |sep| > 0 && b < |s| && b <= e <= |s|
    requires forall j :: b <= j < e ==> !SepAt(s, sep, j)
    requires e == |s| || SepAt(s, sep, e)
    ensures e == |s| ==> SplitFrom(s, sep, b) == [s[b..]]
    ensures e < |s| ==> SplitFrom(s, sep, b) == [s[b..e]] + SplitFrom(s, sep, e + |sep|)
  {
    FindSepUnique(s, sep, b, e);
    if e == |s| {
      SplitLast(s, sep, b);
    } else {
      SplitAt(s, sep, b);
    }
  }

  lemma NoSepExtend(s: string, sep: string, b: nat, e: nat)
    requires forall j :: b <= j < e ==> !SepAt(s, sep, j)
    requires !SepAt(s, sep, e)
    ensures forall j :: b <= j < e + 1 ==> !SepAt(s, sep, j)
  {
  }

  /** A separator that only partly follows position `e` does not occur there. */
  lemma {:induction false} PartialMatch(s: string, sep: string, e: nat, m: nat)
    requires e + m <= |s| && m < |sep|
    requires s[e..e + m] == sep[..m]
    requires e + m == |s| || s[e + m] != sep[m]
    ensures !SepAt(s, sep, e)
  {
    SepAtSlice(s, sep, e);
    if e + |sep| <= |s| {
      assert e + m < |s| && s[e + m] != sep[m];
      assert s[e..e + |sep|][m] == s[e + m];
    }
  }

  /**
   * StringSplit for a non-empty separator: a begin and an end cursor; the end
   * cursor skips to the next character equal to the separator's first one,
   * then checks whether the whole separator follows. A partial match moves
   * the end cursor one character on; a whole match, or the terminator, ends
   * the current component.
   */
  method StringSplit(s: string, sep: string) returns (parts: seq<string>)
    requires |sep| > 0 && NoNul(s) && NoNul(sep)
    ensures parts == Split(s, sep)
  {
    parts := [];
    ghost var whole := Split(s, sep);
    var b: nat, e: nat := 0, 0;
    while b < |s|
      invariant b <= e <= |s| + |sep|
      invariant b < |s| ==> e <= |s|
      invariant b <= |s| ==> parts + SplitFrom(s, sep, b) == whole
      invariant b > |s| ==> parts == whole
      invariant forall j :: b <= j < e ==> !SepAt(s, sep, j)
      decreases |s| + |sep| - e
    {
      e := SkipToSepStart(s, sep, b, e);
      var m := MatchSep(s, sep, e);
      if e < |s| && m < |sep| {
        // a partial match: the scan resumes one character further
        PartialMatch(s, sep, e, m);
        NoSepExtend(s, sep, b, e);
        e := e + 1;
      } else {
        assert m == |sep| ==> sep[..m] == sep;
        SepAtSlice(s, sep, e);
        parts, b, e := SplitPush(s, sep, parts, b, e, whole);
      }
    }
  }

  /** The first inner scan: moves `e` to the next character equal to `sep[0]`, or to the end. */
  method SkipToSepStart(s: string, sep: string, b: nat, e: nat) returns (e': nat)
    requires |sep| > 0 && b <= e <= |s|
    requires forall j :: b <= j < e ==> !SepAt(s, sep, j)
    ensures e <= e' <= |s| && (e' == |s| || s[e'] == sep[0])
    ensures forall j :: b <= j < e' ==> !SepAt(s, sep, j)
  {
    e' := e;
    while e' < |s| && s[e'] != sep[0]
      invariant e <= e' <= |s|
      invariant forall j :: b <= j < e' ==> !SepAt(s, sep, j)
    {
      PartialMatch(s, sep, e', 0);
      NoSepExtend(s, sep, b, e');
      e' := e' + 1;
    }
  }

  /** The second inner scan: how many characters of `sep` follow position `e`. */
  method MatchSep(s: string, sep: string, e: nat) returns (m: nat)
    requires e <= |s|
    ensures m <= |sep| && e + m <= |s| && s[e..e + m] == sep[..m]
    ensures m < |sep| ==> e + m == |s| || s[e + m] != sep[m]
  {
    m := 0;
    while e + m < |s| && m < |sep| && s[e + m] == sep[m]
      invariant m <= |sep| && e + m <= |s|
      invariant s[e..e + m] == sep[..m]
    {
      assert s[e..e + m + 1] == s[e..e + m] + [s[e + m]];
      m := m + 1;
    }
  }

  /** Ends the component `s[b..e]` and moves both cursors past the separator. */
  method SplitPush(s: string, sep: string, parts: seq<string>, b: nat, e: nat, ghost whole: seq<string>)
    returns (parts': seq<string>, b': nat, e': nat)
    requires |sep| > 0 && b < |s| && b <= e <= |s|
    requires forall j :: b <= j < e ==> !SepAt(s, sep, j)
    requires e == |s| || SepAt(s, sep, e)
    requires parts + SplitFrom(s, sep, b) == whole
    ensures b' == e' == e + |sep| && parts' == parts + [s[b..e]]
    ensures b' <= |s| ==> parts' + SplitFrom(s, sep, b') == whole
    ensures b' > |s| ==> parts' == whole
  {
    FindSepUnique(s, sep, b, e);
    parts' := parts + [s[b..e]];
    e' := e + |sep|;
    b' := e';
    if e == |s| {
      PushLast(s, sep, parts, b, whole);
    } else {
      PushAt(s, sep, parts, b, e, whole);
    }
  }

  /** The last component completes the split. */
  lemma PushLast(s: string, sep: string, parts: seq<string>, b: nat, whole: seq<string>)
    requires |sep| > 0 && b < |s| && FindSep(s, sep, b) == |s|
    requires parts + SplitFrom(s, sep, b) == whole
    ensures parts + [s[b..|s|]] == whole
  {
    SplitLast(s, sep, b);
    assert s[b..|s|] == s[b..];
  }

  /** A component ended by a separator moves from the split into the parts. */
  lemma PushAt(s: string, sep: string, parts: seq<string>, b: nat, k: nat, whole: seq<string>)
    requires |sep| > 0 && b < |s| && FindSep(s, sep, b) == k < |s|
    requires parts + SplitFrom(s, sep, b) == whole
    ensures parts + [s[b..k]] + SplitFrom(s, sep, k + |sep|) == whole
  {
    SplitAt(s, sep, b);
    PushAssoc(parts, s[b..k], SplitFrom(s, sep, k + |sep|));
  }

  // ---------------------------------------------------------------------
  // Properties of Split and Join

  lemma {:induction false} SplitEmpty(sep: string)
    requires |sep| > 0
    ensures Split("", sep) == []
  {
  }

  /** A leading separator yields a leading empty component. */
  lemma {:induction false} SplitLeadingSep(s: string, sep: string)
    requires |sep| > 0 && SepAt(s, sep, 0)
    ensures |Split(s, sep)| > 0 && Split(s, sep)[0] == ""
  {
  }

  predicate ContainsSep(p: string, sep: string)
  {
    exists j :: 0 <= j <= |p| && SepAt(p, sep, j)
  }

  lemma SliceOfSlice(s: string, b: nat, k: nat, j: nat, n: nat)
    requires b <= k <= |s| && j + n <= k - b
    ensures s[b..k][j..j + n] == s[b + j..b + j + n]
  {
    var t := s[b..k][j..j + n];
    assert forall i :: 0 <= i < n ==> t[i] == s[b + j + i];
  }

  lemma {:induction false} ComponentNoSep(s: string, sep: string, b: nat, k: nat)
    requires |sep| > 0 && b <= k <= |s|
    requires forall j :: b <= j < k ==> !SepAt(s, sep, j)
    ensures !ContainsSep(s[b..k], sep)
  {
    var c := s[b..k];
    forall j: nat | j <= |c| && SepAt(c, sep, j)
      ensures false
    {
      SepAtSlice(c, sep, j);
      SliceOfSlice(s, b, k, j, |sep|);
      SepAtSlice(s, sep, b + j);
    }
  }

  lemma {:induction false} SplitFromNoSep(s: string, sep: string, b: nat)
    requires |sep| > 0 && b <= |s|
    ensures forall p :: p in SplitFrom(s, sep, b) ==> !ContainsSep(p, sep)
    decreases |s| - b
  {
    if b < |s| {
      var k := FindSep(s, sep, b);
      FindSepSpec(s, sep, b);
      ComponentNoSep(s, sep, b, k);
      if k < |s| {
        SplitFromNoSep(s, sep, k + |sep|);
        SplitAt(s, sep, b);
      } else {
        assert s[b..k] == s[b..];
        SplitLast(s, sep, b);
      }
    }
  }

  /** No component of a split contains the separator. */
  lemma SplitNoSep(s: string, sep: string)
    requires |sep| > 0
    ensures forall p :: p in Split(s, sep) ==> !ContainsSep(p, sep)
  {
    SplitFromNoSep(s, sep, 0);
  }

  lemma {:induction false} SplitFromNoNul(s: string, sep: string, b: nat)
    requires |sep| > 0 && b <= |s| && NoNul(s)
    ensures forall p :: p in SplitFrom(s, sep, b) ==> NoNul(p)
    decreases |s| - b
  {
    if b < |s| {
      var k := FindSep(s, sep, b);
      assert NoNul(s[b..k]);
      if k < |s| {
        SplitFromNoNul(s, sep, k + |sep|);
        SplitAt(s, sep, b);
      } else {
        assert s[b..k] == s[b..];
        SplitLast(s, sep, b);
      }
    }
  }

  /** The components of a string without NUL are without NUL. */
  lemma SplitNoNul(s: string, sep: string)
    requires |sep| > 0 && NoNul(s)
    ensures forall p :: p in Split(s, sep) ==> NoNul(p)
  {
    SplitFromNoNul(s, sep, 0);
  }

  /** Joining strings without NUL with a separator without NUL gives a string without NUL. */
  lemma {:induction false} JoinNoNul(parts: seq<string>, sep: string)
    requires NoNul(sep) && forall p :: p in parts ==> NoNul(p)
    ensures NoNul(Join(parts, sep))
    decreases |parts|
  {
    if |parts| > 1 {
      assert parts[0] in parts;
      assert forall p :: p in parts[1..] ==> p in parts;
      JoinNoNul(parts[1..], sep);
    }
  }

  lemma {:induction false} JoinSplitFrom(s: string, sep: string, b: nat)
    requires |sep| > 0 && b <= |s| && !IsSuffix(sep, s)
    ensures Join(SplitFrom(s, sep, b), sep) == s[b..]
    decreases |s| - b
  {
    if b < |s| {
      var k := FindSep(s, sep, b);
      if k < |s| {
        FindSepSpec(s, sep, b);
        SliceAroundSep(s, sep, b, k);
        JoinSplitFrom(s, sep, k + |sep|);
        JoinSplitAt(s, sep, b, k);
        SameAround(Join(SplitFrom(s, sep, b), sep), s[b..k], sep, Join(SplitFrom(s, sep, k + |sep|), sep),
                   s[k + |sep|..], s[b..]);
      } else {
        SplitLast(s, sep, b);
      }
    }
  }

  /**
   * Joining the components of `s` with the separator rebuilds `s`, provided
   * `s` does not end in the separator (a final separator is dropped).
   */
  lemma JoinSplit(s: string, sep: string)
    requires |sep| > 0 && !IsSuffix(sep, s)
    ensures Join(Split(s, sep), sep) == s
  {
    JoinSplitFrom(s, sep, 0);
  }

  lemma {:induction false} SingleSepAt(s: string, c: char, j: nat)
    requires j < |s|
    ensures SepAt(s, [c], j) == (s[j] == c)
  {
    if j + 1 <= |s| {
      assert MatchFrom(s, [c], j, 1);
      assert SepAt(s, [c], j) == CharsMatch(s, [c], j, 0);
    }
  }

  /** Appending the separator does not move the first separator found in `s`. */
  lemma {:induction false} FindSepAppend(s: string, c: char, b: nat)
    requires b <= |s|
    ensures FindSep(s + [c], [c], b) == FindSep(s, [c], b)
    decreases |s| - b
  {
    var t := s + [c];
    if b == |s| {
      SingleSepAt(t, c, b);
    } else {
      SingleSepAt(t, c, b);
      SingleSepAt(s, c, b);
      FindSepAppend(s, c, b + 1);
    }
  }

  lemma {:induction false} SplitFromTrailingSep(s: string, c: char, b: nat)
    requires b <= |s|
    ensures SplitFrom(s + [c], [c], b)
         == SplitFrom(s, [c], b) + (if b == |s| || s[|s| - 1] == c then [""] else [])
    decreases |s| - b
  {
    var k := FindSep(s, [c], b);
    if b == |s| {
      TrailingSepAtEnd(s, c);
    } else if k < |s| {
      SplitFromTrailingSep(s, c, k + 1);
      TrailingSepBeforeSep(s, c, b, k);
    } else {
      TrailingSepNoSep(s, c, b);
    }
  }

  lemma AppendSlice(s: string, c: char, b: nat, k: nat)
    requires b <= k <= |s|
    ensures (s + [c])[b..k] == s[b..k]
  {
  }

  lemma SplitFromSameHead(s: string, t: string, sep: string, b: nat, k: nat, tail: seq<string>)
    requires |sep| > 0 && b <= k < |s| && k < |t|
    requires FindSep(s, sep, b) == k && FindSep(t, sep, b) == k && s[b..k] == t[b..k]
    requires SplitFrom(t, sep, k + |sep|) == SplitFrom(s, sep, k + |sep|) + tail
    ensures SplitFrom(t, sep, b) == SplitFrom(s, sep, b) + tail
  {
    SplitAt(s, sep, b);
    SplitAt(t, sep, b);
    ConsTail(SplitFrom(s, sep, b), SplitFrom(t, sep, b), s[b..k], t[b..k],
             SplitFrom(s, sep, k + |sep|), SplitFrom(t, sep, k + |sep|), tail);
  }

  lemma TrailingSepAtEnd(s: string, c: char)
    ensures SplitFrom(s + [c], [c], |s|) == [""]
  {
    var t := s + [c];
    SingleSepAt(t, c, |s|);
    SplitAt(t, [c], |s|);
    SplitEnd(t, [c]);
    assert t[|s|..|s|] == "";
  }

  lemma TrailingSepBeforeSep(s: string, c: char, b: nat, k: nat)
    requires b <= k < |s| && FindSep(s, [c], b) == k
    requires SplitFrom(s + [c], [c], k + 1)
          == SplitFrom(s, [c], k + 1) + (if k + 1 == |s| || s[|s| - 1] == c then [""] else [])
    ensures SplitFrom(s + [c], [c], b)
         == SplitFrom(s, [c], b) + (if s[|s| - 1] == c then [""] else [])
  {
    var t := s + [c];
    FindSepAppend(s, c, b);
    FindSepSpec(s, [c], b);
    SingleSepAt(s, c, k);
    AppendSlice(s, c, b, k);
    var tail: seq<string> := if s[|s| - 1] == c then [""] else [];
    assert (k + 1 == |s| || s[|s| - 1] == c) == (s[|s| - 1] == c);
    SplitFromSameHead(s, t, [c], b, k, tail);
  }

  lemma TrailingSepNoSep(s: string, c: char, b: nat)
    requires b < |s| && FindSep(s, [c], b) == |s|
    ensures SplitFrom(s + [c], [c], b) == SplitFrom(s, [c], b)
    ensures s[|s| - 1] != c
  {
    var t := s + [c];
    FindSepAppend(s, c, b);
    SingleSepAt(t, c, |s|);
    SplitAt(t, [c], b);
    SplitEnd(t, [c]);
    SplitLast(s, [c], b);
    assert t[b..|s|] == s[b..];
    FindSepSpec(s, [c], b);
    SingleSepAt(s, c, |s| - 1);
  }

  /**
   * A final single-character separator yields no trailing empty component of
   * its own: appending it only adds `""` when the text before it was empty or
   * already ended in the separator.
   */
  lemma SplitTrailingSep(s: string, c: char)
    ensures Split(s + [c], [c])
         == Split(s, [c]) + (if s == "" || s[|s| - 1] == c then [""] else [])
  {
    SplitFromTrailingSep(s, c, 0);
  }

  // ---------------------------------------------------------------------
  // BSwap

  /** The BSwap macro: reverses the four bytes of a 32-bit value. */
  function BSwap(v: bv32): (r: bv32)
    ensures r & 0xFF == v >> 24
    ensures (r >> 8) & 0xFF == (v >> 16) & 0xFF
    ensures (r >> 16) & 0xFF == (v >> 8) & 0xFF
    ensures r >> 24 == v & 0xFF
  {
    (v << 24) | ((v & 0xFF00) << 8) | ((v >> 8) & 0xFF00) | (v >> 24)
  }

  lemma BSwapInvolution(v: bv32)
    ensures BSwap(BSwap(v)) == v
  {
  }
}
