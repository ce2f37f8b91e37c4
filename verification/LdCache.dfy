/** The `ld.so.cache` lookup: a binary search over names decoded from bytes, in whichever direction the
    table is sorted, through runs of equal names. */
module LdCache {
  import opened Bytes
  import opened Usize
  import opened Utf8

  const HEADER_SIZE: nat := 48
  const ENTRY_SIZE: nat := 24
  const FLAG_TYPE_MASK: nat := 0x00ff
  const FLAG_LIBC6: nat := 0x0003
  const FLAG_ARCH_CURRENT: nat := 0x0300

  /** "glibc-ld.so.cache1.1" */
  const MAGIC_NEW: seq<byte> := [0x67, 0x6C, 0x69, 0x62, 0x63, 0x2D, 0x6C, 0x64, 0x2E, 0x73, 0x6F, 0x2E, 0x63,
                                 0x61, 0x63, 0x68, 0x65, 0x31, 0x2E, 0x31]
  const SLASH: byte := 0x2F

  datatype Cache = Cache(data: seq<byte>, headerOffset: nat, nlibs: nat, stringTableOffset: nat)

  datatype Opened = Opened(cache: Cache) | NoMagic | ShortHeader | EntriesExceedFile

  // ----- Bytes -----

  /** The bytes before the first zero, or all of them. */
  function UntilNul(s: seq<byte>): seq<byte> {
    if s == [] || s[0] == 0 then [] else [s[0]] + UntilNul(s[1..])
  }

  function ExtractStr(table: seq<byte>, offset: nat): Option<seq<byte>> {
    if offset >= |table| then None
    else
      var s := UntilNul(table[offset..]);
      if ValidUtf8(s) then Some(s) else None
  }

  predicate StartsWithSlash(s: seq<byte>) { s != [] && s[0] == SLASH }

  // ----- Order of strings: byte by byte -----

  datatype Ordering = Less | Equal | Greater

  function Cmp(a: seq<byte>, b: seq<byte>): Ordering {
    if a == [] && b == [] then Equal
    else if a == [] then Less
    else if b == [] then Greater
    else if a[0] < b[0] then Less
    else if a[0] > b[0] then Greater
    else Cmp(a[1..], b[1..])
  }

  lemma {:induction false} CmpEqual(a: seq<byte>, b: seq<byte>)
    ensures Cmp(a, b) == Equal <==> a == b
  {
    if a != [] && b != [] && a[0] == b[0] {
      CmpEqual(a[1..], b[1..]);
      assert a == [a[0]] + a[1..] && b == [b[0]] + b[1..];
    }
  }

  /** The strings agree up to `n`, and there the first ends or has the smaller byte. */
  predicate SmallerAt(a: seq<byte>, b: seq<byte>, n: nat) {
    && n <= |a| && n < |b| && a[..n] == b[..n]
    && (n == |a| || a[n] < b[n])
  }

  /** Less is what a dictionary of byte strings means by it. */
  lemma {:induction false} CmpLessExactly(a: seq<byte>, b: seq<byte>)
    ensures Cmp(a, b) == Less <==> exists n: nat :: SmallerAt(a, b, n)
    decreases |a|
  {
    if a != [] && b != [] && a[0] == b[0] {
      CmpLessExactly(a[1..], b[1..]);
      if n: nat :| SmallerAt(a[1..], b[1..], n) {
        assert a[..n + 1] == [a[0]] + a[1..][..n] && b[..n + 1] == [b[0]] + b[1..][..n];
        assert SmallerAt(a, b, n + 1);
      }
      if n: nat :| SmallerAt(a, b, n) {
        assert n > 0 && a[1..][..n - 1] == a[..n][1..] && b[1..][..n - 1] == b[..n][1..];
        assert SmallerAt(a[1..], b[1..], n - 1);
      }
    } else {
      assert forall n: nat :: n > 0 && SmallerAt(a, b, n) ==> a[..n][0] == b[..n][0];
      assert Cmp(a, b) == Less ==> SmallerAt(a, b, 0);
    }
  }

  lemma {:induction false} CmpFlip(a: seq<byte>, b: seq<byte>)
    ensures Cmp(a, b) == Less <==> Cmp(b, a) == Greater
  {
    if a != [] && b != [] && a[0] == b[0] { CmpFlip(a[1..], b[1..]); }
  }

  lemma {:induction false} LessTransitive(a: seq<byte>, b: seq<byte>, c: seq<byte>)
    requires Cmp(a, b) == Less && Cmp(b, c) == Less
    ensures Cmp(a, c) == Less
  {
    if a != [] && a[0] == b[0] == c[0] { LessTransitive(a[1..], b[1..], c[1..]); }
  }

  // ----- Opening -----

  predicate MagicAt(buffer: seq<byte>, at: nat) {
    at + |MAGIC_NEW| <= |buffer| && buffer[at..at + |MAGIC_NEW|] == MAGIC_NEW
  }

  /** The first window at or after `from` that holds the magic. */
  function FindMagic(buffer: seq<byte>, from: nat): (r: Option<nat>)
    ensures r.Some? ==> from <= r.value && MagicAt(buffer, r.value)
                        && forall i :: from <= i < r.value ==> !MagicAt(buffer, i)
    ensures r.None? ==> forall i :: from <= i ==> !MagicAt(buffer, i)
    decreases |buffer| - from
  {
    if from + |MAGIC_NEW| > |buffer| then None
    else if MagicAt(buffer, from) then Some(from)
    else FindMagic(buffer, from + 1)
  }

  function New(buffer: seq<byte>): Opened {
    match FindMagic(buffer, 0)
    case None => NoMagic
    case Some(start) =>
      var header := buffer[start..];
      if |header| < HEADER_SIZE then ShortHeader
      else
        var nlibs := LittleEndian(header[20..24]);
        var stringTableOffset := start + HEADER_SIZE + nlibs * ENTRY_SIZE;
        if stringTableOffset > |buffer| then EntriesExceedFile
        else Opened(Cache(buffer, start, nlibs, stringTableOffset))
  }

  /** The shape of every cache that opens. */
  ghost predicate Valid(c: Cache) {
    && c.stringTableOffset == c.headerOffset + HEADER_SIZE + c.nlibs * ENTRY_SIZE
    && c.stringTableOffset <= |c.data|
  }

  function EntryOffset(c: Cache, idx: nat): nat {
    c.headerOffset + HEADER_SIZE + idx * ENTRY_SIZE
  }

  function Word(c: Cache, at: nat): nat
    requires at + 4 <= |c.data|
  {
    LittleEndian(c.data[at..at + 4])
  }

  /** Reading from the header, then from the string table: the way both strings of an entry are found. */
  function GetName(c: Cache, idx: nat): Option<seq<byte>>
    requires Valid(c)
  {
    var at := EntryOffset(c, idx);
    if at + 8 > |c.data| then None
    else
      var keyIdx := Word(c, at + 4);
      var s := ExtractStr(c.data[c.headerOffset..], keyIdx);
      if s.Some? && s.value != [] && !StartsWithSlash(s.value) then s
      else ExtractStr(c.data[c.stringTableOffset..], keyIdx)
  }

  function GetPath(c: Cache, idx: nat): Option<seq<byte>>
    requires Valid(c)
  {
    var at := EntryOffset(c, idx);
    if at + 12 > |c.data| then None
    else
      var valIdx := Word(c, at + 8);
      var s := ExtractStr(c.data[c.headerOffset..], valIdx);
      if s.Some? && StartsWithSlash(s.value) then s
      else ExtractStr(c.data[c.stringTableOffset..], valIdx)
  }

  predicate CheckFlags(c: Cache, idx: nat)
    requires Valid(c)
  {
    var at := EntryOffset(c, idx);
    if at + 4 > |c.data| then false
    else
      var flags := Word(c, at);
      And(flags, FLAG_TYPE_MASK) == FLAG_LIBC6
      && !(FLAG_ARCH_CURRENT != 0 && And(flags, FLAG_ARCH_CURRENT) == 0)
  }

  /** What opening accepts: the first magic in the file with a whole header and all its entries after it. Then
      every read of an entry below `nlibs` is inside the file, so it never fails for lack of bytes. */
  lemma OpensExactly(buffer: seq<byte>, c: Cache)
    ensures New(buffer) == Opened(c) <==>
            && c.data == buffer && MagicAt(buffer, c.headerOffset)
            && (forall i :: 0 <= i < c.headerOffset ==> !MagicAt(buffer, i))
            && c.headerOffset + HEADER_SIZE <= |buffer|
            && c.nlibs == LittleEndian(buffer[c.headerOffset + 20..c.headerOffset + 24])
            && Valid(c)
    ensures New(buffer) == Opened(c) ==>
              forall idx :: 0 <= idx < c.nlibs ==> EntryOffset(c, idx) + ENTRY_SIZE <= |c.data|
  {
    var found := FindMagic(buffer, 0);
    if MagicAt(buffer, c.headerOffset) && (forall i :: 0 <= i < c.headerOffset ==> !MagicAt(buffer, i)) {
      assert found.Some?;
      assert found.value <= c.headerOffset;
      assert c.headerOffset <= found.value;
      if c.headerOffset + HEADER_SIZE <= |buffer| {
        assert buffer[c.headerOffset..][20..24] == buffer[c.headerOffset + 20..c.headerOffset + 24];
      }
    }
    if found.Some? && found.value + HEADER_SIZE <= |buffer| {
      assert buffer[found.value..][20..24] == buffer[found.value + 20..found.value + 24];
    }
  }

  // ----- What decoding an entry means -----

  lemma HighMask(w: nat)
    ensures And(w, 0x300) == 256 * And(w / 256, 3) && And(w, 0xff) == w % 256
  {
    hide And;
    assert Pow2(4) == 16 && Pow2(8) == 256;
    MaskIsRemainder(w, 8);
    RemainderUnique(w, 256, And(w, 0xff));
    AndHalves(w, 0x300, 0x180);
    AndHalves(w / 2, 0x180, 0xC0);
    AndHalves(w / 4, 0xC0, 0x60);
    AndHalves(w / 8, 0x60, 0x30);
    AndHalves(w / 16, 0x30, 0x18);
    AndHalves(w / 32, 0x18, 0xC);
    AndHalves(w / 64, 0xC, 6);
    AndHalves(w / 128, 6, 3);
  }

  lemma AndHalves(w: nat, m: nat, h: nat)
    requires m == 2 * h
    ensures And(w, m) == 2 * And(w / 2, h)
  {
    AndUnfold(w, m);
  }

  /** The flags accepted: the low byte says an ELF library for glibc 2, and the low two bits of the next one are
      not both clear. */
  lemma FlagsExactly(c: Cache, idx: nat)
    requires Valid(c) && EntryOffset(c, idx) + 4 <= |c.data|
    ensures CheckFlags(c, idx) <==>
            Word(c, EntryOffset(c, idx)) % 256 == 3 && Word(c, EntryOffset(c, idx)) / 256 % 4 != 0
  {
    var w := Word(c, EntryOffset(c, idx));
    HighMask(w);
    assert Pow2(2) == 4;
    MaskIsRemainder(w / 256, 2);
    RemainderUnique(w / 256, 4, And(w / 256, 3));
    hide And, Word;
  }

  /** The string that starts here: up to the next zero byte, or to the end of the file. */
  ghost predicate StringAt(data: seq<byte>, at: nat, s: seq<byte>) {
    && at < |data| && at + |s| <= |data| && data[at..at + |s|] == s && 0 !in s
    && (at + |s| == |data| || data[at + |s|] == 0)
  }

  lemma {:induction false} UntilNulExactly(data: seq<byte>, s: seq<byte>)
    ensures UntilNul(data) == s <==>
            |s| <= |data| && data[..|s|] == s && 0 !in s && (|s| == |data| || data[|s|] == 0)
    decreases |data|
  {
    if data != [] && data[0] != 0 && s != [] {
      UntilNulExactly(data[1..], s[1..]);
      assert s == [s[0]] + s[1..];
      if |s| <= |data| {
        assert data[..|s|] == [data[0]] + data[1..][..|s| - 1];
        assert 0 in s <==> s[0] == 0 || 0 in s[1..];
      }
    }
  }

  /** Extracting finds the string that starts there, if it is UTF-8. */
  lemma ExtractExactly(data: seq<byte>, base: nat, offset: nat, s: seq<byte>)
    requires base <= |data|
    ensures ExtractStr(data[base..], offset) == Some(s) <==> StringAt(data, base + offset, s) && ValidUtf8(s)
  {
    if base + offset < |data| {
      var tail := data[base..][offset..];
      assert tail == data[base + offset..];
      UntilNulExactly(tail, s);
      assert |s| <= |tail| ==> tail[..|s|] == data[base + offset..base + offset + |s|];
    }
  }

  /** The string at this offset from the header or the string table. */
  ghost predicate Text(c: Cache, base: nat, offset: nat, s: seq<byte>) {
    StringAt(c.data, base + offset, s) && ValidUtf8(s)
  }

  lemma Texts(c: Cache, base: nat, offset: nat)
    requires base <= |c.data|
    ensures forall s :: Text(c, base, offset, s) <==> ExtractStr(c.data[base..], offset) == Some(s)
  {
    forall s
      ensures Text(c, base, offset, s) <==> ExtractStr(c.data[base..], offset) == Some(s)
    {
      ExtractExactly(c.data, base, offset, s);
      hide ExtractStr, StringAt, ValidUtf8;
    }
  }

  /** An entry's name, by the places of its strings: the one counted from the header if it is UTF-8 and could be a
      name, and otherwise the one counted from the string table. */
  lemma NameExactly(c: Cache, idx: nat, name: seq<byte>)
    requires Valid(c) && EntryOffset(c, idx) + ENTRY_SIZE <= |c.data|
    ensures var at := Word(c, EntryOffset(c, idx) + 4);
            GetName(c, idx) == Some(name) <==>
            || (Text(c, c.headerOffset, at, name) && name != [] && name[0] != 0x2F)
            || (Text(c, c.stringTableOffset, at, name)
                && forall s :: Text(c, c.headerOffset, at, s) ==> s == [] || s[0] == 0x2F)
  {
    var at := Word(c, EntryOffset(c, idx) + 4);
    Texts(c, c.headerOffset, at);
    Texts(c, c.stringTableOffset, at);
    hide ExtractStr, Text, Word;
    var first := ExtractStr(c.data[c.headerOffset..], at);
    if first.Some? { assert Text(c, c.headerOffset, at, first.value); }
  }

  /** An entry's path likewise: from the header if it starts with a slash, and otherwise from the string table. */
  lemma PathExactly(c: Cache, idx: nat, path: seq<byte>)
    requires Valid(c) && EntryOffset(c, idx) + ENTRY_SIZE <= |c.data|
    ensures var at := Word(c, EntryOffset(c, idx) + 8);
            GetPath(c, idx) == Some(path) <==>
            || (Text(c, c.headerOffset, at, path) && path != [] && path[0] == 0x2F)
            || (Text(c, c.stringTableOffset, at, path)
                && forall s :: Text(c, c.headerOffset, at, s) ==> s == [] || s[0] != 0x2F)
  {
    var at := Word(c, EntryOffset(c, idx) + 8);
    Texts(c, c.headerOffset, at);
    Texts(c, c.stringTableOffset, at);
    hide ExtractStr, Text, Word;
    var first := ExtractStr(c.data[c.headerOffset..], at);
    if first.Some? { assert Text(c, c.headerOffset, at, first.value); }
  }

  // ----- Lookup -----

  ghost predicate Usable(c: Cache, libName: seq<byte>, i: nat)
    requires Valid(c)
  {
    GetName(c, i) == Some(libName) && CheckFlags(c, i) && GetPath(c, i).Some?
  }

  /** The path of the first usable entry with that name at or after `i`. */
  ghost function FirstUsable(c: Cache, libName: seq<byte>, i: nat): Option<seq<byte>>
    requires Valid(c)
    decreases c.nlibs - i
  {
    if i >= c.nlibs then None
    else if Usable(c, libName, i) then GetPath(c, i)
    else FirstUsable(c, libName, i + 1)
  }

  /** Every name decodes. */
  ghost predicate Decodes(c: Cache)
    requires Valid(c)
  {
    forall i :: 0 <= i < c.nlibs ==> GetName(c, i).Some?
  }

  /** `a` comes strictly before `b` in the direction of the table. */
  predicate Before(descending: bool, a: seq<byte>, b: seq<byte>) {
    Cmp(a, b) == if descending then Greater else Less
  }

  /** No entry comes strictly before its predecessor. */
  ghost predicate Sorted(c: Cache, descending: bool)
    requires Valid(c) && Decodes(c)
  {
    forall i :: 0 < i < c.nlibs ==> !Before(descending, GetName(c, i).value, GetName(c, i - 1).value)
  }

  ghost predicate Searchable(c: Cache)
    requires Valid(c)
  {
    Decodes(c) && (Sorted(c, false) || Sorted(c, true))
  }

  lemma BeforeOrder(d: bool, a: seq<byte>, b: seq<byte>)
    ensures !(Before(d, a, b) && Before(d, b, a))
    ensures a == b <==> !Before(d, a, b) && !Before(d, b, a)
  {
    CmpEqual(a, b);
    CmpFlip(a, b);
    CmpFlip(b, a);
  }

  /** Coming before, through a step that is not backwards. */
  lemma BeforeExtends(d: bool, a: seq<byte>, b: seq<byte>, c: seq<byte>)
    ensures Before(d, a, b) && !Before(d, c, b) ==> Before(d, a, c)
    ensures !Before(d, b, a) && Before(d, b, c) ==> Before(d, a, c)
    ensures !Before(d, b, a) && !Before(d, c, b) ==> !Before(d, c, a)
  {
    BeforeOrder(d, a, b);
    BeforeOrder(d, b, c);
    BeforeOrder(d, a, c);
    if Before(d, a, b) && Before(d, b, c) { BeforeTransitive(d, a, b, c); }
  }

  lemma BeforeTransitive(d: bool, a: seq<byte>, b: seq<byte>, c: seq<byte>)
    requires Before(d, a, b) && Before(d, b, c)
    ensures Before(d, a, c)
  {
    if d {
      CmpFlip(c, b);
      CmpFlip(b, a);
      LessTransitive(c, b, a);
      CmpFlip(c, a);
    } else {
      LessTransitive(a, b, c);
    }
  }

  lemma {:induction false} SortedFar(c: Cache, d: bool, i: nat, j: nat)
    requires Valid(c) && Decodes(c) && Sorted(c, d) && i <= j < c.nlibs
    ensures !Before(d, GetName(c, j).value, GetName(c, i).value)
    decreases j - i
  {
    hide Before, GetName;
    if i == j {
      BeforeOrder(d, GetName(c, i).value, GetName(c, i).value);
    } else {
      SortedFar(c, d, i, j - 1);
      BeforeExtends(d, GetName(c, i).value, GetName(c, j - 1).value, GetName(c, j).value);
    }
  }

  lemma AllTheSame(c: Cache)
    requires Valid(c) && Decodes(c) && Sorted(c, true) && c.nlibs > 0
    requires !Before(true, GetName(c, 0).value, GetName(c, c.nlibs - 1).value)
    ensures forall i :: 0 <= i < c.nlibs ==> GetName(c, i).value == GetName(c, 0).value
  {
    hide Before, GetName, Sorted;
    var first, last := GetName(c, 0).value, GetName(c, c.nlibs - 1).value;
    forall i | 0 <= i < c.nlibs
      ensures GetName(c, i).value == first
    {
      SortedFar(c, true, 0, i);
      SortedFar(c, true, i, c.nlibs - 1);
      BeforeOrder(true, first, GetName(c, i).value);
      BeforeExtends(true, first, GetName(c, i).value, last);
    }
  }

  /** Comparing the first and last names finds a direction the table is sorted in. */
  lemma DirectionFound(c: Cache)
    requires Valid(c) && Searchable(c) && c.nlibs > 0
    ensures Sorted(c, Cmp(GetName(c, 0).value, GetName(c, c.nlibs - 1).value) == Greater)
  {
    var first, last := GetName(c, 0).value, GetName(c, c.nlibs - 1).value;
    hide GetName, Cmp;
    if Sorted(c, false) {
      SortedFar(c, false, 0, c.nlibs - 1);
      CmpFlip(last, first);
    } else if Cmp(first, last) != Greater {
      AllTheSame(c);
      BeforeOrder(false, first, first);
    }
  }

  lemma {:induction false} FirstUsableSkips(c: Cache, libName: seq<byte>, i: nat, j: nat)
    requires Valid(c) && i <= j <= c.nlibs && forall k :: i <= k < j ==> GetName(c, k) != Some(libName)
    ensures FirstUsable(c, libName, i) == FirstUsable(c, libName, j)
    decreases j - i
  {
    hide CheckFlags, GetPath, GetName;
    if i < j { FirstUsableSkips(c, libName, i + 1, j); }
  }

  /** Entry `k` is the first usable one at or after `i`. */
  ghost predicate UsableFirst(c: Cache, libName: seq<byte>, i: nat, k: nat)
    requires Valid(c)
  {
    i <= k < c.nlibs && Usable(c, libName, k) && forall j :: i <= j < k ==> !Usable(c, libName, j)
  }

  lemma {:induction false} FirstUsableMeans(c: Cache, libName: seq<byte>, i: nat)
    requires Valid(c)
    ensures FirstUsable(c, libName, i).None? <==> forall k :: i <= k < c.nlibs ==> !Usable(c, libName, k)
    ensures FirstUsable(c, libName, i).Some? ==>
              exists k :: UsableFirst(c, libName, i, k) && GetPath(c, k) == FirstUsable(c, libName, i)
    decreases c.nlibs - i
  {
    hide GetPath, GetName, CheckFlags;
    if i < c.nlibs && !Usable(c, libName, i) {
      FirstUsableMeans(c, libName, i + 1);
      if FirstUsable(c, libName, i + 1).Some? {
        var k :| UsableFirst(c, libName, i + 1, k) && GetPath(c, k) == FirstUsable(c, libName, i + 1);
        assert UsableFirst(c, libName, i, k);
      }
    } else if i < c.nlibs {
      assert UsableFirst(c, libName, i, i);
    }
  }

  /** Entries before `left` come before the name and those from `right` on come after it. */
  ghost predicate Narrowed(c: Cache, d: bool, libName: seq<byte>, left: nat, right: nat)
    requires Valid(c) && Decodes(c)
  {
    && (forall i :: 0 <= i < left && i < c.nlibs ==> Before(d, GetName(c, i).value, libName))
    && (forall i :: right <= i < c.nlibs ==> Before(d, libName, GetName(c, i).value))
  }

  lemma NothingNarrowed(c: Cache, d: bool, libName: seq<byte>)
    requires Valid(c) && Decodes(c)
    ensures Narrowed(c, d, libName, 0, c.nlibs)
  {
  }

  lemma NarrowLeft(c: Cache, d: bool, libName: seq<byte>, left: nat, mid: nat, right: nat)
    requires Valid(c) && Decodes(c) && Sorted(c, d) && mid < c.nlibs && Narrowed(c, d, libName, left, right)
    requires Before(d, GetName(c, mid).value, libName)
    ensures Narrowed(c, d, libName, mid + 1, right)
  {
    hide Before, GetName, Sorted;
    forall i | 0 <= i < mid + 1
      ensures Before(d, GetName(c, i).value, libName)
    {
      SortedFar(c, d, i, mid);
      BeforeExtends(d, GetName(c, i).value, GetName(c, mid).value, libName);
    }
  }

  lemma NarrowRight(c: Cache, d: bool, libName: seq<byte>, left: nat, mid: nat, right: nat)
    requires Valid(c) && Decodes(c) && Sorted(c, d) && mid < c.nlibs && Narrowed(c, d, libName, left, right)
    requires Before(d, libName, GetName(c, mid).value)
    ensures Narrowed(c, d, libName, left, mid)
  {
    hide Before, GetName, Sorted;
    forall i | mid <= i < c.nlibs
      ensures Before(d, libName, GetName(c, i).value)
    {
      SortedFar(c, d, mid, i);
      BeforeExtends(d, libName, GetName(c, mid).value, GetName(c, i).value);
    }
  }

  /** Outside a run of equal names the name does not occur again. */
  lemma RunIsAll(c: Cache, d: bool, libName: seq<byte>, at: nat, outside: nat)
    requires Valid(c) && Decodes(c) && Sorted(c, d) && at < c.nlibs && outside < c.nlibs
    requires GetName(c, at) == Some(libName) && GetName(c, outside) != Some(libName)
    ensures outside < at ==> forall i :: 0 <= i <= outside ==> GetName(c, i) != Some(libName)
    ensures at < outside ==> forall i :: outside <= i < c.nlibs ==> GetName(c, i) != Some(libName)
  {
    hide Before, GetName, Sorted;
    var name := GetName(c, outside).value;
    BeforeOrder(d, name, libName);
    if outside < at {
      forall i | 0 <= i <= outside
        ensures GetName(c, i) != Some(libName)
      {
        SortedFar(c, d, i, outside);
        SortedFar(c, d, outside, at);
      }
    } else {
      forall i | outside <= i < c.nlibs
        ensures GetName(c, i) != Some(libName)
      {
        SortedFar(c, d, at, outside);
        SortedFar(c, d, outside, i);
      }
    }
  }

  // ----- The search, on any cache -----

  /** Where the run of equal names around `mid` starts. */
  function RunStart(c: Cache, libName: seq<byte>, mid: nat): (start: nat)
    requires Valid(c)
    ensures start <= mid
  {
    if mid > 0 && GetName(c, mid - 1) == Some(libName) then RunStart(c, libName, mid - 1) else mid
  }

  /** The path of the first usable entry of the run that starts at `i`. */
  function ScanFrom(c: Cache, libName: seq<byte>, i: nat): Option<seq<byte>>
    requires Valid(c)
    decreases c.nlibs - i
  {
    if i >= c.nlibs || GetName(c, i) != Some(libName) then None
    else if CheckFlags(c, i) && GetPath(c, i).Some? then GetPath(c, i)
    else ScanFrom(c, libName, i + 1)
  }

  /** The entry at which halving [left, right) hits the name. */
  function Hit(c: Cache, descending: bool, libName: seq<byte>, left: nat, right: nat): (hit: Option<nat>)
    requires Valid(c)
    ensures hit.Some? ==> left <= hit.value < right && GetName(c, hit.value) == Some(libName)
    decreases right - left
  {
    if left >= right then None
    else
      var mid: nat := left + (right - left) / 2;
      match GetName(c, mid)
      case None => None
      case Some(name) =>
        CmpEqual(name, libName);
        CmpEqual(libName, name);
        match if descending then Cmp(name, libName) else Cmp(libName, name)
        case Equal => Some(mid)
        case Less => Hit(c, descending, libName, left, mid)
        case Greater => Hit(c, descending, libName, mid + 1, right)
  }

  /** The lookup's answer on any cache: what the run scanned around the entry it hits has to offer. */
  function Searched(c: Cache, libName: seq<byte>): Option<seq<byte>>
    requires Valid(c)
  {
    if c.nlibs == 0 || GetName(c, 0).None? || GetName(c, c.nlibs - 1).None? then None
    else
      var descending := Cmp(GetName(c, 0).value, GetName(c, c.nlibs - 1).value) == Greater;
      match Hit(c, descending, libName, 0, c.nlibs)
      case None => None
      case Some(mid) => ScanFrom(c, libName, RunStart(c, libName, mid))
  }

  /** What every lookup promises: a path comes from a usable entry, and in a searchable cache it is the one
      of the first usable entry. */
  ghost predicate Answers(c: Cache, libName: seq<byte>, r: Option<seq<byte>>)
    requires Valid(c)
  {
    && (r.Some? ==> exists i :: 0 <= i < c.nlibs && Usable(c, libName, i) && GetPath(c, i) == r)
    && (Searchable(c) ==> r == FirstUsable(c, libName, 0))
  }

  /** Walks back to the start of the run of equal names around `mid`, then scans it forward. */
  method ScanRun(c: Cache, ghost d: bool, mid: nat, libName: seq<byte>) returns (r: Option<seq<byte>>)
    requires Valid(c) && mid < c.nlibs && GetName(c, mid) == Some(libName)
    requires Searchable(c) ==> Sorted(c, d)
    ensures Answers(c, libName, r) && r == ScanFrom(c, libName, RunStart(c, libName, mid))
  {
    hide GetName, GetPath, CheckFlags, Sorted;
    var start: nat := mid;
    while start > 0 && GetName(c, start - 1) == Some(libName)
      invariant start <= mid && GetName(c, start) == Some(libName)
      invariant RunStart(c, libName, start) == RunStart(c, libName, mid)
    {
      start := start - 1;
    }
    if Searchable(c) {
      if start > 0 { RunIsAll(c, d, libName, start, start - 1); }
      FirstUsableSkips(c, libName, 0, start);
    }
    var i: nat := start;
    while i < c.nlibs && GetName(c, i) == Some(libName)
      invariant start <= i <= c.nlibs
      invariant FirstUsable(c, libName, start) == FirstUsable(c, libName, i)
      invariant ScanFrom(c, libName, start) == ScanFrom(c, libName, i)
    {
      if CheckFlags(c, i) {
        var path := GetPath(c, i);
        if path.Some? {
          assert Usable(c, libName, i);
          return path;
        }
      }
      i := i + 1;
    }
    if Searchable(c) {
      if i < c.nlibs { RunIsAll(c, d, libName, start, i); }
      FirstUsableSkips(c, libName, i, c.nlibs);
    }
    r := None;
  }

  /** Finding nothing is an answer where no entry has the name, and where some name does not decode. */
  lemma MissAnswers(c: Cache, d: bool, libName: seq<byte>, left: nat)
    requires Valid(c) && (Searchable(c) ==> Narrowed(c, d, libName, left, left))
    ensures Answers(c, libName, None)
  {
    hide GetName, GetPath, CheckFlags, Sorted, Cmp;
    if Searchable(c) {
      BeforeOrder(d, libName, libName);
      FirstUsableSkips(c, libName, 0, c.nlibs);
    }
  }

  lemma UndecodedAnswers(c: Cache, libName: seq<byte>, i: nat)
    requires Valid(c) && i < c.nlibs && GetName(c, i).None?
    ensures !Searchable(c) && Answers(c, libName, None)
  {
    hide GetName, GetPath, CheckFlags, Sorted, Cmp;
  }

  /** `lookup`. */
  method Lookup(c: Cache, libName: seq<byte>) returns (r: Option<seq<byte>>)
    requires Valid(c)
    ensures Answers(c, libName, r) && r == Searched(c, libName)
  {
    hide GetName, GetPath, CheckFlags, Sorted, Cmp, ScanFrom, RunStart, Answers, Narrowed;
    if c.nlibs == 0 {
      if Searchable(c) { NothingNarrowed(c, false, libName); }
      MissAnswers(c, false, libName, 0);
      return None;
    }
    var firstName := GetName(c, 0);
    if firstName.None? {
      UndecodedAnswers(c, libName, 0);
      return None;
    }
    var lastName := GetName(c, c.nlibs - 1);
    if lastName.None? {
      UndecodedAnswers(c, libName, c.nlibs - 1);
      return None;
    }
    var isDescending := Cmp(firstName.value, lastName.value) == Greater;
    if Searchable(c) {
      DirectionFound(c);
      NothingNarrowed(c, isDescending, libName);
    }
    var left: nat, right: nat := 0, c.nlibs;
    while left < right
      invariant left <= right <= c.nlibs
      invariant Searchable(c) ==> Narrowed(c, isDescending, libName, left, right)
      invariant Hit(c, isDescending, libName, left, right) == Hit(c, isDescending, libName, 0, c.nlibs)
    {
      var mid: nat := left + (right - left) / 2;
      var name := GetName(c, mid);
      if name.None? {
        UndecodedAnswers(c, libName, mid);
        return None;
      }
      var cmp := if isDescending then Cmp(name.value, libName) else Cmp(libName, name.value);
      CmpEqual(name.value, libName);
      CmpEqual(libName, name.value);
      CmpFlip(libName, name.value);
      CmpFlip(name.value, libName);
      match cmp
      case Equal =>
        r := ScanRun(c, isDescending, mid, libName);
        return;
      case Less =>
        if Searchable(c) { NarrowRight(c, isDescending, libName, left, mid, right); }
        right := mid;
      case Greater =>
        if Searchable(c) { NarrowLeft(c, isDescending, libName, left, mid, right); }
        left := mid + 1;
    }
    MissAnswers(c, isDescending, libName, left);
    r := None;
  }
}
