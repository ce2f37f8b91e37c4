/** Small cache files, byte by byte: what decoding finds in them and what the lookup answers. */
module LdCacheFiles {
  import opened Bytes
  import opened Usize
  import opened Utf8
  import opened LdCache

  // ----- A cache in the order of version numbers -----

  const NAME_10: seq<byte> := [0x31, 0x30]
  const NAME_9: seq<byte> := [0x39]
  const NAME_1: seq<byte> := [0x31]
  const PATH_A: seq<byte> := [SLASH, 0x61]

  /** An entry with these two bytes of flags, its name and path at these places in the file. */
  function EntryBytes(kind: byte, arch: byte, key: byte, value: byte): (e: seq<byte>)
    ensures |e| == ENTRY_SIZE
  {
    [kind, arch, 0, 0, key, 0, 0, 0, value, 0, 0, 0] + seq(12, _ => 0)
  }

  const HEADER_BYTES: seq<byte> := MAGIC_NEW + [3, 0, 0, 0] + seq(24, _ => 0)
  const STRING_BYTES: seq<byte> := NAME_10 + [0] + NAME_9 + [0] + NAME_1 + [0] + PATH_A + [0]

  /** Three entries "10", "9", "1": descending as numbers, which is how glibc orders digits in library names, but
      not byte by byte. */
  const NUMBERED: seq<byte> :=
    HEADER_BYTES + EntryBytes(3, 3, 120, 127) + EntryBytes(3, 3, 123, 127) + EntryBytes(3, 3, 125, 127) + STRING_BYTES

  const NUMBERED_CACHE: Cache := Cache(NUMBERED, 0, 3, 120)

  /** A string without a zero, up to the zero after it. */
  lemma {:induction false} UntilNulIs(table: seq<byte>, s: seq<byte>)
    requires |s| < |table| && table[..|s|] == s && table[|s|] == 0
    requires forall i :: 0 <= i < |s| ==> s[i] != 0
    ensures UntilNul(table) == s
  {
    if s != [] {
      assert table[0] == s[0] != 0;
      assert table[1..][..|s| - 1] == table[..|s|][1..] == s[1..];
      UntilNulIs(table[1..], s[1..]);
    }
  }

  lemma {:induction false} AsciiValid(s: seq<byte>)
    requires forall i :: 0 <= i < |s| ==> s[i] <= 0x7F
    ensures ValidUtf8(s)
  {
    if s != [] { AsciiValid(s[1..]); }
  }

  lemma ExtractAt(table: seq<byte>, at: nat, s: seq<byte>)
    requires at + |s| < |table| && table[at..at + |s|] == s && table[at + |s|] == 0
    requires forall i :: 0 <= i < |s| ==> 0 < s[i] <= 0x7F
    ensures ExtractStr(table, at) == Some(s)
  {
    assert table[at..][..|s|] == s;
    UntilNulIs(table[at..], s);
    AsciiValid(s);
  }

  lemma EntryWords(e: seq<byte>, kind: byte, arch: byte, key: byte, value: byte)
    requires e == EntryBytes(kind, arch, key, value)
    ensures LittleEndian(e[0..4]) == kind + 256 * arch
    ensures LittleEndian(e[4..8]) == key && LittleEndian(e[8..12]) == value
  {
    assert e[0..4] == [kind, arch, 0, 0] && e[4..8] == [key, 0, 0, 0] && e[8..12] == [value, 0, 0, 0];
    WordOf(kind, arch);
    WordOf(key, 0);
    WordOf(value, 0);
  }

  lemma WordOf(low: byte, high: byte)
    ensures LittleEndian([low, high, 0, 0]) == low + 256 * high
  {
    assert [low, high, 0, 0][1..] == [high, 0, 0] && [high, 0, 0][1..] == [0, 0] && [0, 0][1..] == [0];
    assert LittleEndian([0]) == 0 && LittleEndian([0, 0]) == 0;
  }

  lemma SliceOfSlice(s: seq<byte>, at: nat, n: nat, i: nat, j: nat)
    requires at + n <= |s| && i <= j <= n
    ensures s[at..at + n][i..j] == s[at + i..at + j]
  {
    var a, b := s[at..at + n][i..j], s[at + i..at + j];
    assert |a| == |b| && forall k :: 0 <= k < |a| ==> a[k] == b[k];
  }

  /** An entry whose strings lie in the file, counted from its header: its name, its path, and whether its flags
      pass. */
  lemma EntryDecodes(c: Cache, i: nat, kind: byte, arch: byte, key: byte, value: byte, name: seq<byte>, path: seq<byte>)
    requires Valid(c) && i < c.nlibs && c.headerOffset == 0
    requires c.data[EntryOffset(c, i)..EntryOffset(c, i) + ENTRY_SIZE] == EntryBytes(kind, arch, key, value)
    requires ExtractStr(c.data, key) == Some(name) && name != [] && !StartsWithSlash(name)
    requires ExtractStr(c.data, value) == Some(path) && StartsWithSlash(path)
    ensures GetName(c, i) == Some(name) && GetPath(c, i) == Some(path)
    ensures CheckFlags(c, i) <==> kind == 3 && arch % 4 != 0
  {
    hide ExtractStr, LittleEndian, CheckFlags, EntryBytes;
    var at := EntryOffset(c, i);
    var e := c.data[at..at + ENTRY_SIZE];
    assert c.data[0..] == c.data;
    SliceOfSlice(c.data, at, ENTRY_SIZE, 0, 4);
    SliceOfSlice(c.data, at, ENTRY_SIZE, 4, 8);
    SliceOfSlice(c.data, at, ENTRY_SIZE, 8, 12);
    EntryWords(e, kind, arch, key, value);
    FlagsExactly(c, i);
  }

  lemma NumberedStrings()
    ensures ExtractStr(NUMBERED, 120) == Some(NAME_10) && ExtractStr(NUMBERED, 123) == Some(NAME_9)
    ensures ExtractStr(NUMBERED, 125) == Some(NAME_1) && ExtractStr(NUMBERED, 127) == Some(PATH_A)
  {
    hide ExtractStr;
    assert NUMBERED[120..] == STRING_BYTES;
    StringAt(120, NAME_10);
    StringAt(123, NAME_9);
    StringAt(125, NAME_1);
    StringAt(127, PATH_A);
  }

  lemma StringAt(at: nat, s: seq<byte>)
    requires NUMBERED[120..] == STRING_BYTES && 120 <= at && at + |s| < 130
    requires STRING_BYTES[at - 120..at - 120 + |s|] == s && STRING_BYTES[at - 120 + |s|] == 0
    requires forall i :: 0 <= i < |s| ==> 0 < s[i] <= 0x7F
    ensures ExtractStr(NUMBERED, at) == Some(s)
  {
    assert NUMBERED[120..][at - 120..at - 120 + |s|] == NUMBERED[at..at + |s|];
    assert NUMBERED[120..][at - 120 + |s|] == NUMBERED[at + |s|];
    ExtractAt(NUMBERED, at, s);
  }

  /** What the file's names and paths decode to. */
  lemma NumberedNames()
    ensures Valid(NUMBERED_CACHE)
    ensures GetName(NUMBERED_CACHE, 0) == Some(NAME_10) && GetName(NUMBERED_CACHE, 1) == Some(NAME_9)
    ensures GetName(NUMBERED_CACHE, 2) == Some(NAME_1)
    ensures GetPath(NUMBERED_CACHE, 0) == Some(PATH_A) && CheckFlags(NUMBERED_CACHE, 0)
  {
    hide ExtractStr, GetName, GetPath, CheckFlags;
    NumberedStrings();
    assert NUMBERED[48..72] == EntryBytes(3, 3, 120, 127);
    assert NUMBERED[72..96] == EntryBytes(3, 3, 123, 127);
    assert NUMBERED[96..120] == EntryBytes(3, 3, 125, 127);
    EntryDecodes(NUMBERED_CACHE, 0, 3, 3, 120, 127, NAME_10, PATH_A);
    EntryDecodes(NUMBERED_CACHE, 1, 3, 3, 123, 127, NAME_9, PATH_A);
    EntryDecodes(NUMBERED_CACHE, 2, 3, 3, 125, 127, NAME_1, PATH_A);
  }

  lemma NumberedOpens()
    ensures New(NUMBERED) == Opened(NUMBERED_CACHE)
  {
    hide FindMagic;
    assert NUMBERED[0..20] == MAGIC_NEW;
    assert NUMBERED[20..24] == [3, 0, 0, 0];
    assert LittleEndian([3, 0, 0, 0]) == 3;
    OpensExactly(NUMBERED, NUMBERED_CACHE);
  }

  /** Three names in the order of the numbers they stand for: halving goes the wrong way from the middle. */
  lemma OutOfOrderMisses(c: Cache)
    requires Valid(c) && c.nlibs == 3
    requires GetName(c, 0) == Some(NAME_10) && GetName(c, 1) == Some(NAME_9) && GetName(c, 2) == Some(NAME_1)
    ensures Searched(c, NAME_10) == None
  {
    hide GetName, GetPath, CheckFlags, ScanFrom, RunStart;
    assert Cmp(NAME_10, NAME_1) == Greater && Cmp(NAME_9, NAME_10) == Greater && Cmp(NAME_1, NAME_10) == Less;
    assert Hit(c, true, NAME_10, 2, 2) == None;
    assert Hit(c, true, NAME_10, 2, 3) == None;
    assert Hit(c, true, NAME_10, 0, 3) == None;
  }

  /** The search needs byte-wise order: this file opens and every name in it decodes, but its first entry is not
      found under its name although the entry is usable. */
  lemma NumberedIsMissed()
    ensures New(NUMBERED) == Opened(NUMBERED_CACHE) && Valid(NUMBERED_CACHE) && Decodes(NUMBERED_CACHE)
    ensures Searched(NUMBERED_CACHE, NAME_10) == None
    ensures FirstUsable(NUMBERED_CACHE, NAME_10, 0) == Some(PATH_A)
  {
    hide GetName, GetPath, CheckFlags, Searched, New;
    NumberedNames();
    NumberedOpens();
    OutOfOrderMisses(NUMBERED_CACHE);
    assert Usable(NUMBERED_CACHE, NAME_10, 0);
  }

  // ----- A cache with foreign entries -----

  const NAME_A: seq<byte> := [0x61]
  const PATH_B: seq<byte> := [SLASH, 0x62]
  const PATH_C: seq<byte> := [SLASH, 0x63]
  const PATH_D: seq<byte> := [SLASH, 0x64]

  const MIXED_STRINGS: seq<byte> := NAME_A + [0] + PATH_B + [0] + PATH_C + [0] + PATH_D + [0]

  /** One name three times: for another architecture, of another library type, and as wanted. */
  const MIXED: seq<byte> :=
    HEADER_BYTES + EntryBytes(3, 0, 120, 122) + EntryBytes(1, 3, 120, 125) + EntryBytes(3, 3, 120, 128) + MIXED_STRINGS

  const MIXED_CACHE: Cache := Cache(MIXED, 0, 3, 120)

  lemma MixedStringAt(at: nat, s: seq<byte>)
    requires MIXED[120..] == MIXED_STRINGS && 120 <= at && at + |s| < 131
    requires MIXED_STRINGS[at - 120..at - 120 + |s|] == s && MIXED_STRINGS[at - 120 + |s|] == 0
    requires forall i :: 0 <= i < |s| ==> 0 < s[i] <= 0x7F
    ensures ExtractStr(MIXED, at) == Some(s)
  {
    assert MIXED[120..][at - 120..at - 120 + |s|] == MIXED[at..at + |s|];
    assert MIXED[120..][at - 120 + |s|] == MIXED[at + |s|];
    ExtractAt(MIXED, at, s);
  }

  lemma MixedStrings()
    ensures ExtractStr(MIXED, 120) == Some(NAME_A) && ExtractStr(MIXED, 122) == Some(PATH_B)
    ensures ExtractStr(MIXED, 125) == Some(PATH_C) && ExtractStr(MIXED, 128) == Some(PATH_D)
  {
    hide ExtractStr;
    assert MIXED[120..] == MIXED_STRINGS;
    MixedStringAt(120, NAME_A);
    MixedStringAt(122, PATH_B);
    MixedStringAt(125, PATH_C);
    MixedStringAt(128, PATH_D);
  }

  lemma MixedEntries()
    ensures Valid(MIXED_CACHE)
    ensures forall i :: 0 <= i < 3 ==> GetName(MIXED_CACHE, i) == Some(NAME_A)
    ensures !CheckFlags(MIXED_CACHE, 0) && !CheckFlags(MIXED_CACHE, 1) && CheckFlags(MIXED_CACHE, 2)
    ensures GetPath(MIXED_CACHE, 2) == Some(PATH_D)
  {
    hide ExtractStr, GetName, GetPath, CheckFlags;
    MixedStrings();
    assert MIXED[48..72] == EntryBytes(3, 0, 120, 122);
    assert MIXED[72..96] == EntryBytes(1, 3, 120, 125);
    assert MIXED[96..120] == EntryBytes(3, 3, 120, 128);
    EntryDecodes(MIXED_CACHE, 0, 3, 0, 120, 122, NAME_A, PATH_B);
    EntryDecodes(MIXED_CACHE, 1, 1, 3, 120, 125, NAME_A, PATH_C);
    EntryDecodes(MIXED_CACHE, 2, 3, 3, 120, 128, NAME_A, PATH_D);
  }

  lemma MixedOpens()
    ensures New(MIXED) == Opened(MIXED_CACHE)
  {
    hide FindMagic;
    assert MIXED[0..20] == MAGIC_NEW;
    assert MIXED[20..24] == [3, 0, 0, 0];
    assert LittleEndian([3, 0, 0, 0]) == 3;
    OpensExactly(MIXED, MIXED_CACHE);
  }

  /** Of three entries with one name, the lookup passes over the foreign ones. */
  lemma OneNameThreeTimes(c: Cache)
    requires Valid(c) && c.nlibs == 3 && forall i :: 0 <= i < 3 ==> GetName(c, i) == Some(NAME_A)
    requires !CheckFlags(c, 0) && !CheckFlags(c, 1) && CheckFlags(c, 2) && GetPath(c, 2) == Some(PATH_D)
    ensures Searched(c, NAME_A) == Some(PATH_D)
  {
    hide GetName, GetPath, CheckFlags;
    assert Cmp(NAME_A, NAME_A) == Equal;
    assert Hit(c, false, NAME_A, 0, 3) == Some(1);
    assert RunStart(c, NAME_A, 0) == 0 && RunStart(c, NAME_A, 1) == 0;
    assert ScanFrom(c, NAME_A, 2) == Some(PATH_D);
    assert ScanFrom(c, NAME_A, 1) == Some(PATH_D);
  }

  /** On a system with libraries for several architectures: an entry for another one, and one of another type, come
      first under the same name, and the lookup gives the third one's path. */
  lemma ForeignEntriesSkipped()
    ensures New(MIXED) == Opened(MIXED_CACHE) && Valid(MIXED_CACHE) && MIXED_CACHE.nlibs == 3
    ensures forall i :: 0 <= i < 3 ==> GetName(MIXED_CACHE, i) == Some(NAME_A)
    ensures Searched(MIXED_CACHE, NAME_A) == Some(PATH_D)
  {
    hide GetName, GetPath, CheckFlags, Searched, New;
    MixedEntries();
    MixedOpens();
    OneNameThreeTimes(MIXED_CACHE);
  }
}
