/** Every byte of an archive, written out. */
module ZipBytes {
  import opened Strings
  import opened Ordering
  import opened ZipArchive
  import opened ZipReader

  // ------------------------------------------------------------------ layout

  /** Two bytes, the lower one first. */
  function Low2(n: int): (b: Bytes)
    requires 0 <= n <= 65535
    ensures |b| == 2
  {
    [n % 256, n / 256]
  }

  /** Four bytes, the lowest one first. */
  function Low4(n: int): (b: Bytes)
    requires 0 <= n <= 4294967295
    ensures |b| == 4
  {
    [n % 256, n / 256 % 256, n / 65536 % 256, n / 16777216]
  }

  /** An ASCII name is its own bytes. */
  function AsciiBytesOf(name: Text): Bytes
    requires forall i :: 0 <= i < |name| ==> name[i] < 128
  {
    seq(|name|, i requires 0 <= i < |name| => name[i])
  }

  predicate SmallEntry(e: Entry) {
    (forall i :: 0 <= i < |e.name| ==> e.name[i] < 128) && |e.name| <= 65535 && |e.bytes| <= 4294967295
  }

  /** A local record: signature `PK\3\4`, version 2.0, UTF-8 names, stored, 2000-01-01 00:00, checksum, both sizes,
      length of the name, no extra field; then the name and the data. */
  function LocalBytes(e: Entry, crc: Checksum): Bytes
    requires SmallEntry(e)
  {
    [0x50, 0x4B, 3, 4, 20, 0, 0, 8, 0, 0, 0, 0, 0x21, 0x28] +
    Low4(crc(e.bytes)) + Low4(|e.bytes|) + Low4(|e.bytes|) + Low2(|e.name|) + [0, 0] + AsciiBytesOf(e.name) + e.bytes
  }

  /** A directory record: signature `PK\1\2`, made by version 2.0 on Unix, then as above, no extra field, no
      comment, first disk, no internal attributes, the file mode, where the local record starts; then the name. */
  function DirectoryBytes(e: Entry, crc: Checksum, offset: int): Bytes
    requires SmallEntry(e) && 0 <= offset <= 4294967295
  {
    [0x50, 0x4B, 1, 2, 20, 3, 20, 0, 0, 8, 0, 0, 0, 0, 0x21, 0x28] +
    Low4(crc(e.bytes)) + Low4(|e.bytes|) + Low4(|e.bytes|) + Low2(|e.name|) + [0, 0, 0, 0, 0, 0, 0, 0] +
    (if e.executable then [0, 0, 0xED, 0x81] else [0, 0, 0xA4, 0x81]) + Low4(offset) + AsciiBytesOf(e.name)
  }

  /** The end record: signature `PK\5\6`, first disk twice, the count twice, size and start of the directory, no
      comment. */
  function EndBytes(count: int, size: int, offset: int): Bytes
    requires 0 <= count <= 65535 && 0 <= size <= 4294967295 && 0 <= offset <= 4294967295
  {
    [0x50, 0x4B, 5, 6, 0, 0, 0, 0] + Low2(count) + Low2(count) + Low4(size) + Low4(offset) + [0, 0]
  }

  /** What one local record adds to the offset of the next. */
  function RecordLength(e: Entry): nat {
    30 + |e.name| + |e.bytes|
  }

  function LengthOf(entries: seq<Entry>): nat {
    if entries == [] then 0 else RecordLength(entries[0]) + LengthOf(entries[1..])
  }

  ghost predicate SmallEntries(entries: seq<Entry>) {
    forall i :: 0 <= i < |entries| ==> SmallEntry(entries[i])
  }

  function AllLocalBytes(entries: seq<Entry>, crc: Checksum): Bytes
    requires SmallEntries(entries)
  {
    if entries == [] then [] else LocalBytes(entries[0], crc) + AllLocalBytes(entries[1..], crc)
  }

  function AllDirectoryBytes(entries: seq<Entry>, crc: Checksum, offset: nat): Bytes
    requires SmallEntries(entries) && offset + LengthOf(entries) <= 4294967295
  {
    if entries == [] then []
    else
      DirectoryBytes(entries[0], crc, offset) + AllDirectoryBytes(entries[1..], crc, offset + RecordLength(entries[0]))
  }

  // ------------------------------------------------------------------ records

  lemma Fields16(n: int)
    requires 0 <= n <= 65535
    ensures U16(n) == Low2(n)
  {
  }

  lemma Fields32(n: int)
    requires 0 <= n <= 4294967295
    ensures U32(n) == Low4(n)
  {
    assert n % 65536 % 256 == n % 256 && n % 65536 / 256 == n / 256 % 256;
    assert n / 65536 / 256 == n / 16777216;
  }

  lemma Constants()
    ensures U32(LOCAL_SIGNATURE) == [0x50, 0x4B, 3, 4] && U32(CENTRAL_SIGNATURE) == [0x50, 0x4B, 1, 2]
    ensures U32(END_SIGNATURE) == [0x50, 0x4B, 5, 6] && U16(VERSION) == [20, 0] && U16(MADE_BY) == [20, 3]
    ensures U16(UTF8_FLAG) == [0, 8] && U16(DOS_DATE) == [0x21, 0x28] && U16(0) == [0, 0]
    ensures U32(Mode(true) * 0x1_0000) == [0, 0, 0xED, 0x81] && U32(Mode(false) * 0x1_0000) == [0, 0, 0xA4, 0x81]
  {
    Fields32(LOCAL_SIGNATURE);
    Fields32(CENTRAL_SIGNATURE);
    Fields32(END_SIGNATURE);
    Fields32(Mode(true) * 0x1_0000);
    Fields32(Mode(false) * 0x1_0000);
  }

  lemma NameIsAscii(e: Entry)
    requires EntryFits(e)
    ensures SmallEntry(e) && NameBytes(e.name) == AsciiBytesOf(e.name)
  {
  }

  lemma LocalExactly(e: Entry, crc: Checksum)
    requires EntryFits(e)
    ensures SmallEntry(e) && Local(e, crc) == LocalBytes(e, crc)
  {
    hide U16, U32, Low2, Low4, SafeName, NameBytes, AsciiBytesOf;
    NameIsAscii(e);
    Constants();
    Fields32(crc(e.bytes));
    Fields32(|e.bytes|);
    Fields16(|e.name|);
  }

  lemma DirectoryExactly(e: Entry, crc: Checksum, offset: nat)
    requires EntryFits(e) && offset <= MAX32
    ensures SmallEntry(e) && CentralPiece(e, crc, offset) == DirectoryBytes(e, crc, offset)
  {
    hide U16, U32, Low2, Low4, SafeName, NameBytes, AsciiBytesOf;
    NameIsAscii(e);
    Constants();
    Fields32(crc(e.bytes));
    Fields32(|e.bytes|);
    Fields16(|e.name|);
    Fields32(offset);
  }

  lemma EndExactly(count: int, size: int, offset: int)
    requires 0 <= count <= MAX16 && 0 <= size <= MAX32 && 0 <= offset <= MAX32
    ensures EndRecord(count, size, offset) == EndBytes(count, size, offset)
  {
    hide U16, U32, Low2, Low4;
    Constants();
    Fields16(count);
    Fields32(size);
    Fields32(offset);
  }

  // ------------------------------------------------------------------ archives

  lemma {:induction false} LocalsExactly(entries: seq<Entry>, crc: Checksum)
    requires forall i :: 0 <= i < |entries| ==> EntryFits(entries[i])
    ensures SmallEntries(entries) && Locals(entries, crc) == AllLocalBytes(entries, crc)
  {
    hide Local, LocalBytes, EntryFits, SmallEntry;
    if entries != [] {
      LocalExactly(entries[0], crc);
      LocalsExactly(entries[1..], crc);
      assert forall i :: 1 <= i < |entries| ==> entries[i] == entries[1..][i - 1];
    }
  }

  lemma {:induction false} LengthExactly(entries: seq<Entry>)
    ensures LengthOf(entries) == LocalsSize(entries)
  {
    if entries != [] {
      LengthExactly(entries[1..]);
    }
  }

  lemma {:induction false} DirectoriesExactly(entries: seq<Entry>, crc: Checksum, offset: nat)
    requires AllFit(entries, offset) && SmallEntries(entries) && offset + LengthOf(entries) <= MAX32
    ensures Central(entries, crc, offset) == AllDirectoryBytes(entries, crc, offset)
    decreases |entries|
  {
    hide CentralPiece, DirectoryBytes, SmallEntry, SafeName, Central;
    if entries == [] {
      EmptyDirectory(crc, offset);
    } else {
      CentralStep(entries, crc, offset);
      DirectoryExactly(entries[0], crc, offset);
      DirectoriesExactly(entries[1..], crc, offset + RecordLength(entries[0]));
    }
  }

  lemma EmptyDirectory(crc: Checksum, offset: nat)
    ensures AllFit([], offset) && Central([], crc, offset) == []
  {
  }

  /** Main result: an archive is, byte by byte, the local records of the sorted entries, their directory records
      with the offsets at which the local records start, and the end record. */
  lemma ArchiveInBytes(entries: seq<Entry>, crc: Checksum)
    requires Archive(entries, crc).Some?
    ensures var s, size := Sorted(entries), LengthOf(Sorted(entries));
            && SmallEntries(s) && |s| <= 65535 && size <= 4294967295
            && |AllDirectoryBytes(s, crc, 0)| <= 4294967295
            && Archive(entries, crc).value ==
               AllLocalBytes(s, crc) + AllDirectoryBytes(s, crc, 0) +
               EndBytes(|s|, |AllDirectoryBytes(s, crc, 0)|, size)
  {
    hide Sorted, Locals, Central, EndRecord, AllFit, SmallEntries, CentralSize, LocalsSize, AllLocalBytes,
         AllDirectoryBytes,
         EndBytes, EntryFits, LengthOf;
    var s := Sorted(entries);
    AllFitEach(s, 0);
    LocalsExactly(s, crc);
    LengthExactly(s);
    DirectoriesExactly(s, crc, 0);
    CentralLength(s, crc, 0);
    EndExactly(|s|, CentralSize(s), LocalsSize(s));
  }

  // ------------------------------------------------------------------ the order

  /** The entries of one name, in the order they have. */
  function OfName(entries: seq<Entry>, name: Text): seq<Entry> {
    if entries == [] then []
    else (if entries[0].name == name then [entries[0]] else []) + OfName(entries[1..], name)
  }

  ghost predicate ByName(s: seq<Entry>) {
    forall i, j :: 0 <= i < j < |s| ==> !LexLess(s[j].name, s[i].name)
  }

  lemma OfNameCons(x: Entry, s: seq<Entry>, name: Text)
    ensures OfName([x] + s, name) == (if x.name == name then [x] else []) + OfName(s, name)
  {
    assert ([x] + s)[1..] == s;
  }

  /** Inserting after entries before it does not pass an entry of its own name. */
  lemma {:induction false} InsertOfName(x: Entry, s: seq<Entry>, name: Text)
    ensures OfName(Insert(x, s, NameLess), name) == OfName([x] + s, name)
  {
    hide LexLess, OfName, Insert;
    InsertStep(x, s);
    if s == [] {
      assert [x] + s == [x];
    } else {
      LexIrreflexive(x.name);
      if NameLess(s[0], x) {
        InsertOfName(x, s[1..], name);
        OfNameCons(s[0], Insert(x, s[1..], NameLess), name);
        OfNameCons(x, s[1..], name);
        OfNameCons(s[0], s[1..], name);
        OfNameCons(x, s, name);
        assert s == [s[0]] + s[1..];
      }
    }
  }

  lemma InsertStep(x: Entry, s: seq<Entry>)
    ensures Insert(x, s, NameLess) ==
            if s == [] then [x]
            else if NameLess(s[0], x) then [s[0]] + Insert(x, s[1..], NameLess)
            else [x] + s
  {
    hide LexLess;
  }

  lemma {:induction false} InsertByName(x: Entry, s: seq<Entry>)
    requires ByName(s)
    ensures ByName(Insert(x, s, NameLess))
  {
    hide LexLess;
    if s != [] {
      if NameLess(s[0], x) {
        var rest := Insert(x, s[1..], NameLess);
        InsertByName(x, s[1..]);
        forall j | 0 <= j < |rest| ensures !LexLess(rest[j].name, s[0].name) {
          assert rest[j] in multiset(rest);
          if rest[j] == x {
            NotBothWays(s[0].name, x.name);
          } else {
            assert rest[j] in s[1..];
          }
        }
      } else {
        FirstByName(x, s);
      }
    }
  }

  lemma FirstByName(x: Entry, s: seq<Entry>)
    requires s != [] && ByName(s) && !LexLess(s[0].name, x.name)
    ensures ByName([x] + s)
  {
    hide LexLess;
    forall j | 0 <= j < |s| ensures !LexLess(s[j].name, x.name) {
      if LexLess(s[j].name, x.name) && j > 0 {
        NotLater(s[0].name, s[j].name, x.name);
      }
    }
  }

  lemma NotBothWays(a: Text, b: Text)
    requires LexLess(a, b)
    ensures !LexLess(b, a)
  {
    hide LexLess;
    if LexLess(b, a) {
      LexTransitive(a, b, a);
      LexIrreflexive(a);
      assert false;
    }
  }

  /** What is not after the first is before whatever it is before. */
  lemma NotLater(first: Text, later: Text, x: Text)
    requires !LexLess(later, first) && LexLess(later, x)
    ensures LexLess(first, x)
  {
    hide LexLess;
    LexTotal(first, later);
    if first != later {
      LexTransitive(first, later, x);
    }
  }

  lemma {:induction false} SortsByName(entries: seq<Entry>, name: Text)
    ensures ByName(Sort(entries, NameLess))
    ensures OfName(Sort(entries, NameLess), name) == OfName(entries, name)
  {
    hide LexLess, OfName, ByName, Insert;
    if entries == [] {
      NothingByName();
    } else {
      var rest := Sort(entries[1..], NameLess);
      SortsByName(entries[1..], name);
      InsertOfName(entries[0], rest, name);
      InsertByName(entries[0], rest);
      OfNameCons(entries[0], rest, name);
      OfNameCons(entries[0], entries[1..], name);
      assert entries == [entries[0]] + entries[1..];
    }
  }

  lemma NothingByName()
    ensures ByName([])
  {
  }

  /** Main result: the entries are written in ascending order of their names, and those of the same name in the
      order they came in. */
  lemma SortedInFull(entries: seq<Entry>, name: Text)
    ensures var s := Sorted(entries);
            && multiset(s) == multiset(entries)
            && (forall i, j :: 0 <= i < j < |s| ==> !LexLess(s[j].name, s[i].name))
            && OfName(s, name) == OfName(entries, name)
  {
    hide LexLess;
    SortsByName(entries, name);
  }
}
