/** The deterministic ZIP writer, and the archive it is to write after PKWARE's APPNOTE.TXT. */
module ZipArchive {
  import opened Strings
  import opened Ordering
  import Utf8

  datatype Entry = Entry(name: Text, bytes: Bytes, executable: bool)

  /** `crc32`, not looked into. */
  type Checksum = Bytes -> Crc
  type Crc = n: int | 0 <= n < 0x1_0000_0000

  const MAX16 := 0xFFFF
  const MAX32 := 0xFFFF_FFFF

  // ------------------------------------------------------------ the fields

  function U16(n: int): (b: Bytes)
    requires 0 <= n <= MAX16
    ensures |b| == 2
  {
    [n % 256, n / 256]
  }

  function U32(n: int): (b: Bytes)
    requires 0 <= n <= MAX32
    ensures |b| == 4
  {
    U16(n % 0x1_0000) + U16(n / 0x1_0000)
  }

  const LOCAL_SIGNATURE := 0x04034b50
  const CENTRAL_SIGNATURE := 0x02014b50
  const END_SIGNATURE := 0x06054b50
  const VERSION := 20
  const MADE_BY := 0x314
  const UTF8_FLAG := 0x800
  const DOS_DATE := 0x2821
  const MODE_EXECUTABLE := 0x81ED // 0o100755
  const MODE_REGULAR := 0x81A4 // 0o100644

  function Mode(executable: bool): int {
    if executable then MODE_EXECUTABLE else MODE_REGULAR
  }

  /** Section 4.3.7: local file header without the name. */
  function LocalHeader(e: Entry, crc: Checksum): (b: Bytes)
    requires |e.bytes| <= MAX32 && |e.name| <= MAX16
    ensures |b| == 30
  {
    U32(LOCAL_SIGNATURE) + U16(VERSION) + U16(UTF8_FLAG) + U16(0) + U16(0) + U16(DOS_DATE) +
    U32(crc(e.bytes)) + U32(|e.bytes|) + U32(|e.bytes|) + U16(|e.name|) + U16(0)
  }

  /** Section 4.3.12: central directory header without the name. */
  function CentralHeader(e: Entry, crc: Checksum, offset: int): (b: Bytes)
    requires |e.bytes| <= MAX32 && |e.name| <= MAX16 && 0 <= offset <= MAX32
    ensures |b| == 46
  {
    U32(CENTRAL_SIGNATURE) + U16(MADE_BY) + U16(VERSION) + U16(UTF8_FLAG) + U16(0) + U16(0) + U16(DOS_DATE) +
    U32(crc(e.bytes)) + U32(|e.bytes|) + U32(|e.bytes|) + U16(|e.name|) + U16(0) + U16(0) + U16(0) + U16(0) +
    U32(Mode(e.executable) * 0x1_0000) + U32(offset)
  }

  /** Section 4.3.16: end of central directory record. */
  function EndRecord(count: int, size: int, offset: int): (b: Bytes)
    requires 0 <= count <= MAX16 && 0 <= size <= MAX32 && 0 <= offset <= MAX32
    ensures |b| == 22
  {
    U32(END_SIGNATURE) + U16(0) + U16(0) + U16(count) + U16(count) + U32(size) + U32(offset) + U16(0)
  }

  // -------------------------------------------------------------- accepted

  predicate NameUnit(u: Unit) {
    IsLetter(u) || IsDigit(u) || u == UNDERSCORE || u == DOT || u == SLASH || u == MINUS
  }

  /** The name test: allowed units, and no empty, `.` or `..` part. */
  predicate SafeName(name: Text) {
    && name != []
    && (forall i :: 0 <= i < |name| ==> NameUnit(name[i]))
    && var parts := Split(name, SLASH);
       forall i :: 0 <= i < |parts| ==> parts[i] != [] && parts[i] != [DOT] && parts[i] != [DOT, DOT]
  }

  predicate PartUnit(u: Unit) {
    NameUnit(u) && u != SLASH
  }

  /** A path segment that names something below where it stands. */
  predicate SafePart(part: Text) {
    part != [] && part != [DOT] && part != [DOT, DOT] && forall i :: 0 <= i < |part| ==> PartUnit(part[i])
  }

  ghost predicate SafeParts(parts: seq<Text>) {
    parts != [] && forall i :: 0 <= i < |parts| ==> SafePart(parts[i])
  }

  lemma {:induction false} JoinedUnits(parts: seq<Text>)
    requires forall i :: 0 <= i < |parts| ==> SafePart(parts[i])
    ensures forall i :: 0 <= i < |Join(parts, SLASH)| ==> NameUnit(Join(parts, SLASH)[i])
    ensures parts != [] ==> Join(parts, SLASH) != []
  {
    if |parts| > 1 {
      JoinedUnits(parts[1..]);
    }
  }

  lemma {:induction false} UnitsOfParts(parts: seq<Text>, i: nat, j: nat)
    requires i < |parts| && j < |parts[i]|
    ensures parts[i][j] in Join(parts, SLASH)
  {
    if |parts| > 1 {
      if i > 0 {
        UnitsOfParts(parts[1..], i - 1, j);
        assert parts[1..][i - 1] == parts[i];
      } else {
        assert Join(parts, SLASH)[j] == parts[0][j];
      }
    }
  }

  /** The accepted names are exactly the slash-separated sequences of safe parts. */
  lemma SafeNameExact(name: Text)
    ensures SafeName(name) <==> exists parts :: SafeParts(parts) && Join(parts, SLASH) == name
  {
    if SafeName(name) {
      var parts := Split(name, SLASH);
      JoinSplit(name, SLASH);
      forall i | 0 <= i < |parts| ensures SafePart(parts[i]) {
        forall j | 0 <= j < |parts[i]| ensures PartUnit(parts[i][j]) {
          UnitsOfParts(parts, i, j);
          assert parts[i][j] in parts[i];
        }
      }
      assert SafeParts(parts) && Join(parts, SLASH) == name;
    }
    if parts :| SafeParts(parts) && Join(parts, SLASH) == name {
      JoinedUnits(parts);
      SplitJoin(parts, SLASH);
    }
  }

  /** `Buffer.from(name)`: the units of a safe name are ASCII. */
  function NameBytes(name: Text): (b: Bytes)
    requires SafeName(name)
    ensures |b| == |name| && forall i :: 0 <= i < |name| ==> b[i] == name[i]
  {
    Utf8.EncodeAscii(name);
    Utf8.Encode(name)
  }

  predicate NameLess(a: Entry, b: Entry) {
    LexLess(a.name, b.name)
  }

  /** `[...entries].sort(...)`. */
  function Sorted(entries: seq<Entry>): (s: seq<Entry>)
    ensures |s| == |entries| && multiset(s) == multiset(entries)
  {
    Sort(entries, NameLess)
  }

  // ------------------------------------------------------------- the pieces

  function LocalSize(e: Entry): nat {
    30 + |e.name| + |e.bytes|
  }

  function LocalsSize(entries: seq<Entry>): nat {
    if entries == [] then 0 else LocalSize(entries[0]) + LocalsSize(entries[1..])
  }

  function CentralSize(entries: seq<Entry>): nat {
    if entries == [] then 0 else 46 + |entries[0].name| + CentralSize(entries[1..])
  }

  predicate EntryFits(e: Entry) {
    SafeName(e.name) && |e.name| <= MAX16 && |e.bytes| <= MAX32
  }

  /** Every field of every record is large enough, entries being laid out from `offset`. */
  predicate AllFit(entries: seq<Entry>, offset: nat) {
    entries == [] ||
    (EntryFits(entries[0]) && offset <= MAX32 && AllFit(entries[1..], offset + LocalSize(entries[0])))
  }

  function Local(e: Entry, crc: Checksum): Bytes
    requires EntryFits(e)
  {
    LocalHeader(e, crc) + NameBytes(e.name) + e.bytes
  }

  function Locals(entries: seq<Entry>, crc: Checksum): Bytes
    requires forall i :: 0 <= i < |entries| ==> EntryFits(entries[i])
  {
    if entries == [] then [] else Local(entries[0], crc) + Locals(entries[1..], crc)
  }

  function Central(entries: seq<Entry>, crc: Checksum, offset: nat): Bytes
    requires AllFit(entries, offset)
  {
    if entries == [] then []
    else CentralHeader(entries[0], crc, offset) + NameBytes(entries[0].name) +
         Central(entries[1..], crc, offset + LocalSize(entries[0]))
  }

  lemma {:induction false} AllFitEach(entries: seq<Entry>, offset: nat)
    requires AllFit(entries, offset)
    ensures forall i :: 0 <= i < |entries| ==> EntryFits(entries[i])
  {
    if entries != [] {
      AllFitEach(entries[1..], offset + LocalSize(entries[0]));
      assert forall i :: 1 <= i < |entries| ==> entries[i] == entries[1..][i - 1];
    }
  }

  /** The whole archive, or none where a buffer write or the name test throws. */
  function Archive(entries: seq<Entry>, crc: Checksum): Option<Bytes> {
    var s := Sorted(entries);
    if AllFit(s, 0) && |s| <= MAX16 && CentralSize(s) <= MAX32 && LocalsSize(s) <= MAX32 then
      AllFitEach(s, 0);
      Some(Locals(s, crc) + Central(s, crc, 0) + EndRecord(|s|, CentralSize(s), LocalsSize(s)))
    else None
  }

  // -------------------------------------------------- the writer as it runs

  /** `Buffer.alloc(n)`. */
  function Zeros(n: nat): (b: Bytes)
    ensures |b| == n
  {
    seq(n, _ => 0)
  }

  /** A zeroed buffer after the fields of `done` were written from its start. */
  ghost predicate Holds(buffer: array<Byte>, done: Bytes)
    reads buffer
  {
    |done| <= buffer.Length && buffer[..] == done + Zeros(buffer.Length - |done|)
  }

  /** `next` is `done` with `field` written at `at`: skipped bytes read as zero fields. */
  ghost predicate Extends(done: Bytes, at: int, field: Bytes, next: Bytes) {
    && |next| == at + |field|
    && (at == |done| ==> next == done + field)
    && (at == |done| + 4 ==> next == done + U16(0) + U16(0) + field)
    && (at == |done| + 8 ==> next == done + U16(0) + U16(0) + U16(0) + U16(0) + field)
  }

  lemma SkippedExtends(done: Bytes, at: int, field: Bytes)
    requires at >= |done|
    ensures Extends(done, at, field, done + Zeros(at - |done|) + field)
  {
    hide U16;
    ZeroFields();
  }

  /** Untouched bytes read as zero fields. */
  lemma ZeroFields()
    ensures Zeros(0) == [] && Zeros(2) == U16(0) && Zeros(4) == U16(0) + U16(0)
    ensures Zeros(8) == U16(0) + U16(0) + U16(0) + U16(0)
  {
  }

  /** `buffer.writeUInt16LE(value, at)` for a value that fits. */
  method WriteU16(buffer: array<Byte>, value: int, at: nat, ghost done: Bytes) returns (ghost next: Bytes)
    requires 0 <= value <= MAX16 && |done| <= at && at + 2 <= buffer.Length && Holds(buffer, done)
    modifies buffer
    ensures Holds(buffer, next) && next == done + Zeros(at - |done|) + U16(value)
    ensures Extends(done, at, U16(value), next)
  {
    buffer[at] := value % 256;
    buffer[at + 1] := value / 256;
    next := done + Zeros(at - |done|) + U16(value);
    SkippedExtends(done, at, U16(value));
  }

  /** `buffer.writeUInt32LE(value, at)` for a value that fits. */
  method WriteU32(buffer: array<Byte>, value: int, at: nat, ghost done: Bytes) returns (ghost next: Bytes)
    requires 0 <= value <= MAX32 && |done| <= at && at + 4 <= buffer.Length && Holds(buffer, done)
    modifies buffer
    ensures Holds(buffer, next) && Extends(done, at, U32(value), next)
  {
    ghost var low := WriteU16(buffer, value % 0x1_0000, at, done);
    ghost var high := WriteU16(buffer, value / 0x1_0000, at + 2, low);
    next := done + Zeros(at - |done|) + U32(value);
    assert high == next;
    SkippedExtends(done, at, U32(value));
  }

  lemma ZeroBuffer(buffer: array<Byte>)
    requires forall i :: 0 <= i < buffer.Length ==> buffer[i] == 0
    ensures Holds(buffer, [])
  {
    assert buffer[..] == [] + Zeros(buffer.Length);
  }

  /** Nothing, or two zero bytes, follow the last field. */
  lemma Finished(buffer: array<Byte>, done: Bytes)
    requires Holds(buffer, done)
    ensures |done| == buffer.Length ==> buffer[..] == done
    ensures |done| + 2 == buffer.Length ==> buffer[..] == done + U16(0)
  {
    ZeroFields();
  }

  method WriteLocalHeader(e: Entry, crc: Checksum) returns (header: Bytes)
    requires |e.bytes| <= MAX32 && |e.name| <= MAX16
    ensures header == LocalHeader(e, crc)
  {
    hide U16, U32, Holds, Zeros;
    var local := new Byte[30](_ => 0);
    ZeroBuffer(local);
    ghost var done := WriteU32(local, LOCAL_SIGNATURE, 0, []);
    assert done == U32(LOCAL_SIGNATURE);
    done := WriteU16(local, VERSION, 4, done);
    done := WriteU16(local, UTF8_FLAG, 6, done);
    done := WriteU16(local, DOS_DATE, 12, done);
    done := WriteU32(local, crc(e.bytes), 14, done);
    done := WriteU32(local, |e.bytes|, 18, done);
    done := WriteU32(local, |e.bytes|, 22, done);
    done := WriteU16(local, |e.name|, 26, done);
    Finished(local, done);
    return local[..];
  }

  method WriteCentralHeader(e: Entry, crc: Checksum, offset: int) returns (header: Bytes)
    requires |e.bytes| <= MAX32 && |e.name| <= MAX16 && 0 <= offset <= MAX32
    ensures header == CentralHeader(e, crc, offset)
  {
    hide U16, U32, Holds, Zeros;
    var directory := new Byte[46](_ => 0);
    ZeroBuffer(directory);
    ghost var done := WriteU32(directory, CENTRAL_SIGNATURE, 0, []);
    assert done == U32(CENTRAL_SIGNATURE);
    done := WriteU16(directory, MADE_BY, 4, done);
    done := WriteU16(directory, VERSION, 6, done);
    done := WriteU16(directory, UTF8_FLAG, 8, done);
    done := WriteU16(directory, DOS_DATE, 14, done);
    done := WriteU32(directory, crc(e.bytes), 16, done);
    done := WriteU32(directory, |e.bytes|, 20, done);
    done := WriteU32(directory, |e.bytes|, 24, done);
    done := WriteU16(directory, |e.name|, 28, done);
    done := WriteU32(directory, Mode(e.executable) * 0x1_0000, 38, done);
    done := WriteU32(directory, offset, 42, done);
    Finished(directory, done);
    return directory[..];
  }

  method WriteEndRecord(count: int, size: int, offset: int) returns (record: Bytes)
    requires 0 <= count <= MAX16 && 0 <= size <= MAX32 && 0 <= offset <= MAX32
    ensures record == EndRecord(count, size, offset)
  {
    hide U16, U32, Holds, Zeros;
    var end := new Byte[22](_ => 0);
    ZeroBuffer(end);
    ghost var done := WriteU32(end, END_SIGNATURE, 0, []);
    assert done == U32(END_SIGNATURE);
    done := WriteU16(end, count, 8, done);
    done := WriteU16(end, count, 10, done);
    done := WriteU32(end, size, 12, done);
    done := WriteU32(end, offset, 16, done);
    Finished(end, done);
    return end[..];
  }

  /** `Buffer.concat`. */
  function Flatten(chunks: seq<Bytes>): Bytes {
    if chunks == [] then [] else Flatten(chunks[..|chunks| - 1]) + chunks[|chunks| - 1]
  }

  lemma FlattenTwo(chunks: seq<Bytes>, a: Bytes, b: Bytes)
    ensures Flatten(chunks + [a, b]) == Flatten(chunks) + a + b
  {
    assert (chunks + [a, b])[..|chunks| + 1] == chunks + [a];
    assert (chunks + [a])[..|chunks|] == chunks;
  }

  lemma FlattenThree(chunks: seq<Bytes>, a: Bytes, b: Bytes, c: Bytes)
    ensures Flatten(chunks + [a, b, c]) == Flatten(chunks) + (a + b + c)
  {
    assert (chunks + [a, b, c])[..|chunks| + 2] == chunks + [a, b];
    FlattenTwo(chunks, a, b);
  }

  // How the pieces grow by one entry.

  lemma {:induction false} AllFitSplit(a: seq<Entry>, b: seq<Entry>, offset: nat)
    ensures AllFit(a + b, offset) <==> AllFit(a, offset) && AllFit(b, offset + LocalsSize(a))
  {
    if a == [] {
      assert a + b == b;
    } else {
      assert (a + b)[1..] == a[1..] + b;
      AllFitSplit(a[1..], b, offset + LocalSize(a[0]));
    }
  }

  lemma {:induction false} SizesAppend(a: seq<Entry>, e: Entry)
    ensures LocalsSize(a + [e]) == LocalsSize(a) + LocalSize(e)
    ensures CentralSize(a + [e]) == CentralSize(a) + 46 + |e.name|
  {
    if a == [] {
      assert a + [e] == [e];
    } else {
      assert (a + [e])[1..] == a[1..] + [e];
      SizesAppend(a[1..], e);
    }
  }

  lemma {:induction false} LocalsAppend(a: seq<Entry>, e: Entry, crc: Checksum)
    requires EntryFits(e) && forall i :: 0 <= i < |a| ==> EntryFits(a[i])
    ensures Locals(a + [e], crc) == Locals(a, crc) + Local(e, crc)
  {
    hide Local, EntryFits;
    if a == [] {
      assert a + [e] == [e];
    } else {
      assert (a + [e])[1..] == a[1..] + [e];
      LocalsAppend(a[1..], e, crc);
    }
  }

  function CentralPiece(e: Entry, crc: Checksum, offset: nat): Bytes
    requires EntryFits(e) && offset <= MAX32
  {
    CentralHeader(e, crc, offset) + NameBytes(e.name)
  }

  lemma CentralStep(entries: seq<Entry>, crc: Checksum, offset: nat)
    requires entries != [] && AllFit(entries, offset)
    ensures Central(entries, crc, offset) ==
            CentralPiece(entries[0], crc, offset) + Central(entries[1..], crc, offset + LocalSize(entries[0]))
    ensures forall at: nat :: Central([], crc, at) == []
  {
    hide CentralHeader, SafeName, NameBytes, LocalSize;
  }

  lemma {:induction false} CentralAppend(a: seq<Entry>, e: Entry, crc: Checksum, offset: nat)
    requires AllFit(a + [e], offset) && AllFit(a, offset) && EntryFits(e) && offset + LocalsSize(a) <= MAX32
    ensures Central(a + [e], crc, offset) == Central(a, crc, offset) + CentralPiece(e, crc, offset + LocalsSize(a))
  {
    hide CentralPiece, EntryFits, LocalSize, Central;
    CentralStep(a + [e], crc, offset);
    if a == [] {
      assert a + [e] == [e] && [e][1..] == [];
      CentralStep([e], crc, offset);
    } else {
      CentralStep(a, crc, offset);
      assert (a + [e])[1..] == a[1..] + [e] && (a + [e])[0] == a[0];
      CentralAppend(a[1..], e, crc, offset + LocalSize(a[0]));
    }
  }

  lemma NothingYet(crc: Checksum)
    ensures LocalsSize([]) == 0 && AllFit([], 0) && Locals([], crc) == [] && Central([], crc, 0) == [] &&
            Flatten([]) == []
  {
  }

  lemma AllFitOne(e: Entry, offset: nat)
    ensures AllFit([e], offset) <==> EntryFits(e) && offset <= MAX32
  {
  }

  /** `deterministicZip`: one pass over the sorted entries with two chunk lists and a running offset. */
  method DeterministicZip(entries: seq<Entry>, crc: Checksum) returns (zip: Option<Bytes>)
    ensures zip == Archive(entries, crc)
  {
    hide LocalHeader, CentralHeader, EndRecord, SafeName, NameBytes, Flatten, AllFit, Locals, Central, Sorted,
         LocalsSize, CentralSize;
    NothingYet(crc);
    var sorted := Sorted(entries);
    var chunks: seq<Bytes> := [];
    var central: seq<Bytes> := [];
    var offset: nat := 0;
    for i := 0 to |sorted|
      invariant offset == LocalsSize(sorted[..i])
      invariant AllFit(sorted[..i], 0)
      invariant forall j :: 0 <= j < i ==> EntryFits(sorted[j])
      invariant Flatten(chunks) == Locals(sorted[..i], crc)
      invariant Flatten(central) == Central(sorted[..i], crc, 0)
    {
      var e := sorted[i];
      assert sorted[..i + 1] == sorted[..i] + [e];
      assert sorted == sorted[..i + 1] + sorted[i + 1..];
      AllFitSplit(sorted[..i], [e], 0);
      AllFitSplit(sorted[..i + 1], sorted[i + 1..], 0);
      AllFitOne(e, LocalsSize(sorted[..i]));
      if !SafeName(e.name) || |e.bytes| > MAX32 || |e.name| > MAX16 || offset > MAX32 {
        return None;
      }
      var name := NameBytes(e.name);
      var local := WriteLocalHeader(e, crc);
      var directory := WriteCentralHeader(e, crc, offset);
      FlattenThree(chunks, local, name, e.bytes);
      FlattenTwo(central, directory, name);
      SizesAppend(sorted[..i], e);
      LocalsAppend(sorted[..i], e, crc);
      CentralAppend(sorted[..i], e, crc, 0);
      chunks := chunks + [local, name, e.bytes];
      central := central + [directory, name];
      offset := offset + |local| + |name| + |e.bytes|;
    }
    assert sorted[..|sorted|] == sorted;
    var directory := Flatten(central);
    CentralLength(sorted, crc, 0);
    if |sorted| > MAX16 || |directory| > MAX32 || offset > MAX32 {
      return None;
    }
    var end := WriteEndRecord(|sorted|, |directory|, offset);
    return Some(Flatten(chunks) + directory + end);
  }

  lemma {:induction false} CentralLength(entries: seq<Entry>, crc: Checksum, offset: nat)
    requires AllFit(entries, offset)
    ensures |Central(entries, crc, offset)| == CentralSize(entries)
  {
    if entries != [] {
      CentralLength(entries[1..], crc, offset + LocalSize(entries[0]));
    }
  }

  lemma {:induction false} LocalsLength(entries: seq<Entry>, crc: Checksum)
    requires forall i :: 0 <= i < |entries| ==> EntryFits(entries[i])
    ensures |Locals(entries, crc)| == LocalsSize(entries)
  {
    if entries != [] {
      LocalsLength(entries[1..], crc);
    }
  }
}
