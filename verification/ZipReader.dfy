/** A ZIP reader after sections 4.3.7, 4.3.12 and 4.3.16 of PKWARE's APPNOTE.TXT, for stored entries made on Unix. */
module ZipReader {
  import opened Strings
  import opened Ordering
  import opened ZipArchive

  // ---------------------------------------------------------------- fields

  predicate InFile(a: Bytes, i: int, n: int) {
    0 <= i && 0 <= n && i + n <= |a|
  }

  function Read16(a: Bytes, i: int): nat
    requires InFile(a, i, 2)
  {
    a[i] as int + 256 * (a[i + 1] as int)
  }

  function Read32(a: Bytes, i: int): nat
    requires InFile(a, i, 4)
  {
    Read16(a, i) + 0x1_0000 * Read16(a, i + 2)
  }

  // ------------------------------------------------------------- structures

  datatype End = End(position: int, count: nat, size: nat, offset: nat)

  datatype Header = Header(version: nat, flags: nat, name: Bytes, crc: int, size: nat, mode: nat, offset: nat)

  datatype Extracted = Extracted(name: Bytes, bytes: Bytes, crc: int, executable: bool)

  /** The last position that holds an end record whose comment reaches the end of the file. */
  function FindEnd(a: Bytes, from: int): (r: Option<int>)
    requires from + 22 <= |a|
    ensures r.Some? ==> 0 <= r.value <= from
    decreases from
  {
    if from < 0 then None
    else if Read32(a, from) == END_SIGNATURE && Read16(a, from + 20) == |a| - from - 22 then Some(from)
    else FindEnd(a, from - 1)
  }

  /** The end record of a single-disk archive without ZIP64 escapes. */
  function ReadEnd(a: Bytes): Option<End> {
    if |a| < 22 then None
    else match FindEnd(a, |a| - 22)
      case None => None
      case Some(p) =>
        var count, size, offset := Read16(a, p + 10), Read32(a, p + 12), Read32(a, p + 16);
        if Read16(a, p + 4) == 0 && Read16(a, p + 6) == 0 && Read16(a, p + 8) == count &&
           count != MAX16 && size != MAX32 && offset != MAX32
        then Some(End(p, count, size, offset))
        else None
  }

  /** One central directory header and the position after it. */
  function ReadHeader(a: Bytes, i: int): Option<(Header, int)> {
    if !InFile(a, i, 46) || Read32(a, i) != CENTRAL_SIGNATURE then None
    else
      var nameLength, extra, comment := Read16(a, i + 28), Read16(a, i + 30), Read16(a, i + 32);
      var size, attributes, offset := Read32(a, i + 24), Read32(a, i + 38), Read32(a, i + 42);
      var madeOnUnix, encrypted := Read16(a, i + 4) / 256 == 3, Read16(a, i + 8) % 2 == 1;
      var compression := Read16(a, i + 10);
      if madeOnUnix && !encrypted && compression == 0 && Read32(a, i + 20) == size &&
         size != MAX32 && offset != MAX32 && Read16(a, i + 34) == 0 &&
         InFile(a, i + 46, nameLength)
      then Some((Header(Read16(a, i + 6), Read16(a, i + 8), a[i + 46..i + 46 + nameLength], Read32(a, i + 16), size,
        attributes / 0x1_0000, offset),
                 i + 46 + nameLength + extra + comment))
      else None
  }

  function ReadDirectory(a: Bytes, i: int, count: nat): Option<(seq<Header>, int)>
    decreases count
  {
    if count == 0 then Some(([], i))
    else match ReadHeader(a, i)
      case None => None
      case Some((h, next)) =>
        (match ReadDirectory(a, next, count - 1)
         case None => None
         case Some((rest, end)) => Some(([h] + rest, end)))
  }

  /** The data a directory header points at, which must agree with the local header there. */
  function Extract(a: Bytes, h: Header): Option<Extracted> {
    var i := h.offset;
    if !InFile(a, i, 30) || Read32(a, i) != LOCAL_SIGNATURE then None
    else
      var nameLength, extra := Read16(a, i + 26), Read16(a, i + 28);
      var data := i + 30 + nameLength + extra;
      if Read16(a, i + 4) == h.version && Read16(a, i + 6) == h.flags &&
         Read16(a, i + 8) == 0 && Read32(a, i + 14) == h.crc && Read32(a, i + 18) == h.size &&
         Read32(a, i + 22) == h.size &&
         nameLength == |h.name| && InFile(a, i + 30, nameLength) && a[i + 30..i + 30 + nameLength] == h.name &&
         InFile(a, data, h.size)
      then Some(Extracted(h.name, a[data..data + h.size], h.crc, h.mode / 64 % 2 == 1))
      else None
  }

  function ExtractAll(a: Bytes, headers: seq<Header>): Option<seq<Extracted>> {
    if headers == [] then Some([])
    else match (Extract(a, headers[0]), ExtractAll(a, headers[1..]))
      case (Some(x), Some(rest)) => Some([x] + rest)
      case _ => None
  }

  /** The whole archive: the directory must fill the space between its offset and the end record. */
  function ReadArchive(a: Bytes): Option<seq<Extracted>> {
    match ReadEnd(a)
    case None => None
    case Some(end) =>
      (match ReadDirectory(a, end.offset, end.count)
       case None => None
       case Some((headers, after)) =>
         if after == end.offset + end.size && after == end.position then ExtractAll(a, headers) else None)
  }

  // ------------------------------------------------------ fields read back

  /** `piece` lies at position `i`. */
  ghost predicate Has(a: Bytes, i: int, piece: Bytes) {
    InFile(a, i, |piece|) && a[i..i + |piece|] == piece
  }

  lemma HasSplit(a: Bytes, i: int, x: Bytes, y: Bytes)
    requires Has(a, i, x + y)
    ensures Has(a, i, x) && Has(a, i + |x|, y)
  {
    var t := a[i..i + |x + y|];
    assert t[..|x|] == x && t[|x|..] == y;
    assert a[i..i + |x|] == t[..|x|];
    assert a[i + |x|..i + |x| + |y|] == t[|x|..];
  }

  lemma Has16(a: Bytes, i: int, n: int)
    requires 0 <= n <= MAX16 && Has(a, i, U16(n))
    ensures InFile(a, i, 2) && Read16(a, i) == n
  {
    assert a[i] == a[i..i + 2][0] && a[i + 1] == a[i..i + 2][1];
  }

  lemma Has32(a: Bytes, i: int, n: int)
    requires 0 <= n <= MAX32 && Has(a, i, U32(n))
    ensures InFile(a, i, 4) && Read32(a, i) == n
  {
    HasSplit(a, i, U16(n % 0x1_0000), U16(n / 0x1_0000));
    Has16(a, i, n % 0x1_0000);
    Has16(a, i + 2, n / 0x1_0000);
  }

  /** The last field of a concatenation that ends before `i + 4` or `i + 2`. */
  lemma Last32(a: Bytes, i: int, before: Bytes, n: int)
    requires 0 <= n <= MAX32 && Has(a, i, before + U32(n))
    ensures Has(a, i, before) && InFile(a, i + |before|, 4) && Read32(a, i + |before|) == n
  {
    HasSplit(a, i, before, U32(n));
    Has32(a, i + |before|, n);
  }

  lemma Last16(a: Bytes, i: int, before: Bytes, n: int)
    requires 0 <= n <= MAX16 && Has(a, i, before + U16(n))
    ensures Has(a, i, before) && InFile(a, i + |before|, 2) && Read16(a, i + |before|) == n
  {
    HasSplit(a, i, before, U16(n));
    Has16(a, i + |before|, n);
  }

  lemma LocalHeaderFields(a: Bytes, i: int, e: Entry, crc: Checksum)
    requires EntryFits(e) && Has(a, i, LocalHeader(e, crc))
    ensures InFile(a, i, 30)
    ensures Read32(a, i) == LOCAL_SIGNATURE && Read16(a, i + 4) == VERSION && Read16(a, i + 6) == UTF8_FLAG
    ensures Read16(a, i + 8) == 0 && Read16(a, i + 10) == 0 && Read16(a, i + 12) == DOS_DATE
    ensures Read32(a, i + 14) == crc(e.bytes)
    ensures Read32(a, i + 18) == |e.bytes| == Read32(a, i + 22)
    ensures Read16(a, i + 26) == |e.name| && Read16(a, i + 28) == 0
  {
    hide Has, U16, U32, Read16, Read32, SafeName;
    var p0 := U32(LOCAL_SIGNATURE);
    var p1 := p0 + U16(VERSION);
    var p2 := p1 + U16(UTF8_FLAG);
    var p3 := p2 + U16(0);
    var p4 := p3 + U16(0);
    var p5 := p4 + U16(DOS_DATE);
    var p6 := p5 + U32(crc(e.bytes));
    var p7 := p6 + U32(|e.bytes|);
    var p8 := p7 + U32(|e.bytes|);
    var p9 := p8 + U16(|e.name|);
    Last16(a, i, p9, 0);
    Last16(a, i, p8, |e.name|);
    Last32(a, i, p7, |e.bytes|);
    Last32(a, i, p6, |e.bytes|);
    Last32(a, i, p5, crc(e.bytes));
    Last16(a, i, p4, DOS_DATE);
    Last16(a, i, p3, 0);
    Last16(a, i, p2, 0);
    Last16(a, i, p1, UTF8_FLAG);
    Last16(a, i, p0, VERSION);
    Has32(a, i, LOCAL_SIGNATURE);
  }

  lemma CentralHeaderFields(a: Bytes, i: int, e: Entry, crc: Checksum, offset: nat)
    requires EntryFits(e) && 0 <= offset <= MAX32 && Has(a, i, CentralHeader(e, crc, offset))
    ensures InFile(a, i, 46)
    ensures Read32(a, i) == CENTRAL_SIGNATURE && Read16(a, i + 4) == MADE_BY && Read16(a, i + 6) == VERSION
    ensures Read16(a, i + 12) == 0 && Read16(a, i + 14) == DOS_DATE && Read16(a, i + 36) == 0
    ensures Read16(a, i + 8) == UTF8_FLAG && Read16(a, i + 10) == 0 && Read32(a, i + 16) == crc(e.bytes)
    ensures Read32(a, i + 20) == |e.bytes| == Read32(a, i + 24)
    ensures Read16(a, i + 28) == |e.name| && Read16(a, i + 30) == 0 && Read16(a, i + 32) == 0 && Read16(a, i + 34) == 0
    ensures Read32(a, i + 38) == Mode(e.executable) * 0x1_0000 && Read32(a, i + 42) == offset
  {
    hide Has, U16, U32, Read16, Read32, SafeName;
    var p0 := U32(CENTRAL_SIGNATURE);
    var p1 := p0 + U16(MADE_BY);
    var p2 := p1 + U16(VERSION);
    var p3 := p2 + U16(UTF8_FLAG);
    var p4 := p3 + U16(0);
    var p5 := p4 + U16(0);
    var p6 := p5 + U16(DOS_DATE);
    var p7 := p6 + U32(crc(e.bytes));
    var p8 := p7 + U32(|e.bytes|);
    var p9 := p8 + U32(|e.bytes|);
    var p10 := p9 + U16(|e.name|);
    var p11 := p10 + U16(0);
    var p12 := p11 + U16(0);
    var p13 := p12 + U16(0);
    var p14 := p13 + U16(0);
    var p15 := p14 + U32(Mode(e.executable) * 0x1_0000);
    Last32(a, i, p15, offset);
    Last32(a, i, p14, Mode(e.executable) * 0x1_0000);
    Last16(a, i, p13, 0);
    Last16(a, i, p12, 0);
    Last16(a, i, p11, 0);
    Last16(a, i, p10, 0);
    Last16(a, i, p9, |e.name|);
    Last32(a, i, p8, |e.bytes|);
    Last32(a, i, p7, |e.bytes|);
    Last32(a, i, p6, crc(e.bytes));
    Last16(a, i, p5, DOS_DATE);
    Last16(a, i, p4, 0);
    Last16(a, i, p3, 0);
    Last16(a, i, p2, UTF8_FLAG);
    Last16(a, i, p1, VERSION);
    Last16(a, i, p0, MADE_BY);
    Has32(a, i, CENTRAL_SIGNATURE);
  }

  lemma EndRecordFields(a: Bytes, i: int, count: int, size: int, offset: int)
    requires 0 <= count <= MAX16 && 0 <= size <= MAX32 && 0 <= offset <= MAX32
    requires Has(a, i, EndRecord(count, size, offset))
    ensures InFile(a, i, 22)
    ensures Read32(a, i) == END_SIGNATURE && Read16(a, i + 4) == 0 && Read16(a, i + 6) == 0
    ensures Read16(a, i + 8) == count == Read16(a, i + 10)
    ensures Read32(a, i + 12) == size && Read32(a, i + 16) == offset && Read16(a, i + 20) == 0
  {
    hide Has, U16, U32, Read16, Read32;
    var p0 := U32(END_SIGNATURE);
    var p1 := p0 + U16(0);
    var p2 := p1 + U16(0);
    var p3 := p2 + U16(count);
    var p4 := p3 + U16(count);
    var p5 := p4 + U32(size);
    var p6 := p5 + U32(offset);
    Last16(a, i, p6, 0);
    Last32(a, i, p5, offset);
    Last32(a, i, p4, size);
    Last16(a, i, p3, count);
    Last16(a, i, p2, count);
    Last16(a, i, p1, 0);
    Last16(a, i, p0, 0);
    Has32(a, i, END_SIGNATURE);
  }

  // ------------------------------------------------------ entries read back

  /** The directory header that describes an entry stored at `offset`. */
  function HeaderOf(e: Entry, crc: Checksum, offset: nat): Header
    requires EntryFits(e)
  {
    Header(VERSION, UTF8_FLAG, NameBytes(e.name), crc(e.bytes), |e.bytes|, Mode(e.executable), offset)
  }

  function HeadersOf(entries: seq<Entry>, crc: Checksum, offset: nat): seq<Header>
    requires forall i :: 0 <= i < |entries| ==> EntryFits(entries[i])
  {
    if entries == [] then []
    else [HeaderOf(entries[0], crc, offset)] + HeadersOf(entries[1..], crc, offset + LocalSize(entries[0]))
  }

  function ExtractedOf(e: Entry, crc: Checksum): Extracted
    requires EntryFits(e)
  {
    Extracted(NameBytes(e.name), e.bytes, crc(e.bytes), e.executable)
  }

  function AllExtracted(entries: seq<Entry>, crc: Checksum): seq<Extracted>
    requires forall i :: 0 <= i < |entries| ==> EntryFits(entries[i])
  {
    if entries == [] then [] else [ExtractedOf(entries[0], crc)] + AllExtracted(entries[1..], crc)
  }

  lemma ReadHeaderBack(a: Bytes, i: int, e: Entry, crc: Checksum, offset: nat)
    requires EntryFits(e) && |e.bytes| < MAX32 && 0 <= offset < MAX32
    requires Has(a, i, CentralHeader(e, crc, offset) + NameBytes(e.name))
    ensures ReadHeader(a, i) == Some((HeaderOf(e, crc, offset), i + 46 + |e.name|))
  {
    hide Read16, Read32, NameBytes, SafeName;
    HasSplit(a, i, CentralHeader(e, crc, offset), NameBytes(e.name));
    CentralHeaderFields(a, i, e, crc, offset);
    hide CentralHeader;
  }

  lemma ReadDirectoryStep(a: Bytes, i: int, count: nat, h: Header, next: int, rest: seq<Header>, end: int)
    requires count > 0 && ReadHeader(a, i) == Some((h, next)) && ReadDirectory(a, next, count - 1) == Some((rest, end))
    ensures ReadDirectory(a, i, count) == Some(([h] + rest, end))
  {
    hide ReadHeader;
  }

  lemma CentralCons(entries: seq<Entry>, crc: Checksum, offset: nat)
    requires entries != [] && AllFit(entries, offset)
    ensures EntryFits(entries[0]) && offset <= MAX32 && AllFit(entries[1..], offset + LocalSize(entries[0]))
    ensures Central(entries, crc, offset) ==
            CentralHeader(entries[0], crc, offset) + NameBytes(entries[0].name) +
            Central(entries[1..], crc, offset + LocalSize(entries[0]))
  {
    hide CentralHeader, NameBytes, SafeName;
  }

  lemma {:induction false} ReadDirectoryBack(a: Bytes, i: int, entries: seq<Entry>, crc: Checksum, offset: nat)
    requires AllFit(entries, offset) && offset + LocalsSize(entries) < MAX32
    requires Has(a, i, Central(entries, crc, offset))
    requires forall k :: 0 <= k < |entries| ==> EntryFits(entries[k])
    ensures ReadDirectory(a, i, |entries|) == Some((HeadersOf(entries, crc, offset), i + CentralSize(entries)))
    decreases |entries|
  {
    hide ReadHeader, Has, CentralHeader, NameBytes, SafeName, HeaderOf, Central, AllFit;
    if entries != [] {
      CentralCons(entries, crc, offset);
      var e, next := entries[0], offset + LocalSize(entries[0]);
      var first, rest := CentralHeader(e, crc, offset) + NameBytes(e.name), Central(entries[1..], crc, next);
      HasSplit(a, i, first, rest);
      ReadHeaderBack(a, i, e, crc, offset);
      ReadDirectoryBack(a, i + |first|, entries[1..], crc, next);
      ReadDirectoryStep(a, i, |entries|, HeaderOf(e, crc, offset), i + |first|,
                        HeadersOf(entries[1..], crc, next), i + |first| + CentralSize(entries[1..]));
    }
  }

  lemma ExtractBack(a: Bytes, e: Entry, crc: Checksum, offset: nat)
    requires EntryFits(e) && Has(a, offset, Local(e, crc))
    ensures Extract(a, HeaderOf(e, crc, offset)) == Some(ExtractedOf(e, crc))
  {
    hide Read16, Read32, NameBytes, SafeName, LocalHeader;
    HasSplit(a, offset, LocalHeader(e, crc) + NameBytes(e.name), e.bytes);
    HasSplit(a, offset, LocalHeader(e, crc), NameBytes(e.name));
    LocalHeaderFields(a, offset, e, crc);
    assert MODE_EXECUTABLE / 64 % 2 == 1 && MODE_REGULAR / 64 % 2 == 0;
  }

  lemma ExtractAllStep(a: Bytes, headers: seq<Header>, x: Extracted, rest: seq<Extracted>)
    requires headers != [] && Extract(a, headers[0]) == Some(x) && ExtractAll(a, headers[1..]) == Some(rest)
    ensures ExtractAll(a, headers) == Some([x] + rest)
  {
    hide Extract;
  }

  lemma {:induction false} ExtractAllBack(a: Bytes, entries: seq<Entry>, crc: Checksum, offset: nat)
    requires forall k :: 0 <= k < |entries| ==> EntryFits(entries[k])
    requires Has(a, offset, Locals(entries, crc))
    ensures ExtractAll(a, HeadersOf(entries, crc, offset)) == Some(AllExtracted(entries, crc))
    decreases |entries|
  {
    hide Has, Local, Extract, HeaderOf, ExtractedOf, EntryFits;
    if entries != [] {
      var e, next := entries[0], offset + LocalSize(entries[0]);
      var first, rest := Local(e, crc), Locals(entries[1..], crc);
      HasSplit(a, offset, first, rest);
      ExtractBack(a, e, crc, offset);
      LocalLength(e, crc);
      ExtractAllBack(a, entries[1..], crc, next);
      var headers := HeadersOf(entries, crc, offset);
      assert headers[1..] == HeadersOf(entries[1..], crc, next);
      ExtractAllStep(a, headers, ExtractedOf(e, crc), AllExtracted(entries[1..], crc));
    }
  }

  lemma LocalLength(e: Entry, crc: Checksum)
    requires EntryFits(e)
    ensures |Local(e, crc)| == LocalSize(e)
  {
  }

  // ---------------------------------------------------------- main results

  /** No field of the archive takes a value that announces ZIP64 records. */
  predicate NoSentinel(entries: seq<Entry>) {
    |entries| != MAX16 && CentralSize(entries) != MAX32 && LocalsSize(entries) != MAX32
  }

  lemma ReadEndBack(a: Bytes, count: int, size: int, offset: int)
    requires 0 <= count <= MAX16 && 0 <= size <= MAX32 && 0 <= offset <= MAX32
    requires |a| >= 22 && Has(a, |a| - 22, EndRecord(count, size, offset))
    ensures ReadEnd(a) == if count != MAX16 && size != MAX32 && offset != MAX32
                          then Some(End(|a| - 22, count, size, offset)) else None
  {
    hide Read16, Read32;
    EndRecordFields(a, |a| - 22, count, size, offset);
    assert FindEnd(a, |a| - 22) == Some(|a| - 22);
  }

  /** The three parts of an archive lie one after the other. */
  lemma ArchiveParts(entries: seq<Entry>, crc: Checksum)
    requires Archive(entries, crc).Some?
    ensures var s, z := Sorted(entries), Archive(entries, crc).value;
            && AllFit(s, 0) && (forall i :: 0 <= i < |s| ==> EntryFits(s[i]))
            && |s| <= MAX16 && CentralSize(s) <= MAX32 && LocalsSize(s) <= MAX32
            && |z| == LocalsSize(s) + CentralSize(s) + 22
            && Has(z, 0, Locals(s, crc))
            && Has(z, LocalsSize(s), Central(s, crc, 0))
            && Has(z, |z| - 22, EndRecord(|s|, CentralSize(s), LocalsSize(s)))
  {
    hide EndRecord, Locals, Central, AllFit, EntryFits, Sorted;
    var s, z := Sorted(entries), Archive(entries, crc).value;
    AllFitEach(s, 0);
    LocalsLength(s, crc);
    CentralLength(s, crc, 0);
    var locals, central, end := Locals(s, crc), Central(s, crc, 0), EndRecord(|s|, CentralSize(s), LocalsSize(s));
    assert z == locals + central + end;
    assert z[0..|z|] == z;
    HasSplit(z, 0, locals + central, end);
    HasSplit(z, 0, locals, central);
  }

  /** Main result: the reader recovers exactly the sorted names, bytes, checksums and executable flags,
      and refuses only the archives in which a field happens to announce ZIP64. */
  lemma ZipRoundTrip(entries: seq<Entry>, crc: Checksum)
    requires Archive(entries, crc).Some?
    ensures forall i :: 0 <= i < |Sorted(entries)| ==> EntryFits(Sorted(entries)[i])
    ensures ReadArchive(Archive(entries, crc).value) ==
            if NoSentinel(Sorted(entries)) then Some(AllExtracted(Sorted(entries), crc)) else None
  {
    hide EndRecord, Locals, Central, AllFit, Sorted, Archive, EntryFits, Has, ReadEnd, ReadDirectory, ExtractAll,
         HeadersOf,
         AllExtracted, CentralSize, LocalsSize;
    ArchiveParts(entries, crc);
    var s, z := Sorted(entries), Archive(entries, crc).value;
    ReadEndBack(z, |s|, CentralSize(s), LocalsSize(s));
    if NoSentinel(s) {
      ReadDirectoryBack(z, LocalsSize(s), s, crc, 0);
      ExtractAllBack(z, s, crc, 0);
    }
  }

  // ------------------------------------------------------- what can be archived

  lemma {:induction false} SizesAppend(a: seq<Entry>, b: seq<Entry>)
    ensures LocalsSize(a + b) == LocalsSize(a) + LocalsSize(b) && CentralSize(a + b) == CentralSize(a) + CentralSize(b)
  {
    if a == [] {
      assert a + b == b;
    } else {
      SizesAppend(a[1..], b);
      assert (a + b)[1..] == a[1..] + b;
    }
  }

  /** Sizes do not depend on the order. */
  lemma {:induction false} SizesPermute(a: seq<Entry>, b: seq<Entry>)
    requires multiset(a) == multiset(b)
    ensures LocalsSize(a) == LocalsSize(b) && CentralSize(a) == CentralSize(b)
  {
    if a == [] {
      assert |multiset(b)| == 0;
      assert b == [];
    } else {
      var j := TakeOut(a, b);
      SizesPermute(a[1..], b[..j] + b[j + 1..]);
      SizesAppend(b[..j], b[j + 1..]);
      SizesAppend(b[..j], [b[j]] + b[j + 1..]);
      assert b == b[..j] + ([b[j]] + b[j + 1..]);
      assert ([b[j]] + b[j + 1..])[1..] == b[j + 1..];
    }
  }

  lemma {:induction false} FitTogether(s: seq<Entry>, offset: nat)
    requires (forall i :: 0 <= i < |s| ==> EntryFits(s[i])) && offset + LocalsSize(s) <= MAX32
    ensures AllFit(s, offset)
    decreases |s|
  {
    hide EntryFits;
    if s != [] {
      FitTogether(s[1..], offset + LocalSize(s[0]));
    }
  }

  lemma SortedElements(entries: seq<Entry>)
    ensures |Sorted(entries)| == |entries| && forall x :: x in Sorted(entries) <==> x in entries
  {
    hide Sorted;
    assert |multiset(entries)| == |entries|;
    forall x ensures x in Sorted(entries) <==> x in entries {
      assert x in Sorted(entries) <==> x in multiset(Sorted(entries));
      assert x in entries <==> x in multiset(entries);
    }
  }

  ghost predicate EachFits(entries: seq<Entry>) {
    forall i :: 0 <= i < |entries| ==> EntryFits(entries[i])
  }

  lemma EachFitsElements(a: seq<Entry>, b: seq<Entry>)
    requires EachFits(a) && forall x :: x in b ==> x in a
    ensures EachFits(b)
  {
    hide EntryFits;
    forall i | 0 <= i < |b| ensures EntryFits(b[i]) {
      assert b[i] in a;
    }
  }

  /** Main result: an archive is written exactly for entries that each have a safe name and fitting lengths, and that
      together fit the count, the size and the offset of the end record. */
  lemma ArchiveExactly(entries: seq<Entry>, crc: Checksum)
    ensures Archive(entries, crc).Some? <==>
            EachFits(entries) && |entries| <= MAX16 && CentralSize(entries) <= MAX32 && LocalsSize(entries) <= MAX32
  {
    hide EntryFits, Sorted, AllFit, CentralSize, LocalsSize, Locals, Central, EndRecord;
    var s := Sorted(entries);
    SortedElements(entries);
    SizesPermute(s, entries);
    if AllFit(s, 0) {
      AllFitEach(s, 0);
      EachFitsElements(s, entries);
    }
    if EachFits(entries) && LocalsSize(entries) <= MAX32 {
      EachFitsElements(entries, s);
      FitTogether(s, 0);
    }
  }

  // ----------------------------------------------- archives that announce ZIP64

  lemma {:induction false} SmallEntries(s: seq<Entry>, most: nat)
    requires forall i :: 0 <= i < |s| ==> LocalSize(s[i]) <= most
    ensures LocalsSize(s) <= |s| * most && CentralSize(s) <= |s| * (most + 16)
    decreases |s|
  {
    if s != [] {
      assert |s| * most == (|s| - 1) * most + most && |s| * (most + 16) == (|s| - 1) * (most + 16) + most + 16;
      SmallEntries(s[1..], most);
    }
  }

  /** The empty file with this number for a name. */
  function NumberedEntry(i: nat): Entry {
    Entry(Decimal(i), [], false)
  }

  function NumberedEntries(count: nat): (entries: seq<Entry>)
    ensures |entries| == count && forall i :: 0 <= i < count ==> entries[i] == NumberedEntry(i)
  {
    seq(count, i requires 0 <= i < count => NumberedEntry(i))
  }

  lemma NumberedFits(i: nat)
    requires i < MAX16
    ensures EntryFits(NumberedEntry(i)) && LocalSize(NumberedEntry(i)) <= 35
  {
    hide Split;
    assert Power10(5) == 10 * Power10(4) && Power10(4) == 10 * Power10(3) && Power10(3) == 10 * Power10(2);
    assert Power10(2) == 10 * Power10(1) && Power10(1) == 10 * Power10(0);
    DecimalLength(i, 5);
    var name := Decimal(i);
    hide Decimal, SafeName;
    assert IsDigit(name[0]);
    assert SafeParts([name]) && Join([name], SLASH) == name;
    SafeNameExact(name);
  }

  lemma NumberedDistinct(count: nat)
    ensures DistinctEntryNames(NumberedEntries(count))
  {
    hide Decimal;
    var entries := NumberedEntries(count);
    forall i, j | 0 <= i < j < |entries| ensures entries[i].name != entries[j].name {
      ReadDecimalOfDecimal(i);
      ReadDecimalOfDecimal(j);
    }
  }

  lemma SentinelUnreadable(entries: seq<Entry>, crc: Checksum)
    requires Archive(entries, crc).Some?
    requires |entries| == MAX16 || CentralSize(entries) == MAX32 || LocalsSize(entries) == MAX32
    ensures ReadArchive(Archive(entries, crc).value) == None
  {
    hide Sorted, Archive, ReadArchive, CentralSize, LocalsSize;
    SortedElements(entries);
    SizesPermute(Sorted(entries), entries);
    ZipRoundTrip(entries, crc);
  }

  /** 65535 empty files with different names make an archive that cannot be read back: its count announces ZIP64. */
  lemma CountExample(crc: Checksum)
    ensures var entries := NumberedEntries(MAX16);
            && DistinctEntryNames(entries) && Archive(entries, crc).Some?
            && ReadArchive(Archive(entries, crc).value) == None
  {
    hide EntryFits, NumberedEntry, Archive, ReadArchive, LocalSize, LocalsSize, CentralSize;
    var entries := NumberedEntries(MAX16);
    NumberedDistinct(MAX16);
    forall i | 0 <= i < |entries| ensures EntryFits(entries[i]) && LocalSize(entries[i]) <= 35 {
      NumberedFits(i);
    }
    SmallEntries(entries, 35);
    ArchiveExactly(entries, crc);
    SentinelUnreadable(entries, crc);
  }

  /** One file whose record ends where an offset announces ZIP64 makes another. */
  lemma OffsetExample(e: Entry, crc: Checksum)
    requires SafeName(e.name) && |e.name| <= MAX16 && LocalSize(e) == MAX32
    ensures Archive([e], crc).Some? && ReadArchive(Archive([e], crc).value) == None
  {
    hide SafeName, Archive, ReadArchive;
    assert [e][1..] == [];
    assert LocalsSize([e]) == LocalSize(e) + LocalsSize([e][1..]) && CentralSize([e]) == 46 + |e.name|;
    ArchiveExactly([e], crc);
    SentinelUnreadable([e], crc);
  }

  /** The local records tile the file up to the directory: each starts where the previous one ends. */
  lemma {:induction false} RecordsTile(entries: seq<Entry>, crc: Checksum, offset: nat, i: nat)
    requires forall k :: 0 <= k < |entries| ==> EntryFits(entries[k])
    requires i < |entries|
    ensures |HeadersOf(entries, crc, offset)| == |entries|
    ensures var h := HeadersOf(entries, crc, offset);
            && h[0].offset == offset
            && h[i].offset + LocalSize(entries[i]) ==
               if i + 1 < |entries| then h[i + 1].offset else offset + LocalsSize(entries)
  {
    hide EntryFits;
    HeadersCount(entries, crc, offset);
    if |entries| > 1 {
      var next := offset + LocalSize(entries[0]);
      HeadersCount(entries[1..], crc, next);
      RecordsTile(entries[1..], crc, next, if i == 0 then 0 else i - 1);
      assert forall k :: 1 <= k < |entries| ==>
             HeadersOf(entries, crc, offset)[k] == HeadersOf(entries[1..], crc, next)[k - 1];
    }
  }

  /** Main result: in the finished file the first local record starts at 0, every record starts where the one before
      it ends, and the last one ends where the directory starts. */
  lemma ArchiveTiles(entries: seq<Entry>, crc: Checksum, i: nat)
    requires Archive(entries, crc).Some? && NoSentinel(Sorted(entries)) && i < |entries|
    ensures var s, z := Sorted(entries), Archive(entries, crc).value;
            && ReadEnd(z).Some? && ReadDirectory(z, ReadEnd(z).value.offset, |entries|).Some?
            && var (h, end) := ReadDirectory(z, ReadEnd(z).value.offset, |entries|).value;
            && |h| == |entries| && end == |z| - 22
            && h[0].offset == 0
            && h[i].offset + LocalSize(s[i]) == if i + 1 < |entries| then h[i + 1].offset else ReadEnd(z).value.offset
  {
    hide EndRecord, Locals, Central, AllFit, Sorted, Archive, EntryFits, Has, ReadEnd, ReadDirectory, HeadersOf,
         CentralSize, LocalsSize;
    ArchiveParts(entries, crc);
    var s, z := Sorted(entries), Archive(entries, crc).value;
    ReadEndBack(z, |s|, CentralSize(s), LocalsSize(s));
    ReadDirectoryBack(z, LocalsSize(s), s, crc, 0);
    RecordsTile(s, crc, 0, i);
  }

  lemma {:induction false} HeadersCount(entries: seq<Entry>, crc: Checksum, offset: nat)
    requires forall k :: 0 <= k < |entries| ==> EntryFits(entries[k])
    ensures |HeadersOf(entries, crc, offset)| == |entries|
  {
    hide EntryFits;
    if entries != [] {
      HeadersCount(entries[1..], crc, offset + LocalSize(entries[0]));
    }
  }

  // --------------------------------------------------------- canonical output

  ghost predicate DistinctEntryNames(entries: seq<Entry>) {
    forall i, j :: 0 <= i < j < |entries| ==> entries[i].name != entries[j].name
  }

  lemma NameOrderStrict()
    ensures StrictOrder<Entry>(NameLess)
  {
    forall a: Entry ensures !NameLess(a, a) {
      LexIrreflexive(a.name);
    }
    forall a: Entry, b: Entry, c: Entry | NameLess(a, b) && NameLess(b, c) ensures NameLess(a, c) {
      LexTransitive(a.name, b.name, c.name);
    }
  }

  lemma EntriesComparable(entries: seq<Entry>)
    requires DistinctEntryNames(entries)
    ensures Comparable(entries, NameLess)
  {
    forall i, j | 0 <= i < j < |entries| ensures NameLess(entries[i], entries[j]) || NameLess(entries[j], entries[i]) {
      LexTotal(entries[i].name, entries[j].name);
    }
  }

  /** Main result: the order of the input does not show in the output, and the names strictly ascend. */
  lemma ArchiveCanonical(a: seq<Entry>, b: seq<Entry>, crc: Checksum)
    requires multiset(a) == multiset(b) && DistinctEntryNames(a) && DistinctEntryNames(b)
    ensures Archive(a, crc) == Archive(b, crc)
    ensures forall i, j :: 0 <= i < j < |Sorted(a)| ==> LexLess(Sorted(a)[i].name, Sorted(a)[j].name)
  {
    NameOrderStrict();
    EntriesComparable(a);
    EntriesComparable(b);
    forall x ensures x in a <==> x in b {
      assert x in a <==> x in multiset(a);
      assert x in b <==> x in multiset(b);
    }
    SortCanonical(a, b, NameLess);
    SortAscending(a, NameLess);
    forall i, j | 0 <= i < j < |Sorted(a)| ensures LexLess(Sorted(a)[i].name, Sorted(a)[j].name) {
      assert NameLess(Sorted(a)[i], Sorted(a)[j]);
    }
  }

  /** Bytes an entry costs: 30 and its name and data, then 46 and its name again. */
  function TotalSize(entries: seq<Entry>): nat {
    if entries == [] then 0 else 76 + 2 * |entries[0].name| + |entries[0].bytes| + TotalSize(entries[1..])
  }

  lemma {:induction false} TotalSizeParts(entries: seq<Entry>)
    ensures TotalSize(entries) == LocalsSize(entries) + CentralSize(entries)
  {
    if entries != [] {
      TotalSizeParts(entries[1..]);
    }
  }

  /** The length of an archive depends on its entries alone. */
  lemma ArchiveLength(entries: seq<Entry>, crc: Checksum)
    requires Archive(entries, crc).Some?
    ensures |Archive(entries, crc).value| == TotalSize(entries) + 22
  {
    ArchiveParts(entries, crc);
    TotalSizeParts(entries);
    SizesPermute(Sorted(entries), entries);
  }
}
