/** The witness as a file: printed by the observer, read back under a size bound by the release checks. */
module WitnessFile {
  import opened Strings
  import opened Json
  import Utf8
  import opened JsonReader
  import opened JsonGrammar
  import opened Witness
  import opened PrintedSize
  import opened WitnessSize
  import opened WitnessShape

  const MAX_FILE := 16384

  /** What the observer prints: two-space indentation and a final line break. */
  function FileText(v: Value): Text {
    Stringify(v, 2, 0) + [10]
  }

  /** What a file yields: the value it spells, if that is a witness and the file is inside the bound. */
  function ReadFile(isFile: bool, size: int, content: Text): Option<Value> {
    if isFile && 1 <= size <= MAX_FILE && |Utf8.Encode(content)| <= MAX_FILE
    then match Parse(content)
      case None => None
      case Some(v) => if ReadRecord(v).Some? then Some(v) else None
    else None
  }

  /** By the grammar the text spells the object of a valid record, whatever its spacing, its escapes and the order of
      its names. */
  ghost predicate SpellsRecord(content: Text, v: Value, w: Record) {
    Spells(content, v) && ValidRecord(w) && Same(v, RecordValue(w))
  }

  /** Main result: of the files inside the bound, exactly those that spell a valid record are accepted. */
  lemma ReadFileExact(isFile: bool, size: int, content: Text)
    ensures ReadFile(isFile, size, content).Some? <==>
            && isFile && 1 <= size <= 16384 && |Utf8.Encode(content)| <= 16384
            && exists v, w :: SpellsRecord(content, v, w)
    ensures var r := ReadFile(isFile, size, content); r.Some? ==> Spells(content, r.value)
  {
    hide Spells, Parse, ReadRecord, ValidRecord, Same, RecordValue, Distinct;
    if Parse(content).Some? {
      var v := Parse(content).value;
      ParseExactly(content, v);
      ParsedIsJson(content, 0);
      if ReadRecord(v).Some? {
        WitnessShapeExact(v, ReadRecord(v).value);
        assert SpellsRecord(content, v, ReadRecord(v).value);
      }
    }
    if v, w :| SpellsRecord(content, v, w) {
      ParseExactly(content, v);
      ParsedIsJson(content, 0);
      WitnessShapeExact(v, w);
    }
  }

  /** `readControlsWitness` on a handle that reports `isFile` and `size` and holds `content`. */
  method ReadControlsWitness(isFile: bool, size: int, content: Text) returns (r: Option<Value>)
    ensures r == ReadFile(isFile, size, content)
    ensures r.Some? <==>
            && isFile && 1 <= size <= 16384 && |Utf8.Encode(content)| <= 16384
            && exists v, w :: SpellsRecord(content, v, w)
    ensures r.Some? ==> Spells(content, r.value)
  {
    hide Parse, Spells, ReadRecord, SpellsRecord, Utf8.Encode;
    ReadFileExact(isFile, size, content);
    if !isFile || size < 1 || size > MAX_FILE {
      return None;
    }
    // One read of MAX_FILE + 1 bytes tells whether the content exceeds the bound.
    var bytes := Utf8.Encode(content);
    var bytesRead := if |bytes| <= MAX_FILE + 1 then |bytes| else MAX_FILE + 1;
    if bytesRead > MAX_FILE {
      return None;
    }
    var v := Parse(content);
    if v.None? {
      return None;
    }
    var accepted := ValidatedWitness(v.value);
    return if accepted then v else None;
  }

  /** Main result: every witness that can be created prints to a file inside the bound, and reading that file
      gives the same witness back. */
  lemma FileRoundTrip(sha: Hash, q: Request)
    requires Create(sha, q).Some?
    ensures var v := Create(sha, q).value;
            && 1 <= |Utf8.Encode(FileText(v))| <= 16384
            && ReadFile(true, |Utf8.Encode(FileText(v))|, FileText(v)) == Some(v)
  {
    hide Create, ReadRecord, WitnessObject, ValidRecord, Stringify, RuleOf, TimestampOf;
    var v, w, a, b := AcceptedRequest(sha, q);
    assert v == RecordValue(w);
    RecordFits(w, 2);
    var t := Stringify(v, 2, 0);
    assert Ascii(t + [10]);
    AsciiBytes(FileText(v));
    RecordIsPure(w);
    ParseStringify(v, 2, [10]);
  }
}
