/** The `IniParser` object: the three document fields, changed in place by
    the public operations, each proved against the document function that
    gives its meaning. */
module Ini {
  import opened Text
  import opened Hex
  import opened IniDoc
  import opened Parser
  import opened Serializer
  import opened Decimal

  class IniParser {
    /** `m_sections`, `m_insertOrder` and `m_comments`. */
    var sections: map<string, Section>
    var insertOrder: seq<string>
    var comments: string

    /** The fields as one document value. */
    function Doc(): Document
      reads this
    {
      Document(sections, insertOrder, comments)
    }

    ghost predicate Valid()
      reads this
    {
      WellFormed(Doc())
    }

    /** `IniParser()`: no sections, no comment. */
    constructor ()
      ensures Doc() == EmptyDocument && Valid()
    {
      sections, insertOrder, comments := map[], [], "";
    }

    /** `_parseIni(clear)` over the lines `getline` returns: `clear` empties the
        sections and the section order first; each line is trimmed and classified
        as a comment, a header, then an assignment; the comment text left at
        the end becomes `m_comments`. */
    method ParseIni(lines: seq<string>, clear: bool)
      requires Valid() && AllParsable(lines)
      modifies this
      ensures Doc() == ParseFile(old(Doc()), lines, clear)
      ensures Valid()
    {
      ghost var start := StartState(Doc(), clear);
      ghost var kinds := ClassifyAll(lines);
      if clear {
        sections := map[];
        insertOrder := [];
      }
      var section := "";
      var comment := "";
      var i := 0;
      ghost var st := start;
      while i < |lines|
        invariant 0 <= i <= |lines| && st == Run(start, kinds[..i])
        invariant ParseState(Doc(), section, comment) == st
      {
        ghost var kind := ClassifyAt(lines, i);
        section, comment := ParseLine(lines[i], section, comment);
        RunSnoc(start, kinds, i);
        st := Step(st, kind);
        i := i + 1;
      }
      comments := comment;
      assert kinds[..|lines|] == kinds;
      ParseFileWellFormed(old(Doc()), lines, clear);
    }

    /** One pass of the line loop of `_parseIni`: the line is trimmed and
        classified as a comment, a header, then an assignment, against the current
        section and the pending comment. */
    method ParseLine(origLine: string, section: string, comment: string) returns (section': string, comment': string)
      requires Parsable(origLine)
      modifies this
      ensures ParseState(Doc(), section', comment') == Step(ParseState(old(Doc()), section, comment), Classify(origLine))
    {
      ghost var before := ParseState(Doc(), section, comment);
      section', comment' := section, comment;
      var line := Trim(origLine, false);
      if |line| == 0 || line[0] == ';' || line[0] == '#' {
        StepComment(before, origLine, line);
        comment' := comment + origLine + "\n";
      } else if line[0] == '[' && line[|line| - 1] == ']' {
        StepHeader(before, origLine, line);
        section' := line[1..|line| - 1];
        var sec := SectionOf(Doc(), section');
        insertOrder := insertOrder + [section'];
        sections := sections[section' := sec.(registered := true, comments := comment)];
        comment' := "";
      } else {
        var eq := FindFrom(line, '=', 0);
        if eq < |line| {
          StepAssignment(before, origLine, line, eq);
          var keyName := Trim(line[..eq], false);
          var value := Trim(line[eq + 1..], true);
          var sec := SectionOf(Doc(), section);
          var key := KeyOf(sec, keyName).(value := value, deleted := false, registered := true, comments := comment);
          comment' := "";
          sections := sections[section := sec.(keys := sec.keys[keyName := key], insertOrder := sec.insertOrder + [keyName])];
        } else {
          StepIgnored(before, origLine, line);
        }
      }
    }

    /** `Init()`: parse the file, discarding the current sections. */
    method Init(lines: seq<string>) returns (ok: bool)
      requires Valid() && AllParsable(lines)
      modifies this
      ensures ok && Doc() == ParseFile(old(Doc()), lines, true) && Valid()
    {
      ParseIni(lines, true);
      ok := true;
    }

    /** `Reload()`: parse the file over the current sections. */
    method Reload(lines: seq<string>) returns (ok: bool)
      requires Valid() && AllParsable(lines)
      modifies this
      ensures ok && Doc() == ParseFile(old(Doc()), lines, false) && Valid()
    {
      ParseIni(lines, false);
      ok := true;
    }

    /** `Flush()`: the text `_writeIni` writes, section by section and key by
        key. Every name in an order list has its entry, so the lookups create
        nothing and the document is unchanged. */
    method Flush() returns (text: string)
      requires Valid()
      ensures text == DocumentText(Doc())
    {
      text := "";
      var i := 0;
      while i < |insertOrder|
        invariant 0 <= i <= |insertOrder|
        invariant text == SectionsText(Doc(), insertOrder[..i])
      {
        var piece := SectionOut(insertOrder[i], sections[insertOrder[i]]);
        text := text + piece;
        SectionsSnoc(Doc(), insertOrder, i);
        i := i + 1;
      }
      assert insertOrder[..i] == insertOrder;
      text := text + comments;
    }

    /** `ReadString`: the value of a key that is present and not tombstoned;
        a missing section or key (where `at` throws) or a tombstoned key gives
        the default. */
    method ReadString(s: string, k: string, default: string) returns (r: string)
      ensures r == IniDoc.ReadString(Doc(), s, k, default)
      ensures r == default || (IsLive(Doc(), s, k) && r == sections[s].keys[k].value)
    {
      if s !in sections || k !in sections[s].keys {
        return default;
      }
      var key := sections[s].keys[k];
      if key.deleted {
        return default;
      }
      return key.value;
    }

    /** `GetSectionCount`: the length of the section order. */
    method GetSectionCount() returns (n: nat)
      ensures n == SectionCount(Doc()) && n == |insertOrder|
    {
      return |insertOrder|;
    }

    /** `GetKeyCount`: the length of the section's key order, or 0 when the
        section is missing (where `at` throws). */
    method GetKeyCount(s: string) returns (n: nat)
      ensures n == KeyCount(Doc(), s)
      ensures s !in sections ==> n == 0
    {
      if s !in sections {
        return 0;
      }
      return |sections[s].insertOrder|;
    }

    /** `WriteString`: store the value, register the section and the key on
        first use, clear both tombstones. */
    method WriteString(s: string, k: string, v: string) returns (ok: bool)
      requires Valid()
      modifies this
      ensures ok && Doc() == Write(old(Doc()), s, k, v) && Valid()
    {
      var sec := SectionOf(Doc(), s);
      var key := KeyOf(sec, k).(value := v);
      if !sec.registered {
        insertOrder := insertOrder + [s];
        sec := sec.(registered := true);
      }
      if !key.registered {
        sec := sec.(insertOrder := sec.insertOrder + [k]);
        key := key.(registered := true);
      }
      sec := sec.(deleted := false, keys := sec.keys[k := key.(deleted := false)]);
      sections := sections[s := sec];
      WriteWellFormed(old(Doc()), s, k, v);
      ok := true;
    }

    /** `WriteInt`: WriteString of the decimal text of the value. */
    method WriteInt(s: string, k: string, value: int32) returns (ok: bool)
      requires Valid()
      modifies this
      ensures ok && Doc() == Write(old(Doc()), s, k, ToDecimal(value)) && Valid()
    {
      ok := WriteString(s, k, ToDecimal(value));
    }

    /** `DeleteKey`: tombstone an existing key; false when the section or the
        key is missing. */
    method DeleteKey(s: string, k: string) returns (ok: bool)
      requires Valid()
      modifies this
      ensures ok == HasKey(old(Doc()), s, k)
      ensures Doc() == IniDoc.DeleteKey(old(Doc()), s, k) && Valid()
    {
      if s in sections && k in sections[s].keys {
        var sec := sections[s];
        sections := sections[s := sec.(keys := sec.keys[k := sec.keys[k].(deleted := true)])];
        ok := true;
      } else {
        ok := false;
      }
    }

    /** `DeleteSection`: tombstone an existing section and empty its keys and
        key order; false when the section is missing. */
    method DeleteSection(s: string) returns (ok: bool)
      requires Valid()
      modifies this
      ensures ok == HasSection(old(Doc()), s)
      ensures Doc() == IniDoc.DeleteSection(old(Doc()), s) && Valid()
    {
      if s in sections {
        var sec := sections[s];
        sections := sections[s := sec.(deleted := true, keys := map[], insertOrder := [])];
        ok := true;
      } else {
        ok := false;
      }
    }

    /** `SetComment`: the comment of key "" when the key name is empty,
        otherwise the section's comment; entries are created as needed. */
    method SetComment(s: string, k: string, text: string) returns (ok: bool)
      requires Valid()
      modifies this
      ensures ok && Doc() == IniDoc.SetComment(old(Doc()), s, k, text) && Valid()
    {
      var sec := SectionOf(Doc(), s);
      if k == "" {
        sec := sec.(keys := sec.keys[k := KeyOf(sec, k).(comments := text)]);
      } else {
        sec := sec.(comments := text);
      }
      sections := sections[s := sec];
      ok := true;
    }

    /** `ReadBinary`, as written: the three checks, then the pair loop with
        its end test and running checksum, storing each decoded byte. */
    method ReadBinary(s: string, k: string, buffer: array<byte>, size: uint32, verifyChecksum: bool)
      returns (status: ReadBinaryStatus)
      requires size <= buffer.Length
      modifies buffer
      ensures status == ReadBinaryResult(IniDoc.ReadString(Doc(), s, k, ""), size, verifyChecksum)
      ensures var str := IniDoc.ReadString(Doc(), s, k, "");
              var n := StoredCount(str, size);
              && buffer[..n] == DecodeBytes(str, n)
              && forall j :: n <= j < buffer.Length ==> buffer[j] == old(buffer[j])
    {
      if Wrap32(2 * size + 10) < size {
        return StatusInvalidArgument;
      }
      var str := ReadString(s, k, "");
      if |str| == 0 {
        return StatusReadError;
      }
      if |str| != Wrap32(2 * size + 2) {
        return StatusInvalidDataSize;
      }
      status := DecodeInto(str, buffer, size, verifyChecksum);
    }

    /** `WriteBinary`: false and no change for a null buffer or a size whose
        doubled length wraps; otherwise the hexadecimal text with its checksum
        is stored with WriteString. */
    method WriteBinary(s: string, k: string, data: array?<byte>, size: uint32) returns (ok: bool)
      requires Valid()
      requires data != null ==> size <= data.Length
      modifies this
      ensures ok == (data != null && Wrap32(2 * size + 3) >= size)
      ensures ok ==> Doc() == Write(old(Doc()), s, k, HexEncode(data[..size]))
      ensures !ok ==> Doc() == old(Doc())
      ensures Valid()
    {
      if data == null {
        return false;
      }
      if Wrap32(2 * size + 3) < size {
        return false;
      }
      var resultStr := HexOut(data, size);
      ok := WriteString(s, k, resultStr);
    }
  }

  /** The loop of `WriteBinary`: two hexadecimal digits per byte while the
      8-bit checksum accumulates, then the checksum's two digits. */
  method HexOut(data: array<byte>, size: uint32) returns (resultStr: string)
    requires size <= data.Length
    ensures resultStr == HexEncode(data[..size])
  {
    ghost var bytes := data[..size];
    var checksum: byte := 0;
    resultStr := "";
    var i := 0;
    while i < size
      invariant 0 <= i <= size
      invariant checksum == Checksum(bytes[..i]) && resultStr == HexBody(bytes[..i])
    {
      var currentByte := data[i];
      HexBodySnoc(bytes, i);
      checksum := (checksum + currentByte) % 256;
      resultStr := resultStr + [HexDigit(currentByte / 16)];
      resultStr := resultStr + [HexDigit(currentByte % 16)];
      i := i + 1;
    }
    assert bytes[..size] == bytes;
    HexEncodeSnoc(bytes, resultStr, checksum);
    resultStr := resultStr + [HexDigit(checksum / 16)];
    resultStr := resultStr + [HexDigit(checksum % 16)];
  }

  /** One pass of the outer loop of `_writeIni`: the section's comment text,
      then unless it is tombstoned its header line and its keys. */
  method SectionOut(name: string, sec: Section) returns (text: string)
    requires SectionWellFormed(sec)
    ensures text == SectionText(name, sec)
  {
    text := sec.comments;
    if !sec.deleted {
      text := text + Header(name) + "\n";
      var keysText := KeysOut(sec);
      text := text + keysText;
      AppendAssoc(sec.comments, Header(name) + "\n", keysText, text);
    }
  }

  /** The inner loop of `_writeIni`: for each name in the key order, the key's
      comment text and, unless it is tombstoned, its `name=value` line. */
  method KeysOut(sec: Section) returns (text: string)
    requires SectionWellFormed(sec)
    ensures text == KeysText(sec, sec.insertOrder)
  {
    text := "";
    var j := 0;
    while j < |sec.insertOrder|
      invariant 0 <= j <= |sec.insertOrder|
      invariant text == KeysText(sec, sec.insertOrder[..j])
    {
      var keyName := sec.insertOrder[j];
      var key := sec.keys[keyName];
      ghost var keysDone := text;
      text := text + key.comments;
      if !key.deleted {
        text := text + keyName + "=" + key.value + "\n";
      }
      KeysStep(sec, j, keysDone, text);
      j := j + 1;
    }
    assert sec.insertOrder[..j] == sec.insertOrder;
  }

  /** The pair loop of `ReadBinary`, once the three checks have passed: each
      pair is decoded; when the position reaches the end of the string the
      running checksum is compared with the last pair, otherwise the byte is
      added to the checksum and stored. */
  method DecodeInto(str: string, buffer: array<byte>, size: uint32, verifyChecksum: bool)
    returns (status: ReadBinaryStatus)
    requires ReadBinaryPrecheck(str, size) == StatusSuccess && size <= buffer.Length
    modifies buffer
    ensures status == ReadBinaryResult(str, size, verifyChecksum)
    ensures var n := StoredCount(str, size);
            && buffer[..n] == DecodeBytes(str, n)
            && forall j :: n <= j < buffer.Length ==> buffer[j] == old(buffer[j])
  {
    ghost var half := WrapEven(size);
    var checksum: byte := 0;
    var pos := 0;
    var i := 0;
    while i < size
      invariant 0 <= i <= size && pos == 2 * i
      invariant |str| == 2 * half && i + 1 <= half
      invariant buffer[..i] == DecodeBytes(str, i) && checksum == Checksum(DecodeBytes(str, i))
      invariant forall j :: i <= j < buffer.Length ==> buffer[j] == old(buffer[j])
    {
      var currentByte := CharToNibble(str[pos]);
      pos := pos + 1;
      currentByte := currentByte * 16 + CharToNibble(str[pos]);
      pos := pos + 1;
      assert currentByte == DecodePair(str, i);
      if pos >= |str| {
        EndTestAt(str, size, i, verifyChecksum);
        if !verifyChecksum || checksum == currentByte {
          return StatusSuccess;
        } else {
          return StatusBadChecksum;
        }
      }
      DecodeStep(str, i, checksum, currentByte);
      ghost var stored := buffer[..i];
      checksum := (checksum + currentByte) % 256;
      buffer[i] := currentByte;
      assert buffer[..i + 1] == stored + [currentByte];
      i := i + 1;
    }
    EndTestNever(str, size, verifyChecksum);
    return StatusUnknownError;
  }

  /** WriteInt, then ReadString: the text read back is the decimal form of the
      value, and reading it as a decimal gives the value again. */
  lemma WriteIntReadBack(d: Document, s: string, k: string, value: int32)
    ensures DecimalValue(ReadString(Write(d, s, k, ToDecimal(value)), s, k, "")) == Some(value)
  {
    DecimalRoundTrip(value);
  }

  /** WriteBinary, then ReadBinary of the same key and size: the bytes come
      back, but the status is STATUS_UNKNOWN_ERROR whenever the encoded length
      fits in 32 bits. */
  lemma WriteBinaryReadBack(d: Document, s: string, k: string, data: seq<byte>, verifyChecksum: bool)
    requires 2 * |data| + 10 < 0x1_0000_0000
    ensures var str := ReadString(Write(d, s, k, HexEncode(data)), s, k, "");
            && ReadBinaryResult(str, |data|, verifyChecksum) == StatusUnknownError
            && DecodeBytes(str, StoredCount(str, |data|)) == data
  {
    ReadBackAsWritten(data, verifyChecksum);
  }

  /** The kind of line `i`, as the fold over all lines sees it. */
  lemma ClassifyAt(lines: seq<string>, i: nat) returns (kind: LineKind)
    requires AllParsable(lines) && i < |lines|
    ensures Parsable(lines[i]) && kind == Classify(lines[i]) && kind == ClassifyAll(lines)[i]
  {
    kind := Classify(lines[i]);
  }

  /** One more item of a fold from the end. */
  lemma RunSnoc(st: ParseState, kinds: seq<LineKind>, i: nat)
    requires i < |kinds|
    ensures Run(st, kinds[..i + 1]) == Step(Run(st, kinds[..i]), kinds[i])
  {
    assert kinds[..i + 1][..i] == kinds[..i];
  }

  lemma KeysSnoc(sec: Section, order: seq<string>, j: nat)
    requires j < |order|
    ensures KeysText(sec, order[..j + 1]) == KeysText(sec, order[..j]) + KeyText(order[j], KeyOf(sec, order[j]))
  {
    assert order[..j + 1][..j] == order[..j];
  }

  /** One key of Flush's inner loop: its comment text and, unless it is
      tombstoned, its `name=value` line extend the keys written so far. */
  lemma KeysStep(sec: Section, j: nat, before: string, after: string)
    requires j < |sec.insertOrder| && sec.insertOrder[j] in sec.keys
    requires before == KeysText(sec, sec.insertOrder[..j])
    requires var name := sec.insertOrder[j];
             var key := sec.keys[name];
             if key.deleted then after == before + key.comments
             else after == before + key.comments + name + "=" + key.value + "\n"
    ensures after == KeysText(sec, sec.insertOrder[..j + 1])
  {
    var name := sec.insertOrder[j];
    var key := sec.keys[name];
    KeysSnoc(sec, sec.insertOrder, j);
    if !key.deleted {
      var line := name + "=" + key.value + "\n";
      assert before + key.comments + name + "=" + key.value + "\n" == before + key.comments + line;
      AppendAssoc(KeysText(sec, sec.insertOrder[..j]), key.comments, line, after);
    }
  }

  lemma SectionsSnoc(d: Document, order: seq<string>, i: nat)
    requires i < |order|
    ensures SectionsText(d, order[..i + 1]) == SectionsText(d, order[..i]) + SectionText(order[i], SectionOf(d, order[i]))
  {
    assert order[..i + 1][..i] == order[..i];
  }

  /** Appending two pieces one after the other appends their concatenation. */
  lemma AppendAssoc(b: string, c: string, e: string, text: string)
    requires text == b + c + e
    ensures text == b + (c + e)
  {
  }
}
