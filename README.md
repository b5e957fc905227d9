# IniParser in Dafny

A model of `IniParser`, a header-only C++ class that keeps an INI file in
memory. It reads and writes string, integer and binary values under
`[section]` / `key=value` names, keeps comments, and writes the file back in
the order sections and keys were declared. A name declared again by a later
header or assignment in a loaded file is recorded again, so it is written once
per declaration.

The model follows the class's own structure:

- `Text`: the `trim` helper. `TrimSpace` and `StripQuotes` give its meaning;
  the method `Trim` keeps the source's two loops.
- `IniDoc`: the document, sections and keys as values, with the meaning of
  `WriteString`, `DeleteKey`, `DeleteSection`, `SetComment`, `ReadString`,
  `GetSectionCount` and `GetKeyCount` as functions on them.
- `Parser`: the line loop of `_parseIni`. One line is classified (comment or
  blank, header, assignment, ignored), one step updates the document and the
  two accumulators (current section, pending comment text), and a fold runs
  the steps over a file.
- `Serializer`: the text `_writeIni` writes, as a fold over the order lists,
  and how `getline` splits a text into lines.
- `RoundTrip`: writing a document and parsing the text back gives the same
  document. This holds for documents in canonical form.
- `Hex`: the binary codec of `WriteBinary`/`ReadBinary`. It includes the
  `CharToNibble` macro, the additive checksum and the 32-bit size guards.
  `ReadBinary` is modelled as written, and a corrected reading is given
  beside it.
- `Decimal`: the decimal text `WriteInt` stores (`std::to_wstring` of an
  `int`) and an independent reader for it.
- `Ini`: the class `IniParser`. Its fields are `sections`, `insertOrder` and
  `comments`. Each public operation the model covers (all but `ReadInt`
  and `ChangePath`) is a method: the updates change the fields in place, the
  queries read them, and each is proved equal to the function that gives it
  its meaning: the `IniDoc` and `Parser` functions for the updates, queries and
  loading, `Serializer.DocumentText` for `Flush`, and the `Hex` functions for
  `ReadBinary` and `WriteBinary`. Reading a file is given as a sequence of lines, and flushing
  returns the text.

Every operation keeps the document invariant `IniDoc.WellFormed`: every name
in an order list has a map entry, and an entry is marked registered exactly
when its name is in the order list.

A tombstoned section does not always have an empty key map. `DeleteSection`
empties it, but a later `Reload` of a file that still has the section adds
keys under the tombstone; `Parser.ReloadIntoDeletedSection` shows this. The
model follows the code.

## Model

| member | source | states |
|---|---|---|
| Text.TrimSpace | IniParser.h:133-154 | the result is empty exactly when the input is all whitespace; otherwise it neither starts nor ends with whitespace |
| Text.IsSpace | IniParser.h:139 | the characters `iswspace` accepts in the "C" locale: space, tab, line feed, vertical tab, form feed and carriage return |
| Text.Trimmed | IniParser.h:133-154 | what `trim` returns: the whitespace-trimmed text, with one leading and one trailing double quote dropped when `trimQuot` is set |
| Text.TrimSpaceSplit | IniParser.h:137-145 | trimming drops only whitespace: the input is whitespace, then the result, then whitespace |
| Text.TrimSpacePadded | IniParser.h:137-145 | the trimmed text is unique: trimming any whitespace-padded text whose ends are not whitespace gives that text back |
| Text.StripQuotes | IniParser.h:146-149 | exactly one enclosing pair of double quotes is removed, and only when both ends are quotes |
| Text.Trim | IniParser.h:133-154 | the two loops and the quote step return the whitespace-trimmed slice, with one enclosing quote pair removed when asked |
| Text.TrimBounds | IniParser.h:137-145 | where the loops stop: `start` at the first non-whitespace character (or the end), `end` at the last one |
| Text.QuoteBounds | IniParser.h:146-150 | the quote step on the slice removes the outer pair exactly when both ends are quotes |
| Hex.CharToNibble | IniParser.h:76 | always a nibble (< 16); '0'..'9' give 0..9 and 'A'..'F' give 10..15 |
| Hex.HexDigit | IniParser.h:476-479 | each table entry is an upper-case hexadecimal digit that CharToNibble maps back to its index |
| Hex.DigitOfNibble | IniParser.h:76 | encoding the nibble of a hexadecimal digit gives the digit back |
| Hex.ChecksumIsSumMod256 | IniParser.h:495 | the byte-wide running checksum equals the sum of all bytes modulo 256 |
| Hex.HexBody | IniParser.h:493-498 | the loop produces two characters per byte |
| Hex.HexEncode | IniParser.h:492-501 | the stored string has length 2·size + 2 |
| Hex.Checksum | IniParser.h:463 | the running `unsigned char` checksum: each byte is added and the sum wraps at 256 (the same update as line 495) |
| Hex.DecodePair | IniParser.h:450-452 | pair i read back: the nibble of character 2i shifted up by four, or-ed with the nibble of character 2i+1 |
| Hex.DecodeBytes | IniParser.h:447-464 | the first n pairs decoded one after the other, which is what the loop stores into the buffer |
| Hex.HexBodyAt | IniParser.h:496-497 | characters 2i and 2i+1 are the digits of byte i, high nibble first |
| Hex.HexEncodeShape | IniParser.h:496-501 | every stored character is an upper-case hexadecimal digit, and the last two spell the checksum |
| Hex.DecodeHexPair | IniParser.h:450-452 | decoding the two digits of a byte gives the byte |
| Hex.DecodeHexEncode | IniParser.h:447-465 | decoding the first n pairs of WriteBinary's string gives the original n bytes, and the last pair gives their checksum |
| Hex.ReadBinaryPrecheck | IniParser.h:433-443 | the three checks in source order; success implies the length equals 2·size + 2 computed in 32 bits, and a non-empty string |
| Hex.ReadBinaryResult | IniParser.h:431-471 | the status ReadBinary returns: the three early checks in source order, then success or bad checksum only if the in-loop end test fires, otherwise STATUS_UNKNOWN_ERROR |
| Hex.ReadBinaryWrongLength | IniParser.h:443-469 | when the doubled size does not wrap, a non-empty string of any length other than 2·size+2 gives STATUS_INVALID_DATA_SIZE |
| Hex.StoredCount | IniParser.h:447-465 | after the checks pass, the loop stores at most `size` bytes and never reads past the string |
| Hex.EndTestAt | IniParser.h:455-461 | when the end test fires after pair i, i bytes are stored and the status compares the checksum with pair i |
| Hex.EndTestNever | IniParser.h:447-470 | when the end test never fires, all bytes are stored and the status is STATUS_UNKNOWN_ERROR |
| Hex.ChecksumBranchNeedsWrap | IniParser.h:443-461 | STATUS_SUCCESS or STATUS_BAD_CHECKSUM is returned only if 2·size + 2 overflows 32 bits |
| Hex.WrappedSizeReachesChecksum | IniParser.h:433-461 | the 32-bit guard lets the size 2^32-10 through; the size test then accepts a string of length 2^32-18, which is not 2·size+2, and for it the checksum branch is reached |
| Hex.ReadBackAsWritten | IniParser.h:443-470 | reading back WriteBinary's string restores the bytes but returns STATUS_UNKNOWN_ERROR |
| Hex.DeadScenario | IniParser.h:443-470 | the bytes DE AD are stored as "DEAD8B", and reading it back returns STATUS_UNKNOWN_ERROR |
| Hex.ReadBinaryIntended | IniParser.h:443-470 | the corrected decoder returns the bytes only with STATUS_SUCCESS or STATUS_BAD_CHECKSUM, and then all `size` of them |
| Hex.IntendedRoundTrip | IniParser.h:443-470 | with the corrected decoder, reading back WriteBinary's string succeeds and restores the bytes |
| Hex.IntendedWrongLength | IniParser.h:433-443 | the corrected decoder refuses every non-empty string whose length is not 2·size+2, for every size including wrapping ones, and stores nothing |
| Hex.IntendedDetectsOneDigit | IniParser.h:455-461 | with verification on, the corrected decoder reports any single replaced digit as a bad checksum |
| Hex.ChecksumOneChange | IniParser.h:495 | changing one byte changes the checksum |
| IniDoc.Write | IniParser.h:296-313 | afterwards the key reads back the value; section and key are live and registered; the key's own comment, other sections and the trailing comment are unchanged |
| IniDoc.ReadString | IniParser.h:259-266 | what `ReadString` returns: the value of a key that exists and is not tombstoned, otherwise the default (a missing section or key makes `at` throw, which is caught) |
| IniDoc.WriteWellFormed | IniParser.h:296-313 | WriteString keeps the invariant. The section is appended to the section order, and the key to its section's key order, exactly when it was not there, so neither order gains a duplicate. The other keys of the section and its comment are unchanged |
| IniDoc.WriteFrame | IniParser.h:259-266 | WriteString changes what ReadString returns for its own key only |
| IniDoc.DeleteKey | IniParser.h:343-350 | with no such section or key, nothing changes; otherwise only the key's tombstone is set: its value, comment and registration, the section's comment, flags and key order, its other keys, every other section, the section order and the trailing comment are kept, and so is the invariant |
| IniDoc.DeleteKeyReads | IniParser.h:343-350 | after DeleteKey the key reads as the default, and every other key reads as before |
| IniDoc.WriteUndoesDeleteKey | IniParser.h:296-350 | writing the old value back over a tombstoned key restores the document exactly |
| IniDoc.DeleteSection | IniParser.h:357-367 | with no such section, nothing changes. Otherwise the section is tombstoned and loses its keys and key order, while its comment and registration, the section order, every other section's entry and the invariant are kept |
| IniDoc.DeleteSectionReads | IniParser.h:357-367 | after DeleteSection every key of the section reads as the default, its key count is 0, the section count is unchanged, and every key of another section reads as before |
| IniDoc.SetComment | IniParser.h:376-388 | an empty key name sets the comment of key "" and leaves the section's comment and other keys alone; otherwise it sets the section's comment and leaves its keys alone. The section keeps its tombstone and registration, and key "" keeps its value and flags. Other sections, the section order and every key order are unchanged, and the invariant is kept |
| IniDoc.SectionCount | IniParser.h:404-406 | `GetSectionCount`: the length of the section order, repeated and tombstoned names included |
| IniDoc.KeyCount | IniParser.h:408-414 | `GetKeyCount`: the length of the section's key order, or 0 for a missing section |
| IniDoc.SetCommentReads | IniParser.h:376-388 | SetComment changes no value ReadString returns, key "" included when it was present; a missing key "" now reads as "" |
| Parser.FindFrom | IniParser.h:192 | `find` returns the first occurrence, or the length when there is none |
| Parser.Classify | IniParser.h:170-205 | how a line is treated, tested in the source's order on the trimmed line: blank or `;`/`#` (comment, untrimmed text kept), `[...]` (header), a first `=` (assignment of trimmed key to trimmed, unquoted value), otherwise ignored |
| Parser.Step | IniParser.h:171-205 | one pass of the loop on a classified line, over the document, the current section and the pending comment |
| Parser.Run | IniParser.h:169-206 | the line loop as a fold: the state after the last line is one Step from the state after the others |
| Parser.ParseFile | IniParser.h:156-215 | `_parseIni(clear)`: empty the sections and the section order when `clear`, run the loop from section "" with no pending comment, then store the pending comment as `m_comments` |
| Parser.StepEffect | IniParser.h:169-206 | each line kind's effect on the document, the current section and the pending comment |
| Parser.StepComment | IniParser.h:171-180 | a blank or `;`/`#` line appends the untrimmed line and a line feed to the pending comment |
| Parser.StepHeader | IniParser.h:181-190 | a header appends the name to the section order even when present, registers it, sets its comment, keeps its tombstone, and clears the pending comment |
| Parser.StepAssignment | IniParser.h:192-203 | an assignment splits at the first `=` and sets the trimmed key's value with quotes removed; it clears the tombstone, registers the key, takes the pending comment and appends the key |
| Parser.StepIgnored | IniParser.h:205 | any other line changes nothing |
| Parser.ClassifyHeader | IniParser.h:181-182 | a line `[n]` is a header for the name n |
| Parser.ClassifyAssignment | IniParser.h:192-195 | a line `k=v` with plain key and value is read as that assignment |
| Parser.ClassifyComment | IniParser.h:171-178 | blank and comment lines are kept verbatim as comment text |
| Parser.ParseFileWellFormed | IniParser.h:156-215 | parsing keeps the document invariant |
| Parser.ReloadExtends | IniParser.h:162-202 | without `clear`, the old document is kept and the order lists only grow |
| Parser.InitForgetsDocument | IniParser.h:162-165 | with `clear`, the result does not depend on the document held before |
| Parser.ReloadKeepsUnassignedKeys | IniParser.h:169-206 | a key that no line assigns reads the same after Reload |
| Parser.SectionScenario | IniParser.h:169-207 | a header, two assignments and a comment between them give two live keys, each value, the comment attached to the second key, and one section with two keys |
| Parser.NetScenario | IniParser.h:169-207 | a concrete file `[net]`, `host=example.com`, `;port comment`, `port=8080` reads back both values |
| Parser.DuplicateHeaderScenario | IniParser.h:186 | a repeated header appears twice in the section order and counts twice |
| Parser.KeysBeforeHeaderScenario | IniParser.h:196-202 | a key before any header goes into section "", which is not registered and not in the section order |
| Parser.ReloadIntoDeletedSection | IniParser.h:181-202 | reloading into a tombstoned section adds readable keys while the tombstone stays |
| Serializer.LinesAppend | IniParser.h:169 | `getline` splits text ending in a line feed, then more text, as the two parts separately |
| Serializer.KeyText | IniParser.h:227-230 | one key as written: its comment text, then `name=value` and a line feed unless the key is tombstoned |
| Serializer.KeysText | IniParser.h:226-231 | the keys of a section in key order, each looked up through the `operator[]` read view |
| Serializer.SectionText | IniParser.h:223-232 | one section as written: its comment text, then unless tombstoned the header line `[name]` and its keys |
| Serializer.DocumentText | IniParser.h:222-234 | the whole file: the sections in section order, then `m_comments` |
| Serializer.Lines | IniParser.h:169 | the lines `getline` returns: the pieces between line feeds, and a last piece only when the text does not end in a line feed |
| Serializer.LinesOfLine | IniParser.h:169 | a line without line feed, a line feed and more text split into that line and the lines of the rest |
| RoundTrip.FlushThenInit | IniParser.h:222-234 | the text written for a canonical document parses back, with `clear`, to the same document |
| RoundTrip.WriteKeepsCanonical | IniParser.h:296-313 | WriteString of a plain key and value keeps a canonical document canonical |
| RoundTrip.WriteFlushInitReads | IniParser.h:296-313 | a value written into a canonical document is read back after Flush and Init |
| Decimal.ToDecimal | IniParser.h:333-335 | the text is non-empty, has a minus sign exactly for negative values, and then digits without leading zeros |
| Decimal.DecimalRoundTrip | IniParser.h:333-335 | reading the decimal text back gives the integer |
| Decimal.ToDecimalInjective | IniParser.h:333-335 | different integers are stored as different text |
| Decimal.DecimalIsPlain | IniParser.h:333-335 | the text has no whitespace, quote or line feed, so the parser reads it back unchanged |
| Ini.IniParser.constructor | IniParser.h:118 | a new parser holds no sections and no comment |
| Ini.IniParser.ParseIni | IniParser.h:156-215 | the line loop leaves the parse of the lines over the old fields (emptied first with `clear`), and keeps the invariant |
| Ini.IniParser.ParseLine | IniParser.h:170-205 | one pass of the loop body performs one parser step |
| Ini.IniParser.Init | IniParser.h:390-393 | returns true; the fields become the parse of the file with `clear` |
| Ini.IniParser.Reload | IniParser.h:396-398 | returns true; the fields become the parse of the file over the current document |
| Ini.IniParser.Flush | IniParser.h:222-234 | the text written is the document's text: sections in order, then the trailing comment |
| Ini.SectionOut | IniParser.h:223-232 | one section's text: its comment, and unless tombstoned its header and keys |
| Ini.KeysOut | IniParser.h:226-231 | the keys' text in key order: comment, and unless tombstoned `name=value` |
| Ini.IniParser.ReadString | IniParser.h:259-266 | the field lookups return the value of a present, live key and the default otherwise, which is IniDoc.ReadString of the fields |
| Ini.IniParser.GetSectionCount | IniParser.h:404-406 | the length of the section order, IniDoc.SectionCount of the fields |
| Ini.IniParser.GetKeyCount | IniParser.h:408-414 | the length of the section's key order, 0 for a missing section, IniDoc.KeyCount of the fields |
| Ini.IniParser.WriteString | IniParser.h:296-313 | returns true; the fields become the written document and keep the invariant |
| Ini.IniParser.WriteInt | IniParser.h:333-335 | WriteString of the decimal text of the value |
| Ini.WriteIntReadBack | IniParser.h:322-335 | after WriteInt, the stored text reads back as the same integer |
| Ini.IniParser.DeleteKey | IniParser.h:343-350 | returns whether the section and key exist; the fields become the document with that key tombstoned |
| Ini.IniParser.DeleteSection | IniParser.h:357-367 | returns whether the section exists; the fields become the document with that section tombstoned and emptied |
| Ini.IniParser.SetComment | IniParser.h:376-388 | returns true; the fields become the document with the comment set |
| Ini.IniParser.ReadBinary | IniParser.h:431-471 | the status and the buffer are those of the as-written decoder: the stored prefix holds the decoded pairs, and the rest of the buffer is untouched |
| Ini.DecodeInto | IniParser.h:444-470 | the pair loop stores the decoded bytes up to the end test and returns that status |
| Ini.IniParser.WriteBinary | IniParser.h:473-504 | a null buffer, or a size whose 32-bit `size*2+3` is below `size`, gives false and no change; otherwise the hexadecimal text with its checksum is written |
| Ini.HexOut | IniParser.h:492-501 | the byte loop builds two uppercase hexadecimal digits per byte, high nibble first, followed by the two digits of the 8-bit checksum |
| Ini.WriteBinaryReadBack | IniParser.h:431-504 | reading back what WriteBinary stored restores the bytes but reports STATUS_UNKNOWN_ERROR |

## Left out

- File I/O and transcoding are not modelled. This covers the streams, the UTF-8 locale, `temp.ini`, the `.old` backup rename and its failure result, and the `runtime_error` throws on an unopened or bad stream. Reading is a given sequence of lines; writing returns the text.
- Ini.IniParser.ParseIni: an unopened file throws after `clear` has already emptied the sections. Only the successful read is modelled.
- Characters: a Dafny `char` (a Unicode scalar value) stands for one `wchar_t`. With a 16-bit `wchar_t`, the source's lengths (such as `structStr.size()` in ReadBinary) count UTF-16 code units, so a character outside the Basic Multilingual Plane has length 2 there and 1 here. A lone surrogate has no counterpart in the model.
- Text.IsSpace: `iswspace` depends on the locale. The model fixes the "C" locale set (space, tab, line feed, vertical tab, form feed, carriage return).
- Text.Trim: requires that the trimmed text is not a lone `"` when quotes are trimmed. The source then builds a string from an inverted iterator range.
- ReadInt is not modelled. It relies on `stoi`, which accepts a numeric prefix and throws on bad text. Decimal.DecimalValue is an independent reader used only to state that WriteInt loses nothing.
- `ChangePath` and the `m_iniPath` field are not modelled. `ChangePath` has no return statement.
- The destructor's implicit `Flush` is not modelled.
- The null-argument rows of the WriteString comment table are documentation only and are not modelled.
- The `catch(...)` paths of WriteString and SetComment fire only on allocation failure, so both always return true.
- Hash-map iteration order is not modelled: maps are Dafny maps, and output order comes only from the order lists.
- IniDoc.SectionCount: the `unsigned int` return is not truncated.
- IniDoc.KeyCount: the `int` return is not truncated.
- Ini.IniParser.GetSectionCount: returns a `nat`, without the truncation to `unsigned int`.
- Ini.IniParser.GetKeyCount: returns a `nat`, without the truncation to `int`.
- RoundTrip.FlushThenInit: holds only for canonical documents. These have plain names and values, comment text made of whole comment lines, no tombstones and no repeated names. Other documents do not survive the round trip in general.
- Ini.IniParser.ParseIni: requires every line to be `Parsable`; the same holds for Ini.IniParser.Init and Ini.IniParser.Reload. A file with an assignment line whose value trims to a lone `"` (such as `key="`) is outside the model, because `trim` then builds a string from an inverted iterator range.
- Ini.IniParser.WriteBinary: requires a non-null buffer to hold at least `size` bytes. The source reads `size` bytes through a `void*` and cannot check its length.
- Ini.IniParser.ReadBinary: the buffer is a Dafny array of bytes at least `size` long. The caller's `void*` and its length are not checked by the source.

## Findings

| source | as written | input that shows it | evidently intended | confidence | as-written member | corrected member |
|---|---|---|---|---|---|---|
| IniParser.h:455-470 | inside the loop the position after pair i is 2i+2 ≤ 2·size, below the length 2·size+2, so the end-of-string checksum test never fires and the loop falls through to STATUS_UNKNOWN_ERROR | reading back the bytes DE AD, stored as "DEAD8B", with size 2 | decode all `size` pairs, then compare the last pair with the checksum and return STATUS_SUCCESS or STATUS_BAD_CHECKSUM | not executed | Hex.ReadBackAsWritten | Hex.IntendedRoundTrip |
| IniParser.h:433-443 | the guard `size * 2 + 10 < size` catches every size whose doubled length wraps except 2^32-10 to 2^32-6, which pass it; the size test then compares the length with the wrapped `size * 2 + 2`, so a string far shorter than two digits per byte is accepted and decoded | size 2^32-10 with a string of length 2^32-18 (any contents): the checks pass and ReadBinary returns STATUS_SUCCESS or STATUS_BAD_CHECKSUM instead of STATUS_INVALID_DATA_SIZE | refuse every size whose doubled length does not fit, and every string whose length is not 2·size+2 | not executed | Hex.WrappedSizeReachesChecksum | Hex.IntendedWrongLength |
