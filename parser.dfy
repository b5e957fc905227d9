/** The line parser of `_parseIni`: one forward pass over the lines of the file
    with two accumulators, the current section name and the pending comment.
    Each line is first classified, then applied to the state. */
module Parser {
  import opened Text
  import opened IniDoc

  /** Index of the first `c` at or after `from`, or |t| when there is none
      (`find`, with |t| standing for `npos`). */
  function FindFrom(t: string, c: char, from: nat): (i: nat)
    requires from <= |t|
    ensures from <= i <= |t|
    ensures i < |t| ==> t[i] == c
    ensures forall j :: from <= j < i ==> t[j] != c
    decreases |t| - from
  {
    if from == |t| || t[from] == c then from else FindFrom(t, c, from + 1)
  }

  /** A trimmed line that only feeds the pending comment: blank, or starting
      with `;` or `#`. */
  predicate IsCommentText(t: string) {
    |t| == 0 || t[0] == ';' || t[0] == '#'
  }

  /** A trimmed line of the form `[name]`. */
  predicate IsHeaderText(t: string) {
    |t| > 0 && t[0] == '[' && t[|t| - 1] == ']'
  }

  /** The lines `_parseIni` handles without undefined behaviour: all but an
      assignment whose value trims to a lone double quote. */
  predicate Parsable(line: string) {
    var t := TrimSpace(line);
    var eq := FindFrom(t, '=', 0);
    IsCommentText(t) || IsHeaderText(t) || eq == |t| || TrimSpace(t[eq + 1..]) != "\""
  }

  predicate AllParsable(lines: seq<string>) {
    forall i :: 0 <= i < |lines| ==> Parsable(lines[i])
  }

  /** The four ways `_parseIni` treats a line, checked in the source's order.
      A comment or blank line keeps its untrimmed text. */
  datatype LineKind =
    | CommentLine(text: string)
    | HeaderLine(name: string)
    | AssignmentLine(key: string, value: string)
    | IgnoredLine

  /** The key is the trimmed text before the first `=`, the value the text
      after it trimmed of whitespace and of one enclosing pair of quotes. */
  function Classify(line: string): LineKind
    requires Parsable(line)
  {
    var t := TrimSpace(line);
    if IsCommentText(t) then CommentLine(line)
    else if IsHeaderText(t) then HeaderLine(t[1..|t| - 1])
    else
      var eq := FindFrom(t, '=', 0);
      if eq < |t| then AssignmentLine(TrimSpace(t[..eq]), Trimmed(t[eq + 1..], true))
      else IgnoredLine
  }

  function ClassifyAll(lines: seq<string>): (kinds: seq<LineKind>)
    requires AllParsable(lines)
    ensures |kinds| == |lines|
  {
    seq(|lines|, i requires 0 <= i < |lines| => Classify(lines[i]))
  }

  /** The document under construction and the two accumulators. */
  datatype ParseState = ParseState(doc: Document, section: string, pending: string)

  /** One iteration of the line loop. */
  function Step(st: ParseState, kind: LineKind): ParseState {
    match kind
    case CommentLine(line) =>
      st.(pending := st.pending + line + "\n")
    case HeaderLine(name) =>
      var sec := SectionOf(st.doc, name).(registered := true, comments := st.pending);
      var doc := st.doc.(sections := st.doc.sections[name := sec], insertOrder := st.doc.insertOrder + [name]);
      ParseState(doc, name, "")
    case AssignmentLine(k, v) =>
      var sec := SectionOf(st.doc, st.section);
      var key := KeyOf(sec, k).(value := v, deleted := false, registered := true, comments := st.pending);
      var sec' := sec.(keys := sec.keys[k := key], insertOrder := sec.insertOrder + [k]);
      st.(doc := st.doc.(sections := st.doc.sections[st.section := sec']), pending := "")
    case IgnoredLine =>
      st
  }

  /** The loop over all lines, as a fold: the state after the last line is
      one step from the state after all the others. */
  function Run(st: ParseState, kinds: seq<LineKind>): ParseState {
    if kinds == [] then st else Step(Run(st, kinds[..|kinds| - 1]), kinds[|kinds| - 1])
  }

  /** The state the loop starts from: the document, emptied when `clear` is
      set, no current section (the "" section) and no pending comment. */
  function StartState(d: Document, clear: bool): ParseState {
    ParseState(if clear then d.(sections := map[], insertOrder := []) else d, "", "")
  }

  /** The pending comment left after the last line becomes the trailing
      comment of the document. */
  function Finish(st: ParseState): Document {
    st.doc.(comments := st.pending)
  }

  /** `_parseIni(clear)` over the lines of the file. */
  function ParseFile(d: Document, lines: seq<string>, clear: bool): Document
    requires AllParsable(lines)
  {
    Finish(Run(StartState(d, clear), ClassifyAll(lines)))
  }

  // ---------------------------------------------------------------------------
  // What one line does

  /** The per-line contract: comment and blank lines only feed the pending
      comment (the untrimmed line and a line feed); a header appends its name to
      the section order even when already there, registers the section and
      hands it the pending comment, leaving its tombstone and keys alone; an
      assignment stores the value live in the current section, hands the key
      the pending comment and appends the key to the section's order even when
      already there; any other line changes nothing. */
  lemma StepEffect(st: ParseState, kind: LineKind, default: string)
    ensures kind.CommentLine? ==> Step(st, kind) == st.(pending := st.pending + kind.text + "\n")
    ensures kind.HeaderLine? ==>
              var n := kind.name;
              var r := Step(st, kind);
              && r.section == n && r.pending == ""
              && r.doc.insertOrder == st.doc.insertOrder + [n]
              && n in r.doc.sections && r.doc.sections[n].registered
              && r.doc.sections[n].comments == st.pending
              && r.doc.sections[n].deleted == SectionOf(st.doc, n).deleted
              && r.doc.sections[n].keys == SectionOf(st.doc, n).keys
              && r.doc.sections[n].insertOrder == SectionOf(st.doc, n).insertOrder
    ensures kind.AssignmentLine? ==>
              var k := kind.key;
              var r := Step(st, kind);
              && r.section == st.section && r.pending == ""
              && r.doc.insertOrder == st.doc.insertOrder
              && ReadString(r.doc, st.section, k, default) == kind.value
              && r.doc.sections[st.section].keys[k].comments == st.pending
              && r.doc.sections[st.section].insertOrder == SectionOf(st.doc, st.section).insertOrder + [k]
    ensures kind == IgnoredLine ==> Step(st, kind) == st
  {
  }

  /** One line keeps the document invariant. */
  lemma StepWellFormed(st: ParseState, kind: LineKind)
    requires WellFormed(st.doc)
    ensures WellFormed(Step(st, kind).doc)
  {
    match kind
    case HeaderLine(name) =>
      SectionOfWellFormed(st.doc, name);
      var sec := SectionOf(st.doc, name).(registered := true, comments := st.pending);
      AddSectionWellFormed(st.doc, name, sec);
    case AssignmentLine(k, v) =>
      SectionOfWellFormed(st.doc, st.section);
      var sec := SectionOf(st.doc, st.section);
      var key := KeyOf(sec, k).(value := v, deleted := false, registered := true, comments := st.pending);
      var sec' := sec.(keys := sec.keys[k := key], insertOrder := sec.insertOrder + [k]);
      assert SectionWellFormed(sec');
      PutSectionWellFormed(st.doc, st.section, sec');
    case _ =>
  }

  /** Parsing any number of lines keeps the document invariant. */
  lemma {:induction false} RunWellFormed(st: ParseState, kinds: seq<LineKind>)
    requires WellFormed(st.doc)
    ensures WellFormed(Run(st, kinds).doc)
  {
    if kinds != [] {
      var init := kinds[..|kinds| - 1];
      RunWellFormed(st, init);
      StepWellFormed(Run(st, init), kinds[|kinds| - 1]);
    }
  }

  /** `_parseIni` keeps the document invariant, with or without `clear`. */
  lemma ParseFileWellFormed(d: Document, lines: seq<string>, clear: bool)
    requires AllParsable(lines)
    requires WellFormed(d)
    ensures WellFormed(ParseFile(d, lines, clear))
  {
    RunWellFormed(StartState(d, clear), ClassifyAll(lines));
  }

  // ---------------------------------------------------------------------------
  // What parsing keeps

  /** `e` extends `d`: the section order and the key order of every section of
      `d` are prefixes of those in `e`, and no section is lost. */
  predicate Extends(d: Document, e: Document) {
    && d.insertOrder <= e.insertOrder
    && forall n :: n in d.sections ==> n in e.sections && d.sections[n].insertOrder <= e.sections[n].insertOrder
  }

  /** The order lists only grow while parsing. */
  lemma {:induction false} RunExtends(st: ParseState, kinds: seq<LineKind>)
    ensures Extends(st.doc, Run(st, kinds).doc)
  {
    if kinds != [] {
      var init := kinds[..|kinds| - 1];
      var mid := Run(st, init);
      RunExtends(st, init);
      assert Extends(mid.doc, Step(mid, kinds[|kinds| - 1]).doc);
    }
  }

  /** Reload merges: without `clear` every section and order entry of the
      document survives, and the order lists only grow. */
  lemma ReloadExtends(d: Document, lines: seq<string>)
    requires AllParsable(lines)
    ensures Extends(d, ParseFile(d, lines, false))
  {
    RunExtends(StartState(d, false), ClassifyAll(lines));
  }

  /** The parser never reads or writes the trailing comment of the document
      while it runs. */
  lemma {:induction false} RunIgnoresComments(st: ParseState, kinds: seq<LineKind>, c: string)
    ensures Run(st.(doc := st.doc.(comments := c)), kinds)
         == var r := Run(st, kinds); r.(doc := r.doc.(comments := c))
  {
    if kinds != [] {
      RunIgnoresComments(st, kinds[..|kinds| - 1], c);
    }
  }

  /** Init resets: with `clear` the result does not depend on the document
      parsed into. */
  lemma InitForgetsDocument(d1: Document, d2: Document, lines: seq<string>)
    requires AllParsable(lines)
    ensures ParseFile(d1, lines, true) == ParseFile(d2, lines, true)
  {
    var s1 := StartState(d1, true);
    assert StartState(d2, true) == s1.(doc := s1.doc.(comments := d2.comments));
    RunIgnoresComments(s1, ClassifyAll(lines), d2.comments);
  }

  /** No line assigns key `k`, in whatever section. */
  predicate NeverAssigns(kinds: seq<LineKind>, k: string) {
    forall i :: 0 <= i < |kinds| ==> !(kinds[i].AssignmentLine? && kinds[i].key == k)
  }

  /** Parsing keeps what ReadString returns for every key no line assigns. */
  lemma {:induction false} RunKeepsUnassignedKeys(st: ParseState, kinds: seq<LineKind>, s: string, k: string, default: string)
    requires NeverAssigns(kinds, k)
    ensures ReadString(Run(st, kinds).doc, s, k, default) == ReadString(st.doc, s, k, default)
  {
    if kinds != [] {
      var init := kinds[..|kinds| - 1];
      assert NeverAssigns(init, k) by {
        forall i | 0 <= i < |init| ensures !(init[i].AssignmentLine? && init[i].key == k) {
          assert init[i] == kinds[i];
        }
      }
      RunKeepsUnassignedKeys(st, init, s, k, default);
      assert !(kinds[|kinds| - 1].AssignmentLine? && kinds[|kinds| - 1].key == k);
    }
  }

  /** Reload keeps every value the file does not assign: values written in
      memory and not yet flushed survive. */
  lemma ReloadKeepsUnassignedKeys(d: Document, lines: seq<string>, s: string, k: string, default: string)
    requires AllParsable(lines)
    requires NeverAssigns(ClassifyAll(lines), k)
    ensures ReadString(ParseFile(d, lines, false), s, k, default) == ReadString(d, s, k, default)
  {
    RunKeepsUnassignedKeys(StartState(d, false), ClassifyAll(lines), s, k, default);
  }

  /** Running the kinds of `xs + ys` is running `xs`, then `ys`. */
  lemma {:induction false} RunAppend(st: ParseState, xs: seq<LineKind>, ys: seq<LineKind>)
    ensures Run(st, xs + ys) == Run(Run(st, xs), ys)
  {
    if ys == [] {
      assert xs + ys == xs;
    } else {
      var init := ys[..|ys| - 1];
      RunAppend(st, xs, init);
      assert (xs + ys)[..|xs + ys| - 1] == xs + init;
    }
  }

  /** Lines are classified one by one, independently of each other. */
  lemma ClassifyAllAppend(xs: seq<string>, ys: seq<string>)
    requires AllParsable(xs) && AllParsable(ys)
    ensures AllParsable(xs + ys)
    ensures ClassifyAll(xs + ys) == ClassifyAll(xs) + ClassifyAll(ys)
  {
    var all := xs + ys;
    forall i | 0 <= i < |all| ensures Parsable(all[i]) {
      if i < |xs| { assert all[i] == xs[i]; } else { assert all[i] == ys[i - |xs|]; }
    }
  }

  // ---------------------------------------------------------------------------
  // Lines the serializer writes, read back

  /** A key name the serializer writes so that the parser reads it back: no
      `=`, no line feed, no surrounding whitespace, and not starting like a
      comment or a header. */
  predicate PlainKey(k: string) {
    && '=' !in k && '\n' !in k
    && (k != [] ==> !IsSpace(k[0]) && !IsSpace(k[|k| - 1]) && k[0] != ';' && k[0] != '#' && k[0] != '[')
  }

  /** A value the parser reads back unchanged: no line feed, no surrounding
      whitespace, not starting with a double quote. */
  predicate PlainValue(v: string) {
    && '\n' !in v
    && (v != [] ==> !IsSpace(v[0]) && !IsSpace(v[|v| - 1]) && v[0] != '"')
  }

  /** A section name whose header line stays one line. */
  predicate PlainName(n: string) {
    '\n' !in n
  }

  /** FindFrom stops at the first occurrence. */
  lemma {:induction false} FindFromSkips(t: string, c: char, from: nat, i: nat)
    requires from <= i < |t| && t[i] == c
    requires forall j :: from <= j < i ==> t[j] != c
    ensures FindFrom(t, c, from) == i
    decreases i - from
  {
    if from < i {
      FindFromSkips(t, c, from + 1, i);
    }
  }

  /** The header line `[n]` the serializer writes is read as a header naming
      `n`, whatever `n` is. */
  lemma ClassifyHeader(n: string)
    ensures Parsable("[" + n + "]") && Classify("[" + n + "]") == HeaderLine(n)
  {
    var line := "[" + n + "]";
    TrimSpaceSelf(line);
    assert IsHeaderText(line);
    assert line[1..|line| - 1] == n;
  }

  lemma AssignmentLineShape(k: string, v: string)
    requires PlainKey(k) && PlainValue(v)
    ensures TrimSpace(k + "=" + v) == k + "=" + v
    ensures !IsCommentText(k + "=" + v) && !IsHeaderText(k + "=" + v)
    ensures FindFrom(k + "=" + v, '=', 0) == |k|
  {
    var line := k + "=" + v;
    AssignmentEnds(k, v);
    TrimSpaceSelf(line);
    FindAfterKey(k, v);
  }

  /** The first and last characters of `k=v`. */
  lemma AssignmentEnds(k: string, v: string)
    ensures (k + "=" + v)[0] == (if k == [] then '=' else k[0])
    ensures (k + "=" + v)[|k + "=" + v| - 1] == (if v == [] then '=' else v[|v| - 1])
  {
  }

  /** In `k=v` with no `=` in `k`, the first `=` follows the key. */
  lemma FindAfterKey(k: string, v: string)
    requires '=' !in k
    ensures FindFrom(k + "=" + v, '=', 0) == |k|
  {
    var line := k + "=" + v;
    assert line[|k|] == '=';
    assert forall j :: 0 <= j < |k| ==> line[j] == k[j];
    FindFromSkips(line, '=', 0, |k|);
  }

  /** The assignment line `k=v` the serializer writes is read as an
      assignment of `v` to `k`. */
  lemma ClassifyAssignment(k: string, v: string)
    requires PlainKey(k) && PlainValue(v)
    ensures Parsable(k + "=" + v) && Classify(k + "=" + v) == AssignmentLine(k, v)
  {
    var line := k + "=" + v;
    AssignmentLineShape(k, v);
    assert line[..|k|] == k && line[|k| + 1..] == v;
    TrimSpaceSelf(k);
    TrimSpaceSelf(v);
    ClassifyTrimmedAssignment(line, k, v);
  }

  lemma ClassifyTrimmedAssignment(line: string, k: string, v: string)
    requires TrimSpace(line) == line && !IsCommentText(line) && !IsHeaderText(line)
    requires FindFrom(line, '=', 0) == |k| < |line|
    requires line[..|k|] == k && line[|k| + 1..] == v
    requires TrimSpace(k) == k && TrimSpace(v) == v && (v == [] || v[0] != '"')
    ensures Parsable(line) && Classify(line) == AssignmentLine(k, v)
  {
    assert v != "\"";
    assert StripQuotes(v) == v;
  }

  /** A comment or blank line the serializer writes is read as a comment. */
  lemma ClassifyComment(line: string)
    requires line == [] || (!IsSpace(line[0]) && !IsSpace(line[|line| - 1]) && (line[0] == ';' || line[0] == '#'))
    ensures Parsable(line) && Classify(line) == CommentLine(line)
  {
    TrimSpaceSelf(line);
  }

  /** The branches of the line loop, each stated as the step it takes on the
      line `line` whose trimmed text is `t`: a comment or blank line. */
  lemma StepComment(st: ParseState, line: string, t: string)
    requires Parsable(line) && t == TrimSpace(line) && IsCommentText(t)
    ensures Step(st, Classify(line)) == st.(pending := st.pending + line + "\n")
  {
  }

  /** A header line. */
  lemma StepHeader(st: ParseState, line: string, t: string)
    requires Parsable(line) && t == TrimSpace(line) && !IsCommentText(t) && IsHeaderText(t)
    ensures var name := t[1..|t| - 1];
            var sec := SectionOf(st.doc, name);
            Step(st, Classify(line))
            == ParseState(st.doc.(sections := st.doc.sections[name := sec.(registered := true, comments := st.pending)],
                                  insertOrder := st.doc.insertOrder + [name]), name, "")
  {
  }

  /** An assignment line, split at the first `=` found at `eq`. */
  lemma StepAssignment(st: ParseState, line: string, t: string, eq: nat)
    requires Parsable(line) && t == TrimSpace(line) && !IsCommentText(t) && !IsHeaderText(t)
    requires eq == FindFrom(t, '=', 0) < |t|
    ensures TrimSpace(t[eq + 1..]) != "\""
    ensures var k := TrimSpace(t[..eq]);
            var sec := SectionOf(st.doc, st.section);
            var key := KeyOf(sec, k).(value := Trimmed(t[eq + 1..], true), deleted := false, registered := true, comments := st.pending);
            Step(st, Classify(line))
            == st.(doc := st.doc.(sections := st.doc.sections[st.section := sec.(keys := sec.keys[k := key], insertOrder := sec.insertOrder + [k])]),
                   pending := "")
  {
    ClassifyAssignmentText(line, t, eq);
  }

  lemma ClassifyAssignmentText(line: string, t: string, eq: nat)
    requires Parsable(line) && t == TrimSpace(line) && !IsCommentText(t) && !IsHeaderText(t)
    requires eq == FindFrom(t, '=', 0) < |t|
    ensures TrimSpace(t[eq + 1..]) != "\""
    ensures Classify(line) == AssignmentLine(TrimSpace(t[..eq]), Trimmed(t[eq + 1..], true))
  {
    ParsableAssignment(line, t, eq);
  }

  /** What `Parsable` demands of an assignment line. */
  lemma ParsableAssignment(line: string, t: string, eq: nat)
    requires t == TrimSpace(line) && !IsCommentText(t) && !IsHeaderText(t)
    requires eq == FindFrom(t, '=', 0) < |t|
    ensures Parsable(line) <==> TrimSpace(t[eq + 1..]) != "\""
  {
  }

  /** Any other line. */
  lemma StepIgnored(st: ParseState, line: string, t: string)
    requires Parsable(line) && t == TrimSpace(line) && !IsCommentText(t) && !IsHeaderText(t)
    requires FindFrom(t, '=', 0) == |t|
    ensures Step(st, Classify(line)) == st
  {
  }

  /** Any line that trims to a blank or a `;`/`#` line is a comment line. */
  lemma ClassifyCommentText(line: string)
    requires IsCommentText(TrimSpace(line))
    ensures Parsable(line) && Classify(line) == CommentLine(line)
  {
  }

  // ---------------------------------------------------------------------------
  // Scenarios

  /** A section with two keys and a comment line between them: both values
      are read, the comment is attached to the key after it, and the counts are
      1 section and 2 keys. */
  lemma SectionScenario(n: string, k1: string, v1: string, c: string, k2: string, v2: string)
    requires PlainKey(k1) && PlainValue(v1) && PlainKey(k2) && PlainValue(v2) && k1 != k2
    requires c == [] || (!IsSpace(c[0]) && !IsSpace(c[|c| - 1]) && (c[0] == ';' || c[0] == '#'))
    ensures AllParsable(["[" + n + "]", k1 + "=" + v1, c, k2 + "=" + v2])
    ensures var d := ParseFile(EmptyDocument, ["[" + n + "]", k1 + "=" + v1, c, k2 + "=" + v2], true);
            && ReadString(d, n, k1, "") == v1
            && ReadString(d, n, k2, "") == v2
            && IsLive(d, n, k2) && d.sections[n].keys[k2].comments == c + "\n"
            && SectionCount(d) == 1 && KeyCount(d, n) == 2
            && d.comments == ""
  {
    SectionLines(n, k1, v1, c, k2, v2);
    SectionRun(n, k1, v1, c, k2, v2);
  }

  lemma SectionLines(n: string, k1: string, v1: string, c: string, k2: string, v2: string)
    requires PlainKey(k1) && PlainValue(v1) && PlainKey(k2) && PlainValue(v2)
    requires c == [] || (!IsSpace(c[0]) && !IsSpace(c[|c| - 1]) && (c[0] == ';' || c[0] == '#'))
    ensures AllParsable(["[" + n + "]", k1 + "=" + v1, c, k2 + "=" + v2])
    ensures ClassifyAll(["[" + n + "]", k1 + "=" + v1, c, k2 + "=" + v2])
         == [HeaderLine(n), AssignmentLine(k1, v1), CommentLine(c), AssignmentLine(k2, v2)]
  {
    var l0, l1, l3 := "[" + n + "]", k1 + "=" + v1, k2 + "=" + v2;
    var lines := [l0, l1, c, l3];
    var kinds := [HeaderLine(n), AssignmentLine(k1, v1), CommentLine(c), AssignmentLine(k2, v2)];
    assert Parsable(l0) && Classify(l0) == HeaderLine(n) by { ClassifyHeader(n); }
    assert Parsable(l1) && Classify(l1) == AssignmentLine(k1, v1) by { ClassifyAssignment(k1, v1); }
    assert Parsable(c) && Classify(c) == CommentLine(c) by { ClassifyComment(c); }
    assert Parsable(l3) && Classify(l3) == AssignmentLine(k2, v2) by { ClassifyAssignment(k2, v2); }
    forall i | 0 <= i < 4 ensures Parsable(lines[i]) && Classify(lines[i]) == kinds[i] {
      assert i == 0 || i == 1 || i == 2 || i == 3;
    }
    ClassifyAllOf(lines, kinds);
  }

  /** Classifying line by line. */
  lemma ClassifyAllOf(lines: seq<string>, kinds: seq<LineKind>)
    requires |lines| == |kinds|
    requires forall i :: 0 <= i < |lines| ==> Parsable(lines[i]) && Classify(lines[i]) == kinds[i]
    ensures AllParsable(lines) && ClassifyAll(lines) == kinds
  {
  }

  lemma SectionRun(n: string, k1: string, v1: string, c: string, k2: string, v2: string)
    requires k1 != k2
    ensures var d := Finish(Run(StartState(EmptyDocument, true), [HeaderLine(n), AssignmentLine(k1, v1), CommentLine(c), AssignmentLine(k2, v2)]));
            && ReadString(d, n, k1, "") == v1
            && ReadString(d, n, k2, "") == v2
            && IsLive(d, n, k2) && d.sections[n].keys[k2].comments == c + "\n"
            && SectionCount(d) == 1 && KeyCount(d, n) == 2
            && d.comments == ""
  {
    var h, a1, cl, a2 := HeaderLine(n), AssignmentLine(k1, v1), CommentLine(c), AssignmentLine(k2, v2);
    var st0 := StartState(EmptyDocument, true);
    assert [h, a1, cl, a2] == [h, a1] + [cl, a2];
    RunAppend(st0, [h, a1], [cl, a2]);
    RunTwo(st0, h, a1);
    var st2 := Step(Step(st0, h), a1);
    RunTwo(st2, cl, a2);
    var st3 := Step(st2, cl);
    var st4 := Step(st3, a2);
    assert ReadString(st2.doc, n, k1, "") == v1;
    assert st2.pending == "" && st3.doc == st2.doc && st3.section == n;
    assert st3.pending == c + "\n";
    assert st4.doc.sections[n].keys[k2].comments == c + "\n";
    assert ReadString(st4.doc, n, k1, "") == v1 by {
      assert NeverAssigns([a2], k1);
      RunKeepsUnassignedKeys(st3, [a2], n, k1, "");
      assert Run(st3, [a2]) == st4 by { assert [a2][..0] == []; }
    }
  }

  /** The same scenario on concrete text. */
  lemma NetScenario()
    ensures AllParsable(["[net]", "host=example.com", ";port comment", "port=8080"])
    ensures var d := ParseFile(EmptyDocument, ["[net]", "host=example.com", ";port comment", "port=8080"], true);
            && ReadString(d, "net", "host", "") == "example.com"
            && ReadString(d, "net", "port", "") == "8080"
            && SectionCount(d) == 1 && KeyCount(d, "net") == 2
  {
    assert "[" + "net" + "]" == "[net]";
    assert "host" + "=" + "example.com" == "host=example.com";
    assert "port" + "=" + "8080" == "port=8080";
    SectionScenario("net", "host", "example.com", ";port comment", "port", "8080");
  }

  /** A repeated header is appended to the section order again: the section
      count counts it twice. */
  lemma DuplicateHeaderScenario(n: string)
    ensures AllParsable(["[" + n + "]", "[" + n + "]"])
    ensures ParseFile(EmptyDocument, ["[" + n + "]", "[" + n + "]"], true).insertOrder == [n, n]
    ensures SectionCount(ParseFile(EmptyDocument, ["[" + n + "]", "[" + n + "]"], true)) == 2
  {
    var line := "[" + n + "]";
    ClassifyHeader(n);
    ParseTwoLines(EmptyDocument, line, line, true);
    var st1 := Step(StartState(EmptyDocument, true), HeaderLine(n));
    assert st1.doc.insertOrder == [n];
    var st2 := Step(st1, HeaderLine(n));
    assert st2.doc.insertOrder == [n, n];
  }

  /** Assignments before the first header go to the section named "", which
      no header registers: the value is readable but the section order stays
      empty. */
  lemma KeysBeforeHeaderScenario(k: string, v: string)
    requires PlainKey(k) && PlainValue(v)
    ensures AllParsable([k + "=" + v])
    ensures var d := ParseFile(EmptyDocument, [k + "=" + v], true);
            && ReadString(d, "", k, "") == v
            && d.insertOrder == [] && SectionCount(d) == 0
            && "" in d.sections && !d.sections[""].registered
  {
    var line := k + "=" + v;
    var st1 := Step(StartState(EmptyDocument, true), AssignmentLine(k, v));
    assert AllParsable([line]) && ParseFile(EmptyDocument, [line], true) == Finish(st1) by {
      assert Parsable(line) && Classify(line) == AssignmentLine(k, v) by {
        ClassifyAssignment(k, v);
      }
      ParseOneLine(EmptyDocument, line, true);
    }
    AssignBeforeHeader(EmptyDocument, k, v);
  }

  /** An assignment before any header of a cleared document lands in the
      unregistered "" section. */
  lemma AssignBeforeHeader(d: Document, k: string, v: string)
    ensures var r := Finish(Step(StartState(d, true), AssignmentLine(k, v)));
            && ReadString(r, "", k, "") == v
            && r.insertOrder == [] && "" in r.sections && !r.sections[""].registered
  {
  }

  /** A tombstoned section is not revived by Reload: a header and a key for it
      in the file make the key readable again while the section stays
      deleted. */
  lemma ReloadIntoDeletedSection(d: Document, s: string, k: string, v: string)
    requires PlainKey(k) && PlainValue(v)
    requires HasSection(d, s)
    ensures AllParsable(["[" + s + "]", k + "=" + v])
    ensures var r := ParseFile(DeleteSection(d, s), ["[" + s + "]", k + "=" + v], false);
            && s in r.sections && r.sections[s].deleted
            && ReadString(r, s, k, "") == v
  {
    var lines := ["[" + s + "]", k + "=" + v];
    HeaderAndAssignment(s, k, v);
    var st0 := StartState(DeleteSection(d, s), false);
    var st1 := Step(st0, HeaderLine(s));
    RunTwo(st0, HeaderLine(s), AssignmentLine(k, v));
    HeaderKeepsTombstone(st0, s);
    AssignKeepsTombstone(st1, k, v);
  }

  /** A header line selects the section and leaves its tombstone as it was. */
  lemma HeaderKeepsTombstone(st: ParseState, n: string)
    requires n in st.doc.sections
    ensures var r := Step(st, HeaderLine(n));
            r.section == n && n in r.doc.sections && r.doc.sections[n].deleted == st.doc.sections[n].deleted
  {
  }

  /** An assignment line sets the key in the current section and leaves the
      section's tombstone as it was. */
  lemma AssignKeepsTombstone(st: ParseState, k: string, v: string)
    requires st.section in st.doc.sections
    ensures var r := Step(st, AssignmentLine(k, v));
            && st.section in r.doc.sections
            && r.doc.sections[st.section].deleted == st.doc.sections[st.section].deleted
            && ReadString(r.doc, st.section, k, "") == v
  {
  }

  lemma HeaderAndAssignment(s: string, k: string, v: string)
    requires PlainKey(k) && PlainValue(v)
    ensures AllParsable(["[" + s + "]", k + "=" + v])
    ensures ClassifyAll(["[" + s + "]", k + "=" + v]) == [HeaderLine(s), AssignmentLine(k, v)]
  {
    var lines, kinds := ["[" + s + "]", k + "=" + v], [HeaderLine(s), AssignmentLine(k, v)];
    forall i | 0 <= i < 2 ensures Parsable(lines[i]) && Classify(lines[i]) == kinds[i] {
      if i == 0 {
        ClassifyHeader(s);
      } else {
        ClassifyAssignment(k, v);
      }
    }
    ClassifyAllOf(lines, kinds);
  }

  /** A file of one line is one step from the start state. */
  lemma ParseOneLine(d: Document, line: string, clear: bool)
    requires Parsable(line)
    ensures AllParsable([line])
    ensures ParseFile(d, [line], clear) == Finish(Step(StartState(d, clear), Classify(line)))
  {
    ClassifyAllOf([line], [Classify(line)]);
    RunOne(StartState(d, clear), Classify(line));
  }

  lemma RunOne(st: ParseState, a: LineKind)
    ensures Run(st, [a]) == Step(st, a)
  {
    assert [a][..0] == [];
  }

  /** Running two lines is two steps. */
  lemma ParseTwoLines(d: Document, a: string, b: string, clear: bool)
    requires Parsable(a) && Parsable(b)
    ensures AllParsable([a, b])
    ensures ParseFile(d, [a, b], clear) == Finish(Step(Step(StartState(d, clear), Classify(a)), Classify(b)))
  {
    ClassifyAllOf([a, b], [Classify(a), Classify(b)]);
    RunTwo(StartState(d, clear), Classify(a), Classify(b));
  }

  lemma RunTwo(st: ParseState, a: LineKind, b: LineKind)
    ensures Run(st, [a, b]) == Step(Step(st, a), b)
  {
    assert [a, b][..1] == [a] && [a][..0] == [];
    assert Run(st, [a]) == Step(Run(st, []), a);
    assert Run(st, [a, b]) == Step(Run(st, [a]), b);
  }
}
