/** Flush followed by Init: for a document in canonical form the text
    `_writeIni` writes parses back to the same document. */
module RoundTrip {
  import opened Text
  import opened IniDoc
  import opened Parser
  import opened Serializer

  /** Comment text the parser gives back unchanged: whole lines, each blank or
      starting (after whitespace) with `;` or `#`. */
  predicate CommentBlock(c: string) {
    EndsLine(c) && forall l :: l in Lines(c) ==> IsCommentText(TrimSpace(l))
  }

  /** A live, registered key whose name, value and comment survive the trip. */
  predicate CanonicalKey(k: string, key: Key) {
    PlainKey(k) && PlainValue(key.value) && CommentBlock(key.comments) && key.registered && !key.deleted
  }

  /** A live, registered section without repeated keys whose every key is
      canonical. */
  predicate CanonicalSection(n: string, sec: Section) {
    && PlainName(n) && CommentBlock(sec.comments) && sec.registered && !sec.deleted
    && SectionWellFormed(sec) && NoDuplicates(sec.insertOrder)
    && forall k :: k in sec.keys ==> CanonicalKey(k, sec.keys[k])
  }

  /** A well-formed document without repeated sections whose every section is
      canonical and whose trailing comment is whole comment lines. */
  predicate Canonical(d: Document) {
    && WellFormed(d) && NoDuplicates(d.insertOrder) && CommentBlock(d.comments)
    && forall n :: n in d.sections ==> CanonicalSection(n, d.sections[n])
  }

  /** The parser run over the lines of a text. */
  function ParseText(st: ParseState, text: string): ParseState
    requires AllParsable(Lines(text))
  {
    Run(st, ClassifyAll(Lines(text)))
  }

  lemma {:induction false} ParseTextAppend(st: ParseState, a: string, b: string)
    requires EndsLine(a) && AllParsable(Lines(a)) && AllParsable(Lines(b))
    ensures AllParsable(Lines(a + b))
    ensures ParseText(st, a + b) == ParseText(ParseText(st, a), b)
  {
    LinesAppend(a, b);
    ClassifyAllAppend(Lines(a), Lines(b));
    RunAppend(st, ClassifyAll(Lines(a)), ClassifyAll(Lines(b)));
  }

  /** A comment block only feeds the pending comment. */
  lemma {:induction false} CommentBlockParse(st: ParseState, c: string)
    requires CommentBlock(c)
    ensures AllParsable(Lines(c)) && ParseText(st, c) == st.(pending := st.pending + c)
    decreases |c|
  {
    if c == [] {
      assert st.pending + c == st.pending;
    } else {
      var line, rest := FirstLine(c);
      CommentBlockTail(c, line, rest);
      CommentBlockParse(Step(st, CommentLine(line)), rest);
      CommentLineStep(st, c, line, rest);
    }
  }

  /** A comment line in front of text that only feeds the pending comment. */
  lemma CommentLineStep(st: ParseState, c: string, line: string, rest: string)
    requires c == line + "\n" + rest && Lines(c) == [line] + Lines(rest)
    requires IsCommentText(TrimSpace(line))
    requires var st1 := Step(st, CommentLine(line));
             AllParsable(Lines(rest)) && ParseText(st1, rest) == st1.(pending := st1.pending + rest)
    ensures AllParsable(Lines(c)) && ParseText(st, c) == st.(pending := st.pending + c)
  {
    assert Parsable(line) && Classify(line) == CommentLine(line) by {
      ClassifyCommentText(line);
    }
    PrependLine(st, c, line, rest, CommentLine(line));
    PendingLine(st.pending, line, rest);
  }

  lemma PendingLine(p: string, line: string, rest: string)
    ensures p + line + "\n" + rest == p + (line + "\n" + rest)
  {
  }

  lemma {:induction false} CommentBlockTail(c: string, line: string, rest: string)
    requires CommentBlock(c) && EndsLine(rest) && Lines(c) == [line] + Lines(rest)
    ensures IsCommentText(TrimSpace(line)) && CommentBlock(rest)
  {
    assert line in Lines(c);
    forall l | l in Lines(rest) ensures IsCommentText(TrimSpace(l)) { assert l in Lines(c); }
  }

  /** Text whose first line is `line` parses as that line, then the rest. */
  lemma {:induction false} PrependLine(st: ParseState, c: string, line: string, rest: string, kind: LineKind)
    requires Lines(c) == [line] + Lines(rest)
    requires Parsable(line) && Classify(line) == kind && AllParsable(Lines(rest))
    ensures AllParsable(Lines(c)) && ParseText(st, c) == ParseText(Step(st, kind), rest)
  {
    ClassifyAllOf([line], [kind]);
    ClassifyAllAppend([line], Lines(rest));
    RunAppend(st, [kind], ClassifyAll(Lines(rest)));
    RunOne(st, kind);
  }

  /** One written line parses as one step. */
  lemma {:induction false} OneLineParse(st: ParseState, line: string, kind: LineKind)
    requires '\n' !in line && Parsable(line) && Classify(line) == kind
    ensures AllParsable(Lines(line + "\n")) && ParseText(st, line + "\n") == Step(st, kind)
  {
    assert Lines(line + "\n") == [line] by {
      LinesOfLine(line, "");
      assert line + "\n" + "" == line + "\n";
    }
    ClassifyAllOf([line], [kind]);
    RunOne(st, kind);
  }

  /** A canonical key's text is its comment, then its assignment. */
  lemma {:induction false} KeyParse(st: ParseState, k: string, key: Key)
    requires CanonicalKey(k, key)
    ensures AllParsable(Lines(KeyText(k, key))) && EndsLine(KeyText(k, key))
    ensures ParseText(st, KeyText(k, key)) == Step(st.(pending := st.pending + key.comments), AssignmentLine(k, key.value))
  {
    var a := k + "=" + key.value;
    assert '\n' !in a by {
      forall j | 0 <= j < |a| ensures a[j] != '\n' {
        if j < |k| { assert a[j] == k[j]; } else if j > |k| { assert a[j] == key.value[j - |k| - 1]; }
      }
    }
    ClassifyAssignment(k, key.value);
    OneLineParse(st.(pending := st.pending + key.comments), a, AssignmentLine(k, key.value));
    CommentBlockParse(st, key.comments);
    ParseTextAppend(st, key.comments, a + "\n");
    assert KeyText(k, key) == key.comments + (a + "\n");
  }

  /** The section built from the keys of `order` so far, as the parser holds
      it after the header and those keys. */
  function KeysPrefix(sec: Section, order: seq<string>): Section {
    Section(map k | k in order && k in sec.keys :: sec.keys[k], order, sec.comments, false, true)
  }

  lemma {:induction false} KeysPrefixStep(n: string, sec: Section, order: seq<string>)
    requires CanonicalSection(n, sec) && order != [] && order <= sec.insertOrder
    ensures var init, k := order[..|order| - 1], order[|order| - 1];
            && k in sec.keys && CanonicalKey(k, sec.keys[k]) && KeyOf(sec, k) == sec.keys[k]
            && KeyOf(KeysPrefix(sec, init), k) == DefaultKey
            && var acc := KeysPrefix(sec, init);
               var key := DefaultKey.(value := sec.keys[k].value, deleted := false, registered := true, comments := sec.keys[k].comments);
               acc.(keys := acc.keys[k := key], insertOrder := acc.insertOrder + [k]) == KeysPrefix(sec, order)
  {
    var init, k := order[..|order| - 1], order[|order| - 1];
    var last := |order| - 1;
    assert k == sec.insertOrder[last];
    assert k in sec.insertOrder;
    assert k !in init by {
      forall i | 0 <= i < |init| ensures init[i] != k {
        assert init[i] == sec.insertOrder[i];
      }
    }
    SplitLast(order);
    PrefixMapStep(sec.keys, init, k);
  }

  lemma SplitLast<T>(s: seq<T>)
    requires s != []
    ensures s[..|s| - 1] + [s[|s| - 1]] == s
  {
  }

  /** Restricting a map to one more name of an order list adds that entry. */
  lemma PrefixMapStep<V>(m: map<string, V>, init: seq<string>, n: string)
    requires n in m
    ensures (map x | x in init && x in m :: m[x])[n := m[n]] == map x | x in init + [n] && x in m :: m[x]
  {
  }

  /** The keys of a canonical section, in order, rebuild it key by key. */
  lemma {:induction false} KeysParse(st: ParseState, n: string, sec: Section, order: seq<string>)
    requires CanonicalSection(n, sec) && order <= sec.insertOrder
    requires st.section == n && st.pending == "" && n in st.doc.sections && st.doc.sections[n] == KeysPrefix(sec, [])
    ensures AllParsable(Lines(KeysText(sec, order))) && EndsLine(KeysText(sec, order))
    ensures ParseText(st, KeysText(sec, order)) == st.(doc := st.doc.(sections := st.doc.sections[n := KeysPrefix(sec, order)]))
    decreases |order|
  {
    if order == [] {
      assert st.doc.sections[n := KeysPrefix(sec, order)] == st.doc.sections;
    } else {
      var init, k := order[..|order| - 1], order[|order| - 1];
      KeysParse(st, n, sec, init);
      KeysPrefixStep(n, sec, order);
      var st1 := st.(doc := st.doc.(sections := st.doc.sections[n := KeysPrefix(sec, init)]));
      KeyParse(st1, k, sec.keys[k]);
      ParseTextAppend(st, KeysText(sec, init), KeyText(k, sec.keys[k]));
      EndsLineAppend(KeysText(sec, init), KeyText(k, sec.keys[k]));
      AssignStep(st, n, sec, order);
    }
  }

  lemma {:induction false} AssignStep(st: ParseState, n: string, sec: Section, order: seq<string>)
    requires CanonicalSection(n, sec) && order != [] && order <= sec.insertOrder
    requires st.section == n && st.pending == ""
    ensures var init, k := order[..|order| - 1], order[|order| - 1];
            var st1 := st.(doc := st.doc.(sections := st.doc.sections[n := KeysPrefix(sec, init)]));
            && k in sec.keys
            && Step(st1.(pending := st1.pending + sec.keys[k].comments), AssignmentLine(k, sec.keys[k].value))
               == st.(doc := st.doc.(sections := st.doc.sections[n := KeysPrefix(sec, order)]))
  {
    var init, k := order[..|order| - 1], order[|order| - 1];
    KeysPrefixStep(n, sec, order);
    var st1 := st.(doc := st.doc.(sections := st.doc.sections[n := KeysPrefix(sec, init)]));
    assert st1.pending + sec.keys[k].comments == sec.keys[k].comments;
    assert SectionOf(st1.doc, n) == KeysPrefix(sec, init);
    UpdateTwice(st.doc.sections, n, KeysPrefix(sec, init), KeysPrefix(sec, order));
  }

  /** All keys of a canonical section rebuild it exactly. */
  lemma {:induction false} KeysPrefixFull(n: string, sec: Section)
    requires CanonicalSection(n, sec)
    ensures KeysPrefix(sec, sec.insertOrder) == sec
  {
    assert KeysPrefix(sec, sec.insertOrder).keys == sec.keys;
  }

  /** A canonical section's text: its comment, its header, its keys. Parsed
      into a document that does not have it yet, it adds the section and
      appends its name to the section order. */
  lemma SectionParse(st: ParseState, n: string, sec: Section)
    requires CanonicalSection(n, sec) && n !in st.doc.sections && st.pending == ""
    ensures AllParsable(Lines(SectionText(n, sec))) && EndsLine(SectionText(n, sec))
    ensures ParseText(st, SectionText(n, sec))
         == ParseState(st.doc.(sections := st.doc.sections[n := sec], insertOrder := st.doc.insertOrder + [n]), n, "")
  {
    assert SectionText(n, sec) == sec.comments + (Header(n) + "\n" + KeysText(sec, sec.insertOrder));
    SectionPartsParse(st, n, sec);
  }

  lemma SectionPartsParse(st: ParseState, n: string, sec: Section)
    requires CanonicalSection(n, sec) && n !in st.doc.sections && st.pending == ""
    ensures var text := sec.comments + (Header(n) + "\n" + KeysText(sec, sec.insertOrder));
            && AllParsable(Lines(text)) && EndsLine(text)
            && ParseText(st, text)
               == ParseState(st.doc.(sections := st.doc.sections[n := sec], insertOrder := st.doc.insertOrder + [n]), n, "")
  {
    var h := Header(n);
    var keys := KeysText(sec, sec.insertOrder);
    var st1 := st.(pending := sec.comments);
    var r := ParseState(st.doc.(sections := st.doc.sections[n := sec], insertOrder := st.doc.insertOrder + [n]), n, "");
    HeaderAndKeysParse(st1, n, sec);
    assert AllParsable(Lines(sec.comments)) && ParseText(st, sec.comments) == st1 by {
      CommentBlockParse(st, sec.comments);
      assert st.pending + sec.comments == sec.comments;
    }
    ParseTextAppend(st, sec.comments, h + "\n" + keys);
    EndsLineAppend(sec.comments, h + "\n" + keys);
  }

  /** The header and the keys of a canonical section, parsed from the state
      the section's comment leaves. */
  lemma {:induction false} HeaderAndKeysParse(st1: ParseState, n: string, sec: Section)
    requires CanonicalSection(n, sec) && n !in st1.doc.sections && st1.pending == sec.comments
    ensures AllParsable(Lines(Header(n) + "\n" + KeysText(sec, sec.insertOrder)))
    ensures EndsLine(Header(n) + "\n" + KeysText(sec, sec.insertOrder))
    ensures ParseText(st1, Header(n) + "\n" + KeysText(sec, sec.insertOrder))
         == ParseState(st1.doc.(sections := st1.doc.sections[n := sec], insertOrder := st1.doc.insertOrder + [n]), n, "")
  {
    var h := Header(n);
    var keys := KeysText(sec, sec.insertOrder);
    var st2 := Step(st1, HeaderLine(n));
    assert AllParsable(Lines(h + "\n")) && ParseText(st1, h + "\n") == st2 by {
      assert '\n' !in h by {
        forall j | 0 <= j < |h| ensures h[j] != '\n' { if 0 < j < |h| - 1 { assert h[j] == n[j - 1]; } }
      }
      ClassifyHeader(n);
      OneLineParse(st1, h, HeaderLine(n));
    }
    assert AllParsable(Lines(keys)) && EndsLine(keys)
        && ParseText(st2, keys) == st2.(doc := st2.doc.(sections := st2.doc.sections[n := sec])) by {
      assert st2.doc.sections[n] == KeysPrefix(sec, []);
      KeysParse(st2, n, sec, sec.insertOrder);
      KeysPrefixFull(n, sec);
    }
    ParseTextAppend(st1, h + "\n", keys);
    EndsLineAppend(h + "\n", keys);
    UpdateTwice(st1.doc.sections, n, KeysPrefix(sec, []), sec);
  }

  lemma UpdateTwice<K, V>(m: map<K, V>, k: K, a: V, b: V)
    ensures m[k := a][k := b] == m[k := b]
  {
  }

  /** The document built from the sections of `order` so far. */
  function DocPrefix(d: Document, order: seq<string>): Document {
    Document(map n | n in order && n in d.sections :: d.sections[n], order, "")
  }

  lemma {:induction false} DocPrefixStep(d: Document, order: seq<string>)
    requires Canonical(d) && order != [] && order <= d.insertOrder
    ensures var init, n := order[..|order| - 1], order[|order| - 1];
            && n in d.sections && SectionOf(d, n) == d.sections[n]
            && n !in DocPrefix(d, init).sections
            && var acc := DocPrefix(d, init);
               acc.(sections := acc.sections[n := d.sections[n]], insertOrder := acc.insertOrder + [n]) == DocPrefix(d, order)
  {
    var init, n := order[..|order| - 1], order[|order| - 1];
    assert n == d.insertOrder[|order| - 1];
    assert n in d.insertOrder;
    assert n !in init by {
      forall i | 0 <= i < |init| ensures init[i] != n { assert init[i] == d.insertOrder[i]; }
    }
    SplitLast(order);
    PrefixMapStep(d.sections, init, n);
  }

  /** All sections of a canonical document rebuild it, trailing comment
      aside. */
  lemma DocPrefixFull(d: Document)
    requires Canonical(d)
    ensures DocPrefix(d, d.insertOrder).(comments := d.comments) == d
  {
    assert DocPrefix(d, d.insertOrder).sections == d.sections;
  }

  /** The sections of a canonical document, in order, rebuild it section by
      section. */
  lemma {:induction false} SectionsParse(d: Document, order: seq<string>)
    requires Canonical(d) && order <= d.insertOrder
    ensures AllParsable(Lines(SectionsText(d, order))) && EndsLine(SectionsText(d, order))
    ensures ParseText(StartState(EmptyDocument, true), SectionsText(d, order)) == ParseState(DocPrefix(d, order), if order == [] then "" else order[|order| - 1], "")
    decreases |order|
  {
    var start := StartState(EmptyDocument, true);
    if order == [] {
      assert DocPrefix(d, order) == start.doc;
    } else {
      var init, n := order[..|order| - 1], order[|order| - 1];
      SectionsParse(d, init);
      DocPrefixStep(d, order);
      var st1 := ParseText(start, SectionsText(d, init));
      SectionParse(st1, n, d.sections[n]);
      ParseTextAppend(start, SectionsText(d, init), SectionText(n, d.sections[n]));
      EndsLineAppend(SectionsText(d, init), SectionText(n, d.sections[n]));
    }
  }

  /** Flush, then Init: the text written for a canonical document parses back
      to the same document, whatever the parser held before. */
  lemma {:induction false} FlushThenInit(d: Document, before: Document)
    requires Canonical(d)
    ensures AllParsable(Lines(DocumentText(d)))
    ensures ParseFile(before, Lines(DocumentText(d)), true) == d
  {
    var lines := Lines(DocumentText(d));
    assert AllParsable(lines) && ParseFile(EmptyDocument, lines, true) == d by {
      DocumentTextParse(d);
      DocPrefixFull(d);
    }
    InitForgetsDocument(before, EmptyDocument, lines);
  }

  /** The whole text: the sections rebuild the document and the trailing
      comment is left pending. */
  lemma DocumentTextParse(d: Document)
    requires Canonical(d)
    ensures AllParsable(Lines(DocumentText(d)))
    ensures var st := ParseText(StartState(EmptyDocument, true), DocumentText(d));
            st.doc == DocPrefix(d, d.insertOrder) && st.pending == d.comments
  {
    var start := StartState(EmptyDocument, true);
    SectionsParse(d, d.insertOrder);
    var st := ParseText(start, SectionsText(d, d.insertOrder));
    CommentBlockParse(st, d.comments);
    ParseTextAppend(start, SectionsText(d, d.insertOrder), d.comments);
  }

  /** WriteString of a plain key and value into a plain section keeps a
      canonical document canonical. */
  lemma WriteKeepsCanonical(d: Document, s: string, k: string, v: string)
    requires Canonical(d) && PlainName(s) && PlainKey(k) && PlainValue(v)
    ensures Canonical(Write(d, s, k, v))
  {
    WriteWellFormed(d, s, k, v);
    WriteKeyCanonical(s, SectionOf(d, s), k, v);
  }

  /** The section WriteString leaves behind is canonical when the section it
      started from had canonical keys without repetition. */
  lemma WriteKeyCanonical(n: string, sec: Section, k: string, v: string)
    requires PlainName(n) && PlainKey(k) && PlainValue(v)
    requires CommentBlock(sec.comments) && SectionWellFormed(sec) && NoDuplicates(sec.insertOrder)
    requires forall j :: j in sec.keys ==> CanonicalKey(j, sec.keys[j])
    ensures CanonicalSection(n, WriteKey(sec, k, v))
  {
    var r := WriteKey(sec, k, v);
    assert k in sec.insertOrder <==> KeyOf(sec, k).registered;
    assert CanonicalKey(k, r.keys[k]) by {
      assert Lines("") == [];
    }
    assert forall j :: j in r.keys ==> CanonicalKey(j, r.keys[j]) by {
      forall j | j in r.keys ensures CanonicalKey(j, r.keys[j]) {
        if j != k { assert r.keys[j] == sec.keys[j]; }
      }
    }
    assert NoDuplicates(r.insertOrder) by {
      if !KeyOf(sec, k).registered {
        forall a, b | 0 <= a < b < |r.insertOrder| ensures r.insertOrder[a] != r.insertOrder[b] {
          if b == |sec.insertOrder| { assert r.insertOrder[a] in sec.insertOrder; }
        }
      }
    }
    assert SectionWellFormed(r);
  }

  /** A value written with WriteString into a canonical document is read back
      after Flush and Init. */
  lemma WriteFlushInitReads(d: Document, s: string, k: string, v: string, before: Document, default: string)
    requires Canonical(d) && PlainName(s) && PlainKey(k) && PlainValue(v)
    ensures AllParsable(Lines(DocumentText(Write(d, s, k, v))))
    ensures ReadString(ParseFile(before, Lines(DocumentText(Write(d, s, k, v))), true), s, k, default) == v
  {
    WriteKeepsCanonical(d, s, k, v);
    FlushThenInit(Write(d, s, k, v), before);
  }
}
