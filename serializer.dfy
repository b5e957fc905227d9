/** The text `_writeIni` writes, and the `getline` split the parser reads it
    back with. */
module Serializer {
  import opened IniDoc
  import opened Parser

  /** One key as written: its comment text, then `name=value` and a line feed
      unless it is tombstoned. */
  function KeyText(name: string, key: Key): string {
    key.comments + (if key.deleted then "" else name + "=" + key.value + "\n")
  }

  /** The keys of a section in the given order; a name is looked up with the
      `operator[]` read view. */
  function KeysText(sec: Section, order: seq<string>): string {
    if order == [] then ""
    else KeysText(sec, order[..|order| - 1]) + KeyText(order[|order| - 1], KeyOf(sec, order[|order| - 1]))
  }

  /** One section as written: its comment text, then unless it is tombstoned
      the header `[name]` and its keys. */
  function SectionText(name: string, sec: Section): string {
    sec.comments + (if sec.deleted then "" else Header(name) + "\n" + KeysText(sec, sec.insertOrder))
  }

  /** The header line of a section, without its line feed. */
  function Header(name: string): string {
    "[" + name + "]"
  }

  /** The sections of the document in the given order. */
  function SectionsText(d: Document, order: seq<string>): string {
    if order == [] then ""
    else SectionsText(d, order[..|order| - 1]) + SectionText(order[|order| - 1], SectionOf(d, order[|order| - 1]))
  }

  /** The whole file `_writeIni` produces: the sections in insertion order,
      then the trailing comment text. */
  function DocumentText(d: Document): string {
    SectionsText(d, d.insertOrder) + d.comments
  }

  /** The lines `getline` returns for a text: the pieces between line feeds,
      and a last piece only when the text does not end in a line feed. Built
      one character at a time from the end. */
  function Lines(text: string): seq<string>
  {
    if text == [] then []
    else
      var rest := Lines(text[1..]);
      if text[0] == '\n' then [""] + rest
      else if rest == [] then [[text[0]]]
      else [[text[0]] + rest[0]] + rest[1..]
  }

  /** A line without line feed followed by a line feed is one line. */
  lemma {:induction false} LinesOfLine(line: string, rest: string)
    requires '\n' !in line
    ensures Lines(line + "\n" + rest) == [line] + Lines(rest)
  {
    if line == [] {
      assert line + "\n" + rest == "\n" + rest;
      assert ("\n" + rest)[1..] == rest;
    } else {
      var t := line + "\n" + rest;
      assert t[1..] == line[1..] + "\n" + rest;
      assert '\n' !in line[1..] by {
        forall j | 0 <= j < |line[1..]| ensures line[1..][j] != '\n' { assert line[1..][j] == line[j + 1]; }
      }
      LinesOfLine(line[1..], rest);
      assert [line[0]] + line[1..] == line;
    }
  }

  /** Text that `getline` splits into whole lines: empty or ending in a line
      feed. */
  predicate EndsLine(text: string) {
    text == [] || text[|text| - 1] == '\n'
  }

  /** Splitting text that ends in a line feed, then more text, splits each
      part on its own. */
  lemma {:induction false} LinesAppend(a: string, b: string)
    requires EndsLine(a)
    ensures Lines(a + b) == Lines(a) + Lines(b)
  {
    if a == [] {
      assert a + b == b;
    } else {
      var a1 := a[1..];
      if |a| > 1 { assert a1[|a1| - 1] == a[|a| - 1]; }
      LinesAppend(a1, b);
      if a[0] != '\n' {
        LinesNonEmpty(a1);
      }
      if a[0] == '\n' {
        LinesAppendNewline(a1, b);
      } else {
        LinesAppendChar(a[0], a1, b);
      }
      assert [a[0]] + a1 == a;
    }
  }

  /** The step of LinesAppend for a line feed in front of the first part. */
  lemma LinesAppendNewline(a1: string, b: string)
    requires Lines(a1 + b) == Lines(a1) + Lines(b)
    ensures Lines(['\n'] + a1 + b) == Lines(['\n'] + a1) + Lines(b)
  {
    LinesNewline(a1 + b);
    LinesNewline(a1);
    ConsLine([""], Lines(a1), Lines(b));
    assert ['\n'] + a1 + b == ['\n'] + (a1 + b);
  }

  /** The step of LinesAppend for another character in front of the first
      part, when that part has a line. */
  lemma LinesAppendChar(c: char, a1: string, b: string)
    requires c != '\n' && Lines(a1) != []
    requires Lines(a1 + b) == Lines(a1) + Lines(b)
    ensures Lines([c] + a1 + b) == Lines([c] + a1) + Lines(b)
  {
    LinesChar(c, a1 + b);
    LinesChar(c, a1);
    ConsFirst([c], Lines(a1), Lines(b));
    assert [c] + a1 + b == [c] + (a1 + b);
  }

  /** Extending the first line of `la + lb` extends the first line of `la`. */
  lemma ConsFirst(x: string, la: seq<string>, lb: seq<string>)
    requires la != []
    ensures (la + lb)[0] == la[0]
    ensures [x + (la + lb)[0]] + (la + lb)[1..] == ([x + la[0]] + la[1..]) + lb
  {
    assert (la + lb)[1..] == la[1..] + lb;
  }

  lemma ConsLine(x: seq<string>, la: seq<string>, lb: seq<string>)
    ensures x + (la + lb) == (x + la) + lb
  {
  }

  lemma LinesNewline(r: string)
    ensures Lines(['\n'] + r) == [""] + Lines(r)
  {
    assert (['\n'] + r)[1..] == r;
  }

  lemma LinesChar(c: char, r: string)
    requires c != '\n' && Lines(r) != []
    ensures Lines([c] + r) == [[c] + Lines(r)[0]] + Lines(r)[1..]
  {
    assert ([c] + r)[1..] == r;
  }

  lemma {:induction false} LinesNonEmpty(a: string)
    requires EndsLine(a) && a != []
    ensures Lines(a) != []
  {
  }

  /** Non-empty text ending in a line feed is its first line, a line feed,
      and more such text. */
  lemma FirstLine(a: string) returns (line: string, rest: string)
    requires EndsLine(a) && a != []
    ensures a == line + "\n" + rest && '\n' !in line && EndsLine(rest) && |rest| < |a|
    ensures Lines(a) == [line] + Lines(rest)
  {
    var i := FindFrom(a, '\n', 0);
    line, rest := a[..i], a[i + 1..];
    assert a == line + "\n" + rest;
    assert '\n' !in line by {
      forall j | 0 <= j < |line| ensures line[j] != '\n' { assert line[j] == a[j]; }
    }
    assert EndsLine(rest) by {
      if rest != [] { assert rest[|rest| - 1] == a[|a| - 1]; }
    }
    LinesOfLine(line, rest);
  }

  lemma EndsLineAppend(a: string, b: string)
    requires EndsLine(a) && EndsLine(b)
    ensures EndsLine(a + b)
  {
    if b == [] { assert a + b == a; }
  }
}
