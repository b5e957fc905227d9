/** Whitespace classification and the `trim` helper of the INI parser. */
module Text {

  /** `std::iswspace` in the "C" locale: space, tab, line feed, vertical tab,
      form feed and carriage return. */
  predicate IsSpace(c: char) {
    c == ' ' || c == '\t' || c == '\n' || c == '\U{000B}' || c == '\U{000C}' || c == '\r'
  }

  predicate AllSpace(s: string) {
    forall i :: 0 <= i < |s| ==> IsSpace(s[i])
  }

  /** Index of the first non-whitespace character at or after `from`, or |s|. */
  function LeadingEnd(s: string, from: nat): (n: nat)
    requires from <= |s|
    ensures from <= n <= |s|
    ensures forall i :: from <= i < n ==> IsSpace(s[i])
    ensures n < |s| ==> !IsSpace(s[n])
    decreases |s| - from
  {
    if from == |s| || !IsSpace(s[from]) then from else LeadingEnd(s, from + 1)
  }

  /** Index just after the last non-whitespace character before `upto`, or 0. */
  function TrailingStart(s: string, upto: nat): (n: nat)
    requires upto <= |s|
    ensures n <= upto
    ensures forall i :: n <= i < upto ==> IsSpace(s[i])
    ensures n > 0 ==> !IsSpace(s[n - 1])
  {
    if upto == 0 || !IsSpace(s[upto - 1]) then upto else TrailingStart(s, upto - 1)
  }

  /** `trim(s)`: the slice from the first to the last non-whitespace character,
      or "" when there is none. */
  function TrimSpace(s: string): (r: string)
    ensures AllSpace(s) <==> r == []
    ensures r != [] ==> !IsSpace(r[0]) && !IsSpace(r[|r| - 1])
  {
    var a := LeadingEnd(s, 0);
    if a == |s| then
      []
    else
      var b := TrailingStart(s, |s|);
      assert !IsSpace(s[a]) && !AllSpace(s);
      assert a < b;
      var r := s[a..b];
      assert r[0] == s[a] && r[|r| - 1] == s[b - 1];
      r
  }

  /** What TrimSpace drops is whitespace on both sides: `s` is the result
      padded on the left and on the right by whitespace only. */
  lemma TrimSpaceSplit(s: string) returns (left: string, right: string)
    ensures s == left + TrimSpace(s) + right
    ensures AllSpace(left) && AllSpace(right)
  {
    var a := LeadingEnd(s, 0);
    if a == |s| {
      left, right := s, [];
      assert s + [] + [] == s;
    } else {
      var b := TrailingStart(s, |s|);
      assert TrimSpace(s) == s[a..b];
      left, right := s[..a], s[b..];
      SliceSplit(s, a, b);
      SpacePrefix(s, a);
      SpaceSuffix(s, b);
    }
  }

  lemma SliceSplit(s: string, a: nat, b: nat)
    requires a <= b <= |s|
    ensures s == s[..a] + s[a..b] + s[b..]
  {
  }

  lemma SpacePrefix(s: string, a: nat)
    requires a <= |s| && forall i :: 0 <= i < a ==> IsSpace(s[i])
    ensures AllSpace(s[..a])
  {
    forall i | 0 <= i < a ensures IsSpace(s[..a][i]) { assert s[..a][i] == s[i]; }
  }

  lemma SpaceSuffix(s: string, b: nat)
    requires b <= |s| && forall i :: b <= i < |s| ==> IsSpace(s[i])
    ensures AllSpace(s[b..])
  {
    forall i | 0 <= i < |s| - b ensures IsSpace(s[b..][i]) { assert s[b..][i] == s[b + i]; }
  }

  /** The quote step of `trim(s, true)`: one enclosing pair of double quotes is
      removed, nothing else. A lone `"` is excluded: the source then builds a
      string from an inverted iterator range. */
  function StripQuotes(t: string): (r: string)
    requires t != "\""
    ensures (|t| >= 2 && t[0] == '"' && t[|t| - 1] == '"') <==> t == "\"" + r + "\""
    ensures r != t ==> t == "\"" + r + "\""
  {
    if |t| >= 2 && t[0] == '"' && t[|t| - 1] == '"' then t[1..|t| - 1] else t
  }

  /** `trim(s, trimQuot)`. */
  function Trimmed(s: string, trimQuot: bool): (r: string)
    requires !trimQuot || TrimSpace(s) != "\""
  {
    if trimQuot then StripQuotes(TrimSpace(s)) else TrimSpace(s)
  }

  /** The source's `trim`: one loop moves `start` over leading whitespace, a
      second moves `end` back over trailing whitespace but never before `start`;
      with `trimQuot` one enclosing pair of quotes is dropped. */
  method Trim(s: string, trimQuot: bool) returns (r: string)
    requires !trimQuot || TrimSpace(s) != "\""
    ensures r == Trimmed(s, trimQuot)
  {
    if |s| == 0 {
      return "";
    }
    var start := 0;
    while start != |s| && IsSpace(s[start])
      invariant 0 <= start <= |s|
      invariant forall i :: 0 <= i < start ==> IsSpace(s[i])
    {
      start := start + 1;
    }
    var end := |s| - 1;
    while end - start > 0 && IsSpace(s[end])
      invariant start == |s| ==> end == |s| - 1
      invariant start < |s| ==> start <= end < |s|
      invariant forall i :: end < i < |s| ==> IsSpace(s[i])
    {
      end := end - 1;
    }
    ghost var a, b := TrimResult(s, start, end, trimQuot);
    if trimQuot && start < |s| && s[start] == '"' && s[end] == '"' {
      start := start + 1;
      end := end - 1;
    }
    assert start == a && end == b;
    r := s[start..end + 1];
  }

  /** The slice `trim` returns once its loops have stopped at `start` and
      `end`: the quote step moves both bounds inwards by one or not at all. */
  lemma TrimResult(s: string, start: int, end: int, trimQuot: bool) returns (a: int, b: int)
    requires 0 <= start <= |s| && |s| > 0
    requires forall i :: 0 <= i < start ==> IsSpace(s[i])
    requires start == |s| || !IsSpace(s[start])
    requires start == |s| ==> end == |s| - 1
    requires start < |s| ==> start <= end < |s|
    requires forall i :: end < i < |s| ==> IsSpace(s[i])
    requires !(end - start > 0 && IsSpace(s[end]))
    requires !trimQuot || TrimSpace(s) != "\""
    ensures var moved := trimQuot && start < |s| && s[start] == '"' && s[end] == '"';
            && a == (if moved then start + 1 else start)
            && b == (if moved then end - 1 else end)
    ensures 0 <= a <= b + 1 <= |s| && Trimmed(s, trimQuot) == s[a..b + 1]
  {
    TrimBounds(s, start, end);
    QuoteBounds(s, start, end, trimQuot);
    if trimQuot && start < |s| && s[start] == '"' && s[end] == '"' {
      a, b := start + 1, end - 1;
    } else {
      a, b := start, end;
    }
  }

  /** Where the two loops of `trim` stop: `start` at the first and `end` at
      the last non-whitespace character, or `start` at the end of the string. */
  lemma TrimBounds(s: string, start: int, end: int)
    requires 0 <= start <= |s| && |s| > 0
    requires forall i :: 0 <= i < start ==> IsSpace(s[i])
    requires start == |s| || !IsSpace(s[start])
    requires start == |s| ==> end == |s| - 1
    requires start < |s| ==> start <= end < |s|
    requires forall i :: end < i < |s| ==> IsSpace(s[i])
    requires !(end - start > 0 && IsSpace(s[end]))
    ensures 0 <= start <= end + 1 <= |s| && TrimSpace(s) == s[start..end + 1]
  {
    if start < |s| {
      LeadingEndFrom(s, 0, start);
      TrailingStartFrom(s, |s|, end + 1);
    } else {
      assert AllSpace(s);
    }
  }

  /** The quote step applied to the trimmed slice `s[start..end + 1]`. */
  lemma QuoteBounds(s: string, start: int, end: int, trimQuot: bool)
    requires 0 <= start <= end + 1 <= |s| && TrimSpace(s) == s[start..end + 1]
    requires !trimQuot || TrimSpace(s) != "\""
    ensures trimQuot && start < |s| && s[start] == '"' && s[end] == '"' ==>
              start + 1 <= end && Trimmed(s, trimQuot) == s[start + 1..end]
    ensures !(trimQuot && start < |s| && s[start] == '"' && s[end] == '"') ==>
              Trimmed(s, trimQuot) == s[start..end + 1]
  {
    var core := s[start..end + 1];
    if trimQuot && start < |s| && s[start] == '"' && s[end] == '"' {
      assert core[0] == s[start] && core[|core| - 1] == s[end];
      InnerSlice(s, start, end + 1);
    } else if start <= end {
      assert core[0] == s[start] && core[|core| - 1] == s[end];
    }
  }

  lemma InnerSlice(s: string, a: nat, b: nat)
    requires a + 2 <= b <= |s|
    ensures s[a..b][1..b - a - 1] == s[a + 1..b - 1]
  {
    var x, y := s[a..b][1..b - a - 1], s[a + 1..b - 1];
    assert |x| == |y|;
    forall i | 0 <= i < |x| ensures x[i] == y[i] {
      assert x[i] == s[a..b][i + 1] == s[a + 1 + i];
    }
  }

  /** Trimming whitespace-padded text gives back the text, whatever the padding:
      TrimSpace is the unique core between two runs of whitespace. */
  lemma {:induction false} TrimSpacePadded(left: string, core: string, right: string)
    requires AllSpace(left) && AllSpace(right)
    requires core != [] ==> !IsSpace(core[0]) && !IsSpace(core[|core| - 1])
    ensures TrimSpace(left + core + right) == core
  {
    var s := left + core + right;
    if core == [] {
      assert AllSpace(s) by {
        forall i | 0 <= i < |s| ensures IsSpace(s[i]) {
          if i < |left| { assert s[i] == left[i]; } else { assert s[i] == right[i - |left|]; }
        }
      }
    } else {
      assert s[|left|] == core[0];
      LeadingEndFrom(s, 0, |left|);
      TrailingStartFrom(s, |s|, |left| + |core|);
      assert s[|left|..|left| + |core|] == core;
    }
  }

  /** Text without surrounding whitespace is its own trim. */
  lemma TrimSpaceSelf(s: string)
    requires s != [] ==> !IsSpace(s[0]) && !IsSpace(s[|s| - 1])
    ensures TrimSpace(s) == s
  {
    TrimSpacePadded([], s, []);
    assert [] + s + [] == s;
  }

  lemma {:induction false} LeadingEndFrom(s: string, from: nat, k: nat)
    requires from <= k < |s|
    requires forall i :: from <= i < k ==> IsSpace(s[i])
    requires !IsSpace(s[k])
    ensures LeadingEnd(s, from) == k
    decreases k - from
  {
    if from < k {
      LeadingEndFrom(s, from + 1, k);
    }
  }

  lemma {:induction false} TrailingStartFrom(s: string, upto: nat, k: nat)
    requires 0 < k <= upto <= |s|
    requires forall i :: k <= i < upto ==> IsSpace(s[i])
    requires !IsSpace(s[k - 1])
    ensures TrailingStart(s, upto) == k
    decreases upto - k
  {
    if k < upto {
      TrailingStartFrom(s, upto - 1, k);
    }
  }
}
