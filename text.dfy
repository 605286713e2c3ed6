/**
 * The handful of Python string operations the provisioning script relies on,
 * stated over `string` (a sequence of Unicode scalar values): `startswith`,
 * substring `in`, `split`/`join` with an explicit separator, `splitlines`
 * keeping line ends, `strip`, and the way iterating a text file cuts it into
 * lines.
 */
module Text {

  /** Python's `s.startswith(prefix)`. */
  predicate StartsWith(s: string, prefix: string) {
    |prefix| <= |s| && s[..|prefix|] == prefix
  }

  /** `needle` occurs in `haystack` at index `i`. */
  predicate OccursAt(haystack: string, needle: string, i: int) {
    0 <= i && i + |needle| <= |haystack| && haystack[i..i + |needle|] == needle
  }

  /** Python's `needle in haystack` on strings. */
  predicate Contains(haystack: string, needle: string) {
    exists i | 0 <= i <= |haystack| - |needle| :: OccursAt(haystack, needle, i)
  }

  /** Python's `"".join(lines)`: the text a list of lines spells out. */
  function Concat(lines: seq<string>): string {
    if lines == [] then "" else lines[0] + Concat(lines[1..])
  }

  lemma {:induction false} ConcatAppend(a: seq<string>, b: seq<string>)
    ensures Concat(a + b) == Concat(a) + Concat(b)
  {
    if a == [] {
      assert a + b == b;
    } else {
      assert (a + b)[1..] == a[1..] + b;
      ConcatAppend(a[1..], b);
    }
  }

  /** Two lines spell out their concatenation. */
  lemma ConcatPair(a: string, b: string)
    ensures Concat([a, b]) == a + b
  {
    assert [a, b][1..] == [b] && [b][1..] == [];
    assert Concat([b]) == b + Concat([]) == b;
    assert Concat([a, b]) == a + Concat([b]);
  }

  /** Python's `sep.join(parts)`. */
  function Join(parts: seq<string>, sep: string): string {
    if |parts| == 0 then ""
    else if |parts| == 1 then parts[0]
    else parts[0] + sep + Join(parts[1..], sep)
  }

  lemma {:induction false} JoinAppend(a: seq<string>, b: seq<string>, sep: string)
    requires |a| > 0 && |b| > 0
    ensures Join(a + b, sep) == Join(a, sep) + sep + Join(b, sep)
  {
    if |a| == 1 {
      assert (a + b)[1..] == b;
    } else {
      assert (a + b)[1..] == a[1..] + b;
      JoinAppend(a[1..], b, sep);
    }
  }

  /** A join of pieces none of which holds `c`, with a separator that does not hold `c`, does not hold `c`. */
  lemma {:induction false} JoinAvoids(parts: seq<string>, sep: string, c: char)
    requires c !in sep
    requires forall k :: 0 <= k < |parts| ==> c !in parts[k]
    ensures c !in Join(parts, sep)
  {
    if |parts| > 1 {
      JoinAvoids(parts[1..], sep, c);
    }
  }

  /**
   * Python's `s.split(sep)` for a non-empty separator: the pieces between the
   * occurrences of `sep` found scanning from the left.
   */
  function Split(s: string, sep: string): (parts: seq<string>)
    requires sep != ""
    ensures |parts| >= 1
    decreases |s|
  {
    if |s| < |sep| then [s]
    else if s[..|sep|] == sep then [""] + Split(s[|sep|..], sep)
    else
      var rest := Split(s[1..], sep);
      [[s[0]] + rest[0]] + rest[1..]
  }

  /** Putting a character in front of the first piece puts it in front of the join. */
  lemma JoinConsFirst(c: char, parts: seq<string>, sep: string)
    requires |parts| >= 1
    ensures Join([[c] + parts[0]] + parts[1..], sep) == [c] + Join(parts, sep)
  {
    var glued := [[c] + parts[0]] + parts[1..];
    if |parts| > 1 {
      assert glued[1..] == parts[1..];
      assert Join(glued, sep) == ([c] + parts[0]) + sep + Join(parts[1..], sep);
      assert ([c] + parts[0]) + sep + Join(parts[1..], sep) == [c] + (parts[0] + sep + Join(parts[1..], sep));
    }
  }

  /** Joining the pieces of a split with the separator gives the text back. */
  lemma {:induction false} JoinSplit(s: string, sep: string)
    requires sep != ""
    ensures Join(Split(s, sep), sep) == s
    decreases |s|, 1
  {
    if |s| < |sep| {
    } else if s[..|sep|] == sep {
      JoinSplitAtSep(s, sep);
    } else {
      JoinSplitPastChar(s, sep);
    }
  }

  /** The case of `JoinSplit` where the text starts with the separator. */
  lemma {:induction false} JoinSplitAtSep(s: string, sep: string)
    requires sep != "" && |s| >= |sep| && s[..|sep|] == sep
    ensures Join(Split(s, sep), sep) == s
    decreases |s|, 0
  {
    var rest := Split(s[|sep|..], sep);
    JoinSplit(s[|sep|..], sep);
    assert Split(s, sep) == [""] + rest;
    JoinEmptyFirst(rest, sep);
    assert s == sep + s[|sep|..];
  }

  /** An empty first piece puts the separator in front of the join of the others. */
  lemma JoinEmptyFirst(parts: seq<string>, sep: string)
    requires |parts| >= 1
    ensures Join([""] + parts, sep) == sep + Join(parts, sep)
  {
    assert ([""] + parts)[1..] == parts;
    assert "" + sep == sep;
  }

  /** The case of `JoinSplit` where the first character belongs to the first piece. */
  lemma {:induction false} JoinSplitPastChar(s: string, sep: string)
    requires sep != "" && |s| >= |sep| && s[..|sep|] != sep
    ensures Join(Split(s, sep), sep) == s
    decreases |s|, 0
  {
    JoinSplit(s[1..], sep);
    JoinConsFirst(s[0], Split(s[1..], sep), sep);
    assert s == [s[0]] + s[1..];
  }

  /** A character in front of a separator-free text adds no occurrence unless the separator starts there. */
  lemma ConsAvoids(c: char, p: string, sep: string)
    requires !Contains(p, sep) && !StartsWith([c] + p, sep)
    ensures !Contains([c] + p, sep)
  {
    var first := [c] + p;
    forall i | 0 <= i <= |first| - |sep|
      ensures !OccursAt(first, sep, i)
    {
      if i > 0 {
        assert first[i..i + |sep|] == p[i - 1..i - 1 + |sep|];
        assert !OccursAt(p, sep, i - 1);
      } else {
        assert first[i..i + |sep|] == first[..|sep|];
      }
    }
  }

  /** No piece of a split contains the separator. */
  lemma {:induction false} SplitPiecesAvoidSep(s: string, sep: string)
    requires sep != ""
    ensures forall k :: 0 <= k < |Split(s, sep)| ==> !Contains(Split(s, sep)[k], sep)
    decreases |s|
  {
    if |s| < |sep| {
    } else if s[..|sep|] == sep {
      SplitPiecesAvoidSep(s[|sep|..], sep);
    } else {
      var rest := Split(s[1..], sep);
      SplitPiecesAvoidSep(s[1..], sep);
      JoinSplit(s[1..], sep);
      SplitHeadIsPrefix(s[1..], sep, rest);
      var first := [s[0]] + rest[0];
      assert first == s[..|first|];
      if |sep| <= |first| {
        assert first[..|sep|] == s[..|sep|];
      }
      ConsAvoids(s[0], rest[0], sep);
      assert Split(s, sep) == [first] + rest[1..];
    }
  }

  /** A text in which the separator does not occur splits into just itself. */
  lemma {:induction false} SplitWithout(s: string, sep: string)
    requires sep != "" && !Contains(s, sep)
    ensures Split(s, sep) == [s]
    decreases |s|
  {
    if |s| >= |sep| {
      assert !OccursAt(s, sep, 0);
      forall i | 0 <= i <= |s[1..]| - |sep|
        ensures !OccursAt(s[1..], sep, i)
      {
        assert !OccursAt(s, sep, i + 1);
        assert s[1..][i..i + |sep|] == s[i + 1..i + 1 + |sep|];
      }
      SplitWithout(s[1..], sep);
      assert s == [s[0]] + s[1..];
    }
  }

  /**
   * When the first occurrence of the separator in `a + sep + r` is the one
   * right after `a`, the split yields `a` and then the pieces of `r`.
   */
  lemma {:induction false} SplitAtFirst(a: string, sep: string, r: string)
    requires sep != ""
    requires forall i :: 0 <= i < |a| ==> !OccursAt(a + sep + r, sep, i)
    ensures Split(a + sep + r, sep) == [a] + Split(r, sep)
    decreases |a|
  {
    var s := a + sep + r;
    if a == "" {
      assert s == sep + r;
      assert s[..|sep|] == sep && s[|sep|..] == r;
    } else {
      assert !OccursAt(s, sep, 0);
      assert s[1..] == a[1..] + sep + r;
      forall i | 0 <= i < |a[1..]|
        ensures !OccursAt(a[1..] + sep + r, sep, i)
      {
        assert !OccursAt(s, sep, i + 1);
        assert s[1..][i..i + |sep|] == s[i + 1..i + 1 + |sep|];
      }
      SplitAtFirst(a[1..], sep, r);
      assert a == [a[0]] + a[1..];
    }
  }

  /** The first piece of a join is a prefix of it. */
  lemma SplitHeadIsPrefix(s: string, sep: string, parts: seq<string>)
    requires |parts| >= 1 && Join(parts, sep) == s
    ensures |parts[0]| <= |s| && s[..|parts[0]|] == parts[0]
  {
  }

  /** The characters Python's `str.splitlines` treats as line boundaries. */
  predicate IsLineBoundary(c: char) {
    c == '\n' || c == '\r' || c == '\U{000B}' || c == '\U{000C}'
    || c == '\U{001C}' || c == '\U{001D}' || c == '\U{001E}'
    || c == '\U{0085}' || c == '\U{2028}' || c == '\U{2029}'
  }

  /** The length of the first line of `s`, its boundary included ("\r\n" counts as one boundary). */
  function LineLength(s: string): (n: nat)
    requires s != ""
    ensures 0 < n <= |s|
  {
    if s[0] == '\r' && |s| > 1 && s[1] == '\n' then 2
    else if IsLineBoundary(s[0]) || |s| == 1 then 1
    else 1 + LineLength(s[1..])
  }

  /**
   * Python's `s.splitlines(True)`: the lines of `s`, each with its boundary.
   * They are non-empty and spell out `s`, so equal line lists mean equal texts.
   */
  function SplitLines(s: string): (lines: seq<string>)
    ensures Concat(lines) == s
    ensures forall k :: 0 <= k < |lines| ==> lines[k] != ""
    decreases |s|
  {
    if s == "" then []
    else
      var n := LineLength(s);
      assert s == s[..n] + s[n..];
      [s[..n]] + SplitLines(s[n..])
  }

  /** A line as file iteration yields it: non-empty, with '\n' at most as its last character. */
  predicate IsLine(line: string) {
    line != "" && '\n' !in line[..|line| - 1]
  }

  /** A line that ends with its '\n'. */
  predicate IsTerminated(line: string) {
    IsLine(line) && line[|line| - 1] == '\n'
  }

  predicate AllTerminated(lines: seq<string>) {
    forall k :: 0 <= k < |lines| ==> IsTerminated(lines[k])
  }

  /** The length of the first line of `text` in text-mode file iteration: up to and including the first '\n', or all of it. */
  function FileLineLength(text: string): (n: nat)
    requires text != ""
    ensures 0 < n <= |text|
    ensures '\n' !in text[..n - 1]
    ensures n < |text| ==> text[n - 1] == '\n'
  {
    if text[0] == '\n' || |text| == 1 then 1
    else
      var m := FileLineLength(text[1..]);
      assert text[..m] == [text[0]] + text[1..][..m - 1];
      1 + m
  }

  /**
   * The lines `for line in f` yields on a file holding `text` (after Python's
   * newline translation): every one ends with '\n' except possibly the last,
   * and together they spell out `text`.
   */
  function FileLines(text: string): (lines: seq<string>)
    ensures Concat(lines) == text
    ensures forall k :: 0 <= k < |lines| ==> IsLine(lines[k])
    ensures forall k :: 0 <= k < |lines| - 1 ==> IsTerminated(lines[k])
    decreases |text|
  {
    if text == "" then []
    else
      var n := FileLineLength(text);
      assert text == text[..n] + text[n..];
      assert text[..n][..n - 1] == text[..n - 1];
      [text[..n]] + FileLines(text[n..])
  }

  /** A text that is empty or ends with '\n' is read back as terminated lines only. */
  lemma FileLinesTerminated(text: string)
    requires text == "" || text[|text| - 1] == '\n'
    ensures AllTerminated(FileLines(text))
  {
    var lines := FileLines(text);
    if lines != [] {
      ConcatLastChar(lines);
    }
  }

  /** The last character of a concatenation is that of its last, non-empty, piece. */
  lemma ConcatLastChar(lines: seq<string>)
    requires lines != [] && lines[|lines| - 1] != ""
    ensures var s := Concat(lines); var line := lines[|lines| - 1];
      |s| >= |line| && s[|s| - 1] == line[|line| - 1]
  {
    var last := |lines| - 1;
    ConcatAppend(lines[..last], [lines[last]]);
    assert lines[..last] + [lines[last]] == lines;
    assert Concat([lines[last]]) == lines[last];
  }

  /** A terminated line at the front of a text is exactly the first line read. */
  lemma {:induction false} FileLineLengthOf(line: string, rest: string)
    requires IsTerminated(line)
    ensures FileLineLength(line + rest) == |line|
    decreases |line|
  {
    if |line| > 1 {
      assert line[0] != '\n' by { assert line[0] == line[..|line| - 1][0]; }
      assert (line + rest)[1..] == line[1..] + rest;
      assert line[1..][..|line[1..]| - 1] == line[..|line| - 1][1..];
      FileLineLengthOf(line[1..], rest);
    }
  }

  /** Writing terminated lines and reading the file back gives the same lines. */
  lemma {:induction false} FileLinesOfConcat(lines: seq<string>)
    requires AllTerminated(lines)
    ensures FileLines(Concat(lines)) == lines
  {
    if lines != [] {
      var text := Concat(lines);
      FileLineLengthOf(lines[0], Concat(lines[1..]));
      assert text[..|lines[0]|] == lines[0];
      assert text[|lines[0]|..] == Concat(lines[1..]);
      FileLinesOfConcat(lines[1..]);
    }
  }

  /**
   * Writing lines of which all but the last are terminated, and reading the
   * file back, gives the same lines: an unterminated last line stays the last.
   */
  lemma {:induction false} FileLinesOfLines(lines: seq<string>)
    requires forall k :: 0 <= k < |lines| ==> IsLine(lines[k])
    requires forall k :: 0 <= k < |lines| - 1 ==> IsTerminated(lines[k])
    ensures FileLines(Concat(lines)) == lines
  {
    if |lines| == 1 {
      assert lines[1..] == [];
      assert Concat(lines) == lines[0];
      FileLinesOfLine(lines[0]);
    } else if lines != [] {
      var text := Concat(lines);
      FileLineLengthOf(lines[0], Concat(lines[1..]));
      assert text[..|lines[0]|] == lines[0];
      assert text[|lines[0]|..] == Concat(lines[1..]);
      FileLinesOfLines(lines[1..]);
    }
  }

  /** A single line without an inner '\n' is read back as one line. */
  lemma FileLinesOfLine(line: string)
    requires IsLine(line)
    ensures FileLines(line) == [line]
  {
    FileLineLengthWhole(line);
    assert line[..|line|] == line;
    assert line[|line|..] == "";
  }

  lemma {:induction false} FileLineLengthWhole(line: string)
    requires IsLine(line)
    ensures FileLineLength(line) == |line|
    decreases |line|
  {
    if |line| > 1 {
      assert line[0] != '\n' by { assert line[0] == line[..|line| - 1][0]; }
      assert line[1..][..|line[1..]| - 1] == line[..|line| - 1][1..];
      FileLineLengthWhole(line[1..]);
    }
  }

  /** Python's `str.isspace` for one character. */
  predicate IsSpace(c: char) {
    c == ' ' || ('\t' <= c <= '\r') || ('\U{001C}' <= c <= '\U{001F}')
    || c == '\U{0085}' || c == '\U{00A0}' || c == '\U{1680}'
    || ('\U{2000}' <= c <= '\U{200A}') || c == '\U{2028}' || c == '\U{2029}'
    || c == '\U{202F}' || c == '\U{205F}' || c == '\U{3000}'
  }

  predicate AllSpace(s: string) {
    forall j :: 0 <= j < |s| ==> IsSpace(s[j])
  }

  /** Python's `s.lstrip()`: the longest suffix of `s` not starting with whitespace. */
  function TrimStart(s: string): (r: string)
    ensures |r| <= |s| && r == s[|s| - |r|..]
    ensures AllSpace(s[..|s| - |r|])
    ensures r == "" || !IsSpace(r[0])
  {
    if s != [] && IsSpace(s[0]) then
      var r := TrimStart(s[1..]);
      var k := |s| - |r|;
      assert s[..k] == [s[0]] + s[1..][..k - 1];
      AllSpaceCons(s[0], s[1..][..k - 1]);
      assert s[1..][k - 1..] == s[k..];
      r
    else s
  }

  lemma AllSpaceCons(c: char, t: string)
    requires IsSpace(c) && AllSpace(t)
    ensures AllSpace([c] + t)
  {
    forall j | 0 <= j < |t| + 1
      ensures IsSpace(([c] + t)[j])
    {
      if j > 0 {
        assert ([c] + t)[j] == t[j - 1];
      }
    }
  }

  lemma AllSpaceSnoc(t: string, c: char)
    requires AllSpace(t) && IsSpace(c)
    ensures AllSpace(t + [c])
  {
    forall j | 0 <= j < |t| + 1
      ensures IsSpace((t + [c])[j])
    {
      if j < |t| {
        assert (t + [c])[j] == t[j];
      }
    }
  }

  /** Python's `s.rstrip()`: the longest prefix of `s` not ending with whitespace. */
  function TrimEnd(s: string): (r: string)
    ensures |r| <= |s| && r == s[..|r|]
    ensures AllSpace(s[|r|..])
    ensures r == "" || !IsSpace(r[|r| - 1])
  {
    if s != [] && IsSpace(s[|s| - 1]) then
      var r := TrimEnd(s[..|s| - 1]);
      var init := s[..|s| - 1];
      assert s[|r|..] == init[|r|..] + [s[|s| - 1]];
      AllSpaceSnoc(init[|r|..], s[|s| - 1]);
      assert init[..|r|] == s[..|r|];
      r
    else s
  }

  /** Python's `s.strip()`. */
  function Strip(s: string): string {
    TrimEnd(TrimStart(s))
  }

  /** Leading whitespace in front of a text that does not start with whitespace is exactly what `lstrip` drops. */
  lemma TrimStartSurrounded(before: string, rest: string)
    requires AllSpace(before) && rest != "" && !IsSpace(rest[0])
    ensures TrimStart(before + rest) == rest
  {
    var s := before + rest;
    var r := TrimStart(s);
    var k := |s| - |r|;
    assert s[|before|] == rest[0];
    assert forall j :: 0 <= j < k ==> IsSpace(s[j]) by {
      forall j | 0 <= j < k ensures IsSpace(s[j]) { assert s[..k][j] == s[j]; }
    }
    assert forall j :: 0 <= j < |before| ==> IsSpace(s[j]);
    assert r[0] == s[k];
    assert k == |before|;
  }

  /** Trailing whitespace after a text that does not end with whitespace is exactly what `rstrip` drops. */
  lemma TrimEndSurrounded(rest: string, after: string)
    requires AllSpace(after) && rest != "" && !IsSpace(rest[|rest| - 1])
    ensures TrimEnd(rest + after) == rest
  {
    var r := rest + after;
    var t := TrimEnd(r);
    assert forall j :: |t| <= j < |r| ==> IsSpace(r[j]) by {
      forall j | |t| <= j < |r| ensures IsSpace(r[j]) { assert r[|t|..][j - |t|] == r[j]; }
    }
    assert r[|rest| - 1] == rest[|rest| - 1];
    assert |t| >= |rest|;
    assert forall j :: |rest| <= j < |r| ==> IsSpace(r[j]);
    assert t[|t| - 1] == r[|t| - 1];
  }

  /** Stripping whitespace from around a text that neither starts nor ends with whitespace leaves that text. */
  lemma StripSurrounded(before: string, core: string, after: string)
    requires AllSpace(before) && AllSpace(after)
    requires core != "" && !IsSpace(core[0]) && !IsSpace(core[|core| - 1])
    ensures Strip(before + core + after) == core
  {
    assert before + core + after == before + (core + after);
    TrimStartSurrounded(before, core + after);
    TrimEndSurrounded(core, after);
  }
}
