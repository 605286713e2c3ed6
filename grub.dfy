/**
 * The rewrite `fix_grub` applies to the GRUB defaults file of the installed
 * system: in one pass over its lines it comments out a zero hidden timeout,
 * turns the quiet hidden timeout off, drops every line that already enables
 * cryptodisk (remembering that it saw one), and appends the cryptodisk line
 * at the end when it saw none.
 *
 * Lines are strings that keep their '\n', the way iterating a Python text
 * file yields them. `FixGrub` is the loop as written; `FixGrubLines` is what
 * it computes. The model also holds the rewrite its authors evidently meant
 * (`FixGrubIntended`, `FixGrubTextIntended`), which keeps an existing
 * cryptodisk line and never glues the appended line onto an unterminated
 * last line.
 */
module Grub {
  import opened Text

  const HiddenTimeout: string := "GRUB_HIDDEN_TIMEOUT=0"
  const HiddenTimeoutOff: string := "#GRUB_HIDDEN_TIMEOUT=0\n"
  const HiddenTimeoutQuiet: string := "GRUB_HIDDEN_TIMEOUT_QUIET=true"
  const HiddenTimeoutQuietOff: string := "GRUB_HIDDEN_TIMEOUT_QUIET=false\n"
  const Cryptodisk: string := "GRUB_ENABLE_CRYPTODISK=y"
  const CryptodiskLine: string := "GRUB_ENABLE_CRYPTODISK=y\n"

  predicate IsCryptodisk(line: string) {
    StartsWith(line, Cryptodisk)
  }

  predicate HasCryptodisk(lines: seq<string>) {
    exists k :: 0 <= k < |lines| && IsCryptodisk(lines[k])
  }

  /** The number of lines that enable cryptodisk. */
  function CountCryptodisk(lines: seq<string>): nat {
    if lines == [] then 0
    else (if IsCryptodisk(lines[0]) then 1 else 0) + CountCryptodisk(lines[1..])
  }

  /** The replacement the loop writes for a line that is not a cryptodisk line. */
  function Substitute(line: string): string {
    if StartsWith(line, HiddenTimeout) then HiddenTimeoutOff
    else if StartsWith(line, HiddenTimeoutQuiet) then HiddenTimeoutQuietOff
    else line
  }

  /** The lines the loop writes: cryptodisk lines dropped, the others substituted, in input order. */
  function Written(lines: seq<string>): seq<string> {
    if lines == [] then []
    else (if IsCryptodisk(lines[0]) then [] else [Substitute(lines[0])]) + Written(lines[1..])
  }

  /** The whole output of the loop as written. */
  function FixGrubLines(lines: seq<string>): seq<string> {
    Written(lines) + (if HasCryptodisk(lines) then [] else [CryptodiskLine])
  }

  /** The loop of `fix_grub`: one pass with a `cryptoPresent` flag, appending to the output. */
  method FixGrub(lines: seq<string>) returns (out: seq<string>)
    ensures out == FixGrubLines(lines)
  {
    var cryptoPresent := false;
    out := [];
    for i := 0 to |lines|
      invariant out == Written(lines[..i])
      invariant cryptoPresent == HasCryptodisk(lines[..i])
    {
      var line := lines[i];
      WrittenSnoc(lines[..i], line);
      assert lines[..i + 1] == lines[..i] + [line];
      HasCryptodiskSnoc(lines[..i], line);
      if StartsWith(line, HiddenTimeout) {
        NotBoth(line);
        out := out + [HiddenTimeoutOff];
      } else if StartsWith(line, HiddenTimeoutQuiet) {
        NotBoth(line);
        out := out + [HiddenTimeoutQuietOff];
      } else if StartsWith(line, Cryptodisk) {
        cryptoPresent := true;
      } else {
        out := out + [line];
      }
    }
    assert lines[..|lines|] == lines;
    if !cryptoPresent {
      out := out + [CryptodiskLine];
    }
  }

  // ----- facts about single lines -----

  /** A line that differs from a prefix at some index within it does not start with that prefix. */
  lemma DiffersAt(line: string, prefix: string, i: nat)
    requires i < |line| && i < |prefix| && line[i] != prefix[i]
    ensures !StartsWith(line, prefix)
  {
    if |prefix| <= |line| {
      assert line[..|prefix|][i] != prefix[i];
    }
  }

  /** The three prefixes the loop tests are pairwise exclusive, so the order of its tests does not matter. */
  lemma NotBoth(line: string)
    ensures !(StartsWith(line, HiddenTimeout) && StartsWith(line, HiddenTimeoutQuiet))
    ensures !(StartsWith(line, HiddenTimeout) && IsCryptodisk(line))
    ensures !(StartsWith(line, HiddenTimeoutQuiet) && IsCryptodisk(line))
  {
    assert HiddenTimeout[19] == '=' && HiddenTimeoutQuiet[19] == '_';
    assert HiddenTimeout[5] == 'H' && HiddenTimeoutQuiet[5] == 'H' && Cryptodisk[5] == 'E';
    assert StartsWith(line, HiddenTimeout) ==> line[19] == '=' && line[5] == 'H';
    assert StartsWith(line, HiddenTimeoutQuiet) ==> line[19] == '_' && line[5] == 'H';
    assert IsCryptodisk(line) ==> line[5] == 'E';
  }

  /**
   * Per line: a GRUB_HIDDEN_TIMEOUT=0 line becomes exactly the commented-out
   * line, a GRUB_HIDDEN_TIMEOUT_QUIET=true line becomes exactly the =false
   * line, any other line is copied unchanged; and no substituted line enables
   * cryptodisk or is changed by a second substitution.
   */
  lemma SubstituteCases(line: string)
    requires !IsCryptodisk(line)
    ensures StartsWith(line, HiddenTimeout) ==> Substitute(line) == HiddenTimeoutOff
    ensures StartsWith(line, HiddenTimeoutQuiet) ==> Substitute(line) == HiddenTimeoutQuietOff
    ensures !StartsWith(line, HiddenTimeout) && !StartsWith(line, HiddenTimeoutQuiet) ==> Substitute(line) == line
    ensures !IsCryptodisk(Substitute(line))
    ensures Substitute(Substitute(line)) == Substitute(line)
    ensures IsTerminated(line) ==> IsTerminated(Substitute(line))
  {
    NotBoth(line);
    TimeoutOffFixed();
    QuietOffFixed();
  }

  /** The commented-out timeout line matches none of the three prefixes and is one terminated line. */
  lemma TimeoutOffFixed()
    ensures !StartsWith(HiddenTimeoutOff, HiddenTimeout) && !StartsWith(HiddenTimeoutOff, HiddenTimeoutQuiet)
    ensures !IsCryptodisk(HiddenTimeoutOff)
    ensures IsTerminated(HiddenTimeoutOff)
  {
    DiffersAt(HiddenTimeoutOff, HiddenTimeout, 0);
    DiffersAt(HiddenTimeoutOff, HiddenTimeoutQuiet, 0);
    DiffersAt(HiddenTimeoutOff, Cryptodisk, 0);
  }

  /** The quiet-off line matches none of the three prefixes and is one terminated line. */
  lemma QuietOffFixed()
    ensures !StartsWith(HiddenTimeoutQuietOff, HiddenTimeout) && !StartsWith(HiddenTimeoutQuietOff, HiddenTimeoutQuiet)
    ensures !IsCryptodisk(HiddenTimeoutQuietOff)
    ensures IsTerminated(HiddenTimeoutQuietOff)
  {
    DiffersAt(HiddenTimeoutQuietOff, HiddenTimeout, 19);
    DiffersAt(HiddenTimeoutQuietOff, HiddenTimeoutQuiet, 26);
    DiffersAt(HiddenTimeoutQuietOff, Cryptodisk, 5);
  }

  /** The appended line enables cryptodisk and is one terminated line. */
  lemma CryptodiskLineFixed()
    ensures IsCryptodisk(CryptodiskLine)
    ensures IsTerminated(CryptodiskLine)
  {
    assert CryptodiskLine[..|Cryptodisk|] == Cryptodisk;
  }

  // ----- facts about Written and the whole rewrite -----

  lemma {:induction false} WrittenAppend(a: seq<string>, b: seq<string>)
    ensures Written(a + b) == Written(a) + Written(b)
  {
    if a == [] {
      assert a + b == b;
    } else {
      assert (a + b)[1..] == a[1..] + b;
      WrittenAppend(a[1..], b);
    }
  }

  lemma WrittenSnoc(lines: seq<string>, line: string)
    ensures Written(lines + [line]) == Written(lines) + (if IsCryptodisk(line) then [] else [Substitute(line)])
  {
    WrittenAppend(lines, [line]);
  }

  lemma HasCryptodiskSnoc(lines: seq<string>, line: string)
    ensures HasCryptodisk(lines + [line]) == (HasCryptodisk(lines) || IsCryptodisk(line))
  {
    var s := lines + [line];
    if HasCryptodisk(lines) {
      var k :| 0 <= k < |lines| && IsCryptodisk(lines[k]);
      assert s[k] == lines[k];
    }
    if IsCryptodisk(line) {
      assert s[|lines|] == line;
    }
    if HasCryptodisk(s) {
      var k :| 0 <= k < |s| && IsCryptodisk(s[k]);
      if k < |lines| { assert lines[k] == s[k]; }
    }
  }

  lemma HasCryptodiskCount(lines: seq<string>)
    ensures HasCryptodisk(lines) <==> CountCryptodisk(lines) > 0
  {
    if lines != [] {
      HasCryptodiskCount(lines[1..]);
      if HasCryptodisk(lines) && !IsCryptodisk(lines[0]) {
        var k :| 0 <= k < |lines| && IsCryptodisk(lines[k]);
        assert lines[1..][k - 1] == lines[k];
      }
      if HasCryptodisk(lines[1..]) {
        var k :| 0 <= k < |lines[1..]| && IsCryptodisk(lines[1..][k]);
        assert lines[k + 1] == lines[1..][k];
      }
    }
  }

  /**
   * The written lines never enable cryptodisk, there is one per input line
   * that does not, and with no cryptodisk line in the input they are the
   * input substituted line by line in the same order.
   */
  lemma {:induction false} WrittenShape(lines: seq<string>)
    ensures CountCryptodisk(Written(lines)) == 0
    ensures |Written(lines)| == |lines| - CountCryptodisk(lines)
    ensures CountCryptodisk(lines) == 0 ==>
      |Written(lines)| == |lines| && forall k :: 0 <= k < |lines| ==> Written(lines)[k] == Substitute(lines[k])
  {
    if lines != [] {
      WrittenShape(lines[1..]);
      var head := if IsCryptodisk(lines[0]) then [] else [Substitute(lines[0])];
      CountAppend(head, Written(lines[1..]));
      if !IsCryptodisk(lines[0]) {
        SubstituteCases(lines[0]);
      }
    }
  }

  lemma {:induction false} CountAppend(a: seq<string>, b: seq<string>)
    ensures CountCryptodisk(a + b) == CountCryptodisk(a) + CountCryptodisk(b)
  {
    if a == [] {
      assert a + b == b;
    } else {
      assert (a + b)[1..] == a[1..] + b;
      CountAppend(a[1..], b);
    }
  }

  /** Substituting a second time changes nothing: the two timeout substitutions alone are idempotent. */
  lemma {:induction false} WrittenIdempotent(lines: seq<string>)
    ensures Written(Written(lines)) == Written(lines)
  {
    if lines != [] {
      var head := if IsCryptodisk(lines[0]) then [] else [Substitute(lines[0])];
      WrittenAppend(head, Written(lines[1..]));
      WrittenIdempotent(lines[1..]);
      if !IsCryptodisk(lines[0]) {
        SubstituteCases(lines[0]);
        assert Written(head) == head;
      }
    }
  }

  /**
   * Without a cryptodisk line in the input, the output is the input
   * substituted line by line followed by exactly one cryptodisk line, one
   * line longer than the input.
   */
  lemma FixGrubAppends(lines: seq<string>)
    requires !HasCryptodisk(lines)
    ensures |FixGrubLines(lines)| == |lines| + 1
    ensures forall k :: 0 <= k < |lines| ==> FixGrubLines(lines)[k] == Substitute(lines[k])
    ensures FixGrubLines(lines)[|lines|] == CryptodiskLine
    ensures CountCryptodisk(FixGrubLines(lines)) == 1
  {
    HasCryptodiskCount(lines);
    WrittenShape(lines);
    CryptodiskLineFixed();
    CountAppend(Written(lines), [CryptodiskLine]);
  }

  /** With a cryptodisk line in the input, all of them are dropped and nothing is appended. */
  lemma FixGrubDrops(lines: seq<string>)
    requires HasCryptodisk(lines)
    ensures FixGrubLines(lines) == Written(lines)
    ensures |FixGrubLines(lines)| == |lines| - CountCryptodisk(lines)
    ensures CountCryptodisk(FixGrubLines(lines)) == 0
  {
    WrittenShape(lines);
  }

  /** The output enables cryptodisk exactly when the input does not. */
  lemma FixGrubFlips(lines: seq<string>)
    ensures HasCryptodisk(FixGrubLines(lines)) <==> !HasCryptodisk(lines)
  {
    HasCryptodiskCount(FixGrubLines(lines));
    if HasCryptodisk(lines) {
      FixGrubDrops(lines);
    } else {
      FixGrubAppends(lines);
    }
  }

  /** Hence the rewrite is never idempotent: a second pass always gives a different file. */
  lemma FixGrubNotIdempotent(lines: seq<string>)
    ensures FixGrubLines(FixGrubLines(lines)) != FixGrubLines(lines)
  {
    FixGrubFlips(lines);
    FixGrubFlips(FixGrubLines(lines));
  }

  /** The concrete case: a file whose one line enables cryptodisk is rewritten to an empty file. */
  lemma FixGrubDisablesEnabled()
    ensures FixGrubLines([CryptodiskLine]) == []
    ensures HasCryptodisk([CryptodiskLine]) && !HasCryptodisk(FixGrubLines([CryptodiskLine]))
  {
    var lines := [CryptodiskLine];
    CryptodiskLineFixed();
    assert IsCryptodisk(lines[0]) && lines[1..] == [];
    assert Written(lines) == [] + Written(lines[1..]);
    assert HasCryptodisk(lines);
  }

  /**
   * From the second pass on it has period two: the second pass removes the
   * line the first one added (or restores the one it removed), and a third
   * pass gives the first pass's output again.
   */
  lemma FixGrubPeriodTwo(lines: seq<string>)
    ensures FixGrubLines(FixGrubLines(FixGrubLines(lines))) == FixGrubLines(lines)
    ensures !HasCryptodisk(lines) ==> FixGrubLines(FixGrubLines(lines)) == Written(lines)
  {
    var once := FixGrubLines(lines);
    var twice := FixGrubLines(once);
    FixGrubFlips(lines);
    FixGrubFlips(once);
    WrittenIdempotent(lines);
    CryptodiskLineFixed();
    WrittenSnoc(Written(lines), CryptodiskLine);
    if HasCryptodisk(lines) {
      assert once == Written(lines);
      assert twice == Written(lines) + [CryptodiskLine];
      assert FixGrubLines(twice) == Written(twice);
    } else {
      assert once == Written(lines) + [CryptodiskLine];
      assert twice == Written(lines);
    }
  }

  // ----- the file as text -----

  /** The file `fix_grub` writes, as text, for the file it reads. */
  function FixGrubText(text: string): string {
    Concat(FixGrubLines(FileLines(text)))
  }

  /**
   * When the file ends with '\n' (or is empty), reading back the file
   * `fix_grub` wrote gives exactly the lines it wrote.
   */
  lemma FixGrubTextReadsBack(text: string)
    requires text == "" || text[|text| - 1] == '\n'
    ensures FileLines(FixGrubText(text)) == FixGrubLines(FileLines(text))
  {
    var lines := FileLines(text);
    FileLinesTerminated(text);
    FixGrubTerminated(lines);
    FileLinesOfConcat(FixGrubLines(lines));
  }

  lemma FixGrubTerminated(lines: seq<string>)
    requires AllTerminated(lines)
    ensures AllTerminated(FixGrubLines(lines))
  {
    WrittenTerminated(lines);
    CryptodiskLineFixed();
  }

  lemma {:induction false} WrittenTerminated(lines: seq<string>)
    requires AllTerminated(lines)
    ensures AllTerminated(Written(lines))
  {
    if lines != [] {
      WrittenTerminated(lines[1..]);
      if !IsCryptodisk(lines[0]) {
        SubstituteCases(lines[0]);
      }
    }
  }

  /**
   * As written, when the file's last line lacks its '\n' (and is none of the
   * three recognised lines) and no line enables cryptodisk, that line is
   * written unchanged and the cryptodisk setting is glued onto its end:
   * reading the file back finds the earlier lines rewritten, then one line
   * that is the old last line with the setting after it, and cryptodisk
   * enabled only if that glued line happens to start with the setting.
   */
  lemma FixGrubTextGlues(prefix: string, last: string)
    requires prefix == "" || prefix[|prefix| - 1] == '\n'
    requires !HasCryptodisk(FileLines(prefix))
    requires IsLine(last) && !IsTerminated(last)
    requires !IsCryptodisk(last) && !StartsWith(last, HiddenTimeout) && !StartsWith(last, HiddenTimeoutQuiet)
    ensures FixGrubText(prefix + last) == Concat(Written(FileLines(prefix))) + last + CryptodiskLine
    ensures FileLines(FixGrubText(prefix + last)) == Written(FileLines(prefix)) + [last + CryptodiskLine]
    ensures HasCryptodisk(FileLines(FixGrubText(prefix + last))) <==> IsCryptodisk(last + CryptodiskLine)
  {
    var before := FileLines(prefix);
    FileLinesTerminated(prefix);
    ReadLast(before, last);
    WrittenLast(before, last);
    WrittenTerminated(before);
    var written := Written(before);
    ReadGlued(written, last);
    WrittenShape(before);
    HasCryptodiskCount(written);
    HasCryptodiskSnoc(written, last + CryptodiskLine);
  }

  /**
   * Terminated lines, then a line without its '\n', then the cryptodisk
   * line: the text reads back as the terminated lines and one glued line.
   */
  lemma ReadGlued(written: seq<string>, last: string)
    requires AllTerminated(written) && IsLine(last) && !IsTerminated(last)
    ensures Concat(written + [last, CryptodiskLine]) == Concat(written) + last + CryptodiskLine
    ensures FileLines(Concat(written) + last + CryptodiskLine) == written + [last + CryptodiskLine]
  {
    ConcatGlued(written, last, CryptodiskLine);
    CryptodiskLineFixed();
    GlueLines(last, CryptodiskLine);
    var glued := last + CryptodiskLine;
    assert Concat(written) + last + CryptodiskLine == Concat(written) + glued;
    ReadLast(written, glued);
  }

  /** Writing lines and then two more spells out the lines' text followed by the two. */
  lemma ConcatGlued(written: seq<string>, a: string, b: string)
    ensures Concat(written + [a, b]) == Concat(written) + a + b
  {
    ConcatAppend(written, [a, b]);
    ConcatPair(a, b);
  }

  /** A text of terminated lines followed by one unterminated line is read back as those lines and then it. */
  lemma ReadLast(before: seq<string>, last: string)
    requires AllTerminated(before) && IsLine(last)
    ensures Concat(before + [last]) == Concat(before) + last
    ensures FileLines(Concat(before) + last) == before + [last]
  {
    ConcatAppend(before, [last]);
    assert Concat([last]) == last + Concat([]);
    FileLinesOfLines(before + [last]);
  }

  /** Appending an unrecognised last line to cryptodisk-free lines: it is written as is, then the setting. */
  lemma WrittenLast(before: seq<string>, last: string)
    requires !HasCryptodisk(before)
    requires !IsCryptodisk(last) && !StartsWith(last, HiddenTimeout) && !StartsWith(last, HiddenTimeoutQuiet)
    ensures FixGrubLines(before + [last]) == Written(before) + [last, CryptodiskLine]
  {
    WrittenSnoc(before, last);
    HasCryptodiskSnoc(before, last);
  }

  /** A line without its '\n' followed by another line is one line. */
  lemma GlueLines(a: string, b: string)
    requires IsLine(a) && !IsTerminated(a) && IsLine(b)
    ensures IsLine(a + b)
  {
    assert '\n' !in a by { assert a == a[..|a| - 1] + [a[|a| - 1]]; }
    var glued := a + b;
    assert glued[..|glued| - 1] == a + b[..|b| - 1];
  }

  /**
   * The concrete case: `GRUB_TIMEOUT=10` without a final '\n' becomes one line
   * that does not start with GRUB_ENABLE_CRYPTODISK=y, so reading the file
   * back finds cryptodisk not enabled.
   */
  const UnterminatedTimeout: string := "GRUB_TIMEOUT=10"

  lemma FixGrubTextGluesLastLine()
    ensures FileLines(FixGrubText(UnterminatedTimeout)) == [UnterminatedTimeout + CryptodiskLine]
    ensures !IsCryptodisk(UnterminatedTimeout + CryptodiskLine)
  {
    var last := UnterminatedTimeout;
    assert IsLine(last) by { assert forall i :: 0 <= i < |last| ==> last[i] != '\n'; }
    DiffersAt(last, Cryptodisk, 5);
    DiffersAt(last, HiddenTimeout, 5);
    DiffersAt(last, HiddenTimeoutQuiet, 5);
    assert FileLines("") == [] && Written([]) == [] && Concat([]) == "";
    assert !HasCryptodisk([]);
    assert "" + last == last;
    FixGrubTextGlues("", last);
    var glued := last + CryptodiskLine;
    assert glued[5] == last[5];
    DiffersAt(glued, Cryptodisk, 5);
  }

  // ----- the rewrite as evidently intended -----

  /**
   * The loop with the cryptodisk branch corrected: the first cryptodisk line
   * is kept, later ones are dropped, and the cryptodisk line is appended only
   * when none was seen. `seen` is the loop's `crypto_present` flag.
   */
  function Intended(lines: seq<string>, seen: bool): seq<string> {
    if lines == [] then (if seen then [] else [CryptodiskLine])
    else if IsCryptodisk(lines[0]) then
      (if seen then [] else [lines[0]]) + Intended(lines[1..], true)
    else [Substitute(lines[0])] + Intended(lines[1..], seen)
  }

  function FixGrubIntended(lines: seq<string>): seq<string> {
    Intended(lines, false)
  }

  /** After `seen`, no cryptodisk line is written; before it, exactly one is. */
  lemma {:induction false} IntendedCount(lines: seq<string>, seen: bool)
    ensures CountCryptodisk(Intended(lines, seen)) == if seen then 0 else 1
  {
    CryptodiskLineFixed();
    if lines == [] {
      assert CountCryptodisk([CryptodiskLine]) == 1;
    } else {
      IntendedCount(lines[1..], IsCryptodisk(lines[0]) || seen);
      var head := if IsCryptodisk(lines[0]) then (if seen then [] else [lines[0]]) else [Substitute(lines[0])];
      CountAppend(head, Intended(lines[1..], IsCryptodisk(lines[0]) || seen));
      if !IsCryptodisk(lines[0]) {
        SubstituteCases(lines[0]);
      }
    }
  }

  lemma {:induction false} IntendedIdempotent(lines: seq<string>, seen: bool)
    ensures Intended(Intended(lines, seen), seen) == Intended(lines, seen)
  {
    CryptodiskLineFixed();
    if lines == [] {
      if !seen {
        assert Intended([CryptodiskLine], false) == [CryptodiskLine] + Intended([], true);
      }
    } else {
      var rest := lines[1..];
      if IsCryptodisk(lines[0]) {
        IntendedIdempotent(rest, true);
        var out := Intended(lines, seen);
        if seen {
          assert out == Intended(rest, true);
        } else {
          assert out == [lines[0]] + Intended(rest, true);
          assert out[1..] == Intended(rest, true);
        }
      } else {
        IntendedIdempotent(rest, seen);
        SubstituteCases(lines[0]);
        var out := Intended(lines, seen);
        assert out == [Substitute(lines[0])] + Intended(rest, seen);
        assert out[1..] == Intended(rest, seen);
      }
    }
  }

  /** The intended rewrite leaves exactly one cryptodisk line and is idempotent. */
  lemma FixGrubIntendedCorrect(lines: seq<string>)
    ensures CountCryptodisk(FixGrubIntended(lines)) == 1
    ensures FixGrubIntended(FixGrubIntended(lines)) == FixGrubIntended(lines)
    ensures !HasCryptodisk(lines) ==> FixGrubIntended(lines) == FixGrubLines(lines)
  {
    IntendedCount(lines, false);
    IntendedIdempotent(lines, false);
    if !HasCryptodisk(lines) {
      HasCryptodiskCount(lines);
      IntendedAgrees(lines);
    }
  }

  /** Without a cryptodisk line in the input, the intended rewrite and the written one agree. */
  lemma {:induction false} IntendedAgrees(lines: seq<string>)
    requires CountCryptodisk(lines) == 0
    ensures Intended(lines, false) == FixGrubLines(lines)
  {
    HasCryptodiskCount(lines);
    if lines != [] {
      IntendedAgrees(lines[1..]);
      HasCryptodiskCount(lines[1..]);
    }
  }

  /** Appending '\n' to an unterminated last line. */
  function TerminateLast(lines: seq<string>): seq<string> {
    if lines == [] || IsTerminated(lines[|lines| - 1]) then lines
    else lines[..|lines| - 1] + [lines[|lines| - 1] + "\n"]
  }

  /** The file the corrected `fix_grub` writes: the last line terminated first, then the intended rewrite. */
  function FixGrubTextIntended(text: string): string {
    Concat(FixGrubIntended(TerminateLast(FileLines(text))))
  }

  /**
   * For every file, reading back what the corrected rewrite writes finds
   * exactly one cryptodisk line, and running it a second time changes
   * nothing.
   */
  lemma FixGrubTextIntendedCorrect(text: string)
    ensures CountCryptodisk(FileLines(FixGrubTextIntended(text))) == 1
    ensures FixGrubTextIntended(FixGrubTextIntended(text)) == FixGrubTextIntended(text)
  {
    var lines := TerminateLast(FileLines(text));
    TerminateLastTerminates(FileLines(text));
    var out := FixGrubIntended(lines);
    IntendedTerminated(lines, false);
    FileLinesOfConcat(out);
    FixGrubIntendedCorrect(lines);
    assert TerminateLast(out) == out;
  }

  lemma TerminateLastTerminates(lines: seq<string>)
    requires forall k :: 0 <= k < |lines| ==> IsLine(lines[k])
    requires forall k :: 0 <= k < |lines| - 1 ==> IsTerminated(lines[k])
    ensures AllTerminated(TerminateLast(lines))
  {
    if lines != [] {
      var last := lines[|lines| - 1];
      if !IsTerminated(last) {
        var t := last + "\n";
        assert t[..|t| - 1] == last;
        assert '\n' !in last by { assert last == last[..|last| - 1] + [last[|last| - 1]]; }
      }
    }
  }

  lemma {:induction false} IntendedTerminated(lines: seq<string>, seen: bool)
    requires AllTerminated(lines)
    ensures AllTerminated(Intended(lines, seen))
  {
    CryptodiskLineFixed();
    if lines != [] {
      IntendedTerminated(lines[1..], IsCryptodisk(lines[0]) || seen);
      if !IsCryptodisk(lines[0]) {
        SubstituteCases(lines[0]);
      }
    }
  }
}
