/**
 * The partition-layout gate (`check_partitions` with `expected_partitions`).
 * The script asks `parted --list --script --machine` for the current layout,
 * keeps the first two blank-line-separated blocks of its output, adds a
 * newline, and compares the result line by line with a fixed expected
 * layout. Any difference aborts the run. A matching layout goes ahead,
 * except in verbose mode (`--safe`), where the operator is first asked to
 * confirm it through the yes/no gate.
 *
 * The expected layout is built here from its machine-readable records (one
 * per line: fields separated by ':' and closed by ';'). It is the same text
 * as the triple-quoted literal of the script, written so that its shape can
 * be reasoned about record by record.
 */
module Partitions {
  import opened Wrappers
  import opened Text
  import opened Prompt

  /** The separator between the per-disk blocks of `parted --machine` output. */
  const Blank: string := "\n\n"

  /** No two consecutive newlines: no blank line inside. */
  predicate NoBlank(s: string) {
    forall i :: 0 <= i < |s| - 1 ==> !(s[i] == '\n' && s[i + 1] == '\n')
  }

  /** A text that can stand before a blank-line separator without merging with it. */
  predicate Paragraph(s: string) {
    NoBlank(s) && (s == "" || s[|s| - 1] != '\n')
  }

  lemma NoBlankAvoids(s: string)
    requires NoBlank(s)
    ensures !Contains(s, Blank)
  {
    forall i | 0 <= i <= |s| - |Blank|
      ensures !OccursAt(s, Blank, i)
    {
      assert s[i..i + 2][0] == s[i] && s[i..i + 2][1] == s[i + 1];
    }
  }

  /** A text with no blank line is a single block. */
  lemma SplitNoBlank(s: string)
    requires NoBlank(s)
    ensures Split(s, Blank) == [s]
  {
    NoBlankAvoids(s);
    SplitWithout(s, Blank);
  }

  /** A paragraph followed by a blank line is split off as the first block. */
  lemma SplitParagraph(a: string, r: string)
    requires Paragraph(a)
    ensures Split(a + Blank + r, Blank) == [a] + Split(r, Blank)
  {
    var s := a + Blank + r;
    forall i | 0 <= i < |a|
      ensures !OccursAt(s, Blank, i)
    {
      assert s[i..i + 2][0] == s[i] && s[i..i + 2][1] == s[i + 1];
      if i + 1 < |a| {
        assert s[i] == a[i] && s[i + 1] == a[i + 1];
      } else {
        assert s[i] == a[|a| - 1];
      }
    }
    SplitAtFirst(a, Blank, r);
  }

  // ----- the expected layout -----

  /** One machine-readable record: the fields joined by ':', closed by ';'. */
  function Record(fields: seq<string>): (line: string)
    ensures line != "" && line[|line| - 1] == ';'
  {
    Join(fields, ":") + ";"
  }

  /** The records of one disk, one per line. */
  function Block(records: seq<seq<string>>): string {
    Join(seq(|records|, k requires 0 <= k < |records| => Record(records[k])), "\n")
  }

  /** The expected records of the 256 GB system SSD. */
  const SdaRecords: seq<seq<string>> := [
    ["BYT"],
    ["/dev/sda", "256GB", "scsi", "512", "512", "gpt", "ATA INTEL SSDSCKKW25", ""],
    ["1", "1049kB", "473MB", "472MB", "ntfs", "Basic data partition", "hidden, diag"],
    ["2", "473MB", "577MB", "104MB", "fat32", "EFI system partition", "boot, esp"],
    ["3", "577MB", "593MB", "16.8MB", "", "Microsoft reserved partition", "msftres"],
    ["4", "593MB", "172GB", "171GB", "ntfs", "Windows system partition", "msftdata"],
    ["5", "172GB", "256GB", "84.3GB", "", "Ubuntu system partition", ""]
  ]

  /** The expected records of the 2 TB data disk. */
  const SdbRecords: seq<seq<string>> := [
    ["BYT"],
    ["/dev/sdb", "2000GB", "scsi", "512", "4096", "gpt", "ATA ST2000DX002-2DV1", ""],
    ["1", "17.4kB", "134MB", "134MB", "", "Microsoft reserved partition", "msftres"],
    ["2", "135MB", "275GB", "275GB", "", "Windows data partition", "msftdata"],
    ["3", "275GB", "2000GB", "1725GB", "", "Ubuntu data partition", ""]
  ]

  /** The two expected blocks separated by a blank line. */
  function Layout(): string {
    Block(SdaRecords) + Blank + Block(SdbRecords)
  }

  /** The literal as written in the script: a leading newline, the layout, a newline and indentation. */
  function RawLayout(): string {
    "\n" + Layout() + "\n    "
  }

  /** `expected_partitions()`: the literal stripped, plus one newline. */
  function ExpectedPartitions(): string {
    Strip(RawLayout()) + "\n"
  }

  /** Newline-free, non-empty lines joined by newlines: no blank line, and the first and last characters are the lines'. */
  lemma {:induction false} JoinLinesShape(lines: seq<string>)
    requires |lines| > 0
    requires forall k :: 0 <= k < |lines| ==> lines[k] != "" && '\n' !in lines[k]
    ensures var b := Join(lines, "\n");
      && NoBlank(b) && StartsWith(b, lines[0])
      && b[|b| - 1] == lines[|lines| - 1][|lines[|lines| - 1]| - 1]
  {
    var b := Join(lines, "\n");
    if |lines| > 1 {
      var head := lines[0];
      var t := Join(lines[1..], "\n");
      JoinLinesShape(lines[1..]);
      assert b == head + "\n" + t;
      assert t[0] == lines[1][0];
      forall i | 0 <= i < |b| - 1
        ensures !(b[i] == '\n' && b[i + 1] == '\n')
      {
        if i < |head| {
          assert b[i] == head[i];
        } else if i > |head| {
          assert b[i] == t[i - |head| - 1] && b[i + 1] == t[i - |head|];
        } else {
          assert b[i + 1] == t[0];
        }
      }
      assert b[..|head|] == head;
    }
  }

  /** None of the fields of a record holds a newline. */
  predicate FieldsNewlineFree(fields: seq<string>) {
    forall j :: 0 <= j < |fields| ==> '\n' !in fields[j]
  }

  /** A record of newline-free fields has no newline. */
  lemma RecordNoNewline(fields: seq<string>)
    requires FieldsNewlineFree(fields)
    ensures '\n' !in Record(fields)
  {
    JoinAvoids(fields, ":", '\n');
  }

  /** A block of records of newline-free fields is a paragraph starting with its first record. */
  lemma BlockShape(records: seq<seq<string>>)
    requires |records| > 0
    requires forall k :: 0 <= k < |records| ==> FieldsNewlineFree(records[k])
    ensures Paragraph(Block(records)) && StartsWith(Block(records), Record(records[0]))
    ensures Block(records)[|Block(records)| - 1] == ';'
  {
    var lines := seq(|records|, k requires 0 <= k < |records| => Record(records[k]));
    forall k | 0 <= k < |lines|
      ensures lines[k] != "" && '\n' !in lines[k]
    {
      RecordNoNewline(records[k]);
    }
    JoinLinesShape(lines);
  }

  // One lemma per expected record keeps each literal's check small.
  lemma SdaDiskFree() ensures FieldsNewlineFree(SdaRecords[1]) {}
  lemma SdaPartition1Free() ensures FieldsNewlineFree(SdaRecords[2]) {}
  lemma SdaPartition2Free() ensures FieldsNewlineFree(SdaRecords[3]) {}
  lemma SdaPartition3Free() ensures FieldsNewlineFree(SdaRecords[4]) {}
  lemma SdaPartition4Free() ensures FieldsNewlineFree(SdaRecords[5]) {}
  lemma SdaPartition5Free() ensures FieldsNewlineFree(SdaRecords[6]) {}
  lemma SdbDiskFree() ensures FieldsNewlineFree(SdbRecords[1]) {}
  lemma SdbPartition1Free() ensures FieldsNewlineFree(SdbRecords[2]) {}
  lemma SdbPartition2Free() ensures FieldsNewlineFree(SdbRecords[3]) {}
  lemma SdbPartition3Free() ensures FieldsNewlineFree(SdbRecords[4]) {}

  lemma SdaFields()
    ensures forall k :: 0 <= k < |SdaRecords| ==> FieldsNewlineFree(SdaRecords[k])
    ensures Record(SdaRecords[0]) == "BYT;"
  {
    SdaDiskFree();
    SdaPartition1Free();
    SdaPartition2Free();
    SdaPartition3Free();
    SdaPartition4Free();
    SdaPartition5Free();
    assert FieldsNewlineFree(SdaRecords[0]);
  }

  lemma SdbFields()
    ensures forall k :: 0 <= k < |SdbRecords| ==> FieldsNewlineFree(SdbRecords[k])
    ensures Record(SdbRecords[0]) == "BYT;"
  {
    SdbDiskFree();
    SdbPartition1Free();
    SdbPartition2Free();
    SdbPartition3Free();
    assert FieldsNewlineFree(SdbRecords[0]);
  }

  /** Both expected blocks are paragraphs that begin with "BYT;" and end with ';'. */
  lemma BlocksShape()
    ensures Paragraph(Block(SdaRecords)) && StartsWith(Block(SdaRecords), "BYT;")
    ensures Paragraph(Block(SdbRecords)) && StartsWith(Block(SdbRecords), "BYT;")
    ensures Block(SdaRecords)[|Block(SdaRecords)| - 1] == ';'
    ensures Block(SdbRecords)[|Block(SdbRecords)| - 1] == ';'
  {
    SdaFields();
    SdbFields();
    BlockShape(SdaRecords);
    BlockShape(SdbRecords);
  }

  /** Stripping the literal leaves exactly the layout. */
  lemma ExpectedIsLayout()
    ensures ExpectedPartitions() == Layout() + "\n"
  {
    BlocksShape();
    var a := Block(SdaRecords);
    var b := Block(SdbRecords);
    var core := Layout();
    assert core == a + Blank + b;
    assert core[0] == a[0] == 'B';
    assert core[|core| - 1] == b[|b| - 1];
    assert AllSpace("\n    ") by {
      assert forall k :: 0 <= k < 5 ==> "\n    "[k] == '\n' || "\n    "[k] == ' ';
    }
    StripSurrounded("\n", core, "\n    ");
  }

  /** Two paragraphs separated by a blank line, then a newline, split into exactly those two blocks. */
  lemma SplitTwoParagraphs(a: string, b: string)
    requires Paragraph(a) && Paragraph(b) && b != ""
    ensures Split(a + Blank + (b + "\n"), Blank) == [a, b + "\n"]
  {
    SplitParagraph(a, b + "\n");
    var c := b + "\n";
    forall i | 0 <= i < |c| - 1
      ensures !(c[i] == '\n' && c[i + 1] == '\n')
    {
      if i + 1 < |b| {
        assert c[i] == b[i] && c[i + 1] == b[i + 1];
      } else {
        assert c[i] == b[|b| - 1];
      }
    }
    SplitNoBlank(c);
  }

  /** The shape of two "BYT;" blocks separated by a blank line and closed by one newline. */
  lemma TwoBlocksShape(a: string, b: string)
    requires Paragraph(a) && Paragraph(b) && StartsWith(a, "BYT;") && StartsWith(b, "BYT;")
    ensures var e := a + Blank + b + "\n";
      && e != "" && !IsSpace(e[0])
      && |e| >= 2 && e[|e| - 1] == '\n' && e[|e| - 2] != '\n'
      && |Split(e, Blank)| == 2
      && StartsWith(Split(e, Blank)[0], "BYT;") && StartsWith(Split(e, Blank)[1], "BYT;")
  {
    var e := a + Blank + b + "\n";
    assert e == a + Blank + (b + "\n");
    assert e[0] == a[0];
    assert e[|e| - 2] == b[|b| - 1];
    SplitTwoParagraphs(a, b);
    assert (b + "\n")[..4] == b[..4];
  }

  /**
   * The expected text has no leading whitespace and ends in exactly one
   * newline; it is made of exactly two blank-line-separated blocks, each
   * beginning "BYT;".
   */
  lemma ExpectedPartitionsShape()
    ensures var e := ExpectedPartitions();
      && e != "" && !IsSpace(e[0])
      && |e| >= 2 && e[|e| - 1] == '\n' && e[|e| - 2] != '\n'
      && |Split(e, Blank)| == 2
      && StartsWith(Split(e, Blank)[0], "BYT;") && StartsWith(Split(e, Blank)[1], "BYT;")
  {
    ExpectedIsLayout();
    BlocksShape();
    TwoBlocksShape(Block(SdaRecords), Block(SdbRecords));
  }

  // ----- the check -----

  /** `"\n\n".join(stdout.split("\n\n")[:2])`: the first two blocks of the output. */
  function Truncated(stdout: string): string {
    var blocks := Split(stdout, Blank);
    Join(blocks[..if |blocks| < 2 then |blocks| else 2], Blank)
  }

  /** The verdicts of the gate: go on, or one of the ways it stops the run. */
  datatype Outcome =
    | Proceed    // layout as expected and, in verbose mode, the operator confirmed it
    | Mismatch   // a unified diff is printed and the run exits
    | Declined   // verbose mode only: the operator answered no
    | NoAnswer   // verbose mode only: the operator's input ran out before a yes or no

  /**
   * The gate against a given expected text. The unified diff of two line
   * lists is empty exactly when the lists are equal, so the diff is modelled
   * by that comparison of `splitlines(True)` results. Only in verbose mode
   * (`--safe`) is the operator asked to confirm a matching layout.
   */
  function CheckAgainst(expected: string, stdout: string, verbose: bool, responses: seq<string>): Outcome {
    var current := Truncated(stdout) + "\n";
    if SplitLines(expected) != SplitLines(current) then Mismatch
    else if !verbose then Proceed
    else match Ask(responses).answer
      case None => NoAnswer
      case Some(yes) => if yes then Proceed else Declined
  }

  /** `check_partitions`, given parted's output, the verbose flag and the operator's responses. */
  function CheckPartitions(stdout: string, verbose: bool, responses: seq<string>): Outcome {
    CheckAgainst(ExpectedPartitions(), stdout, verbose, responses)
  }

  /** Truncation keeps a prefix: the output is the kept blocks, possibly followed by a blank line and more. */
  lemma TruncatedIsPrefix(stdout: string)
    ensures var t := Truncated(stdout); stdout == t || StartsWith(stdout, t + Blank)
  {
    var blocks := Split(stdout, Blank);
    JoinSplit(stdout, Blank);
    if |blocks| > 2 {
      assert blocks == blocks[..2] + blocks[2..];
      JoinAppend(blocks[..2], blocks[2..], Blank);
      var t := Truncated(stdout);
      assert stdout == t + Blank + Join(blocks[2..], Blank);
      assert stdout[..|t + Blank|] == t + Blank;
    } else {
      assert blocks[..|blocks|] == blocks;
    }
  }

  /** With at most two blocks, nothing is cut off. */
  lemma TruncatedKeepsTwoBlocks(stdout: string)
    requires |Split(stdout, Blank)| <= 2
    ensures Truncated(stdout) == stdout
  {
    var blocks := Split(stdout, Blank);
    assert blocks[..|blocks|] == blocks;
    JoinSplit(stdout, Blank);
  }

  /** Whatever follows the second block is ignored. */
  lemma TruncatedIgnoresRest(a: string, b: string, rest: string)
    requires Paragraph(a) && Paragraph(b)
    ensures Truncated(a + Blank + b + Blank + rest) == a + Blank + b
  {
    var s := a + Blank + b + Blank + rest;
    assert s == a + Blank + (b + Blank + rest);
    SplitParagraph(a, b + Blank + rest);
    SplitParagraph(b, rest);
    var blocks := Split(s, Blank);
    assert blocks == [a, b] + Split(rest, Blank);
    assert blocks[..2] == [a, b];
    assert [a, b][1..] == [b];
    assert Join([a, b], Blank) == a + Blank + b;
  }

  /**
   * Truncation yields two given paragraphs exactly when the output is those
   * two blocks, alone or followed by a blank line and anything at all.
   */
  lemma TruncatedIsTwoBlocks(a: string, b: string, stdout: string)
    requires Paragraph(a) && Paragraph(b)
    ensures Truncated(stdout) == a + Blank + b
       <==> stdout == a + Blank + b || StartsWith(stdout, a + Blank + b + Blank)
  {
    var layout := a + Blank + b;
    if stdout == layout {
      SplitParagraph(a, b);
      SplitNoBlank(b);
      assert Split(stdout, Blank) == [a, b];
      TruncatedKeepsTwoBlocks(stdout);
    } else if StartsWith(stdout, layout + Blank) {
      var rest := stdout[|layout + Blank|..];
      assert stdout == a + Blank + b + Blank + rest;
      TruncatedIgnoresRest(a, b, rest);
    } else {
      TruncatedIsPrefix(stdout);
    }
  }

  /** Equal line lists are equal texts, as `splitlines(True)` keeps every character. */
  lemma SplitLinesInjective(x: string, y: string)
    ensures SplitLines(x) == SplitLines(y) <==> x == y
  {
    if SplitLines(x) == SplitLines(y) {
      assert Concat(SplitLines(x)) == Concat(SplitLines(y));
    }
  }

  /**
   * Against any expected text: the gate reports a mismatch exactly when the
   * kept text plus a newline differs from it. Otherwise a quiet run goes on
   * without asking, and a verbose run follows the operator's answer.
   */
  lemma CheckAgainstCases(expected: string, stdout: string, verbose: bool, responses: seq<string>)
    ensures CheckAgainst(expected, stdout, verbose, responses) == Mismatch
       <==> Truncated(stdout) + "\n" != expected
    ensures !verbose ==> (CheckAgainst(expected, stdout, verbose, responses) == Proceed
       <==> Truncated(stdout) + "\n" == expected)
    ensures verbose ==> (CheckAgainst(expected, stdout, verbose, responses) == Proceed
       <==> Truncated(stdout) + "\n" == expected && Ask(responses).answer == Some(true))
    ensures CheckAgainst(expected, stdout, verbose, responses) == Declined
       <==> verbose && Truncated(stdout) + "\n" == expected && Ask(responses).answer == Some(false)
    ensures CheckAgainst(expected, stdout, verbose, responses) == NoAnswer
       <==> verbose && Truncated(stdout) + "\n" == expected && Ask(responses).answer == None
  {
    SplitLinesInjective(expected, Truncated(stdout) + "\n");
  }

  /**
   * The run goes on exactly when the layout matches and, in verbose mode,
   * the operator says yes; a quiet run never consults the operator.
   */
  lemma CheckPartitionsCases(stdout: string, verbose: bool, responses: seq<string>)
    ensures CheckPartitions(stdout, verbose, responses) == Mismatch
       <==> Truncated(stdout) + "\n" != ExpectedPartitions()
    ensures !verbose ==> (CheckPartitions(stdout, verbose, responses) == Proceed
       <==> Truncated(stdout) + "\n" == ExpectedPartitions())
    ensures verbose ==> (CheckPartitions(stdout, verbose, responses) == Proceed
       <==> Truncated(stdout) + "\n" == ExpectedPartitions() && Ask(responses).answer == Some(true))
  {
    CheckAgainstCases(ExpectedPartitions(), stdout, verbose, responses);
  }

  /** Against two expected paragraphs plus a newline, exactly the outputs that start with those blocks pass. */
  lemma AcceptedAgainst(a: string, b: string, stdout: string, verbose: bool, responses: seq<string>)
    requires Paragraph(a) && Paragraph(b)
    ensures CheckAgainst(a + Blank + b + "\n", stdout, verbose, responses) != Mismatch
       <==> stdout == a + Blank + b || StartsWith(stdout, a + Blank + b + Blank)
  {
    var t := Truncated(stdout);
    CheckAgainstCases(a + Blank + b + "\n", stdout, verbose, responses);
    TruncatedIsTwoBlocks(a, b, stdout);
    if t + "\n" == a + Blank + b + "\n" {
      assert t == (t + "\n")[..|t|];
    }
  }

  /**
   * The layout passes exactly when parted printed the two expected blocks,
   * alone or followed by a blank line and anything at all: every later
   * block is ignored.
   */
  lemma AcceptedLayouts(stdout: string, verbose: bool, responses: seq<string>)
    ensures CheckPartitions(stdout, verbose, responses) != Mismatch
       <==> stdout == Layout() || StartsWith(stdout, Layout() + Blank)
  {
    ExpectedIsLayout();
    BlocksShape();
    AcceptedAgainst(Block(SdaRecords), Block(SdbRecords), stdout, verbose, responses);
  }
}
