/** The text the parser reads, produced from commit records: the output of
    `git log --numstat --date=short --pretty=format:"--%h--%cd--%aN--%s"
    --no-renames` (src/git.rs) for a list of commits. Parsing that text is
    the inverse of producing it, except that the parse as the program has it
    loses the last commit. */
module LogFormat {
  import opened Wrappers
  import opened Text
  import opened Dates
  import opened Commits
  import opened LogParser

  /** A header field that splits back out of `--%h--%cd--%aN--%s`: it holds
      no `--` and does not end in a dash. */
  predicate IsHeaderField(s: string) {
    !HasMarker(s) && !EndsWithDash(s)
  }

  /** A record that the log format can carry and the parser can read back:
      hash and author are header fields, the summary holds no `--`, the date
      is a calendar day at midnight UTC (`--date=short` has no time) and
      every file name is one non-empty run of non-whitespace. */
  predicate Representable(c: GitCommit) {
    && IsHeaderField(c.commit)
    && IsHeaderField(c.author)
    && !HasMarker(c.summary)
    && ValidDate(c.date.date)
    && c.date.hour == 0 && c.date.minute == 0 && c.date.second == 0
    && forall k | 0 <= k < |c.files| :: IsWord(c.files[k].filename)
  }

  /** `--%h--%cd--%aN--%s`. */
  function HeaderLine(c: GitCommit): (line: string)
    requires ValidDate(c.date.date)
  {
    JoinMarker(["", c.commit, FormatDate(c.date.date), c.author, c.summary])
  }

  /** One `--numstat` line: added, deleted and path, tab-separated. */
  function NumstatLine(f: FileChange): (line: string) {
    DecimalString(f.added) + "\t" + DecimalString(f.deleted) + "\t" + f.filename
  }

  function NumstatLines(fs: seq<FileChange>): (lines: seq<string>)
    ensures |lines| == |fs|
  {
    if fs == [] then [] else NumstatLines(fs[..|fs| - 1]) + [NumstatLine(fs[|fs| - 1])]
  }

  /** A commit's block: its header, its numstat lines, then a blank line. */
  function CommitLines(c: GitCommit): (lines: seq<string>)
    requires ValidDate(c.date.date)
  {
    [HeaderLine(c)] + NumstatLines(c.files) + [""]
  }

  function LogLines(cs: seq<GitCommit>): (lines: seq<string>)
    requires forall i | 0 <= i < |cs| :: Representable(cs[i])
  {
    if cs == [] then []
    else
      var c := cs[|cs| - 1];
      assert Representable(c);
      LogLines(cs[..|cs| - 1]) + CommitLines(c)
  }

  lemma DatesHaveNoMarker(d: Date)
    requires ValidDate(d)
    ensures IsHeaderField(FormatDate(d))
  {
    var s := FormatDate(d);
    assert forall i | 0 <= i < 10 && i != 4 && i != 7 :: IsDigit(s[i]) by {
      assert s[0..4] == Padded(d.year, 4);
      assert s[5..7] == Padded(d.month, 2);
      assert s[8..10] == Padded(d.day, 2);
      forall i | 0 <= i < 10 && i != 4 && i != 7 ensures IsDigit(s[i]) {
        if i < 4 { assert s[i] == s[0..4][i]; }
        else if i < 7 { assert s[i] == s[5..7][i - 5]; }
        else { assert s[i] == s[8..10][i - 8]; }
      }
    }
    forall i | 0 <= i < |s| - 1 ensures !(s[i] == '-' && s[i + 1] == '-') {
      if i == 4 || i == 7 { assert IsDigit(s[i + 1]); } else { assert IsDigit(s[i]); }
    }
  }

  /** The header line of a representable commit is a header, and parses
      back to the commit with no file changes. */
  lemma HeaderLineParses(c: GitCommit)
    requires Representable(c)
    ensures Classify(HeaderLine(c)) == Header
    ensures ParseHeader(HeaderLine(c)) == Success(c.(files := []))
  {
    var fields := ["", c.commit, FormatDate(c.date.date), c.author, c.summary];
    var line := HeaderLine(c);
    DatesHaveNoMarker(c.date.date);
    SplitJoin(fields);
    assert line == "" + "--" + JoinMarker(fields[1..]);
    assert line[0] == '-' && !IsWhitespace(line[0]);
    assert StartsWith(line, "--");
    ParseFormatDate(c.date.date);
  }

  /** The tokens of a numstat line are its two counts and its path. */
  lemma NumstatLineTokens(f: FileChange)
    requires IsWord(f.filename)
    ensures AsciiTokens(NumstatLine(f)) == [DecimalString(f.added), DecimalString(f.deleted), f.filename]
  {
    var a, d := DecimalString(f.added), DecimalString(f.deleted);
    assert IsWord(a) && IsWord(d) by {
      assert forall i | 0 <= i < |a| :: IsDigit(a[i]);
      assert forall i | 0 <= i < |d| :: IsDigit(d[i]);
    }
    ThreeTokens(a, '\t', d, '\t', f.filename);
    assert NumstatLine(f) == a + ['\t'] + d + ['\t'] + f.filename;
  }

  /** A numstat line is a numstat line, and parses back to its change. */
  lemma NumstatLineParses(f: FileChange)
    requires IsWord(f.filename)
    ensures Classify(NumstatLine(f)) == Numstat
    ensures ParseNumstat(NumstatLine(f)) == Success(f)
  {
    var line := NumstatLine(f);
    NumstatLineTokens(f);
    ParseDecimalString(f.added);
    ParseDecimalString(f.deleted);
    var a := DecimalString(f.added);
    assert line[0] == a[0] && IsDigit(line[0]);
    assert !IsBlank(line);
  }

  /** git prints a path holding a space unquoted: the numstat line of such
      a change parses back to a change whose file name is only the path's
      first word. */
  lemma PathWithSpaceCut(added: U64, deleted: U64, first: string, second: string)
    requires IsWord(first) && IsWord(second)
    ensures var f := FileChange(added, deleted, first + " " + second);
      ParseNumstat(NumstatLine(f)) == Success(FileChange(added, deleted, first))
  {
    var a, d := DecimalString(added), DecimalString(deleted);
    var words := [a, d, first, second];
    var seps := ["", "\t", "\t", " ", ""];
    assert Separates(words, seps) by {
      assert forall i | 0 <= i < |a| :: IsDigit(a[i]);
      assert forall i | 0 <= i < |d| :: IsDigit(d[i]);
    }
    assert Interleave(words, seps) == NumstatLine(FileChange(added, deleted, first + " " + second)) by {
      assert words[1..] == [d, first, second] && seps[1..] == ["\t", "\t", " ", ""];
      assert words[2..] == [first, second] && seps[2..] == ["\t", " ", ""];
      assert words[3..] == [second] && seps[3..] == [" ", ""];
      assert Interleave(words[3..], seps[3..]) == " " + second;
      assert Interleave(words[2..], seps[2..]) == "\t" + first + " " + second;
      assert Interleave(words[1..], seps[1..]) == "\t" + d + "\t" + first + " " + second;
    }
    NumstatOfLayout(words, seps);
    ParseDecimalString(added);
    ParseDecimalString(deleted);
  }

  /** While a commit is in progress, a numstat line appends its change. */
  lemma NumstatLineStep(st: ParserState, f: FileChange)
    requires st.current.Some? && IsWord(f.filename)
    ensures Step(st, NumstatLine(f)) == Success(st.(fileList := st.fileList + [f]))
  {
    NumstatLineParses(f);
  }

  /** While a commit is in progress, its numstat lines append exactly their
      changes, in order, to the accumulator. */
  lemma {:induction false} NumstatLinesAccumulate(st: ParserState, fs: seq<FileChange>)
    requires st.current.Some?
    requires forall k | 0 <= k < |fs| :: IsWord(fs[k].filename)
    ensures RunFrom(st, NumstatLines(fs)) == Success(st.(fileList := st.fileList + fs))
    decreases |fs|
  {
    if fs == [] {
      assert st.fileList + fs == st.fileList;
    } else {
      var init := fs[..|fs| - 1];
      var f := fs[|fs| - 1];
      NumstatLinesAccumulate(st, init);
      var lines := NumstatLines(fs);
      var mid := st.(fileList := st.fileList + init);
      assert lines[..|lines| - 1] == NumstatLines(init);
      assert lines[|lines| - 1] == NumstatLine(f);
      NumstatLineStep(mid, f);
      assert RunFrom(st, lines) == Step(mid, NumstatLine(f));
      assert st.fileList + init + [f] == st.fileList + fs;
    }
  }

  lemma InitThenLast<T>(s: seq<T>)
    requires |s| > 0
    ensures s[..|s| - 1] + [s[|s| - 1]] == s
  {
  }

  /** One commit's block, from any state: the commit in progress (if any)
      is emitted, and the block's commit ends up in progress with its
      changes accumulated. */
  lemma CommitLinesRun(before: ParserState, c: GitCommit)
    requires Representable(c)
    requires before.current.None? ==> before.fileList == []
    ensures RunFrom(before, CommitLines(c)) ==
      Success(ParserState(Flush(before), Some(c.(files := [])), c.files))
  {
    HeaderLineParses(c);
    var header := [HeaderLine(c)];
    var body := NumstatLines(c.files);
    assert CommitLines(c) == header + body + [""];
    RunAppend(before, header + body, [""]);
    RunAppend(before, header, body);
    assert header[..0] == [];
    var afterHeader := ParserState(Flush(before), Some(c.(files := [])), []);
    assert Step(before, HeaderLine(c)) == Success(afterHeader);
    assert RunFrom(before, header) == Success(afterHeader);
    NumstatLinesAccumulate(afterHeader, c.files);
    assert [] + c.files == c.files;
    var done := ParserState(Flush(before), Some(c.(files := [])), c.files);
    assert RunFrom(before, header + body) == Success(done);
    assert [""][..0] == [];
    assert IsBlank("");
    assert RunFrom(done, [""]) == Success(done);
  }

  /** After the blocks of a non-empty list of commits, all but the last are
      emitted and the last is in progress with its changes accumulated. */
  lemma {:induction false} LogLinesState(cs: seq<GitCommit>)
    requires |cs| >= 1
    requires forall i | 0 <= i < |cs| :: Representable(cs[i])
    ensures RunFrom(Initial, LogLines(cs)) ==
      Success(ParserState(cs[..|cs| - 1], Some(cs[|cs| - 1].(files := [])), cs[|cs| - 1].files))
    ensures Flush(RunFrom(Initial, LogLines(cs)).value) == cs
    decreases |cs|
  {
    var init := cs[..|cs| - 1];
    var c := cs[|cs| - 1];
    assert c.(files := []).(files := c.files) == c;
    InitThenLast(cs);
    assert LogLines(cs) == LogLines(init) + CommitLines(c);
    if |cs| == 1 {
      assert init == [];
      RunAppend(Initial, [], CommitLines(c));
      assert [] + CommitLines(c) == CommitLines(c);
      CommitLinesRun(Initial, c);
    } else {
      LogLinesState(init);
      var last := init[|init| - 1];
      var before := ParserState(init[..|init| - 1], Some(last.(files := [])), last.files);
      assert Flush(before) == init by {
        assert last.(files := []).(files := last.files) == last;
        assert init[..|init| - 1] + [last] == init;
      }
      RunAppend(Initial, LogLines(init), CommitLines(c));
      CommitLinesRun(before, c);
    }
  }

  /** FINDING, as written: the program drops the last commit of every log
      it loads; a log of n >= 1 commits yields only the first n - 1. */
  lemma LastCommitDropped(cs: seq<GitCommit>)
    requires |cs| >= 1
    requires forall i | 0 <= i < |cs| :: Representable(cs[i])
    ensures Parsed(LogLines(cs)) == Success(cs[..|cs| - 1])
    ensures Parsed(LogLines(cs)) != Success(cs)
  {
    LogLinesState(cs);
    assert |cs[..|cs| - 1]| != |cs|;
  }

  /** Corrected: with the end-of-stream flush, parsing the log of any list of
      representable commits gives that list back, the last one included. */
  lemma FlushedRoundTrip(cs: seq<GitCommit>)
    requires forall i | 0 <= i < |cs| :: Representable(cs[i])
    ensures ParsedFlushed(LogLines(cs)) == Success(cs)
  {
    if cs == [] {
      assert LogLines(cs) == [];
      assert RunFrom(Initial, []) == Success(Initial);
      assert Flush(Initial) == [];
    } else {
      LogLinesState(cs);
    }
  }

  /** A commit touching no file is kept, with an empty list of changes. */
  lemma EmptyCommitKept(c: GitCommit, next: GitCommit)
    requires Representable(c) && Representable(next) && c.files == []
    ensures ParsedFlushed(LogLines([c])) == Success([c])
    ensures Parsed(LogLines([c, next])) == Success([c])
  {
    FlushedRoundTrip([c]);
    LastCommitDropped([c, next]);
    assert [c, next][..1] == [c];
  }
}
