/** The `Load` command's line-driven parser (src/main.rs): it folds the lines
    of `git log --numstat --date=short --pretty=format:"--%h--%cd--%aN--%s"
    --no-renames` into `GitCommit` records. Its state is the list of commits
    emitted so far, the commit in progress (if any) and the file changes
    accumulated for it. The program's panics (an index past the end of a
    split line, `unwrap` on a bad date) are `Failure` results here. */
module LogParser {
  import opened Wrappers
  import opened Text
  import opened Dates
  import opened Commits

  /** Why the program panics on a line. */
  datatype ParseError =
    | MissingHeaderField(line: string)   // `parts[1..4]` past the end of a header
    | InvalidDate(field: string)         // `unwrap` on a date that does not parse
    | MissingNumstatField(line: string)  // `parts[0..2]` past the end of a numstat line

  datatype LineKind = Blank | Header | Numstat

  /** Blank when trimming leaves nothing; otherwise a header when it starts
      with the `--` marker; otherwise a numstat line. */
  function Classify(line: string): (k: LineKind)
    ensures k == Blank <==> IsBlank(line)
    ensures k == Header <==> !IsBlank(line) && |line| >= 2 && line[0] == '-' && line[1] == '-'
  {
    assert StartsWith(line, "--") <==> |line| >= 2 && line[0] == '-' && line[1] == '-' by {
      if |line| >= 2 && line[0] == '-' && line[1] == '-' { assert line[..2] == "--"; }
    }
    if IsBlank(line) then Blank
    else if StartsWith(line, "--") then Header
    else Numstat
  }

  /** The marker is looked for before trimming: an indented header is a
      numstat line, while a line of whitespace only is blank. */
  lemma ClassifyEdges()
    ensures Classify("--") == Header
    ensures Classify(" --abc--2024-01-01--Ann--init") == Numstat
    ensures Classify(" \t\r") == Blank
    ensures Classify("-\t-\tbin.png") == Numstat
  {
    assert !IsBlank("--") by { assert !IsWhitespace("--"[0]); }
    assert !IsBlank(" --abc--2024-01-01--Ann--init") by {
      assert !IsWhitespace(" --abc--2024-01-01--Ann--init"[1]);
    }
    assert !IsBlank("-\t-\tbin.png") by { assert !IsWhitespace("-\t-\tbin.png"[0]); }
  }

  lemma HeaderSplitsAfterMarker(line: string)
    requires StartsWith(line, "--")
    ensures SplitMarker(line) == [""] + SplitMarker(line[2..])
  {
    assert line[0] == "--"[0] && line[1] == "--"[1];
  }

  /** The commit a header line starts: `parts[1]` to `parts[4]` of splitting
      the line on `--` are hash, date, author and summary (so a summary that
      itself holds `--` is cut there). The fields are read in the program's
      order, so a bad date is reported before a missing author or summary. */
  function ParseHeader(line: string): (r: Result<GitCommit, ParseError>)
    ensures var parts := SplitMarker(line);
      r.Success? <==> |parts| >= 5 && IsoDateToDateTime(parts[2]).Some?
    ensures var parts := SplitMarker(line);
      r.Success? ==>
        && r.value.commit == parts[1]
        && ValidDate(r.value.date.date)
        && FormatDate(r.value.date.date) == parts[2]
        && r.value.date.hour == 0 && r.value.date.minute == 0 && r.value.date.second == 0
        && r.value.author == parts[3]
        && r.value.summary == parts[4]
        && r.value.files == []
    ensures var parts := SplitMarker(line);
      |parts| >= 3 && IsoDateToDateTime(parts[2]).None? ==> r == Failure(InvalidDate(parts[2]))
  {
    var parts := SplitMarker(line);
    if |parts| < 3 then Failure(MissingHeaderField(line))
    else
      match IsoDateToDateTime(parts[2])
      case None => Failure(InvalidDate(parts[2]))
      case Some(date) =>
        if |parts| < 5 then Failure(MissingHeaderField(line))
        else Success(GitCommit(parts[1], date, parts[3], parts[4], []))
  }

  /** The file change a numstat line records: tokens 0 and 1 are the added
      and deleted counts (0 when they are not a `u64`, as for git's `-` on
      binary files) and token 2 is the file name; tokens past the third are
      ignored. Fewer than three tokens is a failure. */
  function ParseNumstat(line: string): (r: Result<FileChange, ParseError>)
    ensures var tokens := AsciiTokens(line);
      r.Success? <==> |tokens| >= 3
    ensures var tokens := AsciiTokens(line);
      r.Success? ==>
        && (ParseU64(tokens[0]).Some? ==> r.value.added == ParseU64(tokens[0]).value)
        && (ParseU64(tokens[0]).None? ==> r.value.added == 0)
        && (ParseU64(tokens[1]).Some? ==> r.value.deleted == ParseU64(tokens[1]).value)
        && (ParseU64(tokens[1]).None? ==> r.value.deleted == 0)
        && r.value.filename == tokens[2]
  {
    var parts := AsciiTokens(line);
    if |parts| < 3 then Failure(MissingNumstatField(line))
    else Success(FileChange(ParseU64OrZero(parts[0]), ParseU64OrZero(parts[1]), parts[2]))
  }

  /** Whatever whitespace surrounds the fields, a numstat line's change is
      read from its first three words; any further words are dropped. */
  lemma NumstatOfLayout(words: seq<string>, seps: seq<string>)
    requires Separates(words, seps) && |words| >= 3
    ensures ParseNumstat(Interleave(words, seps))
      == Success(FileChange(ParseU64OrZero(words[0]), ParseU64OrZero(words[1]), words[2]))
  {
    TokensOfInterleaving(words, seps);
  }

  /** The parser's three variables: `commit_list`, `current_commit` and
      `file_list`. */
  datatype ParserState = ParserState(
    commitList: seq<GitCommit>,
    current: Option<GitCommit>,
    fileList: seq<FileChange>)

  const Initial: ParserState := ParserState([], None, [])

  /** One pass of the loop body on one line. */
  function Step(st: ParserState, line: string): (r: Result<ParserState, ParseError>)
    ensures r.Failure? <==>
      || (Classify(line) == Header && ParseHeader(line).Failure?)
      || (Classify(line) == Numstat && st.current.Some? && ParseNumstat(line).Failure?)
    ensures r.Success? ==> st.commitList <= r.value.commitList
    ensures r.Success? ==> |r.value.commitList| <= |st.commitList| + 1
    ensures r.Success? && Classify(line) != Header ==>
      r.value.commitList == st.commitList && r.value.current == st.current
  {
    match Classify(line)
    case Blank => Success(st)
    case Header =>
      (match ParseHeader(line)
       case Failure(e) => Failure(e)
       case Success(next) =>
         if st.current.Some? then
           Success(ParserState(st.commitList + [st.current.value.(files := st.fileList)], Some(next), []))
         else
           Success(ParserState(st.commitList, Some(next), st.fileList)))
    case Numstat =>
      if st.current.None? then Success(st)
      else
        match ParseNumstat(line)
        case Failure(e) => Failure(e)
        case Success(change) => Success(st.(fileList := st.fileList + [change]))
  }

  /** The loop over `lines` from state `st`; the first failing line ends it. */
  function RunFrom(st: ParserState, lines: seq<string>): (r: Result<ParserState, ParseError>)
    ensures r.Success? ==> st.commitList <= r.value.commitList
    ensures r.Success? ==> |r.value.commitList| <= |st.commitList| + |lines|
    decreases |lines|
  {
    if lines == [] then Success(st)
    else
      match RunFrom(st, lines[..|lines| - 1])
      case Failure(e) => Failure(e)
      case Success(s) => Step(s, lines[|lines| - 1])
  }

  /** What the `Load` arm leaves in `commit_list` after its loop: the
      program pushes nothing once the loop ends. */
  function Parsed(lines: seq<string>): (r: Result<seq<GitCommit>, ParseError>) {
    match RunFrom(Initial, lines)
    case Failure(e) => Failure(e)
    case Success(st) => Success(st.commitList)
  }

  /** The final state with the commit still in progress pushed as well. */
  function Flush(st: ParserState): (commits: seq<GitCommit>) {
    match st.current
    case None => st.commitList
    case Some(commit) => st.commitList + [commit.(files := st.fileList)]
  }

  /** The parse with the end-of-stream flush the program leaves out. */
  function ParsedFlushed(lines: seq<string>): (r: Result<seq<GitCommit>, ParseError>) {
    match RunFrom(Initial, lines)
    case Failure(e) => Failure(e)
    case Success(st) => Success(Flush(st))
  }

  // ---------------------------------------------------------------------
  // The loop itself
  // ---------------------------------------------------------------------

  lemma {:induction false} FailureSticks(st: ParserState, lines: seq<string>, k: nat)
    requires k <= |lines|
    requires RunFrom(st, lines[..k]).Failure?
    ensures RunFrom(st, lines) == RunFrom(st, lines[..k])
    decreases |lines|
  {
    if k < |lines| {
      var init := lines[..|lines| - 1];
      assert init[..k] == lines[..k];
      FailureSticks(st, init, k);
    } else {
      assert lines[..k] == lines;
    }
  }

  /** The body of the `for` loop on one line: it updates `commit_list`,
      `current_commit` and `file_list`, or panics. */
  method ScanLine(commitList0: seq<GitCommit>, current0: Option<GitCommit>, fileList0: seq<FileChange>, line: string)
    returns (r: Result<ParserState, ParseError>)
    ensures r == Step(ParserState(commitList0, current0, fileList0), line)
  {
    var commitList, current, fileList := commitList0, current0, fileList0;
    if !IsBlank(line) {
      if StartsWith(line, "--") {
        if current.Some? {
          var commit := current.value.(files := fileList);
          commitList := commitList + [commit];
          fileList := [];
        }
        var parts := SplitMarker(line);
        if |parts| < 3 {
          return Failure(MissingHeaderField(line));
        }
        var date := IsoDateToDateTime(parts[2]);
        if date.None? {
          return Failure(InvalidDate(parts[2]));
        }
        if |parts| < 5 {
          return Failure(MissingHeaderField(line));
        }
        current := Some(GitCommit(parts[1], date.value, parts[3], parts[4], []));
      } else if current.Some? {
        var parts := AsciiTokens(line);
        if |parts| < 3 {
          return Failure(MissingNumstatField(line));
        }
        var change := FileChange(ParseU64OrZero(parts[0]), ParseU64OrZero(parts[1]), parts[2]);
        fileList := fileList + [change];
      }
    }
    r := Success(ParserState(commitList, current, fileList));
  }

  /** The `for line in output.lines()` loop of the `Load` arm, with
      `commit_list`, `current_commit` and `file_list` as its variables; the
      first panic ends it. */
  method ScanLines(lines: seq<string>) returns (r: Result<ParserState, ParseError>)
    ensures r == RunFrom(Initial, lines)
  {
    var commitList: seq<GitCommit> := [];
    var current: Option<GitCommit> := None;
    var fileList: seq<FileChange> := [];
    var i := 0;
    while i < |lines|
      invariant 0 <= i <= |lines|
      invariant RunFrom(Initial, lines[..i]) == Success(ParserState(commitList, current, fileList))
    {
      assert lines[..i + 1][..i] == lines[..i];
      var next := ScanLine(commitList, current, fileList, lines[i]);
      if next.Failure? {
        r := next;
        FailureSticks(Initial, lines, i + 1);
        return;
      }
      commitList, current, fileList := next.value.commitList, next.value.current, next.value.fileList;
      i := i + 1;
    }
    assert lines[..i] == lines;
    r := Success(ParserState(commitList, current, fileList));
  }

  // ---------------------------------------------------------------------
  // What the parse promises
  // ---------------------------------------------------------------------

  /** The hash a line contributes: piece 1 of a header, nothing otherwise. */
  function LineHash(line: string): (h: seq<string>)
    ensures |h| <= 1
  {
    if Classify(line) == Header then HeaderSplitsAfterMarker(line); [SplitMarker(line)[1]] else []
  }

  /** The hashes of the header lines, in input order. */
  function HeaderHashes(lines: seq<string>): (hashes: seq<string>) {
    if lines == [] then [] else HeaderHashes(lines[..|lines| - 1]) + LineHash(lines[|lines| - 1])
  }

  function CurrentHash(st: ParserState): (hash: seq<string>) {
    if st.current.Some? then [st.current.value.commit] else []
  }

  lemma HashesAppend(cs: seq<GitCommit>, c: GitCommit)
    ensures Hashes(cs + [c]) == Hashes(cs) + [c.commit]
  {
    assert (cs + [c])[..|cs|] == cs;
  }

  /** One pass of the loop body adds the line's hash, if any, after the
      hashes already emitted or in progress. */
  lemma StepKeepsHeaderOrder(s: ParserState, line: string)
    requires Step(s, line).Success?
    requires s.current.None? ==> s.commitList == [] && s.fileList == []
    ensures var st := Step(s, line).value;
      Hashes(st.commitList) + CurrentHash(st) == Hashes(s.commitList) + CurrentHash(s) + LineHash(line)
    ensures var st := Step(s, line).value;
      st.current.None? ==> st.commitList == [] && st.fileList == []
  {
    var st := Step(s, line).value;
    match Classify(line)
    case Blank =>
      assert st == s;
    case Numstat =>
      assert st.commitList == s.commitList && st.current == s.current;
    case Header =>
      var next := ParseHeader(line).value;
      HeaderSplitsAfterMarker(line);
      assert LineHash(line) == [next.commit];
      if s.current.Some? {
        HashesAppend(s.commitList, s.current.value.(files := s.fileList));
      }
  }

  /** The state the loop keeps: every header seen so far has produced
      exactly one commit, emitted or in progress, in header order; before
      any header nothing is emitted or accumulated. */
  lemma {:induction false} RunKeepsHeaderOrder(lines: seq<string>)
    requires RunFrom(Initial, lines).Success?
    ensures var st := RunFrom(Initial, lines).value;
      Hashes(st.commitList) + CurrentHash(st) == HeaderHashes(lines)
    ensures var st := RunFrom(Initial, lines).value;
      st.current.None? ==> st.commitList == [] && st.fileList == []
  {
    if lines != [] {
      var init := lines[..|lines| - 1];
      RunKeepsHeaderOrder(init);
      StepKeepsHeaderOrder(RunFrom(Initial, init).value, lines[|lines| - 1]);
    }
  }

  /** With h header lines the program loads h - 1 commits (none when there
      is no header), in header order: the commit of the last header is never
      pushed. */
  method ParseLog(lines: seq<string>) returns (r: Result<seq<GitCommit>, ParseError>)
    ensures r == Parsed(lines)
    ensures r.Success? ==>
      var hs := HeaderHashes(lines);
      Hashes(r.value) == if hs == [] then [] else hs[..|hs| - 1]
  {
    var scanned := ScanLines(lines);
    match scanned
    case Failure(e) =>
      r := Failure(e);
    case Success(st) =>
      RunKeepsHeaderOrder(lines);
      var hs := HeaderHashes(lines);
      assert hs != [] ==> hs[..|hs| - 1] == Hashes(st.commitList);
      r := Success(st.commitList);
  }

  /** With the flush, every header line yields one commit, in order. */
  method ParseLogFlushed(lines: seq<string>) returns (r: Result<seq<GitCommit>, ParseError>)
    ensures r == ParsedFlushed(lines)
    ensures r.Success? ==> Hashes(r.value) == HeaderHashes(lines)
  {
    var scanned := ScanLines(lines);
    match scanned
    case Failure(e) =>
      r := Failure(e);
    case Success(st) =>
      RunKeepsHeaderOrder(lines);
      var commits := st.commitList;
      if st.current.Some? {
        var last := st.current.value.(files := st.fileList);
        HashesAppend(commits, last);
        commits := commits + [last];
      }
      r := Success(commits);
  }

  // ---------------------------------------------------------------------
  // Line-level rules
  // ---------------------------------------------------------------------

  /** A blank or whitespace-only line changes nothing. */
  lemma BlankLineIsNoOp(st: ParserState, line: string)
    requires IsBlank(line)
    ensures Step(st, line) == Success(st)
  {
  }

  /** On a header line the commit in progress is emitted with exactly the
      file changes accumulated since its own header (possibly none), the new
      header's commit takes its place and the accumulator is emptied. */
  lemma HeaderEmitsCurrent(st: ParserState, line: string)
    requires Classify(line) == Header && ParseHeader(line).Success?
    ensures Step(st, line).Success?
    ensures st.current.Some? ==>
      Step(st, line).value.commitList == st.commitList + [st.current.value.(files := st.fileList)]
    ensures st.current.None? ==> Step(st, line).value.commitList == st.commitList
    ensures Step(st, line).value.current == Some(ParseHeader(line).value)
    ensures st.current.Some? ==> Step(st, line).value.fileList == []
  {
  }

  /** A non-header line never emits or replaces a commit: a numstat line
      before any header is dropped, one after a header appends its change. */
  lemma NumstatExtendsCurrent(st: ParserState, line: string)
    requires Classify(line) == Numstat
    ensures st.current.None? ==> Step(st, line) == Success(st)
    ensures st.current.Some? && ParseNumstat(line).Success? ==>
      Step(st, line) == Success(st.(fileList := st.fileList + [ParseNumstat(line).value]))
    ensures st.current.Some? && ParseNumstat(line).Failure? ==> Step(st, line).Failure?
  {
  }

  /** Running over a concatenation is running over each part in turn. */
  lemma {:induction false} RunAppend(st: ParserState, a: seq<string>, b: seq<string>)
    ensures RunFrom(st, a + b) ==
      match RunFrom(st, a)
      case Failure(e) => Failure(e)
      case Success(s) => RunFrom(s, b)
    decreases |b|
  {
    if b == [] {
      assert a + b == a;
    } else {
      var b' := b[..|b| - 1];
      assert (a + b)[..|a + b| - 1] == a + b';
      RunAppend(st, a, b');
    }
  }

  function NonBlankLines(lines: seq<string>): (r: seq<string>)
    ensures forall i | 0 <= i < |r| :: !IsBlank(r[i])
  {
    if lines == [] then []
    else
      NonBlankLines(lines[..|lines| - 1])
        + if IsBlank(lines[|lines| - 1]) then [] else [lines[|lines| - 1]]
  }

  /** Blank lines anywhere in the input do not change the outcome. */
  lemma {:induction false} BlankLinesIgnored(st: ParserState, lines: seq<string>)
    ensures RunFrom(st, lines) == RunFrom(st, NonBlankLines(lines))
    decreases |lines|
  {
    if lines != [] {
      var init := lines[..|lines| - 1];
      var line := lines[|lines| - 1];
      BlankLinesIgnored(st, init);
      RunAppend(st, NonBlankLines(init), if IsBlank(line) then [] else [line]);
      if IsBlank(line) {
        assert NonBlankLines(init) + [] == NonBlankLines(init);
      } else {
        assert RunFrom(st, [line][..0]) == Success(st);
      }
      var rest := if IsBlank(line) then [] else [line];
      match RunFrom(st, NonBlankLines(init))
      case Failure(e) =>
      case Success(s) =>
        assert [line][..0] == [];
    }
  }

  /** Lines before the first header are noise: as long as none of them is
      a header, they leave the initial state as it is. */
  lemma {:induction false} LeadingLinesIgnored(noise: seq<string>, rest: seq<string>)
    requires forall i | 0 <= i < |noise| :: Classify(noise[i]) != Header
    ensures RunFrom(Initial, noise + rest) == RunFrom(Initial, rest)
  {
    NoHeaderNoChange(noise);
    RunAppend(Initial, noise, rest);
  }

  lemma {:induction false} NoHeaderNoChange(noise: seq<string>)
    requires forall i | 0 <= i < |noise| :: Classify(noise[i]) != Header
    ensures RunFrom(Initial, noise) == Success(Initial)
    decreases |noise|
  {
    if noise != [] {
      NoHeaderNoChange(noise[..|noise| - 1]);
    }
  }
}
