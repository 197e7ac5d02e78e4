/** The aggregation pipelines the four report queries send to the store
    (src/db.rs). A stage is a typed value standing for one BSON stage
    document; the builders assemble the ordered list of stages from the
    optional since-date, the optional path prefix and the target file. How
    the store runs a pipeline is not modelled. */
module Pipeline {
  import opened Wrappers
  import opened Dates

  /** The `"date"` clause of a `$match` on a file name. `DateAfter(None)` is
      `{"$gt": null}`: a comparison with a null bound. */
  datatype DateClause = NoDateClause | DateAfter(bound: Option<DateTime>)

  datatype Accumulator =
    | Average(name: string, field: string)    // name: {"$avg": field}
    | CountAll(name: string)                  // name: {"$count": {}}

  datatype Stage =
    | MatchSince(since: DateTime)                         // {"$match": {"date": {"$gt": since}}}
    | MatchFile(date: DateClause, filename: string)       // {"$match": {["date": ...,] "files.filename": filename}}
    | MatchFileNot(filename: string)                      // {"$match": {"files.filename": {"$ne": filename}}}
    | MatchFileRegex(pattern: string)                     // {"$match": {"files.filename": {"$regex": pattern}}}
    | Unwind(path: string)                                // {"$unwind": {"path": path}}
    | SortByCount(expr: string)                           // {"$sortByCount": expr}
    | AddSizeField(field: string, sizeOf: string)         // {"$addFields": {field: {"$size": sizeOf}}}
    | Group(key: string, accumulators: seq<Accumulator>)  // {"$group": {"_id": key, ...}}
    | Sort(field: string, direction: int)                 // {"$sort": {field: direction}}
    | Count(field: string)                                // {"$count": field}
    | Facet(branches: seq<Branch>)                        // {"$facet": {name: [stages], ...}}

  datatype Branch = Branch(name: string, stages: seq<Stage>)

  const FILES := "$files"
  const FILENAME := "$files.filename"
  const AUTHOR := "$author"

  // ---------------------------------------------------------------------
  // Properties of pipelines
  // ---------------------------------------------------------------------

  /** A stage that looks at one file change at a time, so it needs the
      `files` array unwound before it. */
  predicate PerFile(s: Stage) {
    s.MatchFileNot? || s.MatchFileRegex? || s == SortByCount(FILENAME)
  }

  /** Every per-file stage comes after an unwind of `files`. */
  predicate UnwoundBeforePerFile(p: seq<Stage>) {
    forall j | 0 <= j < |p| && PerFile(p[j]) ::
      exists i | 0 <= i < j :: p[i] == Unwind(FILES)
  }

  /** A `date` predicate of the pipeline compares with a null bound. */
  predicate ComparesWithNull(s: Stage) {
    s.MatchFile? && s.date == DateAfter(None)
  }

  predicate NoNullComparison(p: seq<Stage>) {
    forall i | 0 <= i < |p| :: !ComparesWithNull(p[i])
  }

  // ---------------------------------------------------------------------
  // create_filter and file_activity
  // ---------------------------------------------------------------------

  /** The shared filter: the date cut-off when a since-date is given, the
      unwind of `files`, then the anchored prefix match when a prefix is
      given. An absent option leaves its stage out altogether. */
  function Filter(since: Option<DateTime>, prefix: Option<string>): (p: seq<Stage>)
    ensures |p| == 1 + (if since.Some? then 1 else 0) + (if prefix.Some? then 1 else 0)
    ensures since.Some? <==> exists i | 0 <= i < |p| :: p[i].MatchSince?
    ensures since.Some? ==> p[0] == MatchSince(since.value)
    ensures prefix.Some? <==> exists i | 0 <= i < |p| :: p[i].MatchFileRegex?
    ensures prefix.Some? ==> p[|p| - 1] == MatchFileRegex("^" + prefix.value)
    ensures p[if since.Some? then 1 else 0] == Unwind(FILES)
    ensures forall i | 0 <= i < |p| :: p[i] == Unwind(FILES) <==> i == (if since.Some? then 1 else 0)
  {
    var dated := if since.Some? then [MatchSince(since.value)] else [];
    var prefixed := if prefix.Some? then [MatchFileRegex("^" + prefix.value)] else [];
    var p := dated + [Unwind(FILES)] + prefixed;
    assert forall i | 0 <= i < |p| :: p[i].MatchSince? <==> since.Some? && i == 0;
    assert forall i | 0 <= i < |p| :: p[i].MatchFileRegex? <==> prefix.Some? && i == |p| - 1;
    assert since.Some? ==> p[0].MatchSince?;
    assert prefix.Some? ==> p[|p| - 1].MatchFileRegex?;
    p
  }

  /** `create_filter`, which pushes the stages one by one. */
  method CreateFilter(since: Option<DateTime>, prefix: Option<string>) returns (filter: seq<Stage>)
    ensures filter == Filter(since, prefix)
  {
    filter := [];
    if since.Some? {
      filter := filter + [MatchSince(since.value)];
    }
    filter := filter + [Unwind(FILES)];
    if prefix.Some? {
      var reMatch := "^" + prefix.value;
      filter := filter + [MatchFileRegex(reMatch)];
    }
  }

  /** `file_activity`: the shared filter followed by a count of changes per
      file name, ranked. */
  method FileActivity(since: Option<DateTime>, prefix: Option<string>) returns (pipeline: seq<Stage>)
    ensures pipeline == Filter(since, prefix) + [SortByCount(FILENAME)]
    ensures UnwoundBeforePerFile(pipeline) && NoNullComparison(pipeline)
  {
    pipeline := CreateFilter(since, prefix);
    pipeline := pipeline + [SortByCount(FILENAME)];
    ActivityWellFormed(since, prefix);
  }

  lemma ActivityWellFormed(since: Option<DateTime>, prefix: Option<string>)
    ensures var p := Filter(since, prefix) + [SortByCount(FILENAME)];
      UnwoundBeforePerFile(p) && NoNullComparison(p)
  {
    var p := Filter(since, prefix) + [SortByCount(FILENAME)];
    var u := if since.Some? then 1 else 0;
    assert p[u] == Unwind(FILES);
    forall j | 0 <= j < |p| && PerFile(p[j]) ensures exists i | 0 <= i < j :: p[i] == Unwind(FILES) {
      assert j > u;
    }
  }

  /** Leaving out the since-date gives the same pipeline as the one with a
      date, minus its first stage: no always-true filter takes its place. */
  lemma SinceOmittedNotNeutralised(d: DateTime, prefix: Option<string>)
    ensures Filter(Some(d), prefix) == [MatchSince(d)] + Filter(None, prefix)
  {
  }

  /** The prefix is matched as the regular expression `^prefix`, the prefix
      text itself unescaped, so it is anchored at the start of the name. */
  lemma PrefixAnchored(since: Option<DateTime>, prefix: string)
    ensures var p := Filter(since, Some(prefix));
      p[|p| - 1].MatchFileRegex? && p[|p| - 1].pattern[0] == '^'
      && p[|p| - 1].pattern[1..] == prefix
  {
  }

  // ---------------------------------------------------------------------
  // file_per_commit, file_coupling, file_ownership
  // ---------------------------------------------------------------------

  /** `file_per_commit`: count each commit's file changes, average that
      count per author together with the author's commit count, and rank
      authors by the average, highest first. */
  function FilePerCommit(): (p: seq<Stage>)
    ensures |p| == 3
    ensures p[0].AddSizeField? && p[0].sizeOf == FILES
    ensures p[1].Group? && p[1].key == AUTHOR
    ensures Average("avg_files", "$" + p[0].field) in p[1].accumulators
    ensures CountAll("n_commits") in p[1].accumulators
    ensures p[2].Sort? && p[2].direction < 0
    ensures exists a | a in p[1].accumulators :: a.Average? && a.name == p[2].field
  {
    assert "$" + "file_count" == "$file_count";
    [ AddSizeField("file_count", FILES),
      Group(AUTHOR, [Average("avg_files", "$file_count"), CountAll("n_commits")]),
      Sort("avg_files", -1) ]
  }

  /** The facet of `file_coupling`: the number of matching commits, and the
      other files those commits touch, ranked by how often. */
  function CouplingFacet(filename: string): (s: Stage)
    ensures s.Facet? && |s.branches| == 2
    ensures s.branches[0] == Branch("total_commits", [Count("commit")])
    ensures s.branches[1].name == "seen_with"
    ensures UnwoundBeforePerFile(s.branches[1].stages)
    ensures MatchFileNot(filename) in s.branches[1].stages
    ensures s.branches[1].stages[|s.branches[1].stages| - 1] == SortByCount(FILENAME)
  {
    var seenWith := [Unwind(FILES), MatchFileNot(filename), SortByCount(FILENAME)];
    assert seenWith[0] == Unwind(FILES);
    Facet([Branch("total_commits", [Count("commit")]), Branch("seen_with", seenWith)])
  }

  /** `file_coupling`: commits touching the file (after the since-date when
      one is given), then the facet. */
  function FileCoupling(filename: string, since: Option<DateTime>): (p: seq<Stage>)
    ensures |p| == 2
    ensures p[0].MatchFile? && p[0].filename == filename
    ensures p[0].date.DateAfter? <==> since.Some?
    ensures since.Some? ==> p[0].date == DateAfter(since)
    ensures p[1] == CouplingFacet(filename)
    ensures NoNullComparison(p)
  {
    var filter := if since.Some? then MatchFile(DateAfter(since), filename) else MatchFile(NoDateClause, filename);
    [filter, CouplingFacet(filename)]
  }

  /** `file_ownership` as written: the match always carries the date clause,
      which compares with null when no since-date is given; then commits are
      counted per author. There is no unwind. */
  function FileOwnership(filename: string, since: Option<DateTime>): (p: seq<Stage>)
    ensures |p| == 2
    ensures p[0] == MatchFile(DateAfter(since), filename)
    ensures p[1] == SortByCount(AUTHOR)
    ensures forall i | 0 <= i < |p| :: !p[i].Unwind?
    ensures NoNullComparison(p) <==> since.Some?
  {
    [MatchFile(DateAfter(since), filename), SortByCount(AUTHOR)]
  }

  /** FINDING, as written: without a since-date `file_ownership` filters on
      `date > null`, where `file_coupling` leaves the date clause out. */
  lemma OwnershipComparesWithNull(filename: string)
    ensures ComparesWithNull(FileOwnership(filename, None)[0])
    ensures !ComparesWithNull(FileCoupling(filename, None)[0])
    ensures FileOwnership(filename, None)[0] != FileCoupling(filename, None)[0]
  {
  }

  /** Corrected `file_ownership`: the same match as `file_coupling`, so the
      date clause is present exactly when a since-date is given. */
  function FileOwnershipCorrected(filename: string, since: Option<DateTime>): (p: seq<Stage>)
    ensures |p| == 2 && p[1] == SortByCount(AUTHOR)
    ensures p[0].MatchFile? && p[0].filename == filename
    ensures p[0].date.DateAfter? <==> since.Some?
    ensures NoNullComparison(p)
  {
    [FileCoupling(filename, since)[0], SortByCount(AUTHOR)]
  }

  /** The correction changes nothing when a since-date is given. */
  lemma OwnershipCorrectedAgrees(filename: string, since: Option<DateTime>)
    ensures since.Some? ==> FileOwnershipCorrected(filename, since) == FileOwnership(filename, since)
    ensures FileOwnershipCorrected(filename, since)[0] == FileCoupling(filename, since)[0]
  {
  }
}
