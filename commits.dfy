/** The records the log parser produces and the store keeps: one
    `GitCommit` per commit, one `FileChange` per numstat line. */
module Commits {
  import opened Text
  import opened Dates

  /** One file's delta within a commit; the counts are `u64`. */
  datatype FileChange = FileChange(added: U64, deleted: U64, filename: string)

  /** One commit: short hash, commit date, author name, subject line and the
      file changes in the order git listed them. */
  datatype GitCommit = GitCommit(
    commit: string,
    date: DateTime,
    author: string,
    summary: string,
    files: seq<FileChange>)

  /** The hashes of a list of commits, in order. */
  function Hashes(cs: seq<GitCommit>): (hs: seq<string>)
    ensures |hs| == |cs|
    ensures forall i | 0 <= i < |cs| :: hs[i] == cs[i].commit
  {
    if cs == [] then [] else Hashes(cs[..|cs| - 1]) + [cs[|cs| - 1].commit]
  }
}
