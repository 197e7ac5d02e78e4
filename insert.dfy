/** The decision `insert_commits` (src/db.rs) takes on the result of an
    unordered `insert_many`: re-inserting commits already stored is
    expected, so a bulk-write error made only of duplicate-key failures
    counts as success; every other error is returned unchanged. The insert
    itself is the store's and is a parameter here. */
module Insert {
  import opened Wrappers

  /** The server's duplicate-key error code. */
  const DUPLICATE_KEY_ERR: int := 11000

  /** One document the bulk write could not insert: its index in the batch
      and the server's error code (an `i32`). */
  datatype WriteFailure = WriteFailure(index: nat, code: int)

  /** The error kinds of the driver that the decision tells apart. */
  datatype InsertError =
    | BulkWrite(writeErrors: Option<seq<WriteFailure>>)  // `ErrorKind::BulkWrite`
    | OtherError(description: string)                    // every other `ErrorKind`

  /** `failure_list.iter().any(|f| f.code != DUPLICATE_KEY_ERR)`. */
  function AnyNotDuplicate(failures: seq<WriteFailure>): (r: bool)
    ensures r <==> exists i | 0 <= i < |failures| :: failures[i].code != DUPLICATE_KEY_ERR
  {
    if failures == [] then false
    else failures[0].code != DUPLICATE_KEY_ERR || AnyNotDuplicate(failures[1..])
  }

  /** The errors that re-inserting stored commits produces: a bulk write
      whose failure list is present and holds duplicate-key failures only
      (an empty list included). */
  predicate OnlyDuplicates(e: InsertError) {
    && e.BulkWrite?
    && e.writeErrors.Some?
    && forall i | 0 <= i < |e.writeErrors.value| :: e.writeErrors.value[i].code == DUPLICATE_KEY_ERR
  }

  /** `insert_commits` given the result of `insert_many`: success when the
      insert succeeded or failed on duplicates only; otherwise the original
      error, whole (the duplicate failures it also holds included). */
  function InsertCommits(inserted: Result<(), InsertError>): (r: Result<(), InsertError>)
    ensures r.Success? <==> inserted.Success? || OnlyDuplicates(inserted.error)
    ensures r.Failure? ==> r == inserted
  {
    match inserted
    case Success(_) => Success(())
    case Failure(error) =>
      if error.BulkWrite? && error.writeErrors.Some? && !AnyNotDuplicate(error.writeErrors.value) then
        Success(())
      else
        inserted
  }

  /** The edges of the rule: an empty failure list is swallowed; a missing
      list is not; one failure of another kind among duplicates makes the
      whole error propagate. */
  lemma InsertCommitsEdges(dup: nat, other: nat, code: int)
    requires code != DUPLICATE_KEY_ERR
    ensures InsertCommits(Failure(BulkWrite(Some([])))) == Success(())
    ensures InsertCommits(Failure(BulkWrite(None))) == Failure(BulkWrite(None))
    ensures var e := BulkWrite(Some([WriteFailure(dup, DUPLICATE_KEY_ERR), WriteFailure(other, code)]));
      InsertCommits(Failure(e)) == Failure(e)
  {
    var e := BulkWrite(Some([WriteFailure(dup, DUPLICATE_KEY_ERR), WriteFailure(other, code)]));
    assert e.writeErrors.value[1].code != DUPLICATE_KEY_ERR;
  }

  /** Dropping a duplicate-key failure from the list never changes the
      verdict; adding a failure of another kind always makes it an error. */
  lemma {:induction false} VerdictIgnoresDuplicates(before: seq<WriteFailure>, after: seq<WriteFailure>, f: WriteFailure)
    ensures f.code == DUPLICATE_KEY_ERR ==>
      InsertCommits(Failure(BulkWrite(Some(before + [f] + after)))).Success?
        == InsertCommits(Failure(BulkWrite(Some(before + after)))).Success?
    ensures f.code != DUPLICATE_KEY_ERR ==>
      InsertCommits(Failure(BulkWrite(Some(before + [f] + after)))).Failure?
  {
    var with := before + [f] + after;
    var without := before + after;
    assert with[|before|] == f;
    if f.code == DUPLICATE_KEY_ERR {
      var allWith := forall i | 0 <= i < |with| :: with[i].code == DUPLICATE_KEY_ERR;
      var allWithout := forall i | 0 <= i < |without| :: without[i].code == DUPLICATE_KEY_ERR;
      if allWith {
        forall i | 0 <= i < |without| ensures without[i].code == DUPLICATE_KEY_ERR {
          assert without[i] == if i < |before| then with[i] else with[i + 1];
        }
      }
      if allWithout {
        forall i | 0 <= i < |with| ensures with[i].code == DUPLICATE_KEY_ERR {
          if i < |before| { assert with[i] == without[i]; }
          else if i > |before| { assert with[i] == without[i - 1]; }
        }
      }
    }
  }
}
