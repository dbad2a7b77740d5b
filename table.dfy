/**
 * The `leaderboard` table and the submission endpoint of main.py
 * (`add_leaderboard_entry`), which appends one row per accepted request.
 * The read endpoints are functions of the table's `rows` (modules Ranking
 * and Stats).
 */
module Table {
  import opened Wrappers
  import opened Models
  import opened Schemas

  /** An `HTTPException`: a status code and its detail text. */
  datatype HttpError = HttpError(status: int, detail: string)

  /** The detail of the 400 answer to a board size outside 3, 4 and 5. */
  const BoardSizeDetail: string := "Board size must be 3, 4 or 5"

  /**
   * Why a submission was not stored: the request body failed validation
   * (the framework's 422 answer), or the endpoint itself raised an error.
   */
  datatype SubmitError = Invalid(errors: seq<FieldError>) | Rejected(error: HttpError)

  /**
   * The table: its rows in insertion order and the next primary key. Rows
   * are only ever appended, so handing out consecutive ids keeps them unique.
   */
  class LeaderboardTable {
    var rows: seq<Entry>
    var nextId: int

    /** Every id is positive, below the next one to hand out, and unique. */
    ghost predicate Valid()
      reads this
    {
      nextId >= 1 &&
      (forall e :: e in rows ==> 1 <= e.id < nextId) &&
      IdsUnique(rows)
    }

    /** Every stored row satisfies the submission constraints. */
    predicate AllRowsValid()
      reads this
    {
      forall e :: e in rows ==> RowValid(e)
    }

    /** The empty table created at start-up. */
    constructor()
      ensures Valid()
      ensures rows == [] && nextId == 1
    {
      rows := [];
      nextId := 1;
    }

    /**
     * `add_leaderboard_entry` on an already parsed body: a board size other
     * than 3, 4 or 5 is answered with 400 and nothing is stored; otherwise
     * exactly one row with the submitted fields, a fresh id and the given
     * creation time is appended and returned, and every earlier row stays.
     */
    method AddEntry(entry: EntryBase, now: Timestamp) returns (r: Result<Entry, HttpError>)
      requires Valid()
      modifies this
      ensures Valid()
      ensures entry.boardSize !in [3, 4, 5] ==>
        r == Failure(HttpError(400, BoardSizeDetail)) &&
        rows == old(rows) && nextId == old(nextId)
      ensures entry.boardSize in [3, 4, 5] ==>
        r == Success(MakeEntry(entry, old(nextId), now)) &&
        rows == old(rows) + [r.value] && nextId == old(nextId) + 1
      ensures r.Success? ==> forall e :: e in old(rows) ==> e.id != r.value.id
      ensures old(AllRowsValid()) && ValidBase(entry) ==> AllRowsValid()
    {
      if entry.boardSize !in [3, 4, 5] {
        return Failure(HttpError(400, BoardSizeDetail));
      }
      var row := MakeEntry(entry, nextId, now);
      rows := rows + [row];
      nextId := nextId + 1;
      r := Success(row);
    }

    /**
     * The whole `POST /leaderboard/` request: the body is validated against
     * `LeaderboardEntryCreate` first, and only a valid body reaches
     * `AddEntry`. Since validation already bounds the board size to 3..5,
     * the endpoint's own 400 answer is never given.
     */
    method Submit(raw: RawEntry, now: Timestamp) returns (r: Result<Entry, SubmitError>)
      requires Valid()
      modifies this
      ensures Valid()
      ensures Validate(raw).Failure? ==>
        r == Failure(Invalid(Validate(raw).error)) &&
        rows == old(rows) && nextId == old(nextId)
      ensures Validate(raw).Success? ==>
        r == Success(MakeEntry(Validate(raw).value, old(nextId), now)) &&
        rows == old(rows) + [r.value] && nextId == old(nextId) + 1
      ensures r.Failure? ==> r.error.Invalid?
      ensures old(AllRowsValid()) ==> AllRowsValid()
    {
      var v := Validate(raw);
      if v.Failure? {
        return Failure(Invalid(v.error));
      }
      var added := AddEntry(v.value, now);
      match added {
        case Success(row) => r := Success(row);
        case Failure(e) => r := Failure(Rejected(e));
      }
    }
  }
}
