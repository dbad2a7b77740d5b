/**
 * The request and response shapes of the API (schemas.py) and the field
 * constraints a submitted entry is validated against.
 */
module Schemas {
  import opened Wrappers
  import opened Models

  /**
   * `GameMode` of schemas.py: a request's `game_mode` is accepted exactly
   * when it is one of the two values "classic" and "timed".
   */
  function ParseGameMode(s: string): (r: Option<GameMode>)
    ensures r.Some? <==> s == "classic" || s == "timed"
    ensures r.Some? ==> ModeValue(r.value) == s
    ensures forall m: GameMode :: s == ModeValue(m) ==> r == Some(m)
  {
    if s == "classic" then Some(Classic)
    else if s == "timed" then Some(Timed)
    else None
  }

  /** A submitted entry as it arrives, before validation. */
  datatype RawEntry = RawEntry(
    deviceId: string,
    playerName: string,
    timeSeconds: int,
    moves: int,
    boardSize: int,
    gameMode: string)

  /** `LeaderboardEntryBase` (and `LeaderboardEntryCreate`): the submitted fields. */
  datatype EntryBase = EntryBase(
    deviceId: string,
    playerName: string,
    timeSeconds: int,
    moves: int,
    boardSize: int,
    gameMode: GameMode)

  /** The `Field` constraints of `LeaderboardEntryBase`. */
  predicate ValidBase(e: EntryBase)
  {
    1 <= |e.deviceId| <= 100 &&
    1 <= |e.playerName| <= 50 &&
    e.timeSeconds >= 1 &&
    e.moves >= 1 &&
    3 <= e.boardSize <= 5
  }

  /** The kind of constraint a field violates. */
  datatype Constraint = MinLength(bound: int) | MaxLength(bound: int)
                      | GreaterEqual(bound: int) | LessEqual(bound: int) | EnumMember

  /** The fields of `LeaderboardEntryBase`, in declaration order. */
  datatype Field = DeviceId | PlayerName | TimeSeconds | Moves | BoardSize | GameModeField

  /** One validation error: the field and the constraint it violates. */
  datatype FieldError = FieldError(field: Field, violated: Constraint)

  /** The length constraints `min_length=lo, max_length=hi` of one field. */
  function LengthErrors(field: Field, s: string, lo: int, hi: int): (r: seq<FieldError>)
    requires lo <= hi
    ensures forall e :: e in r ==> e.field == field
    ensures FieldError(field, MinLength(lo)) in r <==> |s| < lo
    ensures FieldError(field, MaxLength(hi)) in r <==> |s| > hi
    ensures r == [] <==> lo <= |s| <= hi
  {
    if |s| < lo then [FieldError(field, MinLength(lo))]
    else if |s| > hi then [FieldError(field, MaxLength(hi))]
    else []
  }

  /** The bounds `ge=lo` and, when present, `le=hi` of one field. */
  function RangeErrors(field: Field, v: int, lo: int, hi: Option<int>): (r: seq<FieldError>)
    requires hi.Some? ==> lo <= hi.value
    ensures forall e :: e in r ==> e.field == field
    ensures FieldError(field, GreaterEqual(lo)) in r <==> v < lo
    ensures hi.Some? ==> (FieldError(field, LessEqual(hi.value)) in r <==> v > hi.value)
    ensures r == [] <==> lo <= v && (hi.Some? ==> v <= hi.value)
  {
    if v < lo then [FieldError(field, GreaterEqual(lo))]
    else if hi.Some? && v > hi.value then [FieldError(field, LessEqual(hi.value))]
    else []
  }

  /**
   * All violated constraints, field by field in declaration order: each
   * constraint of `LeaderboardEntryBase` is reported exactly when the field
   * breaks it, and nothing is reported exactly when every one holds.
   */
  function FieldErrors(raw: RawEntry): (r: seq<FieldError>)
    ensures FieldError(DeviceId, MinLength(1)) in r <==> |raw.deviceId| < 1
    ensures FieldError(DeviceId, MaxLength(100)) in r <==> |raw.deviceId| > 100
    ensures FieldError(PlayerName, MinLength(1)) in r <==> |raw.playerName| < 1
    ensures FieldError(PlayerName, MaxLength(50)) in r <==> |raw.playerName| > 50
    ensures FieldError(TimeSeconds, GreaterEqual(1)) in r <==> raw.timeSeconds < 1
    ensures FieldError(Moves, GreaterEqual(1)) in r <==> raw.moves < 1
    ensures FieldError(BoardSize, GreaterEqual(3)) in r <==> raw.boardSize < 3
    ensures FieldError(BoardSize, LessEqual(5)) in r <==> raw.boardSize > 5
    ensures FieldError(GameModeField, EnumMember) in r <==> ParseGameMode(raw.gameMode).None?
    ensures r == [] <==>
      1 <= |raw.deviceId| <= 100 && 1 <= |raw.playerName| <= 50 &&
      raw.timeSeconds >= 1 && raw.moves >= 1 && 3 <= raw.boardSize <= 5 &&
      ParseGameMode(raw.gameMode).Some?
  {
    var text := TextErrors(raw);
    var numbers := NumberErrors(raw);
    var mode := ModeErrors(raw);
    var r := text + numbers + mode;
    assert forall x :: x in r <==> x in text || x in numbers || x in mode;
    r
  }

  /** The violated membership constraint of `game_mode`. */
  function ModeErrors(raw: RawEntry): (r: seq<FieldError>)
    ensures forall e :: e in r ==> e.field == GameModeField
    ensures FieldError(GameModeField, EnumMember) in r <==> ParseGameMode(raw.gameMode).None?
    ensures r == [] <==> ParseGameMode(raw.gameMode).Some?
  {
    if ParseGameMode(raw.gameMode).None? then [FieldError(GameModeField, EnumMember)] else []
  }

  /** The violated length constraints of `device_id` and `player_name`. */
  function TextErrors(raw: RawEntry): (r: seq<FieldError>)
    ensures forall e :: e in r ==> e.field == DeviceId || e.field == PlayerName
    ensures FieldError(DeviceId, MinLength(1)) in r <==> |raw.deviceId| < 1
    ensures FieldError(DeviceId, MaxLength(100)) in r <==> |raw.deviceId| > 100
    ensures FieldError(PlayerName, MinLength(1)) in r <==> |raw.playerName| < 1
    ensures FieldError(PlayerName, MaxLength(50)) in r <==> |raw.playerName| > 50
    ensures r == [] <==> 1 <= |raw.deviceId| <= 100 && 1 <= |raw.playerName| <= 50
  {
    var device := LengthErrors(DeviceId, raw.deviceId, 1, 100);
    var player := LengthErrors(PlayerName, raw.playerName, 1, 50);
    assert forall x :: x in device + player <==> x in device || x in player;
    device + player
  }

  /** The violated bounds of `time_seconds`, `moves` and `board_size`. */
  function NumberErrors(raw: RawEntry): (r: seq<FieldError>)
    ensures forall e :: e in r ==> e.field == TimeSeconds || e.field == Moves || e.field == BoardSize
    ensures FieldError(TimeSeconds, GreaterEqual(1)) in r <==> raw.timeSeconds < 1
    ensures FieldError(Moves, GreaterEqual(1)) in r <==> raw.moves < 1
    ensures FieldError(BoardSize, GreaterEqual(3)) in r <==> raw.boardSize < 3
    ensures FieldError(BoardSize, LessEqual(5)) in r <==> raw.boardSize > 5
    ensures r == [] <==> raw.timeSeconds >= 1 && raw.moves >= 1 && 3 <= raw.boardSize <= 5
  {
    var time := RangeErrors(TimeSeconds, raw.timeSeconds, 1, None);
    var moves := RangeErrors(Moves, raw.moves, 1, None);
    var board := RangeErrors(BoardSize, raw.boardSize, 3, Some(5));
    assert forall x :: x in time + moves + board <==> x in time || x in moves || x in board;
    time + moves + board
  }

  /**
   * Validation of a submission: it succeeds exactly when every field
   * constraint holds, and then yields the same fields with the mode parsed;
   * otherwise it reports at least one violated constraint.
   */
  function Validate(raw: RawEntry): (r: Result<EntryBase, seq<FieldError>>)
    ensures r.Success? <==>
      1 <= |raw.deviceId| <= 100 && 1 <= |raw.playerName| <= 50 &&
      raw.timeSeconds >= 1 && raw.moves >= 1 && 3 <= raw.boardSize <= 5 &&
      (raw.gameMode == "classic" || raw.gameMode == "timed")
    ensures r.Success? ==> ValidBase(r.value)
    ensures r.Success? ==>
      r.value.deviceId == raw.deviceId && r.value.playerName == raw.playerName &&
      r.value.timeSeconds == raw.timeSeconds && r.value.moves == raw.moves &&
      r.value.boardSize == raw.boardSize && ModeValue(r.value.gameMode) == raw.gameMode
    ensures r.Failure? ==> |r.error| > 0
    ensures r.Failure? ==> r.error == FieldErrors(raw)
  {
    var errors := FieldErrors(raw);
    if errors == [] then
      Success(EntryBase(raw.deviceId, raw.playerName, raw.timeSeconds, raw.moves,
                        raw.boardSize, ParseGameMode(raw.gameMode).value))
    else
      Failure(errors)
  }

  /**
   * `models.LeaderboardEntry(**entry.model_dump())` once the store has given
   * it its `id` and `created_at`.
   */
  function MakeEntry(b: EntryBase, id: int, createdAt: Timestamp): (e: Entry)
    ensures ValidBase(b) ==> FitsColumns(e)
  {
    Entry(id, b.deviceId, b.playerName, b.timeSeconds, b.moves, b.boardSize, b.gameMode, createdAt)
  }

  /** The submitted fields a stored row carries. */
  function BaseOf(e: Entry): EntryBase
  {
    EntryBase(e.deviceId, e.playerName, e.timeSeconds, e.moves, e.boardSize, e.gameMode)
  }

  /** A stored row whose fields satisfy the submission constraints. */
  predicate RowValid(e: Entry)
  {
    ValidBase(BaseOf(e))
  }

  /** `LeaderboardEntryResponse`: every base field, plus `id` and `created_at`. */
  datatype EntryResponse = EntryResponse(base: EntryBase, id: int, createdAt: Timestamp)

  /**
   * Reading a row into a `LeaderboardEntryResponse` (`from_attributes`):
   * the row can be rebuilt from the response, so no field is lost, and the
   * response passes its own validation exactly when the row is valid.
   */
  function ToEntryResponse(e: Entry): (r: EntryResponse)
    ensures MakeEntry(r.base, r.id, r.createdAt) == e
    ensures ValidBase(r.base) <==> RowValid(e)
  {
    EntryResponse(BaseOf(e), e.id, e.createdAt)
  }

  /** The response for a freshly made row gives back the submission itself. */
  lemma ResponseOfMadeEntry(b: EntryBase, id: int, t: Timestamp)
    ensures ToEntryResponse(MakeEntry(b, id, t)) == EntryResponse(b, id, t)
  {
  }

  /**
   * `LeaderboardResponse` as declared: entries, total_count, board_size and
   * game_mode, and no field for the caller's position.
   */
  datatype LeaderboardResponse = LeaderboardResponse(
    entries: seq<EntryResponse>,
    totalCount: int,
    boardSize: int,
    gameMode: GameMode)

  /** `LeaderboardResponse` with the `user_position` field the endpoint supplies. */
  datatype PositionedResponse = PositionedResponse(
    entries: seq<EntryResponse>,
    totalCount: int,
    boardSize: int,
    gameMode: GameMode,
    userPosition: Option<nat>)

  /** An average kept exactly, as the sum it divides and the count it divides by. */
  datatype Mean = Mean(total: int, count: nat)

  /** `PlayerStats`, with the averages as exact means. */
  datatype PlayerStats = PlayerStats(
    deviceId: string,
    totalGames: nat,
    bestTime: Option<int>,
    bestMoves: Option<int>,
    averageTime: Option<Mean>,
    averageMoves: Option<Mean>)
}
