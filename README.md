# 15-Puzzle leaderboard: a Dafny model

This project models the leaderboard service of the 15-Puzzle game. The
service is a FastAPI application over one SQL table, `leaderboard`. Each row
of that table is one finished game: the device that played it, the player's
name, the solving time in seconds, the number of moves, the board size
(3, 4 or 5) and the game mode (`classic` or `timed`).

The model covers:

- **Submission** (`POST /leaderboard/`). The request body is validated against
  `LeaderboardEntryCreate`. A body that breaks a field constraint, a board
  size outside 3..5 among them, is answered with the framework's 422 and
  nothing is stored. Otherwise exactly one row is appended, with a fresh id.
  The endpoint's own check of the board size (400, main.py:55-56) is modelled
  in `AddEntry`, and `Submit` shows that validation leaves it unreachable.
  - The table is a class, `Table.LeaderboardTable`. It holds its rows as a
    sequence and the next primary key as a counter.
  - Submission is append-only. The service never compares a new result with
    the player's earlier best and never replaces a row.
- **Ranking** (`GET /leaderboard/`, `GET /leaderboard/top`). These take the
  rows of one category (board size and mode), order them by
  `(time_seconds, moves)` ascending and cut them to a limit.
  - `get_leaderboard` adds the category's total count and the caller's
    position.
  - The position is 1 plus the number of category rows strictly ahead of the
    device's best row.
- **Statistics** (`GET /stats/{device_id}`, `GET /stats/{device_id}/detailed`).
  These aggregate one device's rows: count, least time, least moves and
  averages.
  - `get_player_stats` aggregates over all of the device's rows.
  - `get_detailed_stats` aggregates per category. It builds a dictionary keyed
    `"<mode>_<n>x<n>"` in nested loops, modelled as a method with two `for`
    loops and their invariants.

Module layout:

- `Models` (models.dfy) holds the row and its `__repr__`.
- `Schemas` (schemas.dfy) holds the request and response shapes and validation.
- `Query` (query.dfy) holds filtering, ordering and counting.
- `Ranking` (ranking.dfy) and `Stats` (stats.dfy) hold the read endpoints.
- `Table` (table.dfy) holds the table and submission.
- `Wrappers` (wrappers.dfy) holds `Option` and `Result`.

The model does what the code does, including where the code's comments or
field names suggest otherwise:

- A new result is always appended. Nothing replaces a player's earlier best.
- Both modes use the same order, time first and then moves.
- The position is always found by counting. `user_in_top` is never set to true
  (main.py:91-95), so no shortcut through the top window is taken.

SQL does not fix the order of rows with equal `(time_seconds, moves)` keys.
The model orders them with a stable insertion sort, which keeps ties in table
order. Most contracts about ranking state facts that hold for any tie order:

- the result is sorted;
- its contents are drawn from the category;
- no row that was left out precedes a row that was kept (a top window);
- its length is min(limit, category size);
- the position is found by counting, and counting does not depend on the
  order of the rows (`Query.CountLessMultiset`).

One clause of `GetTopPlayers`, inherited by `GetLeaderboard`, is specific to
the model's tie order: the result is a prefix of the model's sorted category.

## Model

| member | source | states |
|---|---|---|
| Models.Repr | models.py:30-31 | The text starts with "<Leaderboard " and the player name, and ends with the last digit of the board size and ">" |
| Models.ModeValue | models.py:6-8 | A mode's value is "classic" exactly for Classic and "timed" exactly for Timed |
| Models.ModeRepr | models.py:6-8 | `str()` of a mode is "GameMode." followed by its value, with no comma or space in it |
| Models.ModeReprInjective | models.py:6-8 | Different modes have different texts |
| Models.NatToString | models.py:31 | The decimal text of a natural number is non-empty, all digits, with no leading zero |
| Models.IntToString | models.py:31 | The text of an integer is non-empty and all digits except a leading "-", which is there exactly when the integer is negative |
| Models.IntToStringInjective | models.py:31 | Different integers have different texts |
| Models.ReprReadBack | models.py:30-31 | Two rows of the same player with the same text have equal time, moves, mode and board size: the text loses none of them |
| Models.FieldsReadBack | models.py:31 | The text after the player name determines time, moves, mode and board size |
| Models.MovesReadBack | models.py:31 | The text after the time determines moves, mode and board size |
| Models.ModeReadBack | models.py:31 | The text after the moves determines mode and board size |
| Models.BoardReadBack | models.py:31 | The text after the mode determines the board size |
| Models.ReprDistinguishesBoards | models.py:31 | Two rows with different single-digit board sizes never have the same text |
| Models.IntToStringRoundTrip | models.py:31 | Reading back the decimal text the f-string writes for an integer gives that integer |
| Schemas.ParseGameMode | schemas.py:6-8 | A mode text is accepted exactly when it is "classic" or "timed". The parsed mode carries that text, and each of the two members is the parse of its own value |
| Schemas.Validate | schemas.py:10-16 | Validation succeeds exactly when all hold: device_id has 1..100 characters, player_name has 1..50, time_seconds >= 1, moves >= 1, board_size is in 3..5, and the mode is one of the two values. On success the fields are kept unchanged. On failure at least one violation is reported, and the reported list is exactly the violated constraints (`FieldErrors`) |
| Schemas.FieldErrors | schemas.py:10-16 | Each constraint of the six fields is reported exactly when the field breaks it. No error is reported exactly when every constraint holds |
| Schemas.TextErrors | schemas.py:11-12 | The length violations of device_id (1..100) and player_name (1..50), each reported exactly when it occurs, and nothing for other fields |
| Schemas.NumberErrors | schemas.py:13-15 | The bound violations of time_seconds (>= 1), moves (>= 1) and board_size (3..5), each reported exactly when it occurs |
| Schemas.ModeErrors | schemas.py:16 | A game_mode that is not one of the enum's values is reported, and nothing else |
| Schemas.LengthErrors | schemas.py:11-12 | A `min_length`/`max_length` constraint reports the bound that is broken, and nothing when the length is within bounds |
| Schemas.RangeErrors | schemas.py:13-15 | A `ge`/`le` constraint reports the bound that is broken, and nothing when the value is within bounds |
| Schemas.MakeEntry | models.py:16-25 | A row made from a valid submission fits the `String(50)` bound on player_name |
| Schemas.ToEntryResponse | schemas.py:21-26 | The response keeps every base field plus id and created_at, so the row can be rebuilt from it. It is valid exactly when the row is |
| Schemas.ResponseOfMadeEntry | schemas.py:21-23 | The response for a freshly stored submission gives back that submission with its id and created_at |
| Query.CategoryRows | main.py:76-78 | The filter keeps every row of the category, with its multiplicity, and no other row |
| Query.DeviceRows | main.py:161-163 | The filter keeps every row of the device, with its multiplicity, and no other row |
| Query.InsertSorted | main.py:79-81 | Inserting into a sorted sequence keeps it sorted and adds exactly that row |
| Query.SortByKey | main.py:79-81 | `ORDER BY time_seconds, moves` yields a sorted permutation of its input (same multiset) |
| Query.LessIsStrictWeakOrder | main.py:79-81 | The order is irreflexive, transitive and asymmetric, and two rows are unordered exactly when their keys are equal |
| Query.CountLess | main.py:109-119 | The count of rows ahead of x is at most the number of rows, and is 0 exactly when no row is ahead of x |
| Query.CountLessAppend | main.py:109-119 | Counting over two parts of the rows adds up the counts of the parts |
| Query.CountLessMultiset | main.py:109-119 | Any two arrangements of the same rows (the same multiset) have the same count of rows ahead of x |
| Query.CountLessInsert | main.py:109-119 | Counting rows ahead of x after one insertion adds 1 exactly when the inserted row is ahead of x |
| Query.CountLessSort | main.py:109-119 | The count of rows ahead of x is the same in the sorted category as in table order |
| Query.CountLessSorted | main.py:109-119 | In a sorted sequence, the rows ahead of x are exactly the first CountLess of them |
| Query.SortedRankHasKey | main.py:109-121 | In a sorted sequence containing x, the row at index CountLess(x) has x's key |
| Query.CountLessSameKey | main.py:109-119 | Rows with equal keys have equal counts of rows ahead of them |
| Query.CountLessMonotone | main.py:109-119 | If b is not ahead of a, then at most as many rows are ahead of a as of b |
| Query.CountLessBelow | main.py:109-121 | A row of the sequence has fewer rows ahead of it than the sequence has rows |
| Query.SortedHeadIsLeast | main.py:101-104 | `.first()` of a sorted non-empty sequence is preceded by no row of it |
| Ranking.GetTopPlayers | main.py:142-150 | The result has min(top_n, category size) rows, all from the category and sorted. It is a sub-multiset of the category, and no category row left out precedes a kept one. It is a prefix of the sorted category |
| Ranking.PrefixIsTopWindow | main.py:79-82 | Any prefix of a sorted permutation of the category is sorted, is drawn from the category, and is a top window |
| Ranking.DeviceBest | main.py:97-104 | The device's best row is absent exactly when the device has no row in the category. When present, it is such a row and none of the device's rows there precedes it |
| Ranking.UserPosition | main.py:91-121 | The position is None exactly when the device has no row in the category. Otherwise it is 1 + the number of category rows strictly ahead of the device's best row, and it lies in 1..total_count |
| Ranking.PositionIsBestOfDeviceRows | main.py:97-121 | When the device has a row in the category, its position is present, and is the least 1 + CountLess over all the device's rows there, which some row attains |
| Ranking.PositionMatchesFullSort | main.py:109-121 | When the device has a row in the category, its position is present, and in the sorted category all rows before index position-1 are ahead of the best row, the row at position-1 has the same key, and no later row is ahead |
| Ranking.EqualKeysSharePosition | main.py:109-121 | Two devices whose best rows have equal keys get the same position |
| Ranking.GetLeaderboard | main.py:64-129 | entries is the top-`limit` window. total_count is the category size, whatever the limit. \|entries\| = min(limit, total_count). The category is echoed back. user_position is the counted position, in 1..total_count |
| Ranking.EntryResponses | main.py:124 | Each row is serialised as its entry response, in order |
| Ranking.ToDeclaredResponse | schemas.py:28-32 | The declared response serialises every entry in order and keeps total_count, board_size and game_mode |
| Ranking.DeclaredResponseIgnoresDevice | schemas.py:28-32 | With the declared response shape, the body does not depend on the device_id of the request |
| Ranking.DeclaredResponseLosesPosition | schemas.py:28-32 | With the declared response shape, a device ranked 1st and a device with no row receive the same body |
| Ranking.ToPositionedResponse | main.py:123-129 | The response with user_position declared carries the position, the total count, board_size and game_mode, and every entry serialised in order |
| Ranking.PositionedResponseReportsRank | main.py:123-129 | That response's position is None exactly when the device has no row in the category, and otherwise lies between 1 and its total_count |
| Stats.MinOf | main.py:166-172 | SQL `MIN` is None on no values. Otherwise it is a value that occurs and is at most every value |
| Stats.SumAppend | main.py:175-181 | The sum over two parts of the values adds up the sums of the parts |
| Stats.SumMultiset | main.py:175-181 | Sums, and so averages, do not depend on the order of the rows |
| Stats.SumAtLeastCount | main.py:175-181 | A sum of values that are each at least 1 is at least their number |
| Stats.BestTime | main.py:166-168 | The least time is None exactly on no rows. Otherwise some row has it and no row has less |
| Stats.BestMoves | main.py:170-172 | The least moves is None exactly on no rows. Otherwise some row has it and no row has fewer |
| Stats.Average | main.py:175-181 | `float(avg) if avg else None`: None when there are no values or their sum is 0. Otherwise it is the exact mean sum/count |
| Stats.GetPlayerStats | main.py:152-190 | total_games counts the device's rows. best_time and best_moves are None exactly when the device has no row, and otherwise are the minima over its rows, each attained. The averages are the means over its rows |
| Stats.IndependentMinima | main.py:165-172 | best_time and best_moves can come from different rows: no single row has both |
| Stats.ValidRowsHaveAverages | main.py:188-189 | Over valid rows, the averages are present exactly when the device has played |
| Stats.CategoriesLayout | main.py:202-203 | The loops visit 2 x 3 categories, none twice, all with boards 3..5 |
| Stats.CategoryAt | main.py:202-203 | Board-loop step i with mode-loop step j visits category 2i+j |
| Stats.CategoryIndex | main.py:202-203 | Every category with board 3..5 is visited, at a known step |
| Stats.CategoryKey | main.py:204 | The key starts with the mode's first letter and ends with the board's digit |
| Stats.SingleDigitKey | main.py:204 | For a single-digit board the key is mode + "_" + n + "x" + n |
| Stats.KeyInjective | main.py:204 | Different categories of single-digit boards have different keys |
| Stats.KeysDiffer | main.py:204 | Distinct categories get distinct keys, so no entry of the dictionary overwrites another |
| Stats.CategoryKeys | main.py:202-204 | The six keys in visiting order, pairwise distinct |
| Stats.ListedKeyAt | main.py:202-204 | The keys the loops compute are, in order, classic_3x3, timed_3x3, classic_4x4, timed_4x4, classic_5x5 and timed_5x5 |
| Stats.DeviceCategoryRows | main.py:206-210 | Exactly the device's rows in that category, each with its multiplicity |
| Stats.StatsOf | main.py:212-224 | games_played is the row count. best_time and best_moves are attained minima. The averages are the exact means |
| Stats.CategoryEntry | main.py:212-224 | A category contributes an entry exactly when the device has a row there, and the entry is that category's aggregates |
| Stats.Entries | main.py:202-212 | The candidate entries of the categories, in visiting order |
| Stats.CollectKeys | main.py:200-218 | After n loop steps the dictionary has at most n keys, each the key of a step already taken |
| Stats.CollectNext | main.py:204-218 | One loop step stores the step's key with its aggregates when the category has rows, and otherwise leaves the dictionary unchanged |
| Stats.CollectAt | main.py:200-218 | With distinct keys, after n steps the key of an earlier step is present exactly when that step had rows, and holds that step's value |
| Stats.GetDetailedStats | main.py:192-226 | The loops build exactly the statistics dictionary. It has at most 6 keys. The key of a category is present exactly when the device has a row there, and holds that category's aggregates. Every key is a category's key |
| Stats.DetailedStatsShape | main.py:200-226 | The statistics dictionary has that shape |
| Stats.DetailedStatsAt | main.py:212-224 | A category's key is present exactly when the device has a row there, and holds its aggregates |
| Stats.DetailedStatsKeys | main.py:200-226 | At most six keys, each of the form of a category key with board 3..5 |
| Table.LeaderboardTable.constructor | models.py:10-13 | The new table is empty and valid, with the first id to hand out being 1 |
| Table.LeaderboardTable.Valid | models.py:13 | Every id is positive, below the next id to hand out, and unique, as a primary key requires |
| Table.LeaderboardTable.AddEntry | main.py:46-62 | A board size outside {3,4,5} gives 400 "Board size must be 3, 4 or 5" and leaves the table unchanged. Otherwise exactly one row, with the submitted fields, the given created_at and an id no earlier row has, is appended and returned; earlier rows are kept as they were. Ids stay unique and all-valid rows stay valid |
| Table.LeaderboardTable.Submit | main.py:46-62 | An invalid body is rejected with its violations and the table is unchanged. A valid body is stored as AddEntry stores it. The endpoint's own 400 is never reached. Ids stay unique and every row stays valid |

## Left out

- FastAPI routing, dependency injection, CORS middleware, `uvicorn.run` and the `GET /` root endpoint: HTTP plumbing with no leaderboard logic (main.py:1-44, 228-230).
- The database engine, `create_all`, and session `add`/`commit`/`refresh` (database.py is not part of this model). The table is a sequence owned by `Table.LeaderboardTable`.
- Ids are handed out by a counter, as an auto-incrementing integer key does. The database's own choice of key values is not modelled.
- `created_at` from `datetime.utcnow`: the creation time is a parameter of `AddEntry` and `Submit`.
- Floating-point averages and `round(..., 2)`: averages are kept as exact `Mean(total, count)` values.
- Stats.Average: models only the truthiness test of `float(avg) if avg else None`, and not the conversion to a float.
- Ranking.GetTopPlayers: its clause that the result is a prefix of the model's sorted category fixes ties in table order, which the SQL engine does not promise. `Ranking.GetLeaderboard` inherits that clause. The other clauses hold for any tie order.
- The range checks that `Query` puts on `limit` (1..100), `top_n` (1..50) and the query parameter `board_size`: the model accepts any natural limit, so its contracts also cover the requests those checks let through.
- Pydantic's type coercion of request bodies, JSON decoding, and the layout of the framework's 422 answer: validation is modelled on already-typed fields, and an invalid body is reported as the list of violated constraints.
- schemas.py's separate `GameMode(str, Enum)` with members `CLASSIC`/`TIMED`: it takes the same two values as models.py's enum, so both are one `GameMode` datatype. `__repr__` is modelled for rows read from the table (after `db.refresh`, main.py:61), whose `game_mode` is a `models.GameMode` and prints as "GameMode.classic". A row freshly built from `entry.model_dump()` (main.py:58) still holds a `schemas.GameMode` member, whose f-string text differs; that text is not modelled.
- The fallback `else 1` of main.py:121 is not modelled: SQL `COUNT` always gives a number, so the position is always the count plus one.
- Schemas.MakeEntry: states only the column-level length bound of player_name. The non-null columns hold in every value of the `Entry` datatype, since none of its fields is optional.
- The order of keys in the `get_detailed_stats` response: the Python dict, and so its JSON body, lists keys in insertion order (main.py:202-218). The model's `map<string, CategoryStats>` has no order. `Stats.ListedKeyAt` fixes the order in which keys are computed, not an order in the result.
- Integer widths: the fields are unbounded integers. An `Integer` column (models.py:20-24) holds a bounded range, and a value outside it makes `db.commit` (main.py:60) fail. The model stores any integer the validation accepts.
- Each endpoint is modelled as a function of one table state. `get_leaderboard` issues three separate queries (main.py:76-119), and a submission that lands between them is not modelled.

## Findings

| source | as written | input that shows it | evidently intended | confidence | as-written member | corrected member |
|---|---|---|---|---|---|---|
| schemas.py:28-32, main.py:123-129 | `get_leaderboard` passes `user_position` to `LeaderboardResponse`, which does not declare that field, so the position is dropped from the response | a table with one classic 3x3 row of device "a"; "a" is ranked 1 and device "b" has no row, but both receive the same body | the response declares `user_position` and reports the caller's rank | not executed | Ranking.DeclaredResponseLosesPosition | Ranking.PositionedResponseReportsRank |
