/**
 * The ranking endpoints: `get_top_players`, `get_leaderboard` (with its
 * `total_count` and the caller's `user_position`), and the response the
 * latter is serialised into.
 */
module Ranking {
  import opened Wrappers
  import opened Models
  import opened Schemas
  import opened Query

  function Min(a: int, b: int): int
  {
    if a <= b then a else b
  }

  /**
   * `get_top_players`: the category filtered, ordered by (time_seconds, moves)
   * and cut to `topN` rows. The window has min(topN, category size) rows, all
   * of the category, ascending, and no category row left out of it precedes
   * a row inside it; it is a prefix of the whole ordered category.
   */
  function GetTopPlayers(rows: seq<Entry>, boardSize: int, mode: GameMode, topN: nat): (r: seq<Entry>)
    ensures |r| == Min(topN, |CategoryRows(rows, boardSize, mode)|)
    ensures forall e :: e in r ==> e in rows && InCategory(e, boardSize, mode)
    ensures Sorted(r)
    ensures multiset(r) <= multiset(CategoryRows(rows, boardSize, mode))
    ensures forall e, x :: e in r && x in multiset(CategoryRows(rows, boardSize, mode)) - multiset(r) ==> !Less(x, e)
    ensures r == SortByKey(CategoryRows(rows, boardSize, mode))[..|r|]
  {
    var sorted := SortByKey(CategoryRows(rows, boardSize, mode));
    var k := Min(topN, |sorted|);
    PrefixIsTopWindow(CategoryRows(rows, boardSize, mode), sorted, k);
    sorted[..k]
  }

  /** A prefix of a sorted arrangement of `cat` is a top window of `cat`. */
  lemma PrefixIsTopWindow(cat: seq<Entry>, sorted: seq<Entry>, k: nat)
    requires Sorted(sorted) && multiset(sorted) == multiset(cat) && k <= |sorted|
    ensures Sorted(sorted[..k])
    ensures multiset(sorted[..k]) <= multiset(cat)
    ensures forall e :: e in sorted[..k] ==> e in cat
    ensures forall e, x :: e in sorted[..k] && x in multiset(cat) - multiset(sorted[..k]) ==> !Less(x, e)
  {
    var r := sorted[..k];
    assert sorted == r + sorted[k..];
    assert multiset(sorted) == multiset(r) + multiset(sorted[k..]);
    forall e | e in r
      ensures e in cat
    {
      assert e in multiset(sorted);
    }
    forall e, x | e in r && x in multiset(cat) - multiset(r)
      ensures !Less(x, e)
    {
      assert x in sorted[k..];
      var i :| 0 <= i < k && r[i] == e;
      var j :| 0 <= j < |sorted| - k && sorted[k..][j] == x;
      assert sorted[i] == e && sorted[k + j] == x;
    }
  }

  /**
   * The device's best row in the category, as `.order_by(time_seconds,
   * moves).first()` picks it: absent exactly when the device has no row
   * there, and otherwise a row of the device that none of its rows precedes.
   */
  function DeviceBest(rows: seq<Entry>, boardSize: int, mode: GameMode, deviceId: string): (r: Option<Entry>)
    ensures r.None? <==> forall e :: e in rows && InCategory(e, boardSize, mode) ==> e.deviceId != deviceId
    ensures r.Some? ==> r.value in rows && InCategory(r.value, boardSize, mode) && r.value.deviceId == deviceId
    ensures r.Some? ==> forall e :: e in rows && InCategory(e, boardSize, mode) && e.deviceId == deviceId ==> !Less(e, r.value)
  {
    var mine := DeviceRows(CategoryRows(rows, boardSize, mode), deviceId);
    if mine == [] then None
    else
      var sorted := SortByKey(mine);
      SortedHeadIsLeast(sorted);
      assert sorted[0] in multiset(mine);
      assert forall e :: e in mine ==> e in multiset(sorted);
      Some(sorted[0])
  }

  /**
   * `user_position`: absent exactly when the device has no row in the
   * category; otherwise 1 + the number of category rows strictly ahead of the
   * device's best row, a number between 1 and the category size.
   */
  function UserPosition(rows: seq<Entry>, boardSize: int, mode: GameMode, deviceId: string): (p: Option<nat>)
    ensures p.None? <==> forall e :: e in rows && InCategory(e, boardSize, mode) ==> e.deviceId != deviceId
    ensures p.Some? ==> 1 <= p.value <= |CategoryRows(rows, boardSize, mode)|
    ensures p.Some? ==> p.value == 1 + CountLess(CategoryRows(rows, boardSize, mode), DeviceBest(rows, boardSize, mode, deviceId).value)
  {
    match DeviceBest(rows, boardSize, mode, deviceId)
    case None => None
    case Some(best) =>
      CountLessBelow(CategoryRows(rows, boardSize, mode), best);
      Some(CountLess(CategoryRows(rows, boardSize, mode), best) + 1)
  }

  /**
   * The position does not depend on which of the device's rows is taken as
   * its best: it is 1 + the least number of category rows ahead of any of them.
   */
  lemma PositionIsBestOfDeviceRows(rows: seq<Entry>, boardSize: int, mode: GameMode, deviceId: string, row: Entry)
    requires row in rows && InCategory(row, boardSize, mode) && row.deviceId == deviceId
    ensures UserPosition(rows, boardSize, mode, deviceId).Some?
    ensures forall e :: e in rows && InCategory(e, boardSize, mode) && e.deviceId == deviceId ==>
      UserPosition(rows, boardSize, mode, deviceId).value <= 1 + CountLess(CategoryRows(rows, boardSize, mode), e)
    ensures exists e :: (e in rows && InCategory(e, boardSize, mode) && e.deviceId == deviceId &&
      UserPosition(rows, boardSize, mode, deviceId).value == 1 + CountLess(CategoryRows(rows, boardSize, mode), e))
  {
    var cat := CategoryRows(rows, boardSize, mode);
    var best := DeviceBest(rows, boardSize, mode, deviceId).value;
    forall e | e in rows && InCategory(e, boardSize, mode) && e.deviceId == deviceId
      ensures CountLess(cat, best) <= CountLess(cat, e)
    {
      CountLessMonotone(cat, best, e);
    }
  }

  /**
   * The counted position agrees with a lookup in the fully sorted category:
   * every row before index p-1 is strictly ahead of the device's best row,
   * the row at p-1 has the same key, and no later row is ahead of it.
   */
  lemma PositionMatchesFullSort(rows: seq<Entry>, boardSize: int, mode: GameMode, deviceId: string, row: Entry)
    requires row in rows && InCategory(row, boardSize, mode) && row.deviceId == deviceId
    ensures UserPosition(rows, boardSize, mode, deviceId).Some?
    ensures var p := UserPosition(rows, boardSize, mode, deviceId).value;
            var best := DeviceBest(rows, boardSize, mode, deviceId).value;
            var s := SortByKey(CategoryRows(rows, boardSize, mode));
            p <= |s| && SameKey(s[p - 1], best) &&
            (forall i :: 0 <= i < p - 1 ==> Less(s[i], best)) &&
            (forall i :: p - 1 <= i < |s| ==> !Less(s[i], best))
  {
    var cat := CategoryRows(rows, boardSize, mode);
    var best := DeviceBest(rows, boardSize, mode, deviceId).value;
    var s := SortByKey(cat);
    CountLessSort(cat, best);
    CountLessSorted(s, best);
    assert best in multiset(s);
    SortedRankHasKey(s, best);
  }

  /** Devices whose best rows have equal keys share a position. */
  lemma EqualKeysSharePosition(rows: seq<Entry>, boardSize: int, mode: GameMode, d1: string, d2: string)
    requires DeviceBest(rows, boardSize, mode, d1).Some? && DeviceBest(rows, boardSize, mode, d2).Some?
    requires SameKey(DeviceBest(rows, boardSize, mode, d1).value, DeviceBest(rows, boardSize, mode, d2).value)
    ensures UserPosition(rows, boardSize, mode, d1) == UserPosition(rows, boardSize, mode, d2)
  {
    var cat := CategoryRows(rows, boardSize, mode);
    var b1 := DeviceBest(rows, boardSize, mode, d1).value;
    var b2 := DeviceBest(rows, boardSize, mode, d2).value;
    CountLessSameKey(cat, b1, b2);
    var p1 := UserPosition(rows, boardSize, mode, d1);
    var p2 := UserPosition(rows, boardSize, mode, d2);
    assert p1.Some? && p2.Some?;
    assert p1.value == 1 + CountLess(cat, b1);
    assert p2.value == 1 + CountLess(cat, b2);
    assert CountLess(cat, b1) == CountLess(cat, b2);
    assert p1.value == p2.value;
    assert p1 == Some(p1.value) && p2 == Some(p2.value);
    assert p1 == p2;
  }

  /** What `get_leaderboard` computes before it is serialised. */
  datatype LeaderboardResult = LeaderboardResult(
    entries: seq<Entry>,
    totalCount: nat,
    boardSize: int,
    gameMode: GameMode,
    userPosition: Option<nat>)

  /**
   * `get_leaderboard`: the top `limit` window of the category, the size of
   * the whole category whatever the limit, the requested category echoed,
   * and the device's position, found by counting (the in-window shortcut is
   * never taken, `user_in_top` staying false).
   */
  function GetLeaderboard(rows: seq<Entry>, boardSize: int, mode: GameMode, limit: nat, deviceId: string): (r: LeaderboardResult)
    ensures r.entries == GetTopPlayers(rows, boardSize, mode, limit)
    ensures r.totalCount == |CategoryRows(rows, boardSize, mode)|
    ensures |r.entries| == Min(limit, r.totalCount)
    ensures r.boardSize == boardSize && r.gameMode == mode
    ensures r.userPosition == UserPosition(rows, boardSize, mode, deviceId)
    ensures r.userPosition.Some? ==> 1 <= r.userPosition.value <= r.totalCount
  {
    LeaderboardResult(
      GetTopPlayers(rows, boardSize, mode, limit),
      |CategoryRows(rows, boardSize, mode)|,
      boardSize,
      mode,
      UserPosition(rows, boardSize, mode, deviceId))
  }

  function EntryResponses(es: seq<Entry>): (r: seq<EntryResponse>)
    ensures |r| == |es|
    ensures forall i :: 0 <= i < |es| ==> r[i] == ToEntryResponse(es[i])
  {
    seq(|es|, i requires 0 <= i < |es| => ToEntryResponse(es[i]))
  }

  /**
   * The result as `schemas.LeaderboardResponse` keeps it: the declared
   * fields only, so the supplied `user_position` is dropped.
   */
  function ToDeclaredResponse(r: LeaderboardResult): (resp: LeaderboardResponse)
    ensures |resp.entries| == |r.entries|
    ensures forall i :: 0 <= i < |r.entries| ==> resp.entries[i] == ToEntryResponse(r.entries[i])
    ensures resp.totalCount == r.totalCount
    ensures resp.boardSize == r.boardSize && resp.gameMode == r.gameMode
  {
    LeaderboardResponse(EntryResponses(r.entries), r.totalCount, r.boardSize, r.gameMode)
  }

  /**
   * As written, the response a caller receives is the same whatever its
   * position: a device with a row in the category and one without get the
   * same body.
   */
  lemma DeclaredResponseLosesPosition()
    ensures var row := Entry(1, "a", "p", 10, 20, 3, Classic, 0);
            var ra := GetLeaderboard([row], 3, Classic, 50, "a");
            var rb := GetLeaderboard([row], 3, Classic, 50, "b");
            ra.userPosition == Some(1) && rb.userPosition == None &&
            ToDeclaredResponse(ra) == ToDeclaredResponse(rb)
  {
    var row := Entry(1, "a", "p", 10, 20, 3, Classic, 0);
    assert CategoryRows([row], 3, Classic) == [row];
    assert DeviceRows([row], "a") == [row];
    assert DeviceRows([row], "b") == [];
    assert CountLess([row], row) == 0;
  }

  /**
   * As written, the body of `GET /leaderboard/` does not depend on which
   * device asks: nothing in it distinguishes one caller from another.
   */
  lemma DeclaredResponseIgnoresDevice(rows: seq<Entry>, boardSize: int, mode: GameMode, limit: nat, d1: string, d2: string)
    ensures ToDeclaredResponse(GetLeaderboard(rows, boardSize, mode, limit, d1))
         == ToDeclaredResponse(GetLeaderboard(rows, boardSize, mode, limit, d2))
  {
  }

  /**
   * The response with `user_position` declared: it carries the counted
   * position, absent exactly when the device has no row in the category and
   * otherwise between 1 and the total count it is reported with.
   */
  function ToPositionedResponse(r: LeaderboardResult): (resp: PositionedResponse)
    ensures resp.userPosition == r.userPosition
    ensures resp.totalCount == r.totalCount
    ensures |resp.entries| == |r.entries|
    ensures forall i :: 0 <= i < |r.entries| ==> resp.entries[i] == ToEntryResponse(r.entries[i])
    ensures resp.boardSize == r.boardSize && resp.gameMode == r.gameMode
  {
    PositionedResponse(EntryResponses(r.entries), r.totalCount, r.boardSize, r.gameMode, r.userPosition)
  }

  /** The positioned response of `get_leaderboard` reports the caller's rank. */
  lemma PositionedResponseReportsRank(rows: seq<Entry>, boardSize: int, mode: GameMode, limit: nat, deviceId: string)
    ensures var resp := ToPositionedResponse(GetLeaderboard(rows, boardSize, mode, limit, deviceId));
            (resp.userPosition.None? <==> forall e :: e in rows && InCategory(e, boardSize, mode) ==> e.deviceId != deviceId) &&
            (resp.userPosition.Some? ==> 1 <= resp.userPosition.value <= resp.totalCount) &&
            resp.totalCount == |CategoryRows(rows, boardSize, mode)|
  {
  }
}
