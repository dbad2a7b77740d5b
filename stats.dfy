/**
 * The statistics endpoints: `get_player_stats` over all of a device's rows
 * and `get_detailed_stats`, the same aggregates per category.
 */
module Stats {
  import opened Wrappers
  import opened Models
  import opened Schemas
  import opened Query

  function Times(es: seq<Entry>): seq<int>
  {
    seq(|es|, i requires 0 <= i < |es| => es[i].timeSeconds)
  }

  function MovesOf(es: seq<Entry>): seq<int>
  {
    seq(|es|, i requires 0 <= i < |es| => es[i].moves)
  }

  /** SQL `MIN`: `NULL` on no rows, otherwise the least value, which occurs. */
  function MinOf(xs: seq<int>): (r: Option<int>)
    ensures r.None? <==> xs == []
    ensures r.Some? ==> r.value in xs && forall x :: x in xs ==> r.value <= x
  {
    if xs == [] then None
    else
      assert xs == [xs[0]] + xs[1..];
      match MinOf(xs[1..])
      case None => Some(xs[0])
      case Some(m) => Some(if xs[0] <= m then xs[0] else m)
  }

  function Sum(xs: seq<int>): int
  {
    if xs == [] then 0 else xs[0] + Sum(xs[1..])
  }

  lemma {:induction false} SumAppend(a: seq<int>, b: seq<int>)
    ensures Sum(a + b) == Sum(a) + Sum(b)
  {
    if a == [] {
      assert a + b == b;
    } else {
      assert (a + b)[1..] == a[1..] + b;
      SumAppend(a[1..], b);
    }
  }

  /**
   * A sum depends only on which values occur and how often, so `SUM` and
   * `AVG` over the rows do not depend on the order the rows come in.
   */
  lemma {:induction false} SumMultiset(xs: seq<int>, ys: seq<int>)
    requires multiset(xs) == multiset(ys)
    ensures Sum(xs) == Sum(ys)
    decreases |xs|
  {
    if xs == [] {
      assert |ys| == |multiset(ys)| == 0;
    } else {
      assert xs[0] in multiset(ys);
      var j :| 0 <= j < |ys| && ys[j] == xs[0];
      RemoveMatched(xs, ys, j);
      SumMultiset(xs[1..], ys[..j] + ys[j + 1..]);
      assert ys == ys[..j] + ([ys[j]] + ys[j + 1..]);
      SumAppend(ys[..j], [ys[j]] + ys[j + 1..]);
      SumAppend(ys[..j], ys[j + 1..]);
      assert ([ys[j]] + ys[j + 1..])[1..] == ys[j + 1..];
    }
  }

  lemma {:induction false} SumAtLeastCount(xs: seq<int>)
    requires forall i :: 0 <= i < |xs| ==> xs[i] >= 1
    ensures Sum(xs) >= |xs|
  {
    if xs != [] {
      SumAtLeastCount(xs[1..]);
    }
  }

  /** The least `time_seconds` of some rows; absent when there are none. */
  function BestTime(es: seq<Entry>): (r: Option<int>)
    ensures r.None? <==> es == []
    ensures r.Some? ==> exists e :: e in es && e.timeSeconds == r.value
    ensures r.Some? ==> forall e :: e in es ==> r.value <= e.timeSeconds
  {
    var r := MinOf(Times(es));
    assert forall e :: e in es ==> e.timeSeconds in Times(es) by {
      forall e | e in es ensures e.timeSeconds in Times(es) {
        var i :| 0 <= i < |es| && es[i] == e;
        assert Times(es)[i] == e.timeSeconds;
      }
    }
    assert r.Some? ==> exists i :: 0 <= i < |es| && Times(es)[i] == r.value;
    r
  }

  /** The least `moves` of some rows; absent when there are none. */
  function BestMoves(es: seq<Entry>): (r: Option<int>)
    ensures r.None? <==> es == []
    ensures r.Some? ==> exists e :: e in es && e.moves == r.value
    ensures r.Some? ==> forall e :: e in es ==> r.value <= e.moves
  {
    var r := MinOf(MovesOf(es));
    assert forall e :: e in es ==> e.moves in MovesOf(es) by {
      forall e | e in es ensures e.moves in MovesOf(es) {
        var i :| 0 <= i < |es| && es[i] == e;
        assert MovesOf(es)[i] == e.moves;
      }
    }
    assert r.Some? ==> exists i :: 0 <= i < |es| && MovesOf(es)[i] == r.value;
    r
  }

  /**
   * `float(avg) if avg else None` over SQL `AVG`: absent when there are no
   * values (`NULL`) and also when the average is zero (a falsy value).
   */
  function Average(xs: seq<int>): (r: Option<Mean>)
    ensures r.Some? <==> xs != [] && Sum(xs) != 0
    ensures r.Some? ==> r.value.count == |xs| > 0 && r.value.total == Sum(xs)
  {
    if xs == [] || Sum(xs) == 0 then None else Some(Mean(Sum(xs), |xs|))
  }

  /**
   * `get_player_stats`: the device's row count over all categories, and the
   * least time and least moves over those rows, taken independently; both
   * absent exactly when the device has no row.
   */
  function GetPlayerStats(rows: seq<Entry>, deviceId: string): (r: PlayerStats)
    ensures r.deviceId == deviceId
    ensures r.totalGames == |DeviceRows(rows, deviceId)|
    ensures r.bestTime.None? <==> forall e :: e in rows ==> e.deviceId != deviceId
    ensures r.bestMoves.None? <==> forall e :: e in rows ==> e.deviceId != deviceId
    ensures r.bestTime.Some? ==>
      (exists e :: e in rows && e.deviceId == deviceId && e.timeSeconds == r.bestTime.value) &&
      (forall e :: e in rows && e.deviceId == deviceId ==> r.bestTime.value <= e.timeSeconds)
    ensures r.bestMoves.Some? ==>
      (exists e :: e in rows && e.deviceId == deviceId && e.moves == r.bestMoves.value) &&
      (forall e :: e in rows && e.deviceId == deviceId ==> r.bestMoves.value <= e.moves)
    ensures r.averageTime == Average(Times(DeviceRows(rows, deviceId)))
    ensures r.averageMoves == Average(MovesOf(DeviceRows(rows, deviceId)))
  {
    var mine := DeviceRows(rows, deviceId);
    assert mine == [] <==> forall e :: e in rows ==> e.deviceId != deviceId by {
      if mine != [] { assert mine[0] in mine; }
    }
    PlayerStats(deviceId, |mine|, BestTime(mine), BestMoves(mine),
                Average(Times(mine)), Average(MovesOf(mine)))
  }

  /** The best time and the best moves may come from different rows. */
  lemma IndependentMinima()
    ensures var rows := [Entry(1, "d", "p", 10, 50, 4, Classic, 0), Entry(2, "d", "p", 30, 20, 4, Timed, 0)];
            var s := GetPlayerStats(rows, "d");
            s.bestTime == Some(10) && s.bestMoves == Some(20) &&
            forall e :: e in rows ==> !(e.timeSeconds == 10 && e.moves == 20)
  {
    var rows := [Entry(1, "d", "p", 10, 50, 4, Classic, 0), Entry(2, "d", "p", 30, 20, 4, Timed, 0)];
    var s := GetPlayerStats(rows, "d");
    assert rows[0] in rows && rows[0].deviceId == "d";
    assert forall e :: e in rows ==> e == rows[0] || e == rows[1];
    assert s.bestTime.value <= 10 && s.bestMoves.value <= 20;
  }

  /** Over valid rows the averages are present exactly when the device has played. */
  lemma ValidRowsHaveAverages(rows: seq<Entry>, deviceId: string)
    requires forall i :: 0 <= i < |rows| ==> RowValid(rows[i])
    ensures GetPlayerStats(rows, deviceId).averageTime.Some? <==> GetPlayerStats(rows, deviceId).totalGames > 0
    ensures GetPlayerStats(rows, deviceId).averageMoves.Some? <==> GetPlayerStats(rows, deviceId).totalGames > 0
  {
    var mine := DeviceRows(rows, deviceId);
    forall i | 0 <= i < |mine|
      ensures mine[i].timeSeconds >= 1 && mine[i].moves >= 1
    {
      assert mine[i] in rows;
    }
    SumAtLeastCount(Times(mine));
    SumAtLeastCount(MovesOf(mine));
  }

  // ---------------------------------------------------------------------
  // get_detailed_stats
  // ---------------------------------------------------------------------

  /** The board sizes and modes, in the order the loops visit them. */
  const Boards: seq<int> := [3, 4, 5]
  const Modes: seq<GameMode> := [Classic, Timed]
  const Categories: seq<(int, GameMode)> :=
    [(3, Classic), (3, Timed), (4, Classic), (4, Timed), (5, Classic), (5, Timed)]

  /** No category repeats, and every board size is 3, 4 or 5. */
  lemma CategoriesLayout()
    ensures |Categories| == |Boards| * |Modes|
    ensures forall i, j :: 0 <= i < j < |Categories| ==> Categories[i] != Categories[j]
    ensures forall i :: 0 <= i < |Categories| ==> 3 <= Categories[i].0 <= 5
  {
  }

  /** The loops visit board `i` with mode `j` as the category at `2 * i + j`. */
  lemma CategoryAt(i: nat, j: nat)
    requires i < |Boards| && j < |Modes|
    ensures 2 * i + j < |Categories| && Categories[2 * i + j] == (Boards[i], Modes[j])
  {
    if i == 0 {
      if j == 0 { assert Categories[0] == (3, Classic); } else { assert Categories[1] == (3, Timed); }
    } else if i == 1 {
      if j == 0 { assert Categories[2] == (4, Classic); } else { assert Categories[3] == (4, Timed); }
    } else {
      if j == 0 { assert Categories[4] == (5, Classic); } else { assert Categories[5] == (5, Timed); }
    }
  }

  /** The position of a category among those the loops visit. */
  function CategoryIndex(b: int, m: GameMode): (i: nat)
    requires 3 <= b <= 5
    ensures i < |Categories| && Categories[i] == (b, m)
  {
    var j := if m == Classic then 0 else 1;
    CategoryAt(b - 3, j);
    assert Boards[b - 3] == b && Modes[j] == m;
    2 * (b - 3) + j
  }

  /** The key of a category: "<mode>_<n>x<n>". */
  function CategoryKey(boardSize: int, mode: GameMode): (k: string)
    ensures |k| >= 5
    ensures 0 <= boardSize <= 9 ==> k[|k| - 1] == DigitChar(boardSize)
    ensures k[0] == (if mode == Classic then 'c' else 't')
  {
    ModeValue(mode) + "_" + IntToString(boardSize) + "x" + IntToString(boardSize)
  }

  function KeyOf(c: (int, GameMode)): string
  {
    CategoryKey(c.0, c.1)
  }

  /** Categories of single-digit boards have different keys. */
  lemma KeyInjective(b1: int, m1: GameMode, b2: int, m2: GameMode)
    requires 0 <= b1 <= 9 && 0 <= b2 <= 9
    requires CategoryKey(b1, m1) == CategoryKey(b2, m2)
    ensures b1 == b2 && m1 == m2
  {
    var k := CategoryKey(b1, m1);
    assert DigitChar(b1) == k[|k| - 1] == DigitChar(b2);
  }

  lemma KeysDiffer(c1: (int, GameMode), c2: (int, GameMode))
    requires 0 <= c1.0 <= 9 && 0 <= c2.0 <= 9 && c1 != c2
    ensures KeyOf(c1) != KeyOf(c2)
  {
    if KeyOf(c1) == KeyOf(c2) {
      KeyInjective(c1.0, c1.1, c2.0, c2.1);
    }
  }

  /** One device's rows in one category. */
  function DeviceCategoryRows(rows: seq<Entry>, deviceId: string, boardSize: int, mode: GameMode): (r: seq<Entry>)
    ensures forall e :: e in r <==> e in rows && InCategory(e, boardSize, mode) && e.deviceId == deviceId
    ensures forall e :: multiset(r)[e] == (if InCategory(e, boardSize, mode) && e.deviceId == deviceId
      then multiset(rows)[e] else 0)
  {
    DeviceRows(CategoryRows(rows, boardSize, mode), deviceId)
  }

  /** The per-category aggregates of `get_detailed_stats`, averages kept exact. */
  datatype CategoryStats = CategoryStats(
    gamesPlayed: nat,
    bestTime: int,
    bestMoves: int,
    averageTime: Mean,
    averageMoves: Mean)

  /**
   * The aggregates of a non-empty set of rows: their number, the least time
   * and the least moves (each reached by some row), and the exact means.
   */
  function StatsOf(es: seq<Entry>): (s: CategoryStats)
    requires es != []
    ensures s.gamesPlayed == |es|
    ensures (exists e :: e in es && e.timeSeconds == s.bestTime) && forall e :: e in es ==> s.bestTime <= e.timeSeconds
    ensures (exists e :: e in es && e.moves == s.bestMoves) && forall e :: e in es ==> s.bestMoves <= e.moves
    ensures s.averageTime == Mean(Sum(Times(es)), |es|)
    ensures s.averageMoves == Mean(Sum(MovesOf(es)), |es|)
  {
    CategoryStats(|es|, BestTime(es).value, BestMoves(es).value,
                  Mean(Sum(Times(es)), |es|), Mean(Sum(MovesOf(es)), |es|))
  }

  /** A category's entry in `get_detailed_stats`: present when the device has a row there. */
  function CategoryEntry(rows: seq<Entry>, deviceId: string, c: (int, GameMode)): (r: Option<CategoryStats>)
    ensures r.Some? <==> DeviceCategoryRows(rows, deviceId, c.0, c.1) != []
    ensures r.Some? ==> r.value == StatsOf(DeviceCategoryRows(rows, deviceId, c.0, c.1))
  {
    var es := DeviceCategoryRows(rows, deviceId, c.0, c.1);
    if es == [] then None else Some(StatsOf(es))
  }

  /** The entries of the categories `cats`, in order. */
  function Entries(rows: seq<Entry>, deviceId: string, cats: seq<(int, GameMode)>): (r: seq<Option<CategoryStats>>)
    ensures |r| == |cats|
    ensures forall i :: 0 <= i < |cats| ==> r[i] == CategoryEntry(rows, deviceId, cats[i])
  {
    seq(|cats|, i requires 0 <= i < |cats| => CategoryEntry(rows, deviceId, cats[i]))
  }

  /** The dictionary after storing, in order, the first `n` present values under their keys. */
  function Collect<K>(keys: seq<K>, vals: seq<Option<CategoryStats>>, n: nat): map<K, CategoryStats>
    requires n <= |keys| == |vals|
  {
    if n == 0 then map[]
    else
      var before := Collect(keys, vals, n - 1);
      if vals[n - 1].None? then before else before[keys[n - 1] := vals[n - 1].value]
  }

  /** Step `n` stores its key with its value when the value is present, and changes nothing otherwise. */
  lemma CollectNext<K>(keys: seq<K>, vals: seq<Option<CategoryStats>>, n: nat)
    requires n < |keys| == |vals|
    ensures Collect(keys, vals, n + 1) ==
      if vals[n].None? then Collect(keys, vals, n) else Collect(keys, vals, n)[keys[n] := vals[n].value]
  {
  }

  /** After `n` steps there are at most `n` keys, each one of the first `n`. */
  lemma {:induction false} CollectKeys<K>(keys: seq<K>, vals: seq<Option<CategoryStats>>, n: nat)
    requires n <= |keys| == |vals|
    ensures |Collect(keys, vals, n).Keys| <= n
    ensures forall k :: k in Collect(keys, vals, n) ==> exists i :: 0 <= i < n && k == keys[i]
  {
    if n > 0 {
      CollectKeys(keys, vals, n - 1);
      var before := Collect(keys, vals, n - 1);
      assert Collect(keys, vals, n).Keys <= before.Keys + {keys[n - 1]};
      assert |before.Keys + {keys[n - 1]}| <= |before.Keys| + 1;
    }
  }

  /**
   * With distinct keys, after `n` steps the key at index `i < n` is stored
   * exactly when its value is present, and then with that value.
   */
  lemma {:induction false} CollectAt<K>(keys: seq<K>, vals: seq<Option<CategoryStats>>, n: nat, i: nat)
    requires i < n <= |keys| == |vals|
    requires forall j, l :: 0 <= j < l < |keys| ==> keys[j] != keys[l]
    ensures keys[i] in Collect(keys, vals, n) <==> vals[i].Some?
    ensures keys[i] in Collect(keys, vals, n) ==> Collect(keys, vals, n)[keys[i]] == vals[i].value
  {
    if i < n - 1 {
      CollectAt(keys, vals, n - 1, i);
    } else {
      CollectKeys(keys, vals, n - 1);
    }
  }

  /** The keys of the six categories, in visiting order; no two alike. */
  function CategoryKeys(): (ks: seq<string>)
    ensures |ks| == |Categories|
    ensures forall i :: 0 <= i < |Categories| ==> ks[i] == KeyOf(Categories[i])
    ensures forall j, l :: 0 <= j < l < |ks| ==> ks[j] != ks[l]
  {
    CategoriesLayout();
    var ks := seq(|Categories|, i requires 0 <= i < |Categories| => KeyOf(Categories[i]));
    assert forall j, l :: 0 <= j < l < |ks| ==> ks[j] != ks[l] by {
      forall j, l | 0 <= j < l < |ks| ensures ks[j] != ks[l] {
        KeysDiffer(Categories[j], Categories[l]);
      }
    }
    ks
  }

  /** A single-digit board's key is "<mode>_<n>x<n>" with one digit for each n. */
  lemma SingleDigitKey(b: int, m: GameMode)
    requires 0 <= b <= 9
    ensures CategoryKey(b, m) == ModeValue(m) + "_" + [DigitChar(b)] + "x" + [DigitChar(b)]
  {
    assert IntToString(b) == [DigitChar(b)];
  }

  /** The six keys, written out, in the order the loops produce them. */
  const ListedKeys: seq<string> :=
    ["classic_3x3", "timed_3x3", "classic_4x4", "timed_4x4", "classic_5x5", "timed_5x5"]

  /** The key of the category at step `i` of the loops, as written out. */
  lemma ListedKeyAt(i: nat)
    requires i < |Categories|
    ensures KeyOf(Categories[i]) == ListedKeys[i]
  {
    var c := Categories[i];
    SingleDigitKey(c.0, c.1);
    assert DigitChar(3) == '3' && DigitChar(4) == '4' && DigitChar(5) == '5';
  }

  /** The statistics of `get_detailed_stats`. */
  datatype DetailedStats = DetailedStats(deviceId: string, statistics: map<string, CategoryStats>)

  /** The statistics of `get_detailed_stats` as a value: all six categories visited. */
  function DetailedStatsOf(rows: seq<Entry>, deviceId: string): map<string, CategoryStats>
  {
    Collect(CategoryKeys(), Entries(rows, deviceId, Categories), |Categories|)
  }

  /**
   * `get_detailed_stats`: for each board size and then each mode, the
   * device's rows in that category are aggregated under the category's key
   * when there are any. The result holds at most six keys, one exactly for
   * each category where the device has a row, each with that category's
   * aggregates.
   */
  method GetDetailedStats(rows: seq<Entry>, deviceId: string) returns (r: DetailedStats)
    ensures r.deviceId == deviceId
    ensures r.statistics == DetailedStatsOf(rows, deviceId)
    ensures DetailedShape(r.statistics, rows, deviceId)
  {
    ghost var keys, vals := CategoryKeys(), Entries(rows, deviceId, Categories);
    ghost var k := 0;
    var stats: map<string, CategoryStats> := map[];
    for i := 0 to |Boards|
      invariant k == 2 * i && stats == Collect(keys, vals, k)
    {
      for j := 0 to |Modes|
        invariant k == 2 * i + j && stats == Collect(keys, vals, k)
      {
        var boardSize, mode := Boards[i], Modes[j];
        var key := CategoryKey(boardSize, mode);
        var entries := DeviceCategoryRows(rows, deviceId, boardSize, mode);
        CategoryAt(i, j);
        CollectNext(keys, vals, k);
        assert keys[k] == key && vals[k] == CategoryEntry(rows, deviceId, (boardSize, mode));
        if entries != [] {
          stats := stats[key := StatsOf(entries)];
        }
        k := k + 1;
      }
    }
    assert k == |keys|;
    r := DetailedStats(deviceId, stats);
    DetailedStatsShape(rows, deviceId);
  }

  /**
   * The shape of per-category statistics: at most six keys, a key for a
   * category exactly when the device has a row in it, under it that
   * category's aggregates, and no key that is not a category's.
   */
  predicate DetailedShape(s: map<string, CategoryStats>, rows: seq<Entry>, deviceId: string)
  {
    |s.Keys| <= 6 &&
    (forall b, m :: 3 <= b <= 5 ==>
       (CategoryKey(b, m) in s <==> DeviceCategoryRows(rows, deviceId, b, m) != [])) &&
    (forall b, m :: 3 <= b <= 5 && CategoryKey(b, m) in s ==>
       s[CategoryKey(b, m)] == StatsOf(DeviceCategoryRows(rows, deviceId, b, m))) &&
    (forall k :: k in s ==> exists b, m :: 3 <= b <= 5 && k == CategoryKey(b, m))
  }

  /** The statistics `get_detailed_stats` computes have that shape. */
  lemma DetailedStatsShape(rows: seq<Entry>, deviceId: string)
    ensures DetailedShape(DetailedStatsOf(rows, deviceId), rows, deviceId)
  {
    DetailedStatsKeys(rows, deviceId);
    forall b, m | 3 <= b <= 5
      ensures CategoryKey(b, m) in DetailedStatsOf(rows, deviceId) <==> DeviceCategoryRows(rows, deviceId, b, m) != []
      ensures CategoryKey(b, m) in DetailedStatsOf(rows, deviceId) ==>
        DetailedStatsOf(rows, deviceId)[CategoryKey(b, m)] == StatsOf(DeviceCategoryRows(rows, deviceId, b, m))
    {
      DetailedStatsAt(rows, deviceId, b, m);
    }
  }

  /**
   * The statistics hold a key for a category exactly when the device has a
   * row in it, and under it that category's aggregates.
   */
  lemma DetailedStatsAt(rows: seq<Entry>, deviceId: string, b: int, m: GameMode)
    requires 3 <= b <= 5
    ensures CategoryKey(b, m) in DetailedStatsOf(rows, deviceId) <==> DeviceCategoryRows(rows, deviceId, b, m) != []
    ensures CategoryKey(b, m) in DetailedStatsOf(rows, deviceId) ==>
      DetailedStatsOf(rows, deviceId)[CategoryKey(b, m)] == StatsOf(DeviceCategoryRows(rows, deviceId, b, m))
  {
    var keys, vals := CategoryKeys(), Entries(rows, deviceId, Categories);
    var i := CategoryIndex(b, m);
    assert keys[i] == CategoryKey(b, m);
    assert vals[i] == CategoryEntry(rows, deviceId, (b, m));
    CollectAt(keys, vals, |Categories|, i);
  }

  /** The statistics hold at most six keys, each the key of a category. */
  lemma DetailedStatsKeys(rows: seq<Entry>, deviceId: string)
    ensures |DetailedStatsOf(rows, deviceId).Keys| <= 6
    ensures forall k :: k in DetailedStatsOf(rows, deviceId) ==> exists b, m :: 3 <= b <= 5 && k == CategoryKey(b, m)
  {
    CategoriesLayout();
    var keys, vals := CategoryKeys(), Entries(rows, deviceId, Categories);
    CollectKeys(keys, vals, |keys|);
    forall k | k in DetailedStatsOf(rows, deviceId)
      ensures exists b, m :: 3 <= b <= 5 && k == CategoryKey(b, m)
    {
      var i :| 0 <= i < |keys| && k == keys[i];
      assert k == CategoryKey(Categories[i].0, Categories[i].1) && 3 <= Categories[i].0 <= 5;
    }
  }
}
