/**
 * The relational operations the endpoints are built from: filtering by
 * category and by device, `ORDER BY time_seconds, moves`, and counting the
 * rows that precede a given one in that order.
 */
module Query {
  import opened Models

  /** A row of the category (board_size, game_mode). */
  predicate InCategory(e: Entry, boardSize: int, mode: GameMode)
  {
    e.boardSize == boardSize && e.gameMode == mode
  }

  /** `a` precedes `b` under `ORDER BY time_seconds, moves`; the same for both modes. */
  predicate Less(a: Entry, b: Entry)
  {
    a.timeSeconds < b.timeSeconds || (a.timeSeconds == b.timeSeconds && a.moves < b.moves)
  }

  /**
   * `Less` is a strict order whose incomparable pairs are exactly the rows
   * with equal keys, so sorting by it is well defined up to ties.
   */
  lemma LessIsStrictWeakOrder(a: Entry, b: Entry, c: Entry)
    ensures !Less(a, a)
    ensures Less(a, b) && Less(b, c) ==> Less(a, c)
    ensures !Less(a, b) && !Less(b, a) <==> SameKey(a, b)
    ensures Less(a, b) ==> !Less(b, a)
  {
  }

  /** Equal sort keys: neither row precedes the other. */
  predicate SameKey(a: Entry, b: Entry)
  {
    a.timeSeconds == b.timeSeconds && a.moves == b.moves
  }

  /** Ascending by (time_seconds, moves); rows with equal keys may come in any order. */
  predicate Sorted(s: seq<Entry>)
  {
    forall i, j :: 0 <= i < j < |s| ==> !Less(s[j], s[i])
  }

  /** The rows of one category, in table order. */
  function CategoryRows(rows: seq<Entry>, boardSize: int, mode: GameMode): (r: seq<Entry>)
    ensures |r| <= |rows|
    ensures forall e :: multiset(r)[e] == if InCategory(e, boardSize, mode) then multiset(rows)[e] else 0
    ensures forall e :: e in r <==> e in rows && InCategory(e, boardSize, mode)
  {
    if rows == [] then []
    else
      assert rows == [rows[0]] + rows[1..];
      var rest := CategoryRows(rows[1..], boardSize, mode);
      if InCategory(rows[0], boardSize, mode) then [rows[0]] + rest else rest
  }

  /** The rows of one device, in table order. */
  function DeviceRows(rows: seq<Entry>, deviceId: string): (r: seq<Entry>)
    ensures |r| <= |rows|
    ensures forall e :: multiset(r)[e] == if e.deviceId == deviceId then multiset(rows)[e] else 0
    ensures forall e :: e in r <==> e in rows && e.deviceId == deviceId
  {
    if rows == [] then []
    else
      assert rows == [rows[0]] + rows[1..];
      var rest := DeviceRows(rows[1..], deviceId);
      if rows[0].deviceId == deviceId then [rows[0]] + rest else rest
  }

  /** Places `x` in front of the first row of `s` that does not precede it. */
  function Insert(x: Entry, s: seq<Entry>): seq<Entry>
  {
    if s == [] || !Less(s[0], x) then [x] + s else [s[0]] + Insert(x, s[1..])
  }

  lemma {:induction false} InsertSorted(x: Entry, s: seq<Entry>)
    requires Sorted(s)
    ensures Sorted(Insert(x, s))
    ensures multiset(Insert(x, s)) == multiset(s) + multiset{x}
  {
    if s == [] || !Less(s[0], x) {
    } else {
      assert s == [s[0]] + s[1..];
      InsertSorted(x, s[1..]);
      var rest := Insert(x, s[1..]);
      forall k | 0 <= k < |rest|
        ensures !Less(rest[k], s[0])
      {
        assert rest[k] in multiset(rest);
      }
    }
  }

  /**
   * The category as the store returns it under `ORDER BY time_seconds, moves`:
   * one admissible order (stable by table order) among rows with equal keys.
   */
  function SortByKey(s: seq<Entry>): (r: seq<Entry>)
    ensures Sorted(r)
    ensures multiset(r) == multiset(s)
    ensures |r| == |s|
  {
    if s == [] then []
    else
      assert s == [s[0]] + s[1..];
      var rest := SortByKey(s[1..]);
      InsertSorted(s[0], rest);
      assert |multiset(Insert(s[0], rest))| == |multiset(s)|;
      Insert(s[0], rest)
  }

  /** The number of rows of `s` that strictly precede `x`. */
  function CountLess(s: seq<Entry>, x: Entry): (c: nat)
    ensures c <= |s|
    ensures c == 0 <==> forall i :: 0 <= i < |s| ==> !Less(s[i], x)
  {
    assert forall i :: 1 <= i < |s| ==> s[i] == s[1..][i - 1];
    if s == [] then 0 else (if Less(s[0], x) then 1 else 0) + CountLess(s[1..], x)
  }

  lemma {:induction false} CountLessInsert(y: Entry, t: seq<Entry>, x: Entry)
    ensures CountLess(Insert(y, t), x) == CountLess(t, x) + (if Less(y, x) then 1 else 0)
  {
    if t == [] || !Less(t[0], y) {
      assert ([y] + t)[1..] == t;
    } else {
      CountLessInsert(y, t[1..], x);
      assert ([t[0]] + Insert(y, t[1..]))[1..] == Insert(y, t[1..]);
    }
  }

  /** Counting the preceding rows does not depend on the order of the rows. */
  lemma {:induction false} CountLessSort(s: seq<Entry>, x: Entry)
    ensures CountLess(SortByKey(s), x) == CountLess(s, x)
  {
    if s != [] {
      CountLessSort(s[1..], x);
      CountLessInsert(s[0], SortByKey(s[1..]), x);
    }
  }

  /**
   * In a sorted sequence the rows that precede `x` are exactly the first
   * `CountLess(s, x)` ones.
   */
  lemma {:induction false} CountLessSorted(s: seq<Entry>, x: Entry)
    requires Sorted(s)
    ensures forall i :: 0 <= i < CountLess(s, x) ==> Less(s[i], x)
    ensures forall i :: CountLess(s, x) <= i < |s| ==> !Less(s[i], x)
  {
    if s != [] {
      CountLessSorted(s[1..], x);
      if !Less(s[0], x) {
        assert forall i :: 0 <= i < |s| ==> !Less(s[i], x) by {
          forall i | 0 <= i < |s| ensures !Less(s[i], x) {
            if i > 0 { assert !Less(s[i], s[0]); }
          }
        }
      }
    }
  }

  /**
   * In a sorted sequence that contains `x`, the row at index `CountLess(s, x)`
   * has the same key as `x`: the count is where `x`'s key first occurs.
   */
  lemma SortedRankHasKey(s: seq<Entry>, x: Entry)
    requires Sorted(s) && x in s
    ensures CountLess(s, x) < |s| && SameKey(s[CountLess(s, x)], x)
  {
    CountLessSorted(s, x);
    var k := CountLess(s, x);
    var j :| 0 <= j < |s| && s[j] == x;
    assert k <= j;
    assert !Less(s[k], x);
    if k < j {
      assert !Less(s[j], s[k]);
    }
  }

  /** Rows with equal keys have the same number of rows ahead of them. */
  lemma {:induction false} CountLessSameKey(s: seq<Entry>, a: Entry, b: Entry)
    requires SameKey(a, b)
    ensures CountLess(s, a) == CountLess(s, b)
  {
    if s != [] {
      CountLessSameKey(s[1..], a, b);
    }
  }

  /** If `b` does not precede `a`, no more rows precede `a` than precede `b`. */
  lemma {:induction false} CountLessMonotone(s: seq<Entry>, a: Entry, b: Entry)
    requires !Less(b, a)
    ensures CountLess(s, a) <= CountLess(s, b)
  {
    if s != [] {
      CountLessMonotone(s[1..], a, b);
    }
  }

  /** A row of `s` is not counted against itself, so fewer than |s| rows precede it. */
  lemma {:induction false} CountLessBelow(s: seq<Entry>, x: Entry)
    requires x in s
    ensures CountLess(s, x) < |s|
  {
    if s[0] != x {
      CountLessBelow(s[1..], x);
    }
  }

  /** Splitting the rows in two splits the count in two. */
  lemma {:induction false} CountLessAppend(a: seq<Entry>, b: seq<Entry>, x: Entry)
    ensures CountLess(a + b, x) == CountLess(a, x) + CountLess(b, x)
  {
    if a == [] {
      assert a + b == b;
    } else {
      assert (a + b)[1..] == a[1..] + b;
      CountLessAppend(a[1..], b, x);
    }
  }

  /** Taking a matched element out of two equal multisets leaves equal multisets. */
  lemma RemoveMatched<T>(s: seq<T>, t: seq<T>, j: int)
    requires multiset(s) == multiset(t) && |s| > 0
    requires 0 <= j < |t| && t[j] == s[0]
    ensures multiset(s[1..]) == multiset(t[..j] + t[j + 1..])
  {
    assert s == [s[0]] + s[1..];
    assert t == t[..j] + [t[j]] + t[j + 1..];
    calc {
      multiset(s[1..]);
      multiset(s) - multiset{s[0]};
      multiset(t) - multiset{t[j]};
      multiset(t[..j]) + multiset(t[j + 1..]);
      multiset(t[..j] + t[j + 1..]);
    }
  }

  /**
   * The count of rows ahead of `x` depends only on which rows there are and
   * how often, so any arrangement of the same rows counts the same.
   */
  lemma {:induction false} CountLessMultiset(s: seq<Entry>, t: seq<Entry>, x: Entry)
    requires multiset(s) == multiset(t)
    ensures CountLess(s, x) == CountLess(t, x)
    decreases |s|
  {
    if s == [] {
      assert |t| == |multiset(t)| == 0;
    } else {
      var y := s[0];
      assert y in multiset(t);
      var j :| 0 <= j < |t| && t[j] == y;
      var rest := t[..j] + t[j + 1..];
      assert t == t[..j] + ([y] + t[j + 1..]);
      RemoveMatched(s, t, j);
      CountLessMultiset(s[1..], rest, x);
      CountLessAppend(t[..j], [y] + t[j + 1..], x);
      CountLessAppend(t[..j], t[j + 1..], x);
      assert ([y] + t[j + 1..])[1..] == t[j + 1..];
    }
  }

  /** No row of a sorted, non-empty sequence precedes its first row. */
  lemma SortedHeadIsLeast(s: seq<Entry>)
    requires Sorted(s) && |s| > 0
    ensures forall e :: e in s ==> !Less(e, s[0])
  {
  }
}
