/**
 * The `leaderboard` table's row type (models.py): the `GameMode` enumeration,
 * the `LeaderboardEntry` record and its `__repr__` text.
 */
module Models {

  /** `GameMode` of models.py: exactly the two members `classic` and `timed`. */
  datatype GameMode = Classic | Timed

  /** `GameMode.value`: the text a mode is stored as and shown with. */
  function ModeValue(m: GameMode): (v: string)
    ensures m == Classic <==> v == "classic"
    ensures m == Timed <==> v == "timed"
  {
    match m
    case Classic => "classic"
    case Timed => "timed"
  }

  /** `str()` of a `models.GameMode` member, as an f-string renders it. */
  function ModeRepr(m: GameMode): (s: string)
    ensures |s| >= 9 && s[..9] == "GameMode." && s[9..] == ModeValue(m)
    ensures forall i :: 0 <= i < |s| ==> s[i] != ',' && s[i] != ' '
  {
    "GameMode." + ModeValue(m)
  }

  /** Different modes render differently. */
  lemma ModeReprInjective(m1: GameMode, m2: GameMode)
    requires ModeRepr(m1) == ModeRepr(m2)
    ensures m1 == m2
  {
    assert ModeRepr(m1)[9..] == ModeRepr(m2)[9..];
  }

  /** The creation time of a row, an opaque value supplied by the caller. */
  type Timestamp = int

  /**
   * One row of the `leaderboard` table. Every column but `created_at` is
   * declared non-null, which the Dafny type makes true of every value.
   */
  datatype Entry = Entry(
    id: int,
    deviceId: string,
    playerName: string,
    timeSeconds: int,
    moves: int,
    boardSize: int,
    gameMode: GameMode,
    createdAt: Timestamp)

  /** The column-level bound: `player_name` is a `String(50)`. */
  predicate FitsColumns(e: Entry)
  {
    |e.playerName| <= 50
  }

  /** The primary key: no two rows of a table share an `id`. */
  predicate IdsUnique(rows: seq<Entry>)
  {
    forall i, j :: 0 <= i < |rows| && 0 <= j < |rows| && i != j ==> rows[i].id != rows[j].id
  }

  // ---------------------------------------------------------------------
  // Decimal text of integers, as Python's `str(int)` writes it.
  // ---------------------------------------------------------------------

  predicate IsDigit(c: char)
  {
    '0' <= c <= '9'
  }

  function DigitChar(d: int): (c: char)
    requires 0 <= d <= 9
    ensures IsDigit(c)
  {
    ('0' as int + d) as char
  }

  function DigitValue(c: char): int
  {
    c as int - '0' as int
  }

  /** Decimal digits of `n`, most significant first, without leading zeros. */
  function NatToString(n: nat): (s: string)
    ensures |s| >= 1
    ensures forall i :: 0 <= i < |s| ==> IsDigit(s[i])
    ensures n >= 10 ==> s[0] != '0'
  {
    if n < 10 then [DigitChar(n)] else NatToString(n / 10) + [DigitChar(n % 10)]
  }

  /** `str(n)` for any integer: a minus sign in front of negative numbers. */
  function IntToString(n: int): (s: string)
    ensures |s| >= 1
    ensures forall i :: 0 <= i < |s| ==> IsDigit(s[i]) || (i == 0 && s[i] == '-')
    ensures s[0] == '-' <==> n < 0
  {
    if n < 0 then "-" + NatToString(-n) else NatToString(n)
  }

  /** The number a string of decimal digits denotes (its reference reading). */
  function DecimalValue(s: string): int
  {
    if s == [] then 0 else 10 * DecimalValue(s[..|s| - 1]) + DigitValue(s[|s| - 1])
  }

  /** The number an optionally signed decimal string denotes. */
  function IntValue(s: string): int
  {
    if |s| > 0 && s[0] == '-' then -DecimalValue(s[1..]) else DecimalValue(s)
  }

  lemma {:induction false} NatToStringRoundTrip(n: nat)
    ensures DecimalValue(NatToString(n)) == n
  {
    if n >= 10 {
      var s := NatToString(n);
      var prefix := NatToString(n / 10);
      assert s[..|s| - 1] == prefix;
      NatToStringRoundTrip(n / 10);
    }
  }

  /** Reading back the text `str(n)` gives `n`: the rendering loses nothing. */
  lemma IntToStringRoundTrip(n: int)
    ensures IntValue(IntToString(n)) == n
  {
    if n < 0 {
      var s := IntToString(n);
      assert s[1..] == NatToString(-n);
      NatToStringRoundTrip(-n);
    } else {
      NatToStringRoundTrip(n);
    }
  }

  /**
   * `__repr__`: "<Leaderboard {player_name}: {time_seconds}s, {moves} moves,
   * {game_mode}, {n}x{n}>". The text is assembled from the right, one field
   * and the separator after it at a time, so that it can be read back field
   * by field (`ReprReadBack`).
   */
  function Repr(e: Entry): (s: string)
    ensures |s| >= |Opening| + |e.playerName| + 2
    ensures s[..|Opening| + |e.playerName|] == Opening + e.playerName
    ensures ClosesBoard(s, e.boardSize)
  {
    var rest := ReprFields(e);
    OpeningAndName(Opening, e.playerName, rest);
    ClosesBoardAfter(e.playerName, rest, e.boardSize);
    ClosesBoardAfter(Opening, e.playerName + rest, e.boardSize);
    Opening + (e.playerName + rest)
  }

  /** The text every `__repr__` starts with. */
  const Opening: string := "<Leaderboard "

  lemma OpeningAndName(a: string, n: string, f: string)
    ensures (a + (n + f))[..|a| + |n|] == a + n
  {
    var s := a + (n + f);
    assert forall i :: 0 <= i < |a| + |n| ==> s[i] == (a + n)[i];
  }

  /**
   * `s` ends with the last digit of `str(n)` and the closing bracket, as
   * the text of a row with board size `n` does.
   */
  predicate ClosesBoard(s: string, n: int)
  {
    var d := IntToString(n);
    |s| >= 2 && s[|s| - 1] == '>' && s[|s| - 2] == d[|d| - 1]
  }

  lemma ClosesBoardAfter(p: string, s: string, n: int)
    requires ClosesBoard(s, n)
    ensures ClosesBoard(p + s, n)
  {
    var t := p + s;
    assert t[|t| - 1] == s[|s| - 1] && t[|t| - 2] == s[|s| - 2];
  }

  /** The text after the player name. */
  function ReprFields(e: Entry): (s: string)
    ensures ClosesBoard(s, e.boardSize)
  {
    var rest := ReprAfterTime(e);
    ClosesBoardAfter(IntToString(e.timeSeconds), rest, e.boardSize);
    ClosesBoardAfter(": ", IntToString(e.timeSeconds) + rest, e.boardSize);
    ": " + (IntToString(e.timeSeconds) + rest)
  }

  /** The text after the time. */
  function ReprAfterTime(e: Entry): (s: string)
    ensures ClosesBoard(s, e.boardSize)
  {
    var rest := ReprAfterMoves(e);
    ClosesBoardAfter(IntToString(e.moves), rest, e.boardSize);
    ClosesBoardAfter("s, ", IntToString(e.moves) + rest, e.boardSize);
    "s, " + (IntToString(e.moves) + rest)
  }

  /** The text after the number of moves. */
  function ReprAfterMoves(e: Entry): (s: string)
    ensures ClosesBoard(s, e.boardSize)
  {
    var rest := ReprAfterMode(e);
    ClosesBoardAfter(ModeRepr(e.gameMode), rest, e.boardSize);
    ClosesBoardAfter(" moves, ", ModeRepr(e.gameMode) + rest, e.boardSize);
    " moves, " + (ModeRepr(e.gameMode) + rest)
  }

  /** The text after the mode. */
  function ReprAfterMode(e: Entry): (s: string)
    ensures ClosesBoard(s, e.boardSize)
  {
    ClosesBoardAfter(", ", ReprBoard(e), e.boardSize);
    ", " + ReprBoard(e)
  }

  /** The board dimensions and the closing bracket. */
  function ReprBoard(e: Entry): (s: string)
    ensures ClosesBoard(s, e.boardSize)
  {
    var d := IntToString(e.boardSize);
    var last := d + ">";
    assert last[|last| - 2] == d[|d| - 1];
    ClosesBoardAfter("x", last, e.boardSize);
    ClosesBoardAfter(d, "x" + last, e.boardSize);
    d + ("x" + last)
  }

  /** Equal texts that start alike continue alike. */
  lemma Unprefix(p: string, x: string, y: string)
    requires p + x == p + y
    ensures x == y
  {
    assert x == (p + x)[|p|..];
    assert y == (p + y)[|p|..];
  }

  /** The position of the first `c` in `s`, or `|s|` when there is none. */
  function FirstIndex(s: string, c: char): (k: nat)
    ensures k <= |s|
    ensures forall i :: 0 <= i < k ==> s[i] != c
    ensures k < |s| ==> s[k] == c
  {
    if s == [] then 0 else if s[0] == c then 0 else 1 + FirstIndex(s[1..], c)
  }

  /** In `d + r`, where `d` has no `c` and `r` starts with one, `c` first stands at `|d|`. */
  lemma FirstIndexAfter(d: string, r: string, c: char)
    requires forall i :: 0 <= i < |d| ==> d[i] != c
    requires |r| >= 1 && r[0] == c
    ensures FirstIndex(d + r, c) == |d|
  {
    var s := d + r;
    var k := FirstIndex(s, c);
    assert s[|d|] == c;
    assert forall i :: 0 <= i < |d| ==> s[i] == d[i];
  }

  /**
   * A field followed by its separator splits uniquely: if neither field
   * contains the separator `c` and both remainders start with it, equal
   * texts have equal fields and equal remainders.
   */
  lemma SplitAt(x1: string, r1: string, x2: string, r2: string, c: char)
    requires forall i :: 0 <= i < |x1| ==> x1[i] != c
    requires forall i :: 0 <= i < |x2| ==> x2[i] != c
    requires |r1| >= 1 && r1[0] == c && |r2| >= 1 && r2[0] == c
    requires x1 + r1 == x2 + r2
    ensures x1 == x2 && r1 == r2
  {
    FirstIndexAfter(x1, r1, c);
    FirstIndexAfter(x2, r2, c);
    assert x1 == (x1 + r1)[..|x1|];
    assert x2 == (x2 + r2)[..|x2|];
    assert r1 == (x1 + r1)[|x1|..];
    assert r2 == (x2 + r2)[|x2|..];
  }

  /** Equal decimal texts of two integers denote the same integer. */
  lemma IntToStringInjective(m: int, n: int)
    requires IntToString(m) == IntToString(n)
    ensures m == n
  {
    IntToStringRoundTrip(m);
    IntToStringRoundTrip(n);
  }

  /** The board part of the text determines the board size. */
  lemma BoardReadBack(a: Entry, b: Entry)
    requires ReprAfterMode(a) == ReprAfterMode(b)
    ensures a.boardSize == b.boardSize
  {
    Unprefix(", ", ReprBoard(a), ReprBoard(b));
    SplitAt(IntToString(a.boardSize), "x" + (IntToString(a.boardSize) + ">"),
            IntToString(b.boardSize), "x" + (IntToString(b.boardSize) + ">"), 'x');
    IntToStringInjective(a.boardSize, b.boardSize);
  }

  /** The text after the moves determines the mode and the board size. */
  lemma ModeReadBack(a: Entry, b: Entry)
    requires ReprAfterMoves(a) == ReprAfterMoves(b)
    ensures a.gameMode == b.gameMode && a.boardSize == b.boardSize
  {
    Unprefix(" moves, ", ModeRepr(a.gameMode) + ReprAfterMode(a), ModeRepr(b.gameMode) + ReprAfterMode(b));
    SplitAt(ModeRepr(a.gameMode), ReprAfterMode(a), ModeRepr(b.gameMode), ReprAfterMode(b), ',');
    ModeReprInjective(a.gameMode, b.gameMode);
    BoardReadBack(a, b);
  }

  /** The text after the time determines moves, mode and board size. */
  lemma MovesReadBack(a: Entry, b: Entry)
    requires ReprAfterTime(a) == ReprAfterTime(b)
    ensures a.moves == b.moves && a.gameMode == b.gameMode && a.boardSize == b.boardSize
  {
    Unprefix("s, ", IntToString(a.moves) + ReprAfterMoves(a), IntToString(b.moves) + ReprAfterMoves(b));
    SplitAt(IntToString(a.moves), ReprAfterMoves(a), IntToString(b.moves), ReprAfterMoves(b), ' ');
    IntToStringInjective(a.moves, b.moves);
    ModeReadBack(a, b);
  }

  /** The text after the player name determines all four remaining fields. */
  lemma FieldsReadBack(a: Entry, b: Entry)
    requires ReprFields(a) == ReprFields(b)
    ensures a.timeSeconds == b.timeSeconds && a.moves == b.moves
    ensures a.gameMode == b.gameMode && a.boardSize == b.boardSize
  {
    Unprefix(": ", IntToString(a.timeSeconds) + ReprAfterTime(a), IntToString(b.timeSeconds) + ReprAfterTime(b));
    SplitAt(IntToString(a.timeSeconds), ReprAfterTime(a), IntToString(b.timeSeconds), ReprAfterTime(b), 's');
    IntToStringInjective(a.timeSeconds, b.timeSeconds);
    MovesReadBack(a, b);
  }

  /**
   * The text of a row can be read back: two rows of the same player with
   * the same `__repr__` agree on time, moves, mode and board size.
   */
  lemma ReprReadBack(a: Entry, b: Entry)
    requires a.playerName == b.playerName
    requires Repr(a) == Repr(b)
    ensures a.timeSeconds == b.timeSeconds && a.moves == b.moves
    ensures a.gameMode == b.gameMode && a.boardSize == b.boardSize
  {
    Unprefix(Opening, a.playerName + ReprFields(a), b.playerName + ReprFields(b));
    Unprefix(a.playerName, ReprFields(a), ReprFields(b));
    FieldsReadBack(a, b);
  }

  /** A single digit prints as that one character. */
  lemma SingleDigitText(n: int)
    requires 0 <= n <= 9
    ensures IntToString(n) == [DigitChar(n)]
  {
  }

  /** Texts closing with different single-digit board sizes differ. */
  lemma ClosingsDiffer(s: string, t: string, m: int, n: int)
    requires 0 <= m <= 9 && 0 <= n <= 9 && m != n
    requires ClosesBoard(s, m) && ClosesBoard(t, n)
    ensures s != t
  {
    SingleDigitText(m);
    SingleDigitText(n);
    assert s[|s| - 2] == DigitChar(m) && t[|t| - 2] == DigitChar(n);
    assert DigitValue(DigitChar(m)) != DigitValue(DigitChar(n));
  }

  /** Two rows with different single-digit board sizes never print alike. */
  lemma ReprDistinguishesBoards(a: Entry, b: Entry)
    requires 0 <= a.boardSize <= 9 && 0 <= b.boardSize <= 9
    requires a.boardSize != b.boardSize
    ensures Repr(a) != Repr(b)
  {
    ClosingsDiffer(Repr(a), Repr(b), a.boardSize, b.boardSize);
  }
}
