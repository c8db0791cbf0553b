/** The 8-puzzle board as a value: the row-major tile sequence that the `Game`
    class keeps in its array (0 is the blank), the search for a blank
    neighbour, a single move, the Fisher-Yates pass of the shuffle and the
    symbol the user interface shows for a tile, with the properties that the
    class relies on. */
module Board {

  datatype Option<+T> = None | Some(value: T)

  /** The board the parameterless constructor builds: 0..8 in order, so the
      blank sits in the top-left cell. */
  const DefaultTiles: seq<int> := [0, 1, 2, 3, 4, 5, 6, 7, 8]

  /** The solved board: 1..8 in order and the blank in the bottom-right cell. */
  const GoalTiles: seq<int> := [1, 2, 3, 4, 5, 6, 7, 8, 0]

  /** Each of the tiles 0..8 exactly once: nine cells holding distinct
      tiles from 0..8. */
  predicate IsPermutation(s: seq<int>) {
    |s| == 9 &&
    (forall i :: 0 <= i < |s| ==> 0 <= s[i] < 9) &&
    (forall i, j :: 0 <= i < j < |s| ==> s[i] != s[j])
  }

  // ---------------------------------------------------------------------
  // The solved check

  /** What `IsSolved` tests: every cell but the last holds its position plus one. */
  predicate InOrder(s: seq<int>) {
    forall i :: 0 <= i < |s| - 1 ==> s[i] == i + 1
  }

  /** On a permutation of 0..8 the check accepts exactly the goal board: the
      last cell, which it never looks at, is forced to hold the blank. */
  lemma {:induction false} SolvedIsGoal(s: seq<int>)
    ensures IsPermutation(s) ==> (InOrder(s) <==> s == GoalTiles)
  {
    if IsPermutation(s) && InOrder(s) {
      assert s[0] == 1 && s[1] == 2 && s[2] == 3 && s[3] == 4;
      assert s[4] == 5 && s[5] == 6 && s[6] == 7 && s[7] == 8;
      assert s[8] == 0;
    }
  }

  // ---------------------------------------------------------------------
  // The symbol shown for a tile

  /** The character of a decimal digit. */
  function DigitChar(d: nat): char
    requires d < 10
  {
    (48 + d) as char
  }

  /** The decimal digits of a natural number, most significant first, with no
      leading zero. */
  function Digits(v: nat): (r: seq<char>)
    ensures |r| >= 1
    ensures forall i :: 0 <= i < |r| ==> '0' <= r[i] <= '9'
    ensures r[0] == '0' <==> v == 0
    ensures v < 10 ==> r == [DigitChar(v)]
    decreases v
  {
    if v < 10 then [DigitChar(v)] else Digits(v / 10) + [DigitChar(v % 10)]
  }

  /** The text of an integer in the invariant culture: a minus sign before the
      digits of the magnitude when it is negative. */
  function Decimal(v: int): seq<char> {
    if v < 0 then ['-'] + Digits(-v) else Digits(v)
  }

  /** Replacing every '0' by ' ' in a text. */
  function ZerosBlanked(t: seq<char>): seq<char> {
    seq(|t|, i requires 0 <= i < |t| => if t[i] == '0' then ' ' else t[i])
  }

  /** The tile a displayed symbol stands for, on single-digit tiles. */
  function TileOf(c: char): int {
    if c == ' ' then 0 else c as int - 48
  }

  /** The symbol the indexer shows for a tile: the first character of its
      decimal text once zeros are blanked. Only the blank shows as ' ', and a
      single-digit tile can be read back from its symbol. */
  function Symbol(v: int): (c: char)
    ensures c == ' ' <==> v == 0
    ensures v < 0 ==> c == '-'
    ensures 0 < v ==> '1' <= c <= '9'
    ensures 0 <= v < 10 ==> TileOf(c) == v
  {
    ZerosBlanked(Decimal(v))[0]
  }

  /** Tiles of two or more digits show only their leading digit, so the
      symbol of 10 is that of 1. */
  lemma SymbolKeepsLeadingDigit()
    ensures Symbol(10) == Symbol(1) == '1'
    ensures Symbol(-7) == '-'
  {
  }

  // ---------------------------------------------------------------------
  // Neighbours of a cell

  /** `/` on C# integers: the quotient truncated toward zero. */
  function TruncDiv(a: int, b: int): int
    requires b > 0
  {
    if a >= 0 then a / b else -((-a) / b)
  }

  /** `%` on C# integers: the remainder takes the sign of the dividend. */
  function TruncRem(a: int, b: int): int
    requires b > 0
  {
    a - b * TruncDiv(a, b)
  }

  /** `IsBlank`: a position inside the board whose tile is 0; it never
      looks outside the board. */
  predicate IsBlank(s: seq<int>, i: int) {
    0 <= i < |s| && s[i] == 0
  }

  /** `GetBlankNeighbourIndex`: the first blank among the cells to the right,
      to the left, below and above `index`, each looked at only when the 3x3
      grid has a cell on that side. Whatever `index` is, the result is a
      position inside the board that holds the blank. */
  function BlankNeighbourIndex(s: seq<int>, index: int): (r: Option<int>)
    ensures r.Some? ==> 0 <= r.value < |s| && s[r.value] == 0
    ensures r.Some? ==> r.value != index
  {
    var row, col := TruncDiv(index, 3), TruncRem(index, 3);
    if col < 2 && IsBlank(s, index + 1) then Some(index + 1)
    else if col > 0 && IsBlank(s, index - 1) then Some(index - 1)
    else if row < 2 && IsBlank(s, index + 3) then Some(index + 3)
    else if row > 0 && IsBlank(s, index - 3) then Some(index - 3)
    else None
  }

  /** The reference notion of adjacency: two cells of the 3x3 grid that share
      a side, that is, the same row and neighbouring columns or the same
      column and neighbouring rows. */
  predicate Adjacent(i: int, j: int) {
    0 <= i < 9 && 0 <= j < 9 &&
    ((i / 3 == j / 3 && (i % 3 == j % 3 + 1 || j % 3 == i % 3 + 1)) ||
     (i % 3 == j % 3 && (i / 3 == j / 3 + 1 || j / 3 == i / 3 + 1)))
  }

  /** The cells a cell of the 3x3 grid shares a side with. */
  lemma AdjacentCells(i: int, j: int)
    requires 0 <= i < 9
    ensures Adjacent(i, j) <==>
      (i % 3 < 2 && j == i + 1) || (i % 3 > 0 && j == i - 1) ||
      (i / 3 < 2 && j == i + 3) || (i / 3 > 0 && j == i - 3)
  {
  }

  /** The neighbour search is edge-aware: on a 3x3 board it finds a blank
      exactly when a cell sharing a side with `index` holds one, and what it
      finds shares a side with `index`, so a move never wraps between rows. */
  lemma NeighbourIsAdjacentBlank(s: seq<int>, index: int)
    requires |s| == 9 && 0 <= index < 9
    ensures BlankNeighbourIndex(s, index).Some? ==>
      Adjacent(index, BlankNeighbourIndex(s, index).value)
    ensures BlankNeighbourIndex(s, index).None? <==>
      forall j :: Adjacent(index, j) ==> s[j] != 0
  {
  }

  // ---------------------------------------------------------------------
  // Moves

  /** `Swap`: the board with the tiles at `n` and `k` exchanged. */
  function Swapped(s: seq<int>, n: int, k: int): (r: seq<int>)
    requires 0 <= n < |s| && 0 <= k < |s|
    ensures |r| == |s| && r[n] == s[k] && r[k] == s[n]
    ensures forall i :: 0 <= i < |s| && i != n && i != k ==> r[i] == s[i]
  {
    s[n := s[k]][k := s[n]]
  }

  /** An exchange of two cells keeps the tiles, and so keeps a board a
      permutation of 0..8. */
  lemma SwapKeepsTiles(s: seq<int>, n: int, k: int)
    requires 0 <= n < |s| && 0 <= k < |s|
    ensures multiset(Swapped(s, n, k)) == multiset(s)
    ensures IsPermutation(s) ==> IsPermutation(Swapped(s, n, k))
  {
  }

  /** The board after playing `index`, or None when no cell next to it holds
      the blank. A move exchanges exactly the played tile and the blank next
      to it and keeps the tiles. The requires is the case in which the class
      does not fail: an index outside the board with a blank neighbour would
      reach `Swap` out of bounds. */
  function Move(s: seq<int>, index: int): (r: Option<seq<int>>)
    requires 0 <= index < |s| || BlankNeighbourIndex(s, index).None?
    ensures r.None? <==> BlankNeighbourIndex(s, index).None?
    ensures r.Some? ==>
      var j := BlankNeighbourIndex(s, index).value;
      |r.value| == |s| && r.value[index] == 0 && r.value[j] == s[index] &&
      forall k :: 0 <= k < |s| && k != index && k != j ==> r.value[k] == s[k]
    ensures r.Some? ==> multiset(r.value) == multiset(s)
  {
    match BlankNeighbourIndex(s, index)
    case None => None
    case Some(j) =>
      SwapKeepsTiles(s, index, j);
      Some(Swapped(s, index, j))
  }

  /** Playing the blank itself never moves anything on a permutation board:
      the only blank is the played cell, and a cell is not its own neighbour. */
  lemma MoveOnBlankFails(s: seq<int>, index: int)
    requires IsPermutation(s) && 0 <= index < |s| && s[index] == 0
    ensures Move(s, index).None?
  {
  }

  /** Moves are locally invertible: after a move on a permutation board that
      takes the blank from `j` to `index`, playing `j` succeeds and restores
      the board. */
  lemma {:induction false} MoveInvertible(s: seq<int>, index: int)
    requires IsPermutation(s) && 0 <= index < 9
    requires Move(s, index).Some?
    ensures var j := BlankNeighbourIndex(s, index).value;
      Move(Move(s, index).value, j) == Some(s)
  {
    var j := BlankNeighbourIndex(s, index).value;
    var t := Swapped(s, index, j);
    NeighbourIsAdjacentBlank(s, index);
    assert Adjacent(j, index);
    SwapKeepsTiles(s, index, j);
    assert t[index] == 0;
    NeighbourIsAdjacentBlank(t, j);
    var k := BlankNeighbourIndex(t, j).value;
    assert t[k] == t[index];
    SwapUndone(s, index, j);
  }

  /** Exchanging the same two cells again restores the board. */
  lemma SwapUndone(s: seq<int>, n: int, k: int)
    requires 0 <= n < |s| && 0 <= k < |s|
    ensures Swapped(Swapped(s, n, k), k, n) == s
  {
  }

  // ---------------------------------------------------------------------
  // The shuffle

  /** Draws a random source can give to the loop that starts at `n`: the
      first answers `Next(n + 1)` and so lies in 0..n, the next answers for
      n - 1, down to n = 2. */
  predicate DrawsFit(draws: seq<int>, n: int)
    decreases n
  {
    n <= 1 || (|draws| > 0 && 0 <= draws[0] <= n && DrawsFit(draws[1..], n - 1))
  }

  /** The board after the Fisher-Yates pass from `n` down to 2: cell `n`
      receives the tile at the first draw, the cells above `n` are not
      touched, and the tiles are kept. */
  function FisherYates(s: seq<int>, n: int, draws: seq<int>): (r: seq<int>)
    requires n < |s|
    requires DrawsFit(draws, n)
    ensures multiset(r) == multiset(s)
    ensures |r| == |s| && forall i :: 0 <= i < |s| && n < i ==> r[i] == s[i]
    ensures n > 1 ==> r[n] == s[draws[0]]
    ensures IsPermutation(s) ==> IsPermutation(r)
    decreases n
  {
    if n <= 1 then s
    else
      SwapKeepsTiles(s, n, draws[0]);
      FisherYates(Swapped(s, n, draws[0]), n - 1, draws[1..])
  }

  /** A source that draws `n` itself at every step leaves the board as it was. */
  lemma {:induction false} FisherYatesIdentity(s: seq<int>, n: int, draws: seq<int>)
    requires n < |s| && DrawsFit(draws, n)
    requires forall k :: 0 <= k < |draws| && k <= n - 2 ==> draws[k] == n - k
    ensures FisherYates(s, n, draws) == s
    decreases n
  {
    if n > 1 {
      assert Swapped(s, n, draws[0]) == s;
      FisherYatesIdentity(s, n - 1, draws[1..]);
    }
  }
}
