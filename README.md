# Sliding 8-puzzle game state

A model of the `Game` class of a console 8-puzzle: a 3x3 board kept as a
row-major array of nine tiles, `0` standing for the blank, and a count of the
moves played. A tile next to the blank can slide into it (`Play`), the board
can be shuffled with a caller-supplied random source (`Shuffle`), and the game
reports whether the board is solved and how each cell is shown.

- `board.dfy`, module `Board`: the board as a value (`seq<int>`). It holds the
  neighbour search, a single move, the Fisher-Yates pass, the solved check,
  the symbol shown for a tile, and the lemmas about them.
- `scenarios.dfy`, module `Scenarios`: the neighbour search and single moves
  worked out on concrete boards, two moves played through the class, and a
  new game shuffled through the class.
- `game.dfy`, module `Core`: the class `Game`. The readonly tile array
  becomes the `const` field `numbers: array<int>`, and `PlayCount` becomes
  `var playCount: int32`. `Play`, `Shuffle` and `Swap` are methods that update
  the array in place. Each is specified by the `Board` function it
  implements. The read-only members (`IsSolved`, the indexer `At`,
  `Numbers`) are functions over the array.

Decisions the model makes:

- The parameterless constructor builds the "standard 0–8" board
  (Core/Game.cs:26, 33), with the blank first. The board is solved at
  `1,2,...,8,0` (Core/Game.cs:9), so the default board is not solved.
- The class does not check that its tiles are a permutation of 0..8, or that
  there are nine of them. The model does not require it either.
  `IsPermutation` is a property that `Play` and `Shuffle` are proved to keep.
  The lemmas about invertibility, playing the blank and the solved board
  assume it. The adjacency lemmas need only a board of nine cells.
- C#'s `/` and `%` truncate toward zero, and the neighbour search applies them
  to any `int` index. The model writes them out (`TruncDiv`, `TruncRem`).
- `Play` throws when an index outside the board still finds a blank next to
  it (`OutOfRangeIndexFindsBlank`). Its requires excludes exactly those calls,
  and an out-of-range index with no blank neighbour returns false as in the
  source. The text interface only passes 0..8.
- A null random source throws `ArgumentNullException` before anything
  changes. The model returns `NullRandom` instead. A present source is given
  as the sequence of values its successive `Next(n + 1)` calls return, each
  within 0..n (`DrawsFit`).
- `PlayCount++` runs in C#'s unchecked context. `Incremented` wraps it as a
  32-bit two's-complement value.

## Model

| member | source | states |
|---|---|---|
| Core.Game.constructor | Core/Game.cs:29-36 | the tiles are a fresh copy of the given array; with none, they are the default 0..8, a permutation of 0..8 that is not solved; the count is 0 |
| Core.Game.Restore | Core/Game.cs:42-46 | the tiles are a fresh copy of the saved array and the count is the saved one |
| Core.Game.IsSolved | Core/Game.cs:9-12 | on a permutation board, true exactly when the board is 1..8 followed by the blank; its test is `Board.InOrder`, the one at Core/Game.cs:10-12 |
| Core.Game.At | Core/Game.cs:20-22 | a cell shows ' ' exactly when it holds the blank, and a single-digit tile shows as its own digit |
| Core.Game.Numbers | Core/Game.cs:14-18 | one symbol per cell, each as the indexer gives it; the cells shown as ' ' are exactly the blank ones |
| Core.Game.Play | Core/Game.cs:53-61 | succeeds exactly when a neighbour of the index holds the blank; then the board becomes that move's result and the count rises by one (32-bit); otherwise the board and count are unchanged; the tiles and the permutation property are kept |
| Core.Game.Shuffle | Core/Game.cs:68-80 | a null source changes nothing and is reported; otherwise the board becomes the Fisher-Yates pass over the draws and the count is 0; the tiles and the permutation property are kept |
| Core.Game.Swap | Core/Game.cs:100-105 | the array becomes the old board with the two cells exchanged |
| Core.Game.GetNumbersSnapshot | Core/Game.cs:111-114 | a fresh array holding the same tiles as the board |
| Core.Incremented | Core/Game.cs:59 | the result is the two's-complement successor of a 32-bit count |
| Board.Swapped | Core/Game.cs:100-105 | the value form of `Swap`: cell n gets the tile from k, cell k gets the tile from n, and every other cell is unchanged |
| Board.BlankNeighbourIndex | Core/Game.cs:82-98 | for any index, what is found is a cell inside the board that holds the blank and is not the index itself; its probe `IsBlank` has no requires, and it reads a cell only after checking that the cell is inside the board, as at Core/Game.cs:97 |
| Board.AdjacentCells | Core/Game.cs:84-90 | the four guarded steps (right when col < 2, left when col > 0, down when row < 2, up when row > 0) reach exactly the cells that share a side |
| Board.NeighbourIsAdjacentBlank | Core/Game.cs:82-93 | on a 3x3 board, the search finds a blank exactly when a cell sharing a side with the index holds one, and what it finds shares a side with the index, so moves never wrap between rows |
| Board.SwapKeepsTiles | Core/Game.cs:100-105 | an exchange of two cells keeps the multiset of tiles and the permutation property |
| Board.SwapUndone | Core/Game.cs:100-105 | exchanging the same two cells again restores the board |
| Board.Move | Core/Game.cs:53-61 | no move without a blank neighbour; otherwise the index now holds the blank, the neighbour holds the played tile, every other cell is unchanged and the tiles are kept |
| Board.MoveOnBlankFails | Core/Game.cs:82-98 | on a permutation board, playing the blank cell itself never moves anything |
| Board.MoveInvertible | Core/Game.cs:82-93 | on a permutation board, after a move that takes the blank from j to the index, playing j succeeds and restores the board |
| Board.SolvedIsGoal | Core/Game.cs:9-12 | on a permutation board, the check that cells 0..7 hold 1..8 accepts exactly 1,2,...,8,0 |
| Board.Digits | Core/Game.cs:22 | the decimal text of a natural number is made of digits and begins with '0' only for zero |
| Board.Symbol | Core/Game.cs:21-22 | the first character of the tile's text once zeros are blanked is ' ' exactly for the blank, '-' for a negative tile, a digit 1..9 for a positive one, and reads back as the tile for 0..9 |
| Board.SymbolKeepsLeadingDigit | Core/Game.cs:22 | a two-digit tile shows only its leading digit, so 10 and 1 look alike |
| Board.FisherYates | Core/Game.cs:72-77 | the pass keeps the length, the multiset of tiles and the permutation property, leaves the cells above n alone, and puts the first drawn tile into cell n |
| Board.FisherYatesIdentity | Core/Game.cs:72-77 | a source that draws n itself at every step leaves the board unchanged |
| Scenarios.BlankBesideEight | Core/Game.cs:82-93 | helper for `SlideFromGoal`: on the solved board, cell 7 finds the blank at cell 8 |
| Scenarios.SwapEightIntoBlank | Core/Game.cs:100-105 | helper for `SlideFromGoal`: exchanging cells 7 and 8 of the solved board gives 1..7,0,8 |
| Scenarios.BlankBesideEightAgain | Core/Game.cs:82-93 | helper for `SlideBackToGoal`: on 1..7,0,8, cell 8 finds the blank at cell 7 |
| Scenarios.SwapEightBack | Core/Game.cs:100-105 | helper for `SlideBackToGoal`: exchanging cells 8 and 7 of 1..7,0,8 gives the solved board |
| Scenarios.SlideFromGoal | Core/Game.cs:53-61 | from the solved board, playing cell 7 gives 1..7,0,8, which is not solved |
| Scenarios.SlideBackToGoal | Core/Game.cs:53-61 | from 1..7,0,8, playing cell 8 gives the solved board back |
| Scenarios.CornerOfGoalIsStuck | Core/Game.cs:82-93 | on the solved board, cell 0 has no blank neighbour, so playing it changes nothing |
| Scenarios.SlideOnGame | Core/Game.cs:53-61 | on a game restored from the solved board with count 0, `Play(7)` succeeds and leaves it unsolved with count 1, then `Play(8)` succeeds and solves it with count 2 |
| Scenarios.NewShuffledGame | ConsoleUI/GameView.cs:13-14 | a default game shuffled with any draws the random source can give holds each tile 0..8 exactly once and has count 0 |
| Scenarios.OutOfRangeIndexFindsBlank | Core/Game.cs:84-90 | the indexes -1 and -3 find the blank of the default board at cell 0, so `Play` on them would swap a cell outside the array |

## Left out

- ConsoleUI/GameView.cs is not modelled: it holds the console loop, the prompts and the parsing of "row col" text. Only its start of a game (`new Game()` then `Shuffle`, lines 13-14) is replayed, in `NewShuffledGame`.
- The random source is not modelled as a generator. Its draws are a parameter, and the uniformity of the shuffle is not stated.
- The model says nothing about whether a shuffled board can be solved. The class makes no such promise.
- Core.Game.Numbers: C# returns a new `char[]` on each call; the model returns a value.
- Board.Symbol: `int.ToString()` is modelled for a culture whose negative sign is '-'. Other cultures' signs are not modelled.
- Tiles are unbounded `int`. The class does no arithmetic on tile values, so their 32-bit width does not matter.
- Indexes are unbounded `int`. The steps `index ± 1` and `index ± 3` could wrap near the ends of the 32-bit range. Wrapped or not, they land outside any array, so the wrap is not modelled.
- Exceptions are not modelled as exceptions. The null random source becomes a result value. The calls of `Play` that would throw are excluded by its requires. An empty array, for which `IsSolved` would throw, is excluded by the requires of `IsSolved`. An index outside the board, for which the indexer throws `IndexOutOfRangeException`, is excluded by the requires of `At`. A null array, for which the restoring constructor throws `NullReferenceException` on `Clone()`, is excluded by the non-null parameter type of `Restore`.
