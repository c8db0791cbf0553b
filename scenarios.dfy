/** Worked examples of the neighbour search and of single moves on concrete
    boards: the moves around the solved board, and the out-of-range index
    that the requires of `Play` rules out. */
module Scenarios {
  import opened Board
  import opened Core

  /** The solved board with the 8 slid into the blank. */
  const Slid: seq<int> := [1, 2, 3, 4, 5, 6, 7, 0, 8]

  /** On the solved board, cell 7 finds the blank at cell 8. */
  lemma BlankBesideEight()
    ensures BlankNeighbourIndex(GoalTiles, 7) == Some(8)
  {
  }

  /** Exchanging cells 7 and 8 of the solved board gives `Slid`. */
  lemma SwapEightIntoBlank()
    ensures Swapped(GoalTiles, 7, 8) == Slid
  {
  }

  /** On `Slid`, cell 8 finds the blank at cell 7. */
  lemma BlankBesideEightAgain()
    ensures BlankNeighbourIndex(Slid, 8) == Some(7)
  {
  }

  /** Exchanging cells 8 and 7 of `Slid` gives the solved board. */
  lemma SwapEightBack()
    ensures Swapped(Slid, 8, 7) == GoalTiles
  {
  }

  /** Sliding the 8 into the blank takes the solved board to an unsolved one. */
  lemma SlideFromGoal()
    ensures Move(GoalTiles, 7) == Some(Slid)
    ensures !InOrder(Slid)
  {
    BlankBesideEight();
    SwapEightIntoBlank();
    assert Slid[7] != 7 + 1;
  }

  /** Sliding the 8 back solves the board again. */
  lemma SlideBackToGoal()
    ensures Move(Slid, 8) == Some(GoalTiles)
  {
    BlankBesideEightAgain();
    SwapEightBack();
  }

  /** The 1 in the top-left corner of the solved board has no blank beside it. */
  lemma CornerOfGoalIsStuck()
    ensures BlankNeighbourIndex(GoalTiles, 0).None?
  {
    assert TruncDiv(0, 3) == 0 && TruncRem(0, 3) == 0;
    assert !IsBlank(GoalTiles, 1) && !IsBlank(GoalTiles, 3);
  }

  /** An index outside the board can still find the blank: from -1 the search
      looks at cells 0 and 2, so on the default board it returns 0 and `Play`
      would go on to swap the missing cell -1. */
  lemma OutOfRangeIndexFindsBlank()
    ensures BlankNeighbourIndex(DefaultTiles, -1) == Some(0)
    ensures BlankNeighbourIndex(DefaultTiles, -3) == Some(0)
  {
  }

  /** The solved board passes the solved check. */
  lemma GoalInOrder()
    ensures InOrder(GoalTiles)
  {
  }

  /** A game restored from the solved board with no moves counted. */
  method SolvedGame() returns (game: Game)
    ensures fresh(game.numbers)
    ensures game.numbers[..] == GoalTiles && game.playCount == 0
  {
    var tiles := new int[9](i requires 0 <= i < 9 => GoalTiles[i]);
    assert tiles[..] == GoalTiles;
    game := new Game.Restore(0, tiles);
  }

  /** The two slides played through the class on a game restored from the
      solved board: the first leaves it unsolved after one move, the second
      solves it again after two. */
  method SlideOnGame()
    returns (first: bool, midCount: int32, midSolved: bool, second: bool, count: int32, solved: bool)
    ensures first && midCount == 1 && !midSolved
    ensures second && count == 2 && solved
  {
    var game := SolvedGame();
    SlideFromGoal();
    first := game.Play(7);
    midCount, midSolved := game.playCount, game.IsSolved();
    SlideBackToGoal();
    second := game.Play(8);
    GoalInOrder();
    count, solved := game.playCount, game.IsSolved();
  }

  /** A new game as the text interface starts it: the default board, then a
      shuffle with any draws the random source can give. Every tile 0..8 is
      on the board exactly once, and no move is counted. */
  method NewShuffledGame(draws: seq<int>) returns (game: Game, result: ShuffleResult)
    requires DrawsFit(draws, 8)
    ensures result == Done
    ensures IsPermutation(game.numbers[..]) && game.playCount == 0
  {
    game := new Game(null);
    result := game.Shuffle(Some(draws));
  }
}
