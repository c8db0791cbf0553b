/** The `Game` class of the puzzle: a fixed array of tiles that moves and
    shuffles update in place, and a counter of the moves played. */
module Core {
  import opened Board

  /** C#'s 32-bit `int`. */
  newtype int32 = x: int | -0x8000_0000 <= x < 0x8000_0000

  /** `PlayCount++` in C#'s default unchecked context: the two's-complement
      successor, which wraps from the largest int to the smallest. */
  function Incremented(c: int32): (r: int32)
    ensures r as int == (c as int + 1 + 0x8000_0000) % 0x1_0000_0000 - 0x8000_0000
  {
    if c == 0x7fff_ffff then -0x8000_0000 else c + 1
  }

  /** How a call to `Shuffle` ends: the board was shuffled, or the random
      source was null and an `ArgumentNullException` was thrown. */
  datatype ShuffleResult = Done | NullRandom

  class Game {
    /** The tiles, row-major on the 3x3 grid, 0 for the blank. The reference
        is fixed at construction; the cells change. */
    const numbers: array<int>
    /** The number of moves played since construction or the last shuffle. */
    var playCount: int32

    /** Builds the game from a copy of `source`, or, when `source` is null,
        the default board 0..8, which is not solved. No count is restored. */
    constructor (source: array?<int>)
      ensures fresh(numbers)
      ensures source != null ==> numbers[..] == source[..]
      ensures source == null ==> numbers[..] == DefaultTiles && !IsSolved()
      ensures source == null ==> IsPermutation(numbers[..])
      ensures playCount == 0
    {
      if source == null {
        numbers := new int[9](i => i);
      } else {
        numbers := new int[source.Length](i requires 0 <= i < source.Length reads source => source[i]);
      }
      playCount := 0;
      new;
      if source == null {
        assert numbers[..] == DefaultTiles;
        assert numbers[0] != 0 + 1;
      }
    }

    /** Restores a saved game: a copy of its tiles and its move count. */
    constructor Restore(count: int32, source: array<int>)
      ensures fresh(numbers)
      ensures numbers[..] == source[..]
      ensures playCount == count
    {
      playCount := count;
      numbers := new int[source.Length](i requires 0 <= i < source.Length reads source => source[i]);
    }

    /** `IsSolved`: every cell but the last holds its position plus one. On a
        permutation of 0..8 that is exactly the goal board 1..8 then blank.
        On an empty array the count of C#'s `Enumerable.Range(0, Length - 1)`
        is negative and it throws, hence the requires. */
    function IsSolved(): (b: bool)
      reads numbers
      requires numbers.Length >= 1
      ensures IsPermutation(numbers[..]) ==> (b <==> numbers[..] == GoalTiles)
    {
      SolvedIsGoal(numbers[..]);
      InOrder(numbers[..])
    }

    /** The indexer: the symbol shown for cell `i`. Only the blank shows as
        ' ', and a single-digit tile shows as its own digit. */
    function At(i: int): (c: char)
      reads numbers
      requires 0 <= i < numbers.Length
      ensures c == ' ' <==> numbers[i] == 0
      ensures 0 <= numbers[i] < 10 ==> TileOf(c) == numbers[i]
    {
      Symbol(numbers[i])
    }

    /** `Numbers`: the symbols of all cells in order, as the indexer gives
        them; the blank cells are exactly those shown as ' '. */
    function Numbers(): (cs: seq<char>)
      reads numbers
      ensures |cs| == numbers.Length
      ensures forall i :: 0 <= i < |cs| ==> cs[i] == At(i)
      ensures forall i :: 0 <= i < |cs| ==> (cs[i] == ' ' <==> numbers[i] == 0)
    {
      seq(numbers.Length, i requires 0 <= i < numbers.Length reads numbers => At(i))
    }

    /** `Play`: when a cell next to `index` holds the blank, exchanges the two
        and counts the move; otherwise changes nothing. The requires excludes
        only the calls on which the C# method throws: an index outside the board
        that still finds a blank next to it. */
    method Play(index: int) returns (moved: bool)
      requires 0 <= index < numbers.Length || BlankNeighbourIndex(numbers[..], index).None?
      modifies this, numbers
      ensures moved <==> Move(old(numbers[..]), index).Some?
      ensures moved ==> numbers[..] == Move(old(numbers[..]), index).value
      ensures moved ==> playCount == Incremented(old(playCount))
      ensures !moved ==> numbers[..] == old(numbers[..]) && playCount == old(playCount)
      ensures multiset(numbers[..]) == multiset(old(numbers[..]))
      ensures IsPermutation(old(numbers[..])) ==> IsPermutation(numbers[..])
    {
      var neighbour := BlankNeighbourIndex(numbers[..], index);
      if neighbour.None? {
        return false;
      }
      SwapKeepsTiles(numbers[..], index, neighbour.value);
      Swap(index, neighbour.value);
      playCount := Incremented(playCount);
      return true;
    }

    /** `Shuffle`: the Fisher-Yates pass for n from the last cell down to 2,
        each step exchanging cell n with the cell the random source draws in
        0..n; then the count restarts. `random` gives the source's successive
        draws, or None for a null source, which changes nothing. */
    method Shuffle(random: Option<seq<int>>) returns (result: ShuffleResult)
      requires random.Some? ==> DrawsFit(random.value, numbers.Length - 1)
      modifies this, numbers
      ensures random.None? ==>
        result == NullRandom && numbers[..] == old(numbers[..]) && playCount == old(playCount)
      ensures random.Some? ==>
        result == Done && playCount == 0 &&
        numbers[..] == FisherYates(old(numbers[..]), numbers.Length - 1, random.value)
      ensures multiset(numbers[..]) == multiset(old(numbers[..]))
      ensures IsPermutation(old(numbers[..])) ==> IsPermutation(numbers[..])
    {
      if random.None? {
        return NullRandom;
      }
      var draws := random.value;
      var n := numbers.Length - 1;
      var k := 0;
      while n > 1
        invariant n < numbers.Length
        invariant 0 <= k <= |draws|
        invariant DrawsFit(draws[k..], n)
        invariant FisherYates(numbers[..], n, draws[k..]) ==
                  FisherYates(old(numbers[..]), numbers.Length - 1, draws)
        decreases n
      {
        ghost var before := numbers[..];
        Swap(n, draws[k]);
        assert draws[k..][1..] == draws[k + 1..];
        assert FisherYates(before, n, draws[k..]) ==
               FisherYates(numbers[..], n - 1, draws[k + 1..]);
        n := n - 1;
        k := k + 1;
      }
      playCount := 0;
      return Done;
    }

    /** `Swap`: exchanges the tiles at `n` and `k`. */
    method Swap(n: int, k: int)
      requires 0 <= n < numbers.Length && 0 <= k < numbers.Length
      modifies numbers
      ensures numbers[..] == Swapped(old(numbers[..]), n, k)
    {
      var temp := numbers[n];
      numbers[n] := numbers[k];
      numbers[k] := temp;
    }

    /** `GetNumbersSnapshot`: a fresh copy of the tiles, which later moves do
        not affect. */
    method GetNumbersSnapshot() returns (snapshot: array<int>)
      ensures fresh(snapshot)
      ensures snapshot[..] == numbers[..]
    {
      snapshot := new int[numbers.Length](i requires 0 <= i < numbers.Length reads numbers => numbers[i]);
    }
  }
}
