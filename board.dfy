/** The puzzle board: the row-major cells, the grid side and the cached
    solved flag, updated in place by moves and by scrambling. */
module Game {
  import opened Puzzle

  class Board {
    var cells: array<int>
    const size: nat
    var solved: bool

    /** The grid is the 4 x 4 one the empty-slot marker 16 belongs to, and
        `cells` has one entry per grid position. */
    ghost predicate Shape()
      reads this
    {
      size == Side && cells.Length == Empty
    }

    /** Shape, and the cached flag agrees with the cells. */
    ghost predicate Valid()
      reads this, cells
    {
      Shape() && solved == IsSolved(cells[..])
    }

    /** Stores the given layout and size and computes the solved flag for it. */
    constructor (initial: seq<int>, size: nat)
      ensures this.size == size && cells[..] == initial && fresh(cells)
      ensures solved == IsSolved(cells[..])
      ensures solved <==> initial == SolvedCells(|initial|)
      ensures size == Side && |initial| == Empty ==> Valid()
    {
      this.size := size;
      cells := new int[|initial|](i requires 0 <= i < |initial| => initial[i]);
      solved := false;
      new;
      CheckSolved();
      SolvedIsUnique(initial);
    }

    /** Recomputes the solved flag by a scan that stops at the first cell out of place. */
    method CheckSolved()
      modifies this`solved
      ensures solved == IsSolved(cells[..])
    {
      var ok := true;
      for i := 0 to cells.Length
        invariant ok && forall k :: 0 <= k < i ==> cells[k] == k + 1
      {
        if cells[i] != i + 1 {
          ok := false;
          break;
        }
      }
      solved := ok;
    }

    /** Slides the empty slot one step in direction `d`, if the grid allows it,
        then recomputes the solved flag. */
    method MoveEmpty(d: Direction)
      requires Shape() && Empty in cells[..]
      modifies this`solved, cells
      ensures Valid()
      ensures cells[..] == Slide(old(cells[..]), d)
      ensures NeighborIndex(size, EmptyIndex(old(cells[..])), d).None? ==>
        cells[..] == old(cells[..]) && (old(Valid()) ==> solved == old(solved))
      ensures IsTilePermutation(old(cells[..])) ==> IsTilePermutation(cells[..])
    {
      var emptyIndex := EmptyIndex(cells[..]);
      var neighbor := NeighborIndex(size, emptyIndex, d);
      if neighbor.Some? {
        var n := neighbor.value;
        cells[emptyIndex], cells[n] := cells[n], cells[emptyIndex];
      }
      CheckSolved();
      if IsTilePermutation(old(cells[..])) {
        SlidePreservesPermutation(old(cells[..]), d);
      }
    }

    /** One scrambling round: the move for each direction number in `rolls`, in order. */
    method PlayRound(rolls: seq<int>)
      requires Shape() && Empty in cells[..]
      requires forall k :: 0 <= k < |rolls| ==> 0 <= rolls[k] < 4
      modifies this`solved, cells
      ensures Shape()
      ensures cells[..] == Play(old(cells[..]), Decode(rolls))
      ensures |rolls| > 0 ==> solved == IsSolved(cells[..])
      ensures |rolls| == 0 ==> solved == old(solved)
    {
      ghost var start := cells[..];
      ghost var ds := Decode(rolls);
      for k := 0 to |rolls|
        invariant Shape()
        invariant cells[..] == Play(start, ds[..k])
        invariant k > 0 ==> solved == IsSolved(cells[..])
        invariant k == 0 ==> solved == old(solved)
      {
        var d := DirectionFrom(rolls[k]);
        assert ds[..k + 1][..k] == ds[..k];
        MoveEmpty(d.value);
      }
      assert ds[..|rolls|] == ds;
    }

    /** Resets to the solved layout, then plays round after round of the given
        moves until a round ends unsolved or MaxRounds rounds have been played.
        `rounds` stands for the random generator: each inner sequence is one round,
        its length the drawn move count and its entries the drawn direction numbers.
        `used` is how many rounds were played. */
    method Scramble(rounds: seq<seq<int>>) returns (ghost used: nat)
      requires size == Side
      requires |rounds| == MaxRounds && ValidRounds(rounds)
      modifies this
      ensures Valid() && fresh(cells)
      ensures used == StopAfter(RoundEnds(SolvedCells(Empty), rounds))
      ensures cells[..] == RoundEnds(SolvedCells(Empty), rounds)[used - 1]
    {
      cells := new int[Empty](i => i + 1);
      ghost var start := cells[..];
      assert start == SolvedCells(Empty);
      SolvedCellsIsPermutation(Empty);
      ghost var ends := RoundEnds(start, rounds);

      var round := 0;
      var done := false;
      while !done
        invariant 0 <= round <= MaxRounds
        invariant Shape() && fresh(cells)
        invariant cells[..] == if round == 0 then start else ends[round - 1]
        invariant round > 0 ==> solved == IsSolved(cells[..])
        invariant !done ==> round < MaxRounds && SolvedPrefix(ends, round)
        invariant done ==> 0 < round && SolvedPrefix(ends, round - 1) && (round == MaxRounds || !solved)
        decreases MaxRounds - round, !done
      {
        var rolls := rounds[round];
        RoundEndsStep(start, rounds, round);
        PlayRound(rolls);
        round := round + 1;
        done := round == MaxRounds || !solved;
      }
      used := round;
      StopAfterPrefix(ends, used);
    }
  }
}
