/** Pure part of the 15-puzzle: directions, grid geometry, the search for the
    empty slot, and what one slide of the empty slot does to the row-major
    tile sequence. The stateful board in board.dfy is proved against these. */
module Puzzle {

  datatype Option<T> = None | Some(value: T)

  /** The tile value that marks the empty slot. The program uses the literal 16,
      not size * size, so the model does too. */
  const Empty: int := 16

  /** The side of the only grid the program builds; Side * Side == Empty. */
  const Side: nat := 4

  /** Scrambling runs at most MaxRounds rounds; each round's move count is drawn
      from [MinMoves, MaxMoves). */
  const MaxRounds: nat := 20
  const MinMoves: nat := 20
  const MaxMoves: nat := 100

  /** The four ways the empty slot can travel. */
  datatype Direction = Up | Down | Left | Right

  /** Discriminant of a direction, in declaration order. */
  function Index(d: Direction): int
  {
    match d
    case Up => 0
    case Down => 1
    case Left => 2
    case Right => 3
  }

  /** Integer to direction; None stands for the panic on any other integer. */
  function DirectionFrom(n: int): (r: Option<Direction>)
    ensures r.Some? <==> 0 <= n < 4
    ensures r.Some? ==> Index(r.value) == n
  {
    match n
    case 0 => Some(Up)
    case 1 => Some(Down)
    case 2 => Some(Left)
    case 3 => Some(Right)
    case _ => None
  }

  lemma DirectionFromIndex(d: Direction)
    ensures DirectionFrom(Index(d)) == Some(d)
  {
  }

  function Opposite(d: Direction): Direction
  {
    match d
    case Up => Down
    case Down => Up
    case Left => Right
    case Right => Left
  }

  // ---------------------------------------------------------------------------
  // Grid geometry

  /** The linear index next to `index` in direction `d` on a `size`-wide grid,
      or None when the step would leave the grid (no wrap-around). */
  function NeighborIndex(size: nat, index: nat, d: Direction): (r: Option<nat>)
    requires size > 0
    ensures index < size * size && r.Some? ==> r.value < size * size
    ensures match d
      case Up => r == if index < size then None else Some(index - size)
      case Down => r == if index / size == size - 1 then None else Some(index + size)
      case Left => r == if index % size == 0 then None else Some(index - 1)
      case Right => r == if index % size == size - 1 then None else Some(index + 1)
  {
    var row := index / size;
    var col := index % size;
    RowCol(size, index);
    RowInGrid(size, index);
    match d
    case Up =>
      if row == 0 then None else Some((row - 1) * size + col)
    case Down =>
      if row == size - 1 then None else Some((row + 1) * size + col)
    case Left =>
      if col == 0 then None else Some(row * size + col - 1)
    case Right =>
      if col == size - 1 then None else Some(row * size + col + 1)
  }

  /** Multiplying by a non-negative factor keeps the order. */
  lemma MulLe(a: int, b: int, c: int)
    requires a <= b && c >= 0
    ensures a * c <= b * c
  {
    assert b * c - a * c == (b - a) * c;
  }

  /** Row and column recombine into the index, and a row step is a step of `size`. */
  lemma RowCol(size: nat, index: nat)
    requires size > 0
    ensures index == (index / size) * size + index % size
    ensures 0 <= index % size < size
    ensures index / size == 0 <==> index < size
    ensures (index / size + 1) * size + index % size == index + size
    ensures (index / size - 1) * size + index % size == index - size
  {
    var row, col := index / size, index % size;
    assert index == row * size + col;
    assert (row + 1) * size == row * size + size;
    assert (row - 1) * size == row * size - size;
    if row != 0 {
      MulLe(1, row, size);
    }
  }

  /** An index inside the grid lies in a row of the grid, and a step down from
      any row but the last stays inside. */
  lemma RowInGrid(size: nat, index: nat)
    requires size > 0
    ensures index < size * size ==> index / size < size
    ensures index < size * size ==> index - index % size + size <= size * size
    ensures index < size * size && index / size < size - 1 ==> index + size < size * size
  {
    var row, col := index / size, index % size;
    RowCol(size, index);
    if index < size * size {
      assert row < size by {
        if row >= size {
          MulLe(size, row, size);
        }
      }
      MulLe(row + 1, size, size);
      assert (row + 1) * size == row * size + size;
      if row < size - 1 {
        MulLe(row + 2, size, size);
        assert (row + 2) * size == row * size + size + size;
      }
    }
  }

  /** Division and remainder are determined by a quotient and a remainder in range. */
  lemma DivModOf(size: nat, q: int, c: int)
    requires size > 0 && 0 <= c < size
    ensures (q * size + c) / size == q && (q * size + c) % size == c
  {
    var n := q * size + c;
    var q', c' := n / size, n % size;
    assert n == q' * size + c';
    assert (q - q') * size == c' - c;
    if q > q' {
      MulLe(1, q - q', size);
    } else if q < q' {
      MulLe(1, q' - q, size);
    }
  }

  /** The neighbour sits one row or one column away, in the requested direction. */
  lemma {:induction false} NeighborIsAdjacent(size: nat, index: nat, d: Direction)
    requires size > 0 && NeighborIndex(size, index, d).Some?
    ensures var n := NeighborIndex(size, index, d).value;
      match d
      case Up => n / size == index / size - 1 && n % size == index % size
      case Down => n / size == index / size + 1 && n % size == index % size
      case Left => n / size == index / size && n % size == index % size - 1
      case Right => n / size == index / size && n % size == index % size + 1
  {
    var row, col := index / size, index % size;
    RowCol(size, index);
    match d
    case Up => DivModOf(size, row - 1, col);
    case Down => DivModOf(size, row + 1, col);
    case Left => DivModOf(size, row, col - 1);
    case Right => DivModOf(size, row, col + 1);
  }

  /** Stepping back in the opposite direction returns to the starting index. */
  lemma {:induction false} NeighborInverse(size: nat, index: nat, d: Direction)
    requires size > 0 && index < size * size && NeighborIndex(size, index, d).Some?
    ensures NeighborIndex(size, NeighborIndex(size, index, d).value, Opposite(d)) == Some(index)
  {
    var n := NeighborIndex(size, index, d).value;
    RowCol(size, index);
    NeighborIsAdjacent(size, index, d);
  }

  // ---------------------------------------------------------------------------
  // Searching for the empty slot

  /** Index of the first element equal to `v`, or None when there is none. */
  function Position(s: seq<int>, v: int): (r: Option<nat>)
    ensures r.None? <==> v !in s
    ensures r.Some? ==> r.value < |s| && s[r.value] == v
    ensures r.Some? ==> forall j :: 0 <= j < r.value ==> s[j] != v
  {
    if s == [] then None
    else if s[0] == v then Some(0)
    else match Position(s[1..], v)
      case None => None
      case Some(k) => Some(k + 1)
  }

  /** Where the empty slot is; the caller must make sure it is present. */
  function EmptyIndex(s: seq<int>): (i: nat)
    requires Empty in s
    ensures i < |s| && s[i] == Empty
    ensures forall j :: 0 <= j < i ==> s[j] != Empty
  {
    Position(s, Empty).value
  }

  // ---------------------------------------------------------------------------
  // Board contents

  /** Every cell holds its own 1-based position. */
  predicate IsSolved(s: seq<int>)
  {
    forall i :: 0 <= i < |s| ==> s[i] == i + 1
  }

  /** The solved layout 1, 2, ..., n. */
  function SolvedCells(n: nat): (r: seq<int>)
    ensures |r| == n && IsSolved(r)
    ensures n >= Empty ==> Empty in r
  {
    var r := seq(n, i => i + 1);
    assert n >= Empty ==> r[Empty - 1] == Empty;
    r
  }

  /** A layout is solved exactly when it is the solved layout of its length. */
  lemma SolvedIsUnique(s: seq<int>)
    ensures IsSolved(s) <==> s == SolvedCells(|s|)
  {
  }

  /** The cells are a permutation of 1..|s|: every value in range, no value twice. */
  predicate IsTilePermutation(s: seq<int>)
  {
    (forall i :: 0 <= i < |s| ==> 1 <= s[i] <= |s|) &&
    (forall i, j :: 0 <= i < j < |s| ==> s[i] != s[j])
  }

  lemma SolvedCellsIsPermutation(n: nat)
    ensures IsTilePermutation(SolvedCells(n))
    ensures n >= Empty ==> Empty in SolvedCells(n) && EmptyIndex(SolvedCells(n)) == Empty - 1
  {
    if n >= Empty {
      assert SolvedCells(n)[Empty - 1] == Empty;
    }
  }

  /** Exchange of two cells, as a vector swap does it. */
  function Swap(s: seq<int>, i: nat, j: nat): (r: seq<int>)
    requires i < |s| && j < |s|
    ensures |r| == |s| && r[i] == s[j] && r[j] == s[i]
    ensures forall k :: 0 <= k < |s| && k != i && k != j ==> r[k] == s[k]
  {
    s[i := s[j]][j := s[i]]
  }

  /** One move: the empty slot trades places with its neighbour in direction `d`,
      or nothing happens when it sits on that edge. */
  function Slide(s: seq<int>, d: Direction): (r: seq<int>)
    requires |s| == Empty && Empty in s
    ensures |r| == |s| && Empty in r
  {
    var e := EmptyIndex(s);
    match NeighborIndex(Side, e, d)
    case None => s
    case Some(n) => Swap(s, e, n)
  }

  /** The two outcomes of a move: against an edge nothing changes; otherwise exactly
      the empty cell and its neighbour are exchanged, so the marker sits at the
      neighbour's position, where a later search finds it when it occurs only once. */
  lemma SlideEffect(s: seq<int>, d: Direction)
    requires |s| == Empty && Empty in s
    ensures var e := EmptyIndex(s);
      var r := Slide(s, d);
      match NeighborIndex(Side, e, d)
      case None => r == s
      case Some(n) =>
        n != e && r[n] == Empty && r[e] == s[n] &&
        (forall k :: 0 <= k < |s| && k != e && k != n ==> r[k] == s[k]) &&
        (IsTilePermutation(s) ==> EmptyIndex(r) == n)
  {
    var e := EmptyIndex(s);
    match NeighborIndex(Side, e, d)
    case None =>
    case Some(n) =>
      var r := Slide(s, d);
      assert n != e;
      if IsTilePermutation(s) {
        forall j | 0 <= j < n
          ensures r[j] != Empty
        {
          if j == e {
            assert r[j] == s[n];
          } else {
            assert r[j] == s[j];
          }
        }
      }
  }

  /** A move changes the board exactly when the empty slot is not on that edge. */
  lemma SlideMovesUnlessAtEdge(s: seq<int>, d: Direction)
    requires |s| == Empty && IsTilePermutation(s) && Empty in s
    ensures Slide(s, d) == s <==> NeighborIndex(Side, EmptyIndex(s), d).None?
  {
    SlideEffect(s, d);
    var e := EmptyIndex(s);
    match NeighborIndex(Side, e, d)
    case None =>
    case Some(n) =>
      var r := Slide(s, d);
      if n < e { assert s[n] != s[e]; } else { assert s[e] != s[n]; }
      assert r[e] != s[e];
  }

  /** Exchanging two cells keeps the cells a permutation. */
  lemma SwapPreservesPermutation(s: seq<int>, i: nat, j: nat)
    requires i < |s| && j < |s| && IsTilePermutation(s)
    ensures IsTilePermutation(Swap(s, i, j))
  {
    var r := Swap(s, i, j);
    forall a, b | 0 <= a < b < |r|
      ensures r[a] != r[b]
    {
      var a' := if a == i then j else if a == j then i else a;
      var b' := if b == i then j else if b == j then i else b;
      assert r[a] == s[a'] && r[b] == s[b'] && a' != b';
      if a' < b' { assert s[a'] != s[b']; } else { assert s[b'] != s[a']; }
    }
  }

  /** A move keeps the cells a permutation. */
  lemma SlidePreservesPermutation(s: seq<int>, d: Direction)
    requires |s| == Empty && IsTilePermutation(s) && Empty in s
    ensures IsTilePermutation(Slide(s, d))
  {
    var e := EmptyIndex(s);
    match NeighborIndex(Side, e, d)
    case None =>
    case Some(n) =>
      SwapPreservesPermutation(s, e, n);
  }

  /** Swapping the same two cells again restores the sequence. */
  lemma SwapTwice(s: seq<int>, i: nat, j: nat)
    requires i < |s| && j < |s|
    ensures Swap(Swap(s, i, j), j, i) == s
  {
    var u := Swap(Swap(s, i, j), j, i);
    assert forall k :: 0 <= k < |s| ==> u[k] == s[k];
  }

  /** A move that happened is undone by the move in the opposite direction. */
  lemma SlideUndo(s: seq<int>, d: Direction)
    requires |s| == Empty && IsTilePermutation(s) && Empty in s
    requires Slide(s, d) != s
    ensures Slide(Slide(s, d), Opposite(d)) == s
  {
    SlideMovesUnlessAtEdge(s, d);
    SlideEffect(s, d);
    var e := EmptyIndex(s);
    var n := NeighborIndex(Side, e, d).value;
    NeighborInverse(Side, e, d);
    var r := Slide(s, d);
    assert r == Swap(s, e, n);
    assert EmptyIndex(r) == n;
    assert Slide(r, Opposite(d)) == Swap(r, n, e);
    SwapTwice(s, e, n);
  }

  // ---------------------------------------------------------------------------
  // Sequences of moves

  /** The board after the moves `ds`, applied in order from `s`. */
  function Play(s: seq<int>, ds: seq<Direction>): (r: seq<int>)
    requires |s| == Empty && Empty in s
    ensures |r| == |s| && Empty in r
    decreases |ds|
  {
    if ds == [] then s
    else Slide(Play(s, ds[..|ds| - 1]), ds[|ds| - 1])
  }

  /** Any sequence of moves keeps the cells a permutation. */
  lemma {:induction false} PlayPreservesPermutation(s: seq<int>, ds: seq<Direction>)
    requires |s| == Empty && Empty in s && IsTilePermutation(s)
    ensures IsTilePermutation(Play(s, ds))
    decreases |ds|
  {
    if ds != [] {
      PlayPreservesPermutation(s, ds[..|ds| - 1]);
      SlidePreservesPermutation(Play(s, ds[..|ds| - 1]), ds[|ds| - 1]);
    }
  }

  /** Playing two sequences one after the other is playing their concatenation. */
  lemma {:induction false} PlayAppend(s: seq<int>, a: seq<Direction>, b: seq<Direction>)
    requires |s| == Empty && Empty in s
    ensures Play(s, a + b) == Play(Play(s, a), b)
    decreases |b|
  {
    if b == [] {
      assert a + b == a;
    } else {
      assert (a + b)[..|a + b| - 1] == a + b[..|b| - 1];
      PlayAppend(s, a, b[..|b| - 1]);
    }
  }

  /** A layout reachable from the solved one by moves. */
  ghost predicate Reachable(s: seq<int>)
  {
    SolvedCellsIsPermutation(Empty);
    exists ds :: Play(SolvedCells(Empty), ds) == s
  }

  /** Reachable layouts stay reachable after any further moves. */
  lemma ReachableAfterPlay(s: seq<int>, ds: seq<Direction>)
    requires Reachable(s)
    ensures Empty in s && |s| == Empty
    ensures Reachable(Play(s, ds))
  {
    SolvedCellsIsPermutation(Empty);
    var start := SolvedCells(Empty);
    var pre :| Play(start, pre) == s;
    PlayAppend(start, pre, ds);
  }

  // ---------------------------------------------------------------------------
  // Injected randomness for scrambling

  /** Every roll of every round is a direction number in [0, 4). */
  predicate AllRolls(rounds: seq<seq<int>>)
  {
    forall r, k :: 0 <= r < |rounds| && 0 <= k < |rounds[r]| ==> 0 <= rounds[r][k] < 4
  }

  /** What the random generator can produce: per round a move count in
      [MinMoves, MaxMoves) (the length of the round) and direction rolls in [0, 4). */
  predicate ValidRounds(rounds: seq<seq<int>>)
  {
    AllRolls(rounds) &&
    forall r :: 0 <= r < |rounds| ==> MinMoves <= |rounds[r]| < MaxMoves
  }

  /** The directions a round's rolls stand for. */
  function Decode(rolls: seq<int>): (ds: seq<Direction>)
    requires forall k :: 0 <= k < |rolls| ==> 0 <= rolls[k] < 4
    ensures |ds| == |rolls|
    ensures forall k :: 0 <= k < |rolls| ==> DirectionFrom(rolls[k]) == Some(ds[k])
  {
    seq(|rolls|, k requires 0 <= k < |rolls| => DirectionFrom(rolls[k]).value)
  }

  /** The board after each round when the rounds are played one after the other
      from `s`: entry `j` is the board once round `j` is over. */
  function RoundEnds(s: seq<int>, rounds: seq<seq<int>>): (ends: seq<seq<int>>)
    requires |s| == Empty && Empty in s && AllRolls(rounds)
    ensures |ends| == |rounds|
    ensures forall j :: 0 <= j < |ends| ==> |ends[j]| == Empty && Empty in ends[j]
    decreases |rounds|
  {
    if rounds == [] then []
    else
      var t := Play(s, Decode(rounds[0]));
      assert AllRolls(rounds[1..]) by {
        forall r, k | 0 <= r < |rounds[1..]| && 0 <= k < |rounds[1..][r]|
          ensures 0 <= rounds[1..][r][k] < 4
        {
          assert rounds[1..][r] == rounds[r + 1];
        }
      }
      [t] + RoundEnds(t, rounds[1..])
  }

  /** Each round starts from the board the previous round ended on (the first
      from `s`) and plays that round's moves. */
  lemma {:induction false} RoundEndsStep(s: seq<int>, rounds: seq<seq<int>>, j: nat)
    requires |s| == Empty && Empty in s && AllRolls(rounds) && j < |rounds|
    ensures var ends := RoundEnds(s, rounds);
      var before := if j == 0 then s else ends[j - 1];
      |before| == Empty && Empty in before &&
      ends[j] == Play(before, Decode(rounds[j]))
    decreases j
  {
    if j > 0 {
      var t := Play(s, Decode(rounds[0]));
      var rest := RoundEnds(t, rounds[1..]);
      assert RoundEnds(s, rounds) == [t] + rest;
      assert rounds[1..][j - 1] == rounds[j];
      RoundEndsStep(t, rounds[1..], j - 1);
    }
  }

  /** Whatever the rolls, every round from a reachable permutation ends on a
      layout that is again a permutation reachable from the solved one. */
  lemma {:induction false} RoundEndsReachable(s: seq<int>, rounds: seq<seq<int>>)
    requires |s| == Empty && Empty in s && AllRolls(rounds)
    requires IsTilePermutation(s) && Reachable(s)
    ensures forall j :: 0 <= j < |rounds| ==>
      IsTilePermutation(RoundEnds(s, rounds)[j]) && Reachable(RoundEnds(s, rounds)[j])
    decreases |rounds|
  {
    if rounds != [] {
      var ds := Decode(rounds[0]);
      var t := Play(s, ds);
      PlayPreservesPermutation(s, ds);
      ReachableAfterPlay(s, ds);
      RoundEndsReachable(t, rounds[1..]);
    }
  }

  /** From the solved layout, every round ends on a permutation reachable by moves. */
  lemma RoundEndsFromSolved(rounds: seq<seq<int>>)
    requires AllRolls(rounds)
    ensures forall j :: 0 <= j < |rounds| ==>
      IsTilePermutation(RoundEnds(SolvedCells(Empty), rounds)[j]) &&
      Reachable(RoundEnds(SolvedCells(Empty), rounds)[j])
  {
    var start := SolvedCells(Empty);
    SolvedCellsIsPermutation(Empty);
    assert Play(start, []) == start;
    RoundEndsReachable(start, rounds);
  }

  /** How many rounds scrambling plays, given the board after each round: it stops
      after the first round that ends unsolved, or after the last round. */
  function StopAfter(ends: seq<seq<int>>): (n: nat)
    requires |ends| > 0
    ensures 1 <= n <= |ends|
    ensures !IsSolved(ends[n - 1]) || n == |ends|
    ensures forall j :: 0 <= j < n - 1 ==> IsSolved(ends[j])
  {
    if !IsSolved(ends[0]) || |ends| == 1 then 1
    else 1 + StopAfter(ends[1..])
  }

  /** The first `n` boards of `ends` are all solved, stated round by round. */
  predicate SolvedPrefix(ends: seq<seq<int>>, n: nat)
    requires n <= |ends|
  {
    n == 0 || (SolvedPrefix(ends, n - 1) && IsSolved(ends[n - 1]))
  }

  lemma {:induction false} SolvedPrefixAll(ends: seq<seq<int>>, n: nat)
    requires n <= |ends| && SolvedPrefix(ends, n)
    ensures forall j :: 0 <= j < n ==> IsSolved(ends[j])
  {
    if n > 0 {
      SolvedPrefixAll(ends, n - 1);
    }
  }

  /** The stopping round is the only count that ends unsolved (or uses up the
      rounds) after only solved rounds. */
  lemma {:induction false} StopAfterUnique(ends: seq<seq<int>>, n: nat)
    requires 1 <= n <= |ends|
    requires forall j :: 0 <= j < n - 1 ==> IsSolved(ends[j])
    requires !IsSolved(ends[n - 1]) || n == |ends|
    ensures StopAfter(ends) == n
  {
    if n > 1 {
      assert IsSolved(ends[0]);
      StopAfterUnique(ends[1..], n - 1);
    }
  }

  /** The same, with the solved rounds stated round by round. */
  lemma StopAfterPrefix(ends: seq<seq<int>>, n: nat)
    requires 1 <= n <= |ends|
    requires SolvedPrefix(ends, n - 1)
    requires !IsSolved(ends[n - 1]) || n == |ends|
    ensures StopAfter(ends) == n
  {
    SolvedPrefixAll(ends, n - 1);
    StopAfterUnique(ends, n);
  }

  // ---------------------------------------------------------------------------
  // Fixtures on the 4 x 4 board

  /** Corner cells of the 4 x 4 grid have only the two inward neighbours. */
  lemma CornerNeighbors()
    ensures NeighborIndex(4, 0, Up) == None && NeighborIndex(4, 0, Left) == None
    ensures NeighborIndex(4, 0, Down) == Some(4) && NeighborIndex(4, 0, Right) == Some(1)
    ensures NeighborIndex(4, 15, Down) == None && NeighborIndex(4, 15, Right) == None
    ensures NeighborIndex(4, 15, Up) == Some(11) && NeighborIndex(4, 15, Left) == Some(14)
  {
  }

  /** On the solved board the empty slot is in the bottom row, so Down does nothing:
      Up followed by Down returns to the solved board, Down followed by Up does not. */
  lemma SolvedBoardMoves()
    ensures SolvedCells(16)[15] == Empty
    ensures Slide(SolvedCells(16), Down) == SolvedCells(16)
    ensures Slide(SolvedCells(16), Up) != SolvedCells(16)
    ensures Slide(Slide(SolvedCells(16), Up), Down) == SolvedCells(16)
    ensures Slide(Slide(SolvedCells(16), Down), Up) != SolvedCells(16)
  {
    var s := SolvedCells(16);
    SolvedCellsIsPermutation(16);
    SlideMovesUnlessAtEdge(s, Down);
    SlideMovesUnlessAtEdge(s, Up);
    SlideUndo(s, Up);
  }
}
