/** The 4x4 sliding-tile board as a value, and the move rule that `Model::tap`
    applies to it.  Cells are stored in row-major order; value 0 is the empty
    cell.  The class in puzzle.dfy is proved against the functions here. */
module Board {

  /** Grid dimensions (`Model::ROWS`, `Model::COLS`). */
  const Rows: nat := 4
  const Cols: nat := 4
  const Size: nat := 16

  /** The solved board `[0, 1, ..., n - 1]`. */
  function Identity(n: nat): (s: seq<nat>)
    ensures |s| == n
    ensures forall k :: 0 <= k < n ==> s[k] == k
  {
    if n == 0 then [] else Identity(n - 1) + [n - 1]
  }

  /** Every value below n occurs exactly once in the solved board, and no other value occurs. */
  lemma {:induction false} IdentityCount(n: nat, v: nat)
    ensures multiset(Identity(n))[v] == if v < n then 1 else 0
  {
    if n > 0 {
      var last: nat := n - 1;
      var prev := Identity(last);
      IdentityCount(last, v);
      assert Identity(n) == prev + [last];
      assert multiset(Identity(n)) == multiset(prev) + multiset{last};
      assert multiset{last}[v] == if v == last then 1 else 0;
    }
  }

  /** A board is well formed when it is a rearrangement of `0..Size-1`. */
  predicate IsPermutation(b: seq<nat>)
  {
    multiset(b) == multiset(Identity(Size))
  }

  /** Exactly one cell of a 16-cell board holds 0. */
  predicate OneEmpty(b: seq<nat>)
  {
    |b| == Size && multiset(b)[0] == 1
  }

  /** A well-formed board has 16 cells, each holding a tile below 16, and exactly one empty cell. */
  lemma PermutationShape(b: seq<nat>)
    requires IsPermutation(b)
    ensures OneEmpty(b)
    ensures forall k :: 0 <= k < |b| ==> b[k] < Size
  {
    IdentityCount(Size, 0);
    assert |b| == |multiset(b)| == |multiset(Identity(Size))| == Size;
    forall k | 0 <= k < |b| ensures b[k] < Size {
      assert b[k] in multiset(b);
      IdentityCount(Size, b[k]);
    }
  }

  /** The index of the first cell holding 0 (`position(|x| x == &0).unwrap()`). */
  function EmptyIndex(b: seq<nat>): (j: nat)
    requires 0 in b
    ensures j < |b| && b[j] == 0
    ensures forall k :: 0 <= k < j ==> b[k] != 0
  {
    if b[0] == 0 then 0 else 1 + EmptyIndex(b[1..])
  }

  /** Two cells holding 0 make the count of 0 at least two. */
  lemma TwoZeros(b: seq<nat>, j: nat, k: nat)
    requires j < k < |b| && b[j] == 0 && b[k] == 0
    ensures multiset(b)[0] >= 2
  {
    var front, back := b[..k], b[k..];
    assert b == front + back;
    assert front[j] == 0 && back[0] == 0;
    assert multiset(b) == multiset(front) + multiset(back);
  }

  /** On a board with a single empty cell, the first 0 is the only 0. */
  lemma OnlyZeroIsEmpty(b: seq<nat>, k: nat)
    requires multiset(b)[0] == 1
    requires k < |b| && b[k] == 0
    ensures k == EmptyIndex(b)
  {
    var j := EmptyIndex(b);
    if j < k {
      TwoZeros(b, j, k);
    }
  }

  /** The adjacency test of `tap`, written as the source writes it, with the
      empty cell at row r2, column c2 and the tapped cell at row r, column c. */
  predicate Guard(r: nat, c: nat, r2: nat, c2: nat)
  {
    (r == r2 && c2 > 0 && c2 - 1 == c)
    || (r == r2 && c2 < Cols - 1 && c2 + 1 == c)
    || (c == c2 && r2 > 0 && r2 - 1 == r)
    || (c == c2 && r2 < Rows - 1 && r2 + 1 == r)
  }

  function Abs(x: int): (a: nat) { if x < 0 then -x else x }

  /** Reference definition: two cell indices are orthogonal neighbours on the grid. */
  predicate Neighbours(i: nat, j: nat)
  {
    i < Size && j < Size && Abs(i / Cols - j / Cols) + Abs(i % Cols - j % Cols) == 1
  }

  /** The guard only ever admits a cell inside the grid, other than the empty
      cell itself, so the writes of `tap` are in bounds. */
  lemma GuardInGrid(r: nat, c: nat, r2: nat, c2: nat)
    requires r2 < Rows && c2 < Cols
    requires Guard(r, c, r2, c2)
    ensures r < Rows && c < Cols
    ensures r * Cols + c < Size && r * Cols + c != r2 * Cols + c2
  {
  }

  /** The guard holds exactly when the tapped cell is an orthogonal neighbour of the empty cell j. */
  lemma GuardIsAdjacency(r: nat, c: nat, j: nat)
    requires j < Size
    ensures Guard(r, c, j / Cols, j % Cols) <==> r < Rows && c < Cols && Neighbours(r * Cols + c, j)
  {
    if r < Rows && c < Cols {
      assert (r * Cols + c) / Cols == r && (r * Cols + c) % Cols == c;
    }
  }

  /** `tap(r, c)` fires on board b. */
  predicate Legal(b: seq<nat>, r: nat, c: nat)
    requires |b| == Size && 0 in b
  {
    var j := EmptyIndex(b);
    Guard(r, c, j / Cols, j % Cols)
  }

  /** The board after `tap(r, c)`: when legal, cell i = r*4+c becomes 0 and the
      old empty cell j receives the tile from i; otherwise nothing changes. */
  function Step(b: seq<nat>, r: nat, c: nat): (b': seq<nat>)
    requires |b| == Size && 0 in b
    ensures |b'| == Size && 0 in b'
  {
    var j := EmptyIndex(b);
    if Guard(r, c, j / Cols, j % Cols) then
      GuardInGrid(r, c, j / Cols, j % Cols);
      assert (j / Cols) * Cols + j % Cols == j;
      var i := r * Cols + c;
      var v := b[i];
      var moved := b[i := 0][j := v];
      assert moved[i] == 0;
      moved
    else
      b
  }

  /** A move only rearranges the tiles: the board keeps the same multiset of values. */
  lemma StepSameTiles(b: seq<nat>, r: nat, c: nat)
    requires |b| == Size && 0 in b
    ensures multiset(Step(b, r, c)) == multiset(b)
  {
  }

  /** A move keeps the board a permutation with exactly one empty cell. */
  lemma StepKeepsPermutation(b: seq<nat>, r: nat, c: nat)
    requires IsPermutation(b)
    ensures |b| == Size && 0 in b
    ensures IsPermutation(Step(b, r, c)) && OneEmpty(Step(b, r, c))
  {
    PermutationShape(b);
    StepSameTiles(b, r, c);
    PermutationShape(Step(b, r, c));
  }

  /** A move touches only the tapped cell and the old empty cell: the tapped
      cell becomes empty, the old empty cell receives the tile, every other
      cell keeps its value; an illegal move changes nothing. */
  lemma StepLocality(b: seq<nat>, r: nat, c: nat)
    requires |b| == Size && 0 in b
    ensures var j, i := EmptyIndex(b), r * Cols + c;
            var b' := Step(b, r, c);
            if Legal(b, r, c) then
              i < Size && i != j && b'[i] == 0 && b'[j] == b[i]
              && forall k :: 0 <= k < Size && k != i && k != j ==> b'[k] == b[k]
            else
              b' == b
  {
    var j := EmptyIndex(b);
    if Legal(b, r, c) {
      GuardInGrid(r, c, j / Cols, j % Cols);
    }
  }

  /** A tap outside the grid is a silent no-op rather than an out-of-bounds write. */
  lemma OutOfRangeIsNoop(b: seq<nat>, r: nat, c: nat)
    requires |b| == Size && 0 in b
    requires r >= Rows || c >= Cols
    ensures !Legal(b, r, c) && Step(b, r, c) == b
  {
    var j := EmptyIndex(b);
    if Legal(b, r, c) {
      GuardInGrid(r, c, j / Cols, j % Cols);
    }
  }

  /** With a single empty cell, a tap changes the board exactly when it is legal. */
  lemma StepChangesIffLegal(b: seq<nat>, r: nat, c: nat)
    requires OneEmpty(b) && 0 in b
    ensures Step(b, r, c) != b <==> Legal(b, r, c)
  {
    if Legal(b, r, c) {
      var i := r * Cols + c;
      StepLocality(b, r, c);
      if b[i] == 0 {
        OnlyZeroIsEmpty(b, i);
      }
      assert Step(b, r, c)[i] != b[i];
    }
  }

  /** The adjacency gate against the reference definition: with a single empty
      cell, a tap changes the board exactly when the tapped cell lies inside the
      grid and is an orthogonal neighbour of the empty cell. */
  lemma StepChangesIffNeighbours(b: seq<nat>, r: nat, c: nat)
    requires OneEmpty(b) && 0 in b
    ensures Step(b, r, c) != b <==> r < Rows && c < Cols && Neighbours(r * Cols + c, EmptyIndex(b))
  {
    StepChangesIffLegal(b, r, c);
    GuardIsAdjacency(r, c, EmptyIndex(b));
  }

  /** After a legal tap on a board with one empty cell, the empty cell is the tapped cell. */
  lemma StepMovesEmpty(b: seq<nat>, r: nat, c: nat)
    requires OneEmpty(b) && 0 in b
    requires Legal(b, r, c)
    ensures 0 in Step(b, r, c) && EmptyIndex(Step(b, r, c)) == r * Cols + c
  {
    StepLocality(b, r, c);
    StepSameTiles(b, r, c);
    OnlyZeroIsEmpty(Step(b, r, c), r * Cols + c);
  }

  /** Adjacency is symmetric: if the guard admits cell (r, c) next to the
      empty cell j, it admits j next to an empty cell at (r, c). */
  lemma GuardSymmetric(r: nat, c: nat, j: nat)
    requires j < Size
    requires Guard(r, c, j / Cols, j % Cols)
    ensures var i := r * Cols + c;
            i / Cols == r && i % Cols == c && (j / Cols) * Cols + j % Cols == j
            && Guard(j / Cols, j % Cols, i / Cols, i % Cols)
  {
    GuardInGrid(r, c, j / Cols, j % Cols);
    var i := r * Cols + c;
    assert i / Cols == r && i % Cols == c;
  }

  /** Tapping the old empty cell right after a legal tap undoes it. */
  lemma StepReversible(b: seq<nat>, r: nat, c: nat)
    requires OneEmpty(b) && 0 in b
    requires Legal(b, r, c)
    ensures var j := EmptyIndex(b);
            Step(Step(b, r, c), j / Cols, j % Cols) == b
  {
    var j, i := EmptyIndex(b), r * Cols + c;
    var r2, c2 := j / Cols, j % Cols;
    var b1 := Step(b, r, c);
    StepLocality(b, r, c);
    StepMovesEmpty(b, r, c);
    GuardSymmetric(r, c, j);
    assert Legal(b1, r2, c2);
    StepLocality(b1, r2, c2);
    var b2 := Step(b1, r2, c2);
    assert r2 * Cols + c2 == j;
    assert forall k :: 0 <= k < Size ==> b2[k] == b[k];
  }

  /** The board after tapping (r, c) n times in a row. */
  function Repeat(b: seq<nat>, r: nat, c: nat, n: nat): (b': seq<nat>)
    requires |b| == Size && 0 in b
    ensures |b'| == Size && 0 in b'
    decreases n
  {
    if n == 0 then b else Repeat(Step(b, r, c), r, c, n - 1)
  }

  /** Repeating an illegal tap never changes the board. */
  lemma {:induction false} RepeatIllegal(b: seq<nat>, r: nat, c: nat, n: nat)
    requires |b| == Size && 0 in b
    requires !Legal(b, r, c)
    ensures Repeat(b, r, c, n) == b
  {
    if n > 0 {
      assert Step(b, r, c) == b;
      RepeatIllegal(b, r, c, n - 1);
    }
  }

  // Worked examples on the solved board.

  const Solved: seq<nat> := [0, 1, 2, 3, 4, 5, 6, 7, 8, 9, 10, 11, 12, 13, 14, 15]

  /** The board built by `Model::new` is the solved board, a permutation whose empty cell is at row 0, column 0. */
  lemma SolvedIsInitial()
    ensures Identity(Size) == Solved
    ensures IsPermutation(Solved) && 0 in Solved && EmptyIndex(Solved) == 0
  {
    assert forall k :: 0 <= k < Size ==> Identity(Size)[k] == Solved[k];
  }

  /** The solved board after tile 1 has slid left into the empty corner. */
  const SlidOnce: seq<nat> := [1, 0, 2, 3, 4, 5, 6, 7, 8, 9, 10, 11, 12, 13, 14, 15]

  /** Tapping (0, 1) on the solved board slides tile 1 into the empty corner. */
  lemma ScenarioSlide()
    ensures 0 in Solved
    ensures Step(Solved, 0, 1) == SlidOnce
  {
    assert EmptyIndex(Solved) == 0;
    assert Guard(0, 1, 0, 0);
    assert Solved[1 := 0][0 := 1] == SlidOnce;
  }

  /** Tapping the old empty corner (0, 0) then slides tile 1 back. */
  lemma ScenarioSlideBack()
    ensures 0 in SlidOnce
    ensures Step(SlidOnce, 0, 0) == Solved
  {
    assert SlidOnce[1..][0] == 0;
    assert EmptyIndex(SlidOnce) == 1;
    assert Guard(0, 0, 0, 1);
    assert SlidOnce[0 := 0][1 := 1] == Solved;
  }

  /** Tapping a diagonal neighbour or the far corner of the solved board changes nothing. */
  lemma ScenarioIllegalTaps()
    ensures 0 in Solved
    ensures Step(Solved, 1, 1) == Solved
    ensures Step(Solved, 3, 3) == Solved
  {
    assert EmptyIndex(Solved) == 0;
  }
}
