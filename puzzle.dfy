/** The puzzle state of `Model` in src/main.rs: a 16-cell board updated in
    place by `new`, `shuffle` and `tap`.  Each method is proved against the
    board functions of module Board. */
module SlidingPuzzle {
  import opened Board

  class Model {
    /** Cell values in row-major order; 0 marks the empty cell. */
    var board: array<nat>

    /** The object invariant: 16 cells holding a permutation of 0..15. */
    ghost predicate Valid()
      reads this, board
    {
      board.Length == Size && IsPermutation(board[..])
    }

    /** `Model::new`: the board starts solved, `[0, 1, ..., 15]`. */
    constructor ()
      ensures Valid() && fresh(board)
      ensures board[..] == Identity(Size)
    {
      var cells := new nat[Size];
      for i := 0 to Size
        invariant forall k :: 0 <= k < i ==> cells[k] == k
      {
        cells[i] := i;
      }
      assert cells[..] == Identity(Size);
      board := cells;
    }

    /** The linear scan `board.iter().position(|x| x == &0).unwrap()`:
        the index of the first empty cell. */
    method FindEmpty() returns (j: nat)
      requires 0 in board[..]
      ensures j < board.Length && j == EmptyIndex(board[..])
    {
      j := 0;
      while board[j] != 0
        invariant j <= EmptyIndex(board[..])
        decreases EmptyIndex(board[..]) - j
      {
        j := j + 1;
      }
    }

    /** `Model::shuffle`: rearranges the board in place.  The random source is
        the parameter `draws`: going down from the last cell, cell i is swapped
        with cell `draws[Size - 1 - i] % (i + 1)`. */
    method Shuffle(draws: seq<nat>)
      requires Valid()
      requires |draws| == Size - 1
      modifies board
      ensures Valid()
      ensures multiset(board[..]) == old(multiset(board[..]))
    {
      var i := Size - 1;
      while i > 0
        invariant i < Size
        invariant multiset(board[..]) == old(multiset(board[..]))
      {
        var j := draws[Size - 1 - i] % (i + 1);
        ghost var before := board[..];
        board[i], board[j] := board[j], board[i];
        assert board[..] == before[i := before[j]][j := before[i]];
        i := i - 1;
      }
    }

    /** `Model::tap(r, c)`: when (r, c) is orthogonally next to the empty cell,
        the tile there slides into it; otherwise the board is left alone. */
    method Tap(r: nat, c: nat)
      requires Valid()
      modifies board
      ensures Valid() && 0 in old(board[..])
      ensures board[..] == Step(old(board[..]), r, c)
      ensures board[..] != old(board[..]) <==> Legal(old(board[..]), r, c)
    {
      PermutationShape(board[..]);
      assert 0 in multiset(board[..]);
      var i := r * Cols + c;
      var j := FindEmpty();
      var r2, c2 := j / Cols, j % Cols;
      if Guard(r, c, r2, c2) {
        GuardInGrid(r, c, r2, c2);
        var v := board[i];
        board[i] := 0;
        board[j] := v;
      }
      StepKeepsPermutation(old(board[..]), r, c);
      StepChangesIffLegal(old(board[..]), r, c);
    }
  }

  /** Start-up in `model`: build the solved board, then shuffle it once. */
  method Start(draws: seq<nat>) returns (m: Model)
    requires |draws| == Size - 1
    ensures fresh(m) && fresh(m.board) && m.Valid()
  {
    m := new Model();
    m.Shuffle(draws);
  }
}
