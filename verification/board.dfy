/**
 The fixed 10x10 board of Snake & Ladder: 100 cells numbered 1..100 and the
 two jump tables, copied literally from the game's module constants.
 */
module Board {

  /** Number of rows (and columns) of the square board. */
  const BoardSize: int := 10

  /** The last cell; landing on it exactly wins. */
  const LastCell: int := 100

  /** Snake heads (keys) and the cells their tails lead down to (values). */
  const Snakes: map<int, int> :=
    map[16 := 6, 47 := 26, 49 := 11, 56 := 53, 62 := 19, 64 := 60, 87 := 24, 93 := 73, 98 := 78]

  /** Ladder feet (keys) and the cells their tops lead up to (values). */
  const Ladders: map<int, int> :=
    map[1 := 38, 4 := 14, 9 := 31, 21 := 42, 28 := 84, 36 := 44, 51 := 67, 71 := 91, 80 := 96]

  predicate OnBoard(cell: int) {
    1 <= cell <= LastCell
  }

  /** Every key and every value of both tables is a cell of the board. */
  lemma TablesOnBoard()
    ensures forall k :: k in Snakes ==> OnBoard(k) && OnBoard(Snakes[k])
    ensures forall k :: k in Ladders ==> OnBoard(k) && OnBoard(Ladders[k])
  {
  }

  /** No cell is both a snake head and a ladder foot, so at most one jump applies. */
  lemma TablesDisjoint()
    ensures Snakes.Keys !! Ladders.Keys
  {
  }

  /** Snakes lead strictly down and ladders strictly up. */
  lemma JumpDirections()
    ensures forall k :: k in Snakes ==> Snakes[k] < k
    ensures forall k :: k in Ladders ==> Ladders[k] > k
  {
  }

  /** No jump starts on the winning cell or leads to it: the only way onto 100 is an exact roll. */
  lemma JumpsAvoidLastCell()
    ensures LastCell !in Snakes && LastCell !in Ladders
    ensures forall k :: k in Snakes ==> Snakes[k] != LastCell
    ensures forall k :: k in Ladders ==> Ladders[k] != LastCell
  {
  }

  /** No jump ends on the start of another, so a second lookup would never change anything. */
  lemma NoJumpEndsOnJump()
    ensures forall k :: k in Snakes ==> Snakes[k] !in Snakes && Snakes[k] !in Ladders
    ensures forall k :: k in Ladders ==> Ladders[k] !in Snakes && Ladders[k] !in Ladders
  {
    forall k | k in Snakes
      ensures Snakes[k] !in Snakes && Snakes[k] !in Ladders
    {
      assert k in {16, 47, 49, 56, 62, 64, 87, 93, 98};
    }
    forall k | k in Ladders
      ensures Ladders[k] !in Snakes && Ladders[k] !in Ladders
    {
      assert k in {1, 4, 9, 21, 28, 36, 51, 71, 80};
    }
  }
}
