/**
 The game itself: player positions, whose turn it is, and the rule applied
 when the current player rolls the dice. The game's module-level variables
 (names, positions, current player, number of players) become one immutable
 state value; every operation returns a new one.
 */
module Game {
  import opened Board
  import opened Names
  import opened Text

  datatype GameState = GameState(
    names: seq<string>,
    positions: seq<int>,
    current: int,
    numPlayers: nat
  )

  /** A state the game can be in once set up: 2..4 players, each on the board, and a current player among them. */
  predicate Valid(g: GameState) {
    && 2 <= g.numPlayers <= 4
    && |g.names| == g.numPlayers
    && |g.positions| == g.numPlayers
    && 0 <= g.current < g.numPlayers
    && forall i :: 0 <= i < |g.positions| ==> OnBoard(g.positions[i])
  }

  /** A face of the die. */
  predicate IsDieFace(dice: int) {
    1 <= dice <= 6
  }

  /** What a roll needs of the state: one position per player and a current player among them. */
  predicate CanRoll(g: GameState) {
    |g.positions| == g.numPlayers && 0 <= g.current < g.numPlayers
  }

  // ---------------------------------------------------------------------------
  // The roll

  /**
   Where a player on `pos` ends up after rolling `dice`, in the game's own
   order: move to the target if it is still on the board, then let a ladder
   foot and then a snake head at the TARGET override the position. Only the
   target is looked up, so there is no second jump. The order of the two
   lookups does not matter: the result is the case-by-case `Destination`.
   */
  function Advance(pos: int, dice: int): (cell: int)
    ensures cell == Destination(pos, dice)
  {
    TablesDisjoint();
    var target := pos + dice;
    var moved := if target <= LastCell then target else pos;
    var climbed := if target in Ladders then Ladders[target] else moved;
    if target in Snakes then Snakes[target] else climbed
  }

  /**
   An independent statement of the same rule, as one decision per case: a
   jump if the target starts one, otherwise the target if on the board,
   otherwise stay put.
   */
  function Destination(pos: int, dice: int): int {
    var target := pos + dice;
    if target in Ladders then Ladders[target]
    else if target in Snakes then Snakes[target]
    else if target <= LastCell then target
    else pos
  }

  /**
   The current player rolls `dice`: only their position changes, and the turn
   passes to the next player (cyclically) unless they now stand on 100.
   */
  function Roll(g: GameState, dice: int): (g': GameState)
    requires IsDieFace(dice)
    requires CanRoll(g)
    ensures g'.names == g.names && g'.numPlayers == g.numPlayers
    ensures |g'.positions| == |g.positions|
    ensures forall j :: 0 <= j < |g.positions| && j != g.current ==> g'.positions[j] == g.positions[j]
    ensures CanRoll(g')
  {
    var final := Advance(g.positions[g.current], dice);
    var next := if final == LastCell then g.current else (g.current + 1) % g.numPlayers;
    g.(positions := g.positions[g.current := final], current := next)
  }

  /** A roll that would go past 100 leaves every position as it was. */
  lemma RollOvershoot(g: GameState, dice: int)
    requires IsDieFace(dice) && CanRoll(g)
    requires g.positions[g.current] + dice > LastCell
    ensures Roll(g, dice).positions == g.positions
  {
    TablesOnBoard();
  }

  /** Landing exactly on a ladder foot puts the mover at the top of that ladder, and nowhere further. */
  lemma RollLadder(g: GameState, dice: int)
    requires IsDieFace(dice) && CanRoll(g)
    requires g.positions[g.current] + dice in Ladders
    ensures Roll(g, dice).positions[g.current] == Ladders[g.positions[g.current] + dice]
  {
    TablesDisjoint();
  }

  /** Landing exactly on a snake head puts the mover at that snake's tail, and nowhere further. */
  lemma RollSnake(g: GameState, dice: int)
    requires IsDieFace(dice) && CanRoll(g)
    requires g.positions[g.current] + dice in Snakes
    ensures Roll(g, dice).positions[g.current] == Snakes[g.positions[g.current] + dice]
  {
  }

  /** A target on the board that starts no jump is where the mover stays. */
  lemma RollPlain(g: GameState, dice: int)
    requires IsDieFace(dice) && CanRoll(g)
    requires g.positions[g.current] + dice <= LastCell
    requires g.positions[g.current] + dice !in Ladders && g.positions[g.current] + dice !in Snakes
    ensures Roll(g, dice).positions[g.current] == g.positions[g.current] + dice
  {
  }

  /**
   The ladder at cell 1 never fires: everyone starts on 1 without climbing it,
   and a roll of 1..6 from any cell of the board targets cell 2 or higher.
   */
  lemma StartLadderNeverFires(g: GameState, dice: int)
    requires Valid(g) && IsDieFace(dice)
    ensures 1 in Ladders && g.positions[g.current] + dice != 1
  {
  }

  /** The mover stands on 100 after a roll exactly when the roll hit 100 or they were already there. */
  lemma RollWinsIff(g: GameState, dice: int)
    requires IsDieFace(dice) && CanRoll(g)
    ensures Roll(g, dice).positions[g.current] == LastCell
        <==> g.positions[g.current] + dice == LastCell || g.positions[g.current] == LastCell
  {
    JumpsAvoidLastCell();
    TablesOnBoard();
  }

  /**
   With at least two players, the turn stays with the mover exactly when they
   now stand on 100; otherwise it passes to the next seat, wrapping round.
   */
  lemma RollTurn(g: GameState, dice: int)
    requires IsDieFace(dice) && CanRoll(g) && g.numPlayers >= 2
    ensures var g' := Roll(g, dice);
      && (g'.current == g.current <==> g'.positions[g.current] == LastCell)
      && (g'.positions[g.current] != LastCell ==> g'.current == (g.current + 1) % g.numPlayers)
  {
  }

  /** A roll from a set-up game leaves a set-up game: every player stays on the board. */
  lemma RollKeepsValid(g: GameState, dice: int)
    requires Valid(g) && IsDieFace(dice)
    ensures Valid(Roll(g, dice))
  {
    TablesOnBoard();
    var pos := g.positions[g.current];
    assert OnBoard(Advance(pos, dice));
  }

  /** Concrete rolls: 95 + 5 wins, 2 + 2 climbs to 14, 85 + 2 is bitten down to 24, 97 + 6 overshoots and stays. */
  lemma ExampleRolls()
    ensures Advance(95, 5) == 100
    ensures Advance(2, 2) == 14
    ensures Advance(85, 2) == 24
    ensures Advance(97, 6) == 97
  {
  }

  // ---------------------------------------------------------------------------
  // Several rolls

  predicate AllDieFaces(rolls: seq<int>) {
    forall i :: 0 <= i < |rolls| ==> IsDieFace(rolls[i])
  }

  /** The state after the current player of each turn rolls the next value of `rolls`. */
  function Play(g: GameState, rolls: seq<int>): (g': GameState)
    requires Valid(g) && AllDieFaces(rolls)
    ensures Valid(g')
    ensures g'.names == g.names && g'.numPlayers == g.numPlayers
    decreases |rolls|
  {
    if rolls == [] then g
    else
      RollKeepsValid(g, rolls[0]);
      Play(Roll(g, rolls[0]), rolls[1..])
  }

  /** Nobody lands on 100 during the rolls `rolls` played from `g`. */
  predicate NoWinDuring(g: GameState, rolls: seq<int>)
    requires Valid(g) && AllDieFaces(rolls)
    decreases |rolls|
  {
    rolls == [] ||
      (var g' := Roll(g, rolls[0]);
       g'.positions[g.current] != LastCell && NoWinDuring(g', rolls[1..]))
  }

  /** Without a win, each roll hands the turn on by one, so k rolls move it k places round the table. */
  lemma {:induction false} TurnRotation(g: GameState, rolls: seq<int>)
    requires Valid(g) && AllDieFaces(rolls)
    requires NoWinDuring(g, rolls)
    ensures Play(g, rolls).current == (g.current + |rolls|) % g.numPlayers
    decreases |rolls|
  {
    if rolls != [] {
      var g' := FirstRollPassesTurn(g, rolls);
      TurnRotation(g', rolls[1..]);
      ModStep(g.current, |rolls| - 1, g.numPlayers);
    }
  }

  /**
   The first of several rolls without a win: it leaves a set-up game, hands
   the turn to the next seat, and the rest of the play continues from there.
   */
  lemma FirstRollPassesTurn(g: GameState, rolls: seq<int>) returns (g': GameState)
    requires Valid(g) && AllDieFaces(rolls) && rolls != []
    requires NoWinDuring(g, rolls)
    ensures g' == Roll(g, rolls[0]) && Valid(g') && AllDieFaces(rolls[1..])
    ensures g'.current == (g.current + 1) % g.numPlayers
    ensures NoWinDuring(g', rolls[1..])
    ensures Play(g, rolls) == Play(g', rolls[1..])
  {
    g' := Roll(g, rolls[0]);
    RollKeepsValid(g, rolls[0]);
    RollTurn(g, rolls[0]);
  }

  /** For a seat `a` at a table of 2..4, passing the turn once and then k more times is passing it k + 1 times. */
  lemma ModStep(a: int, k: nat, n: int)
    requires 2 <= n <= 4 && 0 <= a < n
    ensures ((a + 1) % n + k) % n == (a + 1 + k) % n
  {
    if a + 1 < n {
      assert (a + 1) % n == a + 1;
    } else {
      assert (a + 1) % n == 0;
      assert (n + k) % n == k % n by {
        var q := k / n;
        var r := k % n;
        assert k == n * q + r && 0 <= r < n;
        assert n + k == n * (q + 1) + r;
      }
    }
  }

  /** A full round of non-winning rolls, one per player, gives the turn back to whoever started it. */
  lemma FullRoundReturnsTurn(g: GameState, rolls: seq<int>)
    requires Valid(g) && AllDieFaces(rolls)
    requires |rolls| == g.numPlayers && NoWinDuring(g, rolls)
    ensures Play(g, rolls).current == g.current
  {
    TurnRotation(g, rolls);
    FullCircle(g.current, g.numPlayers);
  }

  /** Passing the turn n times round a table of n = 2..4 comes back to the same seat. */
  lemma FullCircle(a: int, n: int)
    requires 2 <= n <= 4 && 0 <= a < n
    ensures (a + n) % n == a
  {
    if n == 2 {
    } else if n == 3 {
    } else {
    }
  }

  // ---------------------------------------------------------------------------
  // Setting up and restarting

  /** The state right after setup: everyone on cell 1, first player to move. */
  function NewGame(names: seq<string>, numPlayers: nat): (g: GameState)
    requires 2 <= numPlayers <= 4 && |names| == numPlayers
    ensures Valid(g)
    ensures g.names == names && g.numPlayers == numPlayers
    ensures forall i :: 0 <= i < |g.positions| ==> g.positions[i] == 1
    ensures g.current == 0
  {
    GameState(names, seq(numPlayers, _ => 1), 0, numPlayers)
  }

  /** Restart: every player back on cell 1, first player to move, same players. */
  function Reset(g: GameState): (g': GameState)
    ensures |g'.positions| == g.numPlayers
    ensures forall i :: 0 <= i < |g'.positions| ==> g'.positions[i] == 1
    ensures g'.current == 0
    ensures g'.names == g.names && g'.numPlayers == g.numPlayers
  {
    g.(positions := seq(g.numPlayers, _ => 1), current := 0)
  }

  /** Restarting a set-up game gives exactly the state it was set up in, whatever was played since. */
  lemma ResetIsNewGame(g: GameState)
    requires Valid(g)
    ensures Reset(g) == NewGame(g.names, g.numPlayers)
  {
  }

  /** Restarting after a roll is the same as restarting before it: a reset forgets all play. */
  lemma ResetForgetsRoll(g: GameState, dice: int)
    requires Valid(g) && IsDieFace(dice)
    ensures Reset(Roll(g, dice)) == Reset(g)
  {
  }

  /**
   Setup as the game performs it: read the number of players and the typed
   names, fill in default names, and place everyone on cell 1.
   */
  method Setup(numPlayers: nat, text: string) returns (g: GameState)
    requires 2 <= numPlayers <= 4
    ensures Valid(g) && g.numPlayers == numPlayers
    ensures g.current == 0 && forall i :: 0 <= i < numPlayers ==> g.positions[i] == 1
    ensures forall i :: 0 <= i < numPlayers ==> g.names[i] != []
    ensures var raw := Split(text, ',');
      forall i :: 0 <= i < numPlayers ==>
        g.names[i] == if i < |raw| && !AllSpace(raw[i]) then Strip(raw[i]) else DefaultName(i)
  {
    var names := FillNames(text, numPlayers);
    g := NewGame(names, numPlayers);
  }
}
