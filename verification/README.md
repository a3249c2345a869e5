# Snake & Ladder: the game rules, modelled and proved in Dafny

This project models the non-GUI core of a desktop Snake & Ladder game for two
to four players. The game is played on a 10x10 board with cells numbered 1..100
and two fixed jump tables, snakes and ladders. The model covers:

- **Board** (`board.dfy`): the snake and ladder tables, copied literally, and
  the facts about them the rules rely on. Every key and value is on the board.
  The tables are disjoint. Snakes lead down and ladders lead up. No jump
  starts on or leads to 100. No jump ends where another starts.
- **Game** (`game.dfy`): an immutable `GameState` that replaces the game's
  module-level variables (names, positions, current player, player count). It
  holds the roll transition, setup, restart, and play over a sequence of rolls.
  The die value is a parameter in 1..6.
- **Grid** (`grid.dfy`): the serpentine mapping `PosToGrid` from a cell number
  to the (row, column) where its marker is drawn. It also holds the painter's
  numbering loop, kept down to its integers `num`, `row`, `col` and
  `leftToRight`. The two are proved to agree, and `PosToGrid` is proved to be
  a bijection from 1..100 onto the grid.
- **Text** and **Names** (`text.dfy`, `names.dfy`): turning the typed answer
  to the name prompt into player names. The answer is split on commas and each
  field is trimmed. A missing or blank field becomes `"Player <i+1>"`.
  Trimming removes the code points that Python's `str.isspace()` treats as
  whitespace, listed out in `Text.IsSpace`.

Notes on the rules as the code has them:

- A roll past 100 does not move the player. There is no bounce back from 100.
- The ladder and snake lookups use the roll's *target*, not the updated
  position, so a jump never chains into a second jump.
- The ladder check comes first and the snake check second. The tables are
  disjoint, so the contract of `Game.Advance` shows the order does not matter.
- The game reports no outcome tag such as "climbed" or "bitten". A win is only
  the mover standing on 100, and the model derives it the same way.
- The ladder from cell 1 to 38 can never fire. Players start on 1 without
  climbing, and every roll targets a cell of 2 or more
  (`Game.StartLadderNeverFires`).

## Model

| member | source | states |
|---|---|---|
| Board.TablesOnBoard | snake.py:21-22 | every snake and ladder key and destination is a cell in 1..100 |
| Board.TablesDisjoint | snake.py:21-22 | no cell is both a snake head and a ladder foot |
| Board.JumpDirections | snake.py:21-22 | every snake leads to a lower cell, every ladder to a higher one |
| Board.JumpsAvoidLastCell | snake.py:21-22 | 100 is not a jump start, and no jump leads to 100 |
| Board.NoJumpEndsOnJump | snake.py:21-22 | no jump ends on the start of another jump, so a chained lookup would change nothing |
| Game.Advance | snake.py:159-167 | the mover's new cell from the game's override sequence equals a case-by-case rule: jump if the target starts one, else the target if at most 100, else stay |
| Game.StartLadderNeverFires | snake.py:22 | in a set-up game a roll of 1..6 never targets cell 1, so the ladder at 1 is never climbed |
| Game.Roll | snake.py:159-179 | a roll changes only the current player's position; names, player count and the other positions are kept; the new turn index is a valid seat |
| Game.RollOvershoot | snake.py:159-161 | when position + dice exceeds 100, every position is unchanged after the roll |
| Game.RollLadder | snake.py:163-164 | landing exactly on a ladder foot k leaves the mover on Ladders[k], with no further jump |
| Game.RollSnake | snake.py:166-167 | landing exactly on a snake head k leaves the mover on Snakes[k], with no further jump |
| Game.RollPlain | snake.py:159-167 | a target of at most 100 that starts no jump is the mover's new cell |
| Game.RollWinsIff | snake.py:159-171 | after a roll the mover is on 100 exactly when position + dice is 100 or they were already on 100 |
| Game.RollTurn | snake.py:171-179 | with two or more players, the turn stays with the mover exactly when they stand on 100; otherwise it becomes (cur + 1) mod n |
| Game.RollKeepsValid | snake.py:159-179 | from a set-up game with a die face 1..6, every position stays in 1..100 and the turn index stays in [0, n) |
| Game.ExampleRolls | snake.py:159-167 | 95+5 reaches 100; 2+2 climbs to 14; 85+2 is bitten down to 24; 97+6 stays on 97 |
| Game.Play | snake.py:159-179 | any sequence of die faces played from a set-up game leaves a set-up game with the same players |
| Game.TurnRotation | snake.py:179 | k rolls in a row without a win move the turn k seats round the table, modulo n |
| Game.FirstRollPassesTurn | snake.py:179 | the first roll of a winless sequence keeps the game set up and moves the turn to the next seat, and play continues from there |
| Game.FullRoundReturnsTurn | snake.py:179 | n rolls without a win, one per player, give the turn back to the player who started |
| Game.NewGame | snake.py:249-250 | the initial state is valid, with n positions all equal to 1, turn index 0, and the given names |
| Game.Reset | snake.py:225-226 | restart gives n positions all equal to 1 and turn index 0, and keeps names and player count |
| Game.ResetIsNewGame | snake.py:225-226 | restarting a set-up game yields exactly the state it was set up in |
| Game.ResetForgetsRoll | snake.py:225-226 | a restart after a roll equals a restart before it |
| Game.Setup | snake.py:241-250 | setup with 2..4 players yields a valid game: everyone on 1, first player to move; name i is the trimmed i-th comma field of the typed answer when it exists and is not all whitespace, else "Player i+1", so never empty |
| Grid.PosToGrid | snake.py:46-51 | every cell 1..100 maps to a row and a column in 0..9 |
| Grid.GridThenLabel | snake.py:46-51 | the painter's label in the grid cell of pos is pos itself |
| Grid.PaintedLabel | snake.py:74-101 | the label the painter writes in each grid cell is in 1..100, and PosToGrid of that label is the cell |
| Grid.PosToGridInjective | snake.py:46-51 | distinct cells 1..100 are drawn in distinct grid cells |
| Grid.PosToGridSurjective | snake.py:46-51 | every grid cell is the image of some cell 1..100, so PosToGrid is a bijection onto the grid |
| Grid.PaintNumbering | snake.py:74-101 | the painter draws 100 cells, labelled 100 down to 1, each in the grid; each label equals the closed-form label and its PosToGrid is where it is drawn; no grid cell is drawn twice |
| Text.Split | snake.py:205 | splitting on a separator gives one more field than the separator count, and no field contains the separator |
| Text.JoinSplit | snake.py:205 | joining the fields of a split with the separator restores the string |
| Text.SplitJoin | snake.py:205 | splitting a join of separator-free fields restores the fields |
| Text.TrimLeft | snake.py:205 | removes exactly the leading whitespace: the result is a suffix whose cut-off prefix is all whitespace and which does not start with whitespace |
| Text.TrimRight | snake.py:205 | removes exactly the trailing whitespace: the result is a prefix whose cut-off suffix is all whitespace and which does not end with whitespace |
| Text.Strip | snake.py:205 | the result is a middle slice of the input with all-whitespace parts cut from both ends, and it has no whitespace at either end |
| Text.StripIsSlice | snake.py:205 | cutting a whitespace prefix and then a whitespace suffix leaves a slice of the input bounded by whitespace on both sides |
| Text.StripEndsTrimmed | snake.py:205 | right-trimming a string that does not start with whitespace leaves a string trimmed at both ends |
| Text.TrimmedStripsToItself | snake.py:205 | a string without whitespace at either end is its own strip |
| Text.StripIdempotent | snake.py:205 | stripping twice equals stripping once |
| Text.StripEmptyIff | snake.py:205-208 | a field strips to the empty string exactly when it is all whitespace |
| Text.NatToString | snake.py:211 | the decimal form of a number is non-empty, all digits, with no leading zero unless the number is 0 |
| Text.ParseNatToString | snake.py:211 | reading the decimal form back gives the number |
| Text.NatToStringInjective | snake.py:211 | different numbers have different decimal forms |
| Names.DefaultName | snake.py:211 | a default name is non-empty and has no whitespace at either end |
| Names.DefaultNamesDistinct | snake.py:211 | different slots get different default names |
| Names.SlotName | snake.py:208-211 | the name chosen for a slot is never empty and has no whitespace at either end |
| Names.FillSlots | snake.py:206-211 | the slot loop yields exactly num_players names; each is non-empty and trimmed, and equals field i when present and non-empty, else the default name |
| Names.FillNames | snake.py:205-211 | exactly num_players names, none empty or untrimmed; name i is the trimmed i-th field when it exists and is not all whitespace, else "Player i+1"; extra fields are ignored |
| Names.SlotNameCases | snake.py:205-211 | a slot takes the trimmed field exactly when the raw field exists and is not all whitespace, else the default name |
| Names.SlotNamesFromRaw | snake.py:205-211 | the slot rule holds for every slot of a filled list |

## Left out

- The wxPython layer: the app, frame, panels, sizers, buttons, labels, dialogs
  and event binding. Also the gradient fill, checkerboard colours, rounded
  cells, fonts, arrow and marker drawing, `Refresh`, and the main loop. All of
  it is display plumbing over a library outside this model.
- `random.randint(1, 6)`: the die value is a parameter. The model requires it
  to be in 1..6.
- Screen-size-derived pixel geometry: `BOARD_PIXEL_SIZE`, `CELL_SIZE`,
  `grid_to_pixel`, and the player-marker offsets. These depend on the display,
  and the 85% scaling is floating point.
- Player-count validation. The number dialog bounds the count to 2..4, so the
  model takes that range as a precondition (`Valid`, `NewGame`, `Setup`).
- Cancelling either setup dialog. That makes the game exit before a state
  exists, so `Setup` models only the answered path.
- The win dialog's choice to restart. The user's answer is outside the model.
  A caller that restarts on "yes" applies `Reset` after the winning `Roll`.
- `PLAYER_COLORS`: a marker colour per player, used only for drawing.
- The dice and turn text labels. They only display `dice` and the current
  player's name.

