# Connect Four driver and configuration, modelled in Dafny

This project models the console driver of a Connect Four game (`ConnectFour`) and
its start-up settings (`ConnectFourConfig`). The board's grid and win scan, and the
computer's alpha-beta search, live in classes whose sources are not part of this
model (`Board`, `Minimax`). Here they are represented only through their answers,
which the caller supplies as arbitrary pure functions of the board's history:
- `SetRule`: whether `Board.set` places a checker;
- `WinnerRule`: what `Board.getWinner` reports;
- `SearchRule`: the column `Minimax.alphaBeta` picks.

Files:
- `wrappers.dfy`: `Option`, `Result` and `Outcome`, used where the Java code throws.
- `connect_four_config.dfy` (module `GameConfig`): the class `ConnectFourConfig`.
  Its guarded setters reject a game type or difficulty outside 1..4 and then leave
  the object as it was. The difficulty is stored as the search depth `level << 1`
  and read back as `depth >> 1`.
- `board.dfy` (module `Boards`): the cell marks, the board size (6 rows, 7 columns)
  and a stand-in `Board`. The stand-in records the drops it accepted, in order.
- `connect_four.dfy` (module `Game`): the class `ConnectFour` with the side to move
  and the play counter, `switchPlayers`, the checked `dropChecker`, and the column
  conversion of `getColumn`. It also holds `doPlayerMove`, `doComputerMove` and the
  game loop of `main` (`Play`). `Play` proves that RED makes exactly the even-numbered
  plays, that each play comes from the seat the game type assigns, that play stops
  at the first winner or after 42 plays, and how a game can end early.

Console input is a parameter: the sequence of typed lines, each already parsed
(`None` when `Integer.parseInt` would fail). When the lines run out, the game ends
with `InputExhausted`, which stands for the `exit(1)` that `doPlayerMove` performs
when reading fails.

## Model

| member | source | states |
|---|---|---|
| `GameConfig.DepthOfLevel` | src/ConnectFourConfig.java:46 | The depth stored for a valid level is even and one of 2, 4, 6, 8, and shifting it back gives the level (round trip). |
| `GameConfig.LevelOfDepth` | src/ConnectFourConfig.java:37-39 | `depth >> 1` is the floor of half the depth: `2*level <= depth <= 2*level + 1`. |
| `GameConfig.DepthDeterminesLevel` | src/ConnectFourConfig.java:37-51 | Every storable depth comes from a valid level, and converting it to a level and back gives the same depth. |
| `GameConfig.ConnectFourConfig.Blank` | src/ConnectFourConfig.java:18 | The object as Java allocates it before the constructor body runs: both `int` fields are 0. `Create` starts from it. |
| `GameConfig.ConnectFourConfig.Create` | src/ConnectFourConfig.java:20-23 | Construction succeeds iff both game type and difficulty are in 1..4. An invalid game type is reported before the difficulty is examined. On success the object is valid and returns the given type, level and twice the level as depth. |
| `GameConfig.ConnectFourConfig.SetGameType` | src/ConnectFourConfig.java:25-31 | Succeeds iff the type is in 1..4, else throws with the game type unchanged. Never touches `maxDepth`. Keeps the object valid. |
| `GameConfig.ConnectFourConfig.GetGameType` | src/ConnectFourConfig.java:33-35 | On a valid object the game type is in 1..4. |
| `GameConfig.ConnectFourConfig.GetDifficultyLevel` | src/ConnectFourConfig.java:37-39 | On a valid object the level read back is in 1..4 and is the one whose depth is stored. |
| `GameConfig.ConnectFourConfig.SetDifficulty` | src/ConnectFourConfig.java:41-47 | Succeeds iff the level is in 1..4, storing depth 2*level so that the level reads back. Otherwise throws with `maxDepth` unchanged. Never touches `gameType`. |
| `GameConfig.ConnectFourConfig.GetMaxDepth` | src/ConnectFourConfig.java:49-51 | On a valid object the depth is even and between 2 and 8. |
| `Boards.Board.constructor` | src/ConnectFour.java:26 | A new board holds no checkers. |
| `Boards.Board.Set` | src/ConnectFour.java:83 | Stand-in for `board.set`: either the checker is appended to the board's history, or the call fails and the board is unchanged. |
| `Game.Opponent` | src/ConnectFour.java:61-67 | The `switchPlayers` rule always yields a player mark, and a player is never followed by itself. |
| `Game.OpponentInvolutive` | src/ConnectFour.java:61-67 | Switching twice gives back the player. |
| `Game.AfterSwitchesParity` | src/ConnectFour.java:222-248 | Starting from RED, after n switches RED is to move iff n is even. |
| `Game.SeatOf` | src/ConnectFour.java:224-238 | Play n is given to a human iff the game is HUMAN_HUMAN, or HUMAN_COMPUTER and RED is to move, or COMPUTER_HUMAN and BLACK is to move. |
| `Game.SeatsOfGameTypes` | src/ConnectFour.java:224-238 | HUMAN_HUMAN always seats a human. COMPUTER_COMPUTER never does. HUMAN_COMPUTER seats the human exactly on RED's plays, COMPUTER_HUMAN exactly on BLACK's plays. |
| `Game.HumanKeepsColour` | src/ConnectFour.java:222-246 | Against the computer, the human's seat coincides with one colour after any number of switches: RED for HUMAN_COMPUTER, BLACK for COMPUTER_HUMAN. |
| `Game.ColumnOfEntry` | src/ConnectFour.java:95-107 | A typed line is accepted iff it is an integer in 1..maxCol. The result is that integer minus one, in 0..maxCol-1. A non-number and an out-of-range number fail with distinct errors. |
| `Game.EntryOfColumn` | src/ConnectFour.java:103-107 | Every 0-based column below maxCol is reached by typing its 1-based number (inverse of the conversion). |
| `Game.ConnectFour.constructor` | src/ConnectFour.java:20-27 | A new game has RED to move, zero plays and an empty board. Game type and depth are stored unchecked. |
| `Game.ConnectFour.GetMaxPlays` | src/ConnectFour.java:45-47 | The play bound is ROWS * COLUMNS = 42, the number of cells. |
| `Game.ConnectFour.SwitchPlayers` | src/ConnectFour.java:61-67 | The side to move becomes its opponent, stays a player mark, and the play counter is unchanged. |
| `Game.ConnectFour.DropChecker` | src/ConnectFour.java:73-85 | A non-player mark is rejected first, then a column outside 0..6; both leave board, counter and side untouched. Otherwise the board decides. The counter rises by exactly one only when the board places the checker. The side to move never changes. |
| `Game.DoPlayerMove` | src/ConnectFour.java:178-190 | Reads lines until one is accepted, re-prompting on every refusal. The move made is the last line read minus one, and every line read before it was refused. A line is refused when it is not a number, is out of 1..7, or the drop fails. When input runs out, every line read was refused and nothing has changed. |
| `Game.DoComputerMove` | src/ConnectFour.java:192-206 | Drops in the column the search chooses at the game's depth. The drop fails exactly when the mark is not a player, or that column is out of range or refused, and the failure is passed on with its reason. |
| `Game.TakeTurn` | src/ConnectFour.java:223-238 | The side to move plays from its seat. A computer turn reads no line and plays the search's column. A human turn that places a checker read at least one line: the column is the last line read minus one, and every line read before it was refused. A placed checker is legal (column 0..6, accepted by the board) and appended to the board. Otherwise nothing changes: a human turn then had no acceptable line left, and a computer turn's column was out of range or refused. |
| `Game.FollowsScheduleAt` | src/ConnectFour.java:222-238 | In a game on schedule, play i was made by RED iff i is even, from the seat `SeatOf` assigns to i, into a column in 0..6 that the board as it was before play i accepted; a computer seat played the column the search chose on that board. |
| `Game.ScheduledIsWellFormed` | src/ConnectFour.java:73-85 | A game on schedule holds only player marks in board columns, as `dropChecker` guarantees. |
| `Game.FollowsScheduleExtend` | src/ConnectFour.java:222-238 | A legal play by the side the parity rule names, from the seat the game type assigns, keeps a game on schedule. |
| `Game.NoEarlierWinnerAt` | src/ConnectFour.java:240-245 | When no position before the last one had a winner, the position after any k plays with 0 < k < the total had none. |
| `Game.NoWinnerExtend` | src/ConnectFour.java:240-245 | A play after a position the winner check answered "no winner" for keeps every earlier position winner-free. |
| `Game.ReadsLinesAt` | src/ConnectFour.java:178-190 | In a game's record of console use, play i read lines from where play i-1 stopped (line 0 for the first play) up to its own end. A computer play read none. A human play read at least one, its column is the last line read minus one, and every line before that was refused on the board before play i. |
| `Game.ReadsLinesExtend` | src/ConnectFour.java:178-190 | A turn that starts reading where the previous play stopped extends the record of console use, and its end becomes the record's last end. |
| `Game.Play` | src/ConnectFour.java:208-251 | The game never exceeds 42 plays and follows the schedule (see `FollowsScheduleAt`): RED makes the even-numbered plays, each from the seat `SeatOf` assigns, each legal on the board before it. The returned `ends` record how the plays consumed the console (see `ReadsLinesAt`): each human play is the last of the lines it read, all earlier ones refused. The first unread line is the last play's end, or the end of input. No position before the last has a winner, and the game is won iff the last position has one. A tie means 42 plays. The game stops early only on a human turn whose remaining lines are all refused, or on a computer turn whose column is out of range or refused, with that drop's error. |

## Left out

- `Board` and `Minimax` internals (grid, gravity, win scan, winning cells, alpha-beta, evaluator, node count): their sources are not part of this model. Their answers are parameters (`SetRule`, `WinnerRule`, `SearchRule`) that may be any function of the board's history.
- Board size: `Board.ROWS` and `Board.COLUMNS` are taken as 6 and 7, the board size the game is designed for, since `Board` is not part of this model.
- Cell marks: `Board`'s marks are characters whose values are not part of this model. The marks are the five named ones (`UNMARKED`, `RED`, `BLACK`, `GRAY`, `PINK`); any other character passed to `dropChecker` is not represented.
- Boards.Board.Set: a refused `set` is modelled as leaving the board unchanged and as throwing an `IllegalArgumentException`, so a human is prompted again. Which exception `Board.set` really throws is not part of this model.
- Game.DoPlayerMove: exceptions raised inside the loop other than `IllegalArgumentException` and the end of input (`exit(1)` in the source) are not modelled; only the unseen `Board` code could raise them.
- Game.ConnectFour.DropChecker: `plays` is an unbounded integer, without 32-bit wrap-around. The loop stops at 42 plays, far below the wrap.
- Game.Play: the board display, the printed messages, the timing of the search (`System.currentTimeMillis`, the floating-point `elapsed`) and the boards-analyzed count are I/O and are not modelled. The `try`/`catch` around `new ConnectFour` is dropped because that constructor never throws.
- `parseArgs` and `getHelp`: option parsing relies on the external `gnu.getopt` library, and the help text is output only. `Play` takes the configuration it would produce. In the source, the option string declares `-m` while the `switch` handles `'d'`, so the difficulty option has no effect and the default level (EXPERT) always applies.
- `getRows`, `getGameType`, `getMaxDepth`, `getPlays`, `getPlayer`, `getBoard` and `getWinner` of `ConnectFour` are plain field reads or delegation; the model reads the fields directly and uses `WinnerRule` for `getWinner`.
- `Integer.parseInt` and the `Scanner` read in `getColumn`: console input is the sequence of already-parsed lines.
- Game.ColumnOfEntry: its input is unbounded, while `Integer.parseInt` throws on a number outside Java's 32-bit `int`. A typed line like that counts as not a number, so the caller must pass it as `None`. The distinct out-of-range error applies only to numbers that fit in an `int`.
- `GUI.java`, `GamePanel.java`, `Utility.java` and `ImagePanel.java`: Swing user interface, animation thread and image loading. `GamePanel`'s turn dispatch repeats the rule of `main` modelled in `Play`.
