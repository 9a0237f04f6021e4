# N-dimensional tic-tac-toe with a Q-learning agent, in Dafny

This project models the game core of a small reinforcement-learning program. The game is tic-tac-toe on a grid of
`size`^`dimension` cells, where `connect_n` symbols in a row along any axis win. A tabular Q-learning agent plays it
against a random opponent.

- **board.dfy (module `Board`)** holds the grid geometry. The grid shape is `(size,)*dimension`. The grid is stored
  flat in row-major order. numpy's `unravel_index` and `ravel_multi_index` are written out as mixed-radix conversions,
  proved to be inverse to each other. The module also defines coordinate validity and the list of empty cells.
- **win_oracle.dfy (module `WinOracle`)** is the specification of the win test, as functions:
  - the canonical axis directions. These are the order of `itertools.product([-1, 0, 1], repeat=d)` with the zero
    vector removed and opposite vectors dropped;
  - the line through a cell along a direction;
  - runs of equal symbols;
  - the win condition that combines them.

  The axes are defined in closed form as the first half of the product list (`Axes`), and the lists the scan keeps
  along the way as prefixes of it (`Kept`). What these lists contain is stated by lemmas: `AxesShape`,
  `AxesDistinct`, `InAxes`, `AxesCanonical` and `InKept`.
- **tic_tac_toe_env.py's class `TicTacToeEnv`** becomes the class `Environment.TicTacToeEnv` in tic_tac_toe_env.dfy:
  - the grid is a mutable field;
  - the axes are a constant computed by the same loop at construction;
  - `_get_line`, `_has_n_subsequent_numbers`, `_get_intersecting_axes` and `_is_game_over` are methods with the
    source's loops, each proved equal to its specification function;
  - `step` is a method that changes the grid. Its contract states every outcome: a draw on a full grid, the penalty for
    an occupied cell, a win, a draw after the agent's move, and the opponent's move with its possible win.
    As in the source, no full-grid check follows the opponent's move. When the opponent fills the last cell without
    winning, `Step` returns `terminated` false on a full grid. A later `ChooseAction` then has no legal action, so its
    precondition cannot be met. That happens for example on an even cell count where `connect_n` > `size` makes winning
    impossible (`NoWinBeyondSize`).
- **tic_tac_toe_agent.py's class `TicTacToeAgent`** becomes `QLearning.TicTacToeAgent` in tic_tac_toe_agent.dfy:
  - the Q-table is a field `map<seq<int>, map<int, real>>`;
  - `choose_action` and `learn` are methods;
  - each method's new table is given by a specification function (`EnsureState`, `Learned`);
  - lemmas relate those functions to the promises of the source: the first best action, the bootstrap maximum, and the
    update moving towards its target.

Random choices are parameters:
- the index the opponent draws among the free cells (`pick` of `Step`);
- the agent's exploration coin (`coin`);
- the agent's random pick among the legal actions (`pick` of `ChooseAction`).

## Model

| member | source | states |
|---|---|---|
| Board.Shape | tic_tac_toe_env.py:32-33 | the shape has `dimension` extents, all equal to `size`, and `size`^`dimension` cells |
| Board.IndexToCoors | tic_tac_toe_env.py:37-38 | an action in range gives `dimension` coordinates, each in [0, size) |
| Board.CoorsToIndex | tic_tac_toe_env.py:40-41 | valid coordinates give a flat index below `size`^`dimension` |
| Board.IndexCoorsRoundTrip | tic_tac_toe_env.py:37-41 | `_coors_to_index(_index_to_coors(i)) == i` for every action in range |
| Board.CoorsIndexRoundTrip | tic_tac_toe_env.py:37-41 | `_index_to_coors(_coors_to_index(c)) == c` for all valid coordinates |
| Board.CoorsToIndexInjective | tic_tac_toe_env.py:40-41 | two valid coordinate tuples name the same cell exactly when they are equal |
| Board.ValidInShape | tic_tac_toe_env.py:44-46 | `_are_coors_valid` (every component in [0, size)) is exactly "a multi-index of the grid shape" |
| Board.CellAtIndex | tic_tac_toe_env.py:57-58 | reading the grid at the coordinates of an action reads the flat cell of that action |
| Board.EmptyCells | tic_tac_toe_agent.py:17 | the empty-cell list holds only indices of zero cells, holds every zero cell, and is strictly increasing |
| Board.NoEmptyCells | tic_tac_toe_env.py:48-49 | there is no empty cell exactly when every cell is nonzero |
| WinOracle.ProductAt | tic_tac_toe_env.py:80 | the k-th `itertools.product` tuple has length d and entries in {-1, 0, 1} |
| WinOracle.ProductContents | tic_tac_toe_env.py:80 | the product list holds every length-d vector with entries in {-1, 0, 1}, and none of them twice |
| WinOracle.ProductStep | tic_tac_toe_env.py:80 | tuple 3q+r of the product is tuple q of the shorter product followed by r-1 (the last component varies fastest) |
| WinOracle.ProductIndexOf | tic_tac_toe_env.py:80 | every {-1,0,1} vector occurs in the product list, at `ProductIndex` |
| WinOracle.IndexOfProduct | tic_tac_toe_env.py:80 | the position of tuple k of the product list is k |
| WinOracle.ProductInjective | tic_tac_toe_env.py:80 | the product list has no repeated tuple |
| WinOracle.ProductMiddleIsZero | tic_tac_toe_env.py:81 | the zero vector is tuple (3^d-1)/2, the middle of the product list |
| WinOracle.ProductNeg | tic_tac_toe_env.py:86 | the negation of tuple k is tuple 3^d-1-k |
| WinOracle.NegOfProduct | tic_tac_toe_env.py:86 | the negation of tuple k is a {-1,0,1} vector whose position is 3^d-1-k |
| WinOracle.ProductNegIndex | tic_tac_toe_env.py:86 | negation mirrors a vector's position in the product list |
| WinOracle.RemoveFirst | tic_tac_toe_env.py:81 | `list.remove` makes the list one shorter |
| WinOracle.RemoveFirstAt | tic_tac_toe_env.py:81 | removing the first occurrence at i leaves the elements before and after i |
| WinOracle.ProductWithoutZero | tic_tac_toe_env.py:80-81 | the zero vector is in the product list, and removing it leaves the halves before and after the middle |
| WinOracle.ScanList | tic_tac_toe_env.py:80-81 | the scanned list holds 3^d-1 vectors |
| WinOracle.ScanAt | tic_tac_toe_env.py:84 | the j-th scanned vector is product tuple j before the middle and j+1 after it |
| WinOracle.InKept | tic_tac_toe_env.py:86 | a product tuple is among the kept vectors exactly when its position is inside the kept prefix |
| WinOracle.ScanStep | tic_tac_toe_env.py:86 | the negation of the j-th scanned vector was already kept exactly when j is past the middle |
| WinOracle.KeptStep | tic_tac_toe_env.py:86-87 | before the middle the scanned vector is appended, after it the kept list is unchanged |
| WinOracle.AxesShape | tic_tac_toe_env.py:79-89 | there are (3^d-1)/2 axes, each of length d with entries in {-1,0,1} and nonzero |
| WinOracle.AxesDistinct | tic_tac_toe_env.py:79-89 | no axis occurs twice, and no axis occurs together with its negation |
| WinOracle.InAxes | tic_tac_toe_env.py:79-89 | a {-1,0,1} vector is an axis exactly when it comes before the middle of the product list |
| WinOracle.AxesCanonical | tic_tac_toe_env.py:79-89 | of a nonzero vector and its negation exactly one is an axis: the one first in product order |
| WinOracle.WalkBack | tic_tac_toe_env.py:98-99 | the backward walk from a valid point ends at a valid point |
| WinOracle.WalkBackStep | tic_tac_toe_env.py:98-99 | one backward step keeps the end of the walk and shrinks its measure, so the loop terminates |
| WinOracle.WalkBackDone | tic_tac_toe_env.py:98 | the walk stops where the previous point is outside the grid |
| WinOracle.WalkBackOffset | tic_tac_toe_env.py:98-99 | the walk ends b >= 0 steps back, and the point before that is outside the grid |
| WinOracle.CollectStep | tic_tac_toe_env.py:104-106 | one forward step appends the current cell and shrinks the measure, so the loop terminates |
| WinOracle.CollectAppend | tic_tac_toe_env.py:104-106 | appending the current cell keeps the values collected so far a prefix of the whole collection |
| WinOracle.CollectDone | tic_tac_toe_env.py:104 | nothing is collected from a point outside the grid |
| WinOracle.CollectAt | tic_tac_toe_env.py:104-106 | collected value k is the cell k steps forward, and that point is valid |
| WinOracle.CollectEnd | tic_tac_toe_env.py:104-106 | the point just after the collected values is outside the grid |
| WinOracle.CollectShape | tic_tac_toe_env.py:104-106 | every collected value is the valid cell at its position, and the point after the last is invalid |
| WinOracle.ValidBetween | tic_tac_toe_env.py:44-46 | the grid is a box: a point on a line between two valid points is valid |
| WinOracle.LineLengthBound | tic_tac_toe_env.py:93-109 | n valid points in a row along a nonzero direction means n <= size |
| WinOracle.LineShape | tic_tac_toe_env.py:93-109 | the line has 1 to `size` values; value k is the cell at start + k*direction, which is valid; start - direction and the point after the end are invalid |
| WinOracle.LineLength | tic_tac_toe_env.py:93-109 | the line has between 1 and `size` values |
| WinOracle.LineContainsCell | tic_tac_toe_env.py:98-106 | the line through a cell holds that cell's value, at the position b steps from its start |
| WinOracle.EarliestValid | tic_tac_toe_env.py:98-99 | no valid point of the line lies before the end of the backward walk |
| WinOracle.SameEarliest | tic_tac_toe_env.py:98-99 | two earliest valid points of one line are the same point |
| WinOracle.SameStart | tic_tac_toe_env.py:98-99 | the backward walks from two valid points of one line reach the same point |
| WinOracle.LineSameAlongLine | tic_tac_toe_env.py:98-106 | querying any other valid cell of the same line in the same direction gives the same start and the identical line |
| WinOracle.TrailingRun | tic_tac_toe_env.py:114-121 | the `chain` counter never exceeds the number of items read |
| WinOracle.TrailingRunWindow | tic_tac_toe_env.py:115-119 | the last n items all equal the number exactly when the chain is at least n |
| WinOracle.WinScanHit | tic_tac_toe_env.py:69-73 | a winning axis makes the game won |
| WinOracle.WinScanMiss | tic_tac_toe_env.py:69-73 | after an axis that does not win, no axis up to and including it wins |
| WinOracle.WinScanEnd | tic_tac_toe_env.py:69-75 | when no axis wins, the game is not won |
| WinOracle.NoWinBeyondSize | tic_tac_toe_env.py:61-75 | with `connect_n` > `size` the game can never be won |
| Environment.TicTacToeEnv.constructor | tic_tac_toe_env.py:12-22 | the grid is `size`^`dimension` zeros and the axes are those of `_get_intersecting_axes` |
| Environment.TicTacToeEnv.IsGridFull | tic_tac_toe_env.py:48-49 | the grid is full exactly when no cell is empty, i.e. when the empty-cell list is empty |
| Environment.TicTacToeEnv.IsActionValid | tic_tac_toe_env.py:56-58 | an action is valid exactly when its cell is 0, i.e. when it is in the empty-cell list |
| Environment.TicTacToeEnv.GetIntersectingAxes | tic_tac_toe_env.py:79-89 | the loop returns exactly `Axes(dimension)` |
| Environment.TicTacToeEnv.GetLine | tic_tac_toe_env.py:93-109 | both loops terminate, and the result is `Line` of the grid, with between 1 and `size` values |
| Environment.TicTacToeEnv.HasNSubsequentNumbers | tic_tac_toe_env.py:112-122 | true exactly when the items hold n >= 1 consecutive copies of the number; never for n <= 0 |
| Environment.NoRunExtended | tic_tac_toe_env.py:115-121 | a scan step that leaves the chain below n completes no run of n |
| Environment.TicTacToeEnv.IsGameOver | tic_tac_toe_env.py:61-75 | true exactly when some axis line through the last action holds `connect_n` copies of the symbol there; the grid is not changed |
| Environment.TicTacToeEnv.GetActionFromOpponent | tic_tac_toe_env.py:126-133 | the picked free cell, as an action in range whose cell is empty |
| Environment.TicTacToeEnv.Reset | tic_tac_toe_env.py:146-150 | the grid becomes all zeros and is returned as the observation |
| Environment.MarkPlaced | tic_tac_toe_env.py:180-201 | writing 1 or -1 into a cell keeps every cell in {-1, 0, 1} and the grid size |
| Environment.TicTacToeEnv.Step | tic_tac_toe_env.py:158-218 | the observation returned is the new grid; full grid: reward 0, terminated, grid unchanged; occupied cell: reward -1, not terminated, grid unchanged; otherwise the cell becomes 1, then a win gives reward 1 and terminated, a full grid gives reward 0 and terminated, and otherwise the picked, previously empty cell becomes -1, terminated exactly when that move wins, with reward -1 then and 0 otherwise |
| QLearning.ZeroValues | tic_tac_toe_agent.py:15 | `{action: 0 for action in range(n)}` has exactly the keys [0, n), all valued 0 |
| QLearning.EnsureState | tic_tac_toe_agent.py:14-15 | the key is added, existing entries are unchanged, and a new key maps every action to 0 |
| QLearning.Greedy | tic_tac_toe_agent.py:23-24 | `max` with `key=get` finds a position of highest value, and every earlier position has a strictly lower value |
| QLearning.GreedyIsFirstBest | tic_tac_toe_agent.py:17-24 | the exploit choice is an empty cell of highest value, the lowest-indexed one among ties |
| QLearning.MaxEntry | tic_tac_toe_agent.py:34 | every non-empty value map has an entry that no other entry exceeds |
| QLearning.MaxValue | tic_tac_toe_agent.py:34 | `max(values())` is one of the values and at least every value |
| QLearning.Bootstrap | tic_tac_toe_agent.py:34 | `max_next_q` is 0 when done, and otherwise the maximum over all recorded values of the next state |
| QLearning.TdUpdateMovesTowardTarget | tic_tac_toe_agent.py:36 | with 0 < alpha <= 1 the new value lies between the old value and the target; the distance to the target shrinks by 1 - alpha; a value at the target stays |
| QLearning.Learned | tic_tac_toe_agent.py:31-36 | the next state is initialised, only `q_table[state_key][action]` changes, and it becomes old + alpha*(reward + gamma*max_next_q - old) |
| QLearning.TicTacToeAgent.constructor | tic_tac_toe_agent.py:5-9 | an empty Q-table, with the given alpha, epsilon and gamma |
| QLearning.TicTacToeAgent.ChooseAction | tic_tac_toe_agent.py:11-24 | the state is initialised and no key is removed; the action is an empty cell; exploring returns the picked legal action; exploiting returns the first best one |
| QLearning.TicTacToeAgent.Learn | tic_tac_toe_agent.py:27-36 | the new table is `Learned` of the old one, and no key is removed |

## Left out

- Rendering, window management and frame timing (`render`, `_render_frame`, `close`, `pygame`, `time.sleep`) are not
  modelled: they are user interface and timing.
- The `print` diagnostics in `step` are output only and are not modelled.
- The Gymnasium plumbing is not modelled: the base class, `action_space`, `observation_space`, `metadata`, `_get_info`,
  `super().reset(seed=...)` and the extra `truncated`/`info` results of `step`. The observation `step` returns is the grid
  itself, and so is `Step`'s `observation`. Only the grid shape matters to the game.
- The random generators (`np.random.choice`, `random.uniform`, `random.choice`) are parameters. `Step` takes the index
  the opponent draws, `ChooseAction` takes the coin and the index of the picked legal action. No claim is made about
  their distribution.
- numpy arrays become flat `seq<int>` values in row-major order. The int8 cells are unbounded integers, which is
  enough because they only ever hold -1, 0 or 1. The axes are `seq<seq<int>>` rather than a 2-D array.
- Learning rate, discount, rewards and Q-values are `real`; floating-point rounding is not modelled.
- main.py, the episode driver, is not part of this model. In it the observation returned by `step` is the grid
  itself, so `observation` and `next_observation` alias. `Learn` takes both as separate values.
- The default constructor arguments (`size=3, dimension=2, connect_n=3` and `alpha=0.1, epsilon=0.1, gamma=0.9`) are
  not modelled: both constructors take every value explicitly.
- Validation of `size`, `dimension` and `connect_n` is not modelled. The program has no validation of its own:
  - the constructor's `Discrete(size**dimension)` rejects a count that is not a positive integer. That covers
    `size == 0` with `dimension >= 1`, a negative `dimension`, and a negative `size` with an odd `dimension`;
  - a negative `size` with an even positive `dimension` fails when the observation space or the grid array is built;
  - with `dimension == 0` every `size` gives a one-cell grid with no axes. A negative `size` then runs in the program,
    and the model's `size: nat` excludes it. Nothing is lost, because such a grid never reads `size`;
  - the model accepts `size == 0`: an empty grid, on which `Step` is always a draw, for `dimension >= 1`, and one cell
    for `dimension == 0` (`Pow(0, 0) == 1`, as `0**0 == 1`);
  - `connect_n <= 0` never wins, because the chain is compared only after an increment.
- Environment.TicTacToeEnv.GetLine requires a nonzero direction, and so do `WalkBack` and `Collect`. On the zero
  direction the source's first loop never terminates. Every caller passes an axis, and axes are nonzero by `AxesShape`.
- Environment.TicTacToeEnv.Step: an action outside the grid on a non-full grid is excluded by its precondition,
  because numpy's `unravel_index` raises on it.
- Environment.TicTacToeEnv.Step: the opponent's pick is required to be in range only when the opponent moves (the
  target cell was empty, the agent's move did not win and a free cell remains), because `np.random.choice` is only
  called then.
- Environment.TicTacToeEnv.Step: the action is a `nat`, so negative actions are not modelled. On a full grid the source
  returns a draw for any action, negative ones included. Negative actions lie outside the action space
  `Discrete(size**dimension)`, and the agent never produces one.
- QLearning.TicTacToeAgent.ChooseAction: it requires at least one empty cell. Otherwise `random.choice` and `max`
  raise on the empty list.
- QLearning.TicTacToeAgent.Learn: it requires the state key and the action to be present once the next state is
  initialised, and a non-empty next state when not done. These are where the source raises `KeyError` or `ValueError`.
- WinOracle.WinsAlong guards its own preconditions (matching lengths, a valid cell, a nonzero direction) instead of
  requiring them. Every axis satisfies the guard, by `AxesShape`.
- Environment.TicTacToeEnv.GetLine requires only that the grid has `size`^`dimension` cells, not the whole class
  invariant. This precondition is weaker, not stronger.
- Environment.TicTacToeEnv.IsActionValid and GetActionFromOpponent likewise require only the grid size.
- Environment.TicTacToeEnv.IsGameOver requires only the grid size and the cached axes, not the range of the cells.
