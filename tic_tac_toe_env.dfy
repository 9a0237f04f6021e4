/** The N-dimensional tic-tac-toe environment: a flat row-major grid of
    `size`^`dimension` cells holding 0 (empty), 1 (agent) or -1 (opponent),
    the loops of the win oracle, and the game step against an opponent whose
    random choice is passed in. */
module Environment {
  import opened Board
  import opened WinOracle

  class TicTacToeEnv {
    const size: nat
    const dimension: nat
    const connectN: int
    /** `_intersecting_axes`, computed once at construction. */
    const axes: seq<seq<int>>
    var grid: seq<int>

    ghost predicate Valid()
      reads this
    {
      && |grid| == Pow(size, dimension)
      && axes == Axes(dimension)
      && Marks(grid)
    }

    constructor (size: nat, dimension: nat, connectN: int)
      ensures Valid()
      ensures this.size == size && this.dimension == dimension && this.connectN == connectN
      ensures grid == seq(Pow(size, dimension), _ => 0)
    {
      this.size := size;
      this.dimension := dimension;
      this.connectN := connectN;
      grid := seq(Pow(size, dimension), _ => 0);
      var a := GetIntersectingAxes(dimension);
      axes := a;
    }

    /** `_is_grid_full`: no cell is empty, so no action is valid. */
    function IsGridFull(): (full: bool)
      reads this
      ensures full <==> EmptyCells(grid) == []
      ensures full <==> forall a :: 0 <= a < |grid| ==> grid[a] != 0
    {
      NoEmptyCells(grid);
      forall i :: 0 <= i < |grid| ==> grid[i] != 0
    }

    /** `_is_action_valid`: the cell at the action's coordinates is empty. */
    function IsActionValid(action: nat): (ok: bool)
      reads this
      requires |grid| == Pow(size, dimension) && action < |grid|
      ensures ok <==> grid[action] == 0
      ensures ok <==> action in EmptyCells(grid)
    {
      var coors := IndexToCoors(size, dimension, action);
      CellAtIndex(grid, size, dimension, action);
      Cell(grid, size, coors) == 0
    }

    /** `_get_intersecting_axes`: walk the product list without the zero
        vector and keep every vector whose negation was not kept before. */
    static method GetIntersectingAxes(dimension: nat) returns (axes: seq<seq<int>>)
      ensures axes == Axes(dimension)
    {
      var vectors := ScanList(dimension);
      axes := [];
      var j := 0;
      while j < |vectors|
        invariant 0 <= j <= |vectors|
        invariant axes == Kept(dimension, j)
      {
        var v := vectors[j];
        ScanAt(dimension, j);
        ScanStep(dimension, j, v);
        KeptStep(dimension, j, v);
        if Neg(v) !in axes {
          axes := axes + [v];
        }
        j := j + 1;
      }
    }

    /** `_get_line`: walk back to the edge of the grid, then collect the
        values forward until the line leaves the grid. */
    method GetLine(coors: seq<int>, direction: seq<int>) returns (items: seq<int>)
      requires |grid| == Pow(size, dimension)
      requires |coors| == dimension && ValidCoors(size, coors)
      requires |direction| == dimension && IsNonzero(direction)
      ensures items == Line(grid, size, coors, direction)
      ensures 1 <= |items| <= size
    {
      var c := coors;
      while ValidCoors(size, At(c, direction, -1))
        invariant |c| == dimension && ValidCoors(size, c)
        invariant WalkBack(size, c, direction) == WalkBack(size, coors, direction)
        decreases BackMeasure(size, c, direction)
      {
        WalkBackStep(size, c, direction);
        c := At(c, direction, -1);
      }
      WalkBackDone(size, c, direction);
      ghost var whole := Collect(grid, size, c, direction);
      items := [];
      while ValidCoors(size, c)
        invariant |c| == dimension
        invariant items + Collect(grid, size, c, direction) == whole
        decreases ForwardMeasure(size, c, direction)
      {
        CollectAppend(grid, size, c, direction, items, whole);
        items := items + [Cell(grid, size, c)];
        c := At(c, direction, 1);
      }
      CollectDone(grid, size, c, direction);
      LineLength(grid, size, coors, direction);
    }

    /** `_has_n_subsequent_numbers`: count the current run of `number` and
        stop as soon as it reaches n. */
    static method HasNSubsequentNumbers(n: int, number: int, items: seq<int>) returns (found: bool)
      ensures found == HasRun(items, number, n)
    {
      var chain := 0;
      for j := 0 to |items|
        invariant chain == TrailingRun(items[..j], number)
        invariant !HasRun(items[..j], number, n)
        invariant n >= 1 ==> chain < n
      {
        assert items[..j + 1][..j] == items[..j];
        if items[j] == number {
          chain := chain + 1;
          if chain == n {
            TrailingRunWindow(items[..j + 1], number, n);
            assert RunAt(items, number, j + 1 - n, n);
            return true;
          }
        } else {
          chain := 0;
        }
        NoRunExtended(items[..j + 1], number, n, chain);
      }
      assert items[..|items|] == items;
      return false;
    }

    /** `_is_game_over`: look along every axis through the last move for
        `connect_n` copies of the symbol placed there. */
    method IsGameOver(lastAction: nat) returns (over: bool)
      requires |grid| == Pow(size, dimension) && axes == Axes(dimension) && lastAction < |grid|
      ensures over == WinsAt(grid, size, dimension, connectN, lastAction)
    {
      var coors := IndexToCoors(size, dimension, lastAction);
      var symbol := Cell(grid, size, coors);
      AxesShape(dimension);
      for j := 0 to |axes|
        invariant NoWinBefore(grid, size, coors, connectN, j)
      {
        var items := GetLine(coors, axes[j]);
        var found := HasNSubsequentNumbers(connectN, symbol, items);
        if found {
          WinScanHit(grid, size, dimension, connectN, lastAction, j);
          return true;
        }
        WinScanMiss(grid, size, coors, connectN, j);
      }
      WinScanEnd(grid, size, dimension, connectN, lastAction);
      return false;
    }

    /** `_get_action_from_opponent`, with the random index into the list of
        free cells given as `pick`: the picked free cell, as an action. */
    function GetActionFromOpponent(pick: nat): (action: nat)
      reads this
      requires |grid| == Pow(size, dimension) && pick < |EmptyCells(grid)|
      ensures action == EmptyCells(grid)[pick]
      ensures action < |grid| && grid[action] == 0
    {
      var cell := EmptyCells(grid)[pick];
      var coors := IndexToCoors(size, dimension, cell);
      IndexCoorsRoundTrip(size, dimension, cell);
      CoorsToIndex(size, dimension, coors)
    }

    /** `reset` (grid part): empty the grid and return it as the observation. */
    method Reset() returns (observation: seq<int>)
      requires Valid()
      modifies this
      ensures Valid()
      ensures grid == seq(Pow(size, dimension), _ => 0) && observation == grid
    {
      grid := seq(Pow(size, dimension), _ => 0);
      observation := grid;
    }

    /** `pick` is a usable random index into the free cells left after the
        agent plays `action`, whenever the opponent gets to move: the cell
        was empty, the agent's move did not win and a free cell remains. */
    predicate OpponentPickInRange(action: nat, pick: nat)
      reads this
    {
      |grid| == Pow(size, dimension) && action < |grid| && grid[action] == 0 ==>
        var after := grid[action := 1];
        !WinsAt(after, size, dimension, connectN, action) && EmptyCells(after) != [] ==>
          pick < |EmptyCells(after)|
    }

    /** `step` (game logic): draw on a full grid, penalty for an occupied
        cell, otherwise the agent's move, then a win, a draw, or the
        opponent's move and its possible win. */
    method Step(action: nat, pick: nat) returns (observation: seq<int>, reward: int, terminated: bool)
      requires Valid()
      requires IsGridFull() || action < |grid|
      requires OpponentPickInRange(action, pick)
      modifies this
      ensures Valid() && observation == grid
      ensures old(IsGridFull()) ==> reward == 0 && terminated && grid == old(grid)
      ensures !old(IsGridFull()) && old(grid)[action] != 0 ==>
        reward == -1 && !terminated && grid == old(grid)
      ensures !old(IsGridFull()) && old(grid)[action] == 0 ==>
        var afterAgent := old(grid)[action := 1];
        if WinsAt(afterAgent, size, dimension, connectN, action) then
          reward == 1 && terminated && grid == afterAgent
        else if EmptyCells(afterAgent) == [] then
          reward == 0 && terminated && grid == afterAgent
        else
          var o := EmptyCells(afterAgent)[pick];
          && o != action && old(grid)[o] == 0
          && grid == afterAgent[o := -1]
          && terminated == WinsAt(grid, size, dimension, connectN, o)
          && reward == (if terminated then -1 else 0)
    {
      reward := 0;
      terminated := false;
      if IsGridFull() {
        terminated := true;
        reward := 0;
        return grid, reward, terminated;
      }
      if !IsActionValid(action) {
        reward := -1;
        return grid, reward, terminated;
      }
      MarkPlaced(grid, action, 1);
      grid := grid[action := 1];
      var won := IsGameOver(action);
      if won {
        terminated := true;
        reward := 1;
      } else {
        if IsGridFull() {
          terminated := true;
          reward := 0;
          return grid, reward, terminated;
        }
        var opponentsAction := GetActionFromOpponent(pick);
        MarkPlaced(grid, opponentsAction, -1);
        grid := grid[opponentsAction := -1];
        var lost := IsGameOver(opponentsAction);
        if lost {
          terminated := true;
          reward := -1;
        }
      }
      observation := grid;
    }
  }

  /** Every cell holds 0 (empty), 1 (agent) or -1 (opponent). */
  predicate Marks(grid: seq<int>)
  {
    forall i :: 0 <= i < |grid| ==> -1 <= grid[i] <= 1
  }

  lemma MarkPlaced(grid: seq<int>, a: nat, v: int)
    requires Marks(grid) && a < |grid| && -1 <= v <= 1
    ensures Marks(grid[a := v]) && |grid[a := v]| == |grid|
  {
  }

  /** After a scan step that left the chain below n, no run of n is present. */
  lemma NoRunExtended(s: seq<int>, x: int, n: int, chain: nat)
    requires |s| >= 1 && !HasRun(s[..|s| - 1], x, n)
    requires chain == TrailingRun(s, x) && (n >= 1 ==> chain < n)
    ensures !HasRun(s, x, n)
  {
    var p := s[..|s| - 1];
    forall i | 0 <= i && i + n <= |p| ensures RunAt(s, x, i, n) == RunAt(p, x, i, n) {
    }
    if 1 <= n <= |s| {
      TrailingRunWindow(s, x, n);
    }
  }
}
