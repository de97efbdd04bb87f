/** The game hook's engine as an object: its state fields are updated in place and
    the board is a height x width array of 0/1 occupancy flags. Every action is one
    atomic method, proved to perform the matching step of module TetrisRules. */
module TetrisGame {
  import opened TetrisShapes
  import opened TetrisBoard
  import opened TetrisRules

  class TetrisEngine {
    /** The skill list the hook was created with. */
    const skills: seq<Skill>

    var isPlaying: bool
    var currentBlock: Option<Block>
    var nextBlock: Option<Block>
    var placedBlocks: map<string, Block>
    var availableSkills: seq<Skill>
    var usedSkills: seq<Skill>
    var boardWidth: int
    var boardHeight: int
    var board: array2<int>

    /** The board read as rows of a grid, kept equal to the array by Valid(). */
    ghost var grid: Grid
    /** Every piece placed since the last start or reset, in order. */
    ghost var history: seq<Block>
    /** The board has not been cleared by a resize since the last start or reset. */
    ghost var synced: bool

    ghost function State(): Engine
      reads this
    {
      Engine(isPlaying, currentBlock, nextBlock, placedBlocks, availableSkills, usedSkills,
             boardWidth, boardHeight, grid, history, synced)
    }

    ghost predicate Valid()
      reads this, board
    {
      && board.Length0 == boardHeight && board.Length1 == boardWidth && Inv(State())
      && forall r, c :: 0 <= r < boardHeight && 0 <= c < boardWidth ==> board[r, c] == grid[r][c]
    }

    constructor (skills: seq<Skill>)
      ensures Valid() && fresh(board)
      ensures this.skills == skills && State() == Initial(skills)
    {
      var cells := new int[18, 30]((r, c) => 0);
      this.skills := skills;
      isPlaying := false;
      currentBlock := None;
      nextBlock := None;
      placedBlocks := map[];
      availableSkills := skills;
      usedSkills := [];
      boardWidth := 30;
      boardHeight := 18;
      board := cells;
      grid := EmptyGrid(30, 18);
      history := [];
      synced := true;
    }

    /** The collision test, cell by cell, rejecting at the first occupied shape cell
        that is off the board or on an occupied board cell. */
    method CanPlaceBlock(b: Block) returns (ok: bool)
      requires Valid()
      ensures ok == FitsOn(grid, boardWidth, boardHeight, b)
    {
      var j := 0;
      while j < |b.shape|
        invariant 0 <= j <= |b.shape|
        invariant forall jj, i :: 0 <= jj < j && 0 <= i < |b.shape[jj]| ==>
          CellFree(grid, boardWidth, boardHeight, b, jj, i)
      {
        var i := 0;
        while i < |b.shape[j]|
          invariant 0 <= i <= |b.shape[j]|
          invariant forall ii :: 0 <= ii < i ==> CellFree(grid, boardWidth, boardHeight, b, j, ii)
        {
          if b.shape[j][i] != 0 {
            var boardX, boardY := b.x + i, b.y + j;
            if boardX < 0 || boardX >= boardWidth || boardY < 0 || boardY >= boardHeight {
              assert !CellFree(grid, boardWidth, boardHeight, b, j, i);
              return false;
            }
            if board[boardY, boardX] != 0 {
              assert !CellFree(grid, boardWidth, boardHeight, b, j, i);
              return false;
            }
          }
          i := i + 1;
        }
        j := j + 1;
      }
      return true;
    }

    /** Writes 1 into every board cell under an occupied cell of `b`, row by row. */
    method StampBoard(b: Block)
      requires Valid() && FitsOn(grid, boardWidth, boardHeight, b)
      modifies board
      ensures forall r, c :: 0 <= r < boardHeight && 0 <= c < boardWidth ==>
        board[r, c] == if Covers(b, r, c) then 1 else grid[r][c]
    {
      for j := 0 to |b.shape|
        invariant forall r, c :: 0 <= r < boardHeight && 0 <= c < boardWidth ==>
          board[r, c] == if Covers(b, r, c) && r - b.y < j then 1 else grid[r][c]
      {
        for i := 0 to |b.shape[j]|
          invariant forall r, c :: 0 <= r < boardHeight && 0 <= c < boardWidth ==>
            board[r, c] == if Covers(b, r, c) && (r - b.y < j || (r - b.y == j && c - b.x < i)) then 1 else grid[r][c]
        {
          if b.shape[j][i] != 0 {
            assert CellFree(grid, boardWidth, boardHeight, b, j, i);
            board[b.y + j, b.x + i] := 1;
          }
        }
      }
    }

    /** Places `b`: refused unless it fits; otherwise writes 1 into the covered cells of
        the board in place, records the piece and appends its skill to the used skills. */
    method PlaceBlock(b: Block) returns (ok: bool)
      requires Valid()
      modifies this, board
      ensures Valid() && board == old(board)
      ensures (State(), ok) == PlaceStep(old(State()), b)
    {
      ok := CanPlaceBlock(b);
      if !ok {
        return;
      }
      StampBoard(b);
      grid := Stamp(grid, boardWidth, boardHeight, b);
      placedBlocks := placedBlocks[b.id := b];
      usedSkills := usedSkills + [b.skill];
      history := history + [b];
    }

    /** Promotes the next piece to current and draws a new next piece from the pool. */
    method CreateNextBlock(k1: nat, k2: nat, now: nat)
      requires Valid() && k1 < |Catalog| && k2 < |Catalog|
      modifies this
      ensures State() == PromoteStep(old(State()), k1, k2, now)
      ensures Valid() && board == old(board)
    {
      match nextBlock
      case Some(nb) =>
        var remaining := WithoutSkill(availableSkills, nb.skill.id);
        if remaining != [] {
          currentBlock, nextBlock, availableSkills :=
            Some(nb.(y := 0)), Some(NewBlock(remaining[0], k1, now, boardWidth)), remaining;
        } else if usedSkills != [] {
          currentBlock, nextBlock, availableSkills, usedSkills :=
            Some(nb.(y := 0)), Some(NewBlock(usedSkills[0], k1, now, boardWidth)), usedSkills, [];
        } else {
          currentBlock, nextBlock, availableSkills := Some(nb.(y := 0)), None, [];
        }
      case None =>
        if availableSkills != [] {
          var first := availableSkills[0];
          currentBlock := Some(NewBlock(first, k1, now, boardWidth));
          if |availableSkills| > 1 {
            nextBlock := Some(NewBlock(availableSkills[1], k2, now, boardWidth));
          }
          availableSkills := WithoutSkill(availableSkills, first.id);
        }
    }

    /** Places `b` and, when it was placed, clears the piece in flight and promotes the
        next piece; the sequence that ends a piece's fall. */
    method SettleBlock(b: Block, k1: nat, k2: nat, now: nat) returns (placed: bool)
      requires Valid() && k1 < |Catalog| && k2 < |Catalog|
      modifies this, board
      ensures placed == Fits(old(State()), b)
      ensures placed ==> State() == SettleStep(old(State()), b, k1, k2, now)
      ensures !placed ==> State() == old(State())
      ensures Valid() && board == old(board)
    {
      placed := PlaceBlock(b);
      if placed {
        currentBlock := None;
        CreateNextBlock(k1, k2, now);
      }
    }

    /** Moves the piece in flight one cell left, right or down, placing it when a down
        move is blocked. */
    method MoveBlock(dir: Direction, k1: nat, k2: nat, now: nat)
      requires Valid() && k1 < |Catalog| && k2 < |Catalog|
      modifies this, board
      ensures State() == MoveStep(old(State()), dir, k1, k2, now)
      ensures Valid() && board == old(board)
    {
      if currentBlock.None? || !isPlaying {
        return;
      }
      var b := currentBlock.value;
      var m := MoveTarget(b, dir, boardWidth, boardHeight);
      var fits := CanPlaceBlock(m);
      if fits {
        currentBlock := Some(m);
      } else if dir == Down {
        var placed := SettleBlock(b, k1, k2, now);
      }
    }

    /** Turns the piece in flight a quarter clockwise when the turned piece fits. */
    method RotateBlock()
      requires Valid()
      modifies this
      ensures State() == RotateStep(old(State()))
      ensures Valid() && board == old(board)
    {
      if currentBlock.None? || !isPlaying {
        return;
      }
      var b := currentBlock.value;
      RotateKeepsCount(b.shape);
      var turned := b.(shape := Rotate(b.shape));
      var fits := CanPlaceBlock(turned);
      if fits {
        currentBlock := Some(turned);
      }
    }

    /** Where a hard drop of `b` comes to rest: lowered one row at a time while the
        row below still fits. */
    method DropPosition(b: Block) returns (d: Block)
      requires Valid() && Occupied(b.shape)
      ensures d == Landing(grid, boardWidth, boardHeight, b)
    {
      d := b;
      var below := CanPlaceBlock(d.(y := d.y + 1));
      while below
        invariant d == b.(y := d.y)
        invariant Landing(grid, boardWidth, boardHeight, d) == Landing(grid, boardWidth, boardHeight, b)
        invariant below == FitsOn(grid, boardWidth, boardHeight, d.(y := d.y + 1))
        decreases boardHeight - d.y
      {
        FitsIsAboveFloor(grid, boardWidth, boardHeight, d.(y := d.y + 1));
        d := d.(y := d.y + 1);
        below := CanPlaceBlock(d.(y := d.y + 1));
      }
    }

    /** Drops the piece in flight to its resting row and places it there. */
    method HardDrop(k1: nat, k2: nat, now: nat)
      requires Valid() && k1 < |Catalog| && k2 < |Catalog|
      modifies this, board
      ensures State() == HardDropStep(old(State()), k1, k2, now)
      ensures Valid() && board == old(board)
    {
      if !isPlaying || currentBlock.None? {
        return;
      }
      var d := DropPosition(currentBlock.value);
      var placed := SettleBlock(d, k1, k2, now);
    }

    /** One tick of the gravity timer. */
    method GravityTick(k1: nat, k2: nat, now: nat)
      requires Valid() && k1 < |Catalog| && k2 < |Catalog|
      modifies this, board
      ensures State() == GravityStep(old(State()), k1, k2, now)
      ensures Valid() && board == old(board)
    {
      if !isPlaying || currentBlock.None? {
        return;
      }
      var b := currentBlock.value;
      var below := b.(y := b.y + 1);
      var fits := CanPlaceBlock(below);
      if fits {
        currentBlock := Some(below);
        return;
      }
      var placed := SettleBlock(b, k1, k2, now);
      if !placed {
        currentBlock := None;
      }
    }

    /** Starts a game on a fresh empty board of the current size. */
    method StartGame(k1: nat, k2: nat, now: nat)
      requires Valid() && |skills| >= 2 && k1 < |Catalog| && k2 < |Catalog|
      modifies this
      ensures State() == StartStep(old(State()), skills, k1, k2, now)
      ensures Valid() && fresh(board)
    {
      var cells := new int[boardHeight, boardWidth]((r, c) => 0);
      isPlaying := true;
      placedBlocks := map[];
      board := cells;
      availableSkills := skills;
      currentBlock := Some(NewBlock(skills[0], k1, now, boardWidth));
      nextBlock := Some(NewBlock(skills[1], k2, now, boardWidth));
      grid := EmptyGrid(boardWidth, boardHeight);
      history := [];
      synced := true;
    }

    /** Stops the game and clears the board, the pieces and the pool. */
    method ResetGame()
      requires Valid()
      modifies this
      ensures State() == ResetStep(old(State()), skills)
      ensures Valid() && fresh(board)
    {
      var cells := new int[boardHeight, boardWidth]((r, c) => 0);
      isPlaying := false;
      placedBlocks := map[];
      board := cells;
      availableSkills := skills;
      usedSkills := [];
      currentBlock := None;
      nextBlock := None;
      grid := EmptyGrid(boardWidth, boardHeight);
      history := [];
      synced := true;
    }

    /** Adopts the board size derived from a `width` x `height` pixel drawing area,
        clearing the board only when the size changes. */
    method UpdateBoardDimensions(width: int, height: int)
      requires Valid()
      modifies this
      ensures State() == ResizeStep(old(State()), width, height)
      ensures Valid()
      ensures old((boardWidth, boardHeight)) == BoardDimensions(width, height) ==> unchanged(this) && unchanged(board)
      ensures old((boardWidth, boardHeight)) != BoardDimensions(width, height) ==> fresh(board)
    {
      var (newWidth, newHeight) := BoardDimensions(width, height);
      if newWidth != boardWidth || newHeight != boardHeight {
        var cells := new int[newHeight, newWidth]((r, c) => 0);
        boardWidth, boardHeight, board := newWidth, newHeight, cells;
        grid, synced := EmptyGrid(newWidth, newHeight), false;
      }
    }
  }
}
