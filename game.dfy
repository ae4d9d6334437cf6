/**
 * ui/game.go: the terminal mini-game. A 4x4 grid of byte values; the player
 * moves a cursor and picks cells, building a sequence that has to equal one
 * of the target sequences. After the first pick, moves alternate between
 * the column (vertical) and the row (horizontal) of the last pick. Moving
 * skips blank cells, the ones already picked. The random grid and targets
 * of initialModel are parameters of the constructor.
 */
module Game {
  /** A picked cell. */
  const Blank: string := "  "

  /** The values a cell of a new grid holds. */
  const PossibleValues: seq<string> := ["BD", "1C", "E9", "55", "7A"]

  /** Rows and columns of the grid. */
  const Size: nat := 4

  const SuccessMessage: string := "Success! You have put together one of the combinations."
  const LossMessage: string := "A loss! The combination does not match any of the targets."

  /** The keys Update reacts to; any other message or key leaves the model alone. */
  datatype Key = CtrlC | Up | Down | Left | Right | Enter | OtherKey

  /** The command Update hands back: none, quit, or clear the screen and quit. */
  datatype Command = NoCommand | Quit | ClearScreenThenQuit

  /** Every row has the length of the first: grid[y][x] is defined for y < |grid| and x < |grid[0]|. */
  predicate Rectangular(grid: seq<seq<string>>)
  {
    |grid| > 0 && forall y | 0 <= y < |grid| :: |grid[y]| == |grid[0]|
  }

  /** Column x of a rectangular grid, top to bottom. */
  function Column(grid: seq<seq<string>>, x: nat): (col: seq<string>)
    requires Rectangular(grid) && x < |grid[0]|
    ensures |col| == |grid| && forall y | 0 <= y < |grid| :: col[y] == grid[y][x]
  {
    seq(|grid|, y requires 0 <= y < |grid| => grid[y][x])
  }

  /**
   * Where a move towards index 0 stops once it has taken its first step to
   * `i`: it keeps stepping while it is on a blank cell and not at the edge.
   */
  function SkipBack(line: seq<string>, i: nat): (j: nat)
    requires i < |line|
    ensures j <= i
  {
    if i > 0 && line[i] == Blank then SkipBack(line, i - 1) else i
  }

  /** The same towards the last index. */
  function SkipForward(line: seq<string>, i: nat): (j: nat)
    requires i < |line|
    ensures i <= j < |line|
    decreases |line| - i
  {
    if i < |line| - 1 && line[i] == Blank then SkipForward(line, i + 1) else i
  }

  /**
   * A move towards index 0 that started at i + 1 lands on the nearest
   * non-blank cell at or below i, or on index 0 when there is none; it
   * passes only blank cells.
   */
  lemma {:induction false} SkipBackNearest(line: seq<string>, i: nat)
    requires i < |line|
    ensures SkipBack(line, i) == 0 || line[SkipBack(line, i)] != Blank
    ensures forall k | SkipBack(line, i) < k <= i :: line[k] == Blank
    decreases i
  {
    if i > 0 && line[i] == Blank {
      SkipBackNearest(line, i - 1);
    }
  }

  /** The mirror image of SkipBackNearest, towards the last index. */
  lemma {:induction false} SkipForwardNearest(line: seq<string>, i: nat)
    requires i < |line|
    ensures SkipForward(line, i) == |line| - 1 || line[SkipForward(line, i)] != Blank
    ensures forall k | i <= k < SkipForward(line, i) :: line[k] == Blank
    decreases |line| - i
  {
    if i < |line| - 1 && line[i] == Blank {
      SkipForwardNearest(line, i + 1);
    }
  }

  /** The number of cells of a row that are not blank. */
  function RowCount(row: seq<string>): (n: nat)
    ensures n <= |row|
  {
    if row == [] then 0 else (if row[0] == Blank then 0 else 1) + RowCount(row[1..])
  }

  /** The number of cells of a grid that are not blank. */
  function NonBlank(grid: seq<seq<string>>): nat
  {
    if grid == [] then 0 else RowCount(grid[0]) + NonBlank(grid[1..])
  }

  /** Blanking one cell that was not blank takes one off the row's count. */
  lemma {:induction false} RowCountBlank(row: seq<string>, x: nat)
    requires x < |row| && row[x] != Blank
    ensures RowCount(row[x := Blank]) + 1 == RowCount(row)
    decreases x
  {
    if x > 0 {
      assert row[x := Blank][1..] == row[1..][x - 1 := Blank];
      RowCountBlank(row[1..], x - 1);
    } else {
      assert row[x := Blank][1..] == row[1..];
    }
  }

  /** Blanking one cell that was not blank takes one off the grid's count. */
  lemma {:induction false} NonBlankBlank(grid: seq<seq<string>>, y: nat, x: nat)
    requires y < |grid| && x < |grid[y]| && grid[y][x] != Blank
    ensures NonBlank(grid[y := grid[y][x := Blank]]) + 1 == NonBlank(grid)
    decreases y
  {
    var g := grid[y := grid[y][x := Blank]];
    if y > 0 {
      assert g[1..] == grid[1..][y - 1 := grid[1..][y - 1][x := Blank]];
      NonBlankBlank(grid[1..], y - 1, x);
    } else {
      assert g[1..] == grid[1..];
      RowCountBlank(grid[0], x);
    }
  }

  /** A grid without a blank cell counts every cell: |grid| rows of `width` cells. */
  lemma {:induction false} NonBlankFull(grid: seq<seq<string>>, width: nat)
    requires forall y | 0 <= y < |grid| :: |grid[y]| == width && Blank !in grid[y]
    ensures NonBlank(grid) == |grid| * width
    decreases |grid|
  {
    if grid != [] {
      RowCountFull(grid[0]);
      NonBlankFull(grid[1..], width);
    }
  }

  /** A row without a blank cell counts every cell. */
  lemma {:induction false} RowCountFull(row: seq<string>)
    requires Blank !in row
    ensures RowCount(row) == |row|
    decreases |row|
  {
    if row != [] {
      assert row[0] in row;
      RowCountFull(row[1..]);
    }
  }

  /** `s` equals target j. */
  predicate Matches(s: seq<string>, targets: seq<seq<string>>)
  {
    exists j | 0 <= j < |targets| :: targets[j] == s
  }

  /** `s` is a proper prefix of target j: the game can still reach that target. */
  predicate Continues(s: seq<string>, targets: seq<seq<string>>)
  {
    exists j | 0 <= j < |targets| :: |s| < |targets[j]| && targets[j][..|s|] == s
  }

  /** What checkSequences decides about a sequence. */
  datatype Verdict = Matched | StillOpen | Lost

  /** A match wins; otherwise a sequence that can still grow into a target goes on; anything else loses. */
  function Judge(s: seq<string>, targets: seq<seq<string>>): (v: Verdict)
    ensures v == Matched <==> Matches(s, targets)
    ensures v == StillOpen <==> !Matches(s, targets) && Continues(s, targets)
    ensures v == Lost <==> !Matches(s, targets) && !Continues(s, targets)
  {
    if Matches(s, targets) then Matched else if Continues(s, targets) then StillOpen else Lost
  }

  /** A lost sequence stays lost whatever is picked next: no target starts with it. */
  lemma LostStaysLost(s: seq<string>, targets: seq<seq<string>>, v: string)
    requires Judge(s, targets) == Lost
    ensures Judge(s + [v], targets) == Lost
  {
    var s' := s + [v];
    forall j | 0 <= j < |targets|
      ensures targets[j] != s' && !(|s'| < |targets[j]| && targets[j][..|s'|] == s')
    {
      if |s'| <= |targets[j]| {
        assert targets[j][..|s'|][..|s|] == targets[j][..|s|];
        assert s'[..|s|] == s;
      }
    }
  }

  /** A sequence that is still open can be completed into a match by picking the rest of some target. */
  lemma StillOpenCanWin(s: seq<string>, targets: seq<seq<string>>)
    requires Judge(s, targets) == StillOpen
    ensures exists j | 0 <= j < |targets| ::
              |s| < |targets[j]| && Judge(s + targets[j][|s|..], targets) == Matched
  {
    var j :| 0 <= j < |targets| && |s| < |targets[j]| && targets[j][..|s|] == s;
    assert s + targets[j][|s|..] == targets[j];
  }

  /** The game's state: the bubbletea model of ui/game.go. */
  class Model {
    var cursorX: int
    var cursorY: int
    var sequence: seq<string>
    var message: string
    var grid: seq<seq<string>>
    var isVertical: bool
    var firstPick: bool
    var targetSequences: seq<seq<string>>
    var success: bool

    /**
     * The grid is Size x Size, the cursor is on it, and every value picked
     * so far left one blank cell behind.
     */
    ghost predicate Valid()
      reads this
    {
      |grid| == Size && Rectangular(grid) && |grid[0]| == Size &&
      0 <= cursorX < Size && 0 <= cursorY < Size &&
      |sequence| + NonBlank(grid) == Size * Size
    }

    /** Nothing but the cursor changed. */
    twostate predicate OnlyCursorMoved()
      reads this
    {
      sequence == old(sequence) && message == old(message) && grid == old(grid) &&
      isVertical == old(isVertical) && firstPick == old(firstPick) &&
      targetSequences == old(targetSequences) && success == old(success)
    }

    /**
     * initialModel, with the random grid and targets as parameters: every
     * cell holds one of PossibleValues, and target k has between 1 and k + 2
     * values (randomSequence(k + 3)).
     */
    constructor (grid0: seq<seq<string>>, targets: seq<seq<string>>)
      requires |grid0| == Size && forall y | 0 <= y < Size :: |grid0[y]| == Size
      requires forall y, x | 0 <= y < Size && 0 <= x < Size :: grid0[y][x] in PossibleValues
      requires |targets| == 3
      requires forall k | 0 <= k < 3 :: 1 <= |targets[k]| <= k + 2
      requires forall k, i | 0 <= k < 3 && 0 <= i < |targets[k]| :: targets[k][i] in PossibleValues
      ensures Valid()
      ensures cursorX == 0 && cursorY == 0 && sequence == [] && message == "" && grid == grid0
      ensures isVertical && firstPick && targetSequences == targets && !success
    {
      cursorX, cursorY := 0, 0;
      sequence, message := [], "";
      grid := grid0;
      isVertical, firstPick := true, true;
      targetSequences := targets;
      success := false;
      forall y | 0 <= y < Size
        ensures Blank !in grid0[y]
      {
        forall x | 0 <= x < Size
          ensures grid0[y][x] != Blank
        {
          assert grid0[y][x] in PossibleValues;
        }
      }
      NonBlankFull(grid0, Size);
    }

    /**
     * checkSequences: a sequence equal to a target wins (success and its
     * message, result true); otherwise a proper prefix of a target lets the
     * game go on (result false, nothing changes); otherwise the game is lost
     * (no success, the loss message, result true).
     */
    method CheckSequences() returns (done: bool)
      modifies this
      ensures done <==> Judge(sequence, targetSequences) != StillOpen
      ensures Judge(sequence, targetSequences) == Matched ==> success && message == SuccessMessage
      ensures Judge(sequence, targetSequences) == Lost ==> !success && message == LossMessage
      ensures !done ==> success == old(success) && message == old(message)
      ensures cursorX == old(cursorX) && cursorY == old(cursorY) && sequence == old(sequence)
      ensures grid == old(grid) && isVertical == old(isVertical) && firstPick == old(firstPick)
      ensures targetSequences == old(targetSequences)
    {
      var k := 0;
      while k < |targetSequences|
        invariant 0 <= k <= |targetSequences|
        invariant forall j | 0 <= j < k :: targetSequences[j] != sequence
      {
        var targetSeq := targetSequences[k];
        if |sequence| == |targetSeq| {
          var matched := true;
          var i := 0;
          while i < |sequence|
            invariant 0 <= i <= |sequence|
            invariant matched && forall q | 0 <= q < i :: sequence[q] == targetSeq[q]
          {
            if sequence[i] != targetSeq[i] {
              matched := false;
              break;
            }
            i := i + 1;
          }
          if matched {
            assert sequence == targetSeq;
            message := SuccessMessage;
            success := true;
            return true;
          }
        }
        k := k + 1;
      }

      k := 0;
      while k < |targetSequences|
        invariant 0 <= k <= |targetSequences|
        invariant forall j | 0 <= j < k :: !(|sequence| < |targetSequences[j]| && targetSequences[j][..|sequence|] == sequence)
      {
        var targetSeq := targetSequences[k];
        if |sequence| < |targetSeq| {
          var prefix := true;
          var i := 0;
          while i < |sequence|
            invariant 0 <= i <= |sequence|
            invariant prefix && forall q | 0 <= q < i :: sequence[q] == targetSeq[q]
          {
            if sequence[i] != targetSeq[i] {
              prefix := false;
              break;
            }
            i := i + 1;
          }
          if prefix {
            assert targetSeq[..|sequence|] == sequence;
            return false;
          }
        }
        k := k + 1;
      }

      message := LossMessage;
      success := false;
      return true;
    }

    /**
     * The "up" case of Update: unless the mode forbids vertical moves, move
     * to the nearest non-blank cell above, or to the top cell of the column.
     */
    method MoveUp()
      requires Valid()
      modifies this
      ensures Valid() && OnlyCursorMoved() && cursorX == old(cursorX)
      ensures cursorY == (if old(firstPick || isVertical) && old(cursorY) > 0
                          then SkipBack(Column(old(grid), old(cursorX)), old(cursorY) - 1)
                          else old(cursorY))
    {
      if firstPick || isVertical {
        if cursorY > 0 {
          ghost var col := Column(grid, cursorX);
          var y := cursorY - 1;
          ghost var start := y;
          while y > 0 && grid[y][cursorX] == Blank
            invariant 0 <= y <= start
            invariant SkipBack(col, y) == SkipBack(col, start)
          {
            y := y - 1;
          }
          cursorY := y;
        }
      }
    }

    /** The "down" case of Update: as MoveUp, towards the bottom of the column. */
    method MoveDown()
      requires Valid()
      modifies this
      ensures Valid() && OnlyCursorMoved() && cursorX == old(cursorX)
      ensures cursorY == (if old(firstPick || isVertical) && old(cursorY) < Size - 1
                          then SkipForward(Column(old(grid), old(cursorX)), old(cursorY) + 1)
                          else old(cursorY))
    {
      if firstPick || isVertical {
        if cursorY < |grid| - 1 {
          ghost var col := Column(grid, cursorX);
          var y := cursorY + 1;
          ghost var start := y;
          while y < |grid| - 1 && grid[y][cursorX] == Blank
            invariant start <= y < |grid|
            invariant SkipForward(col, y) == SkipForward(col, start)
          {
            y := y + 1;
          }
          cursorY := y;
        }
      }
    }

    /**
     * The "left" case of Update: unless the mode forbids horizontal moves,
     * move to the nearest non-blank cell to the left, or to the first cell
     * of the row.
     */
    method MoveLeft()
      requires Valid()
      modifies this
      ensures Valid() && OnlyCursorMoved() && cursorY == old(cursorY)
      ensures cursorX == (if old(firstPick || !isVertical) && old(cursorX) > 0
                          then SkipBack(old(grid[cursorY]), old(cursorX) - 1)
                          else old(cursorX))
    {
      if firstPick || !isVertical {
        if cursorX > 0 {
          ghost var row := grid[cursorY];
          var x := cursorX - 1;
          ghost var start := x;
          while x > 0 && grid[cursorY][x] == Blank
            invariant 0 <= x <= start
            invariant SkipBack(row, x) == SkipBack(row, start)
          {
            x := x - 1;
          }
          cursorX := x;
        }
      }
    }

    /** The "right" case of Update: as MoveLeft, towards the end of the row. */
    method MoveRight()
      requires Valid()
      modifies this
      ensures Valid() && OnlyCursorMoved() && cursorY == old(cursorY)
      ensures cursorX == (if old(firstPick || !isVertical) && old(cursorX) < Size - 1
                          then SkipForward(old(grid[cursorY]), old(cursorX) + 1)
                          else old(cursorX))
    {
      if firstPick || !isVertical {
        if cursorX < |grid[0]| - 1 {
          ghost var row := grid[cursorY];
          var x := cursorX + 1;
          ghost var start := x;
          while x < |grid[0]| - 1 && grid[cursorY][x] == Blank
            invariant start <= x < |grid[0]|
            invariant SkipForward(row, x) == SkipForward(row, start)
          {
            x := x + 1;
          }
          cursorX := x;
        }
      }
    }

    /**
     * The "enter" case of Update. On a blank cell nothing happens; on any
     * other cell its value is appended to the sequence, the cell is blanked,
     * the first pick is over, the mode switches, and checkSequences decides:
     * a win quits, a loss clears the screen and quits.
     */
    method Pick() returns (cmd: Command)
      requires Valid()
      modifies this
      ensures Valid() && cursorX == old(cursorX) && cursorY == old(cursorY)
      ensures old(grid[cursorY][cursorX]) == Blank ==> cmd == NoCommand && unchanged(this)
      ensures old(grid[cursorY][cursorX]) != Blank ==>
                var v := old(grid[cursorY][cursorX]);
                sequence == old(sequence) + [v] &&
                grid == old(grid[cursorY := grid[cursorY][cursorX := Blank]]) &&
                !firstPick && isVertical == !old(isVertical) &&
                targetSequences == old(targetSequences) &&
                match Judge(sequence, targetSequences)
                case Matched => success && message == SuccessMessage && cmd == Quit
                case StillOpen => success == old(success) && message == old(message) && cmd == NoCommand
                case Lost => !success && message == LossMessage && cmd == ClearScreenThenQuit
    {
      cmd := NoCommand;
      if grid[cursorY][cursorX] != Blank {
        NonBlankBlank(grid, cursorY, cursorX);
        sequence := sequence + [grid[cursorY][cursorX]];
        grid := grid[cursorY := grid[cursorY][cursorX := Blank]];
        if firstPick {
          firstPick := false;
        }
        isVertical := !isVertical;
        var done := CheckSequences();
        if done {
          if success {
            cmd := Quit;
          } else {
            cmd := ClearScreenThenQuit;
          }
        }
      }
    }

    /**
     * Update for one key: ctrl+c quits, the arrows move the cursor (see
     * MoveUp, MoveDown, MoveLeft, MoveRight), enter picks (see Pick), and
     * any other key is ignored.
     */
    method Update(key: Key) returns (cmd: Command)
      requires Valid()
      modifies this
      ensures Valid()
      ensures key == CtrlC ==> cmd == Quit && unchanged(this)
      ensures key == OtherKey ==> cmd == NoCommand && unchanged(this)
      ensures key in {Up, Down, Left, Right} ==> cmd == NoCommand && OnlyCursorMoved()
      ensures key == Up || key == Down ==> cursorX == old(cursorX)
      ensures key == Left || key == Right ==> cursorY == old(cursorY)
      ensures key == Enter ==> cursorX == old(cursorX) && cursorY == old(cursorY)
    {
      cmd := NoCommand;
      match key
      case CtrlC =>
        cmd := Quit;
      case Up =>
        MoveUp();
      case Down =>
        MoveDown();
      case Left =>
        MoveLeft();
      case Right =>
        MoveRight();
      case Enter =>
        cmd := Pick();
      case OtherKey =>
    }
  }
}
