/** The grid action prompt: a cursor over the grid of actions moved by arrow keys,
    resolved by Enter or by an action's shortcut key, and the frame it draws. */
module Prompt {
  import opened Strings
  import opened Actions
  import opened Layout
  import opened Render

  /** The `[row, col]` pair kept in the prompt's state. */
  datatype Position = Position(row: nat, col: nat)

  /** What a keypress leads to: the prompt keeps running (and redraws), rings the
      terminal bell, resolves with an action's value, or the handler throws a
      `TypeError` by indexing a row that does not exist (only possible when there
      are no actions). */
  datatype Outcome = Continue | Bell | Done(value: string) | TypeError

  /** The cursor names a cell of the grid. */
  predicate InGrid(grid: seq<seq<Action>>, pos: Position)
  {
    pos.row < |grid| && pos.col < |grid[pos.row]|
  }

  /** No row of the grid is empty, as for every grid the layout builds. */
  predicate RowsNonEmpty(grid: seq<seq<Action>>)
  {
    forall r :: 0 <= r < |grid| ==> |grid[r]| > 0
  }

  /** The keys whose handling indexes a grid row that is not there. */
  predicate ThrowsOn(grid: seq<seq<Action>>, pos: Position, name: string)
  {
    (name == "down" && |grid| == 0) || ((name == "right" || name == "return") && pos.row >= |grid|)
  }

  /** `a.key && a.key.toLowerCase() === name`. */
  predicate KeyMatches(a: Action, name: string)
  {
    HasKey(a) && Lower(a.key.value) == name
  }

  /** `actions.find(...)` from index `from` on: the first action whose key matches. */
  function FindByKey(actions: seq<Action>, name: string, from: nat): (r: Option<nat>)
    requires from <= |actions|
    decreases |actions| - from
    ensures r.Some? ==> from <= r.value < |actions| && KeyMatches(actions[r.value], name)
    ensures r.Some? ==> forall j :: from <= j < r.value ==> !KeyMatches(actions[j], name)
    ensures r.None? <==> forall j :: from <= j < |actions| ==> !KeyMatches(actions[j], name)
  {
    if from == |actions| then None
    else if KeyMatches(actions[from], name) then Some(from)
    else FindByKey(actions, name, from + 1)
  }

  predicate IsArrowOrEnter(name: string)
  {
    name in {"up", "down", "left", "right", "return"}
  }

  /** The keypress handler: the next cursor position and the outcome of the key
      named `name`. */
  function Next(grid: seq<seq<Action>>, actions: seq<Action>, pos: Position, name: string): (r: (Position, Outcome))
    requires RowsNonEmpty(grid)
    ensures r.1 != Continue ==> r.0 == pos
    ensures r.1 == TypeError <==> ThrowsOn(grid, pos, name)
    ensures r.1 == Bell <==> !IsArrowOrEnter(name) && FindByKey(actions, name, 0).None?
  {
    if name == "up" then
      (Position(if pos.row == 0 then 0 else pos.row - 1, pos.col), Continue)
    else if name == "down" then
      if |grid| == 0 then (pos, TypeError)
      else
        var target := Min(|grid| - 1, pos.row + 1);
        if pos.col < |grid[target]| then (Position(target, pos.col), Continue) else (pos, Continue)
    else if name == "left" then
      (Position(pos.row, if pos.col == 0 then 0 else pos.col - 1), Continue)
    else if name == "right" then
      if pos.row >= |grid| then (pos, TypeError)
      else (Position(pos.row, Min(|grid[pos.row]| - 1, pos.col + 1)), Continue)
    else if name == "return" then
      if pos.row >= |grid| then (pos, TypeError)
      else if pos.col < |grid[pos.row]| then (pos, Done(grid[pos.row][pos.col].value))
      else (pos, Continue)
    else
      match FindByKey(actions, name, 0)
      case Some(i) => (pos, Done(actions[i].value))
      case None => (pos, Bell)
  }

  // ---------------------------------------------------------------------------
  // Properties of the keypress handler
  // ---------------------------------------------------------------------------

  /** Whatever key is pressed, a cursor on a cell of the grid stays on a cell of
      the grid: it never leaves the grid nor lands past the end of the short last row. */
  lemma NextKeepsCursorInGrid(actions: seq<Action>, cols: nat, pos: Position, name: string)
    requires cols >= 1 && |actions| >= 1
    requires InGrid(Grid(actions, cols), pos)
    ensures RowsNonEmpty(Grid(actions, cols))
    ensures InGrid(Grid(actions, cols), Next(Grid(actions, cols), actions, pos, name).0)
    ensures Next(Grid(actions, cols), actions, pos, name).1 != TypeError
  {
    var grid := Grid(actions, cols);
    GridRowSizes(actions, cols);
    if name == "up" && pos.row > 0 {
      assert |grid[pos.row - 1]| == cols;
    }
  }

  /** The arrow keys: `up` and `left` stop at 0, `right` stops at the row's last
      cell, and `down` moves only onto an existing cell of the next row, otherwise
      leaving the cursor where it is. */
  lemma ArrowKeys(grid: seq<seq<Action>>, actions: seq<Action>, pos: Position)
    requires RowsNonEmpty(grid) && InGrid(grid, pos)
    ensures Next(grid, actions, pos, "up") == (Position(if pos.row > 0 then pos.row - 1 else 0, pos.col), Continue)
    ensures Next(grid, actions, pos, "left") == (Position(pos.row, if pos.col > 0 then pos.col - 1 else 0), Continue)
    ensures Next(grid, actions, pos, "right").0.row == pos.row
    ensures Next(grid, actions, pos, "right").0.col == if pos.col + 1 < |grid[pos.row]| then pos.col + 1 else pos.col
    ensures Next(grid, actions, pos, "down").1 == Continue
    ensures Next(grid, actions, pos, "down").0 ==
      if pos.row + 1 < |grid| && pos.col < |grid[pos.row + 1]| then Position(pos.row + 1, pos.col) else pos
  {
  }

  /** Enter resolves with the value of the action under the cursor, which is the
      action at list position `row * cols + col`. */
  lemma EnterResolvesCursorCell(actions: seq<Action>, cols: nat, pos: Position)
    requires cols >= 1 && |actions| >= 1
    requires InGrid(Grid(actions, cols), pos)
    ensures RowsNonEmpty(Grid(actions, cols))
    ensures pos.col < cols && pos.row * cols + pos.col < |actions|
    ensures Next(Grid(actions, cols), actions, pos, "return")
         == (pos, Done(actions[pos.row * cols + pos.col].value))
  {
    GridRowSizes(actions, cols);
    GridCell(actions, cols, pos.row, pos.col);
  }

  /** Any other key resolves with the value of the first action, in list order,
      whose lower-cased key is the key's name, wherever the cursor is; with no such
      action the bell rings. The cursor does not move either way. */
  lemma ShortcutResolvesFirstMatch(grid: seq<seq<Action>>, actions: seq<Action>, pos: Position, name: string)
    requires RowsNonEmpty(grid) && !IsArrowOrEnter(name)
    ensures Next(grid, actions, pos, name).0 == pos
    ensures Next(grid, actions, pos, name).1 == Bell <==>
      forall j :: 0 <= j < |actions| ==> !KeyMatches(actions[j], name)
    ensures Next(grid, actions, pos, name).1 != Bell ==>
      exists i :: 0 <= i < |actions| && KeyMatches(actions[i], name)
        && (forall j :: 0 <= j < i ==> !KeyMatches(actions[j], name))
        && Next(grid, actions, pos, name).1 == Done(actions[i].value)
  {
    var found := FindByKey(actions, name, 0);
    if found.Some? {
      var i := found.value;
      assert KeyMatches(actions[i], name);
    }
  }

  /** A shortcut key's outcome does not depend on the cursor. */
  lemma ShortcutIgnoresCursor(grid: seq<seq<Action>>, actions: seq<Action>, p: Position, q: Position, name: string)
    requires RowsNonEmpty(grid) && !IsArrowOrEnter(name)
    ensures Next(grid, actions, p, name).1 == Next(grid, actions, q, name).1
  {
  }

  /** After automatic key assignment, pressing the key given to the action at
      `index` resolves with that action's value, even when a later action carries
      the same key. */
  lemma AssignedKeySelects(grid: seq<seq<Action>>, actions: seq<Action>, mode: KeyMode, index: nat, pos: Position)
    requires index < |actions| && AutoKey(mode, index).Some?
    requires RowsNonEmpty(grid)
    ensures var keyed := WithKeys(actions, mode);
      Next(grid, keyed, pos, AutoKey(mode, index).value) == (pos, Done(actions[index].value))
  {
    var keyed := WithKeys(actions, mode);
    var name := AutoKey(mode, index).value;
    assert Lower(name) == name;
    assert KeyMatches(keyed[index], name);
    forall j | 0 <= j < index
      ensures !KeyMatches(keyed[j], name)
    {
      AutoKeysDistinct(mode, j, index);
      assert Lower(keyed[j].key.value) == keyed[j].key.value;
    }
    var found := FindByKey(keyed, name, 0);
    assert found == Some(index);
  }

  /** With no actions the grid has no rows: `up` and `left` leave the cursor at
      (0, 0), `down`, `right` and Enter throw, and every other key rings the bell. */
  lemma EmptyListKeys(cols: nat, name: string)
    requires cols >= 1
    ensures Grid([], cols) == []
    ensures var r := Next([], [], Position(0, 0), name);
      && r.0 == Position(0, 0)
      && (name == "up" || name == "left" ==> r.1 == Continue)
      && (name == "down" || name == "right" || name == "return" ==> r.1 == TypeError)
      && (!IsArrowOrEnter(name) ==> r.1 == Bell)
  {
  }

  /** The prompt's run over a sequence of keypresses: the final cursor, and the
      value it resolved with, if any (no key after that one is processed). */
  ghost function Run(actions: seq<Action>, cols: nat, pos: Position, keys: seq<string>): (r: (Position, Option<string>))
    requires cols >= 1 && |actions| >= 1 && InGrid(Grid(actions, cols), pos)
    ensures InGrid(Grid(actions, cols), r.0)
    decreases |keys|
  {
    if keys == [] then (pos, None)
    else
      NextKeepsCursorInGrid(actions, cols, pos, keys[0]);
      var (p, outcome) := Next(Grid(actions, cols), actions, pos, keys[0]);
      if outcome.Done? then (p, Some(outcome.value))
      else Run(actions, cols, p, keys[1..])
  }

  /** Two actions on a 40-column terminal: two columns, one row; `p` resolves
      "push", and right followed by Enter resolves "pull". */
  lemma PushPullScenario()
    ensures var actions := [Action("Push", Some("p"), "push"), Action("Pull", Some("l"), "pull")];
      && Cols(40) == 2
      && Grid(actions, 2) == [actions]
      && Run(actions, 2, Position(0, 0), ["p"]).1 == Some("push")
      && Run(actions, 2, Position(0, 0), ["right", "return"]).1 == Some("pull")
  {
    var actions := [Action("Push", Some("p"), "push"), Action("Pull", Some("l"), "pull")];
    var grid := Grid(actions, 2);
    assert Rows(2, 2) == 1;
    assert grid[0] == Slice(actions, 0, 2) == actions[0..2] == actions;
    assert grid == [actions];
    assert Lower("p") == "p";
    assert KeyMatches(actions[0], "p");
    assert FindByKey(actions, "p", 0) == Some(0);
    var moved := Next(grid, actions, Position(0, 0), "right");
    assert moved == (Position(0, 1), Continue);
    assert ["right", "return"][1..] == ["return"];
  }

  // ---------------------------------------------------------------------------
  // The frame
  // ---------------------------------------------------------------------------

  /** The line printed under the grid. */
  const Hint: string := "\nUse arrow keys to navigate and Enter or the action key to select."

  /** The box drawn for grid slot (r, c): the action there, or an empty box past
      the end of a short row; highlighted when it is the cursor's cell. */
  ghost function CellBox(grid: seq<seq<Action>>, pos: Position, r: nat, c: nat): (b: Result<seq<string>>)
    requires r < |grid|
    ensures b.Ok? ==> |b.value| == ActionHeight
  {
    Box(if c < |grid[r]| then Some(grid[r][c]) else None, r == pos.row && c == pos.col, ActionWidth, ActionHeight)
  }

  /** Every slot of grid row `r`, `cols` of them, renders without throwing. */
  ghost predicate RowRenders(grid: seq<seq<Action>>, cols: nat, pos: Position, r: nat)
    requires r < |grid|
  {
    forall c :: 0 <= c < cols ==> CellBox(grid, pos, r, c).Ok?
  }

  /** The boxes of grid row `r`, one per slot. */
  ghost function RowBoxesOf(grid: seq<seq<Action>>, cols: nat, pos: Position, r: nat): (boxes: seq<seq<string>>)
    requires r < |grid|
    ensures |boxes| == cols
  {
    seq(cols, c requires 0 <= c =>
      match CellBox(grid, pos, r, c)
      case Ok(lines) => lines
      case RangeError => [])
  }

  /** Line `line` of the first `c` boxes, side by side. */
  function RowLine(boxes: seq<seq<string>>, line: nat, c: nat): string
    requires c <= |boxes|
  {
    if c == 0 then ""
    else RowLine(boxes, line, c - 1) + (if line < |boxes[c - 1]| then boxes[c - 1][line] else "")
  }

  /** The first `n` lines of a row of boxes, each ended by a newline. */
  function BlockLines(boxes: seq<seq<string>>, cols: nat, n: nat): string
    requires cols <= |boxes|
  {
    if n == 0 then "" else BlockLines(boxes, cols, n - 1) + RowLine(boxes, n - 1, cols) + "\n"
  }

  /** The text of the first `k` rows of the grid: each row's `ActionHeight` lines. */
  ghost function FrameText(grid: seq<seq<Action>>, cols: nat, pos: Position, k: nat): string
    requires k <= |grid|
  {
    if k == 0 then ""
    else FrameText(grid, cols, pos, k - 1) + BlockLines(RowBoxesOf(grid, cols, pos, k - 1), cols, ActionHeight)
  }

  /** Every slot of the first `k` rows of the grid, `cols` per row, renders
      without throwing. */
  ghost predicate RowsRender(grid: seq<seq<Action>>, cols: nat, pos: Position, k: nat)
    requires k <= |grid|
  {
    k == 0 || (RowsRender(grid, cols, pos, k - 1) && RowRenders(grid, cols, pos, k - 1))
  }

  lemma {:induction false} AllRowsRender(grid: seq<seq<Action>>, cols: nat, pos: Position, k: nat)
    requires k <= |grid|
    requires forall r :: 0 <= r < k ==> RowRenders(grid, cols, pos, r)
    ensures RowsRender(grid, cols, pos, k)
  {
    if k > 0 {
      AllRowsRender(grid, cols, pos, k - 1);
    }
  }

  /** A row that fails to render makes every longer prefix of rows fail. */
  lemma {:induction false} RowFailureStopsFrame(grid: seq<seq<Action>>, cols: nat, pos: Position, k: nat, r: nat)
    requires r < k <= |grid| && !RowRenders(grid, cols, pos, r)
    ensures !RowsRender(grid, cols, pos, k)
  {
    if r < k - 1 {
      RowFailureStopsFrame(grid, cols, pos, k - 1, r);
    }
  }

  /** The text the prompt draws, or the exception a box throws. */
  ghost function Frame(grid: seq<seq<Action>>, cols: nat, pos: Position): Result<string>
  {
    if RowsRender(grid, cols, pos, |grid|) then Ok(FrameText(grid, cols, pos, |grid|) + Hint)
    else RangeError
  }

  /** An action renders when its label's words fit in a cell's text width and its
      key fits too; so does every empty slot. */
  lemma CellRendersWhenLabelFits(actions: seq<Action>, cols: nat, pos: Position, r: nat, c: nat)
    requires cols >= 1 && r < |Grid(actions, cols)| && c < cols
    requires forall i :: 0 <= i < |actions| ==> WordsFit(actions[i].name, ActionWidth - 4)
    requires forall i :: 0 <= i < |actions| && HasKey(actions[i]) ==> |actions[i].key.value| + 4 <= ActionWidth
    ensures CellBox(Grid(actions, cols), pos, r, c).Ok?
  {
    var grid := Grid(actions, cols);
    var selected := r == pos.row && c == pos.col;
    GridCell(actions, cols, r, c);
    if c < |grid[r]| {
      var i := r * cols + c;
      var a := actions[i];
      assert grid[r][c] == a;
      assert WordsFit(a.name, ActionWidth - 4);
      BoxRendersWhenLabelFits(a, selected, ActionWidth, ActionHeight);
    } else {
      EmptyBoxNeverHighlighted(ActionWidth, ActionHeight);
    }
  }

  /** When every label's words and every key fit in a cell, the whole frame renders. */
  lemma FrameRendersWhenLabelsFit(actions: seq<Action>, cols: nat, pos: Position)
    requires cols >= 1
    requires forall i :: 0 <= i < |actions| ==> WordsFit(actions[i].name, ActionWidth - 4)
    requires forall i :: 0 <= i < |actions| && HasKey(actions[i]) ==> |actions[i].key.value| + 4 <= ActionWidth
    ensures Frame(Grid(actions, cols), cols, pos).Ok?
  {
    var grid := Grid(actions, cols);
    forall r | 0 <= r < |grid|
      ensures RowRenders(grid, cols, pos, r)
    {
      forall c | 0 <= c < cols
        ensures CellBox(grid, pos, r, c).Ok?
      {
        CellRendersWhenLabelFits(actions, cols, pos, r, c);
      }
    }
    AllRowsRender(grid, cols, pos, |grid|);
  }

  /** Outside the cursor's row, every drawn line of a row of boxes is exactly
      `c * ActionWidth` characters for its first `c` boxes: the grid is a rectangle. */
  lemma {:induction false} RowLineWidth(grid: seq<seq<Action>>, cols: nat, pos: Position, r: nat, line: nat, c: nat)
    requires r < |grid| && r != pos.row && line < ActionHeight && c <= cols
    requires RowRenders(grid, cols, pos, r)
    ensures |RowLine(RowBoxesOf(grid, cols, pos, r), line, c)| == c * ActionWidth
  {
    if c > 0 {
      RowLineWidth(grid, cols, pos, r, line, c - 1);
      BoxLineWidth(grid, cols, pos, r, c - 1, line);
    }
  }

  /** Each line of an unselected box that renders is `ActionWidth` wide. */
  lemma BoxLineWidth(grid: seq<seq<Action>>, cols: nat, pos: Position, r: nat, c: nat, line: nat)
    requires r < |grid| && r != pos.row && line < ActionHeight && c < cols
    requires RowRenders(grid, cols, pos, r)
    ensures line < |RowBoxesOf(grid, cols, pos, r)[c]|
    ensures |RowBoxesOf(grid, cols, pos, r)[c][line]| == ActionWidth
  {
    var action := if c < |grid[r]| then Some(grid[r][c]) else None;
    assert CellBox(grid, pos, r, c).Ok?;
    BoxShape(action, ActionWidth, ActionHeight);
  }

  /** Appends to `text` the `height` lines of a row of boxes, each line the
      first `cols` boxes side by side. */
  method RowText(boxes: seq<seq<string>>, cols: nat, height: nat, text: string) returns (text': string)
    requires cols <= |boxes|
    requires forall c :: 0 <= c < cols ==> |boxes[c]| == height
    ensures text' == text + BlockLines(boxes, cols, height)
  {
    text' := text;
    for line := 0 to height
      invariant text' == text + BlockLines(boxes, cols, line)
    {
      var rowLine := JoinLine(boxes, cols, line);
      assert text' + rowLine + "\n" == text + (BlockLines(boxes, cols, line) + rowLine + "\n");
      text' := text' + rowLine + "\n";
    }
  }

  /** Line `line` of the first `cols` boxes, side by side. */
  method JoinLine(boxes: seq<seq<string>>, cols: nat, line: nat) returns (rowLine: string)
    requires cols <= |boxes|
    requires forall c :: 0 <= c < cols ==> line < |boxes[c]|
    ensures rowLine == RowLine(boxes, line, cols)
  {
    rowLine := "";
    for c := 0 to cols
      invariant rowLine == RowLine(boxes, line, c)
    {
      rowLine := rowLine + boxes[c][line];
    }
  }

  // ---------------------------------------------------------------------------
  // The prompt
  // ---------------------------------------------------------------------------

  /** One invocation of the prompt: the actions (after key assignment), the grid
      laid out for the terminal width, and the cursor. */
  class ActionPrompt {
    const actions: seq<Action>
    const cols: nat
    const grid: seq<seq<Action>>
    var position: Position

    ghost predicate Valid()
      reads this
    {
      && cols >= 1 && grid == Grid(actions, cols) && RowsNonEmpty(grid)
      && (if |actions| == 0 then position == Position(0, 0) else InGrid(grid, position))
    }

    /** Starts the prompt on the caller's actions: assigns keys in place, lays out
        the grid for `width` and puts the cursor on the first cell. */
    constructor (config: array<Action>, keys: KeyMode, width: nat)
      modifies config
      ensures Valid()
      ensures config[..] == WithKeys(old(config[..]), keys)
      ensures actions == config[..] && cols == Cols(width) && position == Position(0, 0)
    {
      AssignKeys(config, keys);
      actions := config[..];
      cols := Cols(width);
      var g := BuildGrid(config[..], Cols(width));
      grid := g;
      position := Position(0, 0);
      GridRowSizes(config[..], Cols(width));
    }

    /** Handles one keypress, updating the cursor like the source's `setPosition`. */
    method Step(name: string) returns (outcome: Outcome)
      requires Valid()
      modifies this`position
      ensures Valid()
      ensures (position, outcome) == Next(grid, actions, old(position), name)
    {
      if |actions| > 0 {
        NextKeepsCursorInGrid(actions, cols, position, name);
      }
      outcome := Continue;
      if name == "up" {
        position := Position(if position.row == 0 then 0 else position.row - 1, position.col);
      } else if name == "down" {
        if |grid| == 0 {
          outcome := TypeError;
        } else {
          var target := Min(|grid| - 1, position.row + 1);
          if position.col < |grid[target]| {
            position := Position(target, position.col);
          }
        }
      } else if name == "left" {
        position := Position(position.row, if position.col == 0 then 0 else position.col - 1);
      } else if name == "right" {
        if position.row >= |grid| {
          outcome := TypeError;
        } else {
          position := Position(position.row, Min(|grid[position.row]| - 1, position.col + 1));
        }
      } else if name == "return" {
        if position.row >= |grid| {
          outcome := TypeError;
        } else if position.col < |grid[position.row]| {
          outcome := Done(grid[position.row][position.col].value);
        }
      } else {
        var found := FindByKey(actions, name, 0);
        if found.Some? {
          outcome := Done(actions[found.value].value);
        } else {
          outcome := Bell;
        }
      }
    }

    /** Draws the frame: for each grid row, the `cols` boxes of the row, then their
        lines side by side, then the hint. */
    method Render() returns (output: Result<string>)
      requires Valid()
      ensures output == Frame(grid, cols, position)
    {
      var text := "";
      for r := 0 to |grid|
        invariant text == FrameText(grid, cols, position, r)
        invariant RowsRender(grid, cols, position, r)
      {
        var next := RenderRow(r, text);
        if next.RangeError? {
          RowFailureStopsFrame(grid, cols, position, |grid|, r);
          return RangeError;
        }
        text := next.value;
      }
      return Ok(text + Hint);
    }

    /** One pass of the row loop: appends row `r`'s lines to the text of the rows
        above it, or throws. */
    method RenderRow(r: nat, text: string) returns (next: Result<string>)
      requires Valid() && r < |grid|
      requires text == FrameText(grid, cols, position, r)
      ensures next.RangeError? <==> !RowRenders(grid, cols, position, r)
      ensures next.Ok? ==> next.value == FrameText(grid, cols, position, r + 1)
    {
      var boxes := RowBoxes(r);
      if boxes.RangeError? {
        return RangeError;
      }
      var text' := RowText(boxes.value, cols, ActionHeight, text);
      return Ok(text');
    }

    /** The boxes of grid row `r`, one per column, or the exception the first
        failing one throws. */
    method RowBoxes(r: nat) returns (boxes: Result<seq<seq<string>>>)
      requires Valid() && r < |grid|
      ensures boxes.Ok? <==> RowRenders(grid, cols, position, r)
      ensures boxes.Ok? ==> boxes.value == RowBoxesOf(grid, cols, position, r)
      ensures boxes.Ok? ==> forall c :: 0 <= c < cols ==> |boxes.value[c]| == ActionHeight
    {
      var row: seq<seq<string>> := [];
      for c := 0 to cols
        invariant |row| == c
        invariant forall j :: 0 <= j < c ==> CellBox(grid, position, r, j) == Ok(row[j])
      {
        var action := if c < |grid[r]| then Some(grid[r][c]) else None;
        var isSelected := r == position.row && c == position.col;
        var box := RenderActionBox(action, isSelected, ActionWidth, ActionHeight);
        if box.RangeError? {
          assert !CellBox(grid, position, r, c).Ok?;
          return RangeError;
        }
        row := row + [box.value];
      }
      assert row == RowBoxesOf(grid, cols, position, r);
      return Ok(row);
    }
  }
}
