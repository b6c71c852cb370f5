/** Layout of the flat action list into a grid of fixed-size cells whose column
    count follows the terminal width. */
module Layout {
  import opened Actions

  /** Size of one cell, in terminal columns and lines. */
  const ActionWidth: nat := 16
  const ActionHeight: nat := 8

  /** `Math.min` on integers, as used to clamp slice bounds and cursor moves. */
  function Min(a: int, b: int): int { if a <= b then a else b }

  /** `Math.max(1, Math.floor(width / ACTION_WIDTH))`: as many whole cells as fit
      across the terminal, and at least one. */
  function Cols(width: nat): (cols: nat)
    ensures cols >= 1
    ensures cols == 1 ==> width < 2 * ActionWidth
    ensures cols > 1 ==> cols * ActionWidth <= width < (cols + 1) * ActionWidth
  {
    if width / ActionWidth < 1 then 1 else width / ActionWidth
  }

  /** `Math.ceil(n / cols)`: the fewest rows of `cols` cells that hold `n` actions. */
  function Rows(n: nat, cols: nat): (rows: nat)
    requires cols >= 1
    ensures rows * cols >= n
    ensures n > 0 ==> (rows - 1) * cols < n
    ensures n == 0 <==> rows == 0
  {
    (n + cols - 1) / cols
  }

  /** `s.slice(start, end)`: both ends are clamped to the length of `s`. */
  function Slice<T>(s: seq<T>, start: nat, end: nat): (r: seq<T>)
    ensures |r| <= |s|
  {
    var st := Min(start, |s|);
    var en := Min(end, |s|);
    if st <= en then s[st..en] else []
  }

  /** The grid: row `r` is the slice of the actions from `r * cols` to `r * cols + cols`. */
  function Grid(actions: seq<Action>, cols: nat): (grid: seq<seq<Action>>)
    requires cols >= 1
    ensures |grid| == Rows(|actions|, cols)
  {
    seq(Rows(|actions|, cols), r requires 0 <= r => Slice(actions, r * cols, r * cols + cols))
  }

  /** The grid construction loop, pushing one slice per row. */
  method BuildGrid(actions: seq<Action>, cols: nat) returns (grid: seq<seq<Action>>)
    requires cols >= 1
    ensures grid == Grid(actions, cols)
  {
    var rows := Rows(|actions|, cols);
    grid := [];
    for r := 0 to rows
      invariant |grid| == r
      invariant forall k :: 0 <= k < r ==> grid[k] == Slice(actions, k * cols, k * cols + cols)
    {
      var start := r * cols;
      var end := start + cols;
      grid := grid + [Slice(actions, start, end)];
    }
  }

  /** Every row holds exactly `cols` actions except the last, which holds between
      one and `cols`. */
  lemma GridRowSizes(actions: seq<Action>, cols: nat)
    requires cols >= 1
    ensures var grid := Grid(actions, cols);
      forall r :: 0 <= r < |grid| ==>
        1 <= |grid[r]| <= cols && (r < |grid| - 1 ==> |grid[r]| == cols)
  {
    var grid := Grid(actions, cols);
    var n := |actions|;
    forall r | 0 <= r < |grid|
      ensures 1 <= |grid[r]| <= cols && (r < |grid| - 1 ==> |grid[r]| == cols)
    {
      MulMono(r, |grid| - 1, cols);
      assert r * cols < n;
      if r < |grid| - 1 {
        MulMono(r + 1, |grid| - 1, cols);
        assert (r + 1) * cols == r * cols + cols;
      }
    }
  }

  /** The cell at row `r`, column `c` exists exactly when `r * cols + c` indexes an
      action, and it holds that action: every action appears in exactly one cell,
      in list order. */
  lemma GridCell(actions: seq<Action>, cols: nat, r: nat, c: nat)
    requires cols >= 1 && c < cols
    ensures var grid := Grid(actions, cols);
      (r < |grid| && c < |grid[r]|) <==> r * cols + c < |actions|
    ensures var grid := Grid(actions, cols);
      r < |grid| && c < |grid[r]| ==> grid[r][c] == actions[r * cols + c]
  {
    var grid := Grid(actions, cols);
    var n := |actions|;
    if r * cols + c < n {
      if r >= |grid| {
        MulMono(|grid|, r, cols);
      }
    }
  }

  /** The cell holding the action at list position `i`. */
  lemma ActionCell(actions: seq<Action>, cols: nat, i: nat)
    requires cols >= 1 && i < |actions|
    ensures var grid := Grid(actions, cols);
      i / cols < |grid| && i % cols < |grid[i / cols]| && grid[i / cols][i % cols] == actions[i]
  {
    var r, c := i / cols, i % cols;
    DivMod(i, cols);
    GridCell(actions, cols, r, c);
  }

  lemma DivMod(i: nat, cols: nat)
    requires cols >= 1
    ensures i % cols < cols && (i / cols) * cols + i % cols == i
  {
  }

  /** The rows of a grid concatenated in order. */
  function Flatten<T>(grid: seq<seq<T>>): seq<T>
  {
    if grid == [] then [] else Flatten(grid[..|grid| - 1]) + grid[|grid| - 1]
  }

  /** Concatenating the rows of the grid gives back the action list. */
  lemma GridFlatten(actions: seq<Action>, cols: nat)
    requires cols >= 1
    ensures Flatten(Grid(actions, cols)) == actions
  {
    var grid := Grid(actions, cols);
    FlattenPrefix(actions, cols, |grid|);
    assert grid[..|grid|] == grid;
  }

  lemma {:induction false} FlattenPrefix(actions: seq<Action>, cols: nat, k: nat)
    requires cols >= 1 && k <= Rows(|actions|, cols)
    ensures Flatten(Grid(actions, cols)[..k]) == actions[..Min(k * cols, |actions|)]
  {
    if k > 0 {
      FlattenPrefix(actions, cols, k - 1);
      FlattenStep(actions, cols, k);
    }
  }

  /** Adding row `k - 1` to the first `k - 1` rows extends the flattened prefix
      by that row's run of actions. */
  lemma FlattenStep(actions: seq<Action>, cols: nat, k: nat)
    requires cols >= 1 && 0 < k <= Rows(|actions|, cols)
    requires Flatten(Grid(actions, cols)[..k - 1]) == actions[..Min((k - 1) * cols, |actions|)]
    ensures Flatten(Grid(actions, cols)[..k]) == actions[..Min(k * cols, |actions|)]
  {
    var n := |actions|;
    var start, end := GridRow(actions, cols, k - 1);
    FlattenSnoc(Grid(actions, cols), k);
    assert Min((k - 1) * cols, n) == start && Min(k * cols, n) == Min(end, n);
    PrefixConcat(actions, start, Min(end, n));
  }

  lemma PrefixConcat<T>(s: seq<T>, i: nat, j: nat)
    requires i <= j <= |s|
    ensures s[..i] + s[i..j] == s[..j]
  {
  }

  lemma FlattenSnoc<T>(grid: seq<seq<T>>, k: nat)
    requires 0 < k <= |grid|
    ensures Flatten(grid[..k]) == Flatten(grid[..k - 1]) + grid[k - 1]
  {
    assert grid[..k][..k - 1] == grid[..k - 1];
  }

  /** Row `r` of the grid is a non-empty run of the actions starting at `r * cols`. */
  lemma GridRow(actions: seq<Action>, cols: nat, r: nat) returns (start: nat, end: nat)
    requires cols >= 1 && r < Rows(|actions|, cols)
    ensures start == r * cols && end == start + cols && (r + 1) * cols == end
    ensures start < |actions|
    ensures Grid(actions, cols)[r] == actions[start..Min(end, |actions|)]
  {
    start, end := r * cols, r * cols + cols;
    MulMono(r, Rows(|actions|, cols) - 1, cols);
  }

  lemma MulMono(a: nat, b: nat, c: nat)
    requires a <= b
    ensures a * c <= b * c
  {
  }
}
