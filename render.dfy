/** Rendering of one grid cell (`renderActionBox`): a fixed-size box with the
    action's label word-wrapped and centred, the shortcut key on the fifth line and
    per-character inverse video when the cell is selected. */
module Render {
  import opened Strings
  import opened Actions
  import opened Layout

  /** The outcome of a rendering: `RangeError` is the exception `String.prototype.repeat`
      throws when asked for a negative count, which ends the rendering. */
  datatype Result<T> = Ok(value: T) | RangeError

  // Box-drawing characters.
  const TopLeft: char := '\U{250C}'
  const TopRight: char := '\U{2510}'
  const BottomLeft: char := '\U{2514}'
  const BottomRight: char := '\U{2518}'
  const Horizontal: char := '\U{2500}'
  const Vertical: char := '\U{2502}'

  function Top(width: nat): (line: string)
    requires width >= 2
    ensures |line| == width
  {
    [TopLeft] + Repeat(Horizontal, width - 2) + [TopRight]
  }

  function Bottom(width: nat): (line: string)
    requires width >= 2
    ensures |line| == width
  {
    [BottomLeft] + Repeat(Horizontal, width - 2) + [BottomRight]
  }

  /** An interior line of an empty box. */
  function Blank(width: nat): (line: string)
    requires width >= 2
    ensures |line| == width
  {
    [Vertical] + Repeat(' ', width - 2) + [Vertical]
  }

  /** `content` padded to `w` columns, `floor(pad / 2)` spaces on the left and the
      rest on the right. */
  function Centre(content: string, w: int): (r: string)
    requires |content| <= w
    ensures |r| == w
  {
    var pad := w - |content|;
    var padLeft := pad / 2;
    var padRight := pad - padLeft;
    Repeat(' ', padLeft) + content + Repeat(' ', padRight)
  }

  /** Centring puts `content` after `floor(pad / 2)` spaces and before the rest of
      the padding, so the right margin equals the left one or exceeds it by one. */
  lemma CentreBalanced(content: string, w: int)
    requires |content| <= w
    ensures var r := Centre(content, w);
      var left := (w - |content|) / 2;
      && left <= w - |content| - left <= left + 1
      && r[left..left + |content|] == content
      && (forall k :: 0 <= k < left ==> r[k] == ' ')
      && (forall k :: left + |content| <= k < w ==> r[k] == ' ')
  {
  }

  /** An interior line of a box that shows `content`: border, one space, the centred
      content, one space, border. */
  function Interior(content: string, width: nat): (line: string)
    requires |content| + 4 <= width
    ensures |line| == width
  {
    [Vertical, ' '] + Centre(content, width - 4) + [' ', Vertical]
  }

  // ---------------------------------------------------------------------------
  // Word wrapping
  // ---------------------------------------------------------------------------

  /** The wrapping loop from the point where `wrapped` lines are finished and
      `current` is the line being filled, until the words run out. */
  function WrapFold(words: seq<string>, wrapped: seq<string>, current: string, w: int): seq<string>
    decreases |words|
  {
    if words == [] then
      if current != "" then wrapped + [current] else wrapped
    else
      var candidate := current + (if current != "" then " " else "") + words[0];
      if |candidate| > w then WrapFold(words[1..], wrapped + [current], words[0], w)
      else WrapFold(words[1..], wrapped, candidate, w)
  }

  /** The lines the label `name` wraps into at width `w`. */
  function Wrapped(name: string, w: int): seq<string>
  {
    WrapFold(Split(name), [], "", w)
  }

  /** The source's word-wrapping loop. */
  method Wrap(name: string, wrapWidth: int) returns (wrapped: seq<string>)
    ensures wrapped == Wrapped(name, wrapWidth)
  {
    var words := Split(name);
    wrapped := [];
    var currentLine := "";
    for i := 0 to |words|
      invariant WrapFold(words[i..], wrapped, currentLine, wrapWidth) == Wrapped(name, wrapWidth)
    {
      var word := words[i];
      assert words[i..][1..] == words[i + 1..];
      if |currentLine + (if currentLine != "" then " " else "") + word| > wrapWidth {
        wrapped := wrapped + [currentLine];
        currentLine := word;
      } else {
        currentLine := currentLine + (if currentLine != "" then " " else "") + word;
      }
    }
    if currentLine != "" {
      wrapped := wrapped + [currentLine];
    }
  }

  /** Every word of `name` is at most `w` characters. */
  predicate WordsFit(name: string, w: int)
  {
    forall k :: 0 <= k < |Split(name)| ==> |Split(name)[k]| <= w
  }

  /** `name` is non-empty words separated by single spaces. */
  predicate SingleSpaced(name: string)
  {
    forall k :: 0 <= k < |Split(name)| ==> Split(name)[k] != ""
  }

  /** No line is longer than `w`. */
  ghost predicate LinesFit(lines: seq<string>, w: int)
  {
    forall k :: 0 <= k < |lines| ==> |lines[k]| <= w
  }

  /** No line is empty. */
  ghost predicate NoEmptyLine(lines: seq<string>)
  {
    forall k :: 0 <= k < |lines| ==> lines[k] != ""
  }

  /** Each line but the last was broken only because the first word of the next
      line, with its separating space, would not fit after it. */
  ghost predicate Greedy(lines: seq<string>, w: int)
  {
    forall k :: 0 <= k < |lines| - 1 ==> |lines[k]| + 1 + |FirstWord(lines[k + 1])| > w
  }

  /** When every word fits, no wrapped line is longer than the wrap width. */
  lemma WrapLinesFit(name: string, w: int)
    requires w >= 0 && WordsFit(name, w)
    ensures LinesFit(Wrapped(name, w), w)
  {
    WrapFoldFits(Split(name), [], "", w);
    assert Wrapped(name, w) == WrapFold(Split(name), [], "", w);
  }

  lemma {:induction false} WrapFoldFits(words: seq<string>, wrapped: seq<string>, current: string, w: int)
    requires |current| <= w
    requires forall k :: 0 <= k < |words| ==> |words[k]| <= w
    requires LinesFit(wrapped, w)
    ensures LinesFit(WrapFold(words, wrapped, current, w), w)
  {
    if words != [] {
      var candidate := current + (if current != "" then " " else "") + words[0];
      if |candidate| > w {
        WrapFoldFits(words[1..], wrapped + [current], words[0], w);
        assert WrapFold(words, wrapped, current, w) == WrapFold(words[1..], wrapped + [current], words[0], w);
      } else {
        WrapFoldFits(words[1..], wrapped, candidate, w);
        assert WrapFold(words, wrapped, current, w) == WrapFold(words[1..], wrapped, candidate, w);
      }
    }
  }

  /** For a single-spaced label whose words fit, the wrapped lines are non-empty,
      fit the width, and joined with single spaces give back the label. */
  lemma WrapRoundTrip(name: string, w: int)
    requires name != "" && SingleSpaced(name) && w >= 0 && WordsFit(name, w)
    ensures |Wrapped(name, w)| >= 1
    ensures NoEmptyLine(Wrapped(name, w)) && LinesFit(Wrapped(name, w), w)
    ensures Join(Wrapped(name, w)) == name
  {
    var words := Split(name);
    WrapLinesFit(name, w);
    assert "" + "" + words[0] == words[0];
    assert WrapFold(words, [], "", w) == WrapFold(words[1..], [], words[0], w);
    WrapFoldJoin(words[1..], [], words[0], w);
    assert [] + [words[0]] + words[1..] == words;
    JoinSplit(name);
  }

  lemma {:induction false} WrapFoldJoin(words: seq<string>, wrapped: seq<string>, current: string, w: int)
    requires current != ""
    requires forall k :: 0 <= k < |words| ==> words[k] != ""
    requires NoEmptyLine(wrapped)
    ensures |WrapFold(words, wrapped, current, w)| >= 1
    ensures NoEmptyLine(WrapFold(words, wrapped, current, w))
    ensures Join(WrapFold(words, wrapped, current, w)) == Join(wrapped + [current] + words)
  {
    if words == [] {
      assert wrapped + [current] + words == wrapped + [current];
    } else {
      var candidate := current + " " + words[0];
      if |candidate| > w {
        WrapFoldJoin(words[1..], wrapped + [current], words[0], w);
        assert WrapFold(words, wrapped, current, w) == WrapFold(words[1..], wrapped + [current], words[0], w);
        assert wrapped + [current] + [words[0]] + words[1..] == wrapped + [current] + words;
      } else {
        WrapFoldJoin(words[1..], wrapped, candidate, w);
        assert WrapFold(words, wrapped, current, w) == WrapFold(words[1..], wrapped, candidate, w);
        JoinMerge(wrapped, current, words[0], words[1..]);
        assert wrapped + [current, words[0]] + words[1..] == wrapped + [current] + words;
      }
    }
  }

  /** Joining is unaffected by whether two neighbours are joined first. */
  lemma JoinMerge(a: seq<string>, x: string, y: string, b: seq<string>)
    ensures Join(a + [x + " " + y] + b) == Join(a + [x, y] + b)
  {
    var z := x + " " + y;
    JoinPair(x, y, b);
    JoinAppend(a, [z] + b);
    JoinAppend(a, [x, y] + b);
    assert a + [z] + b == a + ([z] + b);
    assert a + [x, y] + b == a + ([x, y] + b);
  }

  lemma JoinPair(x: string, y: string, b: seq<string>)
    ensures Join([x + " " + y] + b) == Join([x, y] + b)
  {
    assert ([x + " " + y] + b)[1..] == b;
    assert ([x, y] + b)[1..] == [y] + b;
    assert ([y] + b)[1..] == b;
    if b == [] {
      assert Join([x, y] + b) == x + " " + y;
    } else {
      assert Join([x, y] + b) == x + " " + (y + " " + Join(b));
    }
  }

  /** The first space-free word at the start of a line. */
  function FirstWord(line: string): string
  {
    Split(line)[0]
  }

  /** Wrapping is greedy: a line is only broken when the next word, with its
      separating space, would overflow the width. */
  lemma WrapGreedy(name: string, w: int)
    requires SingleSpaced(name)
    ensures Greedy(Wrapped(name, w), w)
  {
    var words := Split(name);
    assert "" + "" + words[0] == words[0];
    SplitWord(words[0]);
    if |words[0]| > w {
      // The first word alone already overflows: an empty first line is pushed.
      assert [] + [""] == [""];
      assert WrapFold(words, [], "", w) == WrapFold(words[1..], [""], words[0], w);
      WrapFoldGreedy(words[1..], [""], words[0], w);
    } else {
      assert WrapFold(words, [], "", w) == WrapFold(words[1..], [], words[0], w);
      WrapFoldGreedy(words[1..], [], words[0], w);
    }
  }

  /** Greedy between finished lines, and between the last finished line and the line
      being filled. */
  ghost predicate GreedySoFar(wrapped: seq<string>, current: string, w: int)
  {
    && Greedy(wrapped, w)
    && (|wrapped| > 0 ==> |wrapped[|wrapped| - 1]| + 1 + |FirstWord(current)| > w)
  }

  lemma {:induction false} WrapFoldGreedy(words: seq<string>, wrapped: seq<string>, current: string, w: int)
    requires current != ""
    requires forall k :: 0 <= k < |words| ==> words[k] != "" && ' ' !in words[k]
    requires GreedySoFar(wrapped, current, w)
    ensures Greedy(WrapFold(words, wrapped, current, w), w)
  {
    if words == [] {
      var r := wrapped + [current];
      assert WrapFold(words, wrapped, current, w) == r;
      assert forall k :: 0 <= k < |wrapped| ==> r[k] == wrapped[k];
    } else {
      var candidate := current + " " + words[0];
      if |candidate| > w {
        SplitWord(words[0]);
        var wrapped' := wrapped + [current];
        assert forall k :: 0 <= k < |wrapped| ==> wrapped'[k] == wrapped[k];
        assert GreedySoFar(wrapped', words[0], w);
        WrapFoldGreedy(words[1..], wrapped', words[0], w);
        assert WrapFold(words, wrapped, current, w) == WrapFold(words[1..], wrapped', words[0], w);
      } else {
        FirstWordThen(current, words[0]);
        WrapFoldGreedy(words[1..], wrapped, candidate, w);
        assert WrapFold(words, wrapped, current, w) == WrapFold(words[1..], wrapped, candidate, w);
      }
    }
  }

  lemma {:induction false} FirstWordThen(x: string, y: string)
    ensures FirstWord(x + " " + y) == FirstWord(x)
  {
    if x == "" {
      assert (x + " " + y)[0] == ' ';
    } else if x[0] == ' ' {
      assert (x + " " + y)[0] == ' ';
    } else {
      assert (x + " " + y)[0] == x[0] && (x + " " + y)[1..] == x[1..] + " " + y;
      FirstWordThen(x[1..], y);
    }
  }

  // ---------------------------------------------------------------------------
  // The box
  // ---------------------------------------------------------------------------

  /** The wrapped lines that fit inside the box (`wrapped.slice(0, height - 2)`). */
  function Kept(a: Action, width: nat, height: nat): (kept: seq<string>)
    requires height >= 2
    ensures |kept| <= height - 2
  {
    var wrapped := Wrapped(a.name, width - 4);
    wrapped[..Min(|wrapped|, height - 2)]
  }

  /** The text centred on interior line `i`: the uppercased key on line 4 when the
      action has one, otherwise wrapped line `i - 1`, or nothing. */
  function Content(a: Action, width: nat, height: nat, i: nat): string
    requires height >= 2
  {
    if i == 4 && HasKey(a) then Upper(a.key.value)
    else
      var kept := Kept(a, width, height);
      if 1 <= i && i - 1 < |kept| then kept[i - 1] else ""
  }

  /** Every interior line's text fits in `width - 4` columns, so no padding count
      goes negative. */
  predicate Fits(a: Action, width: nat, height: nat)
    requires height >= 2
  {
    forall i :: 1 <= i < height - 1 ==> |Content(a, width, height, i)| + 4 <= width
  }

  function HighlightAll(lines: seq<string>): (r: seq<string>)
    ensures |r| == |lines|
    ensures forall i :: 0 <= i < |lines| ==> r[i] == Highlight(lines[i])
  {
    seq(|lines|, i requires 0 <= i < |lines| => Highlight(lines[i]))
  }

  /** Line `i` of the outline drawn for a grid slot past the end of the action list. */
  function EmptyLine(width: nat, height: nat, i: nat): (line: string)
    requires width >= 2
    ensures |line| == width
  {
    if i == 0 then Top(width) else if i == height - 1 then Bottom(width) else Blank(width)
  }

  function EmptyBox(width: nat, height: nat): (lines: seq<string>)
    requires width >= 2 && height >= 2
    ensures |lines| == height
  {
    seq(height, i requires 0 <= i < height => EmptyLine(width, height, i))
  }

  /** Line `i` of the unselected box of an action whose text fits. */
  function PlainLine(a: Action, width: nat, height: nat, i: nat): (line: string)
    requires width >= 2 && height >= 2 && i < height && Fits(a, width, height)
    ensures |line| == width
  {
    if i == 0 then Top(width)
    else if i == height - 1 then Bottom(width)
    else Interior(Content(a, width, height, i), width)
  }

  function PlainBox(a: Action, width: nat, height: nat): (lines: seq<string>)
    requires width >= 2 && height >= 2 && Fits(a, width, height)
    ensures |lines| == height
  {
    seq(height, i requires 0 <= i < height => PlainLine(a, width, height, i))
  }

  /** What `renderActionBox(action, selected, width, height)` returns or throws. */
  ghost function Box(action: Option<Action>, selected: bool, width: nat, height: nat): (r: Result<seq<string>>)
    requires width >= 2 && height >= 2
    ensures r.Ok? ==> |r.value| == height
  {
    match action
    case None => Ok(EmptyBox(width, height))
    case Some(a) =>
      if !Fits(a, width, height) then RangeError
      else if selected then Ok(HighlightAll(PlainBox(a, width, height)))
      else Ok(PlainBox(a, width, height))
  }

  /** The source's box renderer, filling an array of lines in place. */
  method RenderActionBox(action: Option<Action>, isSelected: bool, width: nat, height: nat)
    returns (r: Result<seq<string>>)
    requires width >= 2 && height >= 2
    ensures r == Box(action, isSelected, width, height)
  {
    var lines := new string[height];
    if action.None? {
      lines[0] := Top(width);
      lines[height - 1] := Bottom(width);
      for i := 1 to height - 1
        invariant lines[0] == Top(width) && lines[height - 1] == Bottom(width)
        invariant forall k :: 1 <= k < i ==> lines[k] == Blank(width)
      {
        lines[i] := Blank(width);
      }
      assert lines[..] == EmptyBox(width, height);
      return Ok(lines[..]);
    }
    var a := action.value;
    lines[0] := Top(width);
    lines[height - 1] := Bottom(width);
    var fits := FillInterior(lines, a, width, height);
    if !fits {
      return RangeError;
    }
    assert forall k :: 0 <= k < height ==> lines[k] == PlainBox(a, width, height)[k];
    assert lines[..] == PlainBox(a, width, height);
    if isSelected {
      HighlightLines(lines);
    }
    return Ok(lines[..]);
  }

  /** The interior loop of the box renderer: wraps the label and writes the centred
      text, or the key, onto lines 1 to `height - 2`, stopping where a padding count
      goes negative. */
  method FillInterior(lines: array<string>, a: Action, width: nat, height: nat) returns (fits: bool)
    requires width >= 2 && height >= 2 && lines.Length == height
    modifies lines
    ensures fits == Fits(a, width, height)
    ensures lines[0] == old(lines[0]) && lines[height - 1] == old(lines[height - 1])
    ensures fits ==> forall k :: 1 <= k < height - 1 ==> lines[k] == Interior(Content(a, width, height, k), width)
  {
    var wrapWidth := width - 4;
    var wrapped := Wrap(a.name, wrapWidth);
    wrapped := wrapped[..Min(|wrapped|, height - 2)];
    assert wrapped == Kept(a, width, height);

    for i := 1 to height - 1
      invariant lines[0] == old(lines[0]) && lines[height - 1] == old(lines[height - 1])
      invariant forall k :: 1 <= k < i ==> |Content(a, width, height, k)| + 4 <= width
      invariant forall k :: 1 <= k < i ==> lines[k] == Interior(Content(a, width, height, k), width)
    {
      var content := if i - 1 < |wrapped| then wrapped[i - 1] else "";
      if i == 4 && HasKey(a) {
        content := Upper(a.key.value);
      }
      assert content == Content(a, width, height, i);
      var line := PadLine(content, width);
      if line.RangeError? {
        return false;
      }
      lines[i] := line.value;
    }
    assert Fits(a, width, height);
    return true;
  }

  /** One interior line: `content` centred between the borders, or the
      `RangeError` that `' '.repeat` throws when a padding count is negative. */
  method PadLine(content: string, width: nat) returns (line: Result<string>)
    ensures line == if |content| + 4 <= width then Ok(Interior(content, width)) else RangeError
  {
    var wrapWidth := width - 4;
    var pad := wrapWidth - |content|;
    var padLeft := pad / 2;
    var padRight := pad - padLeft;
    if padLeft < 0 || padRight < 0 {
      return RangeError;
    }
    var centred := Repeat(' ', padLeft) + content + Repeat(' ', padRight);
    assert centred == Centre(content, wrapWidth);
    return Ok([Vertical, ' '] + centred + [' ', Vertical]);
  }

  /** The selection loop: every line is rewritten into per-character inverse video. */
  method HighlightLines(lines: array<string>)
    modifies lines
    ensures lines[..] == HighlightAll(old(lines[..]))
  {
    for i := 0 to lines.Length
      invariant forall k :: 0 <= k < i ==> lines[k] == Highlight(old(lines[k]))
      invariant forall k :: i <= k < lines.Length ==> lines[k] == old(lines[k])
    {
      lines[i] := Highlight(lines[i]);
    }
  }

  // ---------------------------------------------------------------------------
  // Properties of the box
  // ---------------------------------------------------------------------------

  /** An unselected box that renders has `height` lines of exactly `width`
      characters, with the corner-and-edge borders on its first and last line and
      vertical borders on every interior line. */
  lemma BoxShape(action: Option<Action>, width: nat, height: nat)
    requires width >= 2 && height >= 2
    requires Box(action, false, width, height).Ok?
    ensures var lines := Box(action, false, width, height).value;
      && |lines| == height
      && lines[0] == Top(width) && lines[height - 1] == Bottom(width)
      && (forall i :: 0 <= i < height ==> |lines[i]| == width)
      && (forall i :: 0 < i < height - 1 ==> lines[i][0] == Vertical && lines[i][width - 1] == Vertical)
  {
    match action
    case None =>
    case Some(a) =>
  }

  /** An empty cell never throws and is never highlighted: it is the outline with
      blank interior lines. */
  lemma EmptyBoxNeverHighlighted(width: nat, height: nat)
    requires width >= 2 && height >= 2
    ensures Box(None, true, width, height) == Box(None, false, width, height)
    ensures Box(None, true, width, height).Ok?
    ensures var lines := Box(None, true, width, height).value;
      && lines[0] == Top(width) && lines[height - 1] == Bottom(width)
      && forall i :: 0 < i < height - 1 ==> lines[i] == Blank(width)
  {
  }

  /** A box renders without throwing when every word of the label fits in
      `width - 4` columns and, where the key row is shown, so does the key. */
  lemma BoxRendersWhenLabelFits(a: Action, selected: bool, width: nat, height: nat)
    requires width >= 4 && height >= 2
    requires WordsFit(a.name, width - 4)
    requires HasKey(a) && height >= 6 ==> |a.key.value| + 4 <= width
    ensures Box(Some(a), selected, width, height).Ok?
  {
    WrapLinesFit(a.name, width - 4);
    forall i | 1 <= i < height - 1
      ensures |Content(a, width, height, i)| + 4 <= width
    {
    }
  }

  /** A box fails exactly when some interior line has more text than `width - 4`
      columns, whether or not it is selected. */
  lemma BoxFailsIffOverflow(a: Action, selected: bool, width: nat, height: nat)
    requires width >= 2 && height >= 2
    ensures Box(Some(a), selected, width, height) == RangeError
        <==> exists i :: 1 <= i < height - 1 && |Content(a, width, height, i)| + 4 > width
  {
  }

  /** With a key, interior line 4 shows the uppercased key centred, whatever the
      label is. */
  lemma KeyRowIgnoresLabel(a: Action, otherName: string, selected: bool, width: nat, height: nat)
    requires width >= 2 && height >= 6 && HasKey(a)
    requires Box(Some(a), selected, width, height).Ok?
    requires Box(Some(a.(name := otherName)), selected, width, height).Ok?
    ensures Box(Some(a), selected, width, height).value[4]
         == Box(Some(a.(name := otherName)), selected, width, height).value[4]
    ensures !selected ==>
      Box(Some(a), selected, width, height).value[4] == Interior(Upper(a.key.value), width)
  {
  }

  /** The first interior lines of a box show the wrapped label in order; the key row
      is the only one that can differ. */
  lemma BoxShowsWrappedLabel(a: Action, width: nat, height: nat, k: nat)
    requires width >= 2 && height >= 2
    requires Box(Some(a), false, width, height).Ok?
    requires k < |Wrapped(a.name, width - 4)| && k < height - 2
    requires !(k == 3 && HasKey(a))
    ensures |Wrapped(a.name, width - 4)[k]| + 4 <= width
    ensures Box(Some(a), false, width, height).value[k + 1] == Interior(Wrapped(a.name, width - 4)[k], width)
  {
    assert Content(a, width, height, k + 1) == Wrapped(a.name, width - 4)[k];
  }

  /** Selection wraps every character of every line in its own inverse-video run:
      stripping those escapes gives back the unselected box, line by line. */
  lemma SelectedBoxStrips(a: Action, width: nat, height: nat)
    requires width >= 2 && height >= 2
    requires Box(Some(a), true, width, height).Ok?
    ensures Box(Some(a), false, width, height).Ok?
    ensures var sel := Box(Some(a), true, width, height).value;
      var plain := Box(Some(a), false, width, height).value;
      forall i :: 0 <= i < height ==> Strip(sel[i]) == plain[i]
  {
    var sel := Box(Some(a), true, width, height).value;
    var plain := Box(Some(a), false, width, height).value;
    forall i | 0 <= i < height
      ensures Strip(sel[i]) == plain[i]
    {
      StripHighlight(plain[i]);
    }
  }
}
