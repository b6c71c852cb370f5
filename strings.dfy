/** String operations of the JavaScript runtime that the action selector relies on:
    `repeat`, `split(' ')`, ASCII case mapping and the per-character inverse-video
    rewrite done by `replace(/./g, ...)`; `Join` (`join(' ')`) is the inverse of
    `split(' ')`, used to state the word-wrap round trip. */
module Strings {

  /** `c` repeated `n` times, as `c.repeat(n)` for a one-character string. */
  function Repeat(c: char, n: nat): (r: string)
    ensures |r| == n
    ensures forall i :: 0 <= i < n ==> r[i] == c
  {
    if n == 0 then "" else [c] + Repeat(c, n - 1)
  }

  // ---------------------------------------------------------------------------
  // split(' ') and its inverse join(' ')
  // ---------------------------------------------------------------------------

  /** The pieces of `s` between single spaces, as `s.split(' ')`: there is always at
      least one piece, and consecutive spaces give empty pieces. */
  function Split(s: string): (words: seq<string>)
    ensures |words| >= 1
    ensures forall k :: 0 <= k < |words| ==> ' ' !in words[k]
  {
    if s == "" then [""]
    else if s[0] == ' ' then [""] + Split(s[1..])
    else
      var t := Split(s[1..]);
      [[s[0]] + t[0]] + t[1..]
  }

  /** `words.join(' ')`. */
  function Join(words: seq<string>): string
  {
    if |words| == 0 then ""
    else if |words| == 1 then words[0]
    else words[0] + " " + Join(words[1..])
  }

  /** Joining the pieces of a split gives back the original string. */
  lemma {:induction false} JoinSplit(s: string)
    ensures Join(Split(s)) == s
  {
    if s == "" {
    } else if s[0] == ' ' {
      JoinSplit(s[1..]);
      assert Split(s)[1..] == Split(s[1..]);
    } else {
      var t := Split(s[1..]);
      JoinSplit(s[1..]);
      var w := Split(s);
      assert w[0] == [s[0]] + t[0];
      assert w[1..] == t[1..];
      if |t| == 1 {
        assert Join(w) == [s[0]] + t[0];
      } else {
        assert Join(t) == t[0] + " " + Join(t[1..]);
        assert Join(w) == w[0] + " " + Join(w[1..]);
      }
    }
  }

  /** Splitting a join of space-free words gives back those words. */
  lemma {:induction false} SplitJoin(words: seq<string>)
    requires |words| >= 1
    requires forall k :: 0 <= k < |words| ==> ' ' !in words[k]
    ensures Split(Join(words)) == words
  {
    if |words| == 1 {
      SplitWord(words[0]);
    } else {
      SplitJoin(words[1..]);
      SplitWordThen(words[0], Join(words[1..]));
    }
  }

  lemma {:induction false} SplitWord(w: string)
    requires ' ' !in w
    ensures Split(w) == [w]
  {
    if w != "" {
      assert w[0] in w;
      SplitWord(w[1..]);
      assert [w[0]] + w[1..] == w;
    }
  }

  lemma {:induction false} SplitWordThen(w: string, rest: string)
    requires ' ' !in w
    ensures Split(w + " " + rest) == [w] + Split(rest)
  {
    if w == "" {
      assert (w + " " + rest)[1..] == rest;
    } else {
      var s := w + " " + rest;
      assert w[0] in w;
      assert s[0] == w[0] && s[1..] == w[1..] + " " + rest;
      SplitWordThen(w[1..], rest);
      assert [w[0]] + w[1..] == w;
    }
  }

  /** Joining a concatenation puts one space between the two joined halves. */
  lemma {:induction false} JoinAppend(a: seq<string>, b: seq<string>)
    ensures Join(a + b) == if a == [] then Join(b) else if b == [] then Join(a) else Join(a) + " " + Join(b)
  {
    if a == [] {
      assert a + b == b;
    } else if b == [] {
      assert a + b == a;
    } else if |a| == 1 {
      assert (a + b)[1..] == b;
    } else {
      assert (a + b)[1..] == a[1..] + b;
      JoinAppend(a[1..], b);
    }
  }

  // ---------------------------------------------------------------------------
  // toLowerCase / toUpperCase (ASCII letters)
  // ---------------------------------------------------------------------------

  function LowerChar(c: char): char
  {
    if 'A' <= c <= 'Z' then (c as int + 32) as char else c
  }

  function UpperChar(c: char): char
  {
    if 'a' <= c <= 'z' then (c as int - 32) as char else c
  }

  /** `s.toLowerCase()` restricted to ASCII letters. */
  function Lower(s: string): (r: string)
    ensures |r| == |s|
    ensures forall i :: 0 <= i < |s| ==> r[i] == LowerChar(s[i])
  {
    seq(|s|, i requires 0 <= i < |s| => LowerChar(s[i]))
  }

  /** `s.toUpperCase()` restricted to ASCII letters. */
  function Upper(s: string): (r: string)
    ensures |r| == |s|
    ensures forall i :: 0 <= i < |s| ==> r[i] == UpperChar(s[i])
  {
    seq(|s|, i requires 0 <= i < |s| => UpperChar(s[i]))
  }

  // ---------------------------------------------------------------------------
  // Inverse video, one run per character
  // ---------------------------------------------------------------------------

  const Esc: char := 27 as char
  /** The SGR sequences ESC[7m (inverse video on) and ESC[0m (reset). */
  const InverseOn: string := [Esc, '[', '7', 'm']
  const ResetAll: string := [Esc, '[', '0', 'm']

  /** The characters that the regular expression `.` does not match. */
  predicate IsLineTerminator(c: char)
  {
    c == '\n' || c == '\r' || c == '\U{2028}' || c == '\U{2029}'
  }

  /** `s.replace(/./g, ch => ESC[7m + ch + ESC[0m)`: every character other than a
      line terminator is wrapped in its own inverse-video run. */
  function Highlight(s: string): (r: string)
  {
    if s == "" then ""
    else (if IsLineTerminator(s[0]) then [s[0]] else InverseOn + [s[0]] + ResetAll) + Highlight(s[1..])
  }

  /** Removes every ESC[7m x ESC[0m wrapper, keeping the wrapped character. */
  function Strip(t: string): string
  {
    if |t| >= 9 && t[..4] == InverseOn && t[5..9] == ResetAll then [t[4]] + Strip(t[9..])
    else if t == "" then ""
    else [t[0]] + Strip(t[1..])
  }

  /** Stripping the escapes from a highlighted string gives back the string. */
  lemma {:induction false} StripHighlight(s: string)
    ensures Strip(Highlight(s)) == s
  {
    if s != "" {
      StripHighlight(s[1..]);
      var t := Highlight(s);
      if IsLineTerminator(s[0]) {
        assert t == [s[0]] + Highlight(s[1..]);
        assert t[0] != Esc;
        assert t[1..] == Highlight(s[1..]);
      } else {
        assert t == InverseOn + [s[0]] + ResetAll + Highlight(s[1..]);
        assert t[..4] == InverseOn && t[4] == s[0] && t[5..9] == ResetAll;
        assert t[9..] == Highlight(s[1..]);
      }
    }
  }

  /** Each character of a line-terminator-free string costs nine characters when
      highlighted. */
  lemma {:induction false} HighlightLength(s: string)
    requires forall i :: 0 <= i < |s| ==> !IsLineTerminator(s[i])
    ensures |Highlight(s)| == 9 * |s|
  {
    if s != "" {
      HighlightLength(s[1..]);
    }
  }
}
