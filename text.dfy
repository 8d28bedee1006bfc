/** The Text draw spec: splits its text at single spaces, wraps the words
    greedily into lines that fit the component's inner width, renders each
    line with the text's alignment and paints the rendered lines, one glyph
    per cell, inside the component's one-cell margin. */
module Text {
  import opened Base
  import opened Surface

  datatype TextAlignment = Left | Center | Right | Justify

  /** `n` spaces, the string `strings.Repeat(" ", n)` builds for a count
      that is not negative. */
  function Spaces(n: nat): (s: string)
    ensures |s| == n
    ensures forall k :: 0 <= k < n ==> s[k] == ' '
  {
    seq(n, _ => ' ')
  }

  /** The words separated by single spaces (`strings.Join(words, " ")`). */
  function Join(words: seq<string>): string
  {
    if |words| == 0 then ""
    else if |words| == 1 then words[0]
    else Join(words[..|words| - 1]) + " " + words[|words| - 1]
  }

  /** The number of characters in all the words together. */
  function TotalLength(words: seq<string>): nat
  {
    if words == [] then 0 else TotalLength(words[..|words| - 1]) + |words[|words| - 1]|
  }

  /** A join is as long as its words plus one separator between each two. */
  lemma {:induction false} JoinLength(words: seq<string>)
    requires |words| >= 1
    ensures |Join(words)| == TotalLength(words) + |words| - 1
  {
    if |words| > 1 {
      JoinLength(words[..|words| - 1]);
    }
  }

  /** `strings.Split(s, " ")`: the pieces between single spaces, empty pieces
      included, so there is always one more piece than there are spaces. */
  function Split(s: string): (words: seq<string>)
    ensures |words| >= 1
    ensures forall k :: 0 <= k < |words| ==> ' ' !in words[k]
  {
    if s == [] then [""]
    else
      var rest := Split(s[1..]);
      if s[0] == ' ' then [""] + rest
      else [[s[0]] + rest[0]] + rest[1..]
  }

  /** Joining prepends one word and a separator. */
  lemma {:induction false} JoinCons(w: string, words: seq<string>)
    requires |words| >= 1
    ensures Join([w] + words) == w + " " + Join(words)
  {
    if |words| > 1 {
      var n := |words|;
      assert ([w] + words)[..n] == [w] + words[..n - 1];
      JoinCons(w, words[..n - 1]);
    }
  }

  /** Joining after growing the first word at its front grows the join at
      its front. */
  lemma {:induction false} JoinExtendHead(c: char, words: seq<string>)
    requires |words| >= 1
    ensures Join([[c] + words[0]] + words[1..]) == [c] + Join(words)
  {
    if |words| > 1 {
      var n := |words|;
      var grown := [[c] + words[0]] + words[1..];
      assert grown[..n - 1] == [[c] + words[0]] + words[1..n - 1];
      assert words[..n - 1][1..] == words[1..n - 1];
      JoinExtendHead(c, words[..n - 1]);
    }
  }

  /** Split and Join are inverse: joining the pieces with single spaces gives
      back the text. */
  lemma {:induction false} JoinSplit(s: string)
    ensures Join(Split(s)) == s
  {
    if s != [] {
      var rest := Split(s[1..]);
      JoinSplit(s[1..]);
      if s[0] == ' ' {
        JoinCons("", rest);
      } else {
        JoinExtendHead(s[0], rest);
      }
      assert s == [s[0]] + s[1..];
    }
  }

  /** The other direction: splitting a join of space-free words gives back
      the words. */
  lemma {:induction false} SplitJoin(words: seq<string>)
    requires |words| >= 1
    requires forall k :: 0 <= k < |words| ==> ' ' !in words[k]
    ensures Split(Join(words)) == words
  {
    if |words| == 1 {
      SplitWord(words[0]);
    } else {
      var n := |words|;
      SplitJoin(words[..n - 1]);
      SplitAppend(Join(words[..n - 1]), words[n - 1]);
      assert words == words[..n - 1] + [words[n - 1]];
    }
  }

  /** A space-free string is a single piece. */
  lemma {:induction false} SplitWord(w: string)
    requires ' ' !in w
    ensures Split(w) == [w]
  {
    if w != [] {
      SplitWord(w[1..]);
      assert w == [w[0]] + w[1..];
    }
  }

  /** Splitting `s + " " + w` for a space-free `w` adds `w` as a last piece. */
  lemma {:induction false} SplitAppend(s: string, w: string)
    requires ' ' !in w
    ensures Split(s + " " + w) == Split(s) + [w]
  {
    if s == [] {
      SplitWord(w);
      assert [' '] + w == " " + w;
      assert (" " + w)[1..] == w;
    } else {
      assert (s + " " + w)[1..] == s[1..] + " " + w;
      SplitAppend(s[1..], w);
    }
  }

  // ---------------------------------------------------------------------
  // Word wrapping

  /** All the lines' words in order. */
  function Flatten(lines: seq<seq<string>>): seq<string>
  {
    if lines == [] then [] else Flatten(lines[..|lines| - 1]) + lines[|lines| - 1]
  }

  /** The running length `Draw` keeps for line `index` holding `line`: the
      joined words, plus one cell on the first line, whose every word (the
      first one too) is charged a separator. */
  function Used(index: nat, line: seq<string>): int
  {
    if line == [] then 0
    else if index == 0 then |Join(line)| + 1
    else |Join(line)|
  }

  /** `lines` is the greedy wrapping of `words` into `width` cells: the lines
      hold the words in order; only the first line may be empty (when the
      first word alone is too long for it); every line fits, except that a
      line after the first holding a single word may overflow; and no line
      could have taken the next line's first word. */
  ghost predicate GreedyWrap(words: seq<string>, width: int, lines: seq<seq<string>>)
  {
    && Flatten(lines) == words
    && (words == [] ==> lines == [])
    && (forall j :: 1 <= j < |lines| ==> lines[j] != [])
    && (|lines| >= 1 ==> lines[|lines| - 1] != [])
    && (forall j :: 0 <= j < |lines| && lines[j] != [] && (j == 0 || |lines[j]| >= 2) ==>
          Used(j, lines[j]) <= width)
    && (forall j :: 0 <= j < |lines| - 1 ==> Used(j, lines[j]) + |lines[j + 1][0]| + 1 > width)
  }

  lemma {:induction false} UsedAppend(index: nat, line: seq<string>, w: string)
    ensures Used(index, line + [w]) == Used(index, line) + |w| + (if line == [] && index != 0 then 0 else 1)
  {
    assert (line + [w])[..|line|] == line;
  }

  lemma {:induction false} FlattenAppend(lines: seq<seq<string>>, line: seq<string>)
    ensures Flatten(lines + [line]) == Flatten(lines) + line
  {
    assert (lines + [line])[..|lines|] == lines;
  }

  /** The state of the wrapping loop after the words `done`: the finished
      `lines` and the line `current` being filled obey the greedy rules. */
  ghost predicate Wrapping(done: seq<string>, width: int, lines: seq<seq<string>>, current: seq<string>)
  {
    && Flatten(lines) + current == done
    && (|lines| >= 1 ==> current != [])
    && (forall j :: 1 <= j < |lines| ==> lines[j] != [])
    && (forall j :: 0 <= j < |lines| && lines[j] != [] && (j == 0 || |lines[j]| >= 2) ==>
          Used(j, lines[j]) <= width)
    && (current != [] && (|lines| == 0 || |current| >= 2) ==> Used(|lines|, current) <= width)
    && (forall j :: 0 <= j < |lines| - 1 ==> Used(j, lines[j]) + |lines[j + 1][0]| + 1 > width)
    && (|lines| >= 1 ==> Used(|lines| - 1, lines[|lines| - 1]) + |current[0]| + 1 > width)
  }

  /** A word that does not fit closes the current line and starts the next. */
  lemma {:induction false} WrapBreak(done: seq<string>, width: int, lines: seq<seq<string>>, current: seq<string>, w: string)
    requires Wrapping(done, width, lines, current)
    requires Used(|lines|, current) + |w| + 1 > width
    ensures Wrapping(done + [w], width, lines + [current], [w])
    ensures Used(|lines| + 1, [w]) == |w|
  {
    var all := lines + [current];
    FlattenAppend(lines, current);
    assert Flatten(all) + [w] == done + [w];
    forall j | 1 <= j < |all|
      ensures all[j] != []
    {
      if j < |lines| {
        assert all[j] == lines[j];
      }
    }
    forall j | 0 <= j < |all| && all[j] != [] && (j == 0 || |all[j]| >= 2)
      ensures Used(j, all[j]) <= width
    {
      if j < |lines| {
        assert all[j] == lines[j];
      }
    }
    forall j | 0 <= j < |all| - 1
      ensures Used(j, all[j]) + |all[j + 1][0]| + 1 > width
    {
      assert all[j] == lines[j];
      if j + 1 < |lines| {
        assert all[j + 1] == lines[j + 1];
      }
    }
    assert all[|all| - 1] == current;
  }

  /** A word that fits joins the current line. */
  lemma {:induction false} WrapAppend(done: seq<string>, width: int, lines: seq<seq<string>>, current: seq<string>, w: string)
    requires Wrapping(done, width, lines, current)
    requires Used(|lines|, current) + |w| + 1 <= width
    ensures Wrapping(done + [w], width, lines, current + [w])
    ensures Used(|lines|, current + [w]) == Used(|lines|, current) + |w| + 1
  {
    UsedAppend(|lines|, current, w);
    assert Flatten(lines) + (current + [w]) == (Flatten(lines) + current) + [w];
  }

  /** Closing the last, non-empty line ends in a greedy wrapping. */
  lemma {:induction false} WrapFinish(words: seq<string>, width: int, lines: seq<seq<string>>, current: seq<string>)
    requires Wrapping(words, width, lines, current)
    ensures GreedyWrap(words, width, if current != [] then lines + [current] else lines)
  {
    if current != [] {
      WrapClose(words, width, lines, current);
    } else {
      assert lines == [];
    }
  }

  /** Closing a non-empty last line. */
  lemma {:induction false} WrapClose(words: seq<string>, width: int, lines: seq<seq<string>>, current: seq<string>)
    requires Wrapping(words, width, lines, current) && current != []
    ensures GreedyWrap(words, width, lines + [current])
  {
    var all := lines + [current];
    FlattenAppend(lines, current);
    assert Flatten(all) == words;
    forall j | 1 <= j < |all|
      ensures all[j] != []
    {
      if j < |lines| {
        assert all[j] == lines[j];
      }
    }
    assert all[|all| - 1] == current;
    ClosedFit(words, width, lines, current);
    ClosedFull(words, width, lines, current);
  }

  /** The lines closed at the end fit as the greedy rules demand. */
  lemma {:induction false} ClosedFit(words: seq<string>, width: int, lines: seq<seq<string>>, current: seq<string>)
    requires Wrapping(words, width, lines, current) && current != []
    ensures var all := lines + [current];
      forall j :: 0 <= j < |all| && all[j] != [] && (j == 0 || |all[j]| >= 2) ==> Used(j, all[j]) <= width
  {
    var all := lines + [current];
    forall j | 0 <= j < |all| && all[j] != [] && (j == 0 || |all[j]| >= 2)
      ensures Used(j, all[j]) <= width
    {
      if j < |lines| {
        assert all[j] == lines[j];
      }
    }
  }

  /** No line closed at the end could have taken the next line's first word. */
  lemma {:induction false} ClosedFull(words: seq<string>, width: int, lines: seq<seq<string>>, current: seq<string>)
    requires Wrapping(words, width, lines, current) && current != []
    ensures var all := lines + [current];
      forall j :: 0 <= j < |all| - 1 ==> Used(j, all[j]) + |all[j + 1][0]| + 1 > width
  {
    var all := lines + [current];
    forall j | 0 <= j < |all| - 1
      ensures Used(j, all[j]) + |all[j + 1][0]| + 1 > width
    {
      assert all[j] == lines[j];
      if j + 1 < |lines| {
        assert all[j + 1] == lines[j + 1];
      }
    }
  }

  /** The wrapping loop of `Text.Draw`. */
  method WrapWords(words: seq<string>, width: int) returns (lines: seq<seq<string>>)
    ensures GreedyWrap(words, width, lines)
  {
    lines := [];
    var currentLength := 0;
    var currentLine: seq<string> := [];
    var k := 0;
    while k < |words|
      invariant 0 <= k <= |words|
      invariant Wrapping(words[..k], width, lines, currentLine)
      invariant currentLength == Used(|lines|, currentLine)
    {
      assert words[..k + 1] == words[..k] + [words[k]];
      lines, currentLine, currentLength := WrapWord(words[..k], width, lines, currentLine, currentLength, words[k]);
      k := k + 1;
    }
    assert words[..k] == words;
    WrapFinish(words, width, lines, currentLine);
    if |currentLine| > 0 {
      lines := lines + [currentLine];
    }
  }

  /** The body of the wrapping loop: word `w` either joins the current line
      or, when it does not fit, closes it and starts the next. */
  method WrapWord(done: seq<string>, width: int, lines: seq<seq<string>>, currentLine: seq<string>,
                  currentLength: int, w: string)
    returns (lines': seq<seq<string>>, currentLine': seq<string>, currentLength': int)
    requires Wrapping(done, width, lines, currentLine)
    requires currentLength == Used(|lines|, currentLine)
    ensures Wrapping(done + [w], width, lines', currentLine')
    ensures currentLength' == Used(|lines'|, currentLine')
  {
    if currentLength + |w| + 1 > width {
      WrapBreak(done, width, lines, currentLine, w);
      lines', currentLine', currentLength' := lines + [currentLine], [w], |w|;
    } else {
      WrapAppend(done, width, lines, currentLine, w);
      lines', currentLine', currentLength' := lines, currentLine + [w], currentLength + |w| + 1;
    }
  }

  // ---------------------------------------------------------------------
  // Line rendering

  /** The extra spaces (beyond the one every gap has) that gap `j` of `gaps`
      holds after `steps` rounds of the justify loop. The loop hands out one
      space per round, cycling over the gaps 0 .. gaps - 2, so the last gap
      never gets one; a single gap is handed every round. */
  function Extra(gaps: nat, steps: nat, j: nat): nat
    requires gaps >= 1
  {
    if gaps == 1 then steps
    else if j < gaps - 1 then steps / (gaps - 1) + (if j < steps % (gaps - 1) then 1 else 0)
    else 0
  }

  function Extras(gaps: nat, steps: nat): (extras: seq<nat>)
    requires gaps >= 1
    ensures |extras| == gaps
  {
    seq(gaps, j requires 0 <= j => Extra(gaps, steps, j))
  }

  /** One more round adds a space to gap `steps % (gaps - 1)` only. */
  lemma {:induction false} ExtraStep(gaps: nat, steps: nat, j: nat)
    requires gaps >= 2
    ensures Extra(gaps, steps + 1, j) == Extra(gaps, steps, j) + (if j == steps % (gaps - 1) then 1 else 0)
  {
    var m := gaps - 1;
    var q, r := steps / m, steps % m;
    if r == m - 1 {
      DivModUnique(steps + 1, m, q + 1, 0);
    } else {
      DivModUnique(steps + 1, m, q, r + 1);
    }
  }

  /** One round of the loop as a change to the whole gap sequence. */
  lemma {:induction false} ExtrasStep(gaps: nat, steps: nat)
    requires gaps >= 2
    ensures var l := steps % (gaps - 1); var before := Extras(gaps, steps);
      Extras(gaps, steps + 1) == before[l := before[l] + 1]
  {
    var l := steps % (gaps - 1);
    var before, after := Extras(gaps, steps), Extras(gaps, steps + 1);
    var updated := before[l := before[l] + 1];
    forall j | 0 <= j < gaps
      ensures after[j] == updated[j]
    {
      ExtraStep(gaps, steps, j);
    }
  }

  /** The rounds hand out exactly `steps` spaces in all. */
  lemma {:induction false} ExtrasSum(gaps: nat, steps: nat)
    requires gaps >= 1
    ensures Sum(Extras(gaps, steps)) == steps
  {
    if gaps == 1 {
      assert Extras(gaps, steps)[..0] == [];
    } else if steps == 0 {
      ZeroSum(Extras(gaps, 0));
    } else {
      var before := Extras(gaps, steps - 1);
      ExtrasSum(gaps, steps - 1);
      ExtrasStep(gaps, steps - 1);
      SumUpdate(before, (steps - 1) % (gaps - 1), 1);
    }
  }

  lemma {:induction false} ZeroSum(s: seq<int>)
    requires forall k :: 0 <= k < |s| ==> s[k] == 0
    ensures Sum(s) == 0
  {
    if s != [] {
      ZeroSum(s[..|s| - 1]);
    }
  }

  /** The words with gap `j` between words `j` and `j + 1` made of one space
      plus `extras[j]` more. */
  function Spaced(words: seq<string>, extras: seq<nat>): string
    requires |words| >= 1 && |extras| == |words| - 1
  {
    if |words| == 1 then words[0]
    else
      var n := |words|;
      Spaced(words[..n - 1], extras[..n - 2]) + Spaces(extras[n - 2] + 1) + words[n - 1]
  }

  lemma {:induction false} SpacedLength(words: seq<string>, extras: seq<nat>)
    requires |words| >= 1 && |extras| == |words| - 1
    ensures |Spaced(words, extras)| == TotalLength(words) + Sum(extras) + |words| - 1
  {
    if |words| > 1 {
      var n := |words|;
      SpacedLength(words[..n - 1], extras[..n - 2]);
      assert extras[..n - 2] == extras[..|extras| - 1];
    }
  }

  /** With no extra spaces a spaced line is the plain join. */
  lemma {:induction false} SpacedNoExtras(words: seq<string>, extras: seq<nat>)
    requires |words| >= 1 && |extras| == |words| - 1
    requires forall k :: 0 <= k < |extras| ==> extras[k] == 0
    ensures Spaced(words, extras) == Join(words)
  {
    if |words| > 1 {
      var n := |words|;
      SpacedNoExtras(words[..n - 1], extras[..n - 2]);
      assert Spaces(1) == " ";
    }
  }

  /** What `RenderLine` returns for one wrapped line, or the panic it raises:
      `strings.Repeat` with a negative count when a right- or centre-aligned
      line is wider than the width, and an index out of range when a
      two-word justified line is two or more cells short. */
  function Rendered(words: seq<string>, alignment: TextAlignment, width: int): Result<string>
  {
    if |words| == 0 then Ok("")
    else
      var s := Join(words);
      match alignment
      case Left => Ok(s)
      case Right =>
        if width - |s| < 0 then Panic(NegativeRepeatCount) else Ok(Spaces(width - |s|) + s)
      case Center =>
        var before := TruncDiv(width - |s|, 2);
        var after := (width - |s|) - before;
        if before < 0 || after < 0 then Panic(NegativeRepeatCount)
        else Ok(Spaces(before) + s + Spaces(after))
      case Justify =>
        if |words| == 1 then Ok(words[0])
        else
          var steps := if width - |s| > 0 then width - |s| else 0;
          if |words| == 2 && steps >= 2 then Panic(IndexOutOfRange)
          else Ok(Spaced(words, Extras(|words| - 1, steps)))
  }

  /** `RenderLine`: lays one wrapped line out in `width` cells. */
  method RenderLine(words: seq<string>, alignment: TextAlignment, width: int) returns (res: Result<string>)
    ensures res == Rendered(words, alignment, width)
  {
    if |words| == 0 {
      return Ok("");
    }
    match alignment {
      case Left =>
        res := Ok(Join(words));
      case Right =>
        var s := Join(words);
        if width - |s| < 0 {
          return Panic(NegativeRepeatCount);
        }
        res := Ok(Spaces(width - |s|) + s);
      case Center =>
        var s := Join(words);
        var spacesBefore := TruncDiv(width - |s|, 2);
        var spacesAfter := (width - |s|) - spacesBefore;
        if spacesBefore < 0 || spacesAfter < 0 {
          return Panic(NegativeRepeatCount);
        }
        res := Ok(Spaces(spacesBefore) + s + Spaces(spacesAfter));
      case Justify =>
        if |words| == 1 {
          return Ok(words[0]);
        }
        var spaces := JustifySpaces(|words| - 1, width - |Join(words)|);
        if spaces.None? {
          return Panic(IndexOutOfRange);
        }
        var line := JoinSpaced(words, spaces.value);
        res := Ok(line);
    }
  }

  /** The first loop of the justify case: hands the `fill` missing cells out
      round-robin over the gaps; `None` is the out-of-range index it hits
      when there is a single gap and two or more cells to hand out. */
  method JustifySpaces(gaps: nat, fill: int) returns (spaces: Option<seq<nat>>)
    requires gaps >= 1
    ensures var steps := if fill > 0 then fill else 0;
      if gaps == 1 && steps >= 2 then spaces == None else spaces == Some(Extras(gaps, steps))
  {
    var counts := new nat[gaps](_ => 0);
    var fillLength := fill;
    var i := 0;
    ghost var steps := 0;
    assert counts[..] == Extras(gaps, 0);
    while fillLength > 0
      invariant steps >= 0
      invariant if fill > 0 then fillLength == fill - steps && fillLength >= 0 else steps == 0 && fillLength == fill
      invariant counts.Length == gaps && RoundState(counts[..], i, steps)
      decreases fillLength
    {
      var ok;
      i, ok := JustifyRound(counts, i, steps);
      if !ok {
        return None;
      }
      fillLength := fillLength - 1;
      steps := steps + 1;
    }
    spaces := Some(counts[..]);
  }

  /** The justify loop's state after `steps` rounds: the gap counts so far,
      and the index `i` in step with the rounds. */
  ghost predicate RoundState(counts: seq<nat>, i: int, steps: nat)
  {
    && |counts| >= 1
    && counts == Extras(|counts|, steps)
    && (|counts| == 1 ==> i == steps && steps <= 1)
    && (|counts| >= 2 ==> 0 <= i <= |counts| - 1 && (if i == |counts| - 1 then 0 else i) == steps % (|counts| - 1))
  }

  /** One round of the justify loop: wraps the index around before the last
      gap, adds a space to the gap it lands on and moves on; `ok` is false
      when the index is out of range, which only a single gap can reach. */
  method JustifyRound(counts: array<nat>, i: int, ghost steps: nat) returns (next: int, ok: bool)
    requires RoundState(counts[..], i, steps)
    modifies counts
    ensures ok ==> RoundState(counts[..], next, steps + 1)
    ensures !ok ==> counts.Length == 1 && steps == 1
  {
    var j := i;
    if j == counts.Length - 1 {
      j := 0;
    }
    if j >= counts.Length {
      return j, false;
    }
    ghost var before := counts[..];
    if counts.Length >= 2 {
      CycleStep(counts.Length - 1, steps, j);
      ExtrasStep(counts.Length, steps);
    } else {
      assert Extras(1, steps + 1) == before[0 := before[0] + 1];
    }
    counts[j] := counts[j] + 1;
    assert counts[..] == before[j := before[j] + 1];
    return j + 1, true;
  }

  /** The gap a round lands on, one past it, is where the next round lands
      once the index wraps around. */
  lemma {:induction false} CycleStep(m: nat, steps: nat, i: int)
    requires m >= 1 && 0 <= i < m && i == steps % m
    ensures (if i + 1 == m then 0 else i + 1) == (steps + 1) % m
  {
    var q := steps / m;
    if i == m - 1 {
      DivModUnique(steps + 1, m, q + 1, 0);
    } else {
      DivModUnique(steps + 1, m, q, i + 1);
    }
  }

  /** The second loop of the justify case: each word followed, except the
      last, by its gap. */
  method JoinSpaced(words: seq<string>, extras: seq<nat>) returns (line: string)
    requires |words| >= 2 && |extras| == |words| - 1
    ensures line == Spaced(words, extras)
  {
    line := "";
    var k := 0;
    while k < |words|
      invariant 0 <= k <= |words|
      invariant k == 0 ==> line == ""
      invariant 0 < k < |words| ==> line == Spaced(words[..k], extras[..k - 1]) + Spaces(extras[k - 1] + 1)
      invariant k == |words| ==> line == Spaced(words[..k], extras[..k - 1])
    {
      if k > 0 {
        assert words[..k + 1][..k] == words[..k];
        assert extras[..k][..k - 1] == extras[..k - 1];
      }
      line := line + words[k];
      if k < |words| - 1 {
        line := line + Spaces(extras[k] + 1);
      }
      k := k + 1;
    }
    assert words[..k] == words && extras[..k - 1] == extras;
  }

  /** An empty line renders as nothing, whatever the alignment; a
      left-aligned line is its words joined by single spaces, which splitting
      takes apart again; a single justified word is left unpadded. */
  lemma {:induction false} PlainLines(words: seq<string>, alignment: TextAlignment, width: int)
    requires forall k :: 0 <= k < |words| ==> ' ' !in words[k]
    ensures Rendered([], alignment, width) == Ok("")
    ensures |words| >= 1 ==> Rendered(words, Left, width).Ok? && Split(Rendered(words, Left, width).value) == words
    ensures |words| == 1 ==> Rendered(words, Justify, width) == Ok(words[0])
  {
    if |words| >= 1 {
      SplitJoin(words);
    }
  }

  /** A right-aligned line fills the width exactly, the words at its end;
      it panics exactly when the words are wider than the width. */
  lemma {:induction false} RightAligned(words: seq<string>, width: int)
    requires |words| >= 1
    ensures var r := Rendered(words, Right, width); var s := Join(words);
      && (r.Panic? <==> |s| > width)
      && (r.Ok? ==> |r.value| == width && r.value[width - |s|..] == s
                    && forall k :: 0 <= k < width - |s| ==> r.value[k] == ' ')
  {
  }

  /** A centred line fills the width exactly with the words in the middle,
      the left margin never wider than the right and at most one narrower;
      it panics exactly when the words are wider than the width. */
  lemma {:induction false} Centered(words: seq<string>, width: int)
    requires |words| >= 1
    ensures var r := Rendered(words, Center, width); var s := Join(words);
      && (r.Panic? <==> |s| > width)
      && (r.Ok? ==> var before := (width - |s|) / 2;
                    && |r.value| == width
                    && r.value[before..before + |s|] == s
                    && (forall k :: 0 <= k < before ==> r.value[k] == ' ')
                    && (forall k :: before + |s| <= k < width ==> r.value[k] == ' ')
                    && 0 <= (width - before - |s|) - before <= 1)
  {
    var s := Join(words);
    if |s| <= width {
      var before := TruncDiv(width - |s|, 2);
      assert before == (width - |s|) / 2;
      var line := Spaces(before) + s + Spaces(width - |s| - before);
      assert line[before..before + |s|] == s;
    } else if |s| == width + 1 {
      assert TruncDiv(width - |s|, 2) == 0;
    }
  }

  /** A justified line of three or more words that is not wider than the
      width fills it exactly: the missing cells are spread over all gaps but
      the last, which keeps its single space, so that two gaps differ by at
      most one extra space and earlier gaps are never narrower. */
  lemma {:induction false} JustifiedFills(words: seq<string>, width: int)
    requires |words| >= 3 && |Join(words)| <= width
    ensures var r := Rendered(words, Justify, width);
      var extras := Extras(|words| - 1, width - |Join(words)|);
      && r == Ok(Spaced(words, extras))
      && |r.value| == width
      && extras[|words| - 2] == 0
      && (forall j, k :: 0 <= j < k < |words| - 2 ==> 0 <= extras[j] - extras[k] <= 1)
  {
    var fill := width - |Join(words)|;
    var extras := Extras(|words| - 1, fill);
    ExtrasSum(|words| - 1, fill);
    SpacedLength(words, extras);
    JoinLength(words);
  }

  /** A justified line of two words is padded in its single gap when it is
      one cell short, and panics when it is two or more cells short. */
  lemma {:induction false} JustifiedPair(words: seq<string>, width: int)
    requires |words| == 2
    ensures var r := Rendered(words, Justify, width); var fill := width - |Join(words)|;
      && (r.Panic? <==> fill >= 2)
      && (fill == 1 ==> r == Ok(words[0] + "  " + words[1]))
      && (fill <= 0 ==> r == Ok(Join(words)))
  {
    var fill := width - |Join(words)|;
    assert words[..1] == [words[0]];
    if fill == 1 {
      var extras := Extras(1, 1);
      assert extras[0] == 1 && extras[..0] == [];
      assert Spaces(2) == "  ";
      assert Spaced(words[..1], extras[..0]) == words[0];
      assert Spaced(words, extras) == words[0] + "  " + words[1];
      assert Rendered(words, Justify, width) == Ok(Spaced(words, extras));
    } else if fill <= 0 {
      SpacedNoExtras(words, Extras(1, 0));
    }
  }

  /** A justified line wider than the width is left as the plain join. */
  lemma {:induction false} JustifiedOverfull(words: seq<string>, width: int)
    requires |words| >= 2 && |Join(words)| >= width
    ensures Rendered(words, Justify, width) == Ok(Join(words))
  {
    SpacedNoExtras(words, Extras(|words| - 1, 0));
  }

  // ---------------------------------------------------------------------
  // Painting

  /** Cell `p` is one that `Draw` painted: in the inner area, on a row
      that holds a rendered line, and within both the width and that line. */
  ghost predicate Painted(p: (int, int), left: int, top: int, width: int, rendered: seq<string>)
  {
    var x, y := p.0 - left - 1, p.1 - top - 1;
    0 <= y < |rendered| && 0 <= x < width && x < |rendered[y]|
  }

  /** `cells` is `before` with the rendered lines painted one glyph per cell
      from one cell right of and below (`left`, `top`), and nothing else
      changed. */
  ghost predicate Shows(cells: map<(int, int), Cell>, before: map<(int, int), Cell>,
                        left: int, top: int, width: int, rendered: seq<string>, style: Style)
  {
    && (forall p :: Painted(p, left, top, width, rendered) ==>
          p in cells && cells[p] == Cell([rendered[p.1 - top - 1][p.0 - left - 1]], style))
    && (forall p :: p in before && !Painted(p, left, top, width, rendered) ==>
          p in cells && cells[p] == before[p])
    && (forall p :: p in cells ==> p in before || Painted(p, left, top, width, rendered))
  }

  /** `cells` is `before` with row `y` of the inner area showing `line`, cut
      at `width` cells, and nothing else changed. */
  ghost predicate RowShows(cells: map<(int, int), Cell>, before: map<(int, int), Cell>,
                           left: int, top: int, y: int, width: int, line: string, style: Style)
  {
    && (forall p :: InRect(p, left + 1, top + 1 + y, Min(|line|, width), 1) ==>
          p in cells && cells[p] == Cell([line[p.0 - left - 1]], style))
    && (forall p :: p in before && !InRect(p, left + 1, top + 1 + y, Min(|line|, width), 1) ==>
          p in cells && cells[p] == before[p])
    && (forall p :: p in cells ==> p in before || InRect(p, left + 1, top + 1 + y, Min(|line|, width), 1))
  }

  /** Painting the next row extends what the screen shows by that line. */
  lemma {:induction false} ShowsNextRow(before: map<(int, int), Cell>, mid: map<(int, int), Cell>, after: map<(int, int), Cell>,
                     left: int, top: int, width: int, rendered: seq<string>, line: string, style: Style)
    requires Shows(mid, before, left, top, width, rendered, style)
    requires RowShows(after, mid, left, top, |rendered|, width, line, style)
    ensures Shows(after, before, left, top, width, rendered + [line], style)
  {
    var next := rendered + [line];
    forall p | Painted(p, left, top, width, next)
      ensures p in after && after[p] == Cell([next[p.1 - top - 1][p.0 - left - 1]], style)
    {
      if p.1 - top - 1 < |rendered| {
        assert Painted(p, left, top, width, rendered);
        assert !InRect(p, left + 1, top + 1 + |rendered|, Min(|line|, width), 1);
      } else {
        assert InRect(p, left + 1, top + 1 + |rendered|, Min(|line|, width), 1);
      }
    }
    forall p | p in before && !Painted(p, left, top, width, next)
      ensures p in after && after[p] == before[p]
    {
      assert !Painted(p, left, top, width, rendered);
      assert !InRect(p, left + 1, top + 1 + |rendered|, Min(|line|, width), 1);
    }
    forall p | p in after
      ensures p in before || Painted(p, left, top, width, next)
    {
      if !InRect(p, left + 1, top + 1 + |rendered|, Min(|line|, width), 1) {
        assert p in mid;
        if Painted(p, left, top, width, rendered) {
          assert Painted(p, left, top, width, next);
        }
      }
    }
  }

  /** What `Draw` does for a component at (`left`, `top`) of `width` by
      `height` cells showing `text` with `alignment`: `lines` is the greedy
      wrapping of its words into `width - 2` cells, and `rendered` holds the
      renderings of its first lines, as many as fit in `height - 2` rows
      unless one of those panics, which stops the drawing with that panic. `cells` is
      `before` with the rendered lines shown and nothing else changed. */
  ghost predicate Drawn(cells: map<(int, int), Cell>, before: map<(int, int), Cell>,
                        left: int, top: int, width: int, height: int, style: Style,
                        text: string, alignment: TextAlignment, outcome: Result<()>,
                        lines: seq<seq<string>>, rendered: seq<string>)
  {
    && GreedyWrap(Split(text), width - 2, lines)
    && |rendered| <= |lines| && |rendered| <= (if height - 2 > 0 then height - 2 else 0)
    && (forall y :: 0 <= y < |rendered| ==> Rendered(lines[y], alignment, width - 2) == Ok(rendered[y]))
    && (outcome.Ok? ==> |rendered| == (if Min(|lines|, height - 2) > 0 then Min(|lines|, height - 2) else 0))
    && (outcome.Panic? ==>
          && |rendered| < |lines| && |rendered| < height - 2
          && Rendered(lines[|rendered|], alignment, width - 2) == Panic(outcome.cause))
    && Shows(cells, before, left, top, width - 2, rendered, style)
  }

  /** A drawn text changes nothing outside its component's rectangle. */
  lemma {:induction false} DrawnConfined(cells: map<(int, int), Cell>, before: map<(int, int), Cell>,
                                         left: int, top: int, width: int, height: int, style: Style,
                                         text: string, alignment: TextAlignment, outcome: Result<()>,
                                         lines: seq<seq<string>>, rendered: seq<string>)
    requires Drawn(cells, before, left, top, width, height, style, text, alignment, outcome, lines, rendered)
    ensures Confined(cells, before, left, top, width, height)
  {
    forall p | Painted(p, left, top, width - 2, rendered)
      ensures InRect(p, left, top, width, height)
    {
    }
  }

  /** For the same wrapping, the outcome and the rendered lines of a drawn
      text are fixed: a line below the visible rows is never rendered, so
      it cannot make the drawing panic. */
  lemma {:induction false} DrawnDetermined(cells: map<(int, int), Cell>, cells': map<(int, int), Cell>,
                                           before: map<(int, int), Cell>,
                                           left: int, top: int, width: int, height: int, style: Style,
                                           text: string, alignment: TextAlignment,
                                           outcome: Result<()>, outcome': Result<()>,
                                           lines: seq<seq<string>>, rendered: seq<string>, rendered': seq<string>)
    requires Drawn(cells, before, left, top, width, height, style, text, alignment, outcome, lines, rendered)
    requires Drawn(cells', before, left, top, width, height, style, text, alignment, outcome', lines, rendered')
    ensures outcome == outcome' && rendered == rendered'
  {
    if |rendered| < |rendered'| {
      assert false;
    } else if |rendered'| < |rendered| {
      assert false;
    } else {
      forall y | 0 <= y < |rendered|
        ensures rendered[y] == rendered'[y]
      {
        assert Ok(rendered[y]) == Ok(rendered'[y]);
      }
      match outcome {
        case Ok(v) =>
          match outcome' {
            case Ok(v') => assert v == () == v';
            case Panic(_) =>
          }
        case Panic(_) =>
      }
    }
  }

  class Text {
    var alignment: TextAlignment
    var wordWrap: bool
    var text: string

    /** `NewText`: left-aligned, with word wrapping on. */
    constructor (text: string)
      ensures alignment == Left && wordWrap && this.text == text
    {
      alignment := Left;
      wordWrap := true;
      this.text := text;
    }

    method SetText(text: string)
      modifies this
      ensures this.text == text && alignment == old(alignment) && wordWrap == old(wordWrap)
    {
      this.text := text;
    }

    method SetAlignment(alignment: TextAlignment)
      modifies this
      ensures this.alignment == alignment && text == old(text) && wordWrap == old(wordWrap)
    {
      this.alignment := alignment;
    }

    method SetWordWrap(wordWrap: bool)
      modifies this
      ensures this.wordWrap == wordWrap && text == old(text) && alignment == old(alignment)
    {
      this.wordWrap := wordWrap;
    }

    /** Paints the text into the component at (`left`, `top`) of `width` by
      `height` cells: the words wrapped into `width - 2` cells, each of the
      first `height - 2` lines rendered with the alignment and written one
      glyph per cell, from one cell right of and below the corner, cut at
      `width - 2` cells. A line whose rendering panics stops the drawing
      there. The wrapping and the rendered lines are returned as ghosts. */
    method Draw(screen: Screen, left: int, top: int, width: int, height: int, style: Style)
        returns (outcome: Result<()>, ghost lines: seq<seq<string>>, ghost rendered: seq<string>)
      modifies screen
      ensures Drawn(screen.cells, old(screen.cells), left, top, width, height, style, text, alignment, outcome, lines, rendered)
      ensures screen.width == old(screen.width) && screen.height == old(screen.height)
    {
      var allowedWidth := width - 2;
      var words := Split(text);
      var wrapped := WrapWords(words, allowedWidth);
      lines := wrapped;
      rendered := [];
      var allowedHeight := height - 2;
      var rows := Min(|wrapped|, allowedHeight);
      var y := 0;
      while y < rows
        invariant 0 <= y && (y <= rows || y == 0)
        invariant |rendered| == y
        invariant forall j :: 0 <= j < y ==> Rendered(lines[j], alignment, allowedWidth) == Ok(rendered[j])
        invariant Shows(screen.cells, old(screen.cells), left, top, allowedWidth, rendered, style)
        invariant screen.width == old(screen.width) && screen.height == old(screen.height)
      {
        var l := RenderLine(wrapped[y], alignment, allowedWidth);
        if l.Panic? {
          return Panic(l.cause), lines, rendered;
        }
        ghost var mid := screen.cells;
        PaintRow(screen, left, top, y, allowedWidth, l.value, style);
        ShowsNextRow(old(screen.cells), mid, screen.cells, left, top, allowedWidth, rendered, l.value, style);
        rendered := rendered + [l.value];
        y := y + 1;
      }
      outcome := Ok(());
    }

    /** The inner loop of `Draw`: writes row `y`, the rendered line `l`, cut
      at `width` cells. */
    method PaintRow(screen: Screen, left: int, top: int, y: nat, width: int, l: string, style: Style)
      modifies screen
      ensures RowShows(screen.cells, old(screen.cells), left, top, y, width, l, style)
      ensures screen.width == old(screen.width) && screen.height == old(screen.height)
    {
      var cols := Min(|l|, width);
      var x := 0;
      while x < cols
        invariant 0 <= x && (x <= cols || x == 0)
        invariant forall p :: InRect(p, left + 1, top + 1 + y, x, 1) ==>
                    p in screen.cells && screen.cells[p] == Cell([l[p.0 - left - 1]], style)
        invariant forall p :: p in old(screen.cells) && !InRect(p, left + 1, top + 1 + y, x, 1) ==>
                    p in screen.cells && screen.cells[p] == old(screen.cells)[p]
        invariant forall p :: p in screen.cells ==> p in old(screen.cells) || InRect(p, left + 1, top + 1 + y, x, 1)
        invariant screen.width == old(screen.width) && screen.height == old(screen.height)
      {
        screen.Put(left + x + 1, top + 1 + y, l[x..x + 1], style);
        assert l[x..x + 1] == [l[x]];
        x := x + 1;
      }
    }
  }
}
