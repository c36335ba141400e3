/** The Python string operations the pipeline relies on, written out over
    `seq<char>` (one `char` per Unicode code point, as in a Python `str`).
 */
module Text {

  /* ---------------------------------------------------------------------------
     Whitespace and `str.strip()`
     ------------------------------------------------------------------------- */

  /** Python's `str.isspace` for one code point. */
  predicate IsSpace(c: char) {
    || c == ' '
    || '\t' <= c <= '\r'            // tab, line feed, vertical tab, form feed, carriage return
    || '\U{1C}' <= c <= '\U{1F}'    // file, group, record and unit separators
    || c == '\U{85}' || c == '\U{A0}' || c == '\U{1680}'
    || '\U{2000}' <= c <= '\U{200A}'
    || c == '\U{2028}' || c == '\U{2029}' || c == '\U{202F}' || c == '\U{205F}' || c == '\U{3000}'
  }

  ghost predicate AllSpace(s: string) {
    forall k | 0 <= k < |s| :: IsSpace(s[k])
  }

  /** Neither end of `s` is whitespace: what `strip` leaves behind. */
  predicate NoOuterSpace(s: string) {
    s == [] || (!IsSpace(s[0]) && !IsSpace(s[|s| - 1]))
  }

  lemma AllSpaceJoin(a: string, b: string)
    requires AllSpace(a) && AllSpace(b)
    ensures AllSpace(a + b)
  {
    assert forall k | 0 <= k < |a + b| :: (a + b)[k] == if k < |a| then a[k] else b[k - |a|];
  }

  function TrimStart(s: string): (r: string)
    ensures |r| <= |s| && r == s[|s| - |r|..]
    ensures AllSpace(s[..|s| - |r|])
    ensures r == [] || !IsSpace(r[0])
  {
    if s != [] && IsSpace(s[0]) then
      var r := TrimStart(s[1..]);
      TrimStartStep(s, r);
      r
    else
      s
  }

  lemma TrimStartStep(s: string, r: string)
    requires s != [] && IsSpace(s[0])
    requires |r| <= |s| - 1 && r == s[1..][|s| - 1 - |r|..]
    requires AllSpace(s[1..][..|s| - 1 - |r|])
    ensures r == s[|s| - |r|..] && AllSpace(s[..|s| - |r|])
  {
    assert s[..|s| - |r|] == [s[0]] + s[1..][..|s| - 1 - |r|];
    AllSpaceJoin([s[0]], s[1..][..|s| - 1 - |r|]);
  }

  function TrimEnd(s: string): (r: string)
    ensures |r| <= |s| && r == s[..|r|]
    ensures AllSpace(s[|r|..])
    ensures r == [] || !IsSpace(r[|r| - 1])
  {
    if s != [] && IsSpace(s[|s| - 1]) then
      var r := TrimEnd(s[..|s| - 1]);
      TrimEndStep(s, r);
      r
    else
      s
  }

  lemma TrimEndStep(s: string, r: string)
    requires s != [] && IsSpace(s[|s| - 1])
    requires |r| <= |s| - 1 && r == s[..|s| - 1][..|r|]
    requires AllSpace(s[..|s| - 1][|r|..])
    ensures r == s[..|r|] && AllSpace(s[|r|..])
  {
    assert s[|r|..] == s[..|s| - 1][|r|..] + [s[|s| - 1]];
    AllSpaceJoin(s[..|s| - 1][|r|..], [s[|s| - 1]]);
  }

  /** `r` is `s` with a run of whitespace cut from each end, and nothing
      else: an infix of `s` whose two ends are not whitespace. */
  ghost predicate StrippedFrom(s: string, r: string) {
    && NoOuterSpace(r)
    && exists i :: 0 <= i <= |s| - |r| && r == s[i..i + |r|]
                   && AllSpace(s[..i]) && AllSpace(s[i + |r|..])
  }

  /** Python's `str.strip()` with no argument: the infix of `s` left after
      removing every leading and trailing whitespace code point. */
  function Strip(s: string): (r: string)
    ensures StrippedFrom(s, r)
  {
    var t := TrimStart(s);
    var r := TrimEnd(t);
    TrimsLeaveInfix(s, t, r);
    r
  }

  /** Trimming the front and then the back leaves an infix of `s` flanked by
      whitespace, with no whitespace at either end. */
  lemma TrimsLeaveInfix(s: string, t: string, r: string)
    requires |t| <= |s| && t == s[|s| - |t|..] && AllSpace(s[..|s| - |t|])
    requires t == [] || !IsSpace(t[0])
    requires |r| <= |t| && r == t[..|r|] && AllSpace(t[|r|..])
    requires r == [] || !IsSpace(r[|r| - 1])
    ensures StrippedFrom(s, r)
  {
    var i := |s| - |t|;
    assert r != [] ==> r[0] == t[0];
    assert s[i + |r|..] == t[|r|..];
    assert r == s[i..i + |r|];
  }

  lemma StripKeepsStripped(s: string)
    requires NoOuterSpace(s)
    ensures Strip(s) == s
  {
  }

  /** `strip` is idempotent. */
  lemma StripIdempotent(s: string)
    ensures Strip(Strip(s)) == Strip(s)
  {
    StripKeepsStripped(Strip(s));
  }

  /* ---------------------------------------------------------------------------
     `str.lower()` and `str.replace(" ", "-")`
     ------------------------------------------------------------------------- */

  /** Lower-casing of one code point, for the scripts the pipeline meets:
      ASCII, Latin-1 and the Greek capitals (so `Ω` becomes `ω`). */
  function LowerChar(c: char): char {
    if || 'A' <= c <= 'Z'
       || ('\U{C0}' <= c <= '\U{DE}' && c != '\U{D7}')
       || ('\U{391}' <= c <= '\U{3A9}' && c != '\U{3A2}')
    then (c as int + 32) as char
    else c
  }

  function Lower(s: string): (r: string)
    ensures |r| == |s|
    ensures forall k | 0 <= k < |s| :: r[k] == LowerChar(s[k])
  {
    seq(|s|, k requires 0 <= k < |s| => LowerChar(s[k]))
  }

  /** A lower-cased string is its own lower case. */
  lemma LowerIdempotent(s: string)
    ensures Lower(Lower(s)) == Lower(s)
  {
  }

  /** Python's `str.replace(" ", "-")`: every ASCII space becomes a hyphen,
      nothing else changes. */
  function Hyphenate(s: string): (r: string)
    ensures |r| == |s|
    ensures ' ' !in r
    ensures forall k | 0 <= k < |s| && s[k] != ' ' :: r[k] == s[k]
    ensures forall k | 0 <= k < |s| && s[k] == ' ' :: r[k] == '-'
    ensures NoOuterSpace(s) ==> NoOuterSpace(r)
  {
    var r := seq(|s|, k requires 0 <= k < |s| => if s[k] == ' ' then '-' else s[k]);
    assert NoOuterSpace(s) && s != [] ==> r[0] == s[0] && r[|r| - 1] == s[|s| - 1];
    r
  }

  /* ---------------------------------------------------------------------------
     `str.splitlines()`
     ------------------------------------------------------------------------- */

  /** The code points `str.splitlines` breaks at (`\r\n` counts as one break). */
  predicate IsLineBreak(c: char) {
    || c == '\n' || c == '\r' || c == '\U{B}' || c == '\U{C}'
    || '\U{1C}' <= c <= '\U{1E}'
    || c == '\U{85}' || c == '\U{2028}' || c == '\U{2029}'
  }

  predicate NoBreak(s: string) {
    forall k | 0 <= k < |s| :: !IsLineBreak(s[k])
  }

  /** `s` with every line-break code point deleted. */
  function DropBreaks(s: string): string {
    if s == [] then []
    else (if IsLineBreak(s[0]) then [] else [s[0]]) + DropBreaks(s[1..])
  }

  function Concat(lines: seq<string>): string {
    if lines == [] then [] else lines[0] + Concat(lines[1..])
  }

  function FirstBreak(s: string): (i: nat)
    ensures i <= |s|
    ensures i < |s| ==> IsLineBreak(s[i])
    ensures NoBreak(s[..i])
  {
    if s == [] || IsLineBreak(s[0]) then 0 else 1 + FirstBreak(s[1..])
  }

  function SplitLines(s: string): (lines: seq<string>)
    ensures forall n | 0 <= n < |lines| :: NoBreak(lines[n])
    decreases |s|
  {
    if s == [] then []
    else
      var i := FirstBreak(s);
      if i == |s| then [s]
      else
        var width := if s[i] == '\r' && i + 1 < |s| && s[i + 1] == '\n' then 2 else 1;
        [s[..i]] + SplitLines(s[i + width..])
  }

  lemma DropBreaksAppend(a: string, b: string)
    ensures DropBreaks(a + b) == DropBreaks(a) + DropBreaks(b)
  {
    if a != [] {
      var head := if IsLineBreak(a[0]) then [] else [a[0]];
      assert (a + b)[0] == a[0];
      assert (a + b)[1..] == a[1..] + b;
      assert DropBreaks(a + b) == head + DropBreaks(a[1..] + b);
      DropBreaksAppend(a[1..], b);
    } else {
      assert a + b == b;
    }
  }

  lemma DropBreaksOfNoBreak(s: string)
    requires NoBreak(s)
    ensures DropBreaks(s) == s
  {
    if s != [] {
      DropBreaksOfNoBreak(s[1..]);
    }
  }

  lemma DropBreaksOfBreaks(s: string)
    requires forall k | 0 <= k < |s| :: IsLineBreak(s[k])
    ensures DropBreaks(s) == []
  {
    if s != [] {
      DropBreaksOfBreaks(s[1..]);
    }
  }

  /** Deleting the breaks of `line + separator + rest` keeps `line` whole. */
  lemma DropBreaksJoin(line: string, sep: string, rest: string)
    requires NoBreak(line)
    requires forall k | 0 <= k < |sep| :: IsLineBreak(sep[k])
    ensures DropBreaks(line + sep + rest) == line + DropBreaks(rest)
  {
    DropBreaksAppend(line + sep, rest);
    DropBreaksAppend(line, sep);
    DropBreaksOfNoBreak(line);
    DropBreaksOfBreaks(sep);
    assert line + [] == line;
  }

  /** One step of `splitlines`: the line before the first break, then the
      lines of what follows the break, lose exactly the breaks. */
  lemma SplitStep(s: string, i: nat, width: nat, lines: seq<string>)
    requires i + width <= |s|
    requires NoBreak(s[..i])
    requires width == 1 || width == 2
    requires IsLineBreak(s[i]) && (width == 2 ==> IsLineBreak(s[i + 1]))
    requires Concat(lines) == DropBreaks(s[i + width..])
    ensures Concat([s[..i]] + lines) == DropBreaks(s)
  {
    var line, sep, rest := s[..i], s[i..i + width], s[i + width..];
    assert s == line + sep + rest;
    assert forall k | 0 <= k < |sep| :: IsLineBreak(sep[k]);
    DropBreaksJoin(line, sep, rest);
    ConcatCons(line, lines);
  }

  lemma SingleLine(s: string)
    requires NoBreak(s)
    ensures Concat([s]) == DropBreaks(s)
  {
    DropBreaksOfNoBreak(s);
    ConcatCons(s, []);
  }

  lemma ConcatCons(line: string, lines: seq<string>)
    ensures Concat([line] + lines) == line + Concat(lines)
  {
    assert ([line] + lines)[1..] == lines;
  }

  /** The lines `splitlines` returns are exactly the text with its line
      breaks taken out: no code point is lost, none is invented. */
  lemma {:induction false} SplitLinesLosesOnlyBreaks(s: string)
    ensures Concat(SplitLines(s)) == DropBreaks(s)
    decreases |s|
  {
    if s != [] {
      var i := FirstBreak(s);
      if i == |s| {
        assert s[..i] == s;
        SingleLine(s);
      } else {
        var width := if s[i] == '\r' && i + 1 < |s| && s[i + 1] == '\n' then 2 else 1;
        var rest := s[i + width..];
        SplitLinesLosesOnlyBreaks(rest);
        SplitStep(s, i, width, SplitLines(rest));
      }
    }
  }

  /** A line terminator `splitlines` recognises: `\r\n` taken whole, or one
      line-break code point. */
  predicate IsTerminator(t: string) {
    t == "\r\n" || (|t| == 1 && IsLineBreak(t[0]))
  }

  /** The lines written back to back, each followed by its terminator. */
  function Join(lines: seq<string>, ends: seq<string>): string
    requires |lines| == |ends|
  {
    if lines == [] then [] else lines[0] + ends[0] + Join(lines[1..], ends[1..])
  }

  predicate NoLeadingLf(s: string) {
    s == [] || s[0] != '\n'
  }

  /** Line `k` ends in a terminator, or is the last line, non-empty and
      unterminated; a lone `\r` is never followed by `\n`, which would have
      made the two one terminator. */
  predicate TerminatedAt(lines: seq<string>, ends: seq<string>, k: nat)
    requires |lines| == |ends| && k < |lines|
  {
    && NoBreak(lines[k])
    && (IsTerminator(ends[k]) || (k == |ends| - 1 && ends[k] == [] && lines[k] != []))
    && (ends[k] == "\r" ==> NoLeadingLf(Join(lines[k + 1..], ends[k + 1..])))
  }

  /** `s` is `lines` with the terminators `ends`, as `splitlines` reads it. */
  predicate SplitsAs(s: string, lines: seq<string>, ends: seq<string>) {
    && |lines| == |ends|
    && Join(lines, ends) == s
    && forall k | 0 <= k < |lines| :: TerminatedAt(lines, ends, k)
  }

  /** The first break of `s` is at `j` when nothing before `j` is one and
      `s[j]` is (or `j` is the end). */
  lemma FirstBreakAt(s: string, j: nat)
    requires j <= |s| && NoBreak(s[..j])
    requires j < |s| ==> IsLineBreak(s[j])
    ensures FirstBreak(s) == j
  {
    if j > 0 {
      assert !IsLineBreak(s[..j][0]);
      assert s[1..][..j - 1] == s[..j][1..];
      FirstBreakAt(s[1..], j - 1);
    }
  }

  /** Putting a line and its terminator in front of a split gives a split. */
  lemma SplitsAsCons(s: string, line: string, end: string, rest: string, lines: seq<string>, ends: seq<string>)
    requires SplitsAs(rest, lines, ends)
    requires NoBreak(line) && IsTerminator(end)
    requires end == "\r" ==> NoLeadingLf(rest)
    requires s == line + end + rest
    ensures SplitsAs(s, [line] + lines, [end] + ends)
  {
    var ls, es := [line] + lines, [end] + ends;
    assert ls[1..] == lines && es[1..] == ends;
    forall k | 0 <= k < |ls| ensures TerminatedAt(ls, es, k) {
      if k > 0 {
        assert TerminatedAt(lines, ends, k - 1);
        assert ls[k + 1..] == lines[k..] && es[k + 1..] == ends[k..];
      }
    }
  }

  /** Dropping the first line and its terminator from a split leaves a split
      of the rest of the text. */
  lemma SplitsAsTail(s: string, lines: seq<string>, ends: seq<string>)
    requires SplitsAs(s, lines, ends) && lines != []
    ensures SplitsAs(Join(lines[1..], ends[1..]), lines[1..], ends[1..])
  {
    var ls, es := lines[1..], ends[1..];
    forall k | 0 <= k < |ls| ensures TerminatedAt(ls, es, k) {
      assert TerminatedAt(lines, ends, k + 1);
      assert ls[k + 1..] == lines[k + 2..] && es[k + 1..] == ends[k + 2..];
    }
  }

  /** In any split, the first line runs up to the first break, and the
      terminator is `\r\n` when the break is a `\r` followed by `\n`, else
      the break alone (nothing when there is no break). */
  lemma SplitHead(s: string, lines: seq<string>, ends: seq<string>)
    requires SplitsAs(s, lines, ends) && lines != []
    ensures var i := FirstBreak(s);
            && lines[0] == s[..i]
            && ends[0] == (if i == |s| then []
                           else if s[i] == '\r' && i + 1 < |s| && s[i + 1] == '\n' then "\r\n"
                           else [s[i]])
            && Join(lines[1..], ends[1..]) == s[i + |ends[0]|..]
  {
    assert TerminatedAt(lines, ends, 0);
    var line, end, rest := lines[0], ends[0], Join(lines[1..], ends[1..]);
    assert s == line + end + rest;
    assert s[..|line|] == line;
    if end == [] {
      assert lines[1..] == [];
      assert s == line;
      FirstBreakAt(s, |s|);
    } else {
      assert s[|line|] == end[0];
      FirstBreakAt(s, |line|);
      assert s[|line| + |end|..] == rest;
      if end == "\r" {
        assert rest == [] || rest[0] == s[|line| + 1];
      }
    }
  }

  lemma SplitsAsEmpty(s: string, lines: seq<string>, ends: seq<string>)
    requires SplitsAs(s, lines, ends)
    ensures lines == [] <==> s == []
  {
    if lines != [] {
      assert TerminatedAt(lines, ends, 0);
      assert |s| >= |lines[0]| + |ends[0]|;
    }
  }

  /** The terminator `splitlines` drops after each of its lines. */
  function Terminators(s: string): (ends: seq<string>)
    ensures |ends| == |SplitLines(s)|
    decreases |s|
  {
    if s == [] then []
    else
      var i := FirstBreak(s);
      if i == |s| then [[]]
      else
        var width := if s[i] == '\r' && i + 1 < |s| && s[i + 1] == '\n' then 2 else 1;
        [s[i..i + width]] + Terminators(s[i + width..])
  }

  /** `splitlines` gives a split of its text. */
  lemma {:induction false} SplitLinesSplits(s: string)
    ensures SplitsAs(s, SplitLines(s), Terminators(s))
    decreases |s|
  {
    if s == [] {
      assert SplitsAs(s, [], []);
    } else {
      var i := FirstBreak(s);
      if i == |s| {
        assert s[..i] == s;
        assert SplitLines(s) == [s] && Terminators(s) == [[]];
        OneLineSplits(s);
      } else {
        var width := if s[i] == '\r' && i + 1 < |s| && s[i + 1] == '\n' then 2 else 1;
        var rest := s[i + width..];
        assert SplitLines(s) == [s[..i]] + SplitLines(rest);
        assert Terminators(s) == [s[i..i + width]] + Terminators(rest);
        SplitLinesSplits(rest);
        BreakSplits(s, i, width, SplitLines(rest), Terminators(rest));
      }
    }
  }

  /** A split of what follows the first break extends to a split of the
      whole text, with the line before the break first. */
  lemma BreakSplits(s: string, i: nat, width: nat, lines: seq<string>, ends: seq<string>)
    requires i < |s| && NoBreak(s[..i]) && IsLineBreak(s[i])
    requires width == if s[i] == '\r' && i + 1 < |s| && s[i + 1] == '\n' then 2 else 1
    requires SplitsAs(s[i + width..], lines, ends)
    ensures SplitsAs(s, [s[..i]] + lines, [s[i..i + width]] + ends)
  {
    var rest := s[i + width..];
    var end := s[i..i + width];
    assert s == s[..i] + end + rest;
    assert IsTerminator(end) by {
      if width == 2 {
        assert end == "\r\n";
      }
    }
    if end == "\r" {
      assert rest == [] || rest[0] == s[i + 1];
    }
    SplitsAsCons(s, s[..i], end, rest, lines, ends);
  }

  /** Text without a break is one unterminated line. */
  lemma OneLineSplits(s: string)
    requires s != [] && NoBreak(s)
    ensures SplitsAs(s, [s], [[]])
  {
    var ends: seq<string> := [[]];
    assert Join([s], ends) == s + [] + Join([], []);
    assert TerminatedAt([s], ends, 0);
  }

  /** A text has at most one split. */
  lemma {:induction false} SplitsAsUnique(s: string, l1: seq<string>, e1: seq<string>, l2: seq<string>, e2: seq<string>)
    requires SplitsAs(s, l1, e1) && SplitsAs(s, l2, e2)
    ensures l1 == l2 && e1 == e2
    decreases |l1|
  {
    SplitsAsEmpty(s, l1, e1);
    SplitsAsEmpty(s, l2, e2);
    if l1 != [] {
      SplitHead(s, l1, e1);
      SplitHead(s, l2, e2);
      SplitsAsTail(s, l1, e1);
      SplitsAsTail(s, l2, e2);
      SplitsAsUnique(Join(l1[1..], e1[1..]), l1[1..], e1[1..], l2[1..], e2[1..]);
      assert l1 == [l1[0]] + l1[1..] && l2 == [l2[0]] + l2[1..];
      assert e1 == [e1[0]] + e1[1..] && e2 == [e2[0]] + e2[1..];
    }
  }

  /** `splitlines` is characterised by where it cuts: its lines, with their
      terminators put back, rebuild the text, and they are the only
      break-free lines that do, with `\r\n` read as one terminator and only
      a non-empty last line left unterminated. */
  lemma SplitLinesRebuildsText(s: string)
    ensures exists ends :: SplitsAs(s, SplitLines(s), ends)
    ensures forall lines, ends | SplitsAs(s, lines, ends) :: lines == SplitLines(s)
  {
    SplitLinesSplits(s);
    forall lines, ends | SplitsAs(s, lines, ends) ensures lines == SplitLines(s) {
      SplitsAsUnique(s, lines, ends, SplitLines(s), Terminators(s));
    }
  }

  /* ---------------------------------------------------------------------------
     `str.replace("+00:00", "Z")` and the trailing `Z`
     ------------------------------------------------------------------------- */

  const UtcOffset: string := "+00:00"

  predicate OccursAt(s: string, p: string, i: nat) {
    i + |p| <= |s| && s[i..i + |p|] == p
  }

  predicate Contains(s: string, p: string) {
    exists i: nat | i <= |s| :: OccursAt(s, p, i)
  }

  predicate StartsWithOffset(s: string) {
    |s| >= |UtcOffset| && s[..|UtcOffset|] == UtcOffset
  }

  /** Every non-overlapping occurrence of `+00:00`, scanning left to right,
      becomes `Z`. */
  function OffsetToZ(s: string): string
    decreases |s|
  {
    if StartsWithOffset(s) then "Z" + OffsetToZ(s[|UtcOffset|..])
    else if s == [] then []
    else [s[0]] + OffsetToZ(s[1..])
  }

  lemma OffsetToZHead(t: string)
    requires t != []
    ensures |OffsetToZ(t)| > 0
    ensures OffsetToZ(t)[0] == if StartsWithOffset(t) then 'Z' else t[0]
  {
  }

  /** What the rewrite produces before its first `Z` was already in the input. */
  lemma {:induction false} OffsetToZPrefix(t: string, w: string)
    requires |w| <= |OffsetToZ(t)| && OffsetToZ(t)[..|w|] == w
    requires 'Z' !in w
    ensures |w| <= |t| && t[..|w|] == w
    decreases |t|
  {
    if w != [] {
      assert t != [];
      OffsetToZHead(t);
      assert w[0] == OffsetToZ(t)[0];
      if !StartsWithOffset(t) {
        assert t != [];
        var tail := OffsetToZ(t[1..]);
        assert OffsetToZ(t) == [t[0]] + tail;
        assert tail[..|w| - 1] == w[1..];
        OffsetToZPrefix(t[1..], w[1..]);
      }
    }
  }

  /** A `+00:00` at the very start of the output was already at the start
      of the input (and was then replaced, so it cannot be there). */
  lemma NoOffsetAtStart(s: string)
    requires !StartsWithOffset(s)
    ensures !OccursAt(OffsetToZ(s), UtcOffset, 0)
  {
    var r := OffsetToZ(s);
    if s != [] && OccursAt(r, UtcOffset, 0) {
      var tail := OffsetToZ(s[1..]);
      assert r[..|UtcOffset|] == UtcOffset;
      assert tail[..5] == r[1..|UtcOffset|] == UtcOffset[1..];
      assert UtcOffset[1..] == "00:00";
      OffsetToZPrefix(s[1..], "00:00");
    }
  }

  /** After the rewrite no `+00:00` is left, not even one straddling a
      replacement. */
  lemma {:induction false} OffsetToZRemovesAll(s: string)
    ensures !Contains(OffsetToZ(s), UtcOffset)
    decreases |s|
  {
    var r := OffsetToZ(s);
    if StartsWithOffset(s) {
      var tail := OffsetToZ(s[|UtcOffset|..]);
      OffsetToZRemovesAll(s[|UtcOffset|..]);
      assert r == "Z" + tail;
      forall i: nat | i <= |r| ensures !OccursAt(r, UtcOffset, i) {
        if 0 < i && i + |UtcOffset| <= |r| {
          assert r[i..i + |UtcOffset|] == tail[i - 1..i - 1 + |UtcOffset|];
          assert !OccursAt(tail, UtcOffset, i - 1);
        }
      }
    } else if s != [] {
      var tail := OffsetToZ(s[1..]);
      OffsetToZRemovesAll(s[1..]);
      assert r == [s[0]] + tail;
      forall i: nat | i <= |r| ensures !OccursAt(r, UtcOffset, i) {
        if i == 0 {
          NoOffsetAtStart(s);
        } else if i + |UtcOffset| <= |r| {
          assert r[i..i + |UtcOffset|] == tail[i - 1..i - 1 + |UtcOffset|];
          assert !OccursAt(tail, UtcOffset, i - 1);
        }
      }
    }
  }

  predicate EndsWithZ(s: string) {
    |s| > 0 && s[|s| - 1] == 'Z'
  }

  /** The suffix rewriting of `to_iso8601`: replace `+00:00` by `Z`, then
      append `Z` unless the text already ends with one. */
  function ZSuffix(s: string): (r: string)
    ensures EndsWithZ(r)
    ensures !Contains(r, UtcOffset)
  {
    var t := OffsetToZ(s);
    OffsetToZRemovesAll(s);
    if EndsWithZ(t) then t
    else
      var r := t + "Z";
      assert forall i: nat | i <= |r| :: !OccursAt(r, UtcOffset, i) by {
        forall i: nat | i <= |r| ensures !OccursAt(r, UtcOffset, i) {
          if i + |UtcOffset| == |r| {
            assert r[i..i + |UtcOffset|][|UtcOffset| - 1] == 'Z';
          } else if i + |UtcOffset| < |r| {
            assert r[i..i + |UtcOffset|] == t[i..i + |UtcOffset|];
            assert !OccursAt(t, UtcOffset, i);
          }
        }
      }
      r
  }

  lemma {:induction false} OffsetToZSuffix(body: string)
    requires '+' !in body
    ensures OffsetToZ(body + UtcOffset) == body + "Z"
    decreases |body|
  {
    if body == [] {
      assert body + UtcOffset == UtcOffset;
      assert OffsetToZ(UtcOffset[|UtcOffset|..]) == [];
    } else {
      assert (body + UtcOffset)[0] == body[0];
      assert !StartsWithOffset(body + UtcOffset);
      assert (body + UtcOffset)[1..] == body[1..] + UtcOffset;
      OffsetToZSuffix(body[1..]);
    }
  }

  /** An isoformat rendering `YYYY-MM-DDTHH:MM:SS+00:00` becomes
      `YYYY-MM-DDTHH:MM:SSZ`: the offset is swapped for `Z` and nothing else
      moves. */
  lemma UtcRenderingGetsZ(body: string)
    requires '+' !in body
    ensures ZSuffix(body + UtcOffset) == body + "Z"
  {
    OffsetToZSuffix(body);
  }

  /* ---------------------------------------------------------------------------
     Python's string ordering (code point by code point)
     ------------------------------------------------------------------------- */

  predicate LexLe(a: string, b: string)
    decreases |a|
  {
    a == [] || (b != [] && (a[0] < b[0] || (a[0] == b[0] && LexLe(a[1..], b[1..]))))
  }

  lemma {:induction false} LexLeTotal(a: string, b: string)
    ensures LexLe(a, b) || LexLe(b, a)
    decreases |a|
  {
    if a != [] && b != [] && a[0] == b[0] {
      LexLeTotal(a[1..], b[1..]);
    }
  }

  lemma {:induction false} LexLeTransitive(a: string, b: string, c: string)
    requires LexLe(a, b) && LexLe(b, c)
    ensures LexLe(a, c)
    decreases |a|
  {
    if a != [] && a[0] == b[0] && b[0] == c[0] {
      LexLeTransitive(a[1..], b[1..], c[1..]);
    }
  }

  lemma {:induction false} LexLeAntisymmetric(a: string, b: string)
    requires LexLe(a, b) && LexLe(b, a)
    ensures a == b
    decreases |a|
  {
    if a != [] {
      LexLeAntisymmetric(a[1..], b[1..]);
      assert a == [a[0]] + a[1..] && b == [b[0]] + b[1..];
    }
  }

  lemma LexLeAntisymmetry(a: string, b: string)
    ensures LexLe(a, b) && LexLe(b, a) ==> a == b
  {
    if LexLe(a, b) && LexLe(b, a) {
      LexLeAntisymmetric(a, b);
    }
  }

  /* ---------------------------------------------------------------------------
     `str(n)` for a natural number
     ------------------------------------------------------------------------- */

  predicate IsDigit(c: char) {
    '0' <= c <= '9'
  }

  function Digit(d: nat): (c: char)
    requires d < 10
    ensures IsDigit(c)
  {
    ('0' as int + d) as char
  }

  /** Decimal rendering without leading zeros. */
  function NatToString(n: nat): (s: string)
    ensures |s| >= 1
    ensures forall k | 0 <= k < |s| :: IsDigit(s[k])
    ensures n >= 10 <==> |s| >= 2
  {
    if n < 10 then [Digit(n)] else NatToString(n / 10) + [Digit(n % 10)]
  }

  /** Distinct numbers have distinct decimal renderings. */
  lemma {:induction false} NatToStringInjective(n: nat, m: nat)
    requires NatToString(n) == NatToString(m)
    ensures n == m
    decreases n
  {
    var s := NatToString(n);
    if n >= 10 {
      assert m >= 10;
      assert s[..|s| - 1] == NatToString(n / 10) == NatToString(m / 10);
      assert Digit(n % 10) == s[|s| - 1] == Digit(m % 10);
      NatToStringInjective(n / 10, m / 10);
    }
  }
}
