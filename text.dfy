/** The few Python `str` operations the helpers in information.py rely on,
    over Dafny strings (`seq<char>`): literal substring search, `splitlines`,
    `split` on one separator character, and the slice `s[:stop]`. */
module Text {

  /** `pattern` occurs in `s` starting at index `i`. */
  predicate OccursAt(s: string, pattern: string, i: nat)
  {
    i + |pattern| <= |s| && s[i..i + |pattern|] == pattern
  }

  /** Literal substring search, which is what `re.search` does with a pattern
      that holds no special characters: try index 0, then the rest of `s`. */
  predicate Contains(s: string, pattern: string)
    decreases |s|
  {
    OccursAt(s, pattern, 0) || (s != [] && Contains(s[1..], pattern))
  }

  /** The search finds the pattern exactly when it occurs at some index. */
  lemma {:induction false} ContainsIffOccurs(s: string, pattern: string)
    ensures Contains(s, pattern) <==> exists i: nat :: OccursAt(s, pattern, i)
    decreases |s|
  {
    if s == [] {
      if exists i: nat :: OccursAt(s, pattern, i) {
        var i: nat :| OccursAt(s, pattern, i);
        assert i == 0;
      }
    } else {
      ContainsIffOccurs(s[1..], pattern);
      if exists i: nat :: OccursAt(s, pattern, i) {
        var i: nat :| OccursAt(s, pattern, i);
        if i > 0 {
          assert s[1..][i - 1..i - 1 + |pattern|] == s[i..i + |pattern|];
          assert OccursAt(s[1..], pattern, i - 1);
        }
      }
      if exists i: nat :: OccursAt(s[1..], pattern, i) {
        var i: nat :| OccursAt(s[1..], pattern, i);
        assert s[i + 1..i + 1 + |pattern|] == s[1..][i..i + |pattern|];
        assert OccursAt(s, pattern, i + 1);
      }
    }
  }

  /** A pattern found in a piece of `s` is found in `s` itself. */
  lemma {:induction false} ContainsInFactor(s: string, i: nat, j: nat, pattern: string)
    requires i <= j <= |s|
    requires Contains(s[i..j], pattern)
    ensures Contains(s, pattern)
  {
    ContainsIffOccurs(s[i..j], pattern);
    var t: nat :| OccursAt(s[i..j], pattern, t);
    forall c | 0 <= c < |pattern|
      ensures s[i + t..i + t + |pattern|][c] == pattern[c]
    {
      assert pattern[c] == s[i..j][t..t + |pattern|][c] == s[i..j][t + c];
    }
    assert OccursAt(s, pattern, i + t);
    ContainsIffOccurs(s, pattern);
  }

  /** Both ends of a text are found in it. */
  lemma {:induction false} ContainsEnds(front: string, middle: string, back: string)
    ensures Contains(front + middle + back, front)
    ensures Contains(front + middle + back, back)
  {
    var s := front + middle + back;
    assert OccursAt(s, front, 0);
    assert OccursAt(s, back, |front| + |middle|);
    ContainsIffOccurs(s, front);
    ContainsIffOccurs(s, back);
  }

  /** A string holds no pattern longer than itself. */
  lemma {:induction false} ContainsNeedsLength(s: string, pattern: string)
    requires Contains(s, pattern)
    ensures |pattern| <= |s|
  {
    ContainsIffOccurs(s, pattern);
  }

  /** Every character of a pattern found in `s` is a character of `s`. */
  lemma {:induction false} OccursKeepsChars(s: string, pattern: string, i: nat)
    requires OccursAt(s, pattern, i)
    ensures forall c :: c in pattern ==> c in s
  {
    forall c | c in pattern
      ensures c in s
    {
      var t :| 0 <= t < |pattern| && pattern[t] == c;
      assert s[i + t] == s[i..i + |pattern|][t];
    }
  }

  /** A pattern holding a character that `s` lacks is not found in `s`. */
  lemma {:induction false} MissingChar(s: string, pattern: string, c: char)
    requires c in pattern && c !in s
    ensures !Contains(s, pattern)
  {
    ContainsIffOccurs(s, pattern);
    if Contains(s, pattern) {
      var i: nat :| OccursAt(s, pattern, i);
      OccursKeepsChars(s, pattern, i);
    }
  }

  /** The characters Python's `str.splitlines` treats as line boundaries:
      line feed, carriage return, vertical tab, form feed, the file, group and
      record separators, next line, line separator and paragraph separator. */
  predicate IsLineBreak(c: char)
  {
    c == '\n' || c == '\r' || c == '\U{0B}' || c == '\U{0C}'
    || c == '\U{1C}' || c == '\U{1D}' || c == '\U{1E}'
    || c == '\U{85}' || c == '\U{2028}' || c == '\U{2029}'
  }

  /** `s` holds no line boundary at all. */
  predicate NoBreak(s: string)
  {
    forall c :: 0 <= c < |s| ==> !IsLineBreak(s[c])
  }

  /** A stretch of `s` without boundaries has none at any of its positions. */
  lemma {:induction false} NoBreakWithin(s: string, i: nat, j: nat)
    requires i <= j <= |s| && NoBreak(s[i..j])
    ensures forall p :: i <= p < j ==> !IsLineBreak(s[p])
  {
    forall p | i <= p < j
      ensures !IsLineBreak(s[p])
    {
      assert s[i..j][p - i] == s[p];
    }
  }

  /** The index of the first line boundary in `s`, or `|s|` when there is none. */
  function FirstBreak(s: string): (k: nat)
    ensures k <= |s|
    ensures NoBreak(s[..k])
    ensures k < |s| ==> IsLineBreak(s[k])
  {
    if s == [] || IsLineBreak(s[0]) then 0
    else
      var k := 1 + FirstBreak(s[1..]);
      assert forall c :: 1 <= c < k ==> s[..k][c] == s[1..][..k - 1][c - 1];
      k
  }

  /** How many characters the boundary at `k` takes: two for "\r\n", else one. */
  function BreakWidth(s: string, k: nat): (w: nat)
    requires k < |s|
    ensures 1 <= w <= |s| - k
    ensures w == 2 <==> s[k] == '\r' && k + 1 < |s| && s[k + 1] == '\n'
  {
    if s[k] == '\r' && k + 1 < |s| && s[k + 1] == '\n' then 2 else 1
  }

  /** Python's `str.splitlines()` without `keepends`: the boundaries are dropped,
      "\r\n" counts as one boundary, and a boundary at the very end does not
      start a further, empty line. */
  function SplitLines(s: string): (lines: seq<string>)
    ensures forall line :: line in lines ==> NoBreak(line)
    ensures s == [] <==> lines == []
    decreases |s|
  {
    if s == [] then []
    else
      var k := FirstBreak(s);
      if k == |s| then
        assert s[..k] == s;
        [s]
      else
        [s[..k]] + SplitLines(s[k + BreakWidth(s, k)..])
  }

  /** A text with no boundary is a single line. */
  lemma {:induction false} SplitLinesWhole(s: string)
    requires s != [] && FirstBreak(s) == |s|
    ensures SplitLines(s) == [s]
  {
  }

  /** A text with a boundary: the line before it, then the lines after it. */
  lemma {:induction false} SplitLinesStep(s: string)
    requires s != [] && FirstBreak(s) < |s|
    ensures SplitLines(s) == [s[..FirstBreak(s)]] + SplitLines(s[FirstBreak(s) + BreakWidth(s, FirstBreak(s))..])
  {
  }

  /** The index of the first `c` in `s`, or `|s|` when `c` is not in `s`. */
  function IndexOf(s: string, c: char): (k: nat)
    ensures k <= |s|
    ensures c !in s[..k]
    ensures k < |s| ==> s[k] == c
    ensures k < |s| <==> c in s
  {
    if s == [] || s[0] == c then 0
    else
      var k := 1 + IndexOf(s[1..], c);
      assert s[..k] == [s[0]] + s[1..][..k - 1];
      k
  }

  /** Python's `sep.join(parts)` for a one-character separator. */
  function Join(parts: seq<string>, sep: char): string
  {
    if |parts| == 0 then ""
    else if |parts| == 1 then parts[0]
    else parts[0] + [sep] + Join(parts[1..], sep)
  }

  /** `Join` on a list of two or more: the first part, the separator, then
      the others joined. */
  lemma {:induction false} JoinCons(first: string, others: seq<string>, sep: char)
    requires |others| >= 1
    ensures Join([first] + others, sep) == first + [sep] + Join(others, sep)
  {
    assert ([first] + others)[1..] == others;
  }

  /** Python's `s.split(sep)` for a one-character separator: the pieces between
      the separators, with an empty piece where two separators touch or one
      stands at either end; a string without `sep` gives a single piece. */
  function Split(s: string, sep: char): (parts: seq<string>)
    ensures |parts| >= 1
    ensures |parts| == 1 <==> sep !in s
    decreases |s|
  {
    var k := IndexOf(s, sep);
    if k == |s| then [s]
    else [s[..k]] + Split(s[k + 1..], sep)
  }

  /** A text holding the separator: the piece before its first occurrence,
      then the pieces of what follows it. */
  lemma {:induction false} SplitStep(s: string, sep: char)
    requires sep in s
    ensures Split(s, sep) == [s[..IndexOf(s, sep)]] + Split(s[IndexOf(s, sep) + 1..], sep)
  {
  }

  /** Cutting `s` around the separator at `k`. */
  lemma {:induction false} CutAround(s: string, k: nat, sep: char)
    requires k < |s| && s[k] == sep
    ensures s == s[..k] + [sep] + s[k + 1..]
  {
  }

  /** The pieces hold no separator, and joining them with it gives the text
      back. */
  lemma {:induction false} JoinSplit(s: string, sep: char)
    ensures forall part :: part in Split(s, sep) ==> sep !in part
    ensures Join(Split(s, sep), sep) == s
    decreases |s|
  {
    var k := IndexOf(s, sep);
    if k == |s| {
      assert s[..k] == s;
    } else {
      var first := s[..k];
      var rest := Split(s[k + 1..], sep);
      SplitStep(s, sep);
      JoinSplit(s[k + 1..], sep);
      forall part | part in [first] + rest
        ensures sep !in part
      {
        if part != first {
          assert part in rest;
        }
      }
      JoinCons(first, rest, sep);
      CutAround(s, k, sep);
    }
  }

  /** Splitting peels off the text before the first separator as one piece. */
  lemma {:induction false} SplitFirst(first: string, rest: string, sep: char)
    requires sep !in first
    ensures Split(first + [sep] + rest, sep) == [first] + Split(rest, sep)
  {
    var s := first + [sep] + rest;
    var k := IndexOf(s, sep);
    assert k == |first| by {
      assert forall c :: 0 <= c < |first| ==> s[c] == first[c];
      assert s[|first|] == sep;
    }
    assert s[..k] == first;
    assert s[k + 1..] == rest;
  }

  /** A text without the separator is a single piece. */
  lemma {:induction false} SplitNone(s: string, sep: char)
    requires sep !in s
    ensures Split(s, sep) == [s]
  {
    assert s[..IndexOf(s, sep)] == s;
  }

  /** Splitting what `Join` glued back together gives the pieces back, as
      long as no piece holds the separator. */
  lemma {:induction false} SplitJoin(parts: seq<string>, sep: char)
    requires |parts| >= 1
    requires forall part :: part in parts ==> sep !in part
    ensures Split(Join(parts, sep), sep) == parts
  {
    if |parts| > 1 {
      assert parts[0] in parts;
      SplitFirst(parts[0], Join(parts[1..], sep), sep);
      SplitJoin(parts[1..], sep);
    }
  }

  /** The first boundary of a text whose first boundary is `c`, placed just
      after the boundary-free `first`, is at `|first|`. */
  lemma {:induction false} FirstBreakAt(first: string, c: char, rest: string)
    requires NoBreak(first) && IsLineBreak(c)
    ensures FirstBreak(first + [c] + rest) == |first|
  {
    var s := first + [c] + rest;
    var k := FirstBreak(s);
    NoBreakWithin(s, 0, k);
    assert s[..k] == s[0..k];
    assert s[|first|] == c;
    assert forall p :: 0 <= p < |first| ==> s[p] == first[p];
  }

  /** Lines without boundaries, joined with line feeds, split back into the
      same lines, provided the last line is not empty (a boundary at the very
      end starts no further line). */
  lemma {:induction false} SplitLinesJoin(lines: seq<string>)
    requires |lines| >= 1 && lines[|lines| - 1] != []
    requires forall line :: line in lines ==> NoBreak(line)
    ensures SplitLines(Join(lines, '\n')) == lines
    decreases |lines|
  {
    assert lines[0] in lines;
    if |lines| == 1 {
      SplitLinesWhole(lines[0]);
    } else {
      var first := lines[0];
      var rest := Join(lines[1..], '\n');
      var s := first + ['\n'] + rest;
      FirstBreakAt(first, '\n', rest);
      assert s[..|first|] == first;
      assert s[|first| + 1..] == rest;
      SplitLinesStep(s);
      forall line | line in lines[1..]
        ensures NoBreak(line)
      {
        assert line in lines;
      }
      SplitLinesJoin(lines[1..]);
    }
  }

  /** Every boundary in `s` is a line feed. */
  predicate OnlyLineFeeds(s: string)
  {
    forall i :: 0 <= i < |s| && IsLineBreak(s[i]) ==> s[i] == '\n'
  }

  /** Every suffix of such a text keeps the property and the last character. */
  lemma {:induction false} OnlyLineFeedsSuffix(s: string, d: nat)
    requires OnlyLineFeeds(s) && d < |s|
    ensures OnlyLineFeeds(s[d..]) && s[d..][|s| - d - 1] == s[|s| - 1]
  {
    forall i | 0 <= i < |s| - d && IsLineBreak(s[d..][i])
      ensures s[d..][i] == '\n'
    {
      assert s[d..][i] == s[d + i];
    }
  }

  /** A text whose boundaries are all line feeds, and which does not end in
      one, is its lines joined with line feeds: `splitlines` drops exactly
      the boundaries and nothing else. */
  lemma {:induction false} JoinSplitLines(s: string)
    requires OnlyLineFeeds(s)
    requires s == [] || s[|s| - 1] != '\n'
    ensures Join(SplitLines(s), '\n') == s
    decreases |s|
  {
    if s != [] {
      var k := FirstBreak(s);
      if k == |s| {
        SplitLinesWhole(s);
      } else {
        var rest := s[k + 1..];
        assert s[k] == '\n';
        assert k + 1 < |s|;
        SplitLinesStep(s);
        OnlyLineFeedsSuffix(s, k + 1);
        JoinSplitLines(rest);
        JoinCons(s[..k], SplitLines(rest), '\n');
        CutAround(s, k, '\n');
      }
    }
  }

  /** Python's slice `s[:stop]`: a negative `stop` counts from the end, and a
      `stop` past either end is clamped to it. */
  function SliceTo(s: string, stop: int): (r: string)
    ensures |r| <= |s| && r == s[..|r|]
    ensures 0 <= stop ==> |r| == if stop < |s| then stop else |s|
    ensures stop < 0 ==> |r| == if |s| + stop < 0 then 0 else |s| + stop
  {
    if 0 <= stop then
      if stop < |s| then s[..stop] else s
    else
      if |s| + stop < 0 then [] else s[..|s| + stop]
  }
}
