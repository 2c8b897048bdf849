/** `opencv_built_with_gstreamer`: does the video library's build report say
    that the GStreamer back end was compiled in?  The report is a parameter
    here, standing for the text `cv2.getBuildInformation()` returns. */
module BuildInfo {
  import opened Text

  /** The feature name looked for on a line of the report. */
  const FeatureMarker: string := "GStreamer"
  /** The flag that must stand on the same line. */
  const EnabledMarker: string := "YES"

  /** The per-line test: both markers, as case-sensitive substrings, in any order. */
  predicate HasBothMarkers(line: string)
  {
    Contains(line, FeatureMarker) && Contains(line, EnabledMarker)
  }

  /** The `for` loop over the lines, which returns true at the first line
      carrying both markers and false once the lines run out. */
  predicate AnyLineHasBoth(lines: seq<string>)
  {
    |lines| > 0 && (HasBothMarkers(lines[0]) || AnyLineHasBoth(lines[1..]))
  }

  /** The detector: scan the report one line at a time. */
  predicate BuiltWithGStreamer(info: string)
  {
    AnyLineHasBoth(SplitLines(info))
  }

  /** The loop answers true exactly when some line carries both markers. */
  lemma {:induction false} AnyLineHasBothIff(lines: seq<string>)
    ensures AnyLineHasBoth(lines) <==> exists k :: 0 <= k < |lines| && HasBothMarkers(lines[k])
  {
    if |lines| > 0 {
      AnyLineHasBothIff(lines[1..]);
      if exists k :: 0 <= k < |lines| && HasBothMarkers(lines[k]) {
        var k :| 0 <= k < |lines| && HasBothMarkers(lines[k]);
        if k > 0 {
          assert lines[1..][k - 1] == lines[k];
        }
      }
      if exists k :: 0 <= k < |lines[1..]| && HasBothMarkers(lines[1..][k]) {
        var k :| 0 <= k < |lines[1..]| && HasBothMarkers(lines[1..][k]);
        assert lines[k + 1] == lines[1..][k];
      }
    }
  }

  /** The stretch `info[i..j]` lies within one line (it crosses no line
      boundary) and carries both markers. */
  ghost predicate MarkedSpan(info: string, i: nat, j: nat)
  {
    i <= j <= |info| && NoBreak(info[i..j]) && HasBothMarkers(info[i..j])
  }

  /** Both markers need room: a marked stretch is at least as long as "YES". */
  lemma {:induction false} MarkedSpanLength(info: string, i: nat, j: nat)
    ensures MarkedSpan(info, i, j) ==> i + |EnabledMarker| <= j
  {
    if MarkedSpan(info, i, j) {
      ContainsNeedsLength(info[i..j], EnabledMarker);
    }
  }

  /** A description of the answer that does not go through `splitlines`:
      some stretch of the report that crosses no line boundary holds both
      markers. */
  ghost predicate SomeLineMarked(info: string)
  {
    exists i: nat, j: nat :: MarkedSpan(info, i, j)
  }

  /** Any marked stretch of a line leaves both markers in the line. */
  lemma {:induction false} MarkedSpanInLine(line: string, i: nat, j: nat)
    requires MarkedSpan(line, i, j)
    ensures HasBothMarkers(line)
  {
    ContainsInFactor(line, i, j, FeatureMarker);
    ContainsInFactor(line, i, j, EnabledMarker);
  }

  /** A line without boundaries that carries both markers is itself a
      marked stretch. */
  lemma {:induction false} WholeLineMarked(line: string)
    requires NoBreak(line) && HasBothMarkers(line)
    ensures MarkedSpan(line, 0, |line|)
  {
    assert line[0..|line|] == line;
  }

  /** Marked stretches inside the first `k` characters are the same
      whether or not the text is cut there. */
  lemma {:induction false} MarkedSpanPrefix(s: string, k: nat, i: nat, j: nat)
    requires i <= j <= k <= |s|
    ensures MarkedSpan(s[..k], i, j) <==> MarkedSpan(s, i, j)
  {
    assert s[..k][i..j] == s[i..j];
  }

  /** Marked stretches of `s[d..]` are those of `s`, moved by `d`. */
  lemma {:induction false} MarkedSpanShift(s: string, d: nat, i: nat, j: nat)
    requires i <= j && d + j <= |s|
    ensures MarkedSpan(s[d..], i, j) <==> MarkedSpan(s, d + i, d + j)
  {
    assert forall p :: 0 <= p < j - i ==> s[d..][i..j][p] == s[d + i..d + j][p];
    assert s[d..][i..j] == s[d + i..d + j];
  }

  /** The loop over a list of lines: the first line, then the others. */
  lemma {:induction false} AnyLineHasBothCons(line: string, others: seq<string>)
    ensures AnyLineHasBoth([line] + others) <==> HasBothMarkers(line) || AnyLineHasBoth(others)
  {
    assert ([line] + others)[1..] == others;
  }

  /** A report without line boundaries is one line: the detector answers
      for it alone. */
  lemma {:induction false} SingleLineReport(info: string)
    requires info != [] && FirstBreak(info) == |info|
    ensures BuiltWithGStreamer(info) <==> HasBothMarkers(info)
  {
    SplitLinesWhole(info);
    AnyLineHasBothCons(info, []);
    assert [info] + [] == [info];
  }

  /** A report with a line boundary: the first line, then the rest. */
  lemma {:induction false} FirstLineThenRest(info: string)
    requires info != [] && FirstBreak(info) < |info|
    ensures var k := FirstBreak(info);
            BuiltWithGStreamer(info)
            <==> HasBothMarkers(info[..k]) || BuiltWithGStreamer(info[k + BreakWidth(info, k)..])
  {
    var k := FirstBreak(info);
    SplitLinesStep(info);
    AnyLineHasBothCons(info[..k], SplitLines(info[k + BreakWidth(info, k)..]));
  }

  /** A marked stretch of a report lies wholly in its first line or wholly
      after the first boundary. */
  lemma {:induction false} MarkedSpanSide(info: string, i: nat, j: nat)
    requires info != [] && FirstBreak(info) < |info|
    requires MarkedSpan(info, i, j)
    ensures var k := FirstBreak(info);
            var d := k + BreakWidth(info, k);
            || (j <= k && HasBothMarkers(info[..k]))
            || (d <= i && MarkedSpan(info[d..], i - d, j - d))
  {
    var k := FirstBreak(info);
    var d := k + BreakWidth(info, k);
    MarkedSpanLength(info, i, j);
    NoBreakWithin(info, i, j);
    if j <= k {
      MarkedSpanPrefix(info, k, i, j);
      MarkedSpanInLine(info[..k], i, j);
    } else {
      assert d <= i;
      MarkedSpanShift(info, d, i - d, j - d);
    }
  }

  /** The marked-stretch description, one line at a time. */
  lemma {:induction false} SomeLineMarkedStep(info: string)
    requires info != [] && FirstBreak(info) < |info|
    ensures var k := FirstBreak(info);
            SomeLineMarked(info)
            <==> HasBothMarkers(info[..k]) || SomeLineMarked(info[k + BreakWidth(info, k)..])
  {
    var k := FirstBreak(info);
    var d := k + BreakWidth(info, k);
    if HasBothMarkers(info[..k]) {
      WholeLineMarked(info[..k]);
      MarkedSpanPrefix(info, k, 0, k);
    }
    if SomeLineMarked(info[d..]) {
      var i: nat, j: nat :| MarkedSpan(info[d..], i, j);
      MarkedSpanShift(info, d, i, j);
    }
    if SomeLineMarked(info) {
      var i: nat, j: nat :| MarkedSpan(info, i, j);
      MarkedSpanSide(info, i, j);
    }
  }

  /** The marked-stretch description of a report that is one line. */
  lemma {:induction false} SomeLineMarkedSingle(info: string)
    requires info != [] && FirstBreak(info) == |info|
    ensures SomeLineMarked(info) <==> HasBothMarkers(info)
  {
    assert info[..|info|] == info;
    if HasBothMarkers(info) {
      WholeLineMarked(info);
    }
    if SomeLineMarked(info) {
      var i: nat, j: nat :| MarkedSpan(info, i, j);
      MarkedSpanInLine(info, i, j);
    }
  }

  /** The detector says yes exactly when both markers stand on one line. */
  lemma {:induction false} BuiltIffSomeLineMarked(info: string)
    ensures BuiltWithGStreamer(info) <==> SomeLineMarked(info)
    decreases |info|
  {
    if info == [] {
      forall i: nat, j: nat
        ensures !MarkedSpan(info, i, j)
      {
        MarkedSpanLength(info, i, j);
      }
    } else if FirstBreak(info) == |info| {
      SingleLineReport(info);
      SomeLineMarkedSingle(info);
    } else {
      var k := FirstBreak(info);
      BuiltIffSomeLineMarked(info[k + BreakWidth(info, k)..]);
      FirstLineThenRest(info);
      SomeLineMarkedStep(info);
    }
  }

  /** The pieces of `a + "\n" + b`. */
  lemma {:induction false} JoinedPieces(a: string, b: string)
    ensures var s := a + "\n" + b;
            s[..|a|] == a && s[|a|] == '\n' && s[|a| + 1..] == b
  {
    var s := a + "\n" + b;
    assert s[..|a|] == a;
    assert s[|a| + 1..] == b;
  }

  /** A marked stretch of `a + "\n" + b` lies wholly in `a` or wholly in `b`. */
  lemma {:induction false} JoinedSpanSide(a: string, b: string, i: nat, j: nat)
    requires MarkedSpan(a + "\n" + b, i, j)
    ensures || (j <= |a| && MarkedSpan(a, i, j))
            || (|a| + 1 <= i && MarkedSpan(b, i - |a| - 1, j - |a| - 1))
  {
    var s := a + "\n" + b;
    var d := |a| + 1;
    JoinedPieces(a, b);
    MarkedSpanLength(s, i, j);
    NoBreakWithin(s, i, j);
    assert IsLineBreak(s[|a|]);
    if j <= |a| {
      MarkedSpanPrefix(s, |a|, i, j);
    } else {
      assert d <= i;
      MarkedSpanShift(s, d, i - d, j - d);
    }
  }

  /** The marked stretches of `a + "\n" + b` are those of `a` and those of
      `b`. */
  lemma {:induction false} JoinedSpans(a: string, b: string)
    ensures SomeLineMarked(a + "\n" + b) <==> SomeLineMarked(a) || SomeLineMarked(b)
  {
    var s := a + "\n" + b;
    var d := |a| + 1;
    JoinedPieces(a, b);
    if SomeLineMarked(a) {
      var i: nat, j: nat :| MarkedSpan(a, i, j);
      MarkedSpanPrefix(s, |a|, i, j);
    }
    if SomeLineMarked(b) {
      var i: nat, j: nat :| MarkedSpan(b, i, j);
      MarkedSpanShift(s, d, i, j);
    }
    if SomeLineMarked(s) {
      var i: nat, j: nat :| MarkedSpan(s, i, j);
      JoinedSpanSide(a, b, i, j);
    }
  }

  /** Joining two reports with a line feed answers yes exactly when one of
      them does: markers are never combined across the new boundary. */
  lemma {:induction false} BuiltOverJoinedReports(a: string, b: string)
    ensures BuiltWithGStreamer(a + "\n" + b) <==> BuiltWithGStreamer(a) || BuiltWithGStreamer(b)
  {
    BuiltIffSomeLineMarked(a + "\n" + b);
    BuiltIffSomeLineMarked(a);
    BuiltIffSomeLineMarked(b);
    JoinedSpans(a, b);
  }

  /** The markers must share a line: a report whose first part has no "YES"
      and whose second part has no "GStreamer" answers no, although the
      report as a whole holds both words. */
  lemma {:induction false} MarkersOnSeparateLines(a: string, b: string)
    requires !Contains(a, EnabledMarker) && !Contains(b, FeatureMarker)
    ensures !BuiltWithGStreamer(a + "\n" + b)
  {
    BuiltOverJoinedReports(a, b);
    if BuiltWithGStreamer(a) {
      BuiltIffSomeLineMarked(a);
      var i: nat, j: nat :| MarkedSpan(a, i, j);
      ContainsInFactor(a, i, j, EnabledMarker);
    }
    if BuiltWithGStreamer(b) {
      BuiltIffSomeLineMarked(b);
      var i: nat, j: nat :| MarkedSpan(b, i, j);
      ContainsInFactor(b, i, j, FeatureMarker);
    }
  }

  /** A yes needs both markers somewhere in the report. */
  lemma {:induction false} BuiltNeedsBothMarkers(info: string)
    ensures BuiltWithGStreamer(info) ==> Contains(info, FeatureMarker) && Contains(info, EnabledMarker)
  {
    BuiltIffSomeLineMarked(info);
    if BuiltWithGStreamer(info) {
      var i: nat, j: nat :| MarkedSpan(info, i, j);
      ContainsInFactor(info, i, j, FeatureMarker);
      ContainsInFactor(info, i, j, EnabledMarker);
    }
  }

  /** A single line carrying both markers is detected. */
  lemma {:induction false} LineWithBothMarkers(line: string)
    requires NoBreak(line) && HasBothMarkers(line)
    ensures BuiltWithGStreamer(line)
  {
    WholeLineMarked(line);
    BuiltIffSomeLineMarked(line);
  }

  /** A line with both markers is detected, "YES" after "GStreamer"... */
  lemma {:induction false} ExampleEnabled()
    ensures BuiltWithGStreamer("GStreamer: YES")
  {
    var line := "GStreamer: YES";
    assert line == FeatureMarker + ": " + EnabledMarker;
    ContainsEnds(FeatureMarker, ": ", EnabledMarker);
    LineWithBothMarkers(line);
  }

  /** ... and so is one with "YES" before "GStreamer". */
  lemma {:induction false} ExampleEitherOrder()
    ensures BuiltWithGStreamer("YES: GStreamer")
  {
    var line := "YES: GStreamer";
    assert line == EnabledMarker + ": " + FeatureMarker;
    ContainsEnds(EnabledMarker, ": ", FeatureMarker);
    LineWithBothMarkers(line);
  }

  /** "GStreamer" on one line and "YES" on the next is a no.  The two lines
      are parameters fixed by the precondition: with the whole report as a
      literal in the postcondition, the verifier would evaluate the line
      splitting and both searches on it character by character, which costs
      far more than the general lemma it instantiates. */
  lemma {:induction false} ExampleSeparateLines(first: string, second: string)
    requires first == "GStreamer: NO" && second == "FFMPEG: YES"
    ensures !BuiltWithGStreamer(first + "\n" + second)
  {
    MissingChar(first, EnabledMarker, 'Y');
    MissingChar(second, FeatureMarker, 't');
    MarkersOnSeparateLines(first, second);
  }

  /** The markers are case-sensitive. */
  lemma {:induction false} ExampleCaseSensitive()
    ensures !BuiltWithGStreamer("gstreamer: yes")
  {
    MissingChar("gstreamer: yes", FeatureMarker, 'G');
    BuiltNeedsBothMarkers("gstreamer: yes");
  }
}
