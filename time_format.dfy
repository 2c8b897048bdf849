/** `processing_time_format_ms`: render a duration with at most `decimal`
    digits after the point.  The source works on `repr(input_time)`; here
    that text is the input, so no floating point enters the model. */
module TimeFormat {
  import opened Text

  /** The number of fractional digits kept when the caller gives none. */
  const DefaultDecimal: int := 3

  /** The outcome: the formatted text, or the `IndexError` the source raises
      when the text has no '.' and so no second piece to index. */
  datatype Formatted = Ok(text: string) | IndexError

  /** Split the text on '.', keep the first piece whole and the second cut by
      the slice `[:decimal]`, and join them with a '.'. */
  function FormatDuration(repr: string, decimal: int): (r: Formatted)
    ensures r.IndexError? <==> '.' !in repr
  {
    var parts := Split(repr, '.');
    if |parts| < 2 then IndexError
    else Ok(parts[0] + "." + SliceTo(parts[1], decimal))
  }

  /** The first '.'-separated piece of `fraction + tail` is `fraction`
      when `fraction` has no '.' and `tail` is empty or starts with one. */
  lemma {:induction false} LeadingPiece(rest: string, fraction: string, tail: string)
    requires rest == fraction + tail
    requires '.' !in fraction
    requires tail == [] || tail[0] == '.'
    ensures Split(rest, '.')[0] == fraction
  {
    if tail == [] {
      assert rest == fraction;
      SplitNone(fraction, '.');
    } else {
      assert rest == fraction + ['.'] + tail[1..];
      SplitFirst(fraction, tail[1..], '.');
    }
  }

  /** What the formatter keeps: for a text made of an integer part, a '.',
      a fractional part and then either nothing or a further '.' and
      anything, the result is the integer part unchanged, a '.', and the
      fractional part cut by `[:decimal]`; whatever follows a second '.' is
      dropped. */
  lemma {:induction false} FormatFields(repr: string, decimal: int, whole: string, fraction: string, tail: string)
    requires repr == whole + "." + fraction + tail
    requires '.' !in whole && '.' !in fraction
    requires tail == [] || tail[0] == '.'
    ensures FormatDuration(repr, decimal) == Ok(whole + "." + SliceTo(fraction, decimal))
  {
    var rest := fraction + tail;
    assert repr == whole + ['.'] + rest;
    SplitFirst(whole, rest, '.');
    LeadingPiece(rest, fraction, tail);
  }

  /** Cutting the fraction to one of its prefixes leaves a prefix of the
      whole text. */
  lemma {:induction false} CutIsPrefix(repr: string, whole: string, fraction: string, tail: string, cut: string)
    requires repr == whole + "." + fraction + tail
    requires |cut| <= |fraction| && cut == fraction[..|cut|]
    ensures whole + "." + cut == repr[..|whole| + 1 + |cut|]
  {
    assert forall c :: 0 <= c < |whole| + 1 + |cut| ==> repr[c] == (whole + "." + cut)[c];
  }

  /** Truncation, never rounding, and no padding: with a non-negative
      `decimal` the result is the input text itself, cut just after the
      first `decimal` fractional digits, or after all of them when there
      are fewer. */
  lemma {:induction false} FormatTruncates(repr: string, decimal: int, whole: string, fraction: string, tail: string)
    requires repr == whole + "." + fraction + tail
    requires '.' !in whole && '.' !in fraction
    requires tail == [] || tail[0] == '.'
    requires 0 <= decimal
    ensures var kept := if decimal < |fraction| then decimal else |fraction|;
            FormatDuration(repr, decimal) == Ok(repr[..|whole| + 1 + kept])
  {
    FormatFields(repr, decimal, whole, fraction, tail);
    CutIsPrefix(repr, whole, fraction, tail, SliceTo(fraction, decimal));
  }

  /** Cutting a text at a '.' at `k` and again `m` characters later. */
  lemma {:induction false} DotFields(repr: string, k: nat, m: nat)
    requires k < |repr| && repr[k] == '.' && m <= |repr| - k - 1
    ensures repr == repr[..k] + "." + repr[k + 1..][..m] + repr[k + 1..][m..]
  {
    var rest := repr[k + 1..];
    assert repr == repr[..k] + repr[k..];
    assert repr[k..] == ['.'] + rest;
    assert rest == rest[..m] + rest[m..];
  }

  /** Every text with a '.' is an integer part, that '.', a fractional part
      and a rest that is empty or starts at the next '.'. */
  lemma {:induction false} FirstFields(repr: string) returns (whole: string, fraction: string, tail: string)
    requires '.' in repr
    ensures repr == whole + "." + fraction + tail
    ensures '.' !in whole && '.' !in fraction
    ensures tail == [] || tail[0] == '.'
  {
    var k := IndexOf(repr, '.');
    var rest := repr[k + 1..];
    var m := IndexOf(rest, '.');
    DotFields(repr, k, m);
    whole, fraction, tail := repr[..k], rest[..m], rest[m..];
  }

  /** Whatever `decimal` is, a successful result is a prefix of the input
      that runs past the first '.': the integer part, sign included, is
      always kept whole, and nothing is rounded or added. */
  lemma {:induction false} FormatIsPrefix(repr: string, decimal: int)
    ensures var r := FormatDuration(repr, decimal);
            r.Ok? ==> r.text <= repr && '.' in r.text
  {
    if '.' in repr {
      var whole, fraction, tail := FirstFields(repr);
      FormatFields(repr, decimal, whole, fraction, tail);
      var cut := SliceTo(fraction, decimal);
      CutIsPrefix(repr, whole, fraction, tail, cut);
      assert (whole + "." + cut)[|whole|] == '.';
    }
  }

  // Worked cases.  Each input is spelled as integer part + "." + fraction,
  // the same text as the one literal, so that the proof is one instance of
  // FormatFields with those three pieces; a single literal would make the
  // verifier evaluate `Split` on it character by character instead.

  /** Three digits kept of six, the default. */
  lemma {:induction false} ExampleDefaultPrecision()
    ensures FormatDuration("2" + "." + "123456", DefaultDecimal) == Ok("2.123")
  {
    FormatFields("2" + "." + "123456", DefaultDecimal, "2", "123456", "");
  }

  /** The digits past the cut are dropped, not rounded: 2.987654 gives 2.987. */
  lemma {:induction false} ExampleTruncatesNotRounds()
    ensures FormatDuration("2" + "." + "987654", DefaultDecimal) == Ok("2.987")
  {
    FormatFields("2" + "." + "987654", DefaultDecimal, "2", "987654", "");
  }

  /** A short fraction is not padded: 2.0 stays "2.0", not "2.000". */
  lemma {:induction false} ExampleNoPadding()
    ensures FormatDuration("2" + "." + "0", DefaultDecimal) == Ok("2.0")
  {
    FormatFields("2" + "." + "0", DefaultDecimal, "2", "0", "");
  }

  /** The sign stays with the integer part. */
  lemma {:induction false} ExampleNegativeValue()
    ensures FormatDuration("-0" + "." + "25", 1) == Ok("-0.2")
  {
    FormatFields("-0" + "." + "25", 1, "-0", "25", "");
  }

  /** With `decimal` 0 the result ends in a bare '.'. */
  lemma {:induction false} ExampleZeroDecimal()
    ensures FormatDuration("2" + "." + "5", 0) == Ok("2.")
  {
    FormatFields("2" + "." + "5", 0, "2", "5", "");
  }

  /** A negative `decimal` drops that many digits from the end, as a Python
      slice does. */
  lemma {:induction false} ExampleNegativeDecimal()
    ensures FormatDuration("2" + "." + "123456", -2) == Ok("2.1234")
  {
    FormatFields("2" + "." + "123456", -2, "2", "123456", "");
  }

  /** A text in exponent notation, as `repr` gives for 0.00001, has no '.',
      so the source's `micro_second[1]` raises. */
  lemma {:induction false} ExampleExponentNotation()
    ensures FormatDuration("1e-05", DefaultDecimal) == IndexError
  {
  }
}
