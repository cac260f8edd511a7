/**
 * The date filter: input normalization, and the loop that splits a format string with
 * DATE_FORMATS_SPLIT = /([^yMdHhmsaZE]*)(E+|y+|M+|d+|H+|h+|m+|s+|a|Z)(.*)/ into parts and
 * renders each part through the directive table.
 */
module DateFilter {
  import opened Wrappers
  import opened Decimal
  import opened DateFormats
  import opened Slices

  /** The characters the regular-expression `.` does not match. */
  predicate IsLineTerminator(c: char) {
    c == '\n' || c == '\r' || c == '\U{2028}' || c == '\U{2029}'
  }

  predicate NoLineTerminator(s: string) {
    forall i :: 0 <= i < |s| ==> !IsLineTerminator(s[i])
  }

  /** The first directive character at or after `i`, or |f| when there is none. */
  function FirstDirective(f: string, i: nat): (k: nat)
    requires i <= |f|
    ensures i <= k <= |f|
    ensures forall j :: i <= j < k ==> !IsDirectiveChar(f[j])
    ensures k < |f| ==> IsDirectiveChar(f[k])
    decreases |f| - i
  {
    if i == |f| || IsDirectiveChar(f[i]) then i else FirstDirective(f, i + 1)
  }

  /** The end of the longest run of the character `f[i]` that starts at `i`. */
  function SameCharEnd(f: string, i: nat, k: nat): (e: nat)
    requires i < k <= |f| && forall j :: i <= j < k ==> f[j] == f[i]
    ensures k <= e <= |f| && forall j :: i <= j < e ==> f[j] == f[i]
    ensures e < |f| ==> f[e] != f[i]
    decreases |f| - k
  {
    if k == |f| || f[k] != f[i] then k else SameCharEnd(f, i, k + 1)
  }

  /** The end of the directive group matched at `i`: a greedy letter run, or one `a` or `Z`. */
  function DirectiveEnd(f: string, i: nat): (e: nat)
    requires i < |f| && IsDirectiveChar(f[i])
    ensures i < e <= |f| && forall j :: i <= j < e ==> f[j] == f[i]
    ensures f[i] == 'a' || f[i] == 'Z' ==> e == i + 1
    ensures f[i] != 'a' && f[i] != 'Z' && e < |f| ==> f[e] != f[i]
  {
    if f[i] == 'a' || f[i] == 'Z' then i + 1 else SameCharEnd(f, i, i + 1)
  }

  /** The end of the `(.*)` group started at `i`: the first line terminator, or |f|. */
  function LineEnd(f: string, i: nat): (e: nat)
    requires i <= |f|
    ensures i <= e <= |f| && forall j :: i <= j < e ==> !IsLineTerminator(f[j])
    ensures e < |f| ==> IsLineTerminator(f[e])
    decreases |f| - i
  {
    if i == |f| || IsLineTerminator(f[i]) then i else LineEnd(f, i + 1)
  }

  /** The three groups of one successful DATE_FORMATS_SPLIT match. */
  datatype SplitMatch = SplitMatch(literal: string, directive: string, tail: string)

  /**
   * `DATE_FORMATS_SPLIT.exec(f)`: the match exists exactly when `f` holds a directive
   * character; the literal group is everything before the first one, the directive group is
   * the greedy run there, and the tail runs to the first line terminator or the end.
   */
  function Split(f: string): (r: Option<SplitMatch>)
    ensures r.None? <==> NoDirectiveChar(f)
    ensures r.Some? ==> |r.value.directive| >= 1 && |r.value.tail| < |f|
    ensures r.Some? ==> r.value.literal + r.value.directive + r.value.tail <= f
    ensures r.Some? ==> NoDirectiveChar(r.value.literal)
    ensures r.Some? ==> IsRun(r.value.directive) && IsDirectiveChar(r.value.directive[0])
    ensures r.Some? && (r.value.directive[0] == 'a' || r.value.directive[0] == 'Z') ==> |r.value.directive| == 1
    ensures r.Some? ==> NoLineTerminator(r.value.tail)
    ensures r.Some? && NoLineTerminator(f) ==> r.value.literal + r.value.directive + r.value.tail == f
    ensures r.Some? ==> var n := |r.value.literal| + |r.value.directive|;
      r.value.directive[0] != 'a' && r.value.directive[0] != 'Z' && n < |f| ==> f[n] != r.value.directive[0]
    ensures r.Some? ==> var n := |r.value.literal| + |r.value.directive| + |r.value.tail|;
      n < |f| ==> IsLineTerminator(f[n])
  {
    var i := FirstDirective(f, 0);
    if i == |f| then
      None
    else
      var e := DirectiveEnd(f, i);
      var t := LineEnd(f, e);
      SliceParts(f, i, e, t);
      assert NoLineTerminator(f) ==> t == |f|;
      Some(SplitMatch(f[..i], f[i..e], f[e..t]))
  }

  /**
   * The parts the loop collects: on a match it keeps the literal and directive groups and
   * continues with the tail (stopping once the tail is empty); without a match it keeps
   * the whole remaining format as the last part.
   */
  function Tokenize(f: string): seq<string>
    decreases |f|
  {
    if f == "" then []
    else
      match Split(f)
      case None => [f]
      case Some(m) => [m.literal, m.directive] + Tokenize(m.tail)
  }

  function Concat(parts: seq<string>): string {
    if parts == [] then "" else parts[0] + Concat(parts[1..])
  }

  /** The `forEach` over the parts: each rendered through the table, in order. */
  function Render(parts: seq<string>, d: Date): string {
    if parts == [] then "" else Render(parts[..|parts| - 1], d) + RenderPart(parts[|parts| - 1], d)
  }

  lemma RenderStep(parts: seq<string>, i: nat, d: Date)
    requires i < |parts|
    ensures Render(parts[..i + 1], d) == Render(parts[..i], d) + RenderPart(parts[i], d)
  {
    assert parts[..i + 1][..i] == parts[..i];
  }

  /** One turn of the format loop keeps the parts collected so far in step with Tokenize. */
  lemma PartsStep(parts: seq<string>, rest: string, format: string)
    requires rest != "" && parts + Tokenize(rest) == Tokenize(format)
    ensures var m := Split(rest);
      m.Some? ==> (parts + [m.value.literal, m.value.directive]) + Tokenize(m.value.tail) == Tokenize(format)
    ensures Split(rest).None? ==> (parts + [rest]) + Tokenize("") == Tokenize(format)
  {
    var m := Split(rest);
    if m.Some? {
      TokenizeStep(rest);
      assert (parts + [m.value.literal, m.value.directive]) + Tokenize(m.value.tail)
        == parts + ([m.value.literal, m.value.directive] + Tokenize(m.value.tail));
    } else {
      assert Tokenize(rest) == [rest];
    }
  }

  /** The format loop of the date filter: split into parts, then render them in order. */
  method FormatWith(d: Date, format: string) returns (text: string)
    ensures text == Render(Tokenize(format), d)
  {
    var parts: seq<string> := [];
    var rest := format;
    while rest != ""
      invariant parts + Tokenize(rest) == Tokenize(format)
      decreases |rest|
    {
      var m := Split(rest);
      PartsStep(parts, rest, format);
      if m.Some? {
        // the three groups are appended and the tail is popped back off as the new format
        parts := parts + [m.value.literal, m.value.directive];
        rest := m.value.tail;
      } else {
        parts := parts + [rest];
        rest := "";
      }
    }
    assert parts == Tokenize(format);
    text := "";
    for i := 0 to |parts|
      invariant text == Render(parts[..i], d)
    {
      RenderStep(parts, i, d);
      text := text + RenderPart(parts[i], d);
    }
    assert parts[..|parts|] == parts;
  }

  lemma ConcatPair(a: string, b: string, rest: seq<string>)
    ensures Concat([a, b] + rest) == a + b + Concat(rest)
  {
    assert ([a, b] + rest)[1..] == [b] + rest;
    assert ([b] + rest)[1..] == rest;
  }

  /** A format without line terminators is split into parts that concatenate back to it. */
  lemma {:induction false} TokenizeRoundTrip(f: string)
    requires NoLineTerminator(f)
    ensures Concat(Tokenize(f)) == f
    decreases |f|
  {
    var r := Split(f);
    if f != "" && r.Some? {
      var m := r.value;
      TokenizeRoundTrip(m.tail);
      ConcatPair(m.literal, m.directive, Tokenize(m.tail));
    }
  }

  /**
   * In general the parts concatenate to a prefix of the format: everything after the first
   * line terminator that follows a directive is dropped.
   */
  lemma {:induction false} TokenizeIsPrefix(f: string)
    ensures Concat(Tokenize(f)) <= f
    decreases |f|
  {
    var r := Split(f);
    if f != "" && r.Some? {
      var m := r.value;
      TokenizeIsPrefix(m.tail);
      ConcatPair(m.literal, m.directive, Tokenize(m.tail));
      assert m.literal + m.directive + Concat(Tokenize(m.tail)) <= m.literal + m.directive + m.tail;
    }
  }

  /**
   * The parts alternate: at even positions literal text without directive letters, at odd
   * positions a directive run of one letter (a single `a` or `Z`).
   */
  lemma {:induction false} TokenizeShape(f: string)
    ensures var parts := Tokenize(f);
      forall i :: 0 <= i < |parts| ==> ShapeAt(parts, i)
    decreases |f|
  {
    var r := Split(f);
    if f != "" && r.Some? {
      var m := r.value;
      TokenizeShape(m.tail);
      TokenizeStep(f);
      var rest := Tokenize(m.tail);
      var parts := [m.literal, m.directive] + rest;
      forall i | 0 <= i < |parts| ensures ShapeAt(parts, i) {
        if i >= 2 {
          ShapeShift(m.literal, m.directive, rest, i);
        } else {
          ShapeHead(m.literal, m.directive, rest, i);
        }
      }
    }
  }

  /** One step of Tokenize on a format with a directive. */
  lemma TokenizeStep(f: string)
    requires f != "" && Split(f).Some?
    ensures var m := Split(f).value;
      Tokenize(f) == [m.literal, m.directive] + Tokenize(m.tail)
  {
  }

  lemma ShapeHead(a: string, b: string, rest: seq<string>, i: nat)
    requires i < 2 && NoDirectiveChar(a) && IsRun(b) && IsDirectiveChar(b[0])
    requires b[0] == 'a' || b[0] == 'Z' ==> |b| == 1
    ensures ShapeAt([a, b] + rest, i)
  {
    assert ([a, b] + rest)[0] == a && ([a, b] + rest)[1] == b;
  }

  lemma ShapeShift(a: string, b: string, rest: seq<string>, i: nat)
    requires 2 <= i < |rest| + 2 && ShapeAt(rest, i - 2)
    ensures ShapeAt([a, b] + rest, i)
  {
    assert ([a, b] + rest)[i] == rest[i - 2];
  }

  /**
   * Part `i` is literal text (no directive letters) at an even position, and at an odd
   * position a run of one directive letter, a single character for `a` and `Z`.
   */
  predicate ShapeAt(parts: seq<string>, i: nat)
    requires i < |parts|
  {
    (i % 2 == 0 ==> NoDirectiveChar(parts[i])) &&
    (i % 2 == 1 ==> IsRun(parts[i]) && IsDirectiveChar(parts[i][0]) &&
                    (parts[i][0] == 'a' || parts[i][0] == 'Z' ==> |parts[i]| == 1))
  }

  /**
   * Rendering copies every literal part verbatim; a directive part gives its table entry
   * applied to the date, or itself when the run has no entry.
   */
  lemma LiteralPartsVerbatim(f: string, d: Date)
    ensures var parts := Tokenize(f);
      forall i :: 0 <= i < |parts| && i % 2 == 0 ==> RenderPart(parts[i], d) == parts[i]
  {
    TokenizeShape(f);
    var parts := Tokenize(f);
    forall i | 0 <= i < |parts| && i % 2 == 0
      ensures RenderPart(parts[i], d) == parts[i]
    {
      assert ShapeAt(parts, i);
      LiteralPartVerbatim(parts[i], d);
    }
  }

  /** Split and one Tokenize step on a string whose group boundaries are given. */
  lemma ExampleSplit(f: string, i: nat, e: nat, t: nat)
    requires i < e <= t <= |f|
    requires FirstDirective(f, 0) == i && DirectiveEnd(f, i) == e && LineEnd(f, e) == t
    ensures Split(f) == Some(SplitMatch(f[..i], f[i..e], f[e..t]))
    ensures Tokenize(f) == [f[..i], f[i..e]] + Tokenize(f[e..t])
  {
    TokenizeStep(f);
  }

  /** A line terminator after a directive ends the format: "yyyy\nMM" renders only the year. */
  lemma LineTerminatorExample()
    ensures Tokenize("yyyy\nMM") == ["", "yyyy"]
  {
    var f := "yyyy\nMM";
    ExampleSplit(f, 0, 4, 4);
    assert f[..0] == "" && f[0..4] == "yyyy" && f[4..4] == "";
    TokenizeStep(f);
  }

  /**
   * A run of a length the table does not list is one directive part: "MMMM" is not cut
   * into "MMM" and "M".
   */
  lemma UnsupportedRunParts(f: string)
    requires f == "MMMM"
    ensures Tokenize(f) == ["", f]
  {
    assert SameCharEnd(f, 0, 1) == 4 by {
      assert f[1] == f[2] == f[3] == f[0];
    }
    ExampleSplit(f, 0, 4, 4);
    assert f[..0] == "" && f[0..4] == f && f[4..4] == "";
  }

  /** Rendering two parts: each through the table, in order. */
  lemma RenderPair(a: string, b: string, d: Date)
    ensures Render([a, b], d) == RenderPart(a, d) + RenderPart(b, d)
  {
    assert [a, b][..1] == [a] && [a][..0] == [];
    assert Render([a], d) == Render([], d) + RenderPart(a, d);
    assert Render([a, b], d) == Render([a], d) + RenderPart(b, d);
  }

  /** The format "MMMM" renders as itself: its one directive part has no table entry. */
  lemma UnsupportedRunExample(f: string, d: Date)
    requires f == "MMMM"
    ensures Render(Tokenize(f), d) == f
  {
    UnsupportedRunParts(f);
    RenderPair("", f, d);
    LiteralPartVerbatim("", d);
    UnsupportedRunVerbatim(f, d);
  }

  /** "MMMM" is not a key of the table and renders verbatim. */
  lemma UnsupportedRunVerbatim(f: string, d: Date)
    requires f == "MMMM"
    ensures RenderPart(f, d) == f
  {
    assert Repeat('M', 4) == f;
    RunHasEntry('M', 4, d);
  }

  /** What the filter receives: a Date, a number of milliseconds, a string, or anything else. */
  datatype DateInput = DateValue(date: Date) | Millis(ms: int) | Text(s: string) | OtherValue

  /** The filter's result: the formatted text, or its input when that is not a date. */
  datatype DateOutput = Formatted(text: string) | Unchanged(input: DateInput)

  /** NUMBER_STRING = /^\d+$/: one or more ASCII digits and nothing else. */
  predicate IsNumberString(s: string) {
    |s| >= 1 && AllDigits(s)
  }

  /**
   * The normalization at the top of the filter: a digit string is read as milliseconds, any
   * other string goes to the host's date parser, a number becomes `new Date(number)`, and
   * anything that is not a Date afterwards has no date.
   */
  function ToDate(input: DateInput, fromMillis: int -> Date, parseDate: string -> Option<Date>): Option<Date> {
    match input
    case DateValue(d) => Some(d)
    case Millis(ms) => Some(fromMillis(ms))
    case Text(s) => if IsNumberString(s) then Some(fromMillis(DigitsValue(s))) else parseDate(s)
    case OtherValue => None
  }

  /**
   * angular.filter.date: with no date the input comes back unchanged; with a non-empty
   * format string the date is rendered through the format loop; otherwise the host's
   * locale date text is returned.
   */
  method FormatDate(input: DateInput, format: Option<string>, fromMillis: int -> Date,
                    parseDate: string -> Option<Date>, localeText: Date -> string)
    returns (r: DateOutput)
    ensures ToDate(input, fromMillis, parseDate).None? <==> r == Unchanged(input)
    ensures ToDate(input, fromMillis, parseDate).Some? ==>
      var d := ToDate(input, fromMillis, parseDate).value;
      r == Formatted(if format.Some? && format.value != "" then Render(Tokenize(format.value), d)
                     else localeText(d))
  {
    var date := ToDate(input, fromMillis, parseDate);
    if date.None? {
      return Unchanged(input);
    }
    var text := localeText(date.value);
    if format.Some? && format.value != "" {
      text := FormatWith(date.value, format.value);
    }
    r := Formatted(text);
  }

  /** A string of digits is the same instant as that many milliseconds. */
  lemma DigitStringIsMillis(ms: nat, fromMillis: int -> Date, parseDate: string -> Option<Date>)
    ensures ToDate(Text(NatToString(ms)), fromMillis, parseDate) == ToDate(Millis(ms), fromMillis, parseDate)
  {
    DigitsValueOfNatToString(ms);
  }
}
