/**
 * The string-building tail of the number filter: given the sign of the input and the
 * decimal text of the already rounded number, it groups the whole digits by thousands
 * with ',' and appends the fraction padded or cut to the requested number of places.
 */
module NumberFilter {
  import opened Wrappers
  import opened Decimal

  /** The number of fraction places when none is given. */
  const DefaultFractionSize: nat := 2

  /** Index of the first '.' at or after `i`, or |s| when there is none. */
  function DotFrom(s: string, i: nat): (k: nat)
    requires i <= |s|
    ensures i <= k <= |s|
    ensures k < |s| ==> s[k] == '.'
    ensures forall j :: i <= j < k ==> s[j] != '.'
    decreases |s| - i
  {
    if i == |s| || s[i] == '.' then i else DotFrom(s, i + 1)
  }

  /** `text.split('.')[0]`: the text before the first '.'. */
  function WholeText(text: string): string {
    text[..DotFrom(text, 0)]
  }

  /** `text.split('.')[1] || ''`: the text between the first '.' and the next, or "" without a '.'. */
  function FractionText(text: string): string {
    var dot := DotFrom(text, 0);
    if dot == |text| then "" else text[dot + 1..DotFrom(text, dot + 1)]
  }

  /** DotFrom runs to the end of a text with no '.' from `i` on. */
  lemma {:induction false} DotFromNone(s: string, i: nat)
    requires i <= |s|
    requires forall j :: i <= j < |s| ==> s[j] != '.'
    ensures DotFrom(s, i) == |s|
    decreases |s| - i
  {
    if i < |s| {
      DotFromNone(s, i + 1);
    }
  }

  /** DotFrom stops at the first '.' from `i` on. */
  lemma {:induction false} DotFromAt(s: string, i: nat, k: nat)
    requires i <= k < |s| && s[k] == '.'
    requires forall j :: i <= j < k ==> s[j] != '.'
    ensures DotFrom(s, i) == k
    decreases k - i
  {
    if i < k {
      DotFromAt(s, i + 1, k);
    }
  }

  /** With no second '.', the fraction text runs to the end. */
  lemma FractionToEnd(text: string)
    requires DotFrom(text, 0) < |text|
    requires forall j :: DotFrom(text, 0) < j < |text| ==> text[j] != '.'
    ensures FractionText(text) == text[DotFrom(text, 0) + 1..]
  {
    DotFromNone(text, DotFrom(text, 0) + 1);
  }

  lemma AroundDot(text: string, dot: nat)
    requires dot < |text| && text[dot] == '.'
    ensures text == text[..dot] + ['.'] + text[dot + 1..]
  {
    assert text[..dot + 1] == text[..dot] + ['.'];
    assert text == text[..dot + 1] + text[dot + 1..];
  }

  /** Whole and fraction text are the two sides of the '.' of a text with at most one '.'. */
  lemma SplitAtDot(text: string)
    requires forall j :: DotFrom(text, 0) < j < |text| ==> text[j] != '.'
    ensures DotFrom(text, 0) < |text| ==> text == WholeText(text) + ['.'] + FractionText(text)
    ensures DotFrom(text, 0) == |text| ==> text == WholeText(text) && FractionText(text) == []
  {
    var dot := DotFrom(text, 0);
    if dot < |text| {
      FractionToEnd(text);
      AroundDot(text, dot);
    } else {
      assert text[..dot] == text;
    }
  }

  /**
   * Reference definition of thousands grouping: the last three digits are preceded by ','
   * and the grouping of everything before them, as long as more than three remain.
   */
  function Grouped(w: string): string
    decreases |w|
  {
    if |w| <= 3 then w else Grouped(w[..|w| - 3]) + "," + w[|w| - 3..]
  }

  /**
   * What the loop has built after looking at the first `i` digits of `w`: each digit,
   * preceded by ',' when it is not the first and a multiple of three digits remain.
   */
  function CommaPrefix(w: string, i: nat): string
    requires i <= |w|
  {
    if i == 0 then ""
    else CommaPrefix(w, i - 1) + (if (|w| - (i - 1)) % 3 == 0 && i - 1 != 0 then "," else "") + [w[i - 1]]
  }

  /** Appending three digits does not change the commas placed before them. */
  lemma {:induction false} CommaPrefixAppend(u: string, v: string, i: nat)
    requires |v| == 3 && i <= |u|
    ensures CommaPrefix(u + v, i) == CommaPrefix(u, i)
  {
    if i > 0 {
      CommaPrefixAppend(u, v, i - 1);
      assert (u + v)[i - 1] == u[i - 1];
    }
  }

  /** Up to three digits get no comma. */
  lemma {:induction false} CommaPrefixShort(w: string, i: nat)
    requires |w| <= 3 && i <= |w|
    ensures CommaPrefix(w, i) == w[..i]
  {
    if i > 0 {
      CommaPrefixShort(w, i - 1);
      assert w[..i] == w[..i - 1] + [w[i - 1]];
    }
  }

  /** Before its last three digits, the loop over `w` has built what it builds over the rest. */
  lemma CommaPrefixUpTo(u: string, v: string, w: string)
    requires |v| == 3 && w == u + v
    ensures CommaPrefix(w, |w| - 3) == CommaPrefix(u, |u|)
  {
    CommaPrefixAppend(u, v, |u|);
  }

  /** The left-to-right loop builds exactly the reference grouping. */
  lemma {:induction false} CommaPrefixIsGrouped(w: string)
    ensures CommaPrefix(w, |w|) == Grouped(w)
    decreases |w|
  {
    if |w| <= 3 {
      CommaPrefixShort(w, |w|);
      assert w[..|w|] == w;
    } else {
      var u, v := w[..|w| - 3], w[|w| - 3..];
      CommaPrefixIsGrouped(u);
      CommaPrefixUpTo(u, v, w);
      CommaPrefixLastGroup(w);
    }
  }

  /** One step of the loop: the next digit, after a ',' when a multiple of three digits remain. */
  lemma CommaPrefixNext(w: string, i: nat)
    requires i < |w|
    ensures (|w| - i) % 3 == 0 && i != 0 ==> CommaPrefix(w, i + 1) == CommaPrefix(w, i) + "," + [w[i]]
    ensures !((|w| - i) % 3 == 0 && i != 0) ==> CommaPrefix(w, i + 1) == CommaPrefix(w, i) + [w[i]]
  {
  }

  /** The last three steps of the loop: a ',' and then the last three digits one by one. */
  lemma CommaPrefixLastDigits(w: string, n: nat)
    requires n == |w| > 3
    ensures CommaPrefix(w, n) == CommaPrefix(w, n - 3) + "," + [w[n - 3]] + [w[n - 2]] + [w[n - 1]]
  {
    CommaPrefixNext(w, n - 3);
    CommaPrefixNext(w, n - 2);
    CommaPrefixNext(w, n - 1);
    assert (n - (n - 3)) % 3 == 0;
    assert (n - (n - 2)) % 3 == 2;
    assert (n - (n - 1)) % 3 == 1;
    var p := CommaPrefix(w, n - 3);
    assert CommaPrefix(w, n) == p + "," + [w[n - 3]] + [w[n - 2]] + [w[n - 1]];
  }

  /** With more than three digits, the last three are preceded by a ','. */
  lemma CommaPrefixLastGroup(w: string)
    requires |w| > 3
    ensures CommaPrefix(w, |w|) == CommaPrefix(w, |w| - 3) + "," + w[|w| - 3..]
  {
    CommaPrefixLastDigits(w, |w|);
    LastThree(CommaPrefix(w, |w| - 3) + ",", w[|w| - 3..]);
  }

  lemma LastThree(p: string, v: string)
    requires |v| == 3
    ensures p + [v[0]] + [v[1]] + [v[2]] == p + v
  {
    assert v == [v[0]] + [v[1]] + [v[2]];
  }

  /** The text with every ',' removed. */
  function RemoveCommas(s: string): (r: string)
    ensures |r| <= |s|
  {
    if s == [] then []
    else (if s[0] == ',' then [] else [s[0]]) + RemoveCommas(s[1..])
  }

  predicate NoComma(s: string) {
    forall k :: 0 <= k < |s| ==> s[k] != ','
  }

  lemma {:induction false} RemoveCommasAppend(a: string, b: string)
    ensures RemoveCommas(a + b) == RemoveCommas(a) + RemoveCommas(b)
    decreases |a|
  {
    if a != [] {
      assert (a + b)[1..] == a[1..] + b;
      RemoveCommasAppend(a[1..], b);
    } else {
      assert a + b == b;
    }
  }

  lemma {:induction false} RemoveCommasNone(s: string)
    requires NoComma(s)
    ensures RemoveCommas(s) == s
    decreases |s|
  {
    if s != [] {
      RemoveCommasNone(s[1..]);
      assert s == [s[0]] + s[1..];
    }
  }

  lemma CommaRemoved()
    ensures RemoveCommas(",") == []
  {
    assert ","[1..] == [];
  }

  /** Removing the commas from a grouping, a ',' and digits gives the digits of both. */
  lemma UngroupStep(g: string, u: string, v: string)
    requires RemoveCommas(g) == u && NoComma(v)
    ensures RemoveCommas(g + "," + v) == u + v
  {
    RemoveCommasAppend(g + ",", v);
    RemoveCommasAppend(g, ",");
    CommaRemoved();
    RemoveCommasNone(v);
    assert RemoveCommas(g + ",") == u + [];
    assert u + [] == u;
  }

  /** Taking the commas back out of the grouping gives the digits back. */
  lemma {:induction false} GroupedUngroups(w: string)
    requires NoComma(w)
    ensures RemoveCommas(Grouped(w)) == w
    decreases |w|
  {
    if |w| <= 3 {
      RemoveCommasNone(w);
    } else {
      var u, v := w[..|w| - 3], w[|w| - 3..];
      GroupedUngroups(u);
      UngroupStep(Grouped(u), u, v);
      assert w == u + v;
    }
  }

  /** The grouping adds one ',' per full group of three after the first group. */
  lemma {:induction false} GroupedLength(w: string)
    ensures |Grouped(w)| == |w| + (if |w| == 0 then 0 else (|w| - 1) / 3)
    decreases |w|
  {
    if |w| > 3 {
      GroupedLength(w[..|w| - 3]);
    }
  }

  /**
   * Every ',' of a grouping is followed by exactly three digits, then by the next ',' or
   * the end of the text.
   */
  predicate GroupsOfThree(r: string) {
    forall k :: 0 <= k < |r| && r[k] == ',' ==>
      k + 4 <= |r| && r[k + 1] != ',' && r[k + 2] != ',' && r[k + 3] != ',' &&
      (k + 4 == |r| || r[k + 4] == ',')
  }

  /** A ',' and three digits after a grouping keep every group at three digits. */
  lemma ThreesStep(g: string, v: string)
    requires GroupsOfThree(g) && |v| == 3 && NoComma(v)
    requires |g| > 0 ==> g[|g| - 1] != ','
    ensures GroupsOfThree(g + [','] + v)
  {
    var r := g + [','] + v;
    forall k | 0 <= k < |r| && r[k] == ','
      ensures k + 4 <= |r| && r[k + 1] != ',' && r[k + 2] != ',' && r[k + 3] != ','
      ensures k + 4 == |r| || r[k + 4] == ','
    {
      if k < |g| {
        assert r[k] == g[k];
        assert k + 4 <= |g|;
        assert r[k + 1] == g[k + 1] && r[k + 2] == g[k + 2] && r[k + 3] == g[k + 3];
        if k + 4 < |g| {
          assert r[k + 4] == g[k + 4];
        }
      } else {
        assert k == |g|;
      }
    }
  }

  /** The first group keeps its place when a ',' and three digits follow. */
  lemma FirstGroupStep(g: string, v: string, first: nat)
    requires first < |g| && g[first] == ',' && forall k :: 0 <= k < first ==> g[k] != ','
    ensures var r := g + [','] + v;
      r[first] == ',' && forall k :: 0 <= k < first ==> r[k] != ','
  {
    var r := g + [','] + v;
    forall k | 0 <= k < first ensures r[k] != ',' {
      assert r[k] == g[k];
    }
  }

  /** Every group after the first of a grouping has three digits, and it ends in a digit. */
  lemma {:induction false} GroupedThrees(w: string)
    requires NoComma(w)
    ensures GroupsOfThree(Grouped(w))
    ensures |w| > 0 ==> |Grouped(w)| > 0 && Grouped(w)[|Grouped(w)| - 1] != ','
    decreases |w|
  {
    if |w| > 3 {
      var u, v := w[..|w| - 3], w[|w| - 3..];
      GroupedThrees(u);
      ThreesStep(Grouped(u), v);
    }
  }

  /**
   * The first ',' of a grouping comes after one to three leading digits, so the first
   * group has the digits left over; the grouping starts with the first digit.
   */
  lemma {:induction false} GroupedFirst(w: string)
    requires NoComma(w)
    ensures |w| <= 3 ==> Grouped(w) == w
    ensures |w| > 3 ==> (|w| - 1) % 3 + 1 < |Grouped(w)| && Grouped(w)[(|w| - 1) % 3 + 1] == ','
    ensures forall k :: 0 <= k <= (|w| - 1) % 3 && k < |Grouped(w)| ==> Grouped(w)[k] != ','
    ensures |w| > 0 ==> |Grouped(w)| > 0 && Grouped(w)[0] == w[0]
    decreases |w|
  {
    if |w| > 3 {
      var u, v := w[..|w| - 3], w[|w| - 3..];
      GroupedFirst(u);
      var g := Grouped(u);
      assert (|w| - 1) % 3 == (|u| - 1) % 3;
      if |u| > 3 {
        FirstGroupStep(g, v, (|u| - 1) % 3 + 1);
      } else {
        FirstGroupStep(u + [','], v, |u|);
        assert g + [','] + v == (u + [',']) + v;
      }
    }
  }

  /** `fraction` right-padded with '0' to `size` characters, then cut to `size`. */
  function PadFraction(f: string, size: nat): (r: string)
    ensures |r| == size
    ensures forall j :: 0 <= j < size ==> r[j] == (if j < |f| then f[j] else '0')
  {
    if size <= |f| then f[..size] else f + Zeros(size - |f|)
  }

  /** The number of fraction places: the one given, or two. */
  function FractionSize(fractionSize: Option<nat>): nat {
    if fractionSize.Some? then fractionSize.value else DefaultFractionSize
  }

  /** '.' and the padded fraction, or nothing for zero places. */
  function FractionPart(f: string, size: nat): string {
    if size == 0 then "" else "." + PadFraction(f, size)
  }

  /**
   * As written: a negative number has the first character of its whole text removed,
   * on the assumption that it is '-'.
   */
  function UnsignedAsWritten(isNegative: bool, whole: string): string {
    if !isNegative then whole else if whole == [] then [] else whole[1..]
  }

  /** The whole text without its '-', when it has one. */
  function Unsigned(whole: string): (digits: string)
    ensures |whole| > 0 && whole[0] == '-' ==> [whole[0]] + digits == whole
    ensures !(|whole| > 0 && whole[0] == '-') ==> digits == whole
  {
    if |whole| > 0 && whole[0] == '-' then whole[1..] else whole
  }

  /** The sign the filter writes: '-' for a negative input. */
  function Sign(isNegative: bool): string {
    if isNegative then "-" else ""
  }

  /** The text the filter builds, as written. */
  function NumberTextAsWritten(isNegative: bool, rounded: string, fractionSize: Option<nat>): string {
    Sign(isNegative) + Grouped(UnsignedAsWritten(isNegative, WholeText(rounded)))
      + FractionPart(FractionText(rounded), FractionSize(fractionSize))
  }

  /** The text the filter builds, with the sign removed only where the text has one. */
  function NumberText(isNegative: bool, rounded: string, fractionSize: Option<nat>): string {
    Sign(isNegative) + Grouped(Unsigned(WholeText(rounded)))
      + FractionPart(FractionText(rounded), FractionSize(fractionSize))
  }

  /** One turn of the padding loop. */
  lemma ZerosAppend(given: string, k: nat)
    ensures given + Zeros(k) + "0" == given + Zeros(k + 1)
  {
    assert Zeros(k) + "0" == Zeros(k + 1);
  }

  /** After the padding loop, the first `size` characters are the padded fraction. */
  lemma PaddedFraction(given: string, fraction: string, size: nat)
    requires |given| <= |fraction| && fraction == given + Zeros(|fraction| - |given|)
    requires |fraction| == |given| || |fraction| <= size
    requires 0 < size <= |fraction|
    ensures "." + fraction[..size] == FractionPart(given, size)
  {
    assert fraction[..size] == PadFraction(given, size);
  }

  /** The text ends without a fraction for zero places. */
  lemma NoFractionPart(prefix: string, f: string)
    ensures prefix + FractionPart(f, 0) == prefix
  {
    assert FractionPart(f, 0) == [];
  }

  /**
   * `angularFilter.number` from the point where the rounded number has been turned into
   * text: `isNegative` is whether the input was below zero, `rounded` is `'' + number`
   * after rounding, and `fractionSize` is the optional second argument.
   */
  method FormatNumber(isNegative: bool, rounded: string, fractionSize: Option<nat>) returns (text: string)
    ensures text == NumberTextAsWritten(isNegative, rounded, fractionSize)
  {
    var size := if fractionSize.None? then DefaultFractionSize else fractionSize.value;
    var whole := WholeText(rounded);
    var fraction := FractionText(rounded);
    text := "";
    if isNegative {
      text := "-";
      if |whole| > 0 {
        whole := whole[1..];
      }
    }
    assert whole == UnsignedAsWritten(isNegative, WholeText(rounded));
    var i := 0;
    while i < |whole|
      invariant i <= |whole|
      invariant text == Sign(isNegative) + CommaPrefix(whole, i)
    {
      CommaPrefixNext(whole, i);
      if (|whole| - i) % 3 == 0 && i != 0 {
        text := text + ",";
      }
      text := text + [whole[i]];
      i := i + 1;
    }
    CommaPrefixIsGrouped(whole);
    assert size == FractionSize(fractionSize);
    if size != 0 {
      ghost var given := fraction;
      while |fraction| < size
        invariant |given| <= |fraction|
        invariant fraction == given + Zeros(|fraction| - |given|)
        invariant |fraction| == |given| || |fraction| <= size
        decreases size - |fraction|
      {
        ghost var k := |fraction| - |given|;
        ZerosAppend(given, k);
        fraction := fraction + "0";
        assert |fraction| - |given| == k + 1;
      }
      PaddedFraction(given, fraction, size);
      text := text + ("." + fraction[..size]);
    } else {
      NoFractionPart(text, fraction);
    }
  }

  /**
   * What the output says: '-' first exactly for a negative input; without its commas the
   * rest is the whole digits, then '.' and exactly `size` fraction characters when `size`
   * is not zero, and no '.' at all when it is.
   */
  lemma NumberTextParts(isNegative: bool, rounded: string, fractionSize: Option<nat>)
    requires AllDigits(Unsigned(WholeText(rounded)))
    ensures var t := NumberText(isNegative, rounded, fractionSize);
      var digits := Unsigned(WholeText(rounded));
      var size := FractionSize(fractionSize);
      var frac := FractionPart(FractionText(rounded), size);
      RemoveCommas(t) == Sign(isNegative) + digits + RemoveCommas(frac) &&
      (|t| > 0 && t[0] == '-' <==> isNegative) &&
      (size == 0 ==> frac == []) &&
      (size > 0 ==> |frac| == size + 1 && frac[0] == '.' && frac[1..] == PadFraction(FractionText(rounded), size))
  {
    var digits := Unsigned(WholeText(rounded));
    var frac := FractionPart(FractionText(rounded), FractionSize(fractionSize));
    UngroupedText(isNegative, digits, frac);
    FractionPartShape(FractionText(rounded), FractionSize(fractionSize));
    SignFirst(isNegative, digits, frac);
  }

  /** Without its commas, the text is the sign, the digits and the fraction part without commas. */
  lemma UngroupedText(isNegative: bool, digits: string, frac: string)
    requires AllDigits(digits)
    ensures RemoveCommas(Sign(isNegative) + Grouped(digits) + frac) == Sign(isNegative) + digits + RemoveCommas(frac)
  {
    assert NoComma(digits);
    GroupedUngroups(digits);
    RemoveCommasAppend(Sign(isNegative) + Grouped(digits), frac);
    RemoveCommasAppend(Sign(isNegative), Grouped(digits));
    if isNegative {
      assert RemoveCommas("-") == "-";
    }
  }

  /** The text starts with '-' exactly when the sign is written. */
  lemma SignFirst(isNegative: bool, digits: string, frac: string)
    requires AllDigits(digits) && (frac == [] || frac[0] == '.')
    ensures var t := Sign(isNegative) + Grouped(digits) + frac;
      |t| > 0 && t[0] == '-' <==> isNegative
  {
    assert NoComma(digits);
    GroupedFirst(digits);
    if |digits| > 0 {
      assert Grouped(digits)[0] != '-';
    }
  }

  /** The fraction part is empty for zero places, and otherwise '.' and the padded fraction. */
  lemma FractionPartShape(f: string, size: nat)
    ensures size == 0 ==> FractionPart(f, size) == []
    ensures size > 0 ==>
      |FractionPart(f, size)| == size + 1 && FractionPart(f, size)[0] == '.' &&
      FractionPart(f, size)[1..] == PadFraction(f, size)
  {
  }

  /** Where the sign of the input agrees with the text, the filter as written is right. */
  lemma AsWrittenAgrees(isNegative: bool, rounded: string, fractionSize: Option<nat>)
    requires var whole := WholeText(rounded); isNegative <==> |whole| > 0 && whole[0] == '-'
    ensures NumberTextAsWritten(isNegative, rounded, fractionSize) == NumberText(isNegative, rounded, fractionSize)
  {
  }

  /**
   * A negative input that rounds to zero: `'' + -0` is "0", so `isNegative` holds while
   * the text has no '-', and the as-written filter cuts off the only digit.
   */
  lemma MinusZeroLosesDigit(zero: string)
    requires zero == "0"
    ensures NumberTextAsWritten(true, zero, None) == "-.00"
    ensures NumberTextAsWritten(true, zero, Some(0)) == "-"
    ensures NumberText(true, zero, None) == "-0.00"
  {
    assert DotFrom(zero, 0) == 1;
    assert WholeText(zero) == "0" && FractionText(zero) == "";
    assert Zeros(2) == "00";
    assert PadFraction("", 2) == "00";
  }

  /** Documentation example: 1234.56789 with the default two places is "1,234.57". */
  lemma DefaultPlacesExample(a: string)
    requires a == "1234.57"
    ensures NumberTextAsWritten(false, a, None) == "1,234.57"
  {
    DotFromAt(a, 0, 4);
    DotFromNone(a, 5);
    assert WholeText(a) == "1234" && FractionText(a) == "57";
    assert Grouped("1234") == "1,234";
  }

  /** Documentation example: 1234.56789 with no places is "1,235". */
  lemma NoPlacesExample(b: string)
    requires b == "1235"
    ensures NumberTextAsWritten(false, b, Some(0)) == "1,235"
  {
    DotFromNone(b, 0);
    assert WholeText(b) == "1235";
    assert Grouped("1235") == "1,235";
  }

  /** Documentation example: -1234.56789 with four places is "-1,234.5679". */
  lemma NegativeExample(c: string)
    requires c == "-1234.5679"
    ensures NumberTextAsWritten(true, c, Some(4)) == "-1,234.5679"
  {
    DotFromAt(c, 0, 5);
    DotFromNone(c, 6);
    assert WholeText(c) == "-1234" && FractionText(c) == "5679";
    assert UnsignedAsWritten(true, "-1234") == "1234";
    assert Grouped("1234") == "1,234";
  }

  /** Scenario example: -3374.333 with four places pads the fraction: "-3,374.3330". */
  lemma PaddedExample(c: string)
    requires c == "-3374.333"
    ensures NumberTextAsWritten(true, c, Some(4)) == "-3,374.3330"
  {
    DotFromAt(c, 0, 5);
    DotFromNone(c, 6);
    assert WholeText(c) == "-3374" && FractionText(c) == "333";
    assert UnsignedAsWritten(true, "-3374") == "3374";
    assert Grouped("3374") == "3,374";
    assert PadFraction("333", 4) == "3330";
  }
}
