/** The text of one page-range token built from decimal numerals and
    dashes (`12`, `3-5`, `1-2-3`, `-4`): how `trim` and `split('-')` take it
    apart. Both page-range parsers read such tokens. */
module RangeText {
  import opened JsText

  /** A non-empty run of decimal digits, such as `12` or `007`. */
  predicate Numeral(s: string) {
    s != [] && AllDigits(s)
  }

  /** Text made of digits and dashes only, such as `12-15`. */
  predicate DigitsAndDashes(s: string) {
    forall i :: 0 <= i < |s| ==> IsDigit(s[i]) || s[i] == '-'
  }

  /** Digits and dashes are not white space: such text is its own trim. */
  lemma DigitsAndDashesTrim(s: string)
    requires DigitsAndDashes(s)
    ensures Trim(s) == s
  {
    assert forall i :: 0 <= i < |s| ==> !IsJsSpace(s[i]);
    TrimOfNoSpace(s);
  }

  /** `a-b` for digit runs `a` and `b` is written with digits and dashes. */
  lemma DashedText(a: string, b: string)
    requires AllDigits(a) && DigitsAndDashes(b)
    ensures DigitsAndDashes(a + "-" + b)
  {
    var s := a + "-" + b;
    forall i | 0 <= i < |s| ensures IsDigit(s[i]) || s[i] == '-' {
      if i < |a| {
        assert s[i] == a[i];
      } else if i > |a| {
        assert s[i] == b[i - |a| - 1];
      }
    }
  }

  /** Splitting `a-rest` at dashes gives the numeral `a`, then the pieces of
      `rest`. */
  lemma SplitAfterNumeral(a: string, rest: string)
    requires AllDigits(a)
    ensures Split(a + "-" + rest, '-') == [a] + Split(rest, '-')
  {
    assert '-' !in a by { assert forall j :: 0 <= j < |a| ==> IsDigit(a[j]); }
    SplitAfterFirst(a, '-', rest);
  }

  /** The pieces of `a-b` are the two numerals. */
  lemma SplitInterval(a: string, b: string)
    requires AllDigits(a) && AllDigits(b)
    ensures Split(a + "-" + b, '-') == [a, b]
  {
    SplitAfterNumeral(a, b);
    assert '-' !in b by { assert forall j :: 0 <= j < |b| ==> IsDigit(b[j]); }
    SplitFirst(b, '-');
  }

  /** `a-b` needs no trimming, has a dash, and splits into `a` and `b`. */
  lemma IntervalPieces(a: string, b: string)
    requires AllDigits(a) && AllDigits(b)
    ensures var s := a + "-" + b;
      Trim(s) == s && '-' in s && Split(s, '-') == [a, b]
  {
    IntervalText(a, b);
    DigitsAndDashesTrim(a + "-" + b);
    SplitInterval(a, b);
  }

  /** `a-b` is written with digits and dashes and has a dash. */
  lemma IntervalText(a: string, b: string)
    requires AllDigits(a) && AllDigits(b)
    ensures var s := a + "-" + b;
      DigitsAndDashes(s) && '-' in s
  {
    var s := a + "-" + b;
    DashedText(a, b);
    assert s[|a|] == '-';
  }

  /** `a-b-c` is written with digits and dashes and has a dash. */
  lemma LongIntervalText(a: string, b: string, c: string)
    requires AllDigits(a) && AllDigits(b) && AllDigits(c)
    ensures var s := a + "-" + b + "-" + c;
      DigitsAndDashes(s) && '-' in s
  {
    var tail := b + "-" + c;
    var s := a + "-" + tail;
    assert s == a + "-" + b + "-" + c;
    DashedText(b, c);
    DashedText(a, tail);
    assert s[|a|] == '-';
  }

  /** The pieces of `a-b-c` are the three numerals. */
  lemma SplitLongInterval(a: string, b: string, c: string)
    requires AllDigits(a) && AllDigits(b) && AllDigits(c)
    ensures Split(a + "-" + b + "-" + c, '-') == [a, b, c]
  {
    var tail := b + "-" + c;
    assert a + "-" + tail == a + "-" + b + "-" + c;
    SplitAfterNumeral(a, tail);
    SplitInterval(b, c);
  }

  /** The first piece of `-b` is empty; the pieces of `b` follow it. */
  lemma MissingStartPieces(b: string)
    ensures Split("-" + b, '-') == [""] + Split(b, '-')
  {
    SplitAfterFirst("", '-', b);
    assert "" + "-" + b == "-" + b;
  }

  /** `-b` is written with digits and dashes, so trimming leaves it alone. */
  lemma DashThenDigitsTrim(b: string)
    requires AllDigits(b)
    ensures Trim("-" + b) == "-" + b
  {
    var s := "-" + b;
    forall i | 0 <= i < |s| ensures IsDigit(s[i]) || s[i] == '-' {
      if i > 0 { assert s[i] == b[i - 1]; }
    }
    DigitsAndDashesTrim(s);
  }
}
