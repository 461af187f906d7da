/** The in-memory helpers of `assets/js/utils.js`: the strict, 1-based page
    range parser `parsePageRanges`, `getFileExtension`, `generateTimestamp`
    with the date fields as inputs, and the header parsing and byte copy of
    `dataURItoBlob`. */
module Utils {
  import opened Wrappers
  import opened JsText
  import opened JsNumber
  import opened Sequences
  import opened JsSet
  import opened RangeText

  // ----------------------------------------------------- parsePageRanges

  /** What `parsePageRanges` throws. */
  datatype RangeError =
    | InvalidPageRange(token: string)
    | InvalidPageNumber(page: JsNum)

  /** The message of the thrown `Error`. */
  function Message(e: RangeError): string {
    match e
    case InvalidPageRange(token) => "Invalid page range: " + token
    case InvalidPageNumber(page) => "Invalid page number: " + NumberToString(page)
  }

  /** Whether `parsePageRanges` takes its argument to mean every page:
      `undefined` (`None`), or text that is empty or only white space. */
  predicate Blank(rangeString: Option<string>) {
    rangeString.None? || Trim(rangeString.value) == ""
  }

  /** A number that is neither NaN nor below 1 nor above `totalPages`, in the
      order of the tests of the source, is finite. */
  lemma AcceptedIsFinite(start: JsNum, end: JsNum, totalPages: nat)
    requires !start.NaN? && !end.NaN?
    requires !Less(start, FromInt(1)) && !Less(FromInt(totalPages), end) && !Less(end, start)
    ensures start.Finite? && end.Finite?
  {
  }

  /** One trimmed token: the pages `[start, end]` it selects, or what it
      throws. A token with a dash is an interval of the first two
      dash-separated pieces read by `Number`; any other token is one page. */
  function ReadStrictToken(range: string, totalPages: nat): (r: Result<(real, real), RangeError>)
    ensures r.Success? ==> 1.0 <= r.value.0 <= r.value.1 <= totalPages as real
    ensures r.Failure? && '-' in range ==> r.error == InvalidPageRange(range)
    ensures r.Failure? && '-' !in range ==> r.error == InvalidPageNumber(StringToNumber(range))
  {
    if '-' in range then
      var parts := Split(range, '-');
      SplitCount(range, '-');
      var start := StringToNumber(parts[0]);
      var end := StringToNumber(parts[1]);
      if start.NaN? || end.NaN? || Less(start, FromInt(1)) || Less(FromInt(totalPages), end)
         || Less(end, start)
      then Failure(InvalidPageRange(range))
      else
        AcceptedIsFinite(start, end, totalPages);
        Success((Value(start), Value(end)))
    else
      var page := StringToNumber(range);
      if page.NaN? || Less(page, FromInt(1)) || Less(FromInt(totalPages), page)
      then Failure(InvalidPageNumber(page))
      else
        AcceptedIsFinite(page, page, totalPages);
        Success((Value(page), Value(page)))
  }

  /** How many times `for (let i = start; i <= end; i++)` runs. */
  function Count(start: real, end: real): (n: nat)
    ensures n == 0 <==> end < start
    ensures n > 0 ==> start + (n - 1) as real <= end < start + n as real
  {
    if end < start then 0 else (end - start).Floor + 1
  }

  /** The values `start, start + 1, ...` up to `end` that the loop adds. */
  function Run(start: real, end: real): (r: seq<real>)
    ensures |r| == Count(start, end)
    ensures forall k :: 0 <= k < |r| ==> r[k] == start + k as real && r[k] <= end
  {
    seq(Count(start, end), k => start + k as real)
  }

  /** What each token of a list reads as. */
  function ReadAll(tokens: seq<string>, totalPages: nat): (r: seq<Result<(real, real), RangeError>>)
    ensures |r| == |tokens|
    ensures forall k :: 0 <= k < |r| ==> r[k] == ReadStrictToken(tokens[k], totalPages)
  {
    seq(|tokens|, k requires 0 <= k < |tokens| => ReadStrictToken(tokens[k], totalPages))
  }

  /** The pages selected by a list of token readings, or the error of the
      first that throws. */
  ghost function Accumulate(readings: seq<Result<(real, real), RangeError>>): Result<set<real>, RangeError>
    decreases |readings|
  {
    if readings == [] then Success({})
    else match Accumulate(readings[..|readings| - 1])
      case Failure(e) => Failure(e)
      case Success(pages) =>
        match readings[|readings| - 1]
        case Failure(e) => Failure(e)
        case Success((start, end)) => Success(pages + set x | x in Run(start, end))
  }

  /** The pages a list of trimmed tokens selects, or the error of the first
      token that throws. */
  ghost function StrictPages(tokens: seq<string>, totalPages: nat): Result<set<real>, RangeError> {
    Accumulate(ReadAll(tokens, totalPages))
  }

  /** `rangeString.split(',').map(r => r.trim())` */
  function Tokens(rangeString: string): (r: seq<string>)
    ensures |r| == |Split(rangeString, ',')|
    ensures forall k :: 0 <= k < |r| ==> r[k] == Trim(Split(rangeString, ',')[k])
  {
    var pieces := Split(rangeString, ',');
    seq(|pieces|, k requires 0 <= k < |pieces| => Trim(pieces[k]))
  }

  /** The loop `for (let i = start; i <= end; i++) pages.add(i)`. */
  method AddRun(pages: seq<real>, start: real, end: real) returns (r: seq<real>)
    requires Distinct(pages)
    ensures Distinct(r)
    ensures forall x :: x in r <==> x in pages || x in Run(start, end)
  {
    r := pages;
    var i := start;
    ghost var k: nat := 0;
    var run := Run(start, end);
    while i <= end
      invariant k <= |run| && i == start + k as real
      invariant Distinct(r)
      invariant forall x :: x in r <==> x in pages || x in run[..k]
      decreases |run| - k
    {
      assert run[..k + 1] == run[..k] + [i];
      r := Add(r, i);
      i := i + 1.0;
      k := k + 1;
    }
    assert run[..k] == run;
  }

  /** The loop over the tokens of `parsePageRanges`: stops at the first token
      that throws. */
  method CollectStrict(ranges: seq<string>, totalPages: nat) returns (r: Result<seq<real>, RangeError>)
    ensures r.Failure? <==> StrictPages(ranges, totalPages).Failure?
    ensures r.Failure? ==> r.error == StrictPages(ranges, totalPages).error
    ensures r.Success? ==>
      Distinct(r.value) && forall x :: x in r.value <==> x in StrictPages(ranges, totalPages).value
  {
    ghost var readings := ReadAll(ranges, totalPages);
    var pages: seq<real> := [];
    var k := 0;
    while k < |ranges|
      invariant k <= |ranges|
      invariant Accumulate(readings[..k]).Success?
      invariant Distinct(pages)
      invariant forall x :: x in pages <==> x in Accumulate(readings[..k]).value
    {
      var token := ReadStrictToken(ranges[k], totalPages);
      assert token == readings[k];
      if token.Failure? {
        AccumulateFirstFailure(readings, k);
        return Failure(token.error);
      }
      AccumulateNext(readings, k);
      pages := AddRun(pages, token.value.0, token.value.1);
      k := k + 1;
    }
    assert readings[..|ranges|] == readings;
    return Success(pages);
  }

  /** `parsePageRanges(rangeString, totalPages)`: every page for a blank
      argument; otherwise the pages the tokens select, each once and in
      ascending order, or the error of the first bad token. */
  method ParsePageRanges(rangeString: Option<string>, totalPages: nat)
    returns (r: Result<seq<real>, RangeError>)
    ensures Blank(rangeString) ==> r == Success(seq(totalPages, i => (i + 1) as real))
    ensures !Blank(rangeString) ==>
      var spec := StrictPages(Tokens(rangeString.value), totalPages);
      && (r.Failure? <==> spec.Failure?)
      && (r.Failure? ==> r.error == spec.error)
      && (r.Success? ==>
            StrictlyIncreasingReals(r.value) && forall x :: x in r.value <==> x in spec.value)
  {
    if rangeString.None? || Trim(rangeString.value) == "" {
      return Success(seq(totalPages, i => (i + 1) as real));
    }
    var ranges := Tokens(rangeString.value);
    var collected := CollectStrict(ranges, totalPages);
    if collected.Failure? {
      return Failure(collected.error);
    }
    SortRealsOfSet(collected.value);
    return Success(SortReals(collected.value));
  }

  /** One more token either throws or adds its run of pages. */
  lemma AccumulateStep(readings: seq<Result<(real, real), RangeError>>, k: nat)
    requires k < |readings|
    ensures Accumulate(readings[..k + 1]) ==
      match Accumulate(readings[..k])
      case Failure(e) => Failure(e)
      case Success(pages) =>
        match readings[k]
        case Failure(e) => Failure(e)
        case Success((start, end)) => Success(pages + set x | x in Run(start, end))
  {
    assert readings[..k + 1][..k] == readings[..k];
  }

  /** The first reading that failed decides the result. */
  lemma AccumulateFirstFailure(readings: seq<Result<(real, real), RangeError>>, k: nat)
    requires k < |readings| && Accumulate(readings[..k]).Success? && readings[k].Failure?
    ensures Accumulate(readings) == Failure(readings[k].error)
  {
    AccumulateStep(readings, k);
    AccumulateErrorPersists(readings[..k + 1], readings[k + 1..]);
    assert readings[..k + 1] + readings[k + 1..] == readings;
  }

  /** A successful reading adds its run of pages to those selected so far. */
  lemma AccumulateNext(readings: seq<Result<(real, real), RangeError>>, k: nat)
    requires k < |readings| && Accumulate(readings[..k]).Success? && readings[k].Success?
    ensures Accumulate(readings[..k + 1]).Success?
    ensures forall x :: x in Accumulate(readings[..k + 1]).value <==>
      x in Accumulate(readings[..k]).value || x in Run(readings[k].value.0, readings[k].value.1)
  {
    AccumulateStep(readings, k);
  }

  /** Once a token has thrown, the tokens after it change nothing: the first
      error is the one reported, and no partial result is returned. */
  lemma {:induction false} AccumulateErrorPersists(init: seq<Result<(real, real), RangeError>>,
                                                   rest: seq<Result<(real, real), RangeError>>)
    requires Accumulate(init).Failure?
    ensures Accumulate(init + rest) == Accumulate(init)
    decreases |rest|
  {
    var all := init + rest;
    if rest == [] {
      assert all == init;
    } else {
      assert all[..|all| - 1] == init + rest[..|rest| - 1];
      AccumulateErrorPersists(init, rest[..|rest| - 1]);
      assert Accumulate(all[..|all| - 1]).Failure?;
    }
  }

  /** Readings that all lie in `[1, totalPages]` select only such pages. */
  lemma {:induction false} AccumulateInBounds(readings: seq<Result<(real, real), RangeError>>, totalPages: nat)
    requires forall k :: 0 <= k < |readings| && readings[k].Success? ==>
      1.0 <= readings[k].value.0 && readings[k].value.1 <= totalPages as real
    requires Accumulate(readings).Success?
    ensures forall x :: x in Accumulate(readings).value ==> 1.0 <= x <= totalPages as real
    decreases |readings|
  {
    if readings != [] {
      var init := readings[..|readings| - 1];
      assert forall k :: 0 <= k < |init| ==> init[k] == readings[k];
      AccumulateInBounds(init, totalPages);
    }
  }

  /** Every page of a successful result is a page of the document: it lies in
      `[1, totalPages]`. */
  lemma StrictPagesInBounds(tokens: seq<string>, totalPages: nat)
    requires StrictPages(tokens, totalPages).Success?
    ensures forall x :: x in StrictPages(tokens, totalPages).value ==> 1.0 <= x <= totalPages as real
  {
    AccumulateInBounds(ReadAll(tokens, totalPages), totalPages);
  }

  /** The loop over `start..end` for integers adds exactly those integers. */
  lemma RunOfIntegers(a: int, b: int)
    requires a <= b
    ensures Run(a as real, b as real) == seq(b - a + 1, k => (a + k) as real)
  {
    assert (b as real - a as real).Floor == b - a;
  }

  /** What a token with a dash selects, on the values `Number` reads from its
      first two pieces: it is accepted exactly when both are finite with
      1 <= start <= end <= totalPages, and then selects [start, end]. */
  lemma StrictIntervalMeaning(range: string, totalPages: nat)
    requires '-' in range
    ensures var parts := Split(range, '-');
      |parts| >= 2 &&
      var (start, end) := (StringToNumber(parts[0]), StringToNumber(parts[1]));
      ReadStrictToken(range, totalPages) ==
        if start.Finite? && end.Finite? && 1.0 <= Value(start) <= Value(end) <= totalPages as real
        then Success((Value(start), Value(end)))
        else Failure(InvalidPageRange(range))
  {
    SplitCount(range, '-');
    var parts := Split(range, '-');
    var (start, end) := (StringToNumber(parts[0]), StringToNumber(parts[1]));
    var rejected := start.NaN? || end.NaN? || Less(start, FromInt(1)) || Less(FromInt(totalPages), end)
      || Less(end, start);
    if rejected {
      assert ReadStrictToken(range, totalPages) == Failure(InvalidPageRange(range));
    } else {
      AcceptedIsFinite(start, end, totalPages);
      assert ReadStrictToken(range, totalPages) == Success((Value(start), Value(end)));
    }
    IntervalGuard(start, end, totalPages);
  }

  /** The interval guard of `parsePageRanges` on the numbers read rejects
      exactly the pairs that are not finite with 1 <= start <= end <= totalPages. */
  lemma IntervalGuard(start: JsNum, end: JsNum, totalPages: nat)
    ensures (start.NaN? || end.NaN? || Less(start, FromInt(1)) || Less(FromInt(totalPages), end)
             || Less(end, start))
      <==> !(start.Finite? && end.Finite? && 1.0 <= Value(start) <= Value(end) <= totalPages as real)
  {
    if start.Finite? && end.Finite? {
      assert Less(start, FromInt(1)) <==> Value(start) < 1.0;
      assert Less(FromInt(totalPages), end) <==> (totalPages as real) < Value(end);
      assert Less(end, start) <==> Value(end) < Value(start);
    }
  }

  /** What a token without a dash selects: it is accepted exactly when
      `Number` reads a finite value in [1, totalPages], and then selects that
      page alone; otherwise the error names the number read. */
  lemma StrictPageMeaning(range: string, totalPages: nat)
    requires '-' !in range
    ensures var page := StringToNumber(range);
      ReadStrictToken(range, totalPages) ==
        if page.Finite? && 1.0 <= Value(page) <= totalPages as real
        then Success((Value(page), Value(page)))
        else Failure(InvalidPageNumber(page))
  {
    var page := StringToNumber(range);
    var rejected := page.NaN? || Less(page, FromInt(1)) || Less(FromInt(totalPages), page);
    if rejected {
      assert ReadStrictToken(range, totalPages) == Failure(InvalidPageNumber(page));
    } else {
      AcceptedIsFinite(page, page, totalPages);
      assert ReadStrictToken(range, totalPages) == Success((Value(page), Value(page)));
    }
    IntervalGuard(page, page, totalPages);
  }

  /** An interval `a-b` of digit runs, leading zeros allowed, selects the pages
      `a..b` when 1 <= a <= b <= totalPages and throws naming the token
      otherwise (a start of 0, an end past the last page, or a reversed
      interval). */
  lemma StrictInterval(a: string, b: string, totalPages: nat)
    requires Numeral(a) && Numeral(b)
    ensures var (x, y) := (DecimalValue(a), DecimalValue(b));
      ReadStrictToken(a + "-" + b, totalPages) ==
        if 1 <= x <= y <= totalPages then Success((x as real, y as real))
        else Failure(InvalidPageRange(a + "-" + b))
  {
    var s := a + "-" + b;
    IntervalPieces(a, b);
    NumberOfDigits(a);
    NumberOfDigits(b);
    StrictIntervalOfValues(s, DecimalValue(a), DecimalValue(b), totalPages);
  }

  /** A token with a dash whose first two pieces read as the integers `x` and
      `y` selects `x..y` when 1 <= x <= y <= totalPages, and throws otherwise. */
  lemma StrictIntervalOfValues(range: string, x: int, y: int, totalPages: nat)
    requires '-' in range
    requires var parts := Split(range, '-');
      |parts| >= 2 && StringToNumber(parts[0]) == FromInt(x) && StringToNumber(parts[1]) == FromInt(y)
    ensures ReadStrictToken(range, totalPages) ==
      if 1 <= x <= y <= totalPages then Success((x as real, y as real))
      else Failure(InvalidPageRange(range))
  {
    StrictIntervalMeaning(range, totalPages);
  }

  /** An interval written backwards (`5-3`) throws naming the token. */
  lemma StrictReversedInterval(a: string, b: string, totalPages: nat)
    requires Numeral(a) && Numeral(b)
    requires DecimalValue(b) < DecimalValue(a)
    ensures ReadStrictToken(a + "-" + b, totalPages) == Failure(InvalidPageRange(a + "-" + b))
  {
    StrictInterval(a, b, totalPages);
  }

  /** In `a-b-c` only the first two pieces are read, so it selects what `a-b`
      selects; when it throws, the message names the whole token. */
  lemma StrictLongInterval(a: string, b: string, c: string, totalPages: nat)
    requires Numeral(a) && Numeral(b) && AllDigits(c)
    ensures var (x, y) := (DecimalValue(a), DecimalValue(b));
      ReadStrictToken(a + "-" + b + "-" + c, totalPages) ==
        if 1 <= x <= y <= totalPages then Success((x as real, y as real))
        else Failure(InvalidPageRange(a + "-" + b + "-" + c))
  {
    LongIntervalText(a, b, c);
    SplitLongInterval(a, b, c);
    NumberOfDigits(a);
    NumberOfDigits(b);
    StrictIntervalOfValues(a + "-" + b + "-" + c, DecimalValue(a), DecimalValue(b), totalPages);
  }

  /** `-b` has the empty start `Number("")`, which is 0 and below the first
      page: unlike the lenient parser, which skips it, this throws naming the
      token. */
  lemma StrictMissingStart(b: string, totalPages: nat)
    requires AllDigits(b)
    ensures ReadStrictToken("-" + b, totalPages) == Failure(InvalidPageRange("-" + b))
  {
    MissingStartPieces(b);
    assert ("-" + b)[0] == '-';
    BlankIsZero("");
    StrictIntervalMeaning("-" + b, totalPages);
  }

  /** An empty token between two commas is `Number("")`, which is 0: it throws
      `Invalid page number: 0`. */
  lemma EmptyTokenReportsZero(totalPages: nat)
    ensures ReadStrictToken("", totalPages) == Failure(InvalidPageNumber(Finite(0, 0)))
    ensures Message(ReadStrictToken("", totalPages).error) == "Invalid page number: 0"
  {
    BlankIsZero("");
    StrictPageMeaning("", totalPages);
  }

  /** A single page of digits, leading zeros allowed, selects itself when it
      lies in [1, totalPages] and otherwise throws naming the number read. */
  lemma StrictSinglePage(p: string, totalPages: nat)
    requires Numeral(p)
    ensures var x := DecimalValue(p);
      ReadStrictToken(p, totalPages) ==
        if 1 <= x <= totalPages then Success((x as real, x as real))
        else Failure(InvalidPageNumber(Finite(x, 0)))
  {
    assert '-' !in p by { assert forall j :: 0 <= j < |p| ==> IsDigit(p[j]); }
    NumberOfDigits(p);
    assert StringToNumber(p) == FromInt(DecimalValue(p));
    StrictPageMeaning(p, totalPages);
  }

  /** A single page past the end throws, naming the number read. */
  lemma StrictPageBeyondEnd(p: string, totalPages: nat)
    requires Numeral(p) && DecimalValue(p) > totalPages
    ensures ReadStrictToken(p, totalPages) == Failure(InvalidPageNumber(Finite(DecimalValue(p), 0)))
  {
    StrictSinglePage(p, totalPages);
  }

  /** Digits followed by text `Number` cannot read are NaN, and the token
      throws `Invalid page number: NaN`, where `parseInt` would read the
      digits. */
  lemma StrictTrailingTextRejected(d: string, c: char, totalPages: nat)
    requires d != [] && AllDigits(d) && c != '-'
    requires !IsDigit(c) && !IsJsSpace(c) && c != '.' && c != 'e' && c != 'E'
    ensures ReadStrictToken(d + [c], totalPages) == Failure(InvalidPageNumber(NaN))
  {
    var s := d + [c];
    assert '-' !in s by {
      forall j | 0 <= j < |s| ensures s[j] != '-' {
        if j < |d| { assert s[j] == d[j] && IsDigit(d[j]); }
      }
    }
    NumberOfDigitsThen(d, c);
    StrictPageMeaning(s, totalPages);
  }

  // ---------------------------------------------------- getFileExtension

  /** `filename.split('.').pop().toLowerCase()`: the lower-cased text after
      the last dot, or the whole lower-cased name when it has no dot. */
  function GetFileExtension(filename: string): (r: string)
    ensures |r| <= |filename|
    ensures r == ToLowerAscii(filename[|filename| - |r|..])
    ensures '.' !in filename[|filename| - |r|..]
    ensures |r| < |filename| ==> filename[|filename| - |r| - 1] == '.'
  {
    SplitLast(filename, '.');
    var parts := Split(filename, '.');
    ToLowerAscii(parts[|parts| - 1])
  }

  /** A name without a dot is its own extension, lower-cased. */
  lemma ExtensionWithoutDot(filename: string)
    requires '.' !in filename
    ensures GetFileExtension(filename) == ToLowerAscii(filename)
  {
    var r := GetFileExtension(filename);
    assert |r| == |filename|;
    assert filename[|filename| - |r|..] == filename;
  }

  /** `name.ext` with a dot-free extension has extension `ext`. */
  lemma ExtensionAfterLastDot(name: string, ext: string)
    requires '.' !in ext
    ensures GetFileExtension(name + "." + ext) == ToLowerAscii(ext)
  {
    var s := name + "." + ext;
    var r := GetFileExtension(s);
    var suffix := s[|s| - |r|..];
    assert s[|name|] == '.';
    forall i | |s| - |r| <= i < |s| ensures s[i] != '.' {
      assert s[i] == suffix[i - (|s| - |r|)];
    }
    forall i | |name| < i < |s| ensures s[i] != '.' {
      assert s[i] == ext[i - |name| - 1];
    }
    assert |r| == |ext|;
    assert suffix == ext;
  }

  // --------------------------------------------------- generateTimestamp

  /** `String(n).padStart(2, '0')` */
  function Pad2(n: nat): (r: string)
    ensures AllDigits(r) && |r| >= 2
  {
    var s := NatToString(n);
    if |s| >= 2 then s else "0" + s
  }

  /** `generateTimestamp()` for the date read from the clock, given as its
      fields: year, month counted from 0, day of the month, hours, minutes
      and seconds. */
  function Timestamp(year: int, month0: nat, date: nat, hours: nat, minutes: nat, seconds: nat): string {
    IntToString(year) + Pad2(month0 + 1) + Pad2(date) + "_" + Pad2(hours) + Pad2(minutes) + Pad2(seconds)
  }

  /** A field below 100 is written with exactly two characters. */
  lemma Pad2Length(n: nat)
    requires n < 100
    ensures |Pad2(n)| == 2
  {
    if n >= 10 {
      assert NatToString(n) == NatToString(n / 10) + [DigitChar(n % 10)];
    }
  }

  /** A field below 100 is written with exactly two digits that read back as
      the field. */
  lemma Pad2Small(n: nat)
    requires n < 100
    ensures |Pad2(n)| == 2 && DecimalValue(Pad2(n)) == n
  {
    var s := NatToString(n);
    DecimalValueOfNatToString(n);
    if n < 10 {
      assert |s| == 1;
      var p := "0" + s;
      assert p[..1] == "0";
      assert DecimalValue(p) == 10 * DecimalValue("0") + DecimalValue(s);
    } else {
      assert s == NatToString(n / 10) + [DigitChar(n % 10)];
    }
  }

  /** Where the parts of `y + mo + d + "_" + h + mi + se` lie when every part
      after the year has two characters. */
  lemma {:induction false} TimestampParts(y: string, mo: string, d: string, h: string, mi: string, se: string)
    requires |mo| == 2 && |d| == 2 && |h| == 2 && |mi| == 2 && |se| == 2
    ensures var t := y + mo + d + "_" + h + mi + se;
      var n := |y|;
      && |t| == n + 11 && t[..n] == y && t[n + 4] == '_'
      && t[n..n + 2] == mo && t[n + 2..n + 4] == d && t[n..n + 4] == mo + d
      && t[n + 5..n + 7] == h && t[n + 7..n + 9] == mi && t[n + 9..] == se
      && t[n + 5..] == h + mi + se
  {
    var t := y + mo + d + "_" + h + mi + se;
    var n := |y|;
    assert t == y + (mo + d) + "_" + (h + mi + se);
    assert t[n..n + 4] == mo + d;
    assert t[n + 5..] == h + mi + se;
  }

  /** `t` holds, at `i`, two decimal digits whose value is `v`. */
  predicate TwoDigitsAt(t: string, i: int, v: nat) {
    0 <= i && i + 2 <= |t| && AllDigits(t[i..i + 2]) && DecimalValue(t[i..i + 2]) == v
  }

  /** Two digits found in `t` at `i` are a field of their value there. */
  lemma TwoDigitsOf(t: string, i: nat, f: string)
    requires |f| == 2 && AllDigits(f) && i + 2 <= |t| && t[i..i + 2] == f
    ensures TwoDigitsAt(t, i, DecimalValue(f))
  {
  }

  /** The date half of `YYYYMMDD_HHMMSS`: the year as written by `String`,
      then two digits each for the month counted from 1 and the day, then
      `_`. */
  lemma TimestampDate(year: int, month0: nat, date: nat, hours: nat, minutes: nat, seconds: nat)
    requires month0 <= 11 && 1 <= date <= 31 && hours <= 23 && minutes <= 59 && seconds <= 59
    ensures var t := Timestamp(year, month0, date, hours, minutes, seconds);
      var y := |IntToString(year)|;
      && |t| == y + 11
      && t[..y] == IntToString(year)
      && TwoDigitsAt(t, y, month0 + 1)
      && TwoDigitsAt(t, y + 2, date)
      && t[y + 4] == '_'
  {
    var y, mo, d, h, mi, se :=
      IntToString(year), Pad2(month0 + 1), Pad2(date), Pad2(hours), Pad2(minutes), Pad2(seconds);
    Pad2Small(month0 + 1);
    Pad2Small(date);
    Pad2Length(hours);
    Pad2Length(minutes);
    Pad2Length(seconds);
    TimestampParts(y, mo, d, h, mi, se);
    var t := y + mo + d + "_" + h + mi + se;
    assert Timestamp(year, month0, date, hours, minutes, seconds) == t;
    TwoDigitsOf(t, |y|, mo);
    TwoDigitsOf(t, |y| + 2, d);
  }

  /** The time half of `YYYYMMDD_HHMMSS`: after the `_`, two digits each for
      hours, minutes and seconds. */
  lemma TimestampTime(year: int, month0: nat, date: nat, hours: nat, minutes: nat, seconds: nat)
    requires month0 <= 11 && 1 <= date <= 31 && hours <= 23 && minutes <= 59 && seconds <= 59
    ensures var t := Timestamp(year, month0, date, hours, minutes, seconds);
      var y := |IntToString(year)|;
      && |t| == y + 11
      && TwoDigitsAt(t, y + 5, hours)
      && TwoDigitsAt(t, y + 7, minutes)
      && TwoDigitsAt(t, y + 9, seconds)
  {
    var y, mo, d, h, mi, se :=
      IntToString(year), Pad2(month0 + 1), Pad2(date), Pad2(hours), Pad2(minutes), Pad2(seconds);
    Pad2Length(month0 + 1);
    Pad2Length(date);
    Pad2Small(hours);
    Pad2Small(minutes);
    Pad2Small(seconds);
    TimestampParts(y, mo, d, h, mi, se);
    var t := y + mo + d + "_" + h + mi + se;
    assert Timestamp(year, month0, date, hours, minutes, seconds) == t;
    TwoDigitsOf(t, |y| + 5, h);
    TwoDigitsOf(t, |y| + 7, mi);
    assert t[|y| + 9..|y| + 11] == se;
    TwoDigitsOf(t, |y| + 9, se);
  }

  // ------------------------------------------------------- dataURItoBlob

  /** The UTF-16 code units of one character. */
  function Utf16(c: char): (r: seq<int>)
    ensures 1 <= |r| <= 2 && forall k :: 0 <= k < |r| ==> 0 <= r[k] < 0x10000
    ensures c as int < 0x10000 ==> r == [c as int]
  {
    if c as int < 0x10000 then [c as int]
    else
      var v := c as int - 0x10000;
      [0xD800 + v / 0x400, 0xDC00 + v % 0x400]
  }

  /** The UTF-16 code units of a string: what `length` counts and
      `charCodeAt` reads. */
  function CodeUnits(s: string): (r: seq<int>)
    ensures |r| >= |s|
    ensures forall k :: 0 <= k < |r| ==> 0 <= r[k] < 0x10000
    decreases |s|
  {
    if s == [] then [] else Utf16(s[0]) + CodeUnits(s[1..])
  }

  /** Text of characters below U+10000 has one code unit per character. */
  lemma {:induction false} CodeUnitsOfBmp(s: string)
    requires forall k :: 0 <= k < |s| ==> s[k] as int < 0x10000
    ensures CodeUnits(s) == seq(|s|, k requires 0 <= k < |s| => s[k] as int)
    decreases |s|
  {
    if s != [] {
      CodeUnitsOfBmp(s[1..]);
    }
  }

  /** The value of a hexadecimal digit given as a code unit. */
  function HexDigit(u: int): Option<nat> {
    if '0' as int <= u <= '9' as int then Some(u - '0' as int)
    else if 'a' as int <= u <= 'f' as int then Some(u - 'a' as int + 10)
    else if 'A' as int <= u <= 'F' as int then Some(u - 'A' as int + 10)
    else None
  }

  /** The value of a run of hexadecimal digits, or `None`. */
  function HexValue(units: seq<int>): Option<nat>
    decreases |units|
  {
    if units == [] then Some(0)
    else match (HexValue(units[..|units| - 1]), HexDigit(units[|units| - 1]))
      case (Some(v), Some(d)) => Some(16 * v + d)
      case _ => None
  }

  const Percent := '%' as int

  /** `unescape(s)` over code units: `%uXXXX` becomes the unit `XXXX`, `%XX`
      the unit `XX`, and every other unit, a `%` not followed by such digits
      included, is kept. */
  function Unescape(s: seq<int>): (r: seq<int>)
    ensures |r| <= |s|
    decreases |s|
  {
    if s == [] then []
    else if s[0] == Percent && |s| >= 6 && s[1] == 'u' as int && HexValue(s[2..6]).Some? then
      [HexValue(s[2..6]).value] + Unescape(s[6..])
    else if s[0] == Percent && |s| >= 3 && HexValue(s[1..3]).Some? then
      [HexValue(s[1..3]).value] + Unescape(s[3..])
    else
      [s[0]] + Unescape(s[1..])
  }

  /** Text without `%` is not changed by `unescape`. */
  lemma {:induction false} UnescapeWithoutPercent(s: seq<int>)
    requires Percent !in s
    ensures Unescape(s) == s
    decreases |s|
  {
    if s != [] {
      UnescapeWithoutPercent(s[1..]);
      assert s == [s[0]] + s[1..];
    }
  }

  /** The hexadecimal digit of a value below 16, as a code unit. */
  function HexUnit(d: nat): (u: int)
    requires d < 16
    ensures HexDigit(u) == Some(d)
  {
    if d < 10 then '0' as int + d else 'A' as int + d - 10
  }

  /** `%XX` for each byte: percent-encoding. */
  function PercentEncode(bytes: seq<int>): (r: seq<int>)
    requires forall k :: 0 <= k < |bytes| ==> 0 <= bytes[k] < 256
    ensures |r| == 3 * |bytes|
    decreases |bytes|
  {
    if bytes == [] then []
    else [Percent, HexUnit(bytes[0] / 16), HexUnit(bytes[0] % 16)] + PercentEncode(bytes[1..])
  }

  /** `unescape` undoes percent-encoding. */
  lemma {:induction false} UnescapePercentEncode(bytes: seq<int>)
    requires forall k :: 0 <= k < |bytes| ==> 0 <= bytes[k] < 256
    ensures Unescape(PercentEncode(bytes)) == bytes
    decreases |bytes|
  {
    if bytes != [] {
      var e := PercentEncode(bytes);
      var b := bytes[0];
      UnescapePercentEncode(bytes[1..]);
      assert e[3..] == PercentEncode(bytes[1..]);
      assert e[1..3] == [HexUnit(b / 16), HexUnit(b % 16)];
      assert e[1..3][..1] == [HexUnit(b / 16)];
      assert HexValue(e[1..3][..1]) == Some(b / 16) by {
        assert e[1..3][..1][..0] == [];
      }
      assert HexValue(e[1..3]) == Some(b);
      assert e[1] != 'u' as int;
    }
  }

  /** What `dataURItoBlob` can throw: `atob` rejects the payload, or the
      header has no `:` to take the mime type from. */
  datatype BlobError = InvalidBase64 | MissingMimeType

  /** The bytes and the `type` of the resulting `Blob`. */
  datatype Blob = Blob(bytes: seq<int>, mimeType: string)

  /** Every character lies in U+0020..U+007E. */
  predicate PrintableAscii(t: string) {
    forall i :: 0 <= i < |t| ==> ' ' <= t[i] <= '~'
  }

  /** The `type` the `Blob` constructor keeps from the one it is given: the
      empty string when a character lies outside U+0020..U+007E, otherwise
      the text with its ASCII capitals lower-cased. */
  function BlobType(t: string): (r: string)
    ensures r == [] <==> t == [] || !PrintableAscii(t)
    ensures r != [] ==> |r| == |t| && forall i :: 0 <= i < |t| ==> r[i] == LowerChar(t[i])
    ensures PrintableAscii(r) && forall i :: 0 <= i < |r| ==> !('A' <= r[i] <= 'Z')
  {
    if PrintableAscii(t) then ToLowerAscii(t) else ""
  }

  /** A type that is already printable lower-case ASCII, as every canvas data
      URL's `image/png` is, is kept as given. */
  lemma BlobTypeOfLowerCase(t: string)
    requires PrintableAscii(t) && forall i :: 0 <= i < |t| ==> !('A' <= t[i] <= 'Z')
    ensures BlobType(t) == t
  {
    assert ToLowerAscii(t) == t;
  }

  /** Normalising a type twice is normalising it once. */
  lemma BlobTypeIdempotent(t: string)
    ensures BlobType(BlobType(t)) == BlobType(t)
  {
    BlobTypeOfLowerCase(BlobType(t));
  }

  /** The text before the first comma. */
  function Header(dataUri: string): string {
    Split(dataUri, ',')[0]
  }

  /** The text between the first and the second comma; `undefined`, which
      both `atob` and `unescape` read as the string "undefined", when there
      is no comma. */
  function Payload(dataUri: string): string {
    var parts := Split(dataUri, ',');
    if |parts| >= 2 then parts[1] else "undefined"
  }

  /** The decoded byte string: base64 when the header mentions `base64`,
      percent-decoding otherwise. `atob` is passed in. */
  function ByteString(dataUri: string, atob: string -> Option<seq<int>>): Result<seq<int>, BlobError> {
    if Includes(Header(dataUri), "base64") then
      match atob(Payload(dataUri))
      case None => Failure(InvalidBase64)
      case Some(decoded) => Success(decoded)
    else Success(Unescape(CodeUnits(Payload(dataUri))))
  }

  /** `header.split(':')[1].split(';')[0]`: the text after the first colon up
      to the next colon or semicolon; `None` when there is no colon, where the
      source throws a `TypeError`. */
  function MimeType(header: string): (r: Option<string>)
    ensures r.None? <==> ':' !in header
    ensures r.Some? ==> ':' !in r.value && ';' !in r.value
  {
    var parts := Split(header, ':');
    SplitCount(header, ':');
    if |parts| >= 2 then
      SplitFirst(parts[1], ';');
      SplitPiecesFree(header, ':');
      SplitPiecesFree(parts[1], ';');
      assert parts[1] in parts;
      var mime := Split(parts[1], ';')[0];
      assert mime in Split(parts[1], ';');
      assert ':' !in mime by {
        if ';' in parts[1] {
          assert mime == parts[1][..IndexOf(parts[1], ';')];
        }
      }
      Some(mime)
    else None
  }

  /** `dataURItoBlob(dataUri)`: decodes the payload, reads the mime type from
      the header, copies each code unit into a `Uint8Array`, which keeps the
      unit modulo 256, and gives both to the `Blob` constructor, which
      normalises the type. */
  method DataUriToBlob(dataUri: string, atob: string -> Option<seq<int>>) returns (r: Result<Blob, BlobError>)
    ensures ByteString(dataUri, atob).Failure? ==> r == Failure(ByteString(dataUri, atob).error)
    ensures ByteString(dataUri, atob).Success? && ':' !in Header(dataUri) ==> r == Failure(MissingMimeType)
    ensures r.Success? ==>
      var decoded := ByteString(dataUri, atob).value;
      && ByteString(dataUri, atob).Success? && ':' in Header(dataUri)
      && r.value.mimeType == BlobType(MimeType(Header(dataUri)).value)
      && |r.value.bytes| == |decoded|
      && forall k :: 0 <= k < |decoded| ==> r.value.bytes[k] == decoded[k] % 256
  {
    var header := Split(dataUri, ',')[0];
    var byteString: seq<int>;
    if Includes(header, "base64") {
      var decoded := atob(Payload(dataUri));
      if decoded.None? {
        return Failure(InvalidBase64);
      }
      byteString := decoded.value;
    } else {
      byteString := Unescape(CodeUnits(Payload(dataUri)));
    }
    var mimeString := MimeType(header);
    if mimeString.None? {
      return Failure(MissingMimeType);
    }
    var ia := new int[|byteString|];
    var i := 0;
    while i < |byteString|
      invariant i <= |byteString|
      invariant forall k :: 0 <= k < i ==> ia[k] == byteString[k] % 256
    {
      ia[i] := byteString[i] % 256;
      i := i + 1;
    }
    return Success(Blob(ia[..], BlobType(mimeString.value)));
  }

  /** In `data:<mime>;<parameters>`, the mime type is the text between the
      colon and the first semicolon. */
  lemma MimeTypeOfDataHeader(mime: string, parameters: string)
    requires ':' !in mime && ';' !in mime && ':' !in parameters
    ensures MimeType("data:" + mime + ";" + parameters) == Some(mime)
  {
    assert ':' !in "data";
    assert "data:" + mime + ";" + parameters == "data" + [':'] + (mime + ";" + parameters);
    SplitAfterFirst("data", ':', mime + ";" + parameters);
    assert mime + ";" + parameters == mime + [';'] + parameters;
    SplitAfterFirst(mime, ';', parameters);
    SplitFirst(mime + ";" + parameters, ':');
  }

  /** `data:<header>,<payload>` with comma-free parts splits into the two. */
  lemma DataUriParts(header: string, payload: string)
    requires ',' !in header && ',' !in payload
    ensures Header(header + "," + payload) == header
    ensures Payload(header + "," + payload) == payload
  {
    assert header + "," + payload == header + [','] + payload;
    SplitAfterFirst(header, ',', payload);
    SplitFirst(payload, ',');
  }

  /** A header ending in `;base64` mentions `base64`, so the payload after it
      is decoded with `atob`, and a payload `atob` rejects is an error. */
  lemma Base64Detected(prefix: string, payload: string, atob: string -> Option<seq<int>>)
    requires ',' !in prefix && ',' !in payload
    ensures Includes(prefix + ";base64", "base64")
    ensures ByteString(prefix + ";base64," + payload, atob) ==
      match atob(payload)
      case None => Failure(InvalidBase64)
      case Some(decoded) => Success(decoded)
  {
    var h := prefix + ";base64";
    Base64Header(prefix);
    assert prefix + ";base64," + payload == h + "," + payload;
    DataUriParts(h, payload);
  }

  /** `<prefix>;base64` mentions `base64` and adds no comma. */
  lemma Base64Header(prefix: string)
    requires ',' !in prefix
    ensures Includes(prefix + ";base64", "base64") && ',' !in prefix + ";base64"
  {
    var h := prefix + ";base64";
    assert h[|prefix| + 1..|prefix| + 7] == "base64";
    IncludesAt(h, "base64", |prefix| + 1);
    forall j | 0 <= j < |h| ensures h[j] != ',' {
      if j < |prefix| { assert h[j] == prefix[j]; }
    }
  }
}
