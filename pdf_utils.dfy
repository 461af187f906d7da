/** The in-memory part of `src/lib/pdf-utils.ts`: the lenient, 0-based page
    range parser `parsePageRange`, the page selection and empty check of
    `splitPdf`, and the translation of a failed load into the password
    message. */
module PdfUtils {
  import opened Wrappers
  import opened JsText
  import opened JsNumber
  import opened Sequences
  import opened JsSet
  import opened RangeText

  // ------------------------------------------------------- one range token

  /** What one comma-separated token of the range selects, as the 1-based
      pages `[start, end]`; `None` for a token the parser skips. A token with a
      dash is read as `start-end` from the first two dash-separated pieces
      (`"1-2-3"` reads as `1-2`); any other token as a single page. */
  function ReadToken(raw: string, maxPages: int): (r: Option<(int, int)>)
    ensures r.Some? ==> 1 <= r.value.0 <= r.value.1 <= maxPages
  {
    var range := Trim(raw);
    if '-' in range then
      var parts := Split(range, '-');
      SplitCount(range, '-');
      var start := ParseInt(Trim(parts[0]));
      var end := ParseInt(Trim(parts[1]));
      if start.Some? && end.Some? && start.value <= end.value
         && start.value >= 1 && end.value <= maxPages
      then Some((start.value, end.value))
      else None
    else
      var page := ParseInt(range);
      if page.Some? && page.value >= 1 && page.value <= maxPages
      then Some((page.value, page.value))
      else None
  }

  /** The integers `lo, lo + 1, ..., hi - 1`. */
  ghost function Interval(lo: int, hi: int): (r: set<int>)
    ensures forall x :: x in r <==> lo <= x < hi
    decreases hi - lo
  {
    if hi <= lo then {} else Interval(lo, hi - 1) + {hi - 1}
  }

  /** The 0-based indices a token read as `[start, end]` adds to the set. */
  ghost function Selection(token: Option<(int, int)>): set<int> {
    match token
    case None => {}
    case Some((start, end)) => Interval(start - 1, end)
  }

  /** The 0-based indices one token adds to the set. */
  ghost function Contribution(raw: string, maxPages: int): set<int> {
    Selection(ReadToken(raw, maxPages))
  }

  /** The 0-based indices a list of tokens adds to the set, token by token. */
  ghost function PageSet(tokens: seq<string>, maxPages: int): set<int>
    decreases |tokens|
  {
    if tokens == [] then {}
    else PageSet(tokens[..|tokens| - 1], maxPages) + Contribution(tokens[|tokens| - 1], maxPages)
  }

  // ------------------------------------------------------ parsePageRange

  /** The loop `for (let i = start; i <= end; i++) indices.add(i - 1)`: adds
      the 0-based indices of pages `start..end` to the set. */
  method AddPages(indices: seq<int>, start: int, end: int) returns (r: seq<int>)
    requires Distinct(indices)
    ensures Distinct(r)
    ensures forall x :: x in r <==> x in indices || start - 1 <= x < end
  {
    r := indices;
    var i := start;
    while i <= end
      invariant start <= i <= end + 1 || (i == start && end < start)
      invariant Distinct(r)
      invariant forall x :: x in r <==> x in indices || start - 1 <= x < i - 1
    {
      r := Add(r, i - 1);
      i := i + 1;
    }
  }

  /** The loop over the tokens of `parsePageRange`: the set of 0-based
      indices they select, in insertion order. */
  method CollectPages(ranges: seq<string>, maxPages: int) returns (indices: seq<int>)
    ensures Distinct(indices)
    ensures forall x :: x in indices <==> x in PageSet(ranges, maxPages)
  {
    indices := [];
    var k := 0;
    while k < |ranges|
      invariant k <= |ranges|
      invariant Distinct(indices)
      invariant forall x :: x in indices <==> x in PageSet(ranges[..k], maxPages)
    {
      var token := ReadToken(ranges[k], maxPages);
      if token.Some? {
        indices := AddPages(indices, token.value.0, token.value.1);
      }
      PageSetStep(ranges, k, maxPages);
      k := k + 1;
    }
    assert ranges[..|ranges|] == ranges;
  }

  /** `parsePageRange(rangeStr, maxPages)`: the 0-based pages the
      comma-separated tokens select, each once and in ascending order. */
  method ParsePageRange(rangeStr: string, maxPages: int) returns (r: seq<int>)
    ensures StrictlyIncreasing(r)
    ensures forall x :: x in r <==> x in PageSet(Split(rangeStr, ','), maxPages)
  {
    var indices := CollectPages(Split(rangeStr, ','), maxPages);
    SortOfSet(indices);
    r := Sort(indices, Ascending);
  }

  /** One more token adds its own selection to that of the tokens before it. */
  lemma PageSetStep(tokens: seq<string>, k: nat, maxPages: int)
    requires k < |tokens|
    ensures PageSet(tokens[..k + 1], maxPages)
      == PageSet(tokens[..k], maxPages) + Selection(ReadToken(tokens[k], maxPages))
  {
    assert tokens[..k + 1][..k] == tokens[..k];
  }

  /** Every index the parser selects is a page of the document: it lies in
      `[0, maxPages)`. */
  lemma {:induction false} PageSetInBounds(tokens: seq<string>, maxPages: int)
    ensures forall x :: x in PageSet(tokens, maxPages) ==> 0 <= x < maxPages
    decreases |tokens|
  {
    if tokens != [] {
      PageSetInBounds(tokens[..|tokens| - 1], maxPages);
    }
  }

  /** A token of the list adds its pages to the selection. */
  lemma {:induction false} ContributionSelected(tokens: seq<string>, t: string, maxPages: int)
    requires t in tokens
    ensures Contribution(t, maxPages) <= PageSet(tokens, maxPages)
    decreases |tokens|
  {
    var init := tokens[..|tokens| - 1];
    if t != tokens[|tokens| - 1] {
      assert tokens == init + [tokens[|tokens| - 1]];
      ContributionSelected(init, t, maxPages);
    }
  }

  /** The selection grows with the tokens: a list whose tokens all occur in
      another selects no page the other does not. */
  lemma {:induction false} PageSetMonotone(a: seq<string>, b: seq<string>, maxPages: int)
    requires forall t :: t in a ==> t in b
    ensures PageSet(a, maxPages) <= PageSet(b, maxPages)
    decreases |a|
  {
    if a != [] {
      var init := a[..|a| - 1];
      assert forall t :: t in init ==> t in a;
      PageSetMonotone(init, b, maxPages);
      ContributionSelected(b, a[|a| - 1], maxPages);
    }
  }

  /** Reordering or repeating the tokens selects the same pages. */
  lemma PageSetOrderIndependent(a: seq<string>, b: seq<string>, maxPages: int)
    requires forall t :: t in a <==> t in b
    ensures PageSet(a, maxPages) == PageSet(b, maxPages)
  {
    PageSetMonotone(a, b, maxPages);
    PageSetMonotone(b, a, maxPages);
  }

  /** There is one strictly ascending listing of a set of indices, so two
      range strings that select the same pages yield the same list. */
  lemma {:induction false} StrictlyIncreasingUnique(a: seq<int>, b: seq<int>)
    requires StrictlyIncreasing(a) && StrictlyIncreasing(b)
    requires forall x :: x in a <==> x in b
    ensures a == b
  {
    assert SortedBy(a, Ascending) && SortedBy(b, Ascending);
    assert Distinct(a) && Distinct(b);
    assert forall x :: x in a <==> x in b;
    SameMembersSameMultiset(a, b);
    SortedUnique(a, b, Ascending);
  }

  /** A skipped token adds nothing: appending it leaves the selection as it
      was, and the parser never fails on it. */
  lemma SkippedTokenAddsNothing(tokens: seq<string>, bad: string, maxPages: int)
    requires ReadToken(bad, maxPages) == None
    ensures PageSet(tokens + [bad], maxPages) == PageSet(tokens, maxPages)
  {
    assert (tokens + [bad])[..|tokens|] == tokens;
  }

  // ------------------------------------------------- tokens read as numerals

  /** How an interval token `a-b` of two numerals reads. */
  lemma ReadInterval(a: string, b: string, maxPages: int)
    requires Numeral(a) && Numeral(b)
    ensures var (x, y) := (DecimalValue(a), DecimalValue(b));
      ReadToken(a + "-" + b, maxPages)
      == if x <= y && x >= 1 && y <= maxPages then Some((x as int, y as int)) else None
  {
    IntervalPieces(a, b);
    ParseIntOfDigits(a);
    ParseIntOfDigits(b);
  }

  /** A valid interval `a-b` selects exactly the indices `a - 1 .. b - 1`. */
  lemma IntervalContribution(a: string, b: string, maxPages: int)
    requires Numeral(a) && Numeral(b)
    requires 1 <= DecimalValue(a) <= DecimalValue(b) <= maxPages
    ensures forall x ::
      x in Contribution(a + "-" + b, maxPages) <==> DecimalValue(a) - 1 <= x <= DecimalValue(b) - 1
  {
    ReadInterval(a, b, maxPages);
  }

  /** An interval written backwards (`5-3`) is skipped. */
  lemma ReversedIntervalSkipped(a: string, b: string, maxPages: int)
    requires Numeral(a) && Numeral(b)
    requires DecimalValue(b) < DecimalValue(a)
    ensures Contribution(a + "-" + b, maxPages) == {}
  {
    ReadInterval(a, b, maxPages);
  }

  /** An interval reaching past the last page is skipped whole, not cut
      short. */
  lemma IntervalBeyondEndSkipped(a: string, b: string, maxPages: int)
    requires Numeral(a) && Numeral(b)
    requires DecimalValue(b) > maxPages
    ensures Contribution(a + "-" + b, maxPages) == {}
  {
    ReadInterval(a, b, maxPages);
  }

  /** How a single-page token of digits reads. */
  lemma ReadSinglePage(p: string, maxPages: int)
    requires Numeral(p)
    ensures var x := DecimalValue(p);
      ReadToken(p, maxPages) == if 1 <= x <= maxPages then Some((x as int, x as int)) else None
  {
    ParseIntOfDigits(p);
    assert '-' !in p by { assert forall j :: 0 <= j < |p| ==> IsDigit(p[j]); }
  }

  /** A valid single page `p` selects exactly the index `p - 1`. */
  lemma SinglePageContribution(p: string, maxPages: int)
    requires Numeral(p) && 1 <= DecimalValue(p) <= maxPages
    ensures Contribution(p, maxPages) == {DecimalValue(p) - 1}
  {
    ReadSinglePage(p, maxPages);
  }

  /** A single page `0` or beyond the last page is skipped. */
  lemma SinglePageOutOfRangeSkipped(p: string, maxPages: int)
    requires Numeral(p) && (DecimalValue(p) < 1 || DecimalValue(p) > maxPages)
    ensures Contribution(p, maxPages) == {}
  {
    ReadSinglePage(p, maxPages);
  }

  /** In `a-b-c` only the first two pieces count: it reads as `a-b`. */
  lemma ExtraPiecesIgnored(a: string, b: string, c: string, maxPages: int)
    requires Numeral(a) && Numeral(b) && AllDigits(c)
    ensures ReadToken(a + "-" + b + "-" + c, maxPages) == ReadToken(a + "-" + b, maxPages)
  {
    LongIntervalText(a, b, c);
    DigitsAndDashesTrim(a + "-" + b + "-" + c);
    SplitLongInterval(a, b, c);
    IntervalPieces(a, b);
  }

  /** `-b` has an empty start, which `parseInt` reads as NaN: the token is
      skipped. */
  lemma MissingStartSkipped(b: string, maxPages: int)
    requires AllDigits(b)
    ensures ReadToken("-" + b, maxPages) == None
  {
    DashThenDigitsTrim(b);
    MissingStartPieces(b);
    assert ("-" + b)[0] == '-';
    BlankIsZero("");
  }

  // ------------------------------------------------------------ splitPdf

  const InvalidRangeMessage := "Invalid page range specified."

  /** The pages `splitPdf` copies: `all` in any letter case selects every
      page in order, anything else is read by `parsePageRange`. */
  method PageIndices(pages: string, pageCount: nat) returns (r: seq<int>)
    ensures StrictlyIncreasing(r) && InRange(r, pageCount)
    ensures ToLowerAscii(pages) == "all" ==> r == Identity(pageCount)
    ensures ToLowerAscii(pages) != "all" ==>
      forall x :: x in r <==> x in PageSet(Split(pages, ','), pageCount)
  {
    if ToLowerAscii(pages) == "all" {
      r := Identity(pageCount);
    } else {
      r := ParsePageRange(pages, pageCount);
      PageSetInBounds(Split(pages, ','), pageCount);
    }
  }

  /** The page selection and empty check of `splitPdf`: an empty selection
      is refused before any page is copied. */
  method SelectPages(pages: string, pageCount: nat) returns (r: Result<seq<int>, string>)
    ensures ToLowerAscii(pages) == "all" ==>
      r == if pageCount == 0 then Failure(InvalidRangeMessage) else Success(Identity(pageCount))
    ensures ToLowerAscii(pages) != "all" ==>
      (r.Failure? <==> PageSet(Split(pages, ','), pageCount) == {})
    ensures r.Failure? ==> r.error == InvalidRangeMessage
    ensures r.Success? ==> |r.value| > 0 && StrictlyIncreasing(r.value) && InRange(r.value, pageCount)
    ensures r.Success? && ToLowerAscii(pages) != "all" ==>
      forall x :: x in r.value <==> x in PageSet(Split(pages, ','), pageCount)
  {
    var pageIndices := PageIndices(pages, pageCount);
    ghost var selected := PageSet(Split(pages, ','), pageCount);
    if |pageIndices| == 0 {
      if ToLowerAscii(pages) != "all" {
        assert forall x :: x !in selected;
      }
      return Failure(InvalidRangeMessage);
    }
    assert pageIndices[0] in pageIndices;
    if ToLowerAscii(pages) != "all" {
      assert pageIndices[0] in selected;
    }
    return Success(pageIndices);
  }

  // ------------------------------------------------------- load failures

  /** A value thrown by the PDF loader: an `Error` with its message, or any
      other value. */
  datatype Thrown = ErrorObject(message: string) | OtherValue

  const PasswordMessage := "This PDF is password protected. Please enter the correct password."

  predicate MentionsPassword(e: Thrown) {
    e.ErrorObject? && (Includes(e.message, "password") || Includes(e.message, "encrypted"))
  }

  /** What `splitPdf` throws when loading fails with `e`. */
  function TranslateLoadError(e: Thrown): (r: Thrown)
    ensures MentionsPassword(e) ==> r == ErrorObject(PasswordMessage)
    ensures !MentionsPassword(e) ==> r == e
  {
    if MentionsPassword(e) then ErrorObject(PasswordMessage) else e
  }

  /** The password message itself mentions a password, so translating twice
      is translating once. */
  lemma TranslateLoadErrorIdempotent(e: Thrown)
    ensures TranslateLoadError(TranslateLoadError(e)) == TranslateLoadError(e)
  {
    var word := PasswordMessage[57..65];
    assert word == "password";
    IncludesAt(PasswordMessage, "password", 57);
  }
}
