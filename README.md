# Offline PDF utility: page ranges, page order and file lists

This project is a Dafny model of the in-memory logic of a browser-side PDF
utility. It does not model the PDF library, the canvas or the DOM that the
utility calls. It models three pieces of that logic and proves what each one
promises.

- **The two page-range parsers.**
  - `parsePageRange` (`src/lib/pdf-utils.ts`) is lenient and 0-based. It
    skips bad tokens and collects pages in a `Set`, then sorts them.
    `splitPdf` wraps it with the case-insensitive `all` shortcut, the "empty
    selection" error and the password-error translation.
  - `parsePageRanges` (`assets/js/utils.js`) is strict and 1-based. Blank
    input means every page. The first bad token throws a message naming the
    token or the number read.
  - The two parsers convert text to numbers differently, and both
    conversions are modelled over strings.
    - `parseInt(s, 10)` reads a numeric prefix and gives NaN for `""`
      (`JsNumber.ParseInt`).
    - `Number(s)` reads the whole text and gives 0 for `""`. It also accepts
      decimals, exponents, `0x`/`0o`/`0b` literals and `Infinity`
      (`JsNumber.StringToNumber`, over exact decimals).
  - The string built-ins the parsers use are modelled as well:
    - `String.prototype.trim`, over the ECMAScript white-space set;
    - `split` with a one-character separator;
    - `includes`;
    - `toLowerCase`, over ASCII;
    - number-to-string conversion.
- **Page-order editing.**
  - The organiser (`OrganizeTool.tsx`) is a class `OrganizeTool.Organizer`.
    Its `order` field is the list of original page indices. Each handler is
    a method, and every method keeps the order distinct and within the page
    count.
  - The page editor (`PDFPageEditor` in `assets/js/pageEditor.js`) is a class
    `PageEditor.Editor`. It has the tiles, the selection and deletion sets,
    the rotation map and the dragged page.
  - The editor reproduces three quirks of the code:
    - the rotation map is re-keyed by position when pages move;
    - the selection and deletion sets are never re-keyed;
    - the keep-list at save time ignores the on-screen order.
- **File lists and string helpers.**
  - From `assets/js/main.js`: the per-tab file lists (`MainScript.FileLists`),
    the `.pdf` filter, the file icon and `escapeHtml`. `escapeHtml` leaves
    `'` alone, as its regular expression does. Its partner is a decoder of
    the four entities, and the round trip is proved.
  - From `assets/js/utils.js`: the file extension, the timestamp (the date
    fields are parameters) and `dataURItoBlob`.
    - `atob` is a parameter, a function that may fail.
    - `unescape` is modelled over UTF-16 code units.
    - The byte copy is a loop into an array.

Where a JavaScript operation sees integers, the model uses Dafny's unbounded
integers. `Number()` results are exact decimals, which matches doubles for
the page numbers that occur. The strict parser therefore returns real
numbers, so `"1.5"` is a page, as it is in the source.

## Model

| member | source | states |
|---|---|---|
| JsText.Trim | src/lib/pdf-utils.ts:16 | the trimmed text is empty exactly when the input is all white space; otherwise it neither starts nor ends with white space |
| JsText.TrimCutsBlankEnds | src/lib/pdf-utils.ts:16 | the trimmed text is a slice of the input with only white space before and after it |
| JsText.TrimOfNoSpace | assets/js/utils.js:22 | text without white space is its own trim |
| JsText.SplitCount | src/lib/pdf-utils.ts:17-18 | the text contains the separator exactly when `split` gives at least two pieces, so the `includes('-')` test and the destructuring agree |
| JsText.SplitPiecesFree | assets/js/utils.js:55 | no piece of a `split` contains the separator |
| JsText.SplitJoin | src/lib/pdf-utils.ts:13 | joining the pieces with the separator gives back the text |
| JsText.SplitFirst | assets/js/utils.js:49 | the first piece is the text before the first separator, and the rest are the pieces of what follows it |
| JsText.SplitAfterFirst | assets/js/utils.js:55 | text free of the separator, followed by the separator, is the first piece |
| JsText.SplitLast | assets/js/utils.js:72 | the last piece is a suffix free of the separator, and a separator precedes it unless it is the whole text |
| JsText.IncludesAt | assets/js/utils.js:49 | text that occurs at some position is found by `includes` |
| JsText.ToLowerAscii | src/lib/pdf-utils.ts:56 | lower-casing keeps the length and maps each character through ASCII case folding |
| JsText.NatToString | assets/js/utils.js:79-83 | `String(n)` is a non-empty run of digits, with no leading zero unless n is 0, and has one digit exactly when n < 10 |
| JsText.DecimalValueOfNatToString | assets/js/utils.js:79-83 | reading back the decimal digits of `String(n)` gives n |
| JsNumber.LessIntegers | assets/js/utils.js:28 | on integers, the JavaScript `<` is the order of the integers |
| JsNumber.ParseIntOfDigitFirst | src/lib/pdf-utils.ts:25 | `parseInt` of text that starts with a digit is the value of its longest digit prefix |
| JsNumber.ParseIntOfNumeral | src/lib/pdf-utils.ts:18 | `parseInt` of a numeral followed by a non-digit is the numeral's value |
| JsNumber.ParseIntReadsNumeralPrefix | src/lib/pdf-utils.ts:25 | `parseInt(String(n) + rest)` is n whenever rest does not start with a digit |
| JsNumber.ParseIntOfDigits | src/lib/pdf-utils.ts:18 | a run of digits trims to itself and `parseInt` reads its decimal value |
| JsNumber.BlankIsZero | assets/js/utils.js:35 | `Number` of blank text is 0, while `parseInt` of it is NaN |
| JsNumber.NumberOfDigits | assets/js/utils.js:27 | `Number` of a run of digits is its decimal value, leading zeros included (`Number("01")` is 1) |
| JsNumber.NumberOfNumeral | assets/js/utils.js:35 | `Number(String(n))` is n |
| JsNumber.NumberOfDigitFirst | assets/js/utils.js:35 | `Number` of space-free text that starts with a digit and has no radix prefix is its unsigned decimal literal, or NaN |
| JsNumber.UnsignedDecimalRejectsTrailer | assets/js/utils.js:35 | a numeral followed by a character that cannot continue a decimal literal is not a literal |
| JsNumber.NumberOfBarePrefix | assets/js/utils.js:35 | a radix prefix without digits (`0x`, `0o`, `0b`, in either case) is NaN |
| JsNumber.NumberOfDigitsThen | assets/js/utils.js:35 | digits followed by a non-numeric character are NaN for `Number` |
| JsNumber.NumberRejectsTrailingText | src/lib/pdf-utils.ts:25 | on `String(n)` followed by a letter, `parseInt` reads n and `Number` gives NaN, which is where the two parsers part |
| JsNumber.IntegerToString | assets/js/utils.js:37 | an integer below 10^21 in magnitude is written as its decimal digits, with a minus sign when negative |
| RangeText.DigitsAndDashesTrim | src/lib/pdf-utils.ts:16 | digits and dashes are not white space, so such a token trims to itself |
| RangeText.IntervalPieces | src/lib/pdf-utils.ts:16-18 | `a-b` trims to itself, contains a dash, and splits into `[a, b]` |
| RangeText.SplitLongInterval | src/lib/pdf-utils.ts:18 | `a-b-c` splits into three pieces, of which the destructuring keeps the first two |
| RangeText.MissingStartPieces | src/lib/pdf-utils.ts:18 | the first piece of `-b` is empty |
| RangeText.DashThenDigitsTrim | assets/js/utils.js:22 | `-b` trims to itself |
| JsSet.Add | src/lib/pdf-utils.ts:21 | `Set.add` keeps the members distinct, adds x, and appends it only when it is new |
| JsSet.SortOfSet | src/lib/pdf-utils.ts:32 | sorting the members of a set numerically gives a strictly increasing list of the same members |
| JsSet.SortOfSetDependsOnMembers | src/lib/pdf-utils.ts:32 | two sets with the same members sort to the same list, whatever their insertion order |
| JsSet.SortReals | assets/js/utils.js:43 | the numeric sort of a list is an ascending permutation of it |
| JsSet.SortRealsOfSet | assets/js/utils.js:43 | sorting the members of a set gives a strictly increasing list of the same members |
| Sequences.Identity | src/components/tools/OrganizeTool.tsx:339 | the identity order has one entry per page, entry i is i, and it is distinct and in range |
| Sequences.SpliceRemoveAt | src/components/tools/OrganizeTool.tsx:332-336 | `splice(i, 1)` removes exactly the element at i and keeps the others in their order |
| Sequences.SpliceRemoveKeepsDistinct | src/components/tools/OrganizeTool.tsx:334 | `splice(start, 1)` with any start keeps a distinct list distinct and adds no element |
| Sequences.MovedFacts | src/components/tools/OrganizeTool.tsx:305-307 | remove-and-reinsert keeps the length and the multiset and puts the moved element at the drop index |
| Sequences.MovedInverse | src/components/tools/OrganizeTool.tsx:305-307 | moving back from the drop index to the drag index restores the list |
| Sequences.Swapped | src/components/tools/OrganizeTool.tsx:318 | the destructuring swap exchanges two slots and leaves every other slot alone |
| Sequences.SwappedFacts | src/components/tools/OrganizeTool.tsx:318 | a swap keeps the multiset, and swapping twice restores the list |
| Sequences.PermutationKeepsDistinct | src/components/tools/OrganizeTool.tsx:299-330 | a permutation of a distinct list is distinct |
| Sequences.DistinctBounded | src/components/tools/OrganizeTool.tsx:365 | a distinct list of indices below n has at most n entries |
| Sequences.Sort | src/components/tools/OrganizeTool.tsx:322-330 | `sort((a, b) => a - b)` and `sort((a, b) => b - a)` give a permutation sorted in that direction |
| Sequences.SortedUnique | src/components/tools/OrganizeTool.tsx:322-330 | a multiset has only one arrangement sorted in a given direction |
| Sequences.SortIdempotent | src/components/tools/OrganizeTool.tsx:322-330 | sorting an already sorted order changes nothing |
| PdfUtils.ReadToken | src/lib/pdf-utils.ts:16-29 | an accepted token is a range `start..end` with 1 <= start <= end <= maxPages |
| PdfUtils.AddPages | src/lib/pdf-utils.ts:20-22 | the add loop keeps the set distinct and adds exactly the indices start-1 .. end-1 |
| PdfUtils.CollectPages | src/lib/pdf-utils.ts:12-30 | the token loop collects, without duplicates, exactly the pages of the tokens it accepts |
| PdfUtils.ParsePageRange | src/lib/pdf-utils.ts:11-33 | the result is strictly ascending and holds exactly the selected pages |
| PdfUtils.PageSetInBounds | src/lib/pdf-utils.ts:19-27 | every selected index lies in [0, maxPages) |
| PdfUtils.ContributionSelected | src/lib/pdf-utils.ts:15-30 | every page of every token is selected |
| PdfUtils.PageSetMonotone | src/lib/pdf-utils.ts:12-30 | more tokens select at least the same pages |
| PdfUtils.PageSetOrderIndependent | src/lib/pdf-utils.ts:12-32 | reordering or repeating tokens does not change the selection |
| PdfUtils.StrictlyIncreasingUnique | src/lib/pdf-utils.ts:32 | two strictly increasing lists with the same members are equal, so the result depends only on the selected set |
| PdfUtils.SkippedTokenAddsNothing | src/lib/pdf-utils.ts:19-28 | a bad token is skipped silently |
| PdfUtils.ReadInterval | src/lib/pdf-utils.ts:17-19 | `a-b` is accepted exactly when 1 <= a <= b <= maxPages |
| PdfUtils.IntervalContribution | src/lib/pdf-utils.ts:20-22 | a valid `a-b` contributes exactly the indices a-1 .. b-1 |
| PdfUtils.ReversedIntervalSkipped | src/lib/pdf-utils.ts:19 | a reversed interval contributes nothing |
| PdfUtils.IntervalBeyondEndSkipped | src/lib/pdf-utils.ts:19 | an interval ending past the last page contributes nothing |
| PdfUtils.ReadSinglePage | src/lib/pdf-utils.ts:25-26 | a numeral `p` is accepted exactly when 1 <= p <= maxPages |
| PdfUtils.SinglePageContribution | src/lib/pdf-utils.ts:26-27 | a valid single page p contributes exactly p-1 |
| PdfUtils.SinglePageOutOfRangeSkipped | src/lib/pdf-utils.ts:26 | a page outside [1, maxPages] contributes nothing |
| PdfUtils.ExtraPiecesIgnored | src/lib/pdf-utils.ts:18 | `a-b-c` reads as `a-b` |
| PdfUtils.MissingStartSkipped | src/lib/pdf-utils.ts:18-19 | `-b` has a NaN start and is skipped |
| PdfUtils.PageIndices | src/lib/pdf-utils.ts:55-58 | `all`, in any case, selects 0 .. pageCount-1 in order; anything else selects the parsed pages, strictly ascending and in range |
| PdfUtils.SelectPages | src/lib/pdf-utils.ts:55-62 | an empty selection fails with 'Invalid page range specified.', and only then; otherwise the list is non-empty, ascending and in range |
| PdfUtils.TranslateLoadError | src/lib/pdf-utils.ts:48-53 | an `Error` whose message mentions 'password' or 'encrypted' becomes the fixed password message; anything else is rethrown unchanged |
| PdfUtils.TranslateLoadErrorIdempotent | src/lib/pdf-utils.ts:48-53 | translating an already translated error changes nothing |
| Utils.ReadStrictToken | assets/js/utils.js:26-40 | an accepted token is a range with 1 <= start <= end <= totalPages; a rejected token with a dash names the token, and one without names `Number(token)`; exactly which tokens are accepted, and the range each selects, is stated by `Utils.StrictIntervalMeaning` and `Utils.StrictPageMeaning` |
| Utils.Count | assets/js/utils.js:31 | the `i <= end` loop runs zero times exactly when end < start; otherwise the last value is at most end |
| Utils.Run | assets/js/utils.js:31-33 | the loop adds start, start+1, ..., each at most end |
| Utils.Tokens | assets/js/utils.js:22 | the tokens are the trimmed comma-separated pieces |
| Utils.AddRun | assets/js/utils.js:31-33 | the add loop keeps the set distinct and adds exactly the values of the run |
| Utils.CollectStrict | assets/js/utils.js:25-41 | the token loop fails exactly when some token fails, with the first token's error; otherwise it collects exactly the pages of all tokens |
| Utils.ParsePageRanges | assets/js/utils.js:16-44 | blank input gives 1..totalPages; otherwise it fails as the tokens do, or returns a strictly ascending list of exactly the selected pages |
| Utils.AccumulateFirstFailure | assets/js/utils.js:28-37 | when every earlier token succeeds, the first failing token's error is the result |
| Utils.AccumulateErrorPersists | assets/js/utils.js:28-29 | once a token throws, later tokens do not change the outcome, so there is no partial result |
| Utils.StrictPagesInBounds | assets/js/utils.js:28-39 | every page of a successful result lies in [1, totalPages] |
| Utils.RunOfIntegers | assets/js/utils.js:31-33 | on integer bounds the loop adds exactly a, a+1, ..., b |
| Utils.StrictIntervalMeaning | assets/js/utils.js:26-33 | a token with a dash is accepted exactly when its first two pieces read as finite numbers with 1 <= start <= end <= totalPages, and then selects [start, end]; otherwise it throws 'Invalid page range: <token>' |
| Utils.StrictPageMeaning | assets/js/utils.js:35-38 | a token without a dash is accepted exactly when it reads as a finite number in [1, totalPages], and then selects that page; otherwise it throws 'Invalid page number: <Number(token)>', NaN included |
| Utils.StrictIntervalOfValues | assets/js/utils.js:26-33 | an interval whose pieces read as integers x and y selects x..y exactly when 1 <= x <= y <= totalPages |
| Utils.StrictInterval | assets/js/utils.js:26-33 | `a-b` of digit runs, leading zeros allowed, selects a..b exactly when 1 <= a <= b <= totalPages; a start of 0, an end past the last page or a reversed interval throws naming the token |
| Utils.StrictReversedInterval | assets/js/utils.js:28-29 | `a-b` with b < a throws 'Invalid page range: a-b' |
| Utils.EmptyTokenReportsZero | assets/js/utils.js:35-37 | an empty token throws 'Invalid page number: 0' |
| Utils.StrictPageBeyondEnd | assets/js/utils.js:35-37 | a page past the end throws and names that page |
| Utils.StrictSinglePage | assets/js/utils.js:35-38 | a single digit run p selects exactly page p when 1 <= p <= totalPages; otherwise, 0 included, it throws 'Invalid page number: p' |
| Utils.StrictLongInterval | assets/js/utils.js:26-33 | `a-b-c` reads only its first two pieces: it selects what `a-b` selects, and its error names the whole token |
| Utils.StrictMissingStart | assets/js/utils.js:26-30 | `-b` starts at `Number("")`, which is 0, so it always throws 'Invalid page range: -b' (the lenient parser skips it instead) |
| Utils.StrictTrailingTextRejected | assets/js/utils.js:35-37 | digits followed by text `Number` cannot read throw 'Invalid page number: NaN' |
| Utils.GetFileExtension | assets/js/utils.js:71-73 | the extension is the lower-cased suffix that follows the last dot, or the whole name when there is no dot |
| Utils.ExtensionWithoutDot | assets/js/utils.js:72 | a name without a dot is its own extension, lower-cased |
| Utils.ExtensionAfterLastDot | assets/js/utils.js:72 | `name.ext` with a dot-free ext has extension ext, lower-cased |
| Utils.Pad2 | assets/js/utils.js:79-83 | `padStart(2, '0')` gives at least two digits |
| Utils.Pad2Small | assets/js/utils.js:79-83 | a field below 100 pads to exactly two digits that read back as the field |
| Utils.TimestampDate | assets/js/utils.js:76-80 | the timestamp is the year, then two digits of month+1 and two of the date, then '_' |
| Utils.TimestampTime | assets/js/utils.js:81-83 | after the '_' come two digits each for hours, minutes and seconds |
| Utils.CodeUnitsOfBmp | assets/js/utils.js:58-59 | for characters in the Basic Multilingual Plane, `charCodeAt` gives the character codes |
| Utils.Unescape | assets/js/utils.js:52 | `unescape` never lengthens the text |
| Utils.UnescapeWithoutPercent | assets/js/utils.js:52 | text without `%` is unchanged by `unescape` |
| Utils.UnescapePercentEncode | assets/js/utils.js:52 | `unescape` decodes `%XX` escapes back to the bytes |
| Utils.MimeType | assets/js/utils.js:55 | the mime type exists exactly when the header has a colon, and contains neither ':' nor ';' |
| Utils.MimeTypeOfDataHeader | assets/js/utils.js:55 | in `data:<mime>;<parameters>` the mime type is the text between ':' and the first ';' |
| Utils.DataUriParts | assets/js/utils.js:49-52 | the header is the text before the comma and the payload the text after it |
| Utils.Base64Detected | assets/js/utils.js:47-52 | for `<prefix>;base64,<payload>` the bytes are `atob(payload)`, and a payload `atob` rejects is an error |
| Utils.DataUriToBlob | assets/js/utils.js:47-63 | the blob holds one byte per decoded code unit, each modulo 256; its type is the header's mime type as the `Blob` constructor normalises it (`BlobType`); decoding and header errors propagate |
| Utils.BlobType | assets/js/utils.js:62 | the `Blob` constructor's type is empty exactly when the given type is empty or has a character outside U+0020..U+007E; otherwise it is the same text with ASCII capitals lower-cased, so `Image/PNG` becomes `image/png` |
| Utils.BlobTypeOfLowerCase | assets/js/utils.js:62 | a printable lower-case type, such as the `image/png` of a canvas data URL, is kept as given |
| Utils.BlobTypeIdempotent | assets/js/utils.js:62 | normalising a type twice is normalising it once |
| OrganizeTool.BuildOrder | src/components/tools/OrganizeTool.tsx:81-84 | the push loop builds the identity order |
| OrganizeTool.Organizer.constructor | src/components/tools/OrganizeTool.tsx:18-22 | no file, no previews, empty order |
| OrganizeTool.Organizer.ChooseFile | src/components/tools/OrganizeTool.tsx:34-44 | the first chosen file becomes the file, and an empty choice leaves none; a new file starts from the identity order over its pages, or an empty grid when it cannot be read |
| OrganizeTool.Organizer.Drop | src/components/tools/OrganizeTool.tsx:299-310 | dropping on the same slot changes nothing; otherwise the page moves from the drag slot to the drop slot, and the order stays a permutation |
| OrganizeTool.Organizer.MovePage | src/components/tools/OrganizeTool.tsx:312-320 | swaps with the neighbour above or below, and does nothing at either end |
| OrganizeTool.Organizer.SortPages | src/components/tools/OrganizeTool.tsx:322-330 | the order becomes its sorted permutation in the chosen direction |
| OrganizeTool.Organizer.RemovePage | src/components/tools/OrganizeTool.tsx:332-336 | removes the entry at the index and keeps the rest in order |
| OrganizeTool.Organizer.ResetOrder | src/components/tools/OrganizeTool.tsx:338-341 | restores the identity over the previews, whatever came before |
| OrganizeTool.Organizer.Organize | src/components/tools/OrganizeTool.tsx:343-368 | refuses without a file or with an empty order; otherwise reports pagePreviews.length - pageOrder.length removed pages, which is never negative |
| OrganizeTool.KeepsValid | src/components/tools/OrganizeTool.tsx:299-330 | an edit that permutes the order keeps it distinct and keeps its members |
| PageEditor.Rotated | assets/js/pageEditor.js:162-165 | rotating changes only the page's entry, treats a missing entry as 0, and keeps quarter turns |
| PageEditor.RotateFourTimes | assets/js/pageEditor.js:162-165 | four rotations restore every page's rotation |
| PageEditor.Toggled | assets/js/pageEditor.js:135-141 | toggling flips one membership and leaves the others |
| PageEditor.ToggleTwice | assets/js/pageEditor.js:135-141 | toggling twice restores the selection |
| PageEditor.ThumbnailsMoved | assets/js/pageEditor.js:313-322 | renumbering does not change which thumbnail moved where |
| PageEditor.InitialRotations | assets/js/pageEditor.js:29-31 | every page starts with rotation 0, and no other key is present |
| PageEditor.InitialPages | assets/js/pageEditor.js:34-43 | tile i has index i and number i+1 |
| PageEditor.AddUndeleted | assets/js/pageEditor.js:147-151 | select-all adds every undeleted position and keeps the earlier selections |
| PageEditor.KeepList | assets/js/pageEditor.js:198-206 | the keep-list is the ascending list of page indices below the total that are not deleted |
| PageEditor.Renumber | assets/js/pageEditor.js:325-332 | the tiles are renumbered by position, and each position takes the rotation of the tile's old index |
| PageEditor.Editor.constructor | assets/js/pageEditor.js:4-10 | no pages, empty sets, empty rotation map, nothing dragged |
| PageEditor.Editor.LoadPdf | assets/js/pageEditor.js:22-43 | after a load, tile i has index i and number i+1, every rotation is 0 and both sets are empty |
| PageEditor.Editor.TogglePageSelection | assets/js/pageEditor.js:135-143 | flips one page's selection and nothing else |
| PageEditor.Editor.SelectAllPages | assets/js/pageEditor.js:146-153 | adds every undeleted position below the tile count and keeps the earlier selections |
| PageEditor.Editor.DeselectAllPages | assets/js/pageEditor.js:156-159 | empties the selection and nothing else |
| PageEditor.Editor.RotatePage | assets/js/pageEditor.js:162-166 | sets (r + 90) % 360 on one page and nothing else |
| PageEditor.Editor.DeleteSelectedPages | assets/js/pageEditor.js:169-183 | changes nothing with an empty selection; otherwise marks the selected pages deleted and clears the selection |
| PageEditor.Editor.ReorderPages | assets/js/pageEditor.js:311-338 | moves the tile, renumbers all tiles by position and re-keys the rotations to follow their tiles; the sets are untouched |
| PageEditor.Editor.DragStart | assets/js/pageEditor.js:261-265 | remembers the dragged page |
| PageEditor.Editor.Drop | assets/js/pageEditor.js:285-297 | reorders only when a page is dragged and differs from the target; then the tiles are moved as `Moved` says and each tile keeps the rotation it had |
| PageEditor.Editor.DragEnd | assets/js/pageEditor.js:300-308 | forgets the dragged page |
| PageEditor.Editor.SaveEditedPdf | assets/js/pageEditor.js:186-212 | refuses without a loaded document or when every page is deleted; otherwise keeps the ascending undeleted indices, whatever the on-screen order |
| MainScript.PdfFiles | assets/js/main.js:92 | keeps exactly the files whose lower-cased name ends in `.pdf`, and keeps them all only when all qualify |
| MainScript.PdfFilesAppend | assets/js/main.js:92 | filtering distributes over concatenation, so the original order is kept |
| MainScript.PdfFilesIdempotent | assets/js/main.js:92 | filtering twice is filtering once |
| MainScript.Accepted | assets/js/main.js:88-101 | PDF-only tabs keep only PDF files, the convert tab keeps everything, and the edit tab keeps at most the first PDF |
| MainScript.IgnoredCount | assets/js/main.js:93-94 | nothing is reported ignored exactly when the tab accepts every file given |
| MainScript.FileLists.constructor | assets/js/main.js:4-12 | every tab starts with an empty list |
| MainScript.FileLists.HandleFiles | assets/js/main.js:84-113 | appends the accepted files to that tab only, reports the ignored count, and opens the first PDF on the edit tab |
| MainScript.FileLists.RemoveFile | assets/js/main.js:151-159 | splices one entry out of that tab only, and hides the editor when the edit list becomes empty |
| MainScript.Icon | assets/js/main.js:164-178 | pdf and txt give the document icon, the four image extensions the picture icon, docx the memo icon, anything else the folder |
| MainScript.FileIconOfExtension | assets/js/main.js:161-179 | the icon of `name.ext` is chosen by ext, lower-cased |
| MainScript.EscapeChar | assets/js/main.js:192-200 | `& < > "` become entities; every other character, including `'`, is copied |
| MainScript.EscapeHtml | assets/js/main.js:191-201 | the output contains no `<`, `>` or `"` and is longer exactly when the text has a special character |
| MainScript.DecodeEscapeChar | assets/js/main.js:192-200 | decoding the entity of one character gives the character back |
| MainScript.DecodeEscape | assets/js/main.js:191-201 | decoding the escaped text gives the text back, so every other character is copied unchanged |

## Left out

- The PDF library (loading, page counts, copying pages, saving), mammoth and html2pdf are foreign calls. The page count is an input, and a load that fails is `None` or a `Thrown` value.
- Canvas thumbnails, rendering, toasts, alerts, progress bars and downloads are UI and I/O. Message wording is kept only for the errors the parsers and `splitPdf` throw.
- The organiser assumes the canvas context is available for every page, so there is one preview per page. With no context it would have fewer previews than order entries.
- OrganizeTool.Organizer.Drop: both slot indices are required to lie within the order, as the grid supplies them. A NaN drag index from foreign drag data is not modelled.
- OrganizeTool.Organizer.Organize: writing the reordered document is a library call assumed to succeed. In the source the removed count is shown only after `reorganizePdf` returns, and a failure is reported as an error instead.
- OrganizeTool.Organizer.MovePage: the starting slot is required to lie within the order, as the grid's buttons supply it.
- PageEditor.Editor.Drop: the dragged page is required to be a tile position, as `handleDragStart` records it.
- JsNumber.StringToNumber works with exact decimals. Rounding to doubles does not occur for realistic page numbers, so it is not modelled: more than 15 significant digits, overflow to Infinity, underflow to 0 (`Number("1e-400")` is 0 and the strict parser would report `Invalid page number: 0`, where the model keeps the tiny positive value and names it), and the 21-digit switch to exponent notation in `Number::toString` beyond `JsNumber.IntegerToString`.
- JsNumber.ParseInt is exact. It does not turn very long numerals into Infinity.
- JsText.ToLowerAscii folds ASCII letters only. The extension, icon and `.pdf` comparisons only ever match ASCII text. `Utils.GetFileExtension` returns non-ASCII capitals unfolded.
- `atob` (base64 decoding, section 4 of RFC 4648) is a parameter of `Utils.DataUriToBlob`.
- Utils.MimeType: a header without ':' makes the source throw a TypeError. The model returns `MissingMimeType` instead.
- The save-time rotation loop of the page editor only logs and changes no page, so it is not modelled. The page copying it surrounds is a library call.
- `formatFileSize`, `debounce`, `throttle`, `formatDate`, `formatTime`, `generateId` and the viewport and clipboard helpers depend on floating point, timers, locale, randomness or browser APIs. The clock read of `generateTimestamp` is replaced by its date-field parameters.
- There is no per-token grouping mode in the code, so none is modelled.
- Asynchronous ordering and re-entrancy of the handlers are out of scope.
- Tab names outside the seven known tabs are not modelled. Tabs are a datatype.
