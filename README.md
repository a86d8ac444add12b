# cpf_censoring — a Dafny model of the partial CPF redactor

`censor_partial_cpf_in_pdf` opens a PDF and walks its pages. For each page it
extracts the text and scans it for Brazilian CPF numbers. A CPF is written
either as `ddd.ddd.ddd-dd` or as eleven plain digits, with a word boundary on
both sides. For every match, the page's text search returns the rectangles
where that text appears. Each rectangle is divided into character cells of
equal width. Two black redaction annotations are added to the page:

- one over the first three characters;
- one from character `n - 2` to the right edge.

The page then applies its redactions. The middle digits stay visible.

The model has four modules:

- `Wrappers` (`wrappers.dfy`): the `Option` type.
- `CpfPattern` (`cpf_pattern.dfy`): the regular expression and `finditer`.
  - The pattern is built from atoms (`\d` or a literal), its two branches,
    ordered alternation with backtracking, and `\b` on both sides.
  - The left-to-right, non-overlapping scan is a recursive function.
  - Lemmas tie the structural matcher to a description by character
    positions, and prove what every match looks like.
- `MaskRegion` (`mask_region.dfy`): the rectangle arithmetic, in exact reals.
  It covers the left and right masks, their edges and widths, and how they
  fall on the character cells.
- `Censor` (`censor.dfy`): the page loop.
  - A `Page` class holds the page's text and text search as constants, plus
    the pending and applied redaction annotations as mutable sequences.
  - The loops are methods. Each is proved against a function of the text and
    the search: `PageAnnots`, `MatchAnnots`, `RectAnnots`.
  - Lemmas then state which annotations a page receives and how many.

The page's text search (`page.search_for`) is a parameter of the page. It is a
function from a string to the rectangles it finds, and nothing is assumed
about it. The text (`page.get_text()`) is a constant of the page.

## Model

| member | source | states |
|---|---|---|
| CpfPattern.IsWordChar | src/censor.py:12 | `\w`: every digit is a word character and the separators `.` and `-` are not; OpeningBoundary and ClosingBoundary use it for `\b` beside a CPF |
| CpfPattern.IsBoundary | src/censor.py:12 | `\b` needs a non-empty text; BoundaryAtEnds, OpeningBoundary and ClosingBoundary give its meaning at the ends of the text and beside a digit |
| CpfPattern.BoundaryAtEnds | src/censor.py:12 | `\b` never holds in an empty text, and at either end of the text it holds exactly when the character beside it is a word character |
| CpfPattern.FirstBranch | src/censor.py:12 | the ordered alternation of the two branches, each followed by `\b`: the chosen branch index is in range and the branch fits in the text; FirstBranchChoice states which branch is chosen |
| CpfPattern.MatchesPointwise | src/censor.py:12 | a branch of the pattern matches a string exactly when the lengths agree and every character satisfies its atom (`\d` is a digit, a literal is itself); this is what `Matches` and `IsDigit` mean |
| CpfPattern.FormattedBranchAccepts | src/censor.py:12 | the branch `\d{3}\.\d{3}\.\d{3}-\d{2}` accepts exactly the 14-character strings with dots at 3 and 7, a hyphen at 11 and digits elsewhere |
| CpfPattern.PlainBranchAccepts | src/censor.py:12 | the branch `\d{11}` accepts exactly the strings of eleven digits |
| CpfPattern.FirstBranchChoice | src/censor.py:12 | ordered alternation: the branch chosen matches at p and is followed by a word boundary, and no earlier branch does so; None means that no branch does (a branch that matches and is followed by a boundary is what `BranchMatchesAt` says) |
| CpfPattern.MatchAt | src/censor.py:12 | a match attempt at p gives a length of 11 or 14 that stays inside the text |
| CpfPattern.OpeningBoundary | src/censor.py:12 | before a digit, `\b` holds exactly when the previous character is absent or not a word character |
| CpfPattern.ClosingBoundary | src/censor.py:12 | after a digit, `\b` holds exactly when the next character is absent or not a word character |
| CpfPattern.MatchAtByBranch | src/censor.py:12 | the attempt at p is None without `\b` at p; otherwise it tries the formatted branch (14 characters) and then the plain one (11), each followed by `\b` |
| CpfPattern.FormattedBranchAtCharacterised | src/censor.py:12 | `\b`, the formatted branch and `\b` match at p exactly when a formatted CPF stands there with no word character on either side |
| CpfPattern.PlainBranchAtCharacterised | src/censor.py:12 | `\b`, the plain branch and `\b` match at p exactly when eleven digits stand there with no word character on either side |
| CpfPattern.FormattedNotPlain | src/censor.py:12 | no offset holds both forms, since the formatted one has '.' at index 3 where the plain one has a digit |
| CpfPattern.MatchAtCharacterised | src/censor.py:12 | the attempt at p gives 14 exactly when a formatted CPF starts at p with no word character on either side, gives 11 exactly when eleven digits do so, and gives nothing otherwise |
| CpfPattern.ScanFrom | src/censor.py:21 | the scan from p yields at most (L - p) / 11 matches on a text of length L, because each takes at least eleven characters of its own; ScanFromMatches, ScanFromOrdered, ScanFromComplete and ScanFromResumes specify it |
| CpfPattern.FindIter | src/censor.py:21 | finditer yields at most L / 11 matches on a text of length L; FindIterInOrder, FindIterExactlyTheMatches and FindIterShape specify it |
| CpfPattern.ScanFromMatches | src/censor.py:21-22 | every match the scan from p yields lies at or after p, its text is the slice it spans, and the attempt at its start succeeds with its length |
| CpfPattern.ScanFromOrdered | src/censor.py:21-22 | the scan yields its matches in order, each ending at or before the next one starts |
| CpfPattern.FindIterInOrder | src/censor.py:21-22 | finditer yields matches in strictly increasing, non-overlapping order; each one's text is the slice it spans, and the attempt at its start succeeds with its length |
| CpfPattern.ScanFromResumes | src/censor.py:21-22 | after a match at p, a match found by the scan resumed at the match's end is also found by the scan from p |
| CpfPattern.ScanFromComplete | src/censor.py:21-22 | every position from p on at which an attempt succeeds is the start of one of the scan's matches |
| CpfPattern.FindIterExactlyTheMatches | src/censor.py:21-22 | a position starts a finditer match exactly when the attempt at that position succeeds |
| CpfPattern.FindIterShape | src/censor.py:21-22 | every finditer match is eleven digits or the formatted form, is 11 or 14 characters long, equals its slice, and has no word character immediately before or after it |
| CpfPattern.CpfCharAt | src/censor.py:12 | in a matched CPF, a character is a digit exactly when it is not one of the separators at 3, 7 and 11 of the formatted form |
| CpfPattern.FormattedCharAt | src/censor.py:12 | every character of a formatted CPF fits its place: a dot at 3 and 7, a hyphen at 11, a digit elsewhere |
| CpfPattern.NoCpfAt | src/censor.py:12 | no attempt succeeds at q when the text there has a non-digit within the first eleven places and a misfit within the formatted form |
| CpfPattern.NoCpfAfterWordChar | src/censor.py:12 | no attempt succeeds right after a word character |
| CpfPattern.CandidatesDoNotOverlap | src/censor.py:12 | no attempt succeeds at a position strictly inside a CPF found earlier |
| CpfPattern.NoCandidateTouchesLongDigitRun | src/censor.py:12 | inside or against a run of 12 or more digits no attempt succeeds: a successful attempt ends strictly before the run starts or starts strictly after it ends |
| CpfPattern.FindIterSkipsLongDigitRuns | src/censor.py:21-22 | no finditer match overlaps or touches a run of 12 or more digits: each ends strictly before the run or starts strictly after it |
| CpfPattern.Digits | src/censor.py:8-9 | the digits of a string, in order: all digits and no longer than the string |
| CpfPattern.DigitsConcat | src/censor.py:8-9 | the digits of a concatenation are the digits of each part, concatenated |
| CpfPattern.DigitsOfDigits | src/censor.py:8-9 | a string of digits is its own digit sequence |
| CpfPattern.FormattedMiddleDigits | src/censor.py:8-9 | between its first three and last two digits, a formatted CPF holds digits 4-6 and 7-9 once the separators are dropped |
| CpfPattern.CpfParts | src/censor.py:8-9 | the first three and the last two characters of a matched CPF are digits, with six digits between them |
| CpfPattern.CpfDigitLayout | src/censor.py:8-9 | a matched CPF has eleven digits; its first three characters are digits 1-3, its last two are digits 10-11, and the characters between hold digits 4-9 |
| MaskRegion.Width | src/censor.py:30 | `rect.width` is never negative and is x1 - x0 for a rectangle that is not inverted |
| MaskRegion.Masks | src/censor.py:25-46 | a rectangle gets masks exactly when the match has at least 5 characters; they are the left and the right mask, and on a rectangle that is not inverted both lie inside it with the left one ending at or before the right one starts |
| MaskRegion.CharWidth | src/censor.py:30 | `char_width` is never negative; CharWidthTimesCount states that n of them make up the rectangle's width |
| MaskRegion.LeftMask | src/censor.py:33-38 | `left_rect` keeps the rectangle's left edge, y0 and y1 and is never inverted; MaskEdges gives its width of three character widths |
| MaskRegion.RightMask | src/censor.py:41-46 | `right_rect` keeps the rectangle's right edge, y0 and y1, and for n >= 2 on a rectangle that is not inverted it starts inside the rectangle and is not inverted; MaskEdges gives its start and its width of two character widths |
| MaskRegion.CharWidthTimesCount | src/censor.py:30 | n character widths make up the rectangle's width |
| MaskRegion.MaskEdges | src/censor.py:30-46 | the left mask keeps y0, y1 and x0 and is three character widths (3w/n) wide; the right mask keeps y0, y1 and x1, starts two character widths before x1, which is x0 + (n-2)w/n, and is two character widths (2w/n) wide |
| MaskRegion.Offset | src/censor.py:36-42 | `rect.x0 + k * char_width`, the start of character k: character 0 starts at x0 and, on a rectangle that is not inverted, "character n" starts at x1 |
| MaskRegion.OffsetOrder | src/censor.py:36-42 | the starts of the characters are ordered as the characters are, and strictly so (in both directions) on a rectangle of positive width |
| MaskRegion.OffsetDiff | src/censor.py:36-42 | the starts of characters i and j lie j - i character widths apart |
| MaskRegion.Cell | src/censor.py:29-30 | the cell of character k keeps the rectangle's y0 and y1 and, for k < n on a rectangle that is not inverted, lies inside the rectangle |
| MaskRegion.MasksInsideAndApart | src/censor.py:30-46 | for n >= 5 both masks lie inside the rectangle, the left one ends at or before the right one starts, and the gap between them is n - 5 character widths, (n-5)w/n |
| MaskRegion.MasksOfEmptyRect | src/censor.py:30-46 | on an inverted or empty rectangle both masks have width 0, under the `max(x1 - x0, 0)` reading of `Rect.width` |
| MaskRegion.CellsTileRect | src/censor.py:29-30 | the character cells start at x0 and end at x1, and each cell ends where the next begins |
| MaskRegion.MaskCells | src/censor.py:29-46 | on a rectangle of positive width, cell k overlaps the left mask exactly when k < 3 and the right mask exactly when k >= n-2, and then lies wholly inside that mask |
| MaskRegion.LeftMaskCells | src/censor.py:29-38 | cell k overlaps the left mask, and lies inside it, exactly when k < 3 |
| MaskRegion.RightMaskOverlaps | src/censor.py:41-46 | cell k overlaps the right mask exactly when k >= n-2 |
| MaskRegion.RightMaskContains | src/censor.py:41-46 | cell k lies inside the right mask exactly when k >= n-2 |
| Censor.RectAnnots | src/censor.py:24-50 | the rectangle loop adds nothing when the match is shorter than 5; otherwise it adds two annotations per rectangle, the black left mask at 2i and the black right mask at 2i+1; no rectangles means no annotations |
| Censor.RectAnnotsStep | src/censor.py:24-50 | one more rectangle adds its left then right black mask, or nothing when the guard skips |
| Censor.MatchAnnots | src/censor.py:21-50 | the match loop adds at most two annotations per rectangle found; MatchAnnotsStep, MatchAnnotsMembers and MatchAnnotsCount specify it |
| Censor.MatchAnnotsStep | src/censor.py:21-50 | one more match adds the annotations of the rectangles found for its text |
| Censor.RectAnnotsMembers | src/censor.py:24-50 | an annotation comes from the rectangle loop exactly when the guard passes and it is the black left or right mask of one of the rectangles |
| Censor.MatchAnnotsMembers | src/censor.py:21-50 | an annotation comes from the match loop exactly when it is the black left or right mask of a rectangle found for a match that passes the guard |
| Censor.MatchAnnotsCount | src/censor.py:21-50 | when every match passes the guard, the match loop adds exactly twice as many annotations as rectangles were found |
| Censor.PageAnnots | src/censor.py:20-50 | a page gets exactly two annotations per rectangle found, because every match is 11 or 14 characters long and the `total_chars < 5` guard never skips; PageAnnotsMembers and PageAnnotsAreBlack say which annotations they are |
| Censor.PageAnnotsAreBlack | src/censor.py:49-50 | every annotation of a page is filled with (0, 0, 0) |
| Censor.PageAnnotsMembers | src/censor.py:20-50 | the annotations of a page are exactly the black left and right masks of the rectangles found for the text of a CPF at a position where the match attempt succeeds |
| Censor.PageMaskIsCpfMask | src/censor.py:20-50 | a mask from the match loop is a mask of the CPF at the start of its match |
| Censor.CpfMaskIsPageMask | src/censor.py:20-50 | a mask of the CPF at any position where an attempt succeeds is added by the match loop |
| Censor.MaskedCharacters | src/censor.py:29-46 | for a finditer match on a rectangle of positive width, character k is covered by a mask exactly when it is one of the first three or the last two; those are digits, namely digits 1-3 and 10-11 of the CPF |
| Censor.Page.AddRedactAnnot | src/censor.py:49-50 | the annotation is appended to the page's pending annotations and nothing else changes |
| Censor.Page.ApplyRedactions | src/censor.py:52 | the pending annotations are appended, in order, to the applied ones and none remain pending |
| Censor.AnnotateRects | src/censor.py:24-50 | the rectangle loop appends exactly `RectAnnots` of the rectangles to the pending annotations and leaves the applied ones alone |
| Censor.AnnotateMatches | src/censor.py:21-50 | the match loop appends exactly `MatchAnnots` of the matches to the pending annotations and leaves the applied ones alone |
| Censor.AnnotatePage | src/censor.py:20-50 | the scan of one page appends exactly `PageAnnots` of its text and search to the pending annotations and leaves the applied ones alone |
| Censor.CensorPage | src/censor.py:20-52 | one pass of the page loop leaves nothing pending and appends the earlier pending annotations, then the page's masks, to the applied ones |
| Censor.CensorPartialCpf | src/censor.py:19-52 | after the page loop, every page has nothing pending, and its applied annotations are its earlier ones followed by its masks in scan order |

## Left out

- Opening, saving and closing the document, and the `RuntimeError` wrapping
  around open and save (`src/censor.py:14-17`, `54-59`): file I/O of the
  document library.
- `page.get_text()` and `page.search_for()`: the text is a constant of the
  page and the search a parameter function. Where the search finds the matched
  text is not modelled. It may also find the text inside a longer run of
  digits.
- What `apply_redactions` does to the page content. The model only records
  which annotations were applied, in order.
- `process_all_pdfs` (`src/censor.py:61-75`): a loop over files with printing
  and exception handling. `main.py` and `src/utils.py` are also out; they only
  build paths and call `process_all_pdfs`. `main.py` calls
  `process_all_pdfs` with a `force_ocr` keyword that its signature
  (`src/censor.py:61`) does not accept, so that call would raise
  `TypeError`; it is not modelled.
- Floating-point arithmetic: rectangles and widths are exact reals, so
  rounding in the masks is not modelled.
- `\d`, `\w` and `\b` of Python's `re` on `str` are Unicode-aware. Here a
  digit is `0`-`9` and a word character is an ASCII letter, digit or `_`.
  Text with non-ASCII digits or letters next to a CPF can therefore behave
  differently.
- MaskRegion.Width: `Rect.width` is taken as `max(x1 - x0, 0)`. On a
  rectangle that is not inverted every variant of the document library gives
  x1 - x0. The only geometry lemma that depends on the `max(x1 - x0, 0)`
  reading is `MaskRegion.MasksOfEmptyRect`, which is about inverted or empty
  rectangles; every other lemma either assumes a rectangle that is not
  inverted or holds for every rectangle.
- The uniform character width is the source's own assumption (the comment
  above `char_width`). `MaskCells` and `MaskedCharacters` state what the masks
  cover under it, not where the glyphs really are.
- The page loop over a document requires its pages to be distinct objects, as
  they are in a PDF document.
- The code does no check-digit validation, no filtering by surrounding context
  and no handling of other kinds of identifier, and neither does the model.
