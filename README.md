# Marker-annotated PDF text and user paging, in Dafny

This project models the two parts of the learning-assessment backend that
hold logic of their own. It proves what each part guarantees.

**PDF text linearisation.** This is `PDFProcessor.extract_text_with_markers`,
from the point where the PDF library has delivered each page's layout blocks.
The routine takes the pages in document order, numbered from 1. For each
page it:

- sorts the blocks into reading order, a stable sort on the key `(y0, x0)`;
- keeps the text blocks (type 0) whose text is not blank after `strip()`;
- emits, for each kept block, a marker line `!!<page>,<int(y0)>!!` followed
  by the stripped text.

At the end, all lines are joined with `"\n"`.

- Module `Pdf` holds the imperative method `CollectLines`, with the source's
  nested loops over pages and blocks. Loop invariants tie the lines
  collected so far to the specification function `DocumentLines`. The
  lemmas about `DocumentLines` and `Paragraphs` (the kept blocks tagged with
  their page number) state what the output is.
- Module `Layout` holds the sort.
- Module `Text` holds Python's `str.strip()`, `"\n".join` and `str(int)`.
- Module `Seqs` holds generic concatenation, filtering and mapping.

**User listing and profile completeness.** This is the `UserManager` of the
authentication layer:

- `list_users` turns an optional page number into a database window. The
  window uses `PAGE_SIZE = 30` and `NON_PAGED_LIMIT = 300`. It fetches one
  row more than a page holds, in order to report whether more data follows.
- `update_profile_complete` recomputes `is_profile_complete` from the email
  and the full name. It writes the flag only when the value changes.

The full name is a nullable column. Python's `and` evaluates `len(full_name)`
only when the email is non-empty. So a null full name with a non-empty email
makes the method raise, and the model returns the error `FullNameMissing` in
exactly that case.

## Model

| member | source | states |
|---|---|---|
| Pdf.ExtractTextWithMarkers | backend/src/core/pdf.py:9-38 | a parse failure is passed on; otherwise the result is the `"\n"`-join of the document's line list |
| Pdf.CollectLines | backend/src/core/pdf.py:17-36 | the nested page/block loops with their appends build exactly `DocumentLines(doc)`: pages numbered from 1, each page's blocks in sorted order, two lines per kept block |
| Pdf.TruncSpec | backend/src/core/pdf.py:30 | `int(y0)` truncates toward zero: it never moves away from zero and moves by less than one, for negative coordinates too |
| Pdf.MarkerShape | backend/src/core/pdf.py:34 | a marker starts and ends with `!!`, is at least 7 characters long and stays on one line |
| Pdf.MarkerInjective | backend/src/core/pdf.py:34 | a marker determines its page number and its truncated coordinate |
| Pdf.RetainedIff | backend/src/core/pdf.py:29-33 | a block is kept exactly when its type is 0 and its stripped text is non-empty |
| Pdf.SortFilterCommute | backend/src/core/pdf.py:24-33 | sorting the page and then dropping blocks equals dropping first and sorting after |
| Pdf.PageLinesOfRetained | backend/src/core/pdf.py:24-36 | a page's lines are the two-line entries of its kept blocks in sorted order, and no other block leaves a trace |
| Pdf.DroppedBlockIgnored | backend/src/core/pdf.py:27-33 | inserting an image block or a blank text block anywhere in a page leaves the page's lines unchanged |
| Pdf.DocumentLinesEmit | backend/src/core/pdf.py:19-36 | the document's lines are, paragraph after paragraph, the marker and text of each kept block |
| Pdf.DocumentLinesShape | backend/src/core/pdf.py:30-36 | there are exactly two lines per paragraph; position `2k` holds `!!<page>,<trunc(y0)>!!` of paragraph `k` and position `2k+1` its stripped text |
| Pdf.ParagraphsRetained | backend/src/core/pdf.py:19-33 | each paragraph is a kept block (type 0, non-blank) of its own page, and page numbers run from 1 to the page count |
| Pdf.ParagraphsComplete | backend/src/core/pdf.py:19-36 | every kept block of page `i + 1` is a paragraph, tagged with that page number |
| Pdf.ParagraphCount | backend/src/core/pdf.py:26-36 | there are as many paragraphs as there are kept blocks on all pages together |
| Pdf.LineCount | backend/src/core/pdf.py:26-36 | the line list is twice as long as the number of kept blocks |
| Pdf.ParagraphsOrdered | backend/src/core/pdf.py:19-26 | paragraphs follow page order, and within a page they follow ascending `(y0, x0)` order |
| Pdf.TextLinesStripped | backend/src/core/pdf.py:31-36 | every text line is non-empty, has no leading or trailing whitespace and is unchanged by another `strip()` |
| Pdf.FirstLine | backend/src/core/pdf.py:34-35 | when some block is kept, the first line is a marker opening with `!!` |
| Pdf.LastLine | backend/src/core/pdf.py:31-36 | when some block is kept, the last line is a text that ends in a non-whitespace character |
| Pdf.JoinedEmpty | backend/src/core/pdf.py:17-38 | the output is the empty string exactly when no block is kept |
| Pdf.JoinedOutput | backend/src/core/pdf.py:34-38 | when some block is kept, the output starts with `!!` and ends neither in a newline nor in other whitespace |
| Pdf.SplitRecoversLines | backend/src/core/pdf.py:38 | when some block is kept, splitting the output on `"\n"` gives back the line list, provided no kept text holds a newline of its own |
| Pdf.SplitEmptyOutput | backend/src/core/pdf.py:38 | when no block is kept, the output `""` splits into one empty piece, not into the (empty) line list |
| Layout.SortByKeySpec | backend/src/core/pdf.py:24 | the page's blocks come out in ascending `(y0, x0)` order and form a permutation of the input |
| Layout.SortStable | backend/src/core/pdf.py:24 | blocks with equal keys keep their delivered order |
| Layout.SortUnique | backend/src/core/pdf.py:24 | any sorted arrangement that keeps equal-key blocks in delivered order is the model's sort, so every stable sort on the key gives the same page |
| Layout.InsertSorted | backend/src/core/pdf.py:24 | inserting a block into a sorted run leaves it sorted |
| Text.TrimStartSpec | backend/src/core/pdf.py:31 | `lstrip()` removes exactly the leading run of whitespace |
| Text.TrimEndSpec | backend/src/core/pdf.py:31 | `rstrip()` removes exactly the trailing run of whitespace |
| Text.StripSpec | backend/src/core/pdf.py:31 | `strip()` is empty exactly when the text is all whitespace; otherwise it neither starts nor ends with whitespace |
| Text.StripIsSlice | backend/src/core/pdf.py:31 | `strip()` is a slice of its input with only whitespace cut off at both ends |
| Text.StripUnique | backend/src/core/pdf.py:31 | any cut into whitespace, a core without whitespace at either end, and whitespace gives the core as `strip()` |
| Text.StripIdempotent | backend/src/core/pdf.py:31 | stripping twice equals stripping once |
| Text.JoinLinesEnds | backend/src/core/pdf.py:38 | the join starts with the first line and ends with the last |
| Text.JoinLinesAppend | backend/src/core/pdf.py:38 | joining two non-empty runs puts exactly one newline between them |
| Text.SplitJoinLines | backend/src/core/pdf.py:38 | for a non-empty line list, splitting on `"\n"` undoes the join when no line holds a newline |
| Text.NatToDecimalDigits | backend/src/core/pdf.py:34 | `str(n)` for `n >= 0` is a non-empty digit string without a leading zero |
| Text.IntToDecimalShape | backend/src/core/pdf.py:34 | `str(i)` is non-empty, holds no comma and no newline, and starts with `-` exactly when `i < 0` |
| Text.ParseIntToDecimal | backend/src/core/pdf.py:34 | reading `str(i)` back as an integer gives `i` |
| Text.IntToDecimalInjective | backend/src/core/pdf.py:34 | distinct integers have distinct decimal forms |
| Auth.ListUsers | backend/src/core/auth.py:80-84 | without a page number, every fetched row is converted in order. With one, the content is the first `min(len, 30)` rows converted in order, and more data is reported exactly when more than 30 rows came back |
| Auth.WindowsStep | backend/src/core/auth.py:74-76 | consecutive pages start 30 rows apart, and each page asks the database for 31 rows |
| Auth.UnpagedListing | backend/src/core/auth.py:74-81 | without a page number, the listing is the first 300 rows of the database |
| Auth.PageContent | backend/src/core/auth.py:74-84 | page `n` holds rows `30n` up to `30n + 30` and reports more data exactly when rows lie beyond them |
| Auth.NegativePageIsFirst | backend/src/data_access/users.py:133-134 | a negative page number gives a negative offset, which the database skips, so the listing is page 0 |
| Auth.PagesTile | backend/src/core/auth.py:74-83 | pages `0` to `n - 1` together hold exactly the first `30n` rows, in order, without loss or repetition |
| Auth.LastPageCompletes | backend/src/core/auth.py:75-84 | following pages until one reports no more data yields every row of the database |
| Auth.ProfileComplete | backend/src/core/auth.py:66 | the flag is true exactly when both email and full name are non-empty; a null full name raises only when the email is non-empty |
| Auth.ProfileWrite | backend/src/core/auth.py:66-71 | a write is issued exactly when the recomputed flag differs from the stored one, and it carries the recomputed flag |
| Auth.ProfileWriteSettles | backend/src/core/auth.py:66-71 | after the flag has been written, recomputing it issues no further write |
| Auth.UserManager.UpdateProfileComplete | backend/src/core/auth.py:64-71 | only `is_profile_complete` may change. It changes, with one update recorded, exactly when the recomputed value differs. The same user is returned, and afterwards the flag equals the completeness rule. A null full name with a non-empty email is an error that changes nothing |

## Left out

- Opening the bytes as a PDF and reading each page's blocks are done by a foreign library (`fitz.open`, `page.get_text("blocks")`). The model takes the page/block lists as input, and a parse failure as the abstract error `DocumentParseError`.
- Layout.SortByKey is an insertion sort, not Python's Timsort. `Layout.SortUnique` proves that any stable sort on `(y0, x0)` yields the same sequence, so the output agrees.
- Coordinates are exact reals. Floating-point rounding is not modelled, nor are NaN and infinite values, on which comparison and `int()` behave differently.
- The block fields `x1`, `y1` and `block_no` are carried but never read, as in the source.
- Characters are Unicode scalar values. A Python string holding a lone surrogate has no counterpart.
- `get_pdf_processor` and `get_user_manager` are dependency-injection factories and are not modelled. backend/src/core/documents.py, the caller of the extractor, is not part of this model.
- Auth.ListUsers takes the rows the database returned as input. The database's filters (active flag, registration-date bounds, text match) and its ordering by id are not modelled.
- Auth.DbWindow idealises the SQL `LIMIT`/`OFFSET` over rows that are already filtered and ordered.
- Auth.ToUserRead is a field-by-field copy. The pydantic validation in `user_to_user_read` is not modelled.
- User ids (UUIDs) are natural numbers and registration timestamps are integers.
- The database write done by `_update` is recorded as an appended `ProfileUpdate` entry plus the change of the one field. Flush, refresh and the transaction are not modelled.
- `async`/`await`, `print` and logging are not modelled.
- The hooks `on_after_register` and `on_after_update` only print and then call `update_profile_complete`. The other hooks only print. None is modelled separately.
- The authentication backend, OAuth client, token strategy and HTTP routers are configuration and routing, with no logic of their own.
