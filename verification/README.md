# Largest Indonesian companies: the extraction core

This project is a Dafny model of the part of `largest_company_etl.py` that
turns article text into rows of data.

The article lists Indonesia's largest companies in running prose:
"1. Pertamina dengan pendapatan Rp1.234.0002. PLN dengan pendapatan Rp567.000…".
The ".000" that ends each figure is also what separates one company from the
next. A space after ".000" would start the next segment with whitespace, and
`re.match` rejects such a segment (`Pattern.LeadingSpaceRejected`): that
company would be lost.
`extract_data` does four things with it:

- it takes the text of a paragraph of the article's content container;
- it cuts that text into segments at every ".000";
- it drops the empty segments;
- it matches each remaining segment against
  `(\d+)\.\s(.+)\sdengan pendapatan\sRp([\d\.]+)`, and turns every match into a
  row `[rank, name, revenue]`.

`revenue_transform` normalises the revenue figure. It removes the `.`
thousands separators and parses the digits. It then multiplies by 1,000,000
when the figure had at most one separator and by 1,000 otherwise.

Modules:

- `Results`: the `Option` and `Result` types.
- `Seqs`: generic helpers, namely element-wise relations between two lists and flat-map.
- `Text`: the `str` operations the code uses (`split`, `replace`, `startswith`, `filter(None, …)`), with `find`, `join` and `count` as the means to specify them.
- `Decimal`: `int()` and `str()` on strings of ASCII digits.
- `Revenue`: `revenue_transform`.
- `Pattern`: `re.match` of the company-line pattern.
- `Extract`: `extract_data`, from the paragraph texts to the rows. It holds the code as written and also the evidently intended version (see Findings).

Errors are values:

- `int('')` raises `ValueError`. This happens when a captured revenue holds only separators, and it becomes `Failure(InvalidRevenue(...))`.
- Reading `text` before it was ever assigned raises `UnboundLocalError`, and becomes `Failure(TextUnbound)`.

In two places the code does something other than what its shape suggests, and the model follows the code:

- **No container, or no paragraphs.** The `if div_content:` guard suggests that such a page gives an empty table. The code then reads the unassigned `text` and raises.
- **The preamble paragraph.** The `startswith` test suggests that the paragraph starting with "Berikut daftar" is skipped. The code assigns `text` before the test, so the `continue` skips nothing. After the loop `text` holds the last paragraph, whatever it says.

## Model

| member | source | states |
|---|---|---|
| `Text.Split` | largest_company_etl.py:51 | `split` returns at least one piece; joining the pieces with the separator gives the text back; no piece contains the separator |
| `Text.SplitCutsAtLeftmost` | largest_company_etl.py:51 | every cut is at the leftmost occurrence still left: no occurrence starts inside a piece, even one overlapping the separator that follows |
| `Text.SplitJoin` | largest_company_etl.py:51 | `split` inverts `join` whenever no piece contains the separator and none straddles a join point, so `split` and `join` are mutually inverse |
| `Text.SplitCount` | largest_company_etl.py:28-29 | splitting at a character gives one more piece than the character's count, so `len(parts) < 3` means "at most one separator" |
| `Text.Find` | largest_company_etl.py:51 | the occurrence found is real, and no occurrence exists between the start and it |
| `Text.NonEmpty` | largest_company_etl.py:53 | `filter(None, …)` keeps only non-empty strings, each taken from the input, and never lengthens the list |
| `Text.NonEmptyCounts` | largest_company_etl.py:53 | every non-empty string keeps its number of occurrences; only the empty ones go |
| `Text.NonEmptyAppend` | largest_company_etl.py:53 | filtering distributes over concatenation, so the pieces keep their order |
| `Text.NonEmptyIdempotent` | largest_company_etl.py:53 | filtering twice is filtering once |
| `Text.StartsWith` | largest_company_etl.py:49 | `startswith` holds exactly when the prefix fits in the text and agrees with it character by character |
| `Text.Remove` | largest_company_etl.py:30 | `replace('.', '')` leaves no `.` and is never longer than its input |
| `Text.RemoveCounts` | largest_company_etl.py:30 | deleting `c` removes exactly the occurrences of `c`; every other character keeps its count, and the length drops by the count of `c` |
| `Text.RemoveAppend` | largest_company_etl.py:33 | deleting a character distributes over concatenation, so the kept characters stay in order |
| `Text.RemoveAbsent` | largest_company_etl.py:33 | deleting a character that does not occur changes nothing |
| `Decimal.ParseInt` | largest_company_etl.py:58 | `int()` on digits raises exactly on the empty string; otherwise `str()` of the result is the input without its leading zeros |
| `Decimal.ValueOfRender` | largest_company_etl.py:58 | reading back the decimal spelling of a number gives the number |
| `Decimal.RenderOfValue` | largest_company_etl.py:58 | spelling out a digit string's value gives the string without its leading zeros |
| `Decimal.ValueOfTrimZeros` | largest_company_etl.py:31 | leading zeros do not change the value `int()` reads |
| `Revenue.Digits` | largest_company_etl.py:30 | stripping the separators from revenue text leaves only digits, and leaves some exactly when the text has a digit |
| `Revenue.Transform` | largest_company_etl.py:27-34 | `revenue_transform` fails exactly when there is no digit, with `int('')`. Otherwise the result is the stripped digits, as `str()` spells them, times 1,000,000 for at most one separator and times 1,000 for more |
| `Revenue.TransformValue` | largest_company_etl.py:27-34 | the result is the digits' value times 1,000,000 for at most one separator and times 1,000 for two or more |
| `Revenue.TransformMagnitude` | largest_company_etl.py:31 | every result is a whole number of thousands, and of millions when the figure has at most one separator |
| `Revenue.TransformIgnoresSeparatorPlacement` | largest_company_etl.py:28-34 | two figures with the same digits on the same side of the three-group boundary transform alike, wherever the separators stand |
| `Revenue.TransformDenotes` | largest_company_etl.py:27-34 | `revenue_transform` returns a number exactly when the text denotes that reading |
| `Pattern.IsSpace` | largest_company_etl.py:56 | `\s` accepts the ASCII whitespace characters (space, tab, newline, carriage return, vertical tab, form feed) and never a digit, a `.` or the `R` of "Rp" |
| `Pattern.RunEnd` | largest_company_etl.py:56 | a greedy run of one character class ends at the first character outside the class |
| `Pattern.RunEndIsLongest` | largest_company_etl.py:56 | no run of the class from the same start reaches further than the greedy one |
| `Pattern.LastTail` | largest_company_etl.py:56 | the name ends at the last place the rest of the pattern can follow, and no such place exists after it |
| `Pattern.Match` | largest_company_etl.py:56 | `re.match` fails exactly when no way of matching exists. Otherwise it returns a match that every other match comes after in backtracking order: longest name first, then longest revenue |
| `Pattern.DotOfMatch` | largest_company_etl.py:56 | in every match the rank is the whole leading run of digits, followed by `.` and whitespace |
| `Pattern.NameEndOfMatch` | largest_company_etl.py:56 | in every match the name ends on the line where it starts, right after the rank's whitespace |
| `Pattern.Capture` | largest_company_etl.py:56-61 | the three groups exist exactly when the pattern matches; they are those of the first match in backtracking order (the one every other match comes after) and are well formed (digits; non-empty name without newline; digits and separators) |
| `Pattern.FirstMatchUnique` | largest_company_etl.py:56 | there is only one first match, so the groups `re.match` reports are determined by the segment |
| `Pattern.LeadingSpaceRejected` | largest_company_etl.py:51-57 | a segment starting with whitespace is not matched, so a space after ".000" loses the company that follows |
| `Pattern.GroupsRebuildMatch` | largest_company_etl.py:56 | the groups, rejoined with the literal parts of the pattern and the whitespace they stood between, give back the matched prefix: the name is not trimmed |
| `Pattern.CaptureLine` | largest_company_etl.py:56 | a line "<rank>. <name> dengan pendapatan Rp<revenue>" captures exactly its own rank, name and revenue |
| `Extract.TextAfterLoop` | largest_company_etl.py:47-50 | after the loop `text` holds the last paragraph; it stays unassigned when there is none |
| `Extract.Segments` | largest_company_etl.py:51-53 | the segments are non-empty, hold no ".000" and are no more than the pieces of the split |
| `Extract.Captured` | largest_company_etl.py:56-57 | a segment contributes one set of groups exactly when the pattern matches it, and otherwise none |
| `Extract.Matched` | largest_company_etl.py:55-57 | the matching segments give at most one set of groups each |
| `Extract.GroupRows` | largest_company_etl.py:58-61 | one match gives one row (`int` of the rank, the name as captured, the transformed revenue) or the `int('')` error |
| `Extract.SegmentRows` | largest_company_etl.py:55-61 | a segment that does not match adds nothing; one that matches adds its converted row |
| `Extract.Rows` | largest_company_etl.py:54-61 | the loop over segments succeeds exactly when every captured revenue has a digit, and then returns one converted row per matching segment, in order |
| `Extract.Extract` | largest_company_etl.py:45-61 | no container, or no paragraph, raises `UnboundLocalError`; otherwise the rows are the converted groups of the last paragraph's matching segments, one-to-one and in order |
| `Extract.ExtractReadsLastParagraphOnly` | largest_company_etl.py:47-51 | two containers that end in the same paragraph give the same result |
| `Extract.PreambleStillParsed` | largest_company_etl.py:49-51 | a last paragraph starting with "Berikut daftar" is parsed like any other |
| `Extract.ExtractIsLastParagraph` | largest_company_etl.py:47-51 | the result is that of the segment loop on the last paragraph, whatever precedes it |
| `Extract.Then` | largest_company_etl.py:55-61 | the loop stops at the first exception: the combined stretch fails exactly when one of them fails, with the earlier one's error, and otherwise its rows are the first stretch's followed by the second's |
| `Extract.ThenAssociative` | largest_company_etl.py:55-61 | where the loop is cut into stretches does not change the outcome |
| `Extract.ParagraphRows` | largest_company_etl.py:47-61 | corrected loop, one paragraph: nothing from the preamble, and the converted rows of the other paragraphs' matching segments |
| `Extract.RowsOfParagraphs` | largest_company_etl.py:47-61 | corrected loop: succeeds exactly when every captured revenue of every paragraph has a digit, and then returns their converted rows in order |
| `Extract.ExtractAll` | largest_company_etl.py:45-63 | corrected `extract_data`: no container gives no rows; otherwise the rows of every paragraph but the preamble |
| `Extract.ParagraphsOfLines` | largest_company_etl.py:47-56 | paragraphs holding one plain company line each (no `.` in the name or the revenue): the corrected loop finds each line's groups in its own paragraph, and every revenue has a digit |
| `Extract.OnlyLastParagraphExtracted` | largest_company_etl.py:47-61 | as written, with paragraphs the corrected loop reads as one match each, only the last paragraph's row comes back |
| `Extract.EveryParagraphExtracted` | largest_company_etl.py:47-61 | corrected, with paragraphs it reads as one match each, every paragraph's row comes back in order |
| `Extract.RowsLost` | largest_company_etl.py:47-61 | from two paragraphs read as one match each on, the code as written returns one row where the corrected loop returns one per paragraph |
| `Extract.TwoCompaniesOneRow` | largest_company_etl.py:47-61 | two paragraphs with one company each give one row as written and two when corrected |

## Left out

- The HTTP request, the HTML parsing and the search for the content container (largest_company_etl.py:39-46). They are I/O and foreign library code. The model starts from the container's paragraph texts; `None` stands for a page without the container.
- The pandas `DataFrame` around the rows (largest_company_etl.py:41, 62-63). The model returns the list of rows.
- `transform` (floating-point conversion to dollars), the CSV and SQLite loads, the queries and `log_progress` are not part of this model: they lie outside the extraction core.
- `Pattern.IsSpace`: the contract names only the ASCII whitespace characters and the characters that must not be whitespace. The full Unicode list that `str.isspace()` accepts is the definition itself, and no independent table of it is part of this model.
- `Extract.ParagraphsOfLines`: proved only for plain lines, with no `.` in the name or the revenue. A `.` there can form ".000" with what follows, and the split then cuts the line apart: a name such as "X.000Y" loses its company.
- `Pattern.Match`: `\d` is modelled as the ASCII digits only. Python's `str` patterns also accept other Unicode decimal digits, and `int()` would read them too.
- `Revenue.Transform`: modelled only on text made of digits and `.`, which is all the `[\d\.]+` group can capture. `int()` also accepts surrounding whitespace, a sign and underscores, but such text never reaches it from the pattern.
- `Decimal.ParseInt`: no limit on the length of the digit string. Python 3.11 and later refuse, by default, `int()` of a string of more than 4300 digits.

## Findings

| source | as written | input that shows it | evidently intended | confidence | as-written member | corrected member |
|---|---|---|---|---|---|---|
| largest_company_etl.py:47-51 | `text` is assigned inside the loop over paragraphs, but the split and the matching come after the loop. Only the last paragraph is ever parsed, and the preamble test skips nothing | two paragraphs, "1. Pertamina dengan pendapatan Rp1234" and "2. PLN dengan pendapatan Rp567": one row comes back | split and match every paragraph except the one starting with "Berikut daftar", and collect all their rows | not executed | `Extract.RowsLost` | `Extract.EveryParagraphExtracted` |
