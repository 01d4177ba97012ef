# Business verification deduplication checker — Dafny model

This project models the logic of the deduplication checker page of the
Jiinue Growth Programme business-verification dashboard
(`business_verification_dashbaord.py`). The page loads the submissions table.
It then deduplicates the table on its two identity columns, `Verified ID
Number` and `Verified Phone Number`, in two ways:

- **Excel-style** compares the values as entered (lines 16-19).
- **Strict** first normalises both columns in a copy of the table (lines
  21-24), then deduplicates that copy (lines 26-29).

Both use pandas' `drop_duplicates(keep='first')`. The page shows three
counts: total rows, Excel-style rows and strict rows (lines 33-35).

Files and modules:

- `phone.dfy`, module `Phone`: the phone normaliser. It deletes every
  non-digit (`\D`), then replaces the anchored pattern `^(?:0|254)?` with
  `254`. The alternatives are tried in order, so one of three things happens.
  A leading `0` is swapped for `254`. A leading `254` is kept. Otherwise
  `254` is prepended, so the empty string becomes `254`.
- `national_id.dfy`, module `NationalId`: the ID normaliser, which is
  `str.strip().str.upper()`.
- `dedup.dfy`, module `Dedup`: keep-first deduplication on any key.
  - `KeepFirst` is the specification, written as a function.
  - `FirstIndices` is an independent description of what is kept, by
    position.
  - `DropDuplicates` is the one-pass loop with a set of keys seen so far.
    It is proved equal to `KeepFirst`.
- `dashboard.dfy`, module `Dashboard`: rows, the identity key, the in-place
  overwrite of the two columns in the copied table (as passes over an
  array), the page's computation, and its three metrics.

The phone rule deletes every non-digit and always makes the result start
with `254`, swapping a trunk `0` for it. The ID rule only strips surrounding
whitespace and upper-cases. Identity cells are compared as text, so rows whose
ID and phone cells are both blank merge in both passes. In the strict pass a
blank or missing phone becomes `254`, so all rows with the same normalised ID and no
phone digits collapse to one.

## Model

| member | source | states |
|---|---|---|
| `Phone.StripNonDigits` | business_verification_dashbaord.py:22 | the result holds only ASCII digits and is never longer than the input |
| `Phone.StripNonDigitsFixesDigits` | business_verification_dashbaord.py:22 | deleting non-digits leaves a string unchanged if and only if it is all digits |
| `Phone.StripNonDigitsConcat` | business_verification_dashbaord.py:22 | the digits of `a + b` are the digits of `a` followed by the digits of `b`, so order is kept |
| `Phone.ApplyCountryCode` | business_verification_dashbaord.py:23 | the result always starts with `254`, and a digit string stays a digit string |
| `Phone.Normalize` | business_verification_dashbaord.py:22-23 | the normalised phone consists only of digits and always begins with `254` |
| `Phone.NormalizeRewritesOnlyPrefix` | business_verification_dashbaord.py:23 | with `d` the digits of the input, the result equals `d` if and only if `d` already starts with `254`, and everything in `d` after its first digit always survives as the end of the result |
| `Phone.NormalizeToCountryCode` | business_verification_dashbaord.py:22-23 | a phone normalises to the bare `254` if and only if its digits are blank, a lone `0`, or `254`; so a blank phone becomes `254` |
| `Phone.NormalizeIdempotent` | business_verification_dashbaord.py:22-23 | normalising an already normalised phone changes nothing |
| `Phone.StripNonDigitsChar` | business_verification_dashbaord.py:22 | a single character is deleted if and only if it is not a digit |
| `Phone.NormalizeIgnoresNonDigit` | business_verification_dashbaord.py:22-23 | inserting a non-digit anywhere in a phone leaves its normal form unchanged |
| `Phone.EquivalentForms` | business_verification_dashbaord.py:22-23 | for subscriber digits `x` that do not start with `0` or `254`, the inputs `0x`, `x` and `254x` all normalise to `254x` |
| `Phone.FormattedForm` | business_verification_dashbaord.py:22-23 | `+254 xxx-xxx-xxx` normalises to `254` followed by the nine digits |
| `Phone.NormalizeExamples` | business_verification_dashbaord.py:22-23 | `0712345678`, `712345678` and `254712345678` all normalise to `254712345678` |
| `Phone.FormattedExample` | business_verification_dashbaord.py:22-23 | `+254 712-345-678` normalises to `254712345678` |
| `NationalId.TrimStart` | business_verification_dashbaord.py:24 | the result is a suffix of the input, what was removed is all whitespace, and the result does not start with whitespace |
| `NationalId.TrimEnd` | business_verification_dashbaord.py:24 | the result is a prefix of the input, what was removed is all whitespace, and the result does not end with whitespace |
| `NationalId.Strip` | business_verification_dashbaord.py:24 | the stripped value has no whitespace at either end |
| `NationalId.Upper` | business_verification_dashbaord.py:24 | the length is kept, no lower-case letter remains, and each lower-case letter becomes its own capital (its code point minus 32) while every other character is kept |
| `NationalId.Normalize` | business_verification_dashbaord.py:24 | the normalised ID has no leading or trailing whitespace and no lower-case letters |
| `NationalId.NormalizeIdempotent` | business_verification_dashbaord.py:24 | applying ID normalisation twice equals applying it once |
| `NationalId.StripPadding` | business_verification_dashbaord.py:24 | for a core value with whitespace added at either end, strip removes exactly that whitespace |
| `NationalId.StripSplits` | business_verification_dashbaord.py:24 | every value is its stripped core with whitespace on each side |
| `NationalId.NormalizeIgnoresPadding` | business_verification_dashbaord.py:24 | adding whitespace around an ID does not change its normal form |
| `NationalId.StripUpperCommute` | business_verification_dashbaord.py:24 | stripping and upper-casing can be done in either order |
| `NationalId.NormalizeIgnoresCase` | business_verification_dashbaord.py:24 | IDs that differ only in letter case normalise equal |
| `Dedup.KeepFirst` | business_verification_dashbaord.py:16-19 | the output is never longer than the input and has exactly the keys the input has: every key has a kept row |
| `Dedup.DropDuplicates` | business_verification_dashbaord.py:26-29 | the one-pass loop over rows with a seen-key set returns exactly the keep-first specification |
| `Dedup.KeepFirstDistinct` | business_verification_dashbaord.py:16-19 | no two kept rows share a key |
| `Dedup.KeepFirstOfDistinct` | business_verification_dashbaord.py:16-19 | a table whose keys are already distinct is kept whole |
| `Dedup.KeepFirstIdempotent` | business_verification_dashbaord.py:26-29 | deduplicating twice gives the same result as deduplicating once |
| `Dedup.KeepFirstCount` | business_verification_dashbaord.py:16-19 | the number of kept rows equals the number of distinct keys in the input |
| `Dedup.FirstIndices` | business_verification_dashbaord.py:16-19 | the positions are increasing and in range, and a position is listed if and only if no earlier row has its key |
| `Dedup.KeepFirstSelectsFirstOccurrences` | business_verification_dashbaord.py:16-19 | the output is the input's subsequence at the first occurrence of each key, in the original order (`keep='first'`) |
| `Dedup.KeepFirstOfOneKey` | business_verification_dashbaord.py:26-29 | rows that all share one key collapse to the first of them |
| `Dedup.CoarserKeyKeepsFewer` | business_verification_dashbaord.py:16-29 | deduplicating on a key that is a function of another key never keeps more rows |
| `Dedup.KeepFirstMap` | business_verification_dashbaord.py:21-29 | transforming the rows and then deduplicating equals deduplicating on the transformed key and then transforming the kept rows |
| `Dashboard.UpdateEachRow` | business_verification_dashbaord.py:22-24 | a column assignment overwrites every row in place with the value computed from that row |
| `Dashboard.NormalizeColumns` | business_verification_dashbaord.py:21-24 | after the three column assignments, every row of the copy holds its normalised ID and phone, and the other columns are unchanged |
| `Dashboard.ComputeMetrics` | business_verification_dashbaord.py:14-35 | the Excel-style table is keep-first on the raw key, the strict table is keep-first on the normalised table, and strict count <= Excel-style count <= total |
| `Dashboard.StrictIsDedupOnCanonicalKey` | business_verification_dashbaord.py:21-29 | the strict table is the raw table deduplicated on the normalised `(id, phone)` key, with the kept rows normalised |
| `Dashboard.MetricsOrdered` | business_verification_dashbaord.py:16-35 | strict count <= Excel-style count <= total count |
| `Dashboard.PhoneFormatsScenario` | business_verification_dashbaord.py:16-29 | one registrant entered with the phone as `0x`, `x` and `254x` keeps 3 rows Excel-style and 1 row strict |

## Left out

- The Streamlit page is not modelled: page config, title, columns and metric widgets (lines 1, 4-5, 32-35). Only the three counts are modelled.
- Fetching the Google Sheet and `pd.read_excel` (lines 8, 11) are not modelled. They are network and spreadsheet I/O through a foreign library. The table is a parameter.
- `reset_index(drop=True)` (line 14) is not modelled because it only renumbers rows. A row's position in the sequence plays that role.
- pandas' `astype(str)` rendering (lines 22, 24) is not modelled: the ID and phone cells are already strings. Two consequences follow. A missing phone renders as `nan`, which normalises to `254`. A float phone renders as `712345678.0`, which normalises to `2547123456780`.
- Raw-key equality in the Excel-style pass (line 16) compares pandas cells that may have mixed types. The model compares the cells as strings.
- `Phone.StripNonDigits`: Python's `\D` keeps every Unicode decimal digit, but the model keeps only ASCII `0`-`9`.
- `NationalId.Strip`: Python's `str.strip()` removes all Unicode whitespace, but the model removes only the ASCII whitespace Python recognises (tab, line feed, vertical tab, form feed, carriage return, the characters 0x1C-0x1F, and space).
- `NationalId.Upper`: Python's `str.upper()` case-maps all of Unicode, including letters whose capital is longer than one character. The model capitalises only `a`-`z`.
- `df.copy()` (line 21) is modelled as a fresh array filled from the table. pandas' copy semantics, such as shared buffers and copy-on-write, are not modelled.
- Some features appear in other copies of the dashboard but not in this script. None of them are modelled: county title-casing and apostrophe folding, timestamp parsing, geo-coordinate and plus-code decoding, truncating a `.0` suffix on IDs, cached fetching, and per-row duplicate flags.
