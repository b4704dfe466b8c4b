# Ledger flattening: a verified model of the row walk and its normalisers

The application turns a general-ledger export into a flat table. In the export, each account's
transactions are nested in blocks under an account-header row. The model covers the three pieces of
`app.py` that hold the decisions:

- `clean_number` (module `NumberCleaning`) reads an amount written the Indonesian way, such as
  `1.000.000,00` or `500.000,00 (Dr)`, as an exact decimal;
- `format_date` (module `DateFormatting`) rewrites a date cell such as `15 Agustus 2024` as `15/08/2024`;
- the loop of `parse_ledger` (module `LedgerWalk`) walks the grid row by row. It keeps the current
  account name and type, and emits an opening-balance record for each account-header row and one record
  for each transaction row under an account.

The module `Strings` holds the pieces of Python's `str` that these functions rely on:

- `strip()` with Python's whitespace set;
- `replace(pat, '')`: left-to-right, non-overlapping deletion in a single pass;
- `replace(c, d)` for a single character;
- `split()` with no argument;
- decimal digit strings.

`Optional` holds the `Option` type used for cells pandas reports as missing.

`float()` is modelled on exact decimals (`real`): an optional sign, then digits with at most one `.`
and at least one digit, with whitespace around them ignored. Anything else raises `ValueError`, which
`clean_number` turns into `0.0`.

`parse_ledger` reads the file with `dtype=str`, so every cell it hands on is text or missing. A
grid row is therefore a `seq<Option<string>>`, and the walk passes date cells to `format_date` as
text. The `DateCell` type still models the function's other input kinds (missing, typed date,
other object) for the function on its own.

`ParseLedger` is imperative, like the source loop. The account context lives in two variables.
For each row, `VisitRow` returns the row's records and the new context, and `ParseLedger` appends
those records to its list. Its postcondition ties the result to `Records`, a fold over the grid.
The properties of the walk are lemmas about that fold.

`app.py` fixes several choices, and the model keeps them:

- Fixed layout: `app.py` has no column locator and no fallback column map. It reads columns 0, 1,
  2, 6, 10, 12, 14, 19, 21 and 23 at fixed positions, and so does the model.
- Account fields: the account name and type come straight from columns 6 and 10; nothing scans the
  row for them.
- Separators: `app.py` has no decimal-separator heuristic, so Western `1,234.50` reads as 1.2345
  (`NumberCleaning.WesternGroupingReadAsDecimals`).
- Month table: it has 23 entries, because `Mei` is both the short and the long name of May.

## Model

| member | source | states |
|---|---|---|
| NumberCleaning.CleanNumber | app.py:7-20 | a missing cell gives 0; text without a `-` never gives a negative amount |
| Strings.Strip | app.py:11 | `strip()` leaves no whitespace at either end |
| Strings.StripFrame | app.py:11 | whitespace around a text never changes what `strip()` returns |
| Strings.DeleteAll | app.py:11 | `replace(pat, '')` never lengthens the text and adds no character |
| Strings.DeleteAfterAbsent | app.py:11 | no occurrence of `pat` can start in a prefix that lacks `pat`'s first character, so only the rest is scanned |
| Strings.DeleteCharGone | app.py:11 | after deleting a character, none of it is left |
| Strings.DeleteCharKeeps | app.py:15 | deleting one character keeps every other character |
| Strings.ReplaceChar | app.py:15 | `replace(',', '.')` keeps the length and changes exactly the `,` positions |
| Strings.Split | app.py:43 | `split()` yields non-empty tokens without whitespace |
| Strings.SplitWord | app.py:43 | a token followed by whitespace or the end of the text is the first part of the split |
| NumberCleaning.NoParens | app.py:11 | after deleting `(Dr)`, `(Cr)`, `(` and `)` no parenthesis is left, and no character is introduced |
| NumberCleaning.Unmarked | app.py:11 | the stripped, marker-free text still has no parenthesis and only characters of the cell |
| NumberCleaning.CleanedText | app.py:15 | the text handed to `float()` has no `,` and no parenthesis; every character other than `.` comes from the cell |
| NumberCleaning.NoParensPrefix | app.py:11 | in a prefix without `(`, only the `)` are deleted, and the rest of the text is cleaned on its own |
| NumberCleaning.MarkerVanishes | app.py:11 | `(Dr)` and `(Cr)` on their own are deleted whole |
| NumberCleaning.MarkerKeepsValue | app.py:11 | a `(Dr)` or `(Cr)` marker after an amount, with or without whitespace before it, leaves the amount's value unchanged |
| NumberCleaning.MarkedAmountRoundTrip | app.py:11-18 | an Indonesian amount followed by ` (Dr)` or ` (Cr)` reads back exactly |
| NumberCleaning.Magnitude | app.py:18 | the `float()` grammar needs at least one digit around the point, and the value is never negative |
| NumberCleaning.ParseUnsigned | app.py:18 | an unsigned number is never negative |
| NumberCleaning.DigitlessIsNoNumber | app.py:17-20 | text without a single digit (`""`, `.`, `-`) is no number |
| NumberCleaning.BlankCellIsZero | app.py:11-20 | a cell holding only whitespace, or nothing, is worth 0 |
| NumberCleaning.ParseFloat | app.py:17-18 | `float()` of text without a `-` is never negative |
| NumberCleaning.NegativeNeedsMinus | app.py:18 | only a leading minus sign makes the parsed number negative |
| NumberCleaning.DecimalRejects | app.py:17-20 | one character that is not a digit, sign or point makes the text no number |
| NumberCleaning.NonNumericGivesZero | app.py:17-20 | a character that cannot belong to a number and survives the cleaning makes the amount 0, the lossy default (within the decimal grammar; `inf`, `nan` and exponents are under Left out) |
| NumberCleaning.ParenthesesAreNotNegation | app.py:11 | `(s)` is worth exactly what `s` is worth, so accounting parentheses never make an amount negative |
| NumberCleaning.MarkerAloneIsZero | app.py:11-20 | a cell that is only `(Dr)` or `(Cr)`, or only `Dr` or `Cr`, is worth 0 |
| NumberCleaning.LettersAreNoNumber | app.py:15-20 | text that the cleaning leaves unchanged and that starts with a letter is worth 0 (within the decimal grammar; `inf`, `nan` and exponents are under Left out) |
| NumberCleaning.DotInsensitive | app.py:15 | inserting a `.` into an amount never changes its value when no `(` comes before the `.` |
| NumberCleaning.LetterSurvivesCleaning | app.py:11-15 | a character other than whitespace, `.` and `,` that survives the parenthesis step reaches `float()` |
| NumberCleaning.DotInMarkerKeepsLetters | app.py:11-20 | a `.` inside a marker keeps it from being deleted: `5(D.r)` is worth 0, while `5(Dr)` is worth 5 |
| NumberCleaning.CleanedTextStrip | app.py:11-18 | the `strip()` in the cleaning does not affect the value, because `float()` ignores surrounding whitespace itself |
| NumberCleaning.GroupThousandsDots | app.py:14-15 | deleting the `.` thousands separators gives the ungrouped digits back |
| NumberCleaning.ParseDecimalOf | app.py:18 | digits, a point and digits read back as the value they spell |
| NumberCleaning.ParseNegativeDecimalOf | app.py:18 | the same text with a leading `-` reads back as the negated value |
| NumberCleaning.GroupedAmountValue | app.py:13-18 | a dot-grouped whole part with a decimal comma is worth the value of its digits |
| NumberCleaning.NegativeGroupedAmountValue | app.py:13-18 | the same with a leading minus sign is worth the negated value |
| NumberCleaning.IndonesianAmountRoundTrip | app.py:13-18 | every amount in hundredths, written the Indonesian way (`-1.234.567,05`), is read back exactly |
| NumberCleaning.IndonesianMillionExample | app.py:13-15 | `1.000.000,00` reads as one million |
| NumberCleaning.WesternGroupingReadAsDecimals | app.py:15 | `a,b.c` written with Western grouping is read as `a.bc`: the comma becomes the decimal point |
| DateFormatting.FormatDate | app.py:23-32 | a missing cell gives `""`, a typed date its `%d/%m/%Y` rendering, another object its `str()` |
| DateFormatting.FormatDateText | app.py:42-52 | text with fewer than three tokens comes back unchanged; otherwise the result is one non-empty token |
| DateFormatting.TwoDigits | app.py:30 | `%d` and `%m` give exactly two digits spelling the number |
| DateFormatting.FourDigits | app.py:30 | `%Y` gives exactly four digits spelling the year |
| DateFormatting.StrfTimeFields | app.py:30 | `%d/%m/%Y` is ten characters, and its three digit fields read back as the day, month and year |
| DateFormatting.JoinedDateNoSpace | app.py:45-49 | the `day/month/year` text built from whitespace-free tokens is one non-empty token |
| DateFormatting.ZFill | app.py:45 | `zfill(2)` leaves text of two or more characters unchanged and pads shorter text to exactly two |
| DateFormatting.ZFillKeepsValue | app.py:45 | zero-filling a digit string keeps the number it spells |
| DateFormatting.ZFillIdempotent | app.py:45 | zero-filling twice is zero-filling once |
| DateFormatting.ZFillDay | app.py:45 | a day written with one or two digits is padded to its two-digit form |
| DateFormatting.MonthCode | app.py:35-48 | a name in the table gives its code, any other name gives `01`; every code is two digits between 01 and 12 |
| DateFormatting.MonthNameLookUp | app.py:35-40 | the long and the short Indonesian name of each month give that month's number |
| DateFormatting.MonthLookUpIsCaseSensitive | app.py:48 | `Agustus` gives `08` but `agustus` gives the default `01` |
| DateFormatting.FormatDateOfTokens | app.py:43-49 | day, month name and year separated by any whitespace, possibly followed by more tokens, format from those three tokens alone |
| DateFormatting.FormatDateIdempotent | app.py:42-52 | formatting the formatted text again changes nothing |
| DateFormatting.TextAgreesWithTyped | app.py:25-49 | a date written as `day Monthname year` formats exactly as the same date handed over typed |
| DateFormatting.IsoDateExample | app.py:43-52 | `2024-08-15` is a single token and comes back unchanged |
| LedgerWalk.ParseLedger | app.py:74-111 | the loop returns exactly the records of the fold `Records` over the grid |
| LedgerWalk.VisitRow | app.py:82-109 | one loop iteration emits what `Emitted` says and leaves the context `Next` says |
| LedgerWalk.Emitted | app.py:82-109 | a row emits at most one record, and it emits one exactly when it is a header row or a transaction row under an account |
| LedgerWalk.OpeningRecord | app.py:85-96 | the opening record carries the header's account, the date 01/01/2025, `Saldo Awal`, zero debit and credit, and `clean_number` of column 14 as its balance, which is 0 when the cell is missing and never negative without a `-` |
| LedgerWalk.TransactionRecord | app.py:101-109 | a transaction record carries the current account (its name never empty), `format_date` of column 2, the description of column 12, and `clean_number` of columns 19, 21 and 23 as debit, credit and balance; a missing amount cell gives 0 |
| LedgerWalk.OpeningBalanceExact | app.py:85-95 | an opening balance written the Indonesian way reaches the record exactly |
| LedgerWalk.TransactionAmountsExact | app.py:106-108 | debit, credit and balance written the Indonesian way reach the record exactly |
| LedgerWalk.HeaderTakesPrecedence | app.py:82-100 | a row that passes both tests is treated as a header: it opens its account and emits only its opening record |
| LedgerWalk.CaptionRowIgnored | app.py:100 | the caption row, whose column 2 reads `Tanggal` with any whitespace around it, emits nothing and keeps the context |
| LedgerWalk.EmptyNameRecordsNothing | app.py:100 | an empty account name is falsy, so no transaction is recorded under it |
| LedgerWalk.Next | app.py:82-84 | only a header row changes the context, which it sets to its columns 6 and 10 |
| LedgerWalk.Walk | app.py:79-109 | the walk never emits more records than there are rows |
| LedgerWalk.WalkAppend | app.py:79-109 | walking two stretches of rows is walking the first, then the second from the context the first left |
| LedgerWalk.LastHeaderAt | app.py:82 | the index found holds a header row and no header row follows it; -1 means no row is a header |
| LedgerWalk.ContextIsLastHeader | app.py:75-84 | after any prefix of the grid, the current account is the one set by the last header row in it, or none |
| LedgerWalk.RecordsRowByRow | app.py:74-111 | the records are each row's own output in grid order, judged against the last header row above it |
| LedgerWalk.OrphanRowsDropped | app.py:75-100 | rows above the first account header emit nothing |
| LedgerWalk.HeaderResetsContext | app.py:82-96 | a header row emits its opening record, and the rows after it are walked under its account whatever came before |
| LedgerWalk.TransactionsUnder | app.py:100-109 | a run of transaction rows under one account emits one record per row, in order, and keeps the account |
| LedgerWalk.AccountBlock | app.py:82-109 | a header followed by transaction rows gives the opening-balance record, then one record per transaction under the header's account |

## Left out

- The web interface, file upload, reading CSV or spreadsheet files (app.py:55-72), building the
  DataFrame and writing the Excel output: all of this is I/O around the walk. A grid is a parameter.
- The grid's width: the model requires every row to have at least 24 cells. The source looks up
  columns by label. On a narrower grid it raises `KeyError` as soon as a row's tests or records
  read a column the grid lacks; a narrower grid in which no row reaches such a column still
  returns its records.
- NumberCleaning.ParseFloat: `float()` accepts more than decimals: `inf`, `Infinity`, `nan`,
  exponents such as `1e5`, `_` between digits and non-ASCII digits. The model reads these as no
  number (0), and it uses exact decimals in place of binary floating point.
- NumberCleaning.DotInsensitive: stated only when no `(` comes before the inserted `.`. A `.` inside
  a marker stops the marker from being deleted: `5(D.r)` cleans to `5Dr`, which is 0, while `5(Dr)`
  is 5 (`NumberCleaning.DotInMarkerKeepsLetters`).
- Typed dates have four-digit years only, because `%Y` pads smaller years differently on different
  platforms. The fallback to `str()` when `strftime` fails (app.py:31-32) is modelled only as
  the `Other` input.
- The `except` in the text branch of `format_date` (app.py:50-51) cannot be reached: splitting,
  zero-filling and a dictionary lookup with a default do not raise on text.
- The `Typed` and `Other` date inputs cannot reach `format_date` from `parse_ledger`, because the
  file is read with `dtype=str`. For the same reason `str(row[2])` (app.py:100) is applied to
  text and changes nothing, so the model strips the cell text directly.
