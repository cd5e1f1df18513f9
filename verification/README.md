# UTA card transactions, modelled in Dafny

`app.py` shows a transit fare card's transaction history. It reads two HTML
tables from the fare site. The first table holds the card's current balance.
The second lists the transactions, most recent first. This project models
the script's four pure transformations and proves their properties:

- **`iter_rows`** (module `TableParser`, with `Labels` and `Records`).
  - It turns a table of two-cell rows into dicts, modelled as records with
    insertion-ordered entries.
  - It normalises each label: spaces become `_`, non-word characters are
    dropped, and the result is lower-cased.
  - It starts a new record when a key repeats.
  - It stops with an error at a row that does not have two cells. The model
    keeps the records yielded before that point, because `iter_rows` is a
    generator.
- **Deduplication, then the `Success` filter** (module `Transactions`).
  - Records become frame rows.
  - A row whose `transaction_id` was already seen is dropped, so the first
    occurrence is kept.
  - Of the rows left, only those whose `note` is `Success` are kept, in
    table order.
  - A column the frame lacks is an error, and so is a malformed row anywhere
    in the transaction table, since building the frame drains `iter_rows`.
- **The midnight rule** (module `Midnight`). A timestamp in hour 0 is moved
  back one hour and its minute set to 59. That gives 23:59 of the previous
  day, with the seconds kept.
- **The balance column** (module `Balance`). It is the running total of the
  negated amounts, plus the current balance, shifted down one row with the
  current balance filling the first row.
  - `Balance` also models the current balance itself: the first record of
    the summary table, its `balance` cell, with `$` removed.
  - Module `Ledger` puts the adjusted times and the balances together, one
    report row per transaction.

Representation choices:

- Timestamps are whole seconds counted from a midnight.
- Amounts and balances are whole cents.
- A missing value in a frame is `None`.
- `Wrappers` holds `Option` and `Result`.

## Model

| member | source | states |
|---|---|---|
| Labels.ReplaceSpaces | app.py:14 | every space becomes `_`, every other character is kept in place |
| Labels.StripNonWord | app.py:14 | only word characters (letters, digits, `_`) remain and the text never grows; a single character is kept exactly when it is a word character |
| Labels.StripNonWordAppend | app.py:14 | removing non-word characters from a concatenation removes them from each part, so with the one-character case the kept characters stay in order |
| Labels.Lower | app.py:14 | character by character, upper-case letters become lower-case, nothing else changes |
| Labels.Normalize | app.py:14 | a normalised label is a key: word characters only, no upper case, no longer than the label |
| Labels.NormalizeMatchesByChar | app.py:14 | the three passes are one per-character rule: space gives `_`, a word character gives its lower-case form, anything else gives nothing |
| Labels.NormalizeAppend | app.py:14 | normalising a concatenation is concatenating the normalised parts |
| Labels.NormalizeKeepsKeys | app.py:14 | a label that is already a key is left unchanged |
| Labels.NormalizeIdempotent | app.py:14 | normalising twice is normalising once |
| Labels.NormalizeUnderscores | app.py:14 | the key holds one `_` per space or `_` of the label, and no other `_` |
| Records.Lookup | app.py:47 | a key is found exactly when the record has it, and the value returned is that key's entry |
| TableParser.Entries | app.py:13-14 | well-formed rows become one entry each, with the label normalised and the value kept |
| TableParser.Walk | app.py:12-18 | the loop stops exactly at the first row without two cells; every yielded record has distinct keys; only an empty remainder with an empty dict yields an empty record |
| TableParser.IterRows | app.py:10-19 | an error happens exactly when some row lacks two cells, and it names the first such row; a well-formed table yields at least one record; zero rows yield exactly one empty record; only zero rows give an empty record; keys are distinct in every record |
| TableParser.SplitIsGreedy | app.py:15-19 | the split satisfies its independent description: the records concatenated give back the entries, keys are distinct in each record, and every record after the first opens with a key present in the record before it |
| TableParser.GreedySplitUnique | app.py:15-19 | that description fixes the split: two sequences of records satisfying it for the same entries are equal |
| TableParser.SplitSingleIffDistinct | app.py:15-19 | a single record comes out exactly when no key repeats in the entries, and then it is all the entries |
| TableParser.RepeatedBlocksSplit | app.py:15-19 | a table listing the same fields in the same order for each of `n` records splits back into exactly those `n` records |
| TableParser.IterRowsSplits | app.py:10-19 | on a well-formed table, the yielded records are exactly that split of the normalised rows, so flattening them gives back the input entries |
| TableParser.IterRowsHalts | app.py:13-17 | at the first malformed row, the generator raises that row's error after yielding every record completed before it; the record under construction is lost |
| TableParser.IterRowsCount | app.py:15-17 | the number of records is one plus the number of rows whose key is already in the dict under construction, and so at most one plus the number of rows repeating any earlier key |
| TableParser.IterRowsStreams | app.py:15-19 | appending rows cannot change a record already closed, nor undo an error already raised |
| Transactions.Frame | app.py:51 | one frame row per record, in order, holding that record's `transaction_id`, `note`, `date` and `amount`, or `None` where the record lacks one |
| Transactions.FirstPos | app.py:52 | the position of the first row carrying an id, and no earlier row carries it |
| Transactions.Dedup | app.py:52 | deduplication never adds rows |
| Transactions.DedupKeepsFirstOccurrences | app.py:52 | after deduplication the same ids are present, each once; each surviving row is the first row of the input with its id; survivors keep input order |
| Transactions.SuccessOnly | app.py:53 | a row is kept exactly when it is in the input and its note is `Success` |
| Transactions.SuccessOnlyAppend | app.py:53 | filtering a concatenation filters each part, so with the one-row case the filter keeps the successful rows in input order, each once |
| Transactions.SuccessOnlyKeepsOrder | app.py:53 | rows ordered by the first positions of their ids are still so ordered after filtering |
| Transactions.KeptInTableOrder | app.py:52-53 | the rows that reach the balance computation appear in the table order of the first rows of their ids |
| Transactions.SuccessOnlyKeepsUnique | app.py:53 | filtering keeps ids unique |
| Transactions.KeptIffFirstSucceeds | app.py:52-53 | an id reaches the balance computation exactly when the first row carrying it has note `Success` |
| Transactions.KeptIsFirstSuccess | app.py:52-53 | every surviving row is the first row of its id and a success |
| Transactions.FirstSuccessIsKept | app.py:52-53 | a successful first occurrence always survives |
| Transactions.KeptAreUniqueSuccesses | app.py:52-53 | the surviving rows are input rows with note `Success` and distinct ids |
| Transactions.FilterOrderMatters | app.py:52-53 | a failed first row hides a later successful row with the same id, which filtering first and deduplicating second would have kept |
| Transactions.TransactionFrame | app.py:50-55 | the frame is built exactly when `transaction_id`, `note`, `date` and `amount` are all columns; otherwise the error names missing columns only; the frame has one `date`/`amount` row per surviving row, in the order of the surviving rows |
| Transactions.FrameRowsAreFirstSuccesses | app.py:50-55 | the frame's rows come, in table order, from exactly the records that are first with their `transaction_id` and whose note is `Success`, each row holding its record's date and amount |
| Transactions.TransactionTable | app.py:50-55 | a malformed row anywhere in the transaction table stops the frame, with the generator's error, because building the frame drains the generator; otherwise the frame or the column error is that of the table's records |
| Midnight.ClockRoundTrip | app.py:58 | reading day, hour, minute and second back from a timestamp gives the fields it was built from |
| Midnight.ReplaceMinute | app.py:58 | replacing the minute keeps the day, hour and second and sets the minute |
| Midnight.AdjustMidnight | app.py:58 | a timestamp in hour 0 of day D becomes 23:59 of day D-1 with its seconds, which lies in the last minute before D's midnight; any other timestamp is unchanged |
| Midnight.AdjustMidnightIdempotent | app.py:58 | an adjusted time is never in hour 0, so adjusting again changes nothing |
| Midnight.AdjustMidnightMovesBack | app.py:58 | a time is moved back by at most an hour and never forward |
| Midnight.MidnightBecomesPreviousMinute | app.py:57-58 | midnight of a day becomes 23:59:00 of the day before |
| Balance.Negate | app.py:61 | every amount is negated, in place |
| Balance.CumSumFrom | app.py:61 | the running total, carried left to right from a starting total, holds at each row the starting total plus the sum of the amounts up to and including that row |
| Balance.CumSum | app.py:61 | the running totals: each row holds the sum of the values up to and including it |
| Balance.AddEach | app.py:61 | the constant is added to every row |
| Balance.Shift | app.py:61 | values move down one row; the first row holds the fill value and the last value is dropped; the length is unchanged |
| Balance.Balances | app.py:61 | the balance column has one row per amount, and row `i` shows the current balance less the amounts of the rows above it |
| Balance.BalancesStep | app.py:61 | the first row shows the current balance, and each row shows the row above it less that row's amount |
| Balance.BalancesUnique | app.py:61 | any column starting at the current balance and stepping down by each amount is the balance column |
| Balance.RunningBalances | app.py:61 | a row-by-row running balance produces the same column |
| Balance.AmountsFromBalances | app.py:61 | two amount lists with the same balance column agree on all amounts but the last |
| Balance.LastAmountLost | app.py:61 | the last amount does not affect the column |
| Balance.OpeningBalance | app.py:61 | the bottom row's balance less its amount is the current balance less the total of all amounts |
| Balance.TwoFares | app.py:61 | a card left with $100.00 after a $5.00 fare and then a $3.50 fare lists the $3.50 fare first: its row shows $100.00, the $5.00 fare shows $103.50, and the card held $108.50 before both |
| Balance.StripDollar | app.py:47 | no `$` remains, and every other character present before is present after |
| Balance.StripDollarAppend | app.py:47 | removing `$` from a concatenation is removing it from each part |
| Balance.StripDollarKeeps | app.py:60 | text without `$` is left unchanged |
| Balance.CurrentBalanceText | app.py:47 | a row error happens exactly when the generator halts before yielding anything, and it is the generator's error; a missing-balance error happens exactly when the first record has no `balance` key; otherwise the result is that record's `balance` value without `$` |
| Balance.CurrentBalanceIgnoresLaterRows | app.py:47 | once the first record is closed, later rows, malformed or not, do not change the current balance |
| Ledger.LineOf | app.py:56-60 | a report row shows the midnight-adjusted time as both date and time; that time is never in hour 0 and is at most an hour before the original; the row carries its amount and balance unchanged |
| Ledger.Report | app.py:56-61 | one report row per transaction, each with its midnight-adjusted time as date and time, never in hour 0, and its amount, and row `i` showing the current balance less the amounts above it |
| Ledger.ReportChains | app.py:61 | down the report, each balance is the one above it less the amount above it |
| Ledger.BalancesIgnoreTimes | app.py:61 | balances depend on table order and amounts only, not on the timestamps |

## Left out

- The web interface is left out because it is presentation only. That covers
  the title, inputs, query parameters, spinner, metric, the sorted table
  display and its column formats (app.py:29-45, 48, 63-92).
- The HTTP fetch and its five-minute cache are left out as network I/O
  (app.py:22-27).
- HTML parsing is left out.
  - A table is the sequence of its rows, and a row is the strings of its
    cells.
  - A cell whose `.string` is `None` is not modelled.
  - Finding the two tables is not modelled, and neither is the "could not
    find transactions" stop when the summary table is missing (app.py:37-42).
- Labels.Normalize: `\W` and `lower()` are modelled on ASCII only. Python
  also counts non-ASCII letters and digits as word characters and lower-cases
  non-ASCII letters.
- Balance.CurrentBalanceText: returns the cell text without `$` rather than
  the float that `float(...)` parses from it. Number parsing and floating
  point are left out. Amounts and balances are whole cents.
- Date strings are not modelled.
  - Parsing them into timestamps is left out (app.py:56), so `Ledger` takes
    timestamps as seconds and amounts as cents.
  - Time zones, daylight saving and sub-second precision are not modelled.
- Turning the frame's `amount` text into a number is left out, because it is
  float parsing (app.py:60). `Balance.StripDollar` models its `$` removal.
- Currency formatting of the balance is left out (app.py:48).
- The display sort by time is left out (app.py:64). Balances are computed
  before it, in table order, which `Ledger.BalancesIgnoreTimes` states.
- Transactions.Frame keeps only the four columns the script reads. Other
  columns appear in the frame but are never looked at.
- Missing values in `date` or `amount` reaching the balance arithmetic are
  not modelled: `Ledger` starts from parsed rows.
