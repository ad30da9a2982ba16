# LINE_HOLD expense bot — a Dafny model

LINE_HOLD is a LINE chatbot that keeps a household expense book. A user
sends either a query keyword (`合計`, this month's total; `タバコ合計`, this
month's cigarette total) or an entry `日付,場所,用途,金額` (date, location,
purpose, amount) separated by ASCII commas or, when there is no ASCII comma,
by the ideographic comma `、`. A date field `今日` stands for the current
date in Japan Standard Time. Entries of one designated user go to a shared
spreadsheet; every other user has a database table of their own, created
when they follow the bot, and the monthly totals are SQL sums over it.

This project models that behaviour and proves it:

- `Text` — Python's `str.split` on one character and its inverse `join`,
  ASCII lower-casing, white-space trimming.
- `Numbers` — `str(int)`, zero-padded fields, reading digits back.
- `Calendar` — Gregorian dates, `date.replace`, the day before, the month
  range of the totals (which fails in December), `%Y/%m/%d` rendering and
  the database's reading of that text back into a date.
- `Command` — the message grammar: `Parse` classifies lower-cased text into
  a total query, a cigarette-total query, an entry, a missing-fields error
  or an unrecognised message.
- `Ledger` — the per-user tables and the sheet as a value `Store`, with
  pure specifications of follow, insert, append and the monthly totals,
  and the class `Backend` whose methods update those fields in place.
- `Bot` — `handle_message` as a transition `Handle` on the store, and the
  method `HandleMessage` on a `Backend` proved to perform it.

The sender's user id, the current date, the date the process started and
the texts of the spreadsheet cells G3 and J3 at the moment a query reads
them are inputs. An entry's `今日` uses the current date (the handler's own
`datetime.now`), while both totals use the date captured once when the
process started; the model keeps these two dates apart as the code does.
The outcome of a message is either exactly one reply text or a backend
failure after which no reply is sent. The entry branches catch
`ValueError`, which covers two cases: a wrong field count, and a field
holding U+0000, which the database driver refuses with a `ValueError`
while it builds the `INSERT` (main.py:59), before the statement reaches
the database. Both get the missing-fields reply and store nothing. The
uncaught failures are: the user's table does not exist, the database
refuses a date or amount literal, or the month range is computed in
December, where `replace(month=13)` raises.

The code discards the result of `text.replace(' ', '')`, so white space
around the fields survives the split; the model follows the code. The
location and purpose are stored with the white space around them, and a
`今日` with a space next to it is not substituted; the DATE and INT
columns skip white space around the date and the amount.
Follow events create a table for every user, the designated one included.

## Model

| member | source | states |
|---|---|---|
| Text.Split | main.py:144 | one more piece than separators; no piece contains the separator |
| Text.JoinSplit | main.py:144 | re-joining the pieces with the separator gives the text back |
| Text.SplitJoin | main.py:144 | pieces free of the separator, joined and split again, are the same pieces |
| Text.Lower | main.py:125 | lower-casing keeps the length and maps each character by ASCII case folding |
| Text.LowerMatches | main.py:125-135 | for a text without ASCII letters, the lower-cased message equals it exactly when the message does |
| Text.LowerKeepsSeparator | main.py:125-155 | a non-letter separator occurs in the lower-cased text exactly when it occurs in the message |
| Numbers.ParseShow | main.py:134 | the decimal rendering of a natural number reads back as that number |
| Numbers.ParsePadded | main.py:146 | a zero-padded field reads back as its number when it fits the width |
| Numbers.ParseShowInt | main.py:134 | `str(n)` of any integer, sign included, reads back as `n` |
| Calendar.Replace | main.py:66-67 | `replace` gives the same year with the given month and day exactly when that is a valid date, and fails otherwise |
| Calendar.PrevDay | main.py:67 | subtracting one day gives a valid earlier date |
| Calendar.PrevDayIsPredecessor | main.py:67 | no valid date lies strictly between the day before and the date |
| Calendar.MonthRange | main.py:65-67 | the range fails exactly when the month is December (or the date is out of range), and otherwise runs from the first to the last day of the month |
| Calendar.MonthRangeBounds | main.py:65-67 | the range fails exactly in December, and otherwise runs from the first to the last day of the month |
| Calendar.InMonthRange | main.py:65-67 | a valid date lies in the range exactly when it has the same year and month as the query date |
| Calendar.FormatDate | main.py:146 | `%Y/%m/%d` is ten characters: digits with `/` at positions 4 and 7 |
| Calendar.DateOf | main.py:188 | the DATE column reads only a valid date |
| Calendar.FormatDateRoundTrip | main.py:146 | the `%Y/%m/%d` rendering of a date is read back by the DATE column as the same date |
| Command.ResolveDate | main.py:145-146 | `今日` becomes a text the database reads as the current date; any other date text is kept unchanged |
| Command.SplitEntry | main.py:141-158 | unpacking the split gives an entry exactly when the separator occurs three times, with no field holding it, and the missing-fields error otherwise |
| Command.Parse | main.py:129-170 | an entry or a missing-fields error comes exactly from a text holding a separator; an entry has exactly three of the chosen separator |
| Command.Classification | main.py:129-170 | keywords only on exact match; an entry exactly when the chosen separator occurs three times; the missing-fields error for any other non-zero count; unrecognised exactly when neither separator occurs |
| Command.CommaEntry | main.py:141-146 | four comma-free pieces joined by `,` parse to an entry of those pieces in order, only the date substituted |
| Command.IdeographicEntry | main.py:155-160 | the same for `、` when no ASCII comma occurs |
| Command.EntryFields | main.py:141-160 | the fields of an entry, the raw date before substitution, re-joined with the separator give the message, and hold no separator |
| Numbers.ShowInt | main.py:134 | `str(n)` is non-empty, made of digits and a leading `-` exactly for negatives, with no leading zero except `0` itself |
| Ledger.AmountOf | main.py:188 | the INT column reads only values in its 32-bit range |
| Ledger.AmountRoundTrip | main.py:188 | an amount written as `str(n)` is read by the INT column as `n` |
| Ledger.ToRecord | main.py:53-59 | a record is stored exactly when both the date and the amount are literals of their column types; the location and purpose are kept as written |
| Ledger.FollowSpec | main.py:180-191 | afterwards the user has a table, no other table appears, and the sheet is untouched |
| Ledger.InsertSpec | main.py:53-61 | a successful insert needs the user's table, and changes no other table and not the sheet |
| Ledger.AppendSpec | main.py:43-46 | the old rows are kept in place, one new row holds the four fields, and no table changes |
| Ledger.MonthlyTotal | main.py:64-97 | a total fails with the month overflow exactly when the range fails, and otherwise with a missing table exactly when the user has none |
| Ledger.SelectedIsCalendarMonth | main.py:74-77 | the BETWEEN query selects exactly the records of the calendar month of its date |
| Ledger.AmountsInEmpty | main.py:78 | nothing is selected exactly when no record is of that month |
| Ledger.SelectedAppend | main.py:59 | an appended record adds its amount to the selection exactly when it matches |
| Ledger.SqlSumAppend | main.py:74-78 | adding an amount to a SQL sum, where the empty sum NULL plus `x` is `x` |
| Ledger.TotalIsMonthSum | main.py:64-97 | the total (or cigarette total, purpose `タバコ`) is the sum over the month's records and is absent exactly when none exists |
| Ledger.DecemberFails | main.py:67 | in December both totals fail for every user |
| Ledger.NoTableFails | main.py:74-77 | the totals of a user without a table fail |
| Ledger.FollowProperties | main.py:180-191 | follow is idempotent, keeps an existing table and its records, adds an empty one otherwise, touches nothing else |
| Ledger.InsertProperties | main.py:53-61 | an insert fails, in this order, on a U+0000 in any field, without a table, or with a refused literal, and otherwise appends exactly that record to the sender's table only |
| Ledger.FollowKeepsValid | main.py:180-191 | following keeps every stored record typed |
| Ledger.AppendKeepsValid | main.py:43-46 | appending to the sheet keeps every stored record typed |
| Ledger.InsertKeepsValid | main.py:53-61 | a successful insert keeps every stored record typed |
| Ledger.TotalAfterInsert | main.py:53-97 | after an insert, each total whose month contains the record grows by its amount, the others are unchanged |
| Ledger.Backend.constructor | main.py:28-50 | the backend starts with whatever typed tables and rows earlier runs left |
| Ledger.Backend.Follow | main.py:180-191 | the new state is the follow specification of the old, and every record stays typed |
| Ledger.Backend.Insert | main.py:53-61 | either the failure (U+0000, missing table, refused literal) is reported and nothing changes, or the new state is the successful insert; every record stays typed |
| Ledger.Backend.AppendToSheet | main.py:43-46 | the sheet gains exactly one row, the fields in order, and the tables stay typed |
| Bot.ShowTotal | main.py:133-134 | the rendered sum is the shortest decimal form of the sum and reads back as it, and is `None` exactly when there is none |
| Bot.ShowCell | main.py:131-140 | a cell's text is shown as it is, and an empty cell is indistinguishable from one holding `None` |
| Bot.QueryStep | main.py:129-140 | a query changes nothing; the designated user gets the cell's text; any other user gets the rendered database total, or the query fails exactly when that total fails |
| Bot.EntryStep | main.py:141-168 | only a non-designated user's insert can fail; a non-designated user's entry with a U+0000 gets the missing-fields reply; nothing changes unless the added reply is sent |
| Bot.Handle | main.py:122-175 | only an entry answered with the added reply changes the store; a failure leaves it unchanged |
| Bot.HandleMessage | main.py:122-175 | the new backend state and the outcome are those of `Handle` on the old state, and every record stays typed |
| Bot.KeywordsExact | main.py:125-140 | the queries are chosen exactly when the message is the keyword |
| Bot.ParseErrorsChangeNothing | main.py:153-170 | the missing-fields and unrecognised replies leave the whole state unchanged |
| Bot.UnrecognizedReplyDistinct | main.py:170 | the unrecognised reply differs from every other reply |
| Bot.UnrecognizedCondition | main.py:125-170 | the message is unrecognised exactly when it is neither keyword and holds neither separator, in any letter case |
| Bot.OtherwiseNotUnrecognized | main.py:129-168 | every other classification yields some other reply or none |
| Bot.UnrecognizedExactly | main.py:169-170 | the unrecognised reply is sent exactly for a message with neither keyword nor separator |
| Bot.QueriesChangeNothing | main.py:129-140 | queries leave the state unchanged; the designated user is answered from the cells; others fail exactly in December or without a table |
| Bot.OtherUserTotalReply | main.py:129-140 | outside December, a user with a table gets the reply holding the month's SQL sum of their records (purpose `タバコ` only for the cigarette total), `None` when no record is of that month |
| Bot.PrivilegedEntry | main.py:147-148 | the designated user's entry appends one row to the sheet and changes no table |
| Bot.OtherUserEntry | main.py:141-154 | another user's entry with a U+0000 gets the missing-fields reply and changes nothing; otherwise it appends one record to their own table and no other, or fails without any change |
| Bot.RepliedUnlessBackendFails | main.py:122-175 | a message gets exactly one reply unless an uncaught backend failure of a non-designated user occurs: a query in December or without a table, or an entry free of U+0000 without a table or with a refused literal |
| Bot.HandlePreservesValid | main.py:122-175 | handling a message keeps every stored record typed |
| Bot.TodayEntryParses | main.py:125-146 | an entry dated `今日` with a rendered amount parses to the current date, the lower-cased location and purpose, and the amount |
| Bot.TodayEntryStored | main.py:141-151 | a non-designated user's `今日` entry with an accepted amount and no U+0000 stores exactly the record of the current date, the lower-cased location and purpose and the amount, and gets the added reply |
| Bot.TodayEntryCounted | main.py:124-151 | an entry dated `今日` raises that month's total by its amount |
| Bot.NewUserTotalIsNone | main.py:129-134 | right after following, the total query answers `None` |

## Left out

- The Flask routes, the webhook signature check and process startup (main.py:100-118, 206-209): HTTP plumbing and a library call.
- The LINE profile lookup and `reply_message` (main.py:126, 172-175): network calls; the user id is an input and the reply is the outcome.
- Unfollow (main.py:196-202): its `DROP TABLE` passes the user id as a value placeholder for a table name, so its effect is not a defined drop.
- Database connections, commits and network failures, and gspread authentication: foreign libraries.
- Text.Lower: only ASCII letters are folded; Python's `str.lower` also folds other scripts (full-width Latin, Greek, …).
- Calendar.DateOf: only the `Y/M/D` form with a four-digit year is read; the other date formats the database accepts are treated as refused.
- Ledger.AmountOf: only an optional sign and decimal digits are read; underscores and non-decimal literals the database may accept are treated as refused.
- Calendar.FormatDate: years below 1000 are zero-padded; clock dates never fall there.
- The spreadsheet's placement of a row after the last filled cell of column A, and how it interprets the entered text: the row is appended at the end with its four texts.
- The formulas behind the cells G3 and J3: they live in the spreadsheet, outside the bot; the cells' texts are inputs read when a query arrives.
- The 64-bit width of SQL `SUM` over INT: sums are unbounded integers.
- Concurrent requests and the unlocked spreadsheet row count.
