# Job contacts and the SQL filter, modelled in Dafny

The repository has two Python scripts.

`job_contacts.py` records weekly job contacts for an unemployment claim. It
reads a window of two `mm/dd/yyyy hh:mm` bounds from the command line or from
the operator, and normalises both through `strptime`/`strftime`. It then
walks the Outlook inbox messages received in that window. For each message
the operator answers load, skip or quit. A load inserts the message's
date, sender, subject and body into the `JobContacts` table, unless a row
with the same four values is already there. The script commits once and can
then replay the window's rows, in descending order of their dates, until the
operator types `q`. The model orders them by time, as intended (see
Findings).

`sql.py` is a filter. It folds `--colsep`, `--database`, `--encoding`,
`--infile`, `--outfile` and `--quote` over their defaults, and stops with the
syntax message when there is no argument or no database. It reads one SQL
statement from a file or from standard input, runs it, and writes each row
of the result set as quoted values joined by the separator, either to a file
or to the console.

The model is in five modules:

- `Text` (`text.dfy`): `Option` and a character search.
- `Stamps` (`stamps.dfy`): minute timestamps, the calendar, parsing and
  formatting of the `%m/%d/%Y %H:%M` format, and the normalisation of the
  window bounds.
- `Contacts` (`contacts.dfy`): the table as a sequence of rows, the guarded
  insert, the inbox restriction, the review pass as a function of the
  operator's answers, and the replay query.
- `JobContacts` (`table.dfy`): the table as a class whose rows the session
  changes in place. It holds the insert, the review loop, the commit, the
  replay loop and one whole run of the script.
- `SqlFilter` (`sqlfilter.dfy`): the option fold, the start-up checks,
  statement accumulation, the two row writers and one run of the filter.

The operator's input is a sequence of lines, and running out of them is the
`EOFError` of `input()`. The inbox is a sequence of messages. The file
system is a map from names to texts, which the filter reads line by line,
and the database answers a statement through a function parameter.

`strptime` is modelled as CPython implements it for this format:

- month, day, hour and minute take one or two digits, and a day may also be
  a space followed by one digit;
- the year takes exactly four digits;
- the space in the format matches one or more whitespace characters;
- nothing may follow the minutes;
- the fields must form a real date and time in years 1 to 9999.

`strftime` pads the year to four digits.

## Model

| member | source | states |
|---|---|---|
| Contacts.AddIfAbsentEffect | job_contacts.py:18-27 | A record already stored leaves the table unchanged. Otherwise the table grows by exactly that record, appended after the old rows. Either way the record is stored afterwards. |
| Contacts.InsertTwiceStoresOnce | job_contacts.py:21-25 | Inserting the same record twice is the same as inserting it once. When the table had no duplicate keys, it then holds exactly one copy. |
| Contacts.AddIfAbsentKeepsUnique | job_contacts.py:21-25 | The guarded insert keeps a table free of two rows with the same date, sender, subject and body. |
| Contacts.DistinctKeysBothStored | job_contacts.py:21-25 | Two records differing in any of the four columns are both stored after their inserts. When neither was there, the table grows by two. |
| Contacts.CopiesOfUnique | job_contacts.py:21-25 | In a table without duplicate keys, a stored record occurs exactly once. |
| JobContacts.ContactTable.Commit | job_contacts.py:104 | `conn.commit()` makes the rows the session sees the committed rows, and changes no row. |
| JobContacts.ContactTable.Rollback | job_contacts.py:88 | When `input()` raises at the end of the input before the commit, the session's connection goes away and every uncommitted insert is lost. |
| JobContacts.ContactTable.InsertJobContact | job_contacts.py:18-27 | Inserts exactly when no row has the same date, sender, subject and body, and says whether it did. The committed prefix is untouched and uniqueness of keys is preserved. |
| Contacts.RestrictSelects | job_contacts.py:76-77 | The two `Restrict` filters keep exactly the messages received at or after the start and at or before the end. The filtering distributes over concatenation, so the kept messages stay in inbox order. |
| Contacts.RestrictSingleton | job_contacts.py:76-77 | A single message is kept exactly when it was received within the window. Together with the distribution over concatenation, this fixes the filter on every inbox. |
| Contacts.RestrictCount | job_contacts.py:76-77 | A message received within the window is kept as many times as the inbox holds it, and any other message is not kept. |
| Contacts.ReviewWithoutQuit | job_contacts.py:81-101 | Without a quit answer, every message is shown and answered. Exactly the messages answered `l`/`list` go to the guarded insert, in order, and the count is the number of those answers. |
| Contacts.ReviewStopsAtQuit | job_contacts.py:100-101 | The first quit answer ends the pass. The result is the pass over the earlier messages, with the quit message counted as answered. The quit message is not inserted, and later messages and answers play no part. |
| Contacts.QuitKeepsEarlierLoads | job_contacts.py:91-104 | A quit after some loads does not end the pass for lack of input, so the loads answered before it reach the commit: the table is those loads inserted in order, and the count is their number. |
| Contacts.ReviewInputEnds | job_contacts.py:88 | When the answers run out before the messages, with no quit among them, `input()` fails at the next message, after as many messages as there were answers. |
| Contacts.ReviewBounds | job_contacts.py:91-93 | The count is at most the messages answered, which is at most both the messages and the answers. The table only grows, by at most one row per counted load, and its old rows stay first. |
| Contacts.ReviewKeepsUnique | job_contacts.py:91-92 | A review pass keeps the table free of two rows with the same date, sender, subject and body. |
| Contacts.ClassifySpec | job_contacts.py:88-100 | An answer loads exactly when its lowercase is `l` or `list`, skips exactly when it is `s` or `skip`, and quits exactly when it is `q` or `quit`. |
| Contacts.ClassifyIgnoresCase | job_contacts.py:88 | The answer is lowercased before the tests, so lowercasing it first changes nothing. |
| Contacts.AnswerClasses | job_contacts.py:88-100 | Answers are lowercased before the tests: `LIST` loads and `Q` quits, while `load` is neither load, skip nor quit. |
| Contacts.QuitOnThirdOfFive | job_contacts.py:81-101 | With five messages answered load, skip, quit: only the first is inserted, the count is 1, and three messages are shown. |
| Contacts.CountIsAttempts | job_contacts.py:91-93 | Three loads whose first record is already stored count 3 but add only the other two rows, in order. |
| JobContacts.ContactTable.ReviewMessages | job_contacts.py:81-101 | The loop over the messages, with its three sequential tests and `continue`/`break`, leaves the table, count, number answered and end-of-input flag that the review pass defines. |
| Contacts.QueryWindowSpec | job_contacts.py:29-33 | The query yields exactly the stored rows dated within the closed window, ordered newest first. Each such row appears as often as it is stored, and no other row appears. |
| Contacts.WindowCount | job_contacts.py:32 | The `between` selection keeps each in-window row as often as it is stored, and no other row. |
| Contacts.JanuaryReplay | job_contacts.py:29-33 | Rows of 01/01/2024, 01/15/2024 and 02/01/2024 replay for January as the 15th, then the 1st. |
| Contacts.FirstQ | job_contacts.py:41-43 | The position of the first answer that is exactly `q`, or the number of answers when there is none. |
| JobContacts.ContactTable.PrintJobContacts | job_contacts.py:29-43 | Shows the query's rows in order, up to and including the one answered exactly `q`. It reports end of input when the answers run out first. The table is left unchanged. |
| JobContacts.FinishedShowsWindowRows | job_contacts.py:106-109 | A run that finishes reports the review's count and shows a leading part of the window query's rows, each stored and dated in the window. It shows nothing unless the operator answered `y`. |
| JobContacts.ReviewAndReport | job_contacts.py:76-109 | The run ends before the commit exactly when the review runs out of input, and then every insert is lost. Otherwise the committed table is the review's table. The outcome is then what the view prompt and the replay make of the rest of the input: an end of input at the prompt or in the replay, or the rows the replay shows. |
| JobContacts.RunSession | job_contacts.py:46-109 | Bounds come from `argv` when it has more than two entries, otherwise from the first two input lines. Too few lines end the run with nothing changed, and so does an unparsable bound. With both bounds parsed, the run ends before the commit exactly when the review runs out of input, losing every insert. Otherwise it commits the review's table over the restricted inbox, and its outcome is fixed by the rest of the input, as in JobContacts.ReviewAndReport. |
| Stamps.DaysInMonth | job_contacts.py:58-59 | Months have 28 to 31 days, and 29 exactly for February of a Gregorian leap year. |
| Stamps.Parse | job_contacts.py:58-59 | Any text `strptime` accepts yields a valid date and time. |
| Stamps.ParseFormat | job_contacts.py:58-59 | Parsing the formatted text of any valid timestamp gives that timestamp back. |
| Stamps.FormatShape | job_contacts.py:58-59 | The formatted text is 16 characters: zero-padded month, day, year, hour and minute at fixed places, with `/`, `/`, space and `:` between them. |
| Stamps.NormalizeIdempotent | job_contacts.py:58-59 | A normalised bound is in the fixed 16-character shape, and normalising it again changes nothing. |
| Stamps.ParseCanonical | job_contacts.py:58-59 | Text in the fixed shape parses exactly when its fields form a valid timestamp, and then to those fields. |
| Stamps.CanonicalIsFixedPoint | job_contacts.py:58-59 | A parsable text in the fixed shape is its own normalisation. |
| Stamps.LeapDays | job_contacts.py:58-59 | 02/29 exists in 2024 and 2000 but not in 2023 or 1900. |
| Stamps.OutOfRangeFields | job_contacts.py:58-59 | Month 13, April 31, hour 24 and minute 60 are not valid. |
| Stamps.TextWindowAdmitsEarlierYear | job_contacts.py:32 | Compared as `mm/dd/yyyy hh:mm` text, a 01/15/2023 row lies between 01/01/2024 00:00 and 01/31/2024 23:59, though it is outside that window in time. |
| Stamps.TextOrderPutsEarlierYearFirst | job_contacts.py:33 | Compared as text, 12/01/2023 09:00 sorts above 01/15/2024 09:00, so a descending text order lists the older row first. |
| SqlFilter.ReadOptions | sql.py:57-81 | The loop over the options gives the settings that folding the options over the defaults gives. |
| SqlFilter.ApplyOptionSetsOwn | sql.py:67-81 | One option sets only the setting it names. The column separator `\t` becomes a tab, and an unknown option changes nothing. |
| SqlFilter.LastOptionWins | sql.py:67-81 | A setting is given by the last option that names it. |
| SqlFilter.UnnamedSettingKept | sql.py:57-81 | A setting that no option names keeps its starting value. |
| SqlFilter.StartNeedsDatabase | sql.py:52-53 | The filter proceeds exactly when there is an argument and the folded database name is non-empty. That needs some option naming the database. |
| SqlFilter.ConcatSplitLines | sql.py:110-120 | Joining a text's lines, newlines kept, gives the text back, so the statement is the whole input. |
| SqlFilter.SplitLinesEndInNewline | sql.py:113 | Every line but the last ends in its only newline. |
| SqlFilter.ReadStatement | sql.py:110-120 | The accumulation loop gives the lines joined in order. |
| SqlFilter.WriteRows | sql.py:129-134 | The file gets each row's quoted values joined by the separator and ended by a newline, in row order. An empty row writes nothing. |
| SqlFilter.PrintRows | sql.py:148-153 | The console gets the same text as the file: the last value's `print` adds the newline, the others print with an empty end. |
| SqlFilter.RenderRowLength | sql.py:130-134 | A non-empty row's text is its values' lengths, plus two quotes per value, one separator per gap, plus the newline. |
| SqlFilter.RenderingIsAmbiguous | sql.py:132-134 | Nothing is escaped: with quotes off, the single value `a,b` renders like the two values `a` and `b`. |
| SqlFilter.Run | sql.py:52-153 | The syntax message comes exactly when there is no argument or no database. A missing input file stops the run exactly when one is named. Otherwise the input is read line by line, and the statement is the whole text of the input file or of standard input. The output is the rendering of its result set, to a file exactly when `--outfile` is non-empty. |

## Left out

- The Outlook object model is not modelled. The inbox is a sequence of messages whose `ReceivedTime` is a minute timestamp, and Outlook's own evaluation of its `Restrict` filter strings is taken to be a comparison of times.
- The pyodbc connection, cursor, SQL text and parameter binding are not modelled. The `JobContacts` table is a sequence of rows. Column equality is exact string equality: the SQL Server collation (case, trailing spaces) is not modelled, and neither is the `nvarchar(max)` conversion.
- The type of the `DateOfContact` column is not in the repository. Contacts.QueryWindow selects and orders by time, which is the evidently intended behaviour. The Findings row shows what happens if the column holds the `mm/dd/yyyy hh:mm` text that the script inserts. How the server actually compares the column is not modelled.
- Contacts.QueryWindow fixes one order for rows with the same date: a row inserted earlier comes after the rows of that date inserted later. SQL's `order by DateOfContact desc` leaves that order open, so JobContacts.ContactTable.PrintJobContacts promises one of the orders the server may choose.
- All console output is left out: banners, the message lines, the prompts, the count line, the runtime-parameter listing in `sql.py` and the replay's row text. The replay is modelled by the rows it shows.
- JobContacts.RunSession: `conn.close()` and `sys.exit()` are left out. A session that ends with an exception is modelled as rolled back when no commit happened, and as committed otherwise.
- Contacts.Lower lowercases ASCII letters only. Python's `str.lower` also folds other letters, so an answer such as a non-ASCII capital is not modelled.
- Stamps.Parse accepts ASCII digits and ASCII whitespace only, where `strptime`'s regular expressions also accept other Unicode digits and spaces.
- Seconds and sub-minute parts of `ReceivedTime` are not modelled. Messages are timestamped to the minute.
- `getopt` itself is left out: prefix matching of long options, arguments without `=`, errors for unknown options and the positional arguments. The model starts from the parsed `(option, value)` list. `-q` is not among `getopt`'s short options, so only `--quote` can reach that branch; the model keeps the branch as written.
- The `except SystemError` path around `pyodbc.connect`, and the `NameError` its `finally` would raise, are not modelled. Neither are encodings and newline translation of files and the console, or the `IOError` path for the output file.
- The statement without a result set (`Statement Executed`, rows affected, commit) is left out. The model covers statements that return rows.
- Values are strings in the model, so `str()` of SQL values (numbers, dates, `None`) is not modelled.

## Findings

| source | as written | input that shows it | evidently intended | confidence | as-written member | corrected member |
|---|---|---|---|---|---|---|
| job_contacts.py:32-33 | The replay's `between` and `order by` compare `DateOfContact`. If that column is text holding what the script inserts (`mm/dd/yyyy hh:mm`, line 92), rows are compared as text, month first. The column's type is not in the repository; line 37 concatenating it with a string is consistent with text but does not prove it. | Window 01/01/2024 00:00 to 01/31/2024 23:59 with a stored row dated 01/15/2023 09:00: the row is replayed though it is a year early. Rows dated 12/01/2023 and 01/15/2024: the descending order lists the 2023 row first. | Select and order rows by their time. | low to medium (depends on the column type), not executed | Stamps.TextWindowAdmitsEarlierYear, Stamps.TextOrderPutsEarlierYearFirst | Contacts.QueryWindowSpec |
