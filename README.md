# Launch School course 350 scripts, modelled in Dafny

A set of small Ruby scripts from a course repository, modelled as Dafny
values, functions, classes and methods, with the properties their code
promises proved about them:

- **IRC command parsing** (`command.rb`): `Command.parse` cuts an optional
  `:sender ` prefix and an optional trailing `:argument` out of a copy of the
  line. It splits the rest on whitespace into the command name and its middle
  arguments. A prefix with no `!` is a single token, and the swap on line 7
  puts it in `user`. An empty remainder gives a `nil` name. The two `slice!`
  calls that raise are modelled as errors.
- **Chat command dispatch** (`message_response.rb`): the `/\A!(.+?)\s(.+)/`
  match, the allow-list `SUPPORTED_COMMANDS`, and `respond`:
  - `reverse` reverses the text;
  - `method_name` is allowed but is no method, so the rescue answers
    `'Command not found!'`;
  - every other command, `echo` included, answers `nil`.
- **Library data** (`step1.rb`, `step3.rb`):
  - the opening-hours parser `to_h`, with its nested loops;
  - the address formatter with `capitalize_all`;
  - the coordinate tokeniser, up to `to_f`;
  - the GeoJSON Feature and FeatureCollection (RFC 7946 sections 3.2, 3.1.2
    and 3.3) built row by row.

  The two scripts hold the same `Hours`, `Address` and `Coords` code. It is
  modelled once, in `LibraryFields`, and cited at its `step1.rb` lines; the
  same code is at `step3.rb:34-83`.
- **Overdue notices** (`library-books/pdf.rb`):
  - the overdue test, with dates as day numbers and `today` as a parameter;
  - `users_with_overdue_checkouts`;
  - `group_by` user, which keeps first-seen order;
  - the per-book hash with days late and total fine, and `pluralize`;
  - the per-user loop, up to the template context.
- **Spellcheckers** (`spellcheck.rb`, `words.rb`, `words_to_file.rb`): the
  misspelled-word filter and the count-plus-list report. `spellcheck.rb`
  splits its inputs on line feeds. The other two split on the two characters
  backslash and `n`, because `'\n'` is single-quoted. Their output goes
  through `puts`, to standard output or to a freshly truncated file.

Shared modules:

| module | contents |
|---|---|
| `Wrappers` | `Option` and `Result` |
| `Seqs` | `select` as `Filter`, subsequences, distinctness |
| `Text` | Ruby string semantics used by the scripts (see below) |

The Ruby string semantics in `Text` are:

- whitespace `split` and `split(pattern)`, including dropping trailing empty
  strings;
- `strip`, `capitalize`, `downcase`/`upcase` on ASCII;
- `reverse`, `join`;
- decimal formatting.

Regular expressions are written out as the specific scanners they amount
to. The code decides where it differs from its evident intent, and those
places are stated as lemmas:

- a lone sender token goes to `user`;
- `echo` is unreachable;
- `split '\n'` does not split on line feeds.

## Model

| member | source | states |
|---|---|---|
| IrcCommand.SenderEnd | command.rb:25 | where `/\A:.+?\s/` stops: the first whitespace after at least one character that is not a line feed, or no match when there is none |
| IrcCommand.SliceSender | command.rb:23-30 | there are no sender tokens exactly when the line does not start with ':', and then the line is left whole; the only failure is the unterminated prefix; otherwise the tokens are `PrefixTokens`, the text between ':' and the stopping whitespace split on '!' and stripped |
| IrcCommand.StripAll | command.rb:26 | `map &:strip`: same length, each token stripped |
| IrcCommand.LineEnd | command.rb:33 | `\Z` matches at the end, or one place earlier exactly when the line ends in a line feed |
| IrcCommand.TrailingFrom | command.rb:33 | the leftmost position where `/:.+\Z/` matches, or none at all |
| IrcCommand.SliceTrailing | command.rb:32-34 | fails exactly when the line holds ':' but `/:.+\Z/` cannot match; a trailing argument is non-empty and has no line feed; without one the line is unchanged |
| IrcCommand.WorkingLine.constructor | command.rb:5 | the working copy starts as the caller's line |
| IrcCommand.WorkingLine.SliceSenderInfo | command.rb:23-30 | `parse_sender_info!` returns the sender tokens and leaves the rest of the line; on failure the line is untouched |
| IrcCommand.WorkingLine.SliceTrailingArg | command.rb:32-34 | `parse_trailing_arg!` returns the trailing text and leaves the rest; on failure the line is untouched |
| IrcCommand.Command.constructor | command.rb:15-19 | `initialize` sets exactly the four given attributes |
| IrcCommand.ParseCommand | command.rb:4-13 | `Command.parse` gives a fresh record whose attributes are those of `Parse`, or raises as `Parse` does; `Parse` is `parse` on values: slice the sender, swap with `NickUser` when `user` is nil, slice the trailing argument, split the rest on whitespace, append the trailing argument |
| IrcCommand.ParseAttributes | command.rb:4-13 | every parse that succeeds has a `user` whenever it has a `nick`, a one-word name, arguments that are non-empty and one line each, and at most the trailing argument when there is no name |
| IrcCommand.ParseFormat | command.rb:4-13 | round trip: a line laid out as `[:nick[!user] ]name args [:trailing]` parses back to the expected attributes, with a lone sender token in `user` |
| IrcCommand.ExpectedNickUser | command.rb:7 | the expected nick and user are the tokens after the swap when `user` is nil |
| IrcCommand.SliceSenderFormat | command.rb:25-26 | the sender stage on a formatted prefix returns its tokens and leaves the body intact |
| IrcCommand.SliceSingle | command.rb:25-26 | `:token ` slices to the single stripped token |
| IrcCommand.SlicePair | command.rb:25-26 | `:nick!user ` slices to the two stripped tokens |
| IrcCommand.SliceTrailingFormat | command.rb:33 | on `middle :trailing` the trailing text is returned and the middle keeps its spaces |
| IrcCommand.NoPrefixNoSender | command.rb:6-7 | a line that does not start with ':' never fails on the prefix and has neither nick nor user |
| IrcCommand.NoColonLine | command.rb:9 | a line with no ':' is split on whitespace runs: the first word is the name (nil when there is none), the rest are the arguments, none of them empty |
| IrcCommand.UnterminatedSenderFails | command.rb:25 | `parse` raises on the prefix exactly when the line starts with ':' and no whitespace ends the prefix |
| IrcCommand.DanglingColonFails | command.rb:33 | a line whose only ':' is its last character raises |
| ChatDispatch.Echo | message_response.rb:22-24 | `echo` returns the stored text |
| ChatDispatch.Reversed | message_response.rb:26-28 | `reverse` keeps the length, mirrors each index, and reversing it again gives the text |
| ChatDispatch.Respond | message_response.rb:14-20 | answers exactly when the command is in the allow-list; an allowed command found in `Methods` answers what `Invoke` runs for it (`echo` or `reverse`) |
| ChatDispatch.CommandEndFrom | message_response.rb:10 | the leftmost end of the lazy command group, or none |
| ChatDispatch.LineLength | message_response.rb:10 | the greedy text group runs up to the first line feed |
| ChatDispatch.MatchMessage | message_response.rb:10 | fails exactly when the message does not start with '!' or no whitespace can end the command; on success the command is the shortest one, and the text is non-empty and has no line feed |
| ChatDispatch.RespondTo | message_response.rb:9-12 | `respond_to` raises exactly when the match fails |
| ChatDispatch.MatchFormatted | message_response.rb:10 | round trip: `!command text` matches back to the command and the text |
| ChatDispatch.RespondToFormatted | message_response.rb:9-12 | `respond_to` on `!command text` answers what `respond` answers for that command and text |
| ChatDispatch.RespondReverse | message_response.rb:26-28 | `reverse` answers; the answer has the text's length and reverses back to it |
| ChatDispatch.RespondMethodName | message_response.rb:14-20 | the allowed `method_name` is no method, so the rescue answers "Command not found!" |
| ChatDispatch.RespondUnsupported | message_response.rb:16 | a command outside the allow-list answers nil |
| ChatDispatch.EchoNeverAnswers | message_response.rb:22-24 | `echo` exists but is not allowed, so the message `!echo` answers nil |
| ChatDispatch.RespondOutcomes | message_response.rb:14-20 | every answer is either the reversed text or the rescue message |
| ChatDispatch.NoBangFails | message_response.rb:10-11 | a message not starting with '!' raises |
| LibraryFields.Get | step1.rb:20 | hash lookup finds nothing exactly when the key is absent |
| LibraryFields.Put | step1.rb:20 | hash store keeps the key order: an existing key keeps its place, a new key goes last |
| LibraryFields.PutGet | step1.rb:20 | after the store the key holds the new value and every other key its old one |
| LibraryFields.PutWellFormed | step1.rb:20 | storing lower-case text keeps each day unique and lower case |
| LibraryFields.ParseHours | step1.rb:29-31 | `parse_hours`: the pieces around '-', all lower case |
| LibraryFields.ParseHoursJoin | step1.rb:29-31 | round trip: the pieces joined by '-' give the downcased hours back, and no piece holds '-', for hours that do not end in '-' (Ruby's `split` drops trailing empty pieces) |
| LibraryFields.ToH | step1.rb:11-25 | the nested loops compute `HoursTable`, including the error for a group without hours; `HoursTable` cuts the input into `;`-groups (`GroupParts` splits each at ':', `DayKeys` its days at ','), and `Fill` stores each group's hours under its days with `PutDays`, skipping groups `IsClosed` marks as closed |
| LibraryFields.PutDaysGet | step1.rb:19-21 | after a group's inner loop, each listed day holds the group's hours and other days are unchanged |
| LibraryFields.FillGet | step1.rb:15-22 | each day holds the hours of the last non-closed group that lists it |
| LibraryFields.FillFails | step1.rb:16-17 | the loop raises exactly when some group has no hours part |
| LibraryFields.HoursLookup | step1.rb:11-25 | `to_h[day]` is the hours of the last non-closed group listing that day, else nil |
| LibraryFields.HoursWellFormed | step1.rb:11-25 | every day appears once, and days and hours are lower case |
| LibraryFields.HoursFails | step1.rb:11-25 | `to_h` raises exactly when some `;`-group has no `:` hours part |
| LibraryFields.CapitalizeWords | step1.rb:49 | `map(&:capitalize)` capitalises each word |
| LibraryFields.CapitalizeAllWords | step1.rb:48-50 | `capitalize_all` (`CapitalizeAll`) keeps the words and their count, each capitalised |
| LibraryFields.CapitalizeAllIdempotent | step1.rb:48-50 | capitalising twice changes nothing more |
| LibraryFields.CapitalizeAllOneLine | step1.rb:48-50 | a capitalised field is one line |
| LibraryFields.AddressLines | step1.rb:42-44 | `to_s` (`AddressText`) is two lines: the capitalised street, then `CityLine`: city, state and ZIP |
| LibraryFields.RemoveParens | step1.rb:59 | `gsub(/\(\|\)/, '')` leaves no parenthesis and keeps every other character, in order and as often as it occurs |
| LibraryFields.CoordTokensNoParens | step1.rb:58-60 | no token of `CoordTokens` (parentheses removed, split at ', ') holds a parenthesis |
| LibraryFields.CoordRoundTrip | step1.rb:58-60 | round trip: `"(" + tokens joined by ", " + ")"` gives the tokens back |
| LibraryGeoJson.MakeLibrary | step3.rb:7-12 | `Library.new` succeeds exactly when the fields it sends methods to are present and the hours parse; on success the fields are the row's, and a missing HOURS field is the first error |
| LibraryGeoJson.HoursJson | step3.rb:24 | the hours hash becomes one JSON member per day |
| LibraryGeoJson.Strings | step3.rb:19 | a string list becomes a JSON array of the same length holding each string, in order |
| LibraryGeoJson.FeatureShape | step3.rb:14-27 | `FeatureJson` serialises each library as a Point Feature whose coordinates, name, address and hours are its own |
| LibraryGeoJson.HoursJsonMember | step3.rb:24 | looking up a day in the JSON hours finds what the hash holds |
| Seqs.TryMap | step3.rb:89 | `rows.map { Library.new }` (as `Libraries`): one library per row, in row order; fails exactly when some row fails, with the first failing row's error |
| LibraryGeoJson.Features | step3.rb:93 | one Feature per library, in order |
| LibraryGeoJson.BuildCollection | step3.rb:87-96 | the append loop builds `Collection`: the FeatureCollection of `Features(Libraries(rows))`, or the first failing row's error |
| LibraryGeoJson.FirstFailure | step3.rb:89 | when the rows before row i all make libraries and row i does not, `rows.map` raises row i's error |
| LibraryGeoJson.CollectionOk | step3.rb:87-96 | the collection is produced exactly when no row raises |
| LibraryGeoJson.CollectionFeatures | step3.rb:91-94 | the collection holds one Point Feature per row, in row order |
| OverdueNotices.PluralizeReadsBack | library-books/pdf.rb:10-13 | `pluralize` (`Pluralize`) reads back as the quantity, a space, and the noun, plural unless the quantity is 1 |
| OverdueNotices.PluralizeSuffix | library-books/pdf.rb:10-13 | quantity 1 gives "1 noun"; any other quantity ends in 's' |
| OverdueNotices.Overdue | library-books/pdf.rb:32-34 | every selected checkout is overdue (`IsOverdue`: due no later than yesterday) and checked out, and every overdue checkout is selected |
| OverdueNotices.OverdueSelection | library-books/pdf.rb:32-34 | a checkout is selected exactly when it is checked out and due before today |
| OverdueNotices.OverdueIsSubsequence | library-books/pdf.rb:32-34 | selection keeps order, and keeps an overdue checkout as often as it occurs |
| OverdueNotices.UserIds | library-books/pdf.rb:36-38 | one user id per checkout, in order |
| OverdueNotices.UsersWithOverdueCount | library-books/pdf.rb:36-38 | in `UsersWithOverdue`, each user id is listed as often as that user has overdue checkouts |
| OverdueNotices.AddToGroup | library-books/pdf.rb:40 | a checkout joins its user's group at the end, or opens a new last group |
| OverdueNotices.GroupByUser | library-books/pdf.rb:40 | each user heads at most one group |
| OverdueNotices.GroupContents | library-books/pdf.rb:40 | each group is exactly its user's checkouts, in their original order |
| OverdueNotices.GroupKeysAreUsers | library-books/pdf.rb:40 | the group keys are exactly the user ids that occur |
| OverdueNotices.GroupOrder | library-books/pdf.rb:40 | groups come in the order their users first appear |
| OverdueNotices.FindRow | library-books/pdf.rb:47 | `find { id matches }.to_h` is the first matching row, or `{}` exactly when no row matches |
| OverdueNotices.BookHash | library-books/pdf.rb:50-53 | the book's columns, then the due date, days late as today minus due, and the fine as days late times 20 |
| OverdueNotices.OverdueFine | library-books/pdf.rb:52-53 | an overdue book is at least one day late, and its fine is a positive multiple of the daily fine |
| OverdueNotices.UserBooks | library-books/pdf.rb:49-58 | one book hash per checkout of the user, in order |
| OverdueNotices.UserNotice | library-books/pdf.rb:47-65 | one user's context: the found user row, a book hash per checkout, and the pluralised count of them |
| OverdueNotices.Notices | library-books/pdf.rb:44-65 | one context per group, in group order, with the user, the book hashes and the pluralised count |
| OverdueNotices.NoticeCount | library-books/pdf.rb:65 | every book in a notice is at least a day late, and the count line reads back as the user's number of overdue checkouts |
| Spellcheck.SplitLines | spellcheck.rb:1-2 | `split "\n"` gives words with no line feed |
| Spellcheck.SplitLinesJoin | spellcheck.rb:1-2 | round trip: lines joined by line feeds split back into the lines |
| Spellcheck.Misspelled | spellcheck.rb:4 | at most as many words as were checked |
| Spellcheck.MisspelledSpec | spellcheck.rb:4 | a word is reported iff it is checked and not exactly in the dictionary; order and repetitions are kept |
| Spellcheck.MisspelledExtremes | spellcheck.rb:4 | a dictionary holding none of the words reports them all; one holding all of them reports none |
| Spellcheck.Header | spellcheck.rb:7 | the count line holds no line feed |
| Spellcheck.HeaderCount | spellcheck.rb:7 | the count line reads back as "There are ", the count, " misspelled words:" |
| Spellcheck.LinesJoin | spellcheck.rb:8-10 | writing each word plus a line feed is joining the words with line feeds, ending in an empty line |
| Spellcheck.ReportLines | spellcheck.rb:6-11 | errors.txt (`Report`), cut at line feeds, is the count line, each word, then nothing |
| Spellcheck.SpellcheckErrorsLines | spellcheck.rb:1-11 | `SpellcheckErrors`: errors.txt lists, after the count, exactly the checked lines the dictionary lacks |
| Spellcheck.SplitEscapedWhole | words.rb:1-2 | with no backslash in the text, `split '\n'` (`SplitEscaped`) leaves it one word, line feeds included |
| WordsReport.PutsText | words.rb:12 | `puts` ends the output in a line feed, adding one only when the text lacks it |
| WordsReport.PutsAllLines | words.rb:11-13 | for words without line feeds, `puts` of each word (`PutsAll`) adds exactly one line feed after each |
| WordsReport.Output.constructor | words_to_file.rb:10 | a file opened with "w" starts empty |
| WordsReport.Output.Puts | words.rb:12 | `puts` appends the text, with a line feed unless it already ends in one |
| WordsReport.CollectMisspelled | words.rb:4-8 | the accumulation loop gives exactly the words the dictionary lacks, in order |
| WordsReport.PrintedHeader | words.rb:10 | the output starts with the count line |
| WordsReport.PrintedIsReport | words.rb:10-13 | for words without line feeds, the output (`Printed`) is the spellcheck.rb report, line by line |
| WordsReport.PutsReport | words.rb:10-13 | prints the count line, then `puts` of each word |
| WordsReport.PutsEach | words.rb:11-13 | the `each` loop appends `puts` of each word, in order |
| WordsReport.CheckInto | words.rb:1-13 | splits both files on backslash-n, gathers the misspelled words and prints the report |
| WordsReport.Words | words.rb:1-13 | the report is appended to standard output |
| WordsReport.WordsToFile | words_to_file.rb:1-13 | errors.txt is a fresh file holding the report alone |
| WordsReport.WholeFileIsOneWord | words_to_file.rb:1-8 | for files without backslashes, the whole checked file is one word, reported unless it equals the whole dictionary file |

## Left out

- Reading and writing files, `ARGV`, the CSV reader and `to_json` encoding.
  The model starts from the file contents, CSV rows as maps and JSON values.
  It ends at the text written or the JSON value encoded.
- Ruby reflection is modelled as explicit data:
  - `send` in `Command#initialize` becomes the constructor's four assignments;
  - `send` in `MessageResponse#respond` becomes a closed map from method names to behaviours.
- Case mapping and whitespace cover ASCII only. Ruby's Unicode `downcase`, `upcase` and `capitalize` are not modelled.
- LibraryFields.CoordTokens stops at string tokens. The `to_f` conversion (floating point) is not modelled.
- The `p formatted_row` output of `step1.rb` (lines 63-71) is not modelled beyond the field values it prints.
- The `%.2f` money formatting of `library-books/pdf.rb` is not modelled:
  - `format_cence` (lines 15-16) refers to an undefined `cents`;
  - lines 54-55 and 66 call an undefined `format_cents`;
  - line 60 sums `total_fine` over the book rows instead of the user's books.
  As written, the script stops with a NoMethodError at line 54 on the first overdue book, and line 60 would raise as well. `UserBooks`, `UserNotice` and `Notices` therefore describe what the per-user loop is meant to compute, not a run the script completes.
- The unused `checkouts_by_user[3]` (`library-books/pdf.rb` line 42) is not modelled.
- `users.find` and `OpenStruct` are kept as the found row, as a map. `print '.'`, Mustache rendering and PDFKit output are not modelled.
- OverdueNotices: `today` is a parameter, not the fixed date of line 26. Dates are whole day numbers.
- OverdueNotices: a checkout's `user_id`, `book_id` and due date are assumed present. CSV `nil` fields in checkouts.csv are not modelled.
