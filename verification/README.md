# Dns — a verified model of the domain checker's decision logic

`Dns/Program.cs` is an interactive console tool. It reads domain names one
line at a time.

- A name with at least two dots is treated as a subdomain and gets a DNS
  `ANY` query.
- Any other name with a dot gets a DNS `SOA` query and then a WHOIS query.
  The WHOIS answer is searched for an expiry date, which is parsed and
  compared with the current time.
- `exit`, in any case, ends the session.

This project models the parts of that program that are decided by its own
code and not by the network. These are proved in Dafny:

- **`InputTriage`**: the `do … while` loop of `Main`.
  - `Classify` is the decision made on each line.
  - `RunSession` is the loop as a method over the lines the console delivers.
  - `IsSubdomain` is the dot count test.
- **`Expiry`**: `CheckDomainDetails` after its DNS query.
  - Splitting the WHOIS answer into lines.
  - The `foreach` scan for the first labelled line (`ScanForExpiry`).
  - `Split(':')[1].Trim()` (`LineField`).
  - The two parsers and the expired verdict.
  - The `while (!success)` loop (`CheckDomainDetails`).
- **`Calendar`**: `DateTime` as a tick count over the proleptic Gregorian
  calendar, and the strict `ParseExact(…, "yyyy-MM-ddTHH", InvariantCulture)`.
- **`Text`**: the .NET string operations the program depends on.
  - `Split(char)`, which keeps empty pieces.
  - `Split(new[] {"\r\n", "\r", "\n"}, None)`, which tries `"\r\n"` first.
  - `Trim` with the `Char.IsWhiteSpace` set, `Contains` and `ToLower`.
- **`Wrappers`**: `Option`, which stands for a `null` result.

The parts of the program that are not deterministic become parameters of the
model:

- `DateTime.TryParse` is a function `string -> Option<DateTime>`.
- `DateTime.Now` is a `DateTime`.
- The outcome of the SOA query is a `bool`.
- The WHOIS answer is an `Option<string>`, where `None` means the query threw.

Where the program's behaviour is surprising, the model follows the code as
written:

- The date candidate is the text between the first and the second colon of
  the matched line. It is not everything after the first colon. On the usual
  registry line `Registry Expiry Date: 2025-03-01T00:00:00Z`, both parsers
  therefore see only `2025-03-01T00` (`Expiry.RegistryLineCandidate`). With a
  failing general parse, the strict pattern reads that string back as
  midnight of that day (`Expiry.RegistryLineReport`).
- Only `null` and `""` count as "no valid name". A line of white space has no
  dot, so it is reported as a missing extension
  (`InputTriage.WhiteSpaceIsMissingExtension`).
- When the input stream ends, `Console.ReadLine()` returns `null`. The "no
  valid name" message is printed, and then `domainName.ToLower()` in the loop
  condition throws. `RunSession` ends such a session with `NullInputCrash`.
- An expiry line without a colon makes `Split(':')[1]` throw
  `IndexOutOfRangeException`. The inner `catch` reports it
  (`Expiry.IndexOutOfRangeIff`).
- The verdict is strict: an expiry equal to the current instant is not
  expired.

## Model

| member | source | states |
|---|---|---|
| `InputTriage.RunSession` | Dns/Program.cs:16-70 | the k-th decision is the classification of the k-th line, and no decision before the last is "exit"; the session ends with the farewell exactly when some line is an exit command, and then its last decision is "exit"; otherwise one more iteration runs on `null` and reports "no valid name" |
| `InputTriage.ClassifyCases` | Dns/Program.cs:22-68 | a line gets "no valid name" exactly when it is empty, "exit" exactly when it is an exit command, "missing extension" exactly when it is neither and has no dot, a lookup exactly when it has a dot, and the DNS-records lookup exactly when it has at least two dots |
| `InputTriage.ExitSpellings` | Dns/Program.cs:22 | a line is the exit command exactly when it has four characters, each being the lower- or upper-case letter of "exit" at that position |
| `InputTriage.WhiteSpaceIsMissingExtension` | Dns/Program.cs:22-31 | a non-empty line made only of white space is reported as a missing extension, not as an empty name |
| `InputTriage.SubdomainIffTwoDots` | Dns/Program.cs:211-214 | a name is a subdomain exactly when it holds at least two dots, empty labels included |
| `Text.SplitOnLength` | Dns/Program.cs:213 | `Split(c)` yields exactly one more piece than there are occurrences of `c` |
| `Text.SplitOnJoin` | Dns/Program.cs:213 | no piece of `Split(c)` holds `c`, and joining the pieces with `c` restores the string |
| `Text.SplitOnFirst` | Dns/Program.cs:126 | the first piece is the text before the first separator; the remaining pieces are the split of the text after it; with no separator the split is the string alone |
| `Text.SplitOnSecond` | Dns/Program.cs:126 | when the separator occurs, there are at least two pieces, and the second runs from just after the first separator to the next one or to the end |
| `Text.SplitLinesJoin` | Dns/Program.cs:120 | the lines and the breaks between them join back to the raw answer, and there is one more line than there are breaks |
| `Text.SplitLinesWellFormed` | Dns/Program.cs:120 | no line holds a carriage return or line feed, and every break is "\r\n", "\r" or "\n" |
| `Text.SplitLinesMaximal` | Dns/Program.cs:120 | "\r\n" is always one break: a "\r" break is never followed by an empty line ended by "\n" |
| `Text.TrimIdempotent` | Dns/Program.cs:126 | trimming twice gives the same as trimming once |
| `Text.TrimEmpty` | Dns/Program.cs:126-131 | `Trim` yields the empty string exactly when every character is white space |
| `Text.TrimStart` | Dns/Program.cs:126 | the leading-trim result is a suffix of the input, everything dropped is white space, and the result does not start with white space |
| `Text.TrimEnd` | Dns/Program.cs:126 | the trailing-trim result is a prefix of the input, everything dropped is white space, and the result does not end with white space |
| `Expiry.RegistryLabelRedundant` | Dns/Program.cs:124 | the "Registry Expiry Date" test never matches a line the "Expiry Date" test misses |
| `Expiry.LineFieldBetweenColons` | Dns/Program.cs:126 | for a line with a colon, the field is the trimmed text strictly between the first colon and the second, or the end of the line |
| `Expiry.LineField` | Dns/Program.cs:126 | the field of a matched line is the index error exactly when the line holds no colon |
| `Expiry.ScanForExpiry` | Dns/Program.cs:119-129 | the loop returns the field of the first line carrying one of the three labels, and "none" when no line does |
| `Expiry.NoExpiryLineIff` | Dns/Program.cs:119-129 | the scan finds nothing exactly when no line carries a label |
| `Expiry.FirstMatchWins` | Dns/Program.cs:122-128 | when line k is the first labelled line, the field is that line's field |
| `Expiry.LaterLinesIgnored` | Dns/Program.cs:127 | once a labelled line is present, appending more lines does not change the field |
| `Expiry.EmptyCandidateIff` | Dns/Program.cs:126-131 | a matched line yields an empty candidate exactly when it has a colon and only white space between its first and second colon |
| `Expiry.ParseCandidate` | Dns/Program.cs:133-157 | the standard parse is used exactly when `TryParse` succeeds, and its verdict carries the date `TryParse` returned; the fallback result is the instant of a valid stamp whose pattern text is the candidate; a format error occurs exactly when `TryParse` fails and no valid stamp prints as the candidate; a verdict is "expired" exactly when its instant is strictly before now |
| `Expiry.AttemptNoExpiryInfo` | Dns/Program.cs:131-163 | one pass reports "no expiry info" exactly when the scan found no labelled line or an empty candidate |
| `Expiry.NoExpiryInfoIff` | Dns/Program.cs:119-163 | "no expiry info" is reported exactly when both queries succeeded and either no line carries a label or the first labelled line has a colon with only white space up to the next colon |
| `Expiry.IndexOutOfRangeIff` | Dns/Program.cs:126-171 | the index error is reported exactly when both queries succeeded and the first labelled line has no colon |
| `Expiry.VerdictIsStrict` | Dns/Program.cs:146-157 | every verdict is "expired" exactly when its date is strictly before now, and never when it equals now |
| `Expiry.StandardMeansTryParsed` | Dns/Program.cs:131-157 | one pass gives a standard verdict exactly when the first labelled line yields a non-empty candidate that `TryParse` accepts, and that verdict carries the parsed date, compared strictly with now |
| `Expiry.FallbackMeansExactPattern` | Dns/Program.cs:139-144 | a fallback verdict comes only from a candidate that `TryParse` rejected and that is exactly the pattern text of the reported date |
| `Expiry.CheckDomainDetails` | Dns/Program.cs:77-181 | the retry loop runs its body once, making one WHOIS attempt when the SOA query succeeded and none otherwise, and its report is the details report of the inputs |
| `Expiry.FieldOfLabelledLine` | Dns/Program.cs:126 | for a line "key:middle" followed by nothing or by ":…", with no colon in key or middle, the field is the trimmed middle |
| `Expiry.TrimPaddedDate` | Dns/Program.cs:126 | white space before a pattern date is trimmed away and the date itself is kept |
| `Expiry.FormatHasNoColon` | Dns/Program.cs:126 | the pattern text of a stamp holds no colon |
| `Expiry.RegistryLabelLine` | Dns/Program.cs:124 | a line starting with "Registry Expiry Date" is an expiry line, and the label holds no colon |
| `Expiry.RegistryLineCandidate` | Dns/Program.cs:124-126 | on "Registry Expiry Date: <yyyy-MM-ddTHH>:<rest>" the candidate is exactly "<yyyy-MM-ddTHH>", because the time's own colon cuts the field |
| `Expiry.RegistryLineReport` | Dns/Program.cs:126-157 | when such a line is the first labelled line and `TryParse` fails, the report is the fallback verdict for that hour, compared with now |
| `Calendar.ParseExact` | Dns/Program.cs:141 | a successful strict parse yields a valid stamp whose pattern text is the input |
| `Calendar.ParseFormat` | Dns/Program.cs:141 | round trip: every valid stamp printed with "yyyy-MM-ddTHH" parses back to itself |
| `Calendar.ParseExactFails` | Dns/Program.cs:141 | the strict parse fails exactly on strings that are not the pattern text of any valid stamp |
| `Calendar.FormatOfParsed` | Dns/Program.cs:141 | the fields read from a string of the pattern's shape print back to that string |
| `Calendar.DaysInMonth` | Dns/Program.cs:141 | February has 29 days exactly in leap years and 28 otherwise; April, June, September and November have 30; every other month has 31 |
| `Calendar.DaysToYearStep` | Dns/Program.cs:141 | the closed-form day count of consecutive years differs by 366 in leap years and by 365 otherwise |
| `Calendar.DaysToYearMonotone` | Dns/Program.cs:148 | the day count grows by at least 365 a year |
| `Calendar.DayNumberOrder` | Dns/Program.cs:148 | an earlier calendar date has a smaller day number |
| `Calendar.StampTicksOrder` | Dns/Program.cs:148 | one stamp has fewer ticks than another exactly when it is chronologically earlier |
| `Calendar.StampTicksInjective` | Dns/Program.cs:141 | two valid stamps with the same ticks are the same stamp |
| `Calendar.ExpiredIffEarlier` | Dns/Program.cs:146-157 | for two dates, the expired verdict holds exactly when the expiry is chronologically earlier than now, and never for the same instant |
| `InputTriage.Classify` | Dns/Program.cs:22-68 | the decision of one iteration on a non-null line, in the order of the source's branches; what each outcome means is stated by `InputTriage.ClassifyCases` |
| `InputTriage.IsExitCommand` | Dns/Program.cs:22 | `ToLower() == "exit"`; the spellings it accepts are stated by `InputTriage.ExitSpellings` |
| `InputTriage.IsSubdomain` | Dns/Program.cs:211-214 | more than two pieces after splitting on '.'; stated as "at least two dots" by `InputTriage.SubdomainIffTwoDots` |
| `Text.SplitOn` | Dns/Program.cs:213 | `Split(char)` yields at least one piece; its pieces are characterised by `Text.SplitOnJoin`, `Text.SplitOnLength`, `Text.SplitOnFirst` and `Text.SplitOnSecond` |
| `Text.SplitLines` | Dns/Program.cs:120 | the line split yields at least one line; it is characterised by `Text.SplitLinesJoin`, `Text.SplitLinesWellFormed` and `Text.SplitLinesMaximal` |
| `Text.Trim` | Dns/Program.cs:126 | the result neither starts nor ends with white space; what it keeps is stated by `Text.TrimStart`, `Text.TrimEnd` and `Text.TrimEmpty` |
| `Text.ToLower` | Dns/Program.cs:22 | same length as the input, each character lower-cased on its own (ASCII letters only, see "Left out") |
| `Expiry.IsExpiryLine` | Dns/Program.cs:124 | a line holding one of the three labels; `Expiry.RegistryLabelRedundant` shows the third test adds nothing |
| `Expiry.FirstExpiryIndex` | Dns/Program.cs:122-128 | the index of the first labelled line: no earlier line carries a label, and the one at the index does, or it is the number of lines when none does |
| `Expiry.FirstExpiryField` | Dns/Program.cs:119-129 | the field of the first labelled line, the specification of `Expiry.ScanForExpiry`; stated by `Expiry.NoExpiryLineIff`, `Expiry.FirstMatchWins` and `Expiry.LaterLinesIgnored` |
| `Expiry.AttemptReport` | Dns/Program.cs:117-163 | the report of one pass of the inner `try`; its outcomes are stated by `Expiry.AttemptNoExpiryInfo`, `Expiry.StandardMeansTryParsed` and `Expiry.FallbackMeansExactPattern` |
| `Expiry.DetailsReport` | Dns/Program.cs:77-181 | the report of the whole operation; its outcomes are stated by `Expiry.NoExpiryInfoIff`, `Expiry.IndexOutOfRangeIff` and `Expiry.VerdictIsStrict` |
| `Calendar.StampTicks` | Dns/Program.cs:141 | the tick count of a valid stamp lies within `DateTime`'s range; its order is stated by `Calendar.StampTicksOrder` and `Calendar.StampTicksInjective` |
| `Calendar.ToDateTime` | Dns/Program.cs:141 | the instant a parsed stamp denotes; its order is stated by `Calendar.ExpiredIffEarlier` |
| `Calendar.IsExpired` | Dns/Program.cs:148 | `expiryDate < currentDate` on ticks; stated against the calendar by `Calendar.ExpiredIffEarlier` |

## Left out

- The DNS `SOA` and `ANY` queries, and the printing of their records: these are network I/O. The SOA query is modelled only as a succeed/fail flag.
- The WHOIS query: network I/O. Its answer is a parameter, with `None` for an exception.
- `DateTime.TryParse`: culture-dependent and open-ended. It is a parameter of `ParseCandidate`: the model proves which path its outcome selects and that a standard verdict carries the date it returned, but nothing about which strings it accepts.
- `DateTime.Now`: a clock. It is a parameter.
- `DateTimeKind` is ignored: `<` on `DateTime` compares ticks only, which is what the model does.
- The loading animation thread and its cancellation: console output only, with no effect on any decision.
- The one-minute `Task.WhenAny` race in `Main`: it only prints a notice and then awaits the same task, so the result does not depend on it.
- Console colours, prompts and message texts, including `ex.Message`: output only. The model reports which message is chosen.
- An exception thrown while printing SOA records is not distinguished from a failed SOA query: both reach the same outer `catch`.
- `Text.ToLower`: only 'A'..'Z' are mapped. The current culture's full Unicode mapping is not modelled; for example, under tr-TR 'I' maps to a dotless 'ı'. As a result, `InputTriage.ExitSpellings` holds for the invariant ASCII mapping.
- Strings are sequences of Unicode scalar values, not UTF-16 code units. No character the program tests for lies outside the Basic Multilingual Plane.
- `InputTriage.RunSession`: the console is a finite sequence of lines followed by end of input. An endless interactive session is not modelled.
