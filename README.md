# EmailAnalyzer in Dafny

A model of `EmailAnalyzer.main`, a small Java program. It reads a log of e-mail lines and
classifies each line with three regular expressions:

- `\[(.*?)\]` gives the recipient;
- `\[\b[A-Za-z0-9._%+-]+@[A-Za-z0-9.-]+\.[A-Za-z]{2,}\b\]` gives the sender;
- `\[\b([A-Za-z]+)\b\]` gives the subject keyword.

It counts the accepted lines, counts domains and keywords in two hash maps, and logs a warning for
each rejected line. Finally it writes a plain-text report.

The model has these modules:

- `Strings` (`strings.dfy`): `String.indexOf` and `String.lastIndexOf` on characters.
- `LineParser` (`line_parser.dfy`): the per-line classifier.
  - All three patterns need only one leftmost scanner, `Search`. A match of any of them starts at
    a '[' and ends at the first ']' after it. A `Shape` says what the text between the brackets
    must be.
  - The email shape is a scanner, `IsEmailAddress`. It is proved equivalent to the pattern's
    grammar, `EmailGrammar`.
  - `ParseLine` is the accept/reject decision and the fields it yields.
- `Aggregator` (`aggregator.dfy`): the reading loop of `main`, as the imperative method `Analyze`.
  It is proved against the functions `Accepted`, `DomainCounts`, `KeywordCounts` and
  `Diagnostics`, which are defined over the whole input.
- `Report` (`report.dfy`): the report's text.
  - `ReportWriter` is a class whose `written` field collects what `BufferedWriter.write` receives.
  - `WriteEntries` loops over a map and takes its keys in an arbitrary order (`:|`), as a
    `HashMap` iteration does. It hands that order back as a ghost result.
  - `WriteReport` is proved to write `JoinLines(ReportLines(...))`. The lemmas prove that this
    text splits back into its lines, and that the counts read back from it.
- `EmailAnalyzer` (`analyzer.dfy`): `main` with its file handling removed. It runs the loop,
  writes the report and logs the success message.
- `ParserExamples` (`parser_examples.dfy`): one concrete line worked through the parser, and
  small cases of the email grammar.

The domain is taken from the recipient. Line 54 of `src/EmailAnalyzer.java` passes `recipient`,
the first bracketed group, to `getEmailDomain`, not `sender`, the email match. The names
`getEmailDomain(String email)` and `sender` suggest that the address was meant. The model follows
the code. `ParserExamples.SampleLineDomainIsRecipient` shows the effect on the line
`Subject [Hello] from [user@example.com]`: the domain counted is "Hello", not "example.com".

`sender` is computed and never used. The model keeps it as a field of `Record`.

## Model

| member | source | states |
|---|---|---|
| Strings.LastIndexOf | src/EmailAnalyzer.java:87 | the result is -1 or a position holding the character, and no later position holds it |
| LineParser.EmailScannerMatchesGrammar | src/EmailAnalyzer.java:43 | the email scanner accepts a text exactly when the email pattern's grammar describes it: word-character start, local part, one '@', domain, last '.', two or more letters |
| LineParser.IsEmailAddress | src/EmailAnalyzer.java:43 | the inside of an email match; `EmailScannerMatchesGrammar` proves it accepts exactly the pattern's grammar |
| LineParser.Search | src/EmailAnalyzer.java:47-51 | `Matcher.find()`; `SearchFindsLeftmost` and `SearchReturnsLeftmost` prove it returns the leftmost match and fails only when there is none |
| LineParser.MatchEndsAtFirstClose | src/EmailAnalyzer.java:42-44 | a match that starts at a '[' ends at the first ']' after it |
| LineParser.SearchFindsLeftmost | src/EmailAnalyzer.java:47-51 | `find()` returns a match with no match starting further left, and fails exactly when the pattern matches nowhere in the line |
| LineParser.SearchReturnsLeftmost | src/EmailAnalyzer.java:47-51 | conversely, the leftmost match is exactly the span `find()` returns |
| LineParser.FirstGroupIsFirstBracketPair | src/EmailAnalyzer.java:53 | on a line without line terminators, `group(1)` of the first pattern is the text between the first '[' and the first ']' after it; it is absent exactly when no '[' has a ']' after it |
| LineParser.GetEmailDomain | src/EmailAnalyzer.java:86-89 | the domain is a suffix of its argument without '@'; it is shorter exactly when the argument holds an '@', and then an '@' stands just before it |
| LineParser.FirstGroup | src/EmailAnalyzer.java:53 | `group(1)` of the first pattern; `FirstGroupIsFirstBracketPair`, `ParseLineRecipient` and `RecipientChars` carry its contract |
| LineParser.FirstEmail | src/EmailAnalyzer.java:52 | `group()` of the email pattern; `ParseLineSender` and `SenderIsEmailAddress` carry its contract |
| LineParser.FirstKeyword | src/EmailAnalyzer.java:55 | `group(1)` of the keyword pattern; `ParseLineKeyword` carries its contract |
| LineParser.ParseLine | src/EmailAnalyzer.java:51-55 | the accept/reject decision and the record; `ParseLineAccepts` and `ParsedRecordValid` carry its contract |
| LineParser.ParseLineAccepts | src/EmailAnalyzer.java:51 | a line is accepted exactly when each of the three patterns matches somewhere in it |
| LineParser.NoBracketRejected | src/EmailAnalyzer.java:51 | a line without '[' is rejected |
| LineParser.ParseLineRecipient | src/EmailAnalyzer.java:53 | the recipient is the inside of the leftmost match of the first pattern |
| LineParser.RecipientChars | src/EmailAnalyzer.java:53 | the recipient holds no ']' and no line terminator |
| LineParser.ParseLineDomain | src/EmailAnalyzer.java:54 | the domain is `getEmailDomain(recipient)`: the part of the recipient after its last '@', which stands just before it (all of the recipient when there is none); it holds no '@', no ']' and no line terminator |
| LineParser.ParseLineSender | src/EmailAnalyzer.java:52 | the sender is the leftmost email match, brackets included |
| LineParser.SenderIsEmailAddress | src/EmailAnalyzer.java:52 | with its brackets stripped, the sender satisfies the email grammar |
| LineParser.ParseLineKeyword | src/EmailAnalyzer.java:55 | the keyword is the inside of the leftmost bracketed run of letters; it is non-empty and all ASCII letters |
| LineParser.ParsedRecordValid | src/EmailAnalyzer.java:51-55 | every record the parser produces is valid: recipient without ']' or terminators, domain taken from the recipient, sender an address, keyword letters |
| LineParser.ValidRecordDomain | src/EmailAnalyzer.java:54 | the domain of a valid record holds no line terminator |
| ParserExamples.SampleLineDomainIsRecipient | src/EmailAnalyzer.java:51-55 | `Subject [Hello] from [user@example.com]` gives recipient "Hello", sender "[user@example.com]", keyword "Hello" and domain "Hello", not "example.com" |
| ParserExamples.UnderscoreStartIsAnAddress | src/EmailAnalyzer.java:43 | the leading `\b` admits a local part that starts with '_' |
| ParserExamples.DotStartIsNotAnAddress | src/EmailAnalyzer.java:43 | the leading `\b` refuses a local part that starts with '.', for the scanner and the grammar alike |
| Aggregator.Bump | src/EmailAnalyzer.java:58-59 | one `put(k, getOrDefault(k, 0) + 1)`; `TallySnoc` and `AcceptedLineEffect` carry its contract |
| Aggregator.Tally | src/EmailAnalyzer.java:58-59 | a map built by one bump per key; `TallyCounts` and `TallySum` carry its contract |
| Aggregator.InvalidLineWarning | src/EmailAnalyzer.java:61 | the WARNING message quoting the line; `RejectedLineEffect` and `Analyze` carry its contract |
| Aggregator.TallySnoc | src/EmailAnalyzer.java:58-59 | counting one more key is the `put(k, getOrDefault(k, 0) + 1)` update |
| Aggregator.TallyCounts | src/EmailAnalyzer.java:58-59 | the map's keys are exactly the keys seen, and each maps to its number of occurrences, at least 1 |
| Aggregator.TallySum | src/EmailAnalyzer.java:58-59 | over any enumeration of its keys, a tally's counts add up to the number of keys counted |
| Aggregator.AcceptedLineEffect | src/EmailAnalyzer.java:57-59 | an accepted line adds one to the total and one to its domain's and its keyword's counts, and logs nothing |
| Aggregator.RejectedLineEffect | src/EmailAnalyzer.java:60-61 | a rejected line changes no counter and appends one warning carrying the line |
| Aggregator.AcceptedMembers | src/EmailAnalyzer.java:51-55 | a record is among the accepted ones exactly when some input line parses to it |
| Aggregator.AcceptedValid | src/EmailAnalyzer.java:51-55 | every accepted record is valid |
| Aggregator.AcceptedOrRejected | src/EmailAnalyzer.java:51-62 | every line is either accepted or rejected |
| Aggregator.Analyze | src/EmailAnalyzer.java:37-63 | the loop ends with the number of accepted lines, the domain and keyword tallies of the accepted records, and one warning per rejected line in input order |
| Aggregator.CountersAgree | src/EmailAnalyzer.java:57-61 | accepted lines plus warnings make up all lines; each map's counts add up to the total; every count is at least 1 |
| Report.NatToString | src/EmailAnalyzer.java:66 | the decimal text of a count: at least one character, digits only, one character exactly below 10 |
| Report.EntryLine | src/EmailAnalyzer.java:70 | `key + ": " + count`; `EntryLineParts` carries its contract |
| Report.ReportLines | src/EmailAnalyzer.java:65-77 | the report line by line; `ReportShape` and `ReportRoundTrip` carry its contract |
| Report.NatToStringRoundTrip | src/EmailAnalyzer.java:66 | the decimal text of a count reads back as the count, with a leading '0' only for zero |
| Report.NatToStringInjective | src/EmailAnalyzer.java:66 | different counts have different decimal texts |
| Report.EntryLineParts | src/EmailAnalyzer.java:70 | an entry line is the key, then ": ", then digits that read back as the count |
| Report.EntryLinesReadBack | src/EmailAnalyzer.java:69-71 | the i-th entry line starts with the i-th key and ends with its count |
| Report.JoinLinesAppend | src/EmailAnalyzer.java:65-77 | writing two groups of lines one after the other gives the joined text of both |
| Report.SplitJoinRoundTrip | src/EmailAnalyzer.java:65-77 | lines without '\n', each written with a '\n' after it, split back into the same lines |
| Report.ReportShape | src/EmailAnalyzer.java:65-77 | the report has six fixed lines plus one per map entry, and its second line is "Total Emails: " followed by digits that read back as the total |
| Report.ReportRoundTrip | src/EmailAnalyzer.java:65-77 | when no key holds '\n', the report text splits back into the report's lines |
| Report.ReportWriter.Write | src/EmailAnalyzer.java:65 | a write appends its text to what was written before |
| Report.WriteEntries | src/EmailAnalyzer.java:69-71 | the entries are written in an order that lists every key exactly once, one line per key |
| Report.ReportText | src/EmailAnalyzer.java:65-77 | the chunks `main` writes, in order, form the report's lines joined by '\n' |
| Report.WriteReport | src/EmailAnalyzer.java:65-77 | the writer receives exactly the report's text for the iteration orders the maps chose, and each order lists its map's keys once |
| EmailAnalyzer.AnalyzeEmails | src/EmailAnalyzer.java:36-79 | the report for the input's counts is written, and the log holds the warnings followed by the success message |
| EmailAnalyzer.CountKeysHaveNoNewline | src/EmailAnalyzer.java:54-59 | no domain key and no keyword key holds a '\n' |
| EmailAnalyzer.ReportReadsBack | src/EmailAnalyzer.java:65-77 | the written report splits back into its lines, its total reads back as the number of accepted lines, and each section's counts add up to that number |

## Left out

- Logger and `FileHandler` set-up (`src/EmailAnalyzer.java:21-32`): not modelled. The messages logged are collected as a sequence of `LogEntry` values; the log file's format is not modelled.
- The `SEVERE` paths for failed I/O (`src/EmailAnalyzer.java:29-31`, `81-83`): not modelled. The file system is outside the model.
- Reading `emails.txt`: the lines arrive as a `seq<string>`, as `readLine` returns them. How `readLine` splits on "\n", "\r" and "\r\n" is not modelled.
- Writing the report file: `ReportWriter` collects the written text. Buffering, flushing, closing and the file names are not modelled.
- `HashMap` iteration order: not fixed. `WriteEntries` picks each next key arbitrarily, and every property is proved for whatever order results.
- Aggregator.Analyze: the counters are unbounded `nat`s. Java's `int` counters would wrap past 2^31 - 1 lines; that is not modelled.
- Characters: Dafny's `char` is a Unicode scalar value, while a Java `String` holds UTF-16 code units. Surrogate pairs are not modelled. The three patterns' classes are ASCII, so only `.` sees non-ASCII characters.
- Regular expressions in general: only these three patterns are modelled, by one scanner. The email pattern's trailing `\b` always holds before a ']' after a letter, so it is not modelled separately.
