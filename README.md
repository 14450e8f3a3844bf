# ip_sniffer in Dafny

ip_sniffer is a command-line port scanner written in TypeScript: `src/index.ts`. The main process does three things:

- it validates the argument list: a target IPv4 or IPv6 address and an optional worker count given with `-j`;
- it forks that many workers;
- it collects what the workers report.

Worker `i` of `n` probes ports `i + 1, i + 1 + n, i + 1 + 2n, …` for as long as `n < 65535 - port`. It sends each open port to the coordinator, then sends `"done"`. The coordinator counts the `"done"` messages and collects the ports. When every worker has finished, it sorts the ports, prints `\n\nopen ports\n` followed by one line per port, and exits.

This project models that program and proves properties of the model.

- `wrappers.dfy` (`Wrappers`): `Option` and `Result`.
- `text.dfy` (`Text`): decimal digits, decimal numerals and `String.prototype.includes`.
- `parse_int.dfy` (`IntParsing`): `parseInt(s, 10)`. It skips JavaScript white space, reads an optional sign and the longest digit prefix. `NaN` is `None`.
- `ip_pattern.dfy` (`IpPattern`): `flag.match(IP_REGEXP)[0]`, as the backtracking regular-expression engine computes it.
  - The pattern's `^` binds only to the IPv4 alternative, and its `$` binds only to the IPv6 alternative.
  - So a match is a dotted quad at the start of the text, optionally led by a single `.`. Each octet is tried at 3, 2 and then 1 characters.
  - Failing that, a match is the leftmost suffix made of eight lower-case hexadecimal groups.
- `arguments.dfy` (`Arguments`): `getArguments`. It returns the validated configuration or the error thrown. The error is an `Error` with its exact message, or the `TypeError` raised when `-j N` is given without an address. The cases of `src/index.test.ts` are proved as lemmas.
- `worker.dfy` (`Worker`): `scan`, as a `while` loop over a set of open ports. The set stands for the prober's verdicts. The method returns the sequence of messages the worker sends.
- `report.dfy` (`Report`): `printReport`.
  - It sorts the `result` array in place, by insertion.
  - It writes the report text.
  - A reader function parses the report back into the port list.
- `coordinator.dfy` (`Coordinator`): the message handler, as a class with the fields `finished` and `result`, and with the printed output and the exit flag as state. `Finalization` specifies the message at which the report is printed.
- `scanner.dfy` (`Scanner`): `main`.
  - It forks the workers and delivers their messages in an arbitrary interleaving. The interleaving is a schedule: the sequence of workers whose next message arrives next.
  - It shows that, for every schedule, the coordinator prints exactly once, on the last message.
  - What it prints is every open port in `1 .. 65534 - threads`, ascending, each once.

## Model

| member | source | states |
|---|---|---|
| Arguments.GetArguments | src/index.ts:7-52 | getArguments, branch for branch: the count checks, the address match of the flag, the help flags, the "-j" count and address, and "Invalid syntax."; its outcomes are stated by the lemmas below |
| Arguments.ArgumentCountOutcomes | src/index.ts:8-12 | fewer than 3 arguments throw "Not enough arguments."; more than 5 throw "Too many arguments." |
| Arguments.AddressFlagOutcome | src/index.ts:14-21 | when the first user argument matches the address pattern, the result is that match with 4 threads |
| Arguments.HelpFlagOutcome | src/index.ts:23-30 | an unmatched flag containing "-h" throws "help" with exactly 3 arguments, and "Too many arguments." otherwise |
| Text.Contains | src/index.ts:23-31 | `String.prototype.includes`: sub occurs at some position of s; ContainsPrefix states that a text containing sub contains every prefix of sub |
| Arguments.AsksForHelp | src/index.ts:23-29 | `flag.includes("-h")` or `flag.includes("-help")`; AsksForHelpIsDashH states that it holds exactly when the flag contains "-h" |
| Arguments.AsksForHelpIsDashH | src/index.ts:23 | testing for "-help" adds nothing: a flag asks for help exactly when it contains "-h" |
| Arguments.HelpOutcome | src/index.ts:23-28 | "help" is thrown if and only if there are exactly 3 arguments and the unmatched flag contains "-h" |
| Arguments.ThreadFlagOutcomes | src/index.ts:31-47 | for a "-j" flag, each outcome holds exactly when its condition does. A missing or falsy (NaN or 0) count fails the thread number. A usable count with no fifth argument is the TypeError. An unmatched fifth argument is a bad address. Otherwise the result is a success |
| Arguments.Falsy | src/index.ts:34 | `!threads` for the value of parseInt: NaN or 0; ThreadFlagOutcomes states that exactly these counts throw "Failed to parse thread number." |
| Arguments.UndefinedIsNaN | src/index.ts:32 | with three arguments, `parseInt(undefined)` reads the text "undefined", which is NaN |
| Arguments.InvalidSyntaxOutcome | src/index.ts:48-50 | "Invalid syntax." is thrown if and only if the flag is unmatched and contains neither "-h" nor "-j" |
| Arguments.SuccessOutcome | src/index.ts:7-52 | every success has 3 to 5 arguments and a nonzero thread count. When the flag is not an address, there are 5 arguments, the flag contains "-j", the count is `parseInt(args[3])` and the address is the match of `args[4]` |
| Arguments.ReturnedAddressMatched | src/index.ts:19 | the returned address is an IPv4 text at the start of the matched argument, or an IPv6 text ending it |
| Arguments.NotEnoughArgumentsCase | src/index.test.ts:4-8 | the two-argument list throws "Not enough arguments." |
| Arguments.TooManyArgumentsCases | src/index.test.ts:10-29 | the six-argument list, "-h 10" and "-help 10" all throw "Too many arguments." |
| Arguments.HelpCase | src/index.test.ts:31-35 | "-h" alone throws "help" |
| Arguments.InvalidSyntaxCase | src/index.test.ts:37-41 | "-l" throws "Invalid syntax." |
| Arguments.BadThreadNumberCase | src/index.test.ts:43-47 | "-j none" throws "Failed to parse thread number." |
| Arguments.BadIpv4AddressCase | src/index.test.ts:49-56 | "-j 10 192.0..42" throws the bad-address error |
| Arguments.BadIpv6AddressCase | src/index.test.ts:49-56 | "-j 10" with the upper-case, letter-O IPv6 text throws the bad-address error |
| Arguments.NegativeThreadCountAccepted | src/index.ts:32-47 | "-j -3 1.2.3.4" is accepted with -3 threads: only 0 and NaN are refused |
| Arguments.GoodAddressAfterCount | src/index.ts:31-47 | "-j count addr" with a nonzero numeric count and a matching address succeeds with that count and match |
| IntParsing.ParseSigned | src/index.ts:32 | after the white space, an optional sign is read and the digits after it are negated for "-"; the result is NaN exactly when no digit follows the sign; ParseSignedOfDigits gives its value for every sign |
| IntParsing.ParseInt | src/index.ts:32 | parseInt is NaN exactly when, after the leading white space and an optional sign, no digit follows; ParseIntOfDigits gives its value otherwise |
| IntParsing.ParseDigitsOfDigits | src/index.ts:32 | a run of digits followed by a non-digit or nothing is read as the value of the whole run, leading zeros included |
| IntParsing.ParseSignedOfDigits | src/index.ts:32 | no sign, "+" or "-" before a run of digits that ends at a non-digit or the end gives the digits' value, negated only for "-" ("+10" is 10, "007" is 7) |
| IntParsing.ParseIntOfDigits | src/index.ts:32 | parseInt of any white space, an optional sign and a digit run ending at a non-digit or the end is the signed value of the run |
| Text.DigitsValueZero | src/index.ts:32-34 | a digit run is worth 0 exactly when every digit is "0" |
| Arguments.FalsyCount | src/index.ts:32-34 | a count of white space, an optional sign and digits is refused by `!threads` exactly when all its digits are "0" ("0", "-00", "+000") |
| IntParsing.IsJsWhitespace | src/index.ts:32 | the white space and line terminators parseInt skips; TrimStartRemovesWhitespace and ParseIntSkipsWhitespace state that exactly these are skipped |
| IntParsing.TrimStart | src/index.ts:32 | the trimmed text is a suffix of the input, and it does not start with white space |
| IntParsing.TrimStartRemovesWhitespace | src/index.ts:32 | everything trimmed off is white space |
| IntParsing.ParseIntSkipsWhitespace | src/index.ts:32 | leading white space does not change the value parsed |
| IntParsing.ParseIntOfNumeral | src/index.ts:32 | a decimal numeral followed by a non-digit parses to its value |
| IntParsing.ParseIntOfNegativeNumeral | src/index.ts:32 | "-" followed by a numeral parses to the negated value |
| IntParsing.ParseIntOfNonNumeric | src/index.ts:32 | a text starting with anything other than white space, a sign or a digit is NaN |
| Text.DigitsValueOfDecimal | src/index.ts:105 | reading the decimal text of n as digits gives n back |
| IpPattern.TryOctet | src/index.ts:5 | the backtracking search for n dot-separated octets, trying each octet longest first; stated by TryOctetSound and TryOctetComplete |
| IpPattern.Ipv4Prefix | src/index.ts:5 | the IPv4 alternative at position 0: `^` before `\.`; stated by Ipv4PrefixSound and Ipv4PrefixComplete |
| IpPattern.TryOctetComplete | src/index.ts:5 | if the text from i on starts with n dotted octets, the search succeeds and ends no earlier than they do |
| IpPattern.TryOctetSound | src/index.ts:5 | whatever the backtracking IPv4 search returns ends n dot-separated octets |
| IpPattern.Ipv4PrefixSound | src/index.ts:5 | the IPv4 alternative only matches a prefix that is an IPv4 text |
| IpPattern.Ipv4PrefixComplete | src/index.ts:5 | if some prefix is an IPv4 text, the IPv4 alternative matches (backtracking loses no match) |
| IpPattern.Ipv6Start | src/index.ts:5 | the leftmost position at which the IPv6 alternative matches through to the end (`$`); stated by Ipv6StartFound, Ipv6StartNone and Ipv6StartComplete |
| IpPattern.IpMatch | src/index.ts:5-19 | `match(IP_REGEXP)[0]`: the IPv4 alternative at position 0, else the leftmost IPv6 suffix, else no match; stated by IpMatchSound, Ipv4Branch and Ipv6Branch |
| IpPattern.Ipv6StartFound | src/index.ts:5 | the IPv6 position found starts an IPv6 suffix, and no earlier position does |
| IpPattern.Ipv6StartNone | src/index.ts:5 | when no IPv6 position is found, no suffix is an IPv6 text |
| IpPattern.Ipv6StartComplete | src/index.ts:5 | any IPv6 suffix is found, at its position or earlier |
| IpPattern.IpMatchSound | src/index.ts:5-19 | every match is an IPv4 text at the start or an IPv6 text at the end of the input |
| IpPattern.Ipv4Branch | src/index.ts:5-19 | when some prefix is an IPv4 text, the match exists, is an IPv4 prefix, and is the longest IPv4 prefix |
| IpPattern.Ipv4WinsOverIpv6 | src/index.ts:5-19 | "1.2.3.4a:b:c:d:e:f:1:2" is matched as "1.2.3.4": the IPv4 alternative at the start wins over the eight IPv6 groups that end the text |
| IpPattern.LongestLastOctet | src/index.ts:5-19 | "1.2.3.456" is matched as "1.2.3.45": the last octet is cut to its longest valid length |
| IpPattern.Ipv6Branch | src/index.ts:5-19 | with no IPv4 prefix, the input matches if and only if some suffix is an IPv6 text, and the match is the leftmost such suffix |
| IpPattern.DottedQuadMatched | src/index.ts:5-19 | any dotted quad of octets below 256, written without leading zeros and not followed by a digit, is matched exactly |
| IpPattern.Ipv6TextMatched | src/index.ts:5-19 | every full IPv6 text is matched whole |
| IpPattern.Ipv6HasNoIpv4Prefix | src/index.ts:5 | no prefix of an IPv6 text is an IPv4 text, so the two alternatives never compete |
| IpPattern.ShortTextUnmatched | src/index.ts:5-15 | a text shorter than 15 characters that starts with neither a digit nor '.' never matches |
| IpPattern.NoIpv6AroundBadCharacter | src/index.ts:5 | a character that is neither lower-case hex nor ':', followed by fewer than 7 colons, rules out every IPv6 suffix |
| IpPattern.HexGroupsColons | src/index.ts:5 | n hex groups contain exactly n - 1 colons |
| Worker.Probed | src/index.ts:85-96 | the ports the loop visits; stated by ProbedProgression, ProbedMembers and ProbedAscending |
| Worker.Scan | src/index.ts:84-99 | the messages sent are the open ports among startPort + 1, + numThreads, … while numThreads < MAX - port, in probing order, followed by "done" |
| Worker.ProbedProgression | src/index.ts:85-96 | with first port q (q = startPort + 1 for a worker), the k-th port probed is q + k·n; all are below MAX - n, and the next would not be |
| Worker.ProbedMembers | src/index.ts:85-96 | with first port q (q = startPort + 1 for a worker), a port p is probed exactly when q ≤ p < MAX - n and p ≡ q modulo n |
| Worker.WorkerSends | src/index.ts:84-99 | a worker sends only port messages and then exactly one final "done". Its ports, strictly ascending, are exactly the open ports among those it probes |
| Worker.ReportsContents | src/index.ts:88-93 | only probed open ports are reported, every probed open port is reported, in order, and none is "done" |
| Worker.PortProbedOnce | src/index.ts:84-118 | each port 1 ≤ p < MAX - n is probed by worker (p - 1) mod n and by no other |
| Worker.PortsNeverProbed | src/index.ts:84-118 | ports outside [1, MAX - n) are probed by no worker |
| Report.SortInPlace | src/index.ts:102 | the array ends sorted and a permutation of its old contents |
| Report.SortedPorts | src/index.ts:102 | the sorted copy is sorted and has the same elements |
| Report.SortedUnique | src/index.ts:102 | two sorted sequences with the same elements are equal, so sorting by any method gives this result |
| Report.Insert | src/index.ts:102 | insertion into a sorted sequence is sorted, adds exactly that element and starts with the smaller head |
| Report.PrintReport | src/index.ts:101-107 | the array becomes the sorted ports, and the text is the header plus one decimal line per port in that order |
| Report.WriteLines | src/index.ts:104-105 | the loop writes the header followed by the lines of the array's ports |
| Text.NumberText | src/index.ts:105 | `${port}`: the decimal text, with a leading "-" exactly for negative numbers; DigitsValueOfDecimal and ReportRoundTrip state that it reads back as the number |
| Report.Line | src/index.ts:105 | `${port}\n`; ReadPortLine states that the line reads back as its port |
| Report.ReportText | src/index.ts:104-105 | the header `\n\nopen ports\n` followed by one line per port; ReportRoundTrip states that the text reads back as the port list |
| Report.ReportRoundTrip | src/index.ts:104-105 | reading the printed report back gives exactly the port list printed |
| Coordinator.Coordinator.Receive | src/index.ts:120-130 | "done" increments `finished`, and a port is appended to `result`. Once `finished === threads`, the result is sorted, the report is appended to the output and the process exits; otherwise nothing else changes |
| Coordinator.Coordinator.Finalize | src/index.ts:127-129 | `result` is sorted in place, the report of it is written and the process exits |
| Coordinator.Run | src/index.ts:111-130 | starting from the constructor's state (`finished = 0`, `result = []`) and fed messages in order, the coordinator handles messages up to the finalization point and prints the sorted ports received by then; it prints nothing when that point never comes |
| Coordinator.FinalizationFound | src/index.ts:127 | the finalization point is the first prefix holding `threads` "done" messages |
| Coordinator.FinalizationIs | src/index.ts:127 | conversely, the first prefix reaching `threads` is the finalization point |
| Coordinator.FinalizationNever | src/index.ts:127 | if no prefix reaches `threads`, the report is never printed |
| Coordinator.FinalizesOnLastDone | src/index.ts:121-129 | with threads ≥ 1 the report is printed if and only if at least `threads` "done" messages arrive, and it is printed on a "done" |
| Coordinator.FinalizesAtEnd | src/index.ts:121-129 | when the last message is the threads-th "done", the report is printed on the last message |
| Scanner.ForkWorkers | src/index.ts:117-118 | worker i is forked with startPort i and stride threads, and sends what scan sends |
| Scanner.Deliver | src/index.ts:117-130 | the order in which the workers' messages reach the handler, chosen by a schedule; stated by DeliverInterleaves, InterleavingDelivered and DeliverPermutes |
| Scanner.DeliverInterleaves | src/index.ts:117-130 | every schedule delivers the messages in an order that keeps each worker's own order |
| Scanner.InterleavingDelivered | src/index.ts:117-130 | every order that keeps each worker's own order is delivered by some schedule |
| Scanner.DeliverPermutes | src/index.ts:117-130 | any interleaving delivers exactly the workers' messages, only reordered |
| Scanner.WorkersCounts | src/index.ts:84-118 | the workers together send `threads` "done" messages and each open port in [1, MAX - threads) exactly once |
| Scanner.DeliveredShape | src/index.ts:117-130 | every interleaving ends with a "done" and holds `threads` of them |
| Scanner.DeliveredReport | src/index.ts:109-131 | for every interleaving, the report is printed on the last message, and its ports are the open ports in [1, MAX - threads), ascending |
| Scanner.Sniff | src/index.ts:109-139 | a help request prints nothing; any other error prints "Problem parsing arguments " and its message; a success with a positive thread count prints the report of the expected ports, whatever the interleaving |

## Left out

- isOpen (`src/index.ts:54-79`): the TCP connection attempt, its 2-second timeout and its error events are replaced by a set of open ports. The set is the prober's verdict on each port. Timing, and a port that gives different answers on different probes, are not modelled.
- sendMessage and `cluster.fork` (`src/index.ts:81-82`, `117-118`): the channel between processes is reduced to message sequences delivered in an arbitrary interleaving. Each worker's own messages keep their order. A lost or duplicated message is not modelled.
- The progress characters `*` and `.` that `scan` writes to standard output, and the usage text printed before "help" is thrown: these are output only, and nothing depends on them.
- `process.exit`: it is a flag. After it, the coordinator handles no further message, hence `Coordinator.Coordinator.Receive` requires that the process has not exited.
- The worker branch of `main` (`src/index.ts:140-146`), which reads `startPort`, `host` and `numThreads` from the environment and parses them: `Scanner.ForkWorkers` calls `Worker.Scan` with those values directly.
- `bin/index.js` is not part of this model.
- Numbers are unbounded integers. JavaScript doubles lose precision for thread counts beyond 2^53, and `parseInt` of a numeral too long for a double is not modelled.
- Strings are sequences of Unicode scalar values, not of UTF-16 code units, so characters outside the Basic Multilingual Plane count as one character each.
- The engine's `TypeError` text for `args[4].match` on a missing argument: `Scanner.Sniff` takes it as a parameter.
- `Array.prototype.sort` with the comparator `a - b` is modelled by an insertion sort. `Report.SortedUnique` shows that every correct sort gives the same array.
- Worker.Scan: requires `numThreads >= 1`. With a stride of 0 or less the source's loop never ends. `main` only forks workers for a count of 1 or more.
- The `result` array of the handler is a sequence field of `Coordinator.Coordinator`. `Coordinator.Coordinator.Finalize` copies it into a fresh array that stands for it, sorts that array in place and stores its contents back, so no other reference to the array is modelled.
- With a negative thread count the fork loop forks no worker. Nothing is then pending in the main process, so it prints nothing and ends with exit code 0 once `main` returns. `Scanner.Sniff` states that nothing is printed; the exit code is not modelled.

## Notes on the pattern

- The IPv4 alternative's `(?:^|\.)` accepts a leading `.`, so ".1.2.3.4" is matched whole.
- The IPv4 alternative only has to match a prefix, so "1.2.3.4.5" yields "1.2.3.4".
- The IPv6 alternative only has to match a suffix. When no prefix of the text is an IPv4 text, a text with a suffix of eight lower-case hex groups is accepted, and the match is the leftmost such suffix. When some prefix is an IPv4 text, that alternative wins: "1.2.3.4a:b:c:d:e:f:1:2" yields "1.2.3.4" (`IpPattern.Ipv4WinsOverIpv6`).
- A thread count is rejected only when `parseInt` gives 0 or NaN, so negative counts are accepted (`Arguments.NegativeThreadCountAccepted`).
