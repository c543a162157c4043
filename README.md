# TCP connection exporter, modelled in Dafny

The exporter samples the TCP connection table once per tick by running `netstat -tan`. It counts the connections whose remote port is the monitored port (`CONSUL_PORT`, default 8500) and whose state is not `TIME_WAIT`. It then writes the count as a three-line Prometheus text-exposition fragment. When `netstat` cannot be run, the count is the sentinel -1.

This project models the text-processing core of `main.go`:

- **Port configuration** (`Exporter.ConfiguredPort`). The value of `CONSUL_PORT` is used when it is set and `strconv.Atoi` accepts it. Otherwise the port is 8500.
- **Port extraction** (`Exporter.ExtractIPv4Port`). The address is split on `:`. An address with no colon is an error. Otherwise the result is `Atoi` of the text after the last colon.
- **Counting** (`Exporter.CountOpenIPv4Connections`). A method walks the command output one scanner line at a time and increments a counter. Its loop invariant ties the counter to the function `Exporter.CountOutput` over the text still to be scanned. A line counts when it has at least six fields, the port of field 4 equals the monitored port, and field 5 is not `TIME_WAIT`.
- **The metric text** (`Metrics.MetricContent`). This is the fragment `writeMetrics` builds.

The Go library behaviour the core depends on is modelled as well, because the properties depend on it:

- `strings.Split` with a one-character separator, and `strings.Join` as its inverse (module `GoStrings`).
- `strings.Fields`, splitting on the characters `unicode.IsSpace` accepts (module `GoStrings`).
- `bufio.ScanLines`: lines end at `\n`, one trailing `\r` is dropped, and an unterminated last line is still a line (module `LineScanner`).
- `strconv.Atoi` for a 64-bit `int`: an optional sign, one or more ASCII digits, and a value in range (module `Strconv`).
- The `%d` verb (module `Strconv`).

These are the model's inputs:

- The output of `netstat` is `Option<string>`, where `None` means the command failed.
- The `CONSUL_PORT` variable is `Option<string>`, where `None` means unset.
- The global `consulPort` becomes an explicit `port` parameter.

The doc comment at `main.go:70` says the function counts `ESTABLISHED` connections. The code at `main.go:94` counts every state except `TIME_WAIT`, so `SYN_SENT`, `CLOSE_WAIT`, `FIN_WAIT*` and `LAST_ACK` are counted too. The model follows the code, and `Exporter.LoopbackScenarios` shows a `CLOSE_WAIT` connection being counted. Despite the name `countOpenIPv4Connections`, the code never reads the protocol column and does not check the address family. A `tcp6` line of `netstat -tan` is therefore counted as well, as `Exporter.Tcp6ConnectionCounted` shows.

Files: `wrappers.dfy` (Option, Result), `go_strings.dfy`, `line_scanner.dfy`, `strconv.dfy`, `exporter.dfy` (configuration, extraction, counting), `metrics.dfy` (the fragment) and `exporter_tick.dfy` (one round of the loop).

## Model

| member | source | states |
|---|---|---|
| `GoStrings.Split` | main.go:108 | a string of length n splits into at least one and at most n + 1 pieces |
| `GoStrings.SplitShape` | main.go:108 | splitting yields at least one piece; exactly one piece iff the separator does not occur; no piece contains the separator |
| `GoStrings.JoinSplit` | main.go:108 | joining the pieces with the separator gives back the original string |
| `GoStrings.SplitJoin` | main.go:108 | splitting a join of separator-free pieces gives back the pieces |
| `GoStrings.SplitLast` | main.go:108-113 | for `prefix + ":" + last` with no colon in `last`, there are at least two pieces and the last one is `last`, whatever `prefix` holds |
| `GoStrings.Fields` | main.go:84 | there are no more fields than characters, and a text that starts with a non-space character has at least one field |
| `GoStrings.FieldsAreWords` | main.go:84 | every field is non-empty and contains no white space |
| `GoStrings.FieldsConcat` | main.go:84 | when white space separates two texts, the fields of their concatenation are the fields of the first followed by those of the second |
| `GoStrings.FieldsJoin` | main.go:84 | the fields of words joined by single spaces are exactly those words |
| `GoStrings.FieldsOfSpaces` | main.go:84 | text made only of `unicode.IsSpace` characters, tabs and no-break spaces included, has no fields |
| `LineScanner.Lines` | main.go:79-83 | a text yields no more lines than it has characters |
| `LineScanner.LinesShape` | main.go:79-83 | no scanned line contains `\n`; a non-empty text without `\n` is one line, with one trailing `\r` removed |
| `LineScanner.LinesOfLine` | main.go:79-83 | a line without `\n`, followed by `\n`, is scanned as exactly one line: itself with one trailing `\r` removed |
| `LineScanner.LinesTerminatedCR` | main.go:79-83 | scanning lines without `\n` that each end in `\n` gives back the lines, each with one trailing `\r` removed |
| `LineScanner.FieldsDropCR` | main.go:82-84 | the carriage return the scanner drops never changes the fields of a line |
| `LineScanner.LinesTerminated` | main.go:79-83 | scanning plain lines (no `\n`, no trailing `\r`) that each end in `\n` gives back the lines |
| `LineScanner.LinesAppend` | main.go:79-83 | if the first text is empty or ends in `\n`, the lines of a concatenation are the lines of the first text followed by those of the second |
| `LineScanner.LinesDropCR` | main.go:82-83 | a line ended by `\r\n` is scanned without the carriage return |
| `Strconv.Atoi` | main.go:114 | the empty string and a bare sign are rejected; accepted text is a sign or digit followed by digits only; the value fits 64 bits; its sign matches a leading `-`; a rejection names the input |
| `Strconv.FormatNat` | main.go:126-128 | the digits of a natural number are non-empty, decimal digits only, have no leading zero, and have that number as their value |
| `Strconv.FormatInt` | main.go:126-128 | `%d` output is non-empty, all digits except a leading `-`, starts with `-` iff the value is negative, has no leading zero, and its digits have the magnitude of the value as their value |
| `Strconv.AtoiFormatInt` | main.go:128 | `Atoi` reads back every 64-bit value that `%d` writes |
| `Strconv.AtoiAccepted` | main.go:114 | every text `Atoi` accepts is an optional sign, some zeros and then the canonical digits of the magnitude of the value read, and a negative value has a `-` sign |
| `Strconv.AtoiAccepts` | main.go:114 | conversely, an optional sign, any number of zeros and the canonical digits of a magnitude are accepted with the signed value, whenever that value fits 64 bits |
| `Strconv.AtoiLeadingZero` | main.go:114 | a leading zero changes neither whether digits are accepted nor their value |
| `Strconv.AtoiPlusSign` | main.go:114 | a leading `+` changes neither whether digits are accepted nor their value |
| `Exporter.ConfiguredPort` | main.go:28-38 | the port is `Atoi` of `CONSUL_PORT` when it is set and parses, and 8500 when it is unset or does not parse; it always fits 64 bits |
| `Exporter.ConfiguredPortFormatted` | main.go:28-31 | a `CONSUL_PORT` holding the decimal form of any 64-bit value configures exactly that value |
| `Exporter.ConfiguredPortUntrimmed` | main.go:29-34 | a `CONSUL_PORT` with white space anywhere in it falls back to 8500, because surrounding space is not trimmed |
| `Exporter.ExtractIPv4Port` | main.go:107-115 | the result is the invalid-address error iff the address contains no `:`; a successful port fits 64 bits |
| `Exporter.ExtractIPv4PortLastColon` | main.go:113-114 | for `host + ":" + p` with no colon in `p`, extraction succeeds iff `Atoi(p)` does, with the same value, whatever `host` holds |
| `Exporter.ExtractIPv4PortOfLoopback` | main.go:107-115 | `127.0.0.1:8500` gives 8500 |
| `Exporter.ExtractIPv4PortOfMappedAddress` | main.go:113 | `::ffff:10.0.0.1:8500` gives 8500: only the text after the last colon is read |
| `Exporter.ExtractIPv4PortOfIPv6Loopback` | main.go:113-114 | `::1:8500` gives 8500: nothing checks that the address is IPv4 |
| `Exporter.ExtractIPv4PortOfWildcard` | main.go:114 | `0.0.0.0:*` is an error |
| `Exporter.ExtractIPv4PortOfEmptyPort` | main.go:114 | `1.2.3.4:` is an error |
| `Exporter.ExtractIPv4PortWithoutColon` | main.go:108-111 | `127.0.0.1` is the invalid-address error |
| `Exporter.IsCounted` | main.go:84-96 | a counted line has at least six fields and a colon in field 4; `OneLineOutput` gives the whole rule |
| `Exporter.CountLines` | main.go:80-97 | the count never exceeds the number of lines |
| `Exporter.CountOutput` | main.go:79-97 | an empty output counts 0, and the count never exceeds the length of the output; `CountOutputAppend`, `ShortLinesIgnored` and `OneLineOutput` build on it |
| `Exporter.CountOpenIPv4Connections` | main.go:71-104 | the result is -1 iff the command failed; otherwise it is the number of counted lines of the output, scanned line by line |
| `Exporter.CountLinesAppend` | main.go:80-97 | the count of two runs of lines joined together is the sum of their counts |
| `Exporter.CountLinesPermutation` | main.go:80-97 | two orderings of the same lines have the same count |
| `Exporter.CountLinesIsNumberOfCounted` | main.go:80-97 | the count is the number of positions that hold a counted line |
| `Exporter.UncountedLinesIgnored` | main.go:85-96 | inserting lines that are not counted anywhere in the input leaves the count unchanged |
| `Exporter.CountOutputAppend` | main.go:79-103 | if the first output is empty or ends in `\n`, the count of two outputs joined together is the sum of their counts |
| `Exporter.ShortLinesIgnored` | main.go:84-87 | appending any number of newline-terminated lines with fewer than six fields, carriage returns allowed, leaves the count unchanged |
| `Exporter.OneLineOutput` | main.go:84-96 | a one-line output (the line may end in `\r`) counts 1 iff the line has at least six fields, field 4 yields the monitored port and field 5 is not `TIME_WAIT`, and counts 0 otherwise |
| `Exporter.LineOfFields` | main.go:84-96 | the same rule for a line given by its fields joined with spaces |
| `Exporter.NetstatLineRule` | main.go:89-96 | a `tcp 0 0 local remote state` line counts 1 iff `remote` yields the monitored port and `state` is not `TIME_WAIT` |
| `Exporter.LoopbackConnection` | main.go:94 | a connection from `127.0.0.1:54321` to `127.0.0.1:8500`, with port 8500 monitored, counts in every state except `TIME_WAIT` |
| `Exporter.LoopbackScenarios` | main.go:94 | that connection counts when `ESTABLISHED`, does not count when `TIME_WAIT`, and counts when `CLOSE_WAIT` |
| `Exporter.ListeningSocketNotCounted` | main.go:89-94 | a socket listening on port 8500, whose remote address is `0.0.0.0:*`, is not counted |
| `Exporter.TitleLineNotCounted` | main.go:85-94 | the six-field heading `Active Internet connections (servers and established)` is not counted |
| `Exporter.ColumnLineNotCounted` | main.go:85-94 | the column heading `Proto Recv-Q Send-Q Local Address Foreign Address State` is not counted |
| `Exporter.Tcp6ConnectionCounted` | main.go:84-96 | the line `tcp6 0 0 ::1:54321 ::1:8500 ESTABLISHED` counts 1 for port 8500, because the protocol column is never read |
| `Metrics.MetricContent` | main.go:126-128 | the fragment is non-empty and ends with a newline; `MetricContentLines` gives its three lines |
| `Metrics.MetricContentLines` | main.go:126-128 | the fragment is exactly the help, type and sample lines, each followed by a bare `\n`, with no `\r` anywhere; it scans as exactly three lines, in order: `# HELP tcp_connections Number of open TCP connections on port <p>`, `# TYPE tcp_connections gauge`, `tcp_connections{port="<p>"} <count>` |
| `Metrics.MetricContentReadBack` | main.go:126-128 | for 64-bit values, the last field of the help line reads back as the port; the sample line has exactly two fields, the labelled name and the count, and its second field reads back as the count |
| `ExporterTick.ExportOnce` | main.go:63-65 | one tick writes the fragment for the configured port and, as the count, -1 if the command failed or otherwise the count of its output |
| `ExporterTick.FailedTickReportsUnavailable` | main.go:74-77 | for outputs of Go-representable length, the third line of a tick's fragment has two fields, and its second reads back as the count, which is -1 exactly when the command failed |

## Left out

- Running `netstat -tan` through `os/exec` (main.go:72-73): this is a subprocess, so its output is an `Option<string>` parameter.
- Creating the metrics file and writing it (main.go:119-124, 130-133): this is file I/O, so only the content string is modelled.
- The ticker loop of `main` (main.go:58-68): this is a timer-driven endless loop. `ExporterTick.ExportOnce` models one iteration of its body.
- All `log.Printf` calls: these have side effects only.
- `UPDATE_DELAY` and `time.ParseDuration` (main.go:41-51): this is a duration grammar of the Go library, and the delay only paces the timer.
- `bufio.Scanner`'s 64 KiB token limit and `scanner.Err` (main.go:99-101): the model scans every line, however long. Go would stop at an over-long line and return the count so far.
- Invalid UTF-8 in the command output: strings are sequences of Unicode characters, so bytes that are not valid UTF-8 are not represented.
- `Strconv.Atoi`: this is weaker than Go, because the model has one `InvalidNumber` error. It does not separate Go's `ErrSyntax` from `ErrRange`, or which of the two Go reports first. The core only tests whether the error is nil.
- Go's `int` is taken to be 64 bits wide. `Exporter.CountOpenIPv4Connections` does not model wrap-around of `count++`, which would need more than 2^63 lines.

The model accepts any integer as the port, as the source does, including negative values and values above 65535.
