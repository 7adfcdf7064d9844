# IpToDomain in Dafny

`IpToDomain.py` reads a text file of candidate IP addresses, one per line. It
keeps the lines that hold an IPv4 or IPv6 address, and runs a reverse DNS
lookup for each of them on a thread pool. It prints `hostname:ip` for every
address, or `Invalid IP format:<line>` for a line that is not an address. It
can also write a CSV file with the columns `hostname,ip`. When a lookup
fails, the address itself stands in for the hostname.

This project models the deterministic core of that program. It is made of
four modules:

- `PyStr` (`pystr.dfy`): the Python string operations the program uses.
  - `str.strip()` uses Python's exact `isspace` set.
  - `startswith` and `endswith` are modelled as written.
  - `lower()` covers ASCII letters only.
- `Seqs` (`seqs.dfy`): list comprehensions with an `if` clause, as `Filter`.
- `IpToDomain` (`ip_to_domain.dfy`): the two per-address functions.
  - `is_valid_ip` is `IsValidIp`. The address parsers (`inet_pton`) are a
    parameter.
  - `ip_to_hostname` is `IpToHostname`. How the reverse lookup ended is an
    input value of type `LookupOutcome`.
- `Batch` (`batch.dfy`): `process_ip_file` without its I/O.
  - The input file is a sequence of raw lines.
  - Lookup `j` is the task for the `j`-th valid address, and `outcomes[j]` says
    how it ended.
  - The order in which the thread pool reports its tasks (`as_completed`) is a
    permutation `order` of the task indices.
  - The console output and the CSV file are returned as values.
  - The three loops of the function (collecting results, printing, writing
    rows) are methods with loop invariants. They are proved against the
    functions that specify them.

Three behaviours of the code worth knowing:

- The console loop skips comment lines, so there is one console line per line
  that is neither blank nor a comment.
- Duplicate addresses are not deduplicated. Each occurrence is a separate
  lookup task. The CSV file has one row per occurrence, in input order.
- The `ip → name` table keeps the result of the task that completed last. It
  depends on the completion order whenever two lookups of the same address
  disagree. `OrderDecidesDisagreeingDuplicates` shows both orders. The table is
  independent of the order when the lookups of each repeated address agree
  (`TableIndependentOfOrder`).

## Model

| member | source | states |
|---|---|---|
| PyStr.IsSpace | IpToDomain.py:11 | Python's `isspace` set, range by range. Tab through carriage return and the space are whitespace, and nothing below the tab or above U+3000 is. |
| PyStr.TrimStart | IpToDomain.py:11 | The leading-whitespace pass of `strip()` leaves a text that is empty or starts with a non-space. |
| PyStr.TrimEnd | IpToDomain.py:11 | The trailing-whitespace pass keeps a prefix of its input that is empty or ends with a non-space. |
| PyStr.Strip | IpToDomain.py:11 | `strip()` leaves no whitespace at either end. |
| PyStr.TrimStartSuffix | IpToDomain.py:11 | The leading pass keeps a suffix and drops only whitespace. |
| PyStr.TrimEndPrefix | IpToDomain.py:11 | The trailing pass keeps a prefix and drops only whitespace. |
| PyStr.StripSlice | IpToDomain.py:11 | `strip()` returns a contiguous slice of its input, and everything it removes on either side is whitespace. |
| PyStr.StripStripped | IpToDomain.py:11 | A text with no whitespace at either end is returned unchanged. |
| PyStr.StripIdempotent | IpToDomain.py:11 | Stripping twice equals stripping once. |
| PyStr.PrintableNotSpace | IpToDomain.py:11 | No printable ASCII character other than the space counts as whitespace. |
| PyStr.StripPrintableEnds | IpToDomain.py:11 | A text that begins and ends with printable ASCII characters other than the space is not changed by `strip()`. |
| PyStr.StartsWith | IpToDomain.py:12 | `startswith` holds exactly when the prefix is no longer than the text and agrees with it character by character from the front. |
| PyStr.EndsWith | IpToDomain.py:86 | `endswith` holds exactly when the suffix is no longer than the text and agrees with it character by character from the back. |
| PyStr.EndsWithAppend | IpToDomain.py:82 | A concatenation ends with its second part. |
| PyStr.Lower | IpToDomain.py:86 | Lower-casing preserves length. |
| PyStr.LowerAppend | IpToDomain.py:86 | Lower-casing distributes over concatenation. |
| Seqs.Filter | IpToDomain.py:53 | A comprehension with an `if` clause keeps exactly the elements that pass the test, and no more elements than its input. |
| Seqs.FilterAppend | IpToDomain.py:53 | Filtering preserves input order: filtering a concatenation concatenates the filtered parts. |
| Seqs.FilterSnoc | IpToDomain.py:53 | One more input element adds itself to the output exactly when it passes the test. |
| Seqs.FilterAll | IpToDomain.py:45 | When every element passes the test, filtering returns the input unchanged. |
| IpToDomain.IsValidIp | IpToDomain.py:10-22 | An accepted line is non-blank after stripping and does not start with `#`. |
| IpToDomain.RejectsBlankAndComments | IpToDomain.py:11-13 | Blank lines and `#` comment lines are rejected whatever the parsers accept. |
| IpToDomain.DefersToParsers | IpToDomain.py:14-22 | Any other line is accepted if and only if its stripped text parses as IPv4 or as IPv6. |
| IpToDomain.ValidityIgnoresWhitespace | IpToDomain.py:11 | Surrounding whitespace never changes the verdict. |
| IpToDomain.IpToHostname | IpToDomain.py:25-39 | The second component is always the stripped address. The first is the primary hostname on success and the address itself for every kind of failure. The function is total. |
| IpToDomain.NameIsAddressOrHostname | IpToDomain.py:28-39 | The name returned is the address itself or the hostname the resolver returned. |
| Batch.StripAll | IpToDomain.py:45 | Stripping every line keeps the number of lines. |
| Batch.NonBlankLines | IpToDomain.py:45 | Every element of `lines` is stripped and non-empty. |
| Batch.NonBlankLinesSnoc | IpToDomain.py:45 | `lines` keeps input order: one more raw line adds its stripped text exactly when that text is non-empty. |
| Batch.NonBlankLinesIdempotent | IpToDomain.py:45 | Putting `lines` through the same comprehension again returns it unchanged. |
| Batch.ValidIps | IpToDomain.py:53 | Every valid address is a line that passes `is_valid_ip`, and every line that passes is among them. |
| Batch.ValidIpsSnoc | IpToDomain.py:53 | `valid_ips` is the in-order subsequence of `lines` passing `is_valid_ip`, duplicates included. |
| Batch.CompletedResults | IpToDomain.py:59-67 | The results list once every task has reported: one entry per task, in completion order. Entry `k` carries the stripped address of task `order[k]`, and its name is that address or the hostname of that task's successful lookup. |
| Batch.CollectResults | IpToDomain.py:59-67 | The results list holds, in completion order, the pair each task returned for its own address and outcome. |
| Batch.ResultTable | IpToDomain.py:70 | The keys of the table are exactly the addresses in the results. |
| Batch.TableLastWins | IpToDomain.py:70 | For a repeated address, the table keeps the name from the last result with that address. |
| Batch.TableEntryFromResult | IpToDomain.py:70 | Every table value is the name of some result for the same address. |
| Batch.Table | IpToDomain.py:59-70 | `ip_to_result` once every task has reported: the dict comprehension applied to the results in completion order. Its properties are the table lemmas in the rows that follow. |
| Batch.TableCoversValidIps | IpToDomain.py:63-70 | Once every task has reported, the key set of the table equals the set of valid addresses. |
| Batch.TableValueFromTask | IpToDomain.py:63-70 | Every table value is the name some lookup task produced for that address. |
| Batch.TableValuesFromLookups | IpToDomain.py:63-70 | Every table value is the address itself or a hostname from a successful lookup of that same address. |
| Batch.TableIndependentOfOrder | IpToDomain.py:63-70 | When the lookups of each repeated address agree, every completion order gives the same table. |
| Batch.LastCompletedWins | IpToDomain.py:65-70 | The task that completes last decides the table entry for its address. |
| Batch.OrderDecidesDisagreeingDuplicates | IpToDomain.py:63-70 | An address submitted twice, one lookup resolving and one timing out, gets the address in one completion order and the hostname in the other. |
| Batch.IsPrinted | IpToDomain.py:74-76 | The console loop prints for a line exactly when its stripped text is non-empty and does not start with `#`. |
| Batch.Get | IpToDomain.py:80 | `dict.get(key, default)`: the stored value for a present key, the default for a missing one. |
| Batch.ConsoleLine | IpToDomain.py:77-82 | Every printed line ends in `:` followed by the stripped line. An invalid line gives `Invalid IP format:<ip>`. A valid address gives its table value, or the address itself when it has no entry, then `:<ip>`. |
| Batch.PrintResults | IpToDomain.py:73-82 | One console line per line that is neither blank nor a comment, in the order of `lines`. Each is the invalid-format message or `resolved:ip` for that line. |
| Batch.PrintedUnlessComment | IpToDomain.py:75-76 | Among the stripped, non-blank lines, exactly those starting with `#` print nothing. |
| Batch.PrintedAreNonComments | IpToDomain.py:73-76 | On stripped, non-blank lines, the lines the console loop prints for are exactly those that do not start with `#`, in order. |
| Batch.ConsoleFollowsNonCommentLines | IpToDomain.py:45-76 | Console output has one line per element of `lines` that does not start with `#`, in the order of `lines`. |
| Batch.ConsoleLineOfInvalid | IpToDomain.py:77-78 | A line that fails `is_valid_ip` prints `Invalid IP format:` followed by the line. |
| Batch.ConsoleLineOfValid | IpToDomain.py:79-82 | A valid address is in the table and prints `<table value>:<address>`, where the value is the address or a hostname a lookup of that address returned. |
| Batch.CsvRows | IpToDomain.py:92-96 | The rows are the header `hostname,ip`, then one row per valid address in `valid_ips` order. Row `i+1` is the table value for `valid_ips[i]` (the address if absent) followed by the address. |
| Batch.CsvFileName | IpToDomain.py:86-87 | The result's lower-case form ends in `.csv`. A name already ending in `.csv` in any case is unchanged. Any other name gets `.csv` appended. |
| Batch.CsvFileNameIdempotent | IpToDomain.py:86-87 | Applying the suffix rule twice equals applying it once. |
| Batch.SaveCsv | IpToDomain.py:85-96 | A CSV file is produced if and only if a non-empty output name was given. It carries the normalised name and the rows above. |
| Batch.ValidIpsAreStripped | IpToDomain.py:45-53 | Every valid address is stripped and non-empty. |
| Batch.ProcessIpFile | IpToDomain.py:42-104 | The whole run. The table's keys are exactly the valid addresses. The console lines are as in `PrintResults`. A CSV file exists exactly when a name was given, and each valid address has its row with its table value. |
| Batch.WorkedRunValidIps | IpToDomain.py:45-53 | For the input "address, malformed line, comment, second address", only the two addresses are looked up. |
| Batch.TwoTaskOrders | IpToDomain.py:65 | Two tasks complete in one of exactly two orders. |
| Batch.TwoResultTable | IpToDomain.py:70 | Two results with different addresses both land in the table. |
| Batch.WorkedRunTable | IpToDomain.py:59-70 | In the same run, with the first lookup resolving and the second finding no PTR record, the table maps the first address to the hostname and the second to itself, in either completion order. |
| Batch.WorkedRunConsole | IpToDomain.py:73-82 | In that run the console shows `hostname:first`, `Invalid IP format:<malformed line>` and `second:second`. |

## Left out

- Address syntax (`socket.inet_pton` for AF_INET and AF_INET6, lines 15 and 19) is a pair of predicates given as a parameter. Their real acceptance sets (dotted-quad IPv4 and the IPv6 text forms of section 2.2 of RFC 4291) belong to the C library, not to this program.
- The reverse lookup (`socket.gethostbyaddr`, line 30) is an input value per task: a resolved triple or one of the four exception kinds. Aliases and addresses in the triple are carried but unused, as in the code.
- `socket.setdefaulttimeout(TIMEOUT)` (line 29) and `TIMEOUT = 4.0` (line 8) are left out. A timeout appears only as the `Timeout` outcome, and the float duration is not modelled.
- The thread pool (`ThreadPoolExecutor`, `as_completed`, lines 62-67) is not modelled. This covers the 50-worker bound (line 7) and the race on the process-wide timeout. Only the completion order is kept, as an arbitrary permutation of the tasks.
- Opening and reading the input file, the split into lines, and `sys.exit(1)` on errors (lines 43-51) are left out. The model takes the file's lines as a sequence of strings.
- Creating the CSV file, `csv.writer` quoting, and the error message when writing fails (lines 89-102) are left out. Only the file name and the row sequence are modelled.
- The stderr diagnostics (lines 55-57, 98-100, 104) are advisory text and are not modelled.
- The `__main__` block, its argument check and the interactive `input()` prompt (lines 107-118) are I/O and are left out. The optional output name is an `Option<string>`.
- PyStr.Lower: models `str.lower()` for ASCII letters only. For the `.csv` test this is exact, because no other character lower-cases to a text containing `.`, `c`, `s` or `v`. Other texts may lower-case differently in Python. PyStr.LowerAppend holds only for this ASCII lower-casing. Python's `lower()` does not distribute over concatenation, because of its final-sigma rule.
- Exceptions that are not subclasses of `Exception` (such as `KeyboardInterrupt`) escape `ip_to_hostname` in Python. They are outside the outcome type.
