/** The data flow of `process_ip_file`: the non-blank input lines, the valid
    addresses among them, the per-task lookup results in completion order, the
    address-to-name table, the console lines and the CSV rows. Reading the input
    file, printing and writing the CSV file are replaced by sequence results;
    the resolver and the thread pool's completion order are parameters. */
module Batch {
  import opened PyStr
  import opened Seqs
  import opened IpToDomain

  datatype Option<T> = None | Some(value: T)

  // ---------------------------------------------------------------------------
  // Input lines and valid addresses
  // ---------------------------------------------------------------------------

  predicate NonBlank(line: string)
  {
    line != []
  }

  /** Every raw line, stripped. */
  function StripAll(raw: seq<string>): (r: seq<string>)
    ensures |r| == |raw|
  {
    seq(|raw|, i requires 0 <= i < |raw| => Strip(raw[i]))
  }

  /** `lines = [line.strip() for line in f if line.strip()]`. */
  function NonBlankLines(raw: seq<string>): (lines: seq<string>)
    ensures forall i :: 0 <= i < |lines| ==> lines[i] != [] && IsStripped(lines[i])
  {
    Filter(NonBlank, StripAll(raw))
  }

  /** `lines` is built line by line in input order: each raw line contributes its
      stripped text, unless that text is empty. */
  lemma NonBlankLinesSnoc(raw: seq<string>, line: string)
    ensures NonBlankLines(raw + [line])
         == NonBlankLines(raw) + (if Strip(line) == [] then [] else [Strip(line)])
  {
    assert StripAll(raw + [line]) == StripAll(raw) + [Strip(line)];
    FilterSnoc(NonBlank, StripAll(raw), Strip(line));
  }

  /** Feeding `lines` back through the same comprehension changes nothing: its
      elements are already stripped and non-blank. */
  lemma NonBlankLinesIdempotent(raw: seq<string>)
    ensures NonBlankLines(NonBlankLines(raw)) == NonBlankLines(raw)
  {
    var lines := NonBlankLines(raw);
    forall i | 0 <= i < |lines| ensures Strip(lines[i]) == lines[i] {
      StripStripped(lines[i]);
    }
    assert StripAll(lines) == lines;
    FilterAll(NonBlank, lines);
  }

  /** The test of the `valid_ips` comprehension. */
  function ValidityTest(parsers: AddressParsers): string -> bool
  {
    line => IsValidIp(parsers, line)
  }

  /** `valid_ips = [ip for ip in lines if is_valid_ip(ip)]`. */
  function ValidIps(parsers: AddressParsers, lines: seq<string>): (valid: seq<string>)
    ensures forall i :: 0 <= i < |valid| ==> valid[i] in lines && IsValidIp(parsers, valid[i])
    ensures forall i :: 0 <= i < |lines| && IsValidIp(parsers, lines[i]) ==> lines[i] in valid
  {
    Filter(ValidityTest(parsers), lines)
  }

  /** `valid_ips` keeps the order of `lines` and its repetitions: each line
      contributes itself exactly when it is a valid address. */
  lemma ValidIpsSnoc(parsers: AddressParsers, lines: seq<string>, line: string)
    ensures ValidIps(parsers, lines + [line])
         == ValidIps(parsers, lines) + (if IsValidIp(parsers, line) then [line] else [])
  {
    FilterSnoc(ValidityTest(parsers), lines, line);
  }

  // ---------------------------------------------------------------------------
  // Lookups in completion order, and the result table
  // ---------------------------------------------------------------------------

  /** The order in which `as_completed` reports the `n` submitted tasks, by
      submission index: every task exactly once. */
  ghost predicate IsCompletionOrder(order: seq<nat>, n: nat)
  {
    && |order| == n
    && (forall k :: 0 <= k < |order| ==> order[k] < n)
    && (forall j :: 0 <= j < n ==> j in order)
    && (forall k, k' :: 0 <= k < k' < |order| ==> order[k] != order[k'])
  }

  /** The results list as it stands once every task has reported: entry `k` is
      the pair returned by the `k`-th task to complete. */
  function CompletedResults(valid: seq<string>, outcomes: seq<LookupOutcome>, order: seq<nat>): (results: seq<LookupResult>)
    requires |outcomes| == |valid|
    requires forall k :: 0 <= k < |order| ==> order[k] < |valid|
    ensures |results| == |order|
    ensures forall k :: 0 <= k < |order| ==> results[k].ip == Strip(valid[order[k]])
    ensures forall k :: 0 <= k < |order| ==>
      results[k].name == results[k].ip || (outcomes[order[k]].Resolved? && outcomes[order[k]].hostname == results[k].name)
  {
    seq(|order|, k requires 0 <= k < |order| => IpToHostname(valid[order[k]], outcomes[order[k]]))
  }

  /** `IpToDomain.py` lines 59-67: one task per valid address (task `j` looks up `valid[j]` and
      meets `outcomes[j]`); the results are appended as the tasks complete. */
  method CollectResults(valid: seq<string>, outcomes: seq<LookupOutcome>, order: seq<nat>)
    returns (results: seq<LookupResult>)
    requires |outcomes| == |valid|
    requires IsCompletionOrder(order, |valid|)
    ensures results == CompletedResults(valid, outcomes, order)
  {
    results := [];
    if valid != [] {
      for k := 0 to |order|
        invariant |results| == k
        invariant forall i :: 0 <= i < k ==> results[i] == IpToHostname(valid[order[i]], outcomes[order[i]])
      {
        var j := order[k];
        var r := IpToHostname(valid[j], outcomes[j]);
        results := results + [r];
      }
    }
  }

  /** `ip_to_result = {ip: hostname for hostname, ip in results}`: later entries
      overwrite earlier ones for the same address. */
  function ResultTable(results: seq<LookupResult>): (table: map<string, string>)
    ensures table.Keys == set r | r in results :: r.ip
  {
    if results == [] then map[]
    else
      var n := |results| - 1;
      var table := ResultTable(results[..n]);
      assert results == results[..n] + [results[n]];
      table[results[n].ip := results[n].name]
  }

  /** The last result for an address is the one the table keeps. */
  lemma {:induction false} TableLastWins(results: seq<LookupResult>, k: nat)
    requires k < |results|
    requires forall k' :: k < k' < |results| ==> results[k'].ip != results[k].ip
    ensures results[k].ip in ResultTable(results)
    ensures ResultTable(results)[results[k].ip] == results[k].name
  {
    var n := |results| - 1;
    if k < n {
      TableLastWins(results[..n], k);
    }
  }

  /** Every value in the table is the name of some result for the same address. */
  lemma {:induction false} TableEntryFromResult(results: seq<LookupResult>, ip: string)
    requires ip in ResultTable(results)
    ensures exists k :: 0 <= k < |results| && results[k].ip == ip
                        && ResultTable(results)[ip] == results[k].name
  {
    var n := |results| - 1;
    if results[n].ip != ip {
      TableEntryFromResult(results[..n], ip);
      var k :| 0 <= k < n && results[..n][k].ip == ip && ResultTable(results[..n])[ip] == results[..n][k].name;
      assert results[k] == results[..n][k];
    }
  }

  /** `ip_to_result` once every task has reported: the table built from the
      results in completion order. */
  function Table(valid: seq<string>, outcomes: seq<LookupOutcome>, order: seq<nat>): map<string, string>
    requires |outcomes| == |valid|
    requires forall k :: 0 <= k < |order| ==> order[k] < |valid|
  {
    ResultTable(CompletedResults(valid, outcomes, order))
  }

  /** Total coverage: once every task has reported, the table's keys are exactly
      the valid addresses (each valid address is already stripped). */
  lemma TableCoversValidIps(valid: seq<string>, outcomes: seq<LookupOutcome>, order: seq<nat>)
    requires |outcomes| == |valid| && IsCompletionOrder(order, |valid|)
    requires forall i :: 0 <= i < |valid| ==> IsStripped(valid[i])
    ensures Table(valid, outcomes, order).Keys == Elements(valid)
  {
    var results := CompletedResults(valid, outcomes, order);
    forall ip | ip in valid ensures ip in Table(valid, outcomes, order) {
      var j :| 0 <= j < |valid| && valid[j] == ip;
      assert j in order;
      var k :| 0 <= k < |order| && order[k] == j;
      StripStripped(valid[j]);
      assert results[k].ip == ip;
      assert results[k] in results;
    }
    forall ip | ip in Table(valid, outcomes, order) ensures ip in valid {
      var r :| r in results && r.ip == ip;
      var k :| 0 <= k < |results| && results[k] == r;
      StripStripped(valid[order[k]]);
    }
  }

  /** Every value in the table is the name some task produced for that key. */
  lemma TableValueFromTask(valid: seq<string>, outcomes: seq<LookupOutcome>, order: seq<nat>, ip: string)
    requires |outcomes| == |valid| && forall k :: 0 <= k < |order| ==> order[k] < |valid|
    requires ip in Table(valid, outcomes, order)
    ensures exists j :: 0 <= j < |valid| && IpToHostname(valid[j], outcomes[j]) == LookupResult(Table(valid, outcomes, order)[ip], ip)
  {
    var results := CompletedResults(valid, outcomes, order);
    TableEntryFromResult(results, ip);
    var k :| 0 <= k < |results| && results[k].ip == ip && ResultTable(results)[ip] == results[k].name;
    assert IpToHostname(valid[order[k]], outcomes[order[k]]) == results[k];
  }

  /** The fallback policy, table-wide: every value is the address itself or the
      hostname returned by a successful lookup of that same address. */
  lemma TableValuesFromLookups(valid: seq<string>, outcomes: seq<LookupOutcome>, order: seq<nat>, ip: string)
    requires |outcomes| == |valid| && IsCompletionOrder(order, |valid|)
    requires forall i :: 0 <= i < |valid| ==> IsStripped(valid[i])
    requires ip in Table(valid, outcomes, order)
    ensures var name := Table(valid, outcomes, order)[ip];
      || name == ip
      || exists j :: 0 <= j < |valid| && valid[j] == ip && outcomes[j].Resolved? && outcomes[j].hostname == name
  {
    TableValueFromTask(valid, outcomes, order, ip);
    var j :| 0 <= j < |valid| && IpToHostname(valid[j], outcomes[j]) == LookupResult(Table(valid, outcomes, order)[ip], ip);
    StripStripped(valid[j]);
  }

  /** Every task for the address produces the same name. */
  ghost predicate LookupsAgree(valid: seq<string>, outcomes: seq<LookupOutcome>)
    requires |outcomes| == |valid|
  {
    forall j, j' :: 0 <= j < |valid| && 0 <= j' < |valid| && valid[j] == valid[j'] ==>
      IpToHostname(valid[j], outcomes[j]).name == IpToHostname(valid[j'], outcomes[j']).name
  }

  /** The table does not depend on the completion order when the lookups of each
      repeated address agree (in particular when no address is repeated). */
  lemma TableIndependentOfOrder(valid: seq<string>, outcomes: seq<LookupOutcome>, order1: seq<nat>, order2: seq<nat>)
    requires |outcomes| == |valid|
    requires IsCompletionOrder(order1, |valid|) && IsCompletionOrder(order2, |valid|)
    requires forall i :: 0 <= i < |valid| ==> IsStripped(valid[i])
    requires LookupsAgree(valid, outcomes)
    ensures Table(valid, outcomes, order1) == Table(valid, outcomes, order2)
  {
    var t1, t2 := Table(valid, outcomes, order1), Table(valid, outcomes, order2);
    TableCoversValidIps(valid, outcomes, order1);
    TableCoversValidIps(valid, outcomes, order2);
    forall ip | ip in t1 ensures t1[ip] == t2[ip] {
      TableValueFromTask(valid, outcomes, order1, ip);
      TableValueFromTask(valid, outcomes, order2, ip);
      var j1 :| 0 <= j1 < |valid| && IpToHostname(valid[j1], outcomes[j1]) == LookupResult(t1[ip], ip);
      var j2 :| 0 <= j2 < |valid| && IpToHostname(valid[j2], outcomes[j2]) == LookupResult(t2[ip], ip);
      StripStripped(valid[j1]);
      StripStripped(valid[j2]);
    }
  }

  /** The task that completes last decides the entry for its address. */
  lemma LastCompletedWins(valid: seq<string>, outcomes: seq<LookupOutcome>, order: seq<nat>)
    requires |outcomes| == |valid| && forall k :: 0 <= k < |order| ==> order[k] < |valid|
    requires order != []
    ensures var j := order[|order| - 1];
      var r := IpToHostname(valid[j], outcomes[j]);
      r.ip in Table(valid, outcomes, order) && Table(valid, outcomes, order)[r.ip] == r.name
  {
    TableLastWins(CompletedResults(valid, outcomes, order), |order| - 1);
  }

  /** With an address submitted twice whose lookups disagree (one resolves to a
      hostname, one times out), the completion order decides the table: the
      lookup that completes last wins. */
  lemma OrderDecidesDisagreeingDuplicates(ip: string, hostname: string)
    requires IsStripped(ip) && hostname != ip
    ensures var valid, outcomes := [ip, ip], [Resolved(hostname, [], []), Timeout];
      && IsCompletionOrder([0, 1], 2) && IsCompletionOrder([1, 0], 2)
      && ip in Table(valid, outcomes, [0, 1]) && Table(valid, outcomes, [0, 1])[ip] == ip
      && ip in Table(valid, outcomes, [1, 0]) && Table(valid, outcomes, [1, 0])[ip] == hostname
  {
    StripStripped(ip);
    var valid, outcomes := [ip, ip], [Resolved(hostname, [], []), Timeout];
    assert IsCompletionOrder([0, 1], 2) by {
      assert 0 in [0, 1] && 1 in [0, 1];
    }
    assert IsCompletionOrder([1, 0], 2) by {
      assert 0 in [1, 0] && 1 in [1, 0];
    }
    LastCompletedWins(valid, outcomes, [0, 1]);
    LastCompletedWins(valid, outcomes, [1, 0]);
  }

  // ---------------------------------------------------------------------------
  // Console output
  // ---------------------------------------------------------------------------

  /** `IpToDomain.py` lines 75-76: the console loop skips blank and comment
      lines; it prints for exactly the lines whose stripped text has a first
      character other than `#`. */
  predicate IsPrinted(line: string): (b: bool)
    ensures b <==> Strip(line) != [] && Strip(line)[0] != '#'
  {
    var ip := Strip(line);
    !(ip == [] || StartsWith(ip, "#"))
  }

  /** `table.get(key, default)`: the stored value, or the default for a missing key. */
  function Get(table: map<string, string>, key: string, default: string): (r: string)
    ensures key in table ==> r == table[key]
    ensures key !in table ==> r == default
  {
    if key in table then table[key] else default
  }

  /** The console line printed for a line the loop does not skip. Every such
      line ends in `:` and the stripped line; what comes before is the invalid
      format message, or the table's name for the address (the address itself
      when the table has no entry). */
  function ConsoleLine(parsers: AddressParsers, table: map<string, string>, line: string): (r: string)
    ensures EndsWith(r, ":" + Strip(line))
    ensures !IsValidIp(parsers, line) ==> r == "Invalid IP format:" + Strip(line)
    ensures IsValidIp(parsers, line) && Strip(line) in table ==> r == table[Strip(line)] + ":" + Strip(line)
    ensures IsValidIp(parsers, line) && Strip(line) !in table ==> r == Strip(line) + ":" + Strip(line)
  {
    var ip := Strip(line);
    ValidityIgnoresWhitespace(parsers, line);
    if !IsValidIp(parsers, ip) then
      assert "Invalid IP format:" + ip == "Invalid IP format" + (":" + ip);
      EndsWithAppend("Invalid IP format", ":" + ip);
      "Invalid IP format:" + ip
    else
      var name := Get(table, ip, ip);
      assert name + ":" + ip == name + (":" + ip);
      EndsWithAppend(name, ":" + ip);
      name + ":" + ip
  }

  /** `IpToDomain.py` lines 73-82: one console line per line that is neither blank nor a
      comment, in the order of `lines`. */
  method PrintResults(parsers: AddressParsers, lines: seq<string>, table: map<string, string>)
    returns (console: seq<string>)
    ensures |console| == |Filter(IsPrinted, lines)|
    ensures forall i :: 0 <= i < |console| ==>
      console[i] == ConsoleLine(parsers, table, Filter(IsPrinted, lines)[i])
  {
    console := [];
    for n := 0 to |lines|
      invariant |console| == |Filter(IsPrinted, lines[..n])|
      invariant forall i :: 0 <= i < |console| ==>
        console[i] == ConsoleLine(parsers, table, Filter(IsPrinted, lines[..n])[i])
    {
      var line := lines[n];
      assert lines[..n + 1] == lines[..n] + [line];
      FilterSnoc(IsPrinted, lines[..n], line);
      var ip := Strip(line);
      if ip == [] || StartsWith(ip, "#") {
        continue;
      }
      if !IsValidIp(parsers, ip) {
        console := console + ["Invalid IP format:" + ip];
      } else {
        var resolved := Get(table, ip, ip);
        console := console + [resolved + ":" + ip];
      }
    }
    assert lines[..|lines|] == lines;
  }

  /** Among stripped, non-blank lines, exactly the comment lines are skipped. */
  lemma PrintedUnlessComment(line: string)
    requires line != [] && IsStripped(line)
    ensures IsPrinted(line) <==> line[0] != '#'
  {
    StripStripped(line);
  }

  /** A line that is empty or does not start with `#`. */
  predicate NotComment(line: string)
  {
    line == [] || line[0] != '#'
  }

  /** On stripped, non-blank lines, the console loop's skip test keeps exactly
      the lines that do not start with `#`, in order. */
  lemma {:induction false} PrintedAreNonComments(lines: seq<string>)
    requires forall i :: 0 <= i < |lines| ==> lines[i] != [] && IsStripped(lines[i])
    ensures Filter(IsPrinted, lines) == Filter(NotComment, lines)
  {
    if lines != [] {
      PrintedUnlessComment(lines[0]);
      PrintedAreNonComments(lines[1..]);
    }
  }

  /** The console prints one line for each element of `lines` that does not
      start with `#`, in the order of `lines`. */
  lemma ConsoleFollowsNonCommentLines(raw: seq<string>)
    ensures Filter(IsPrinted, NonBlankLines(raw)) == Filter(NotComment, NonBlankLines(raw))
  {
    PrintedAreNonComments(NonBlankLines(raw));
  }

  /** A line that is not an address is reported as such, verbatim. */
  lemma ConsoleLineOfInvalid(parsers: AddressParsers, table: map<string, string>, line: string)
    requires IsStripped(line) && !IsValidIp(parsers, line)
    ensures ConsoleLine(parsers, table, line) == "Invalid IP format:" + line
  {
    StripStripped(line);
  }

  /** A valid address is printed as `<name>:<address>`, where the name is the
      address itself or a hostname a lookup of that address returned. */
  lemma ConsoleLineOfValid(parsers: AddressParsers, valid: seq<string>, outcomes: seq<LookupOutcome>,
                           order: seq<nat>, line: string)
    requires |outcomes| == |valid| && IsCompletionOrder(order, |valid|)
    requires forall i :: 0 <= i < |valid| ==> IsStripped(valid[i])
    requires line in valid && IsValidIp(parsers, line)
    ensures var table := Table(valid, outcomes, order);
      line in table && ConsoleLine(parsers, table, line) == table[line] + ":" + line
    ensures var name := Table(valid, outcomes, order)[line];
      || name == line
      || exists j :: 0 <= j < |valid| && valid[j] == line && outcomes[j].Resolved? && outcomes[j].hostname == name
  {
    TableCoversValidIps(valid, outcomes, order);
    TableValuesFromLookups(valid, outcomes, order, line);
    var j :| 0 <= j < |valid| && valid[j] == line;
    StripStripped(valid[j]);
  }

  // ---------------------------------------------------------------------------
  // CSV output
  // ---------------------------------------------------------------------------

  const CsvHeader: seq<string> := ["hostname", "ip"]

  /** `IpToDomain.py` lines 92-96: the header row, then one `[hostname, ip]` row per valid
      address, in the order and with the repetitions of `valid`. */
  method CsvRows(valid: seq<string>, table: map<string, string>) returns (rows: seq<seq<string>>)
    ensures |rows| == |valid| + 1 && rows[0] == CsvHeader
    ensures forall i :: 0 <= i < |valid| ==> rows[i + 1] == [Get(table, valid[i], valid[i]), valid[i]]
  {
    rows := [CsvHeader];
    for i := 0 to |valid|
      invariant |rows| == i + 1 && rows[0] == CsvHeader
      invariant forall k :: 0 <= k < i ==> rows[k + 1] == [Get(table, valid[k], valid[k]), valid[k]]
    {
      var ip := valid[i];
      var hostname := Get(table, ip, ip);
      rows := rows + [[hostname, ip]];
    }
  }

  /** `IpToDomain.py` lines 86-87: the output name, with `.csv` appended unless its lower-case
      form already ends in `.csv`. */
  function CsvFileName(name: string): (r: string)
    ensures EndsWith(Lower(r), ".csv")
    ensures EndsWith(Lower(name), ".csv") ==> r == name
    ensures !EndsWith(Lower(name), ".csv") ==> r == name + ".csv"
  {
    if EndsWith(Lower(name), ".csv") then name
    else
      LowerAppend(name, ".csv");
      assert Lower(".csv") == ".csv";
      name + ".csv"
  }

  /** Normalising the name twice is the same as normalising it once. */
  lemma CsvFileNameIdempotent(name: string)
    ensures CsvFileName(CsvFileName(name)) == CsvFileName(name)
  {
  }

  // ---------------------------------------------------------------------------
  // The whole run
  // ---------------------------------------------------------------------------

  /** What the run writes to the CSV file: its name and its rows. */
  datatype CsvFile = CsvFile(name: string, rows: seq<seq<string>>)

  /** `IpToDomain.py` lines 85-96: no CSV file unless a non-empty name was given; the name gets
      its `.csv` suffix, and the rows are built from `valid` and the table. */
  method SaveCsv(valid: seq<string>, table: map<string, string>, outputFile: Option<string>)
    returns (csv: Option<CsvFile>)
    ensures csv.Some? <==> outputFile.Some? && outputFile.value != []
    ensures csv.Some? ==>
      && csv.value.name == CsvFileName(outputFile.value)
      && |csv.value.rows| == |valid| + 1
      && csv.value.rows[0] == CsvHeader
      && forall i :: 0 <= i < |valid| ==> csv.value.rows[i + 1] == [Get(table, valid[i], valid[i]), valid[i]]
  {
    csv := None;
    if outputFile.Some? && outputFile.value != [] {
      var name := outputFile.value;
      if !EndsWith(Lower(name), ".csv") {
        name := name + ".csv";
      }
      var rows := CsvRows(valid, table);
      csv := Some(CsvFile(name, rows));
    }
  }

  /** The valid addresses of a run are stripped, non-blank lines of its input. */
  lemma ValidIpsAreStripped(parsers: AddressParsers, raw: seq<string>)
    ensures var valid := ValidIps(parsers, NonBlankLines(raw));
      forall i :: 0 <= i < |valid| ==> valid[i] != [] && IsStripped(valid[i])
  {
    var lines := NonBlankLines(raw);
    var valid := ValidIps(parsers, lines);
    forall i | 0 <= i < |valid| ensures valid[i] != [] && IsStripped(valid[i]) {
      var j :| 0 <= j < |lines| && lines[j] == valid[i];
    }
  }

  /** `process_ip_file` without its I/O. `raw` holds the input file's lines;
      `outcomes[j]` is how the reverse lookup of the `j`-th valid address ended;
      `order` is the order in which the lookups completed; `outputFile` is the
      requested CSV name, if any. */
  method ProcessIpFile(parsers: AddressParsers, raw: seq<string>, outcomes: seq<LookupOutcome>,
                       order: seq<nat>, outputFile: Option<string>)
    returns (console: seq<string>, csv: Option<CsvFile>)
    requires |outcomes| == |ValidIps(parsers, NonBlankLines(raw))|
    requires IsCompletionOrder(order, |outcomes|)
    ensures var lines := NonBlankLines(raw);
      var valid := ValidIps(parsers, lines);
      var table := Table(valid, outcomes, order);
      && table.Keys == Elements(valid)
      && |console| == |Filter(IsPrinted, lines)|
      && (forall i :: 0 <= i < |console| ==> console[i] == ConsoleLine(parsers, table, Filter(IsPrinted, lines)[i]))
      && (csv.Some? <==> outputFile.Some? && outputFile.value != [])
      && (csv.Some? ==>
            && csv.value.name == CsvFileName(outputFile.value)
            && |csv.value.rows| == |valid| + 1
            && csv.value.rows[0] == CsvHeader
            && forall i :: 0 <= i < |valid| ==>
                 valid[i] in table && csv.value.rows[i + 1] == [table[valid[i]], valid[i]])
  {
    var lines := NonBlankLines(raw);
    var valid := ValidIps(parsers, lines);
    ValidIpsAreStripped(parsers, raw);
    var results := CollectResults(valid, outcomes, order);
    var table := ResultTable(results);
    TableCoversValidIps(valid, outcomes, order);
    assert forall i :: 0 <= i < |valid| ==> valid[i] in table;
    console := PrintResults(parsers, lines, table);
    csv := SaveCsv(valid, table, outputFile);
  }

  // ---------------------------------------------------------------------------
  // A worked run
  // ---------------------------------------------------------------------------

  /** A worked run over an address, a malformed line, a comment and a second
      address: only the two addresses are looked up. */
  lemma WorkedRunValidIps(parsers: AddressParsers, good: string, bad: string, comment: string, unnamed: string)
    requires IsValidIp(parsers, good) && IsValidIp(parsers, unnamed) && !IsValidIp(parsers, bad)
    requires IsStripped(comment) && comment != [] && comment[0] == '#'
    ensures ValidIps(parsers, [good, bad, comment, unnamed]) == [good, unnamed]
  {
    var lines := [good, bad, comment, unnamed];
    var test := ValidityTest(parsers);
    StripStripped(comment);
    assert !IsValidIp(parsers, comment);
    assert Filter(test, lines[3..]) == [unnamed];
    assert Filter(test, lines[2..]) == [unnamed];
    assert Filter(test, lines[1..]) == [unnamed];
  }

  /** Two tasks complete in one of the two possible orders. */
  lemma TwoTaskOrders(order: seq<nat>)
    requires IsCompletionOrder(order, 2)
    ensures order == [0, 1] || order == [1, 0]
  {
    assert 0 in order && 1 in order;
  }

  /** The table built from two results with different addresses holds both. */
  lemma TwoResultTable(first: LookupResult, second: LookupResult)
    requires first.ip != second.ip
    ensures ResultTable([first, second]) == map[first.ip := first.name, second.ip := second.name]
  {
    assert [first, second][..1] == [first];
    assert ResultTable([first]) == map[first.ip := first.name] by {
      assert [first][..0] == [];
    }
  }

  /** The worked run's lookups: the first address resolves to `hostname`, the
      lookup of the second finds no PTR record. In either completion order the
      table maps the first to the hostname and the second to itself. */
  lemma WorkedRunTable(good: string, unnamed: string, hostname: string, order: seq<nat>)
    requires IsStripped(good) && IsStripped(unnamed) && unnamed != good
    requires IsCompletionOrder(order, 2)
    ensures Table([good, unnamed], [Resolved(hostname, [], []), HostError], order)
         == map[good := hostname, unnamed := unnamed]
  {
    var valid, outcomes := [good, unnamed], [Resolved(hostname, [], []), HostError];
    StripStripped(good);
    StripStripped(unnamed);
    var r0 := IpToHostname(good, outcomes[0]);
    var r1 := IpToHostname(unnamed, outcomes[1]);
    assert r0 == LookupResult(hostname, good);
    assert r1 == LookupResult(unnamed, unnamed);
    TwoTaskOrders(order);
    if order == [0, 1] {
      assert CompletedResults(valid, outcomes, order) == [r0, r1];
      TwoResultTable(r0, r1);
    } else {
      assert CompletedResults(valid, outcomes, order) == [r1, r0];
      TwoResultTable(r1, r0);
    }
  }

  /** The worked run's console: the hostname for the first address, the
      malformed line reported as such, and the fallback for the second address. */
  lemma WorkedRunConsole(parsers: AddressParsers, good: string, bad: string, unnamed: string, hostname: string)
    requires IsStripped(good) && IsValidIp(parsers, good)
    requires IsStripped(unnamed) && IsValidIp(parsers, unnamed) && unnamed != good
    requires IsStripped(bad) && !IsValidIp(parsers, bad)
    ensures var table := map[good := hostname, unnamed := unnamed];
      && ConsoleLine(parsers, table, good) == hostname + ":" + good
      && ConsoleLine(parsers, table, bad) == "Invalid IP format:" + bad
      && ConsoleLine(parsers, table, unnamed) == unnamed + ":" + unnamed
  {
    StripStripped(good);
    StripStripped(bad);
    StripStripped(unnamed);
  }
}
