/** The two per-address operations of the tool: deciding whether an input line
    holds an IP address (`is_valid_ip`) and turning the answer of a reverse DNS
    lookup into a (name, address) pair (`ip_to_hostname`). */
module IpToDomain {
  import opened PyStr

  /** The C library's address parsers (`inet_pton` for AF_INET and for AF_INET6):
      whether a text is an IPv4 dotted quad, and whether it is an IPv6 address in
      presentation form. Their acceptance sets are outside this program. */
  datatype AddressParsers = AddressParsers(ipv4: string -> bool, ipv6: string -> bool)

  /** `is_valid_ip`: strip the line; reject it when it is empty or a `#` comment;
      otherwise try the IPv4 parser, and on failure the IPv6 parser. */
  function IsValidIp(parsers: AddressParsers, line: string): (ok: bool)
    ensures ok ==> Strip(line) != [] && Strip(line)[0] != '#'
  {
    var ip := Strip(line);
    if ip == [] || StartsWith(ip, "#") then false
    else if parsers.ipv4(ip) then true
    else parsers.ipv6(ip)
  }

  /** Blank lines and comment lines are never addresses, whatever the parsers accept. */
  lemma RejectsBlankAndComments(parsers: AddressParsers, line: string)
    requires Strip(line) == [] || Strip(line)[0] == '#'
    ensures !IsValidIp(parsers, line)
  {
  }

  /** Any other line is an address exactly when its stripped text parses as IPv4 or IPv6. */
  lemma DefersToParsers(parsers: AddressParsers, line: string)
    requires Strip(line) != [] && Strip(line)[0] != '#'
    ensures IsValidIp(parsers, line) <==> parsers.ipv4(Strip(line)) || parsers.ipv6(Strip(line))
  {
  }

  /** Surrounding whitespace never changes the verdict. */
  lemma ValidityIgnoresWhitespace(parsers: AddressParsers, line: string)
    ensures IsValidIp(parsers, Strip(line)) == IsValidIp(parsers, line)
  {
    StripIdempotent(line);
  }

  /** How `socket.gethostbyaddr` ended for one lookup: it returned the triple
      (primary hostname, aliases, addresses), or it raised `socket.herror`,
      `socket.gaierror`, `socket.timeout` or some other exception. */
  datatype LookupOutcome =
    | Resolved(hostname: string, aliases: seq<string>, addresses: seq<string>)
    | HostError
    | AddressInfoError
    | Timeout
    | OtherError

  /** The pair `ip_to_hostname` returns: the resolved name (or the fallback) and the address. */
  datatype LookupResult = LookupResult(name: string, ip: string)

  /** `ip_to_hostname`: the primary hostname on success; every kind of failure
      falls back to the address itself. The function is total: no outcome escapes. */
  function IpToHostname(ip: string, outcome: LookupOutcome): (r: LookupResult)
    ensures r.ip == Strip(ip)
    ensures outcome.Resolved? ==> r.name == outcome.hostname
    ensures !outcome.Resolved? ==> r.name == r.ip
  {
    var ip := Strip(ip);
    match outcome
    case Resolved(hostname, _, _) => LookupResult(hostname, ip)
    case HostError => LookupResult(ip, ip)
    case AddressInfoError => LookupResult(ip, ip)
    case Timeout => LookupResult(ip, ip)
    case OtherError => LookupResult(ip, ip)
  }

  /** The name in a lookup result is either the address itself or a hostname the resolver returned. */
  lemma NameIsAddressOrHostname(ip: string, outcome: LookupOutcome)
    ensures var r := IpToHostname(ip, outcome);
      r.name == r.ip || (outcome.Resolved? && r.name == outcome.hostname)
  {
  }
}
