/**
 * `validate_url`: the SSRF policy applied to a request's destination before
 * anything is sent. The URL arrives already parsed; parsing and IP-literal
 * recognition are the `url` crate's and the standard library's, and are
 * given to the policy as functions.
 */
module UrlPolicy {
  import opened Wrappers
  import opened IpRanges

  type Port = x: nat | x < 0x1_0000

  /**
   * What the checks read from a parsed `url::Url`: the scheme (lower-cased
   * by the parser), `host_str()`, `port()` (None when absent or equal to the
   * scheme's default) and the rest of the URL, which the policy never reads.
   */
  datatype Url = Url(scheme: string, host: Option<string>, port: Option<Port>, rest: string)

  /** `url::Url::parse` and `IpAddr::from_str`, whose internals are not modelled. */
  datatype Parsers = Parsers(
    parseUrl: string -> Result<Url, string>,
    parseIp: string -> Option<IpAddr>)

  /** Why a URL is refused, one kind per check. */
  datatype UrlError =
    | InvalidUrl(reason: string)
    | DisallowedScheme(scheme: string)
    | NoHost
    | BlockedMetadataHost(host: string)
    | BlockedPrivateIp(ip: IpAddr, range: BlockedRange)
    | BlockedPort(port: Port)

  const ALLOWED_SCHEMES: seq<string> := ["http", "https"]

  /** Cloud metadata endpoints, matched as exact strings. */
  const METADATA_HOSTS: seq<string> := [
    "169.254.169.254",           // AWS/GCP/Azure instance metadata
    "metadata.google.internal",
    "fd00:ec2::254",             // AWS instance metadata over IPv6
    "100.100.100.200"            // Alibaba Cloud metadata
  ]

  const DANGEROUS_PORTS: seq<Port> := [22, 23, 25, 110, 143, 3306, 5432, 6379, 27017]

  predicate SchemeAllowed(scheme: string) {
    scheme in ALLOWED_SCHEMES
  }

  predicate IsMetadataHost(host: string) {
    host in METADATA_HOSTS
  }

  predicate PortBlocked(port: Option<Port>) {
    port.Some? && port.value in DANGEROUS_PORTS
  }

  /** The host is an IP literal lying in one of the private ranges. */
  ghost predicate HostIpBlocked(parseIp: string -> Option<IpAddr>, host: string) {
    parseIp(host).Some? && IsBlocked(PRIVATE_RANGES, parseIp(host).value)
  }

  /** All five checks pass: what every validated URL satisfies. */
  ghost predicate Admissible(parseIp: string -> Option<IpAddr>, u: Url) {
    && SchemeAllowed(u.scheme)
    && u.host.Some?
    && !IsMetadataHost(u.host.value)
    && !HostIpBlocked(parseIp, u.host.value)
    && !PortBlocked(u.port)
  }

  /**
   * The checks after parsing, in the source's order. Each ensures names the
   * outcome when every earlier check has passed, so the first failing check
   * decides the error.
   */
  function CheckParsed(parseIp: string -> Option<IpAddr>, u: Url): (r: Result<Url, UrlError>)
    ensures r.Ok? <==> Admissible(parseIp, u)
    ensures r.Ok? ==> r.value == u
    ensures !SchemeAllowed(u.scheme) ==> r == Err(DisallowedScheme(u.scheme))
    ensures SchemeAllowed(u.scheme) && u.host.None? ==> r == Err(NoHost)
    ensures SchemeAllowed(u.scheme) && u.host.Some? && IsMetadataHost(u.host.value) ==>
              r == Err(BlockedMetadataHost(u.host.value))
    ensures SchemeAllowed(u.scheme) && u.host.Some? && !IsMetadataHost(u.host.value)
            && HostIpBlocked(parseIp, u.host.value) ==>
              && r.Err? && r.error.BlockedPrivateIp?
              && r.error.ip == parseIp(u.host.value).value
              && exists k: nat :: IsFirstContaining(PRIVATE_RANGES, r.error.ip, k)
                                  && r.error.range == PRIVATE_RANGES[k]
    ensures SchemeAllowed(u.scheme) && u.host.Some? && !IsMetadataHost(u.host.value)
            && !HostIpBlocked(parseIp, u.host.value) && PortBlocked(u.port) ==>
              r == Err(BlockedPort(u.port.value))
  {
    if !SchemeAllowed(u.scheme) then Err(DisallowedScheme(u.scheme))
    else if u.host.None? then Err(NoHost)
    else if IsMetadataHost(u.host.value) then Err(BlockedMetadataHost(u.host.value))
    else
      var ipRefusal: Option<UrlError> :=
        match parseIp(u.host.value)
        case None => None   // a hostname: no resolution, no range check
        case Some(ip) =>
          match IpVerdict(ip)
          case Pass => None
          case Fail(range) => Some(BlockedPrivateIp(ip, range));
      if ipRefusal.Some? then Err(ipRefusal.value)
      else if PortBlocked(u.port) then Err(BlockedPort(u.port.value))
      else Ok(u)
  }

  /** `validate_url`: parse, then the five checks; a validated URL is the parsed one, unchanged. */
  function ValidateUrl(p: Parsers, raw: string): (r: Result<Url, UrlError>)
    ensures p.parseUrl(raw).Err? ==> r == Err(InvalidUrl(p.parseUrl(raw).error))
    ensures r.Ok? <==> p.parseUrl(raw).Ok? && Admissible(p.parseIp, p.parseUrl(raw).value)
    ensures r.Ok? ==> p.parseUrl(raw) == Ok(r.value)
    ensures r.Ok? ==> r.value.scheme in ["http", "https"] && !PortBlocked(r.value.port)
  {
    match p.parseUrl(raw)
    case Err(reason) => Err(InvalidUrl(reason))
    case Ok(u) => CheckParsed(p.parseIp, u)
  }

  /** Public hostnames over http or https, on a default or an ordinary port, pass. */
  lemma PublicHostsAccepted(parseIp: string -> Option<IpAddr>)
    requires parseIp("petstore.swagger.io") == None && parseIp("api.example.com") == None
    ensures CheckParsed(parseIp, Url("https", Some("petstore.swagger.io"), None, "/v2/swagger.json")).Ok?
    ensures CheckParsed(parseIp, Url("http", Some("api.example.com"), None, "/openapi.yaml")).Ok?
    ensures CheckParsed(parseIp, Url("https", Some("api.example.com"), Some(8443), "/openapi")).Ok?
    ensures CheckParsed(parseIp, Url("http", Some("api.example.com"), Some(8080), "/openapi")).Ok?
  {
  }

  /** file: and ftp: URLs are refused by the scheme check, whatever else they hold. */
  lemma OtherSchemesRefused(parseIp: string -> Option<IpAddr>, host: Option<string>, port: Option<Port>, rest: string)
    ensures CheckParsed(parseIp, Url("file", host, port, rest)) == Err(DisallowedScheme("file"))
    ensures CheckParsed(parseIp, Url("ftp", host, port, rest)) == Err(DisallowedScheme("ftp"))
  {
  }

  /**
   * The four metadata hosts are refused as such, before and independently of
   * any IP-literal check.
   */
  lemma MetadataRefusedFirst(parseIp: string -> Option<IpAddr>, port: Option<Port>, rest: string, host: string)
    requires host in METADATA_HOSTS
    ensures CheckParsed(parseIp, Url("http", Some(host), port, rest)) == Err(BlockedMetadataHost(host))
  {
  }

  /** An IP-literal host whose address a private range contains is refused, naming that range. */
  lemma RefusedByRange(parseIp: string -> Option<IpAddr>, u: Url, ip: IpAddr, k: nat)
    requires SchemeAllowed(u.scheme) && u.host.Some? && !IsMetadataHost(u.host.value)
    requires parseIp(u.host.value) == Some(ip) && k < |PRIVATE_RANGES|
    requires IpVerdict(ip) == Fail(PRIVATE_RANGES[k])
    ensures CheckParsed(parseIp, u) == Err(BlockedPrivateIp(ip, PRIVATE_RANGES[k]))
  {
  }

  /** http://127.0.0.1:8080/api is refused by the loopback range (the parser yields 127.0.0.1). */
  lemma LoopbackUrlRefused(parseIp: string -> Option<IpAddr>, loopback: Ipv4Bits)
    requires Ipv4Of(127, 0, 0, 0) <= loopback <= Ipv4Of(127, 255, 255, 255)
    requires parseIp("127.0.0.1") == Some(V4(loopback))
    ensures CheckParsed(parseIp, Url("http", Some("127.0.0.1"), Some(8080), "/api"))
              == Err(BlockedPrivateIp(V4(loopback), PRIVATE_RANGES[3]))
  {
    LoopbackRefused(loopback);
    RefusedByRange(parseIp, Url("http", Some("127.0.0.1"), Some(8080), "/api"), V4(loopback), 3);
  }

  /** http://10.0.0.1/internal is refused by 10.0.0.0/8. */
  lemma Private10UrlRefused(parseIp: string -> Option<IpAddr>, addr: Ipv4Bits)
    requires Ipv4Of(10, 0, 0, 0) <= addr <= Ipv4Of(10, 255, 255, 255)
    requires parseIp("10.0.0.1") == Some(V4(addr))
    ensures CheckParsed(parseIp, Url("http", Some("10.0.0.1"), None, "/internal"))
              == Err(BlockedPrivateIp(V4(addr), PRIVATE_RANGES[0]))
  {
    Private10Refused(addr);
    RefusedByRange(parseIp, Url("http", Some("10.0.0.1"), None, "/internal"), V4(addr), 0);
  }

  /** http://192.168.1.1/router is refused by 192.168.0.0/16. */
  lemma Private192UrlRefused(parseIp: string -> Option<IpAddr>, addr: Ipv4Bits)
    requires Ipv4Of(192, 168, 0, 0) <= addr <= Ipv4Of(192, 168, 255, 255)
    requires parseIp("192.168.1.1") == Some(V4(addr))
    ensures CheckParsed(parseIp, Url("http", Some("192.168.1.1"), None, "/router"))
              == Err(BlockedPrivateIp(V4(addr), PRIVATE_RANGES[2]))
  {
    Private192Refused(addr);
    RefusedByRange(parseIp, Url("http", Some("192.168.1.1"), None, "/router"), V4(addr), 2);
  }

  /** http://172.16.0.1/internal is refused by 172.16.0.0/12. */
  lemma Private172UrlRefused(parseIp: string -> Option<IpAddr>, addr: Ipv4Bits)
    requires Ipv4Of(172, 16, 0, 0) <= addr <= Ipv4Of(172, 31, 255, 255)
    requires parseIp("172.16.0.1") == Some(V4(addr))
    ensures CheckParsed(parseIp, Url("http", Some("172.16.0.1"), None, "/internal"))
              == Err(BlockedPrivateIp(V4(addr), PRIVATE_RANGES[1]))
  {
    Private172Refused(addr);
    RefusedByRange(parseIp, Url("http", Some("172.16.0.1"), None, "/internal"), V4(addr), 1);
  }

  /** Every dangerous port is refused on an otherwise acceptable URL. */
  lemma DangerousPortsRefused(parseIp: string -> Option<IpAddr>, port: Port)
    requires parseIp("example.com") == None
    requires port in DANGEROUS_PORTS
    ensures CheckParsed(parseIp, Url("http", Some("example.com"), Some(port), "/")) == Err(BlockedPort(port))
  {
  }

  /**
   * A host that is not an IP literal is never range-checked: no name is
   * resolved, so the verdict is the one the scheme, metadata and port checks give.
   */
  lemma HostnameSkipsRangeCheck(parseIp: string -> Option<IpAddr>, u: Url)
    requires u.host.Some? && parseIp(u.host.value) == None
    ensures !(CheckParsed(parseIp, u).Err? && CheckParsed(parseIp, u).error.BlockedPrivateIp?)
    ensures SchemeAllowed(u.scheme) && !IsMetadataHost(u.host.value) && !PortBlocked(u.port) ==>
              CheckParsed(parseIp, u) == Ok(u)
  {
  }

  /**
   * `host_str()` writes an IPv6 host inside brackets, and an IP parser that
   * refuses the bracketed form leaves it unchecked: `http://[::1]/` passes,
   * and the bracketed metadata host is not on the list either.
   */
  lemma BracketedIpv6HostPasses(parseIp: string -> Option<IpAddr>)
    requires parseIp("[::1]") == None && parseIp("[fd00:ec2::254]") == None
    ensures CheckParsed(parseIp, Url("http", Some("[::1]"), None, "/")).Ok?
    ensures CheckParsed(parseIp, Url("http", Some("[fd00:ec2::254]"), None, "/latest")).Ok?
  {
  }
}
