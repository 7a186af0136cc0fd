# SSRF-guarded HTTP commands of the YASP desktop app

The desktop shell of YASP exposes two Tauri commands to its frontend.
`execute_api_request` sends an arbitrary HTTP request on the user's behalf.
`fetch_spec` downloads an OpenAPI document. Before either sends anything, it
runs the URL through `validate_url`:

- only `http` and `https` are allowed;
- the URL must have a host;
- four cloud-metadata hosts are refused by exact string match;
- a host that is an IP literal is checked against eleven private, loopback,
  link-local, CGNAT and test ranges (`check_ip_allowed`);
- nine service ports are refused.

`execute_api_request` then checks the method against an allow-list and
builds the request headers, stopping at the first invalid one. After the
reply arrives, it keeps the response headers that read as text and refuses
bodies over 10 MiB. `fetch_spec` refuses a non-2xx status before it reads the
body, refuses bodies over 5 MiB, and requires strict UTF-8.

The model has five modules:

- `Wrappers`: `Option`, `Result` and a pass/fail `Outcome`.
- `IpRanges`: addresses and CIDR networks, with addresses as numbers. It
  holds the eleven-range table and the `check_ip_allowed` loop. The loop is
  proved against a specification function that returns the first range
  containing the address. In that function, containment by prefix is shown
  to be membership in an aligned interval, and each range of the table is
  worked out as an explicit interval.
- `UrlPolicy`: `validate_url` over an already-parsed URL. URL parsing and
  IP-literal parsing are given to the model as functions.
- `Utf8`: strict UTF-8 as section 4 of RFC 3629 defines it, which is what
  `String::from_utf8` accepts. It has an encoder and a decoder and proves
  they are inverse in both directions. A byte sequence decodes exactly when
  it is the encoding of some string.
- `Commands`: the two commands. `send` (the network) and the elapsed time are
  parameters. The library calls whose internals are not visible are fields
  of a `Lib` value: upper-casing, header-name and header-value validation,
  `HeaderValue::to_str`, reason phrases and lossy decoding. The two
  header-filling loops are methods, proved against functions. Lemmas about
  those functions state which keys end up in the map and which value each
  key keeps (the last one inserted).

A `HashMap` or `HeaderMap` is iterated in an order the program does not fix.
The model takes that order as the order of a sequence of pairs. Every
property proved holds for any order.

`url::Url::host_str()` writes an IPv6 host inside brackets (`[::1]`).
`IpAddr::from_str` does not accept that form. So, through `validate_url`,
the three IPv6 ranges and the `fd00:ec2::254` metadata entry never match a
real URL. `UrlPolicy.BracketedIpv6HostPasses` states this under the
hypothesis that the IP parser refuses the bracketed form.

## Model

| member | source | states |
|---|---|---|
| IpRanges.ContainsIsInterval | packages/desktop/src-tauri/src/commands/mod.rs:101-102 | a network built from a prefix contains an address exactly when the address is of the same family and lies in the aligned block that holds the network address |
| IpRanges.Contains | packages/desktop/src-tauri/src/commands/mod.rs:102 | `IpNetwork::contains`: the address is of the network's family and agrees with the network address on the leading prefix bits; `ContainsIsInterval` gives it its interval meaning |
| IpRanges.PrivateRangesWellFormed | packages/desktop/src-tauri/src/commands/mod.rs:86-101 | each of the eleven networks in the table, written out by hand from its range string, has a prefix within its family's width and a network address inside its family's address space; the model does not parse the strings, so this is the model's counterpart of the `if let Ok(network)` skip never happening |
| IpRanges.FirstBlocking | packages/desktop/src-tauri/src/commands/mod.rs:100-108 | the search returns None exactly when no range contains the address, and otherwise the index of the first range in list order that does |
| IpRanges.Verdict | packages/desktop/src-tauri/src/commands/mod.rs:100-110 | the address is refused exactly when some range contains it, and the refusal names the first such range |
| IpRanges.CheckIpAgainst | packages/desktop/src-tauri/src/commands/mod.rs:100-110 | the loop over a range list refuses exactly when some range contains the address, names the first one, and gives the verdict of the specification function |
| IpRanges.IpVerdict | packages/desktop/src-tauri/src/commands/mod.rs:85-111 | `check_ip_allowed` as a value: a refusal exactly when one of the eleven listed ranges contains the address, naming the first such range in list order |
| IpRanges.CheckIpAllowed | packages/desktop/src-tauri/src/commands/mod.rs:85-111 | `check_ip_allowed` over the eleven listed ranges: Err exactly when a listed range contains the address, naming the first in list order |
| IpRanges.BlockedIpv4Intervals | packages/desktop/src-tauri/src/commands/mod.rs:86-98 | the blocked IPv4 space is exactly the union of eight explicit intervals of 32-bit values |
| IpRanges.BlockedIpv6Intervals | packages/desktop/src-tauri/src/commands/mod.rs:86-98 | the blocked IPv6 space is exactly ::1 plus two explicit intervals of 128-bit values |
| IpRanges.Private10Interval | packages/desktop/src-tauri/src/commands/mod.rs:87 | 10.0.0.0/8 holds exactly 10.0.0.0 to 10.255.255.255 |
| IpRanges.Private172Interval | packages/desktop/src-tauri/src/commands/mod.rs:88 | 172.16.0.0/12 holds exactly 172.16.0.0 to 172.31.255.255 |
| IpRanges.Private192Interval | packages/desktop/src-tauri/src/commands/mod.rs:89 | 192.168.0.0/16 holds exactly 192.168.0.0 to 192.168.255.255 |
| IpRanges.LoopbackInterval | packages/desktop/src-tauri/src/commands/mod.rs:90 | 127.0.0.0/8 holds exactly 127.0.0.0 to 127.255.255.255 |
| IpRanges.Ipv6LoopbackInterval | packages/desktop/src-tauri/src/commands/mod.rs:91 | ::1/128 holds exactly the address ::1 |
| IpRanges.LinkLocalInterval | packages/desktop/src-tauri/src/commands/mod.rs:92 | 169.254.0.0/16 holds exactly 169.254.0.0 to 169.254.255.255 |
| IpRanges.UniqueLocalInterval | packages/desktop/src-tauri/src/commands/mod.rs:93 | fc00::/7 holds exactly fc00:: up to, but not including, fe00:: |
| IpRanges.Ipv6LinkLocalInterval | packages/desktop/src-tauri/src/commands/mod.rs:94 | fe80::/10 holds exactly fe80:: up to, but not including, fec0:: |
| IpRanges.SharedInterval | packages/desktop/src-tauri/src/commands/mod.rs:95 | 100.64.0.0/10 holds exactly 100.64.0.0 to 100.127.255.255 |
| IpRanges.TestNet2Interval | packages/desktop/src-tauri/src/commands/mod.rs:96 | 198.51.100.0/24 holds exactly 198.51.100.0 to 198.51.100.255 |
| IpRanges.TestNet3Interval | packages/desktop/src-tauri/src/commands/mod.rs:97 | 203.0.113.0/24 holds exactly 203.0.113.0 to 203.0.113.255 |
| IpRanges.PublicIpPasses | packages/desktop/src-tauri/src/commands/mod.rs:337-341 | 8.8.8.8 is allowed |
| IpRanges.LoopbackRefused | packages/desktop/src-tauri/src/commands/mod.rs:343-347 | every address of 127.0.0.0/8, 127.0.0.1 among them, is refused, and the refusal names the loopback range |
| IpRanges.LinkLocalRefused | packages/desktop/src-tauri/src/commands/mod.rs:349-353 | every address of 169.254.0.0/16, 169.254.1.1 among them, is refused, and the refusal names the link-local range |
| IpRanges.Private10Refused | packages/desktop/src-tauri/src/commands/mod.rs:87 | every address of 10.0.0.0/8 is refused, and the refusal names that range |
| IpRanges.Private172Refused | packages/desktop/src-tauri/src/commands/mod.rs:88 | every address of 172.16.0.0/12 is refused, and the refusal names that range |
| IpRanges.Private192Refused | packages/desktop/src-tauri/src/commands/mod.rs:89 | every address of 192.168.0.0/16 is refused, and the refusal names that range |
| IpRanges.Ipv6LoopbackRefused | packages/desktop/src-tauri/src/commands/mod.rs:91 | ::1 is refused, and the refusal names the IPv6 loopback range |
| UrlPolicy.CheckParsed | packages/desktop/src-tauri/src/commands/mod.rs:30-82 | a parsed URL passes exactly when all five checks pass, and then it is returned unchanged; otherwise the first failing check, in the order scheme, host, metadata, IP range, port, gives the error, and an IP refusal names the first containing range |
| UrlPolicy.ValidateUrl | packages/desktop/src-tauri/src/commands/mod.rs:25-83 | a parse failure is reported as an invalid URL; success happens exactly when the parse succeeds and the parsed URL passes every check; a validated URL is the parsed one, with scheme http or https and no dangerous port |
| UrlPolicy.PublicHostsAccepted | packages/desktop/src-tauri/src/commands/mod.rs:265-273 | the two public hostnames over https and http, on a default port or on 8443 or 8080, are accepted |
| UrlPolicy.OtherSchemesRefused | packages/desktop/src-tauri/src/commands/mod.rs:275-283 | file: and ftp: URLs are refused by the scheme check, whatever their host, port and path |
| UrlPolicy.MetadataRefusedFirst | packages/desktop/src-tauri/src/commands/mod.rs:45-55 | each of the four metadata hosts is refused as a metadata host, whatever the IP parser makes of it |
| UrlPolicy.RefusedByRange | packages/desktop/src-tauri/src/commands/mod.rs:59-60 | an IP-literal host that a private range contains is refused, naming that range |
| UrlPolicy.LoopbackUrlRefused | packages/desktop/src-tauri/src/commands/mod.rs:295-298 | http://127.0.0.1:8080/api is refused by the loopback range |
| UrlPolicy.Private10UrlRefused | packages/desktop/src-tauri/src/commands/mod.rs:300-303 | http://10.0.0.1/internal is refused by 10.0.0.0/8 |
| UrlPolicy.Private192UrlRefused | packages/desktop/src-tauri/src/commands/mod.rs:305-308 | http://192.168.1.1/router is refused by 192.168.0.0/16 |
| UrlPolicy.Private172UrlRefused | packages/desktop/src-tauri/src/commands/mod.rs:310-313 | http://172.16.0.1/internal is refused by 172.16.0.0/12 |
| UrlPolicy.DangerousPortsRefused | packages/desktop/src-tauri/src/commands/mod.rs:73-80 | each of the nine listed ports, 22 and 3306 among them, is refused on an otherwise acceptable URL |
| UrlPolicy.HostnameSkipsRangeCheck | packages/desktop/src-tauri/src/commands/mod.rs:59-69 | a host that is not an IP literal is never refused by range, and it passes when the scheme, metadata and port checks pass |
| UrlPolicy.BracketedIpv6HostPasses | packages/desktop/src-tauri/src/commands/mod.rs:39-61 | when the IP parser refuses the bracketed `host_str` form, http://[::1]/ and http://[fd00:ec2::254]/ pass every check |
| Utf8.Decode | packages/desktop/src-tauri/src/commands/mod.rs:255 | `String::from_utf8`: a decoded string has no more characters than the input has bytes; the round-trip lemmas below give its full meaning |
| Utf8.DecodeFirst | packages/desktop/src-tauri/src/commands/mod.rs:255 | a decoded first character takes 1 to 4 bytes, and exactly those bytes are its encoding |
| Utf8.DecodeEncode | packages/desktop/src-tauri/src/commands/mod.rs:255 | strictly decoding the UTF-8 encoding of any string gives that string back |
| Utf8.EncodeDecode | packages/desktop/src-tauri/src/commands/mod.rs:255 | whatever strict decoding accepts encodes back to exactly the same bytes |
| Utf8.DecodeSucceedsIffValid | packages/desktop/src-tauri/src/commands/mod.rs:255-256 | strict decoding succeeds exactly on the byte sequences that are the UTF-8 encoding of some string |
| Utf8.RejectsIllFormed | packages/desktop/src-tauri/src/commands/mod.rs:255-256 | overlong forms, a surrogate, a value above U+10FFFF, a stray continuation byte and a truncated sequence are all refused |
| Commands.Flatten | packages/desktop/src-tauri/src/commands/mod.rs:155 | the map left by inserting pairs in order, with later keys overwriting earlier ones, has at most one entry per pair; `FlattenKeys` and `FlattenValue` state its keys and values |
| Commands.FlattenKeys | packages/desktop/src-tauri/src/commands/mod.rs:155 | after inserting a sequence of pairs, the map's keys are exactly the keys of the pairs |
| Commands.FlattenValue | packages/desktop/src-tauri/src/commands/mod.rs:155 | after inserting a sequence of pairs, each key maps to the value of its last pair |
| Commands.MethodAllowed | packages/desktop/src-tauri/src/commands/mod.rs:132-134 | the upper-cased method is one of GET, POST, PUT, PATCH, DELETE, HEAD and OPTIONS |
| Commands.HeaderError | packages/desktop/src-tauri/src/commands/mod.rs:151-154 | a refused header is reported as an invalid name when its name is invalid, and otherwise as an invalid value; the name is checked first |
| Commands.ParseHeaders | packages/desktop/src-tauri/src/commands/mod.rs:148-156 | the header list is accepted exactly when every name and value is valid, and then each pair is kept with its name normalized; otherwise the error belongs to the first invalid pair and concerns its name if the name is invalid, else its value |
| Commands.RequestHeaders | packages/desktop/src-tauri/src/commands/mod.rs:148-156 | a header map is built exactly when every header is valid |
| Commands.HeaderErrorPersists | packages/desktop/src-tauri/src/commands/mod.rs:149-153 | once a prefix of the headers fails, the whole list fails with the same error |
| Commands.RequestHeaderNames | packages/desktop/src-tauri/src/commands/mod.rs:148-156 | the request's header map has exactly the normalized names of the headers as keys |
| Commands.RequestHeaderValues | packages/desktop/src-tauri/src/commands/mod.rs:148-156 | each normalized name maps to the value of the last header with that name |
| Commands.BuildHeaderMap | packages/desktop/src-tauri/src/commands/mod.rs:148-156 | the header loop returns the header map of the specification function, or its first error |
| Commands.ResponseHeaders | packages/desktop/src-tauri/src/commands/mod.rs:181-186 | the response-header map: each header whose value reads as text is inserted under its name and the others are skipped, so it has at most one entry per header; `ResponseHeaderNames` and `ResponseHeaderValues` state its keys and values |
| Commands.ResponseHeaderNames | packages/desktop/src-tauri/src/commands/mod.rs:181-186 | a name is in the response-header map exactly when some response header of that name reads as text |
| Commands.ResponseHeaderValues | packages/desktop/src-tauri/src/commands/mod.rs:181-186 | a name in the response-header map maps to the text of the last header of that name that reads as text |
| Commands.CollectResponseHeaders | packages/desktop/src-tauri/src/commands/mod.rs:181-186 | the response-header loop leaves the map of the specification function |
| Commands.ExecuteRequest | packages/desktop/src-tauri/src/commands/mod.rs:128-167 | an invalid URL is reported first, then a method whose upper-casing is not allowed; a request is built exactly when the URL, the method and every header are valid, and it carries the validated URL, the upper-cased method, the header map, the body as given and the client settings of 5 redirects and 30 seconds |
| Commands.StatusText | packages/desktop/src-tauri/src/commands/mod.rs:178 | the status's canonical reason phrase, or "Unknown" when it has none |
| Commands.Respond | packages/desktop/src-tauri/src/commands/mod.rs:168-207 | a send failure is reported as a failed request, an unreadable body as a read failure, and a body over 10 MiB as the size error; a response is returned exactly when the request was sent and a body of at most 10 MiB was read; it carries the status, its reason phrase or "Unknown", the response headers that read as text, the lossily decoded body and the elapsed milliseconds cut to 64 bits |
| Commands.ExecuteSpec | packages/desktop/src-tauri/src/commands/mod.rs:122-208 | any error found before sending is the command's result, and success implies the request passed all pre-send checks |
| Commands.ExecuteApiRequest | packages/desktop/src-tauri/src/commands/mod.rs:122-208 | the command, step by step with its two header loops, gives the result of the specification function |
| Commands.NothingSentWhenRefused | packages/desktop/src-tauri/src/commands/mod.rs:128-174 | a request refused before dispatch has the same result whatever the network or the clock would do |
| Commands.UrlCheckedFirst | packages/desktop/src-tauri/src/commands/mod.rs:128-136 | an invalid URL is reported before any method or header error |
| Commands.MethodCheck | packages/desktop/src-tauri/src/commands/mod.rs:131-136 | for a valid URL, the method is refused exactly when its upper-casing is not one of GET, POST, PUT, PATCH, DELETE, HEAD or OPTIONS |
| Commands.BodyLimit | packages/desktop/src-tauri/src/commands/mod.rs:175-207 | once the body is read, the command succeeds exactly when it is at most 10485760 bytes, so exactly 10 MiB is accepted; otherwise it fails with the size error; on success the response holds the status, its reason phrase or "Unknown", the text headers, the lossy body and the truncated duration |
| Commands.SpecRequest | packages/desktop/src-tauri/src/commands/mod.rs:227-233 | the spec request: a GET of the validated URL with the JSON/YAML `Accept` header, no body, and the client settings of 3 redirects and 15 seconds |
| Commands.IsSuccess | packages/desktop/src-tauri/src/commands/mod.rs:238 | `StatusCode::is_success`: the status is from 200 to 299 |
| Commands.FetchSpec | packages/desktop/src-tauri/src/commands/mod.rs:215-257 | an invalid URL is reported first; a request that cannot be sent is a fetch failure, and a 2xx reply whose body cannot be read is a read failure; a returned spec comes from a validated URL and encodes to at most 5 MiB |
| Commands.FetchStatusFirst | packages/desktop/src-tauri/src/commands/mod.rs:238-243 | a non-2xx reply is refused with its status, whatever its body |
| Commands.FetchOutcome | packages/desktop/src-tauri/src/commands/mod.rs:245-256 | for a 2xx reply, the spec is returned exactly when the body is at most 5242880 bytes and valid UTF-8; a larger body is refused with the size error; the returned text is the one the bytes encode |

## Left out

- Building the `reqwest` client, TLS selection, following redirects and timeouts are network I/O. The client settings travel inside the request as numbers, and `send` stands for the rest. The client-build failure is not modelled: it depends only on the TLS backend, not on the inputs.
- The source follows up to 5 redirects (3 for `fetch_spec`) without re-validating their targets against `validate_url`. `send` stands for the whole exchange, so the model does not see those hops either.
- The `.await` points and the concurrency of the async runtime are not modelled.
- `Instant::now()` and `elapsed()` are clocks: the elapsed milliseconds are a parameter. Only the `as u64` truncation of `as_millis()` is modelled.
- `url::Url::parse`, `IpAddr::from_str`, `str::to_uppercase`, `HeaderName::from_bytes`, `HeaderValue::from_str`, `HeaderValue::to_str`, `StatusCode::canonical_reason` and `String::from_utf8_lossy` are library code. They are parameters, so the model's properties hold for whatever those functions do. Lossy decoding can never fail, which the model reflects by returning a string.
- `reqwest::Method::from_bytes` and its `Invalid method` error are not modelled. The upper-cased method is always one of seven standard method names at that point, and `from_bytes` accepts every standard name, so that error cannot occur.
- Error messages are not modelled, only which kind of error occurs. The error records the values the message would show.
- There is no DNS resolution in the source, so a hostname is never range-checked. The model keeps it that way.
- An IPv4-mapped IPv6 address such as ::ffff:127.0.0.1 is not matched by the IPv4 ranges. That follows the `ipnetwork` crate, and the model gives the same answer.
- `lib.rs` is Tauri app glue and is not part of this model.
