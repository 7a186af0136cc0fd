/**
 * The two Tauri commands, `execute_api_request` and `fetch_spec`: what is
 * checked before anything is sent, the request that goes out, and how the
 * reply becomes an `ApiResponse` or a spec text. The network is a function
 * from the request to what came back, and the elapsed time is a number
 * passed in; the library behaviour the commands lean on (upper-casing,
 * header-name and header-value validation, header text, reason phrases,
 * lossy decoding) is a set of functions handed to the model.
 */
module Commands {
  import opened Wrappers
  import opened UrlPolicy
  import opened Utf8

  /** An HTTP status code as `StatusCode::as_u16` gives it. */
  type StatusCode = x: int | 100 <= x < 1000 witness 200

  /** The 64-bit unsigned range of `duration_ms`. */
  const U64_LIMIT: nat := 0x1_0000_0000_0000_0000
  type U64 = x: int | 0 <= x < U64_LIMIT

  /** Library behaviour the commands call but whose internals are not modelled. */
  datatype Lib = Lib(
    parsers: Parsers,                            // `Url::parse` and `IpAddr::from_str`
    upper: string -> string,                     // `str::to_uppercase`
    headerName: string -> Option<string>,        // `HeaderName::from_bytes`, giving the lower-cased name
    headerValueOk: string -> bool,               // `HeaderValue::from_str` succeeds
    headerText: seq<Byte> -> Option<string>,     // `HeaderValue::to_str`
    canonicalReason: StatusCode -> Option<string>,
    lossy: seq<Byte> -> string)                  // `String::from_utf8_lossy`

  /** The redirect cap and timeout a client is built with. */
  datatype ClientPolicy = ClientPolicy(maxRedirects: nat, timeoutSecs: nat)

  const EXECUTE_CLIENT := ClientPolicy(5, 30)
  const FETCH_CLIENT := ClientPolicy(3, 15)

  /** What is handed to `send`: client settings, method, validated URL, headers, body. */
  datatype Request = Request(
    client: ClientPolicy,
    verb: string,
    url: Url,
    headers: map<string, string>,
    body: Option<string>)

  datatype BodyRead = BodyBytes(bytes: seq<Byte>) | BodyReadError

  /** A reply: status, headers in `HeaderMap` iteration order, and the body read. */
  datatype RawResponse = RawResponse(status: StatusCode, headers: seq<(string, seq<Byte>)>, body: BodyRead)

  /** The outcome of `send().await`. */
  datatype Exchange = Sent(response: RawResponse) | SendError

  /** The record returned to the frontend. */
  datatype ApiResponse = ApiResponse(
    status: StatusCode,
    statusText: string,
    headers: map<string, string>,
    body: string,
    durationMs: U64)

  /** Why a command fails, one kind per `Err` the commands return. */
  datatype CommandError =
    | UrlRejected(reason: UrlError)
    | DisallowedMethod(verb: string)
    | InvalidHeaderName(key: string)
    | InvalidHeaderValue(key: string)
    | RequestFailed
    | BodyReadFailed
    | ResponseTooLarge(limit: nat)
    | SpecFetchFailed
    | SpecHttpStatus(status: StatusCode)
    | SpecReadFailed
    | SpecTooLarge(limit: nat)
    | SpecNotUtf8

  const ALLOWED_METHODS: seq<string> := ["GET", "POST", "PUT", "PATCH", "DELETE", "HEAD", "OPTIONS"]

  /** 10 MiB, the largest response body `execute_api_request` returns. */
  const MAX_BODY_BYTES: nat := 10 * 1024 * 1024

  /** 5 MiB, the largest spec `fetch_spec` returns. */
  const MAX_SPEC_BYTES: nat := 5 * 1024 * 1024

  const SPEC_ACCEPT := "application/json, application/yaml, text/yaml, text/plain, */*"

  /** The upper-cased method is one of the seven allowed names. */
  predicate MethodAllowed(lib: Lib, verb: string) {
    lib.upper(verb) in ALLOWED_METHODS
  }

  // ─── Maps filled by repeated insertion ────────────────────────────────────

  /** The map left by inserting the pairs in order: a later key overwrites an earlier one. */
  function Flatten<K(==), V>(ps: seq<(K, V)>): (r: map<K, V>)
    ensures |r| <= |ps|
  {
    if ps == [] then map[] else Flatten(ps[..|ps| - 1])[ps[|ps| - 1].0 := ps[|ps| - 1].1]
  }

  /** (k, v) is a pair of ps, and no later pair has the key k. */
  ghost predicate LastBinding<K, V>(ps: seq<(K, V)>, k: K, v: V) {
    exists i: nat :: i < |ps| && ps[i] == (k, v) && forall j :: i < j < |ps| ==> ps[j].0 != k
  }

  /** The keys of the map are the keys of the pairs. */
  lemma {:induction false} FlattenKeys<K, V>(ps: seq<(K, V)>, k: K)
    ensures k in Flatten(ps) <==> exists i: nat :: i < |ps| && ps[i].0 == k
  {
    if ps != [] {
      var n := |ps| - 1;
      var init := ps[..n];
      FlattenKeys(init, k);
      if k in Flatten(init) {
        var i: nat :| i < n && init[i].0 == k;
        assert ps[i] == init[i];
      }
      if exists i: nat :: i < |ps| && ps[i].0 == k {
        var i: nat :| i < |ps| && ps[i].0 == k;
        if i < n {
          assert init[i] == ps[i];
        }
      }
    }
  }

  /** Each key maps to the value of its last pair. */
  lemma {:induction false} FlattenValue<K, V>(ps: seq<(K, V)>, k: K)
    requires k in Flatten(ps)
    ensures LastBinding(ps, k, Flatten(ps)[k])
  {
    var n := |ps| - 1;
    var init := ps[..n];
    var v := Flatten(ps)[k];
    if ps[n].0 == k {
      assert ps[n] == (k, v);
    } else {
      FlattenValue(init, k);
      var i: nat :| i < n && init[i] == (k, v) && forall j :: i < j < n ==> init[j].0 != k;
      assert ps[i] == init[i];
      forall j | i < j < |ps|
        ensures ps[j].0 != k
      {
        if j < n {
          assert ps[j] == init[j];
        }
      }
    }
  }

  // ─── Request headers ──────────────────────────────────────────────────────

  /** Both halves of one request header are accepted by the `http` crate. */
  predicate HeaderOk(lib: Lib, h: (string, string)) {
    lib.headerName(h.0).Some? && lib.headerValueOk(h.1)
  }

  /**
   * The headers as `HeaderMap` receives them: each pair with its name
   * normalized, or the error for the first pair that fails. The name is
   * checked before the value.
   */
  function ParseHeaders(lib: Lib, hs: seq<(string, string)>): (r: Result<seq<(string, string)>, CommandError>)
    ensures r.Ok? <==> forall i :: 0 <= i < |hs| ==> HeaderOk(lib, hs[i])
    ensures r.Ok? ==>
      && |r.value| == |hs|
      && forall i :: 0 <= i < |hs| ==> r.value[i] == (lib.headerName(hs[i].0).value, hs[i].1)
    ensures r.Err? ==> exists i: nat :: i < |hs| && FirstBadHeader(lib, hs, i) && r.error == HeaderError(lib, hs[i])
  {
    if hs == [] then Ok([])
    else
      var init := ParseHeaders(lib, hs[..|hs| - 1]);
      var key, value := hs[|hs| - 1].0, hs[|hs| - 1].1;
      assert forall i :: 0 <= i < |hs| - 1 ==> hs[..|hs| - 1][i] == hs[i];
      if init.Err? then init
      else if lib.headerName(key).None? then Err(InvalidHeaderName(key))
      else if !lib.headerValueOk(value) then Err(InvalidHeaderValue(key))
      else Ok(init.value + [(lib.headerName(key).value, value)])
  }

  /** The error for a refused header: its name if the name is invalid, otherwise its value. */
  function HeaderError(lib: Lib, h: (string, string)): CommandError {
    if lib.headerName(h.0).None? then InvalidHeaderName(h.0) else InvalidHeaderValue(h.0)
  }

  /** Pair i is the first one the `http` crate refuses. */
  ghost predicate FirstBadHeader(lib: Lib, hs: seq<(string, string)>, i: nat)
    requires i < |hs|
  {
    !HeaderOk(lib, hs[i]) && forall j :: 0 <= j < i ==> HeaderOk(lib, hs[j])
  }

  /** The request's `HeaderMap`, or the first header error. */
  function RequestHeaders(lib: Lib, hs: seq<(string, string)>): (r: Result<map<string, string>, CommandError>)
    ensures r.Ok? <==> forall i :: 0 <= i < |hs| ==> HeaderOk(lib, hs[i])
  {
    match ParseHeaders(lib, hs)
    case Err(e) => Err(e)
    case Ok(ps) => Ok(Flatten(ps))
  }

  /** Once a prefix of the headers fails, the whole list fails with the same error. */
  lemma {:induction false} HeaderErrorPersists(lib: Lib, hs: seq<(string, string)>, n: nat)
    requires n <= |hs| && ParseHeaders(lib, hs[..n]).Err?
    ensures ParseHeaders(lib, hs) == ParseHeaders(lib, hs[..n])
    decreases |hs| - n
  {
    if n < |hs| {
      var p := hs[..n + 1];
      assert p[..n] == hs[..n];
      assert ParseHeaders(lib, p) == ParseHeaders(lib, hs[..n]);
      HeaderErrorPersists(lib, hs, n + 1);
    } else {
      assert hs[..n] == hs;
    }
  }

  /** A valid header list's map has exactly the normalized names of the list as keys. */
  lemma RequestHeaderNames(lib: Lib, hs: seq<(string, string)>, name: string)
    requires RequestHeaders(lib, hs).Ok?
    ensures name in RequestHeaders(lib, hs).value <==>
      exists i: nat :: i < |hs| && lib.headerName(hs[i].0) == Some(name)
  {
    var ps := ParseHeaders(lib, hs).value;
    FlattenKeys(ps, name);
    if exists i: nat :: i < |hs| && lib.headerName(hs[i].0) == Some(name) {
      var i: nat :| i < |hs| && lib.headerName(hs[i].0) == Some(name);
      assert ps[i].0 == name;
    }
  }

  /** Each name of a valid header list maps to the value of the last header with that name. */
  lemma RequestHeaderValues(lib: Lib, hs: seq<(string, string)>, name: string)
    requires RequestHeaders(lib, hs).Ok? && name in RequestHeaders(lib, hs).value
    ensures var m := RequestHeaders(lib, hs).value;
      exists i: nat :: && i < |hs| && lib.headerName(hs[i].0) == Some(name) && hs[i].1 == m[name]
                       && forall j :: i < j < |hs| ==> lib.headerName(hs[j].0) != Some(name)
  {
    var ps := ParseHeaders(lib, hs).value;
    FlattenValue(ps, name);
    var m := Flatten(ps);
    var i: nat :| i < |ps| && ps[i] == (name, m[name]) && forall j :: i < j < |ps| ==> ps[j].0 != name;
    assert lib.headerName(hs[i].0) == Some(name);
    forall j | i < j < |hs|
      ensures lib.headerName(hs[j].0) != Some(name)
    {
      assert ps[j].0 != name;
    }
  }

  /** The header loop of `execute_api_request`: insert each validated header into the map. */
  method BuildHeaderMap(lib: Lib, hs: seq<(string, string)>) returns (r: Result<map<string, string>, CommandError>)
    ensures r == RequestHeaders(lib, hs)
  {
    var m: map<string, string> := map[];
    ghost var ps: seq<(string, string)> := [];
    var i := 0;
    while i < |hs|
      invariant 0 <= i <= |hs|
      invariant ParseHeaders(lib, hs[..i]) == Ok(ps)
      invariant m == Flatten(ps)
    {
      var key, value := hs[i].0, hs[i].1;
      assert hs[..i + 1][..i] == hs[..i];
      var name := lib.headerName(key);
      if name.None? {
        HeaderErrorPersists(lib, hs, i + 1);
        return Err(InvalidHeaderName(key));
      }
      if !lib.headerValueOk(value) {
        HeaderErrorPersists(lib, hs, i + 1);
        return Err(InvalidHeaderValue(key));
      }
      m := m[name.value := value];
      ps := ps + [(name.value, value)];
      i := i + 1;
    }
    assert hs[..|hs|] == hs;
    r := Ok(m);
  }

  // ─── Response headers ─────────────────────────────────────────────────────

  /**
   * The map the response-header loop leaves: each header whose value reads
   * as text is inserted under its name, the others are skipped.
   */
  function ResponseHeaders(lib: Lib, hs: seq<(string, seq<Byte>)>): (r: map<string, string>)
    ensures |r| <= |hs|
  {
    if hs == [] then map[]
    else
      var m := ResponseHeaders(lib, hs[..|hs| - 1]);
      match lib.headerText(hs[|hs| - 1].1)
      case None => m
      case Some(text) => m[hs[|hs| - 1].0 := text]
  }

  /** Response header i has the given name and its value reads as `text`. */
  ghost predicate TextAt(lib: Lib, hs: seq<(string, seq<Byte>)>, i: nat, name: string, text: string)
    requires i < |hs|
  {
    hs[i].0 == name && lib.headerText(hs[i].1) == Some(text)
  }

  /** Header i reads as `text`, and no later header of that name reads as text. */
  ghost predicate LastText(lib: Lib, hs: seq<(string, seq<Byte>)>, name: string, text: string) {
    exists i: nat :: i < |hs| && TextAt(lib, hs, i, name, text) &&
      (forall j :: i < j < |hs| && hs[j].0 == name ==> lib.headerText(hs[j].1).None?)
  }

  /** A name is in the response-header map exactly when some header of that name reads as text. */
  lemma {:induction false} ResponseHeaderNames(lib: Lib, hs: seq<(string, seq<Byte>)>, name: string)
    ensures name in ResponseHeaders(lib, hs) <==>
      exists i: nat :: i < |hs| && hs[i].0 == name && lib.headerText(hs[i].1).Some?
  {
    if hs != [] {
      var n := |hs| - 1;
      var init := hs[..n];
      ResponseHeaderNames(lib, init, name);
      if name in ResponseHeaders(lib, init) {
        var i: nat :| i < n && init[i].0 == name && lib.headerText(init[i].1).Some?;
        assert hs[i] == init[i];
      }
      if exists i: nat :: i < |hs| && hs[i].0 == name && lib.headerText(hs[i].1).Some? {
        var i: nat :| i < |hs| && hs[i].0 == name && lib.headerText(hs[i].1).Some?;
        if i < n {
          assert init[i] == hs[i];
        }
      }
    }
  }

  /** A name in the response-header map maps to the text of the last header of that name that reads as text. */
  lemma {:induction false} ResponseHeaderValues(lib: Lib, hs: seq<(string, seq<Byte>)>, name: string)
    requires name in ResponseHeaders(lib, hs)
    ensures LastText(lib, hs, name, ResponseHeaders(lib, hs)[name])
  {
    var n := |hs| - 1;
    var init := hs[..n];
    var text := ResponseHeaders(lib, hs)[name];
    if hs[n].0 == name && lib.headerText(hs[n].1).Some? {
      assert TextAt(lib, hs, n, name, text);
    } else {
      ResponseHeaderValues(lib, init, name);
      var i: nat :| i < n && TextAt(lib, init, i, name, text) &&
        (forall j :: i < j < n && init[j].0 == name ==> lib.headerText(init[j].1).None?);
      assert hs[i] == init[i];
      assert TextAt(lib, hs, i, name, text);
      forall j | i < j < |hs| && hs[j].0 == name
        ensures lib.headerText(hs[j].1).None?
      {
        if j < n {
          assert init[j] == hs[j];
        }
      }
    }
  }

  /** The response-header loop of `execute_api_request`. */
  method CollectResponseHeaders(lib: Lib, hs: seq<(string, seq<Byte>)>) returns (m: map<string, string>)
    ensures m == ResponseHeaders(lib, hs)
  {
    m := map[];
    var i := 0;
    while i < |hs|
      invariant 0 <= i <= |hs|
      invariant m == ResponseHeaders(lib, hs[..i])
    {
      assert hs[..i + 1][..i] == hs[..i];
      var text := lib.headerText(hs[i].1);
      if text.Some? {
        m := m[hs[i].0 := text.value];
      }
      i := i + 1;
    }
    assert hs[..|hs|] == hs;
  }

  // ─── execute_api_request ──────────────────────────────────────────────────

  /**
   * Everything `execute_api_request` does before sending: validate the URL,
   * then the method, then the headers. The request it builds carries the
   * validated URL, the upper-cased method and the body as given.
   */
  function ExecuteRequest(lib: Lib, verb: string, url: string, headers: seq<(string, string)>, body: Option<string>)
    : (r: Result<Request, CommandError>)
    ensures ValidateUrl(lib.parsers, url).Err? ==> r == Err(UrlRejected(ValidateUrl(lib.parsers, url).error))
    ensures ValidateUrl(lib.parsers, url).Ok? && !MethodAllowed(lib, verb) ==> r == Err(DisallowedMethod(verb))
    ensures r.Ok? <==>
      && ValidateUrl(lib.parsers, url).Ok?
      && MethodAllowed(lib, verb)
      && forall i :: 0 <= i < |headers| ==> HeaderOk(lib, headers[i])
    ensures r.Ok? ==>
      && r.value.url == ValidateUrl(lib.parsers, url).value
      && r.value.verb == lib.upper(verb) && r.value.verb in ALLOWED_METHODS
      && r.value.headers == RequestHeaders(lib, headers).value
      && r.value.body == body
      && r.value.client == EXECUTE_CLIENT
  {
    match ValidateUrl(lib.parsers, url)
    case Err(e) => Err(UrlRejected(e))
    case Ok(u) =>
      var upper := lib.upper(verb);
      if upper !in ALLOWED_METHODS then Err(DisallowedMethod(verb))
      else
        match RequestHeaders(lib, headers)
        case Err(e) => Err(e)
        case Ok(m) => Ok(Request(EXECUTE_CLIENT, upper, u, m, body))
  }

  /** The reason phrase of the status, or "Unknown" when the status has none. */
  function StatusText(lib: Lib, status: StatusCode): string {
    match lib.canonicalReason(status)
    case Some(reason) => reason
    case None => "Unknown"
  }

  /** What `execute_api_request` makes of the reply. */
  function Respond(lib: Lib, ex: Exchange, elapsedMs: nat): (r: Result<ApiResponse, CommandError>)
    ensures ex.SendError? ==> r == Err(RequestFailed)
    ensures ex.Sent? && ex.response.body.BodyReadError? ==> r == Err(BodyReadFailed)
    ensures ex.Sent? && ex.response.body.BodyBytes? && |ex.response.body.bytes| > MAX_BODY_BYTES ==>
      r == Err(ResponseTooLarge(MAX_BODY_BYTES))
    ensures r.Ok? <==> ex.Sent? && ex.response.body.BodyBytes? && |ex.response.body.bytes| <= MAX_BODY_BYTES
    ensures r.Ok? ==>
      && r.value.status == ex.response.status
      && r.value.statusText == StatusText(lib, ex.response.status)
      && r.value.headers == ResponseHeaders(lib, ex.response.headers)
      && r.value.body == lib.lossy(ex.response.body.bytes)
      && r.value.durationMs == elapsedMs % U64_LIMIT
  {
    match ex
    case SendError => Err(RequestFailed)
    case Sent(resp) =>
      match resp.body
      case BodyReadError => Err(BodyReadFailed)
      case BodyBytes(bytes) =>
        if |bytes| > MAX_BODY_BYTES then Err(ResponseTooLarge(MAX_BODY_BYTES))
        else Ok(ApiResponse(
          resp.status,
          StatusText(lib, resp.status),
          ResponseHeaders(lib, resp.headers),
          lib.lossy(bytes),
          elapsedMs % U64_LIMIT))
  }

  /** `execute_api_request` as a whole: `send` is the network, `elapsedMs` the clock. */
  function ExecuteSpec(lib: Lib, send: Request -> Exchange, elapsedMs: nat,
                       verb: string, url: string, headers: seq<(string, string)>, body: Option<string>)
    : (r: Result<ApiResponse, CommandError>)
    ensures ExecuteRequest(lib, verb, url, headers, body).Err? ==>
      r == Err(ExecuteRequest(lib, verb, url, headers, body).error)
    ensures r.Ok? ==> ExecuteRequest(lib, verb, url, headers, body).Ok?
  {
    match ExecuteRequest(lib, verb, url, headers, body)
    case Err(e) => Err(e)
    case Ok(req) => Respond(lib, send(req), elapsedMs)
  }

  /** `execute_api_request`, step by step, with its two header loops. */
  method ExecuteApiRequest(lib: Lib, send: Request -> Exchange, elapsedMs: nat,
                           verb: string, url: string, headers: seq<(string, string)>, body: Option<string>)
    returns (r: Result<ApiResponse, CommandError>)
    ensures r == ExecuteSpec(lib, send, elapsedMs, verb, url, headers, body)
  {
    var parsed := ValidateUrl(lib.parsers, url);
    if parsed.Err? {
      return Err(UrlRejected(parsed.error));
    }
    var methodUpper := lib.upper(verb);
    if methodUpper !in ALLOWED_METHODS {
      return Err(DisallowedMethod(verb));
    }
    var headerMap := BuildHeaderMap(lib, headers);
    if headerMap.Err? {
      return Err(headerMap.error);
    }
    var exchange := send(Request(EXECUTE_CLIENT, methodUpper, parsed.value, headerMap.value, body));
    if exchange.SendError? {
      return Err(RequestFailed);
    }
    var response := exchange.response;
    var statusText := StatusText(lib, response.status);
    var responseHeaders := CollectResponseHeaders(lib, response.headers);
    if response.body.BodyReadError? {
      return Err(BodyReadFailed);
    }
    var bytes := response.body.bytes;
    if |bytes| > MAX_BODY_BYTES {
      return Err(ResponseTooLarge(MAX_BODY_BYTES));
    }
    r := Ok(ApiResponse(response.status, statusText, responseHeaders, lib.lossy(bytes), elapsedMs % U64_LIMIT));
  }

  /** A request refused before dispatch is refused whatever the network would have done. */
  lemma NothingSentWhenRefused(lib: Lib, send1: Request -> Exchange, send2: Request -> Exchange,
                               t1: nat, t2: nat, verb: string, url: string,
                               headers: seq<(string, string)>, body: Option<string>)
    requires ExecuteRequest(lib, verb, url, headers, body).Err?
    ensures ExecuteSpec(lib, send1, t1, verb, url, headers, body)
         == ExecuteSpec(lib, send2, t2, verb, url, headers, body)
  {
  }

  /** A rejected URL is reported before any method or header error. */
  lemma UrlCheckedFirst(lib: Lib, send: Request -> Exchange, t: nat, verb: string, url: string,
                        headers: seq<(string, string)>, body: Option<string>)
    requires ValidateUrl(lib.parsers, url).Err?
    ensures ExecuteSpec(lib, send, t, verb, url, headers, body)
         == Err(UrlRejected(ValidateUrl(lib.parsers, url).error))
  {
  }

  /** The method passes exactly when its upper-casing is one of the seven allowed names. */
  lemma MethodCheck(lib: Lib, send: Request -> Exchange, t: nat, verb: string, url: string,
                    headers: seq<(string, string)>, body: Option<string>)
    requires ValidateUrl(lib.parsers, url).Ok?
    ensures ExecuteSpec(lib, send, t, verb, url, headers, body) == Err(DisallowedMethod(verb))
        <==> lib.upper(verb) !in ALLOWED_METHODS
  {
  }

  /**
   * Once the request has gone out and its body has been read, the command
   * succeeds exactly when the body is at most 10 MiB, so a body of exactly
   * 10 MiB is returned; the response then carries the status, its reason
   * phrase (or "Unknown"), the text-valued headers and the body decoded
   * lossily.
   */
  lemma BodyLimit(lib: Lib, send: Request -> Exchange, t: nat, verb: string, url: string,
                  headers: seq<(string, string)>, body: Option<string>, resp: RawResponse, bytes: seq<Byte>)
    requires ExecuteRequest(lib, verb, url, headers, body).Ok?
    requires send(ExecuteRequest(lib, verb, url, headers, body).value) == Sent(resp)
    requires resp.body == BodyBytes(bytes)
    ensures var r := ExecuteSpec(lib, send, t, verb, url, headers, body);
      && (r.Ok? <==> |bytes| <= 10485760)
      && (r.Err? ==> r.error == ResponseTooLarge(10485760))
      && (r.Ok? ==> r.value == ApiResponse(resp.status, StatusText(lib, resp.status),
                                           ResponseHeaders(lib, resp.headers),
                                           lib.lossy(bytes), t % U64_LIMIT))
  {
  }

  // ─── fetch_spec ───────────────────────────────────────────────────────────

  /** The spec request: a GET of the validated URL asking for JSON or YAML, without a body. */
  function SpecRequest(u: Url): Request {
    Request(FETCH_CLIENT, "GET", u, map["accept" := SPEC_ACCEPT], None)
  }

  /** `StatusCode::is_success`: 200 to 299. */
  predicate IsSuccess(status: StatusCode) {
    200 <= status <= 299
  }

  /**
   * `fetch_spec`: validate the URL, GET it, refuse a non-2xx status before
   * reading the body, refuse more than 5 MiB, then decode strictly.
   */
  function FetchSpec(lib: Lib, send: Request -> Exchange, url: string): (r: Result<string, CommandError>)
    ensures ValidateUrl(lib.parsers, url).Err? ==> r == Err(UrlRejected(ValidateUrl(lib.parsers, url).error))
    ensures ValidateUrl(lib.parsers, url).Ok? && send(SpecRequest(ValidateUrl(lib.parsers, url).value)).SendError? ==>
      r == Err(SpecFetchFailed)
    ensures ValidateUrl(lib.parsers, url).Ok? ==>
      var ex := send(SpecRequest(ValidateUrl(lib.parsers, url).value));
      ex.Sent? && IsSuccess(ex.response.status) && ex.response.body.BodyReadError? ==> r == Err(SpecReadFailed)
    ensures r.Ok? ==> ValidateUrl(lib.parsers, url).Ok? && |Encode(r.value)| <= MAX_SPEC_BYTES
  {
    match ValidateUrl(lib.parsers, url)
    case Err(e) => Err(UrlRejected(e))
    case Ok(u) =>
      match send(SpecRequest(u))
      case SendError => Err(SpecFetchFailed)
      case Sent(resp) =>
        if !IsSuccess(resp.status) then Err(SpecHttpStatus(resp.status))
        else
          match resp.body
          case BodyReadError => Err(SpecReadFailed)
          case BodyBytes(bytes) =>
            if |bytes| > MAX_SPEC_BYTES then Err(SpecTooLarge(MAX_SPEC_BYTES))
            else
              match Decode(bytes)
              case None => Err(SpecNotUtf8)
              case Some(text) =>
                EncodeDecode(bytes);
                Ok(text)
  }

  /** A non-2xx reply is refused with its status, whatever its body. */
  lemma FetchStatusFirst(lib: Lib, send: Request -> Exchange, url: string, u: Url, resp: RawResponse)
    requires ValidateUrl(lib.parsers, url) == Ok(u)
    requires send(SpecRequest(u)) == Sent(resp) && !IsSuccess(resp.status)
    ensures FetchSpec(lib, send, url) == Err(SpecHttpStatus(resp.status))
  {
  }

  /**
   * For a 2xx reply with body `bytes`, the spec is returned exactly when the
   * body is at most 5 MiB and valid UTF-8, and the text returned is the one
   * those bytes encode.
   */
  lemma FetchOutcome(lib: Lib, send: Request -> Exchange, url: string, u: Url, resp: RawResponse, bytes: seq<Byte>)
    requires ValidateUrl(lib.parsers, url) == Ok(u)
    requires send(SpecRequest(u)) == Sent(resp) && IsSuccess(resp.status) && resp.body == BodyBytes(bytes)
    ensures var r := FetchSpec(lib, send, url);
      && (r.Ok? <==> |bytes| <= 5242880 && IsValidUtf8(bytes))
      && (|bytes| > 5242880 ==> r == Err(SpecTooLarge(5242880)))
      && (r.Ok? ==> Encode(r.value) == bytes)
  {
    if |bytes| <= MAX_SPEC_BYTES {
      DecodeSucceedsIffValid(bytes);
      EncodeDecode(bytes);
    }
  }
}
