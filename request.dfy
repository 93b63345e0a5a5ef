/** The request wrapper (includes/elasticsearch/class-request.php): the retry
    loop of remote_request and the headers of format_request_headers. The
    network call wp_remote_request is an oracle indexed by the attempt number;
    the hooks, esc_url, ep_get_host and the clock are parameters. */
module Request {
  import opened Php
  import Base64

  /** What wp_remote_request returns: false, a WP_Error, or a response whose
      ['response']['code'] may be unset. The code `false` that WP_Http::request
      gives a non-blocking call is not a case of its own: it fails the test of
      line 74 as any code not starting with "20" does, so the oracle stands for it
      by such a code. */
  datatype Response =
    | NoResponse
    | WpError(message: string)
    | HttpResponse(code: Option<int>, body: string)

  /** The test of line 74: a response that is neither false nor a WP_Error, whose
      code is unset or, written in decimal, starts with "20". */
  predicate Succeeded(r: Response)
  {
    r.HttpResponse? && (r.code.None? || StartsWith(IntToString(r.code.value), "20"))
  }

  /** Everything remote_request consults besides its arguments. */
  datatype Env = Env(
    initialHost: string,                               // ep_get_host()
    hostHook: (string, int) -> string,                 // es_pre_request_host(host, failures)
    urlHook: (string, int, string) -> string,          // es_pre_request_url(url, failures, host)
    escUrl: string -> string,                          // esc_url
    maxTries: int,                                     // es_max_remote_request_tries (default 1)
    send: (nat, string, seq<(Key, Value)>) -> Response, // wp_remote_request, for the n-th attempt
    shield: Option<string>,                            // the ES_SHIELD constant, when defined
    headersHook: seq<(Key, Value)> -> seq<(Key, Value)>,  // es_format_request_headers
    clock: real                                        // microtime(true) after the loop
  )

  function Max1(m: int): int { if m < 1 then 1 else m }

  // ---------------------------------------------------------------------------
  // format_request_headers

  /** The Authorization header value for credentials "user:password". */
  function BasicAuth(credentials: string): string
    requires Base64.IsBytes(credentials)
  {
    "Basic " + Base64.Encode(credentials)
  }

  /** The headers before the filter: Authorization exactly when ES_SHIELD is
      defined and truthy. */
  function ShieldHeaders(shield: Option<string>): (h: seq<(Key, Value)>)
    requires shield.Some? ==> Base64.IsBytes(shield.value)
    ensures h == [] <==> shield.None? || IsEmpty(Str(shield.value))
    ensures h != [] ==> h == [(StrKey("Authorization"), Str(BasicAuth(shield.value)))]
  {
    if shield.Some? && !IsEmpty(Str(shield.value)) then [(StrKey("Authorization"), Str(BasicAuth(shield.value)))]
    else []
  }

  /** format_request_headers. */
  function FormatRequestHeaders(env: Env): seq<(Key, Value)>
    requires env.shield.Some? ==> Base64.IsBytes(env.shield.value)
  {
    env.headersHook(ShieldHeaders(env.shield))
  }

  /** The credentials can be read back from the header. */
  lemma BasicAuthDecodes(credentials: string)
    requires Base64.IsBytes(credentials)
    ensures |BasicAuth(credentials)| >= 6 && BasicAuth(credentials)[..6] == "Basic "
    ensures Base64.Decode(BasicAuth(credentials)[6..]) == Some(credentials)
  {
    Base64.RoundTrip(credentials);
    assert BasicAuth(credentials)[6..] == Base64.Encode(credentials);
  }

  /** With the default filter the only possible header is Authorization, present
      exactly when ES_SHIELD is defined and neither "" nor "0". */
  lemma DefaultHeaders(env: Env)
    requires env.shield.Some? ==> Base64.IsBytes(env.shield.value)
    requires forall h :: env.headersHook(h) == h
    ensures var h := FormatRequestHeaders(env);
            && (h == [] <==> env.shield.None? || env.shield.value == "" || env.shield.value == "0")
            && (h != [] ==> h == [(StrKey("Authorization"), Str(BasicAuth(env.shield.value)))])
  {
    if env.shield.Some? {
      EmptyStringCases(env.shield.value);
      if |env.shield.value| == 1 && env.shield.value[0] == '0' {
        assert env.shield.value == "0";
      }
    }
  }

  // ---------------------------------------------------------------------------
  // The retry loop of remote_request

  /** How the loop ends: the last response, the failure count, and the host and
      URL of the last attempt. */
  datatype Outcome = Outcome(response: Response, failures: nat, host: string, url: string)

  /** The number of attempts made. */
  function Attempts(o: Outcome): nat
  {
    if Succeeded(o.response) then o.failures + 1 else o.failures
  }

  /** The URL of one attempt (lines 68-69). */
  function AttemptUrl(env: Env, host: string, failures: nat, path: string): string
  {
    env.urlHook(env.escUrl(Trailingslashit(host) + path), failures, host)
  }

  /** The loop from an attempt with `failures` failures behind it and `host` as
      the host of the previous attempt. */
  function Run(env: Env, path: string, args: seq<(Key, Value)>, host: string, failures: nat): (o: Outcome)
    requires failures < Max1(env.maxTries)
    ensures o.failures >= failures
    ensures Succeeded(o.response) ==> o.failures < Max1(env.maxTries)
    ensures !Succeeded(o.response) ==> o.failures == Max1(env.maxTries)
    ensures Attempts(o) >= 1 && o.url == AttemptUrl(env, o.host, Attempts(o) - 1, path)
    decreases Max1(env.maxTries) - failures
  {
    var h := env.hostHook(host, failures);
    var url := AttemptUrl(env, h, failures, path);
    var response := env.send(failures, url, args);
    if Succeeded(response) then Outcome(response, failures, h, url)
    else if failures + 1 >= env.maxTries then Outcome(response, failures + 1, h, url)
    else Run(env, path, args, h, failures + 1)
  }

  /** What remote_request records about the call. */
  datatype QueryLog = QueryLog(args: seq<(Key, Value)>, timeFinish: Value, blocking: bool,
                               failedHosts: seq<string>, request: Response, host: string, url: string)

  /** `$args['blocking']` is set and identical to false. */
  predicate NonBlocking(args: seq<(Key, Value)>) { Lookup(args, StrKey("blocking")) == Some(Bool(false)) }

  /** The arguments the requests are sent with: any caller headers replaced. */
  function SentArgs(args: seq<(Key, Value)>, env: Env): (a: seq<(Key, Value)>)
    requires env.shield.Some? ==> Base64.IsBytes(env.shield.value)
    ensures Lookup(a, StrKey("headers")) == Some(Arr(FormatRequestHeaders(env)))
    ensures forall k | k != StrKey("headers") :: Lookup(a, k) == Lookup(args, k)
  {
    Store(args, StrKey("headers"), Arr(FormatRequestHeaders(env)))
  }

  /** Adding the headers leaves `blocking` alone. */
  lemma NonBlockingSent(args: seq<(Key, Value)>, env: Env)
    requires env.shield.Some? ==> Base64.IsBytes(env.shield.value)
    ensures NonBlocking(SentArgs(args, env)) == NonBlocking(args)
  {
    assert StrKey("blocking") != StrKey("headers");
  }

  /** remote_request(path, args): returns the last response and the log entry
      that would be handed to _add_query_log. */
  method RemoteRequest(path: string, args: seq<(Key, Value)>, env: Env) returns (request: Response, query: QueryLog)
    requires env.shield.Some? ==> Base64.IsBytes(env.shield.value)
    ensures var o := Run(env, path, SentArgs(args, env), env.initialHost, 0);
            && request == o.response
            && query == QueryLog(args, if NonBlocking(args) then Bool(false) else Float(env.clock), true, [],
                                 o.response, o.host, o.url)
  {
    query := QueryLog(args, Bool(false), true, [], NoResponse, env.initialHost, "");
    var sent := SentArgs(args, env);
    request := NoResponse;
    var failures: nat := 0;
    var host := env.initialHost;
    var url := "";
    while true
      invariant failures < Max1(env.maxTries)
      invariant Run(env, path, sent, host, failures) == Run(env, path, sent, env.initialHost, 0)
      decreases Max1(env.maxTries) - failures
    {
      var h := env.hostHook(host, failures);
      url := AttemptUrl(env, h, failures, path);
      request := env.send(failures, url, sent);
      if !Succeeded(request) {
        if failures + 1 >= env.maxTries {
          failures := failures + 1;
          host := h;
          assert Run(env, path, sent, env.initialHost, 0) == Outcome(request, failures, host, url);
          break;
        }
        failures := failures + 1;
        host := h;
      } else {
        host := h;
        assert Run(env, path, sent, env.initialHost, 0) == Outcome(request, failures, host, url);
        break;
      }
    }
    NonBlockingSent(args, env);
    var finish: Value := if NonBlocking(sent) then Bool(false) else Float(env.clock);
    query := query.(host := host, url := url, timeFinish := finish, request := request);
  }

  /** At least one request is made, and never more than max(M, 1). */
  lemma AttemptBounds(env: Env, path: string, args: seq<(Key, Value)>)
    ensures var o := Run(env, path, args, env.initialHost, 0);
            1 <= Attempts(o) <= Max1(env.maxTries)
  {
  }

  /** A failed run has failed exactly max(M, 1) times; a successful one made one
      attempt more than it failed. */
  lemma AttemptCount(env: Env, path: string, args: seq<(Key, Value)>)
    ensures var o := Run(env, path, args, env.initialHost, 0);
            && (Succeeded(o.response) ==> Attempts(o) == o.failures + 1)
            && (!Succeeded(o.response) ==> Attempts(o) == o.failures == Max1(env.maxTries))
  {
  }

  /** With the default maximum of 1 exactly one request is made, and its
      response is the result. */
  lemma SingleAttempt(env: Env, path: string, args: seq<(Key, Value)>)
    requires env.maxTries == 1
    ensures var o := Run(env, path, args, env.initialHost, 0);
            && Attempts(o) == 1
            && o.response == env.send(0, AttemptUrl(env, env.hostHook(env.initialHost, 0), 0, path), args)
  {
  }

  /** When the attempts before attempt k (counting from 0) fail whatever their
      URL and attempt k succeeds, the call succeeds exactly when max(M, 1) > k,
      after k + 1 attempts. */
  lemma {:induction false} SuccessOnAttempt(env: Env, path: string, args: seq<(Key, Value)>, host: string,
                                            failures: nat, k: nat)
    requires failures < Max1(env.maxTries) && failures <= k
    requires forall i: nat, u | failures <= i < k :: !Succeeded(env.send(i, u, args))
    requires forall u :: Succeeded(env.send(k, u, args))
    ensures var o := Run(env, path, args, host, failures);
            (Succeeded(o.response) <==> k < Max1(env.maxTries))
            && (Succeeded(o.response) ==> Attempts(o) == k + 1)
    decreases k - failures
  {
    var h := env.hostHook(host, failures);
    var url := AttemptUrl(env, h, failures, path);
    if failures < k {
      assert !Succeeded(env.send(failures, url, args));
      if failures + 1 < env.maxTries {
        SuccessOnAttempt(env, path, args, h, failures + 1, k);
      }
    } else {
      assert Succeeded(env.send(k, url, args));
    }
  }

  /** With the default host filter every attempt goes to ep_get_host()'s host,
      at trailingslashit(host) . path before the filters. */
  lemma {:induction false} DefaultHost(env: Env, path: string, args: seq<(Key, Value)>, failures: nat)
    requires failures < Max1(env.maxTries)
    requires forall h, f :: env.hostHook(h, f) == h
    ensures var o := Run(env, path, args, env.initialHost, failures);
            o.host == env.initialHost
            && o.url == env.urlHook(env.escUrl(Trailingslashit(env.initialHost) + path), Attempts(o) - 1, env.initialHost)
    decreases Max1(env.maxTries) - failures
  {
    var url := AttemptUrl(env, env.initialHost, failures, path);
    var response := env.send(failures, url, args);
    if !Succeeded(response) && failures + 1 < env.maxTries {
      DefaultHost(env, path, args, failures + 1);
    }
  }

  /** A three-digit status code succeeds exactly when it lies in 200..209, so
      226 or 299 count as failures. */
  lemma ThreeDigitCodes(code: int)
    requires 100 <= code <= 999
    ensures Succeeded(HttpResponse(Some(code), "")) <==> 200 <= code <= 209
  {
    ThreeDigits(code);
    var s := IntToString(code);
    assert StartsWith(s, "20") <==> s[0] == '2' && s[1] == '0';
    DigitCharInjective(code / 100, 2);
    DigitCharInjective(code / 10 % 10, 0);
  }

  lemma DigitCharInjective(d: nat, e: nat)
    requires d < 10 && e < 10
    ensures DigitChar(d) == DigitChar(e) <==> d == e
  {
  }
}
