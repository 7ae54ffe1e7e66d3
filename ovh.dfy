/**
 * The OVH API client of the bootstrap (src/main.rs): request signing, the
 * server-time step, assembly of a signed request, the secret-read URL, and the
 * shape of the secret the store returns.
 *
 * The HTTP transport, the JSON decoder and SHA-1 are not modelled: the server
 * time arrives as the text of the time endpoint's response (or a transport
 * failure), the signed request is returned as a record instead of being sent,
 * and SHA-1 is a parameter of type `Hasher`.
 */
module Ovh {
  import opened Wrappers
  import opened Errors
  import opened Text
  import Percent

  /** A 20-byte SHA-1 digest. */
  type Digest = d: seq<byte> | |d| == 20 witness seq(20, _ => 0 as byte)

  /** SHA-1, left uninterpreted: any function from bytes to 20 bytes. */
  type Hasher = seq<byte> -> Digest

  /** The standard HTTP methods of `reqwest::Method`. */
  datatype Method = OPTIONS | GET | POST | PUT | DELETE | HEAD | TRACE | CONNECT | PATCH {
    /** `Method::as_str`. */
    function AsStr(): string {
      match this
      case OPTIONS => "OPTIONS"
      case GET => "GET"
      case POST => "POST"
      case PUT => "PUT"
      case DELETE => "DELETE"
      case HEAD => "HEAD"
      case TRACE => "TRACE"
      case CONNECT => "CONNECT"
      case PATCH => "PATCH"
    }
  }

  /** `OvhClient` without its HTTP connection pool. */
  datatype OvhClient = OvhClient(
    appKey: string,
    appSecret: string,
    consumerKey: string,
    apiBaseV2: string)

  /** The key material inside the secret (`SecretData`). */
  datatype SecretData = SecretData(
    aura: string,
    grandpa: string,
    imOnline: string,
    keystoreSecret: string,
    nodeKey: string)

  /** `Version`: the `version` object of the response, holding `data`. */
  datatype Version = Version(data: SecretData)

  /** `SecretResponse`: the decoded body of a secret read. */
  datatype SecretResponse = SecretResponse(version: Version)

  // ---------------------------------------------------------------------------
  // Signing
  // ---------------------------------------------------------------------------

  /** `fields` joined by `sep`, with no escaping of `sep` inside a field. */
  function Join(fields: seq<string>, sep: char): string
  {
    if fields == [] then []
    else if |fields| == 1 then fields[0]
    else fields[0] + [sep] + Join(fields[1..], sep)
  }

  /** The text that `sign` hashes (the `clear` string). */
  function SignaturePreImage(client: OvhClient, verb: Method, url: string, body: string, ts: u64): (pre: string)
    ensures |pre| == |client.appSecret| + |client.consumerKey| + |verb.AsStr()| + |url| + |body| + |Decimal(ts)| + 5
    ensures pre[..|client.appSecret|] == client.appSecret
    ensures LastField(pre, '+') == Decimal(ts)
  {
    PlusJoinedSix(client.appSecret, client.consumerKey, verb.AsStr(), url, body, Decimal(ts));
    client.appSecret + "+" + client.consumerKey + "+" + verb.AsStr() + "+" + url + "+" + body + "+" + Decimal(ts)
  }

  /** Six fields joined by `+` start with the first and, when the last has no `+`, end with it as last field. */
  lemma PlusJoinedSix(f0: string, f1: string, f2: string, f3: string, f4: string, f5: string)
    requires '+' !in f5
    ensures var s := f0 + "+" + f1 + "+" + f2 + "+" + f3 + "+" + f4 + "+" + f5;
      && |s| == |f0| + |f1| + |f2| + |f3| + |f4| + |f5| + 5
      && s[..|f0|] == f0
      && LastField(s, '+') == f5
  {
    var head := f0 + "+" + f1 + "+" + f2 + "+" + f3 + "+" + f4;
    LastFieldAfterSep(head, '+', f5);
    var s := head + "+" + f5;
    assert forall i :: 0 <= i < |f0| ==> s[i] == f0[i];
  }

  /** `OvhClient::sign`: `$1$` and the lowercase hex SHA-1 of the UTF-8 pre-image. */
  function Sign(client: OvhClient, sha1: Hasher, verb: Method, url: string, body: string, ts: u64): (sig: string)
    ensures |sig| == 43 && sig[..3] == "$1$"
    ensures forall i :: 3 <= i < |sig| ==> IsLowerHexDigit(sig[i])
    ensures ParseHex(sig[3..]) == Some(sha1(Utf8(SignaturePreImage(client, verb, url, body, ts))))
  {
    var digest := sha1(Utf8(SignaturePreImage(client, verb, url, body, ts)));
    ParseLowerHex(digest);
    "$1$" + LowerHex(digest)
  }

  /** Joining one more field appends the separator and that field. */
  lemma {:induction false} JoinSnoc(fields: seq<string>, x: string, sep: char)
    requires fields != []
    ensures Join(fields + [x], sep) == Join(fields, sep) + [sep] + x
    decreases |fields|
  {
    if |fields| == 1 {
      assert (fields + [x])[1..] == [x];
    } else {
      assert (fields + [x])[1..] == fields[1..] + [x];
      JoinSnoc(fields[1..], x, sep);
      assert Join(fields + [x], sep) == fields[0] + [sep] + (Join(fields[1..], sep) + [sep] + x);
    }
  }

  /** The pre-image is the six fields joined by `+`. */
  lemma PreImageIsJoin(client: OvhClient, verb: Method, url: string, body: string, ts: u64)
    ensures SignaturePreImage(client, verb, url, body, ts)
         == Join([client.appSecret, client.consumerKey, verb.AsStr(), url, body, Decimal(ts)], '+')
  {
    var f := [client.appSecret, client.consumerKey, verb.AsStr(), url, body, Decimal(ts)];
    assert Join(f[..1], '+') == client.appSecret;
    JoinSnoc(f[..1], f[1], '+');
    assert f[..1] + [f[1]] == f[..2];
    JoinSnoc(f[..2], f[2], '+');
    assert f[..2] + [f[2]] == f[..3];
    JoinSnoc(f[..3], f[3], '+');
    assert f[..3] + [f[3]] == f[..4];
    JoinSnoc(f[..4], f[4], '+');
    assert f[..4] + [f[4]] == f[..5];
    JoinSnoc(f[..5], f[5], '+');
    assert f[..5] + [f[5]] == f;
  }

  /** With an empty body, `++` separates the URL from the timestamp. */
  lemma EmptyBodyPreImage(client: OvhClient, verb: Method, url: string, ts: u64)
    ensures SignaturePreImage(client, verb, url, "", ts)
         == client.appSecret + "+" + client.consumerKey + "+" + verb.AsStr() + "+" + url + "++" + Decimal(ts)
  {
  }

  /** The text after the last `sep` of `s` (all of `s` when there is none). */
  function LastField(s: string, sep: char): (f: string)
    ensures sep !in f
    ensures |f| <= |s| && f == s[|s| - |f|..]
  {
    if s == [] || s[|s| - 1] == sep then [] else LastField(s[..|s| - 1], sep) + [s[|s| - 1]]
  }

  lemma {:induction false} LastFieldAfterSep(prefix: string, sep: char, x: string)
    requires sep !in x
    ensures LastField(prefix + [sep] + x, sep) == x
  {
    var s := prefix + [sep] + x;
    if x != [] {
      var x' := x[..|x| - 1];
      assert s[|s| - 1] == x[|x| - 1] != sep;
      assert s[..|s| - 1] == prefix + [sep] + x';
      assert sep !in x' by {
        assert forall c :: c in x' ==> c in x;
      }
      LastFieldAfterSep(prefix, sep, x');
      assert LastField(s, sep) == LastField(s[..|s| - 1], sep) + [s[|s| - 1]];
      assert x == x' + [x[|x| - 1]];
    } else {
      assert s[|s| - 1] == sep;
    }
  }

  /**
   * Whatever the other fields hold, the timestamp is the pre-image's last
   * `+`-field and reads back as `ts`: the signed time and the
   * `X-Ovh-Timestamp` header share one format.
   */
  lemma TimestampIsLastField(client: OvhClient, verb: Method, url: string, body: string, ts: u64)
    ensures LastField(SignaturePreImage(client, verb, url, body, ts), '+') == Decimal(ts)
    ensures ParseU64(LastField(SignaturePreImage(client, verb, url, body, ts), '+')) == Some(ts)
  {
    ParseDecimal(ts);
  }

  /** The signature depends on the secret, the consumer key and the request, never on the application key. */
  lemma SignIgnoresAppKey(c1: OvhClient, c2: OvhClient, sha1: Hasher, verb: Method, url: string, body: string, ts: u64)
    requires c1.appSecret == c2.appSecret && c1.consumerKey == c2.consumerKey
    ensures Sign(c1, sha1, verb, url, body, ts) == Sign(c2, sha1, verb, url, body, ts)
  {
  }

  // ---------------------------------------------------------------------------
  // Server time
  // ---------------------------------------------------------------------------

  /** The parse step of `OvhClient::ovh_time`: the trimmed body as a decimal u64. */
  function ParseServerTime(text: string): (r: Result<u64, Error>)
    ensures r.Ok? <==> ParseU64(Trim(text)).Some?
    ensures r.Ok? ==> PaddedDecimal(Trim(text), r.value)
    ensures r.Err? ==> r.error == TimeSyncError
  {
    match ParseU64(Trim(text))
    case Some(n) => Ok(n)
    case None => Err(TimeSyncError)
  }

  /** `OvhClient::ovh_time`, given what the GET on the time endpoint returned. */
  function OvhTime(response: Result<string, Error>): (r: Result<u64, Error>)
    ensures response.Err? ==> r == Err(response.error)
    ensures response.Ok? ==> r == ParseServerTime(response.value)
  {
    match response
    case Err(e) => Err(e)
    case Ok(text) => ParseServerTime(text)
  }

  /** A rendered timestamp, padded with any whitespace, reads back as itself. */
  lemma ServerTimeRoundTrip(l: string, n: u64, r: string)
    requires AllWhitespace(l) && AllWhitespace(r)
    ensures ParseServerTime(l + Decimal(n) + r) == Ok(n)
  {
    var d := Decimal(n);
    assert IsDigit(d[0]) && IsDigit(d[|d| - 1]);
    TrimPadded(l, d, r);
    ParseDecimal(n);
  }

  /**
   * The converse of `ParseServerTime`'s contract: whitespace, an optional `+`,
   * any number of zeros, the decimal form of `n` and whitespace read back as `n`.
   */
  lemma ServerTimeAcceptsPadded(l: string, t: string, r: string, n: u64)
    requires AllWhitespace(l) && AllWhitespace(r) && PaddedDecimal(t, n)
    ensures ParseServerTime(l + t + r) == Ok(n)
  {
    var d := Decimal(n);
    assert t[|t| - 1] == d[|d| - 1];
    if |t| == |d| {
      assert t == d;
    }
    TrimPadded(l, t, r);
    ParsePadded(t, n);
  }

  /**
   * A body whose trimmed text is empty, a lone `+`, or starts with anything
   * but a digit or `+` (a letter, a minus sign) is a time-sync error.
   */
  lemma ServerTimeRejectsNonNumeric(text: string)
    requires var t := Trim(text); t == [] || t == "+" || (t[0] != '+' && !IsDigit(t[0]))
    ensures ParseServerTime(text) == Err(TimeSyncError)
  {
    var t := Trim(text);
    if t != [] && t != "+" {
      ParseRejectsLeadingNonDigit(t);
    }
  }

  /** The example `abc` is a time-sync error. */
  lemma ServerTimeRejectsText()
    ensures ParseServerTime("abc") == Err(TimeSyncError)
  {
    TrimPadded("", "abc", "");
    assert "" + "abc" + "" == "abc";
    ParseRejectsLeadingNonDigit("abc");
  }

  // ---------------------------------------------------------------------------
  // Request assembly
  // ---------------------------------------------------------------------------

  // Header names as `HeaderMap` stores them (lower case).
  const CONTENT_TYPE: string := "content-type"
  const X_OVH_APPLICATION: string := "x-ovh-application"
  const X_OVH_TIMESTAMP: string := "x-ovh-timestamp"
  const X_OVH_SIGNATURE: string := "x-ovh-signature"
  const X_OVH_CONSUMER: string := "x-ovh-consumer"

  const JSON_UTF8: string := "application/json;charset=utf-8"

  /** The request `send` hands to the transport. */
  datatype Request = Request(verb: Method, url: string, headers: map<string, string>, body: Option<string>)

  /**
   * What `send` promises of the request it builds with timestamp `ts`: the
   * content type and the payload exactly when the body is non-empty, and
   * always the four `X-Ovh-*` headers, signed with that same `ts`.
   */
  ghost predicate IsSignedRequest(req: Request, client: OvhClient, sha1: Hasher,
                                  verb: Method, url: string, body: string, ts: u64)
  {
    && req.verb == verb && req.url == url
    && req.headers.Keys
       == {X_OVH_APPLICATION, X_OVH_TIMESTAMP, X_OVH_SIGNATURE, X_OVH_CONSUMER}
          + (if body == "" then {} else {CONTENT_TYPE})
    && (body != "" ==> req.headers[CONTENT_TYPE] == JSON_UTF8)
    && req.headers[X_OVH_APPLICATION] == client.appKey
    && req.headers[X_OVH_CONSUMER] == client.consumerKey
    && req.headers[X_OVH_TIMESTAMP] == Decimal(ts)
    && req.headers[X_OVH_SIGNATURE] == Sign(client, sha1, verb, url, body, ts)
    && req.body == (if body == "" then None else Some(body))
  }

  /**
   * `OvhClient::send` up to the transport: takes the server time, signs with
   * it, builds the header map and attaches the body when there is one.
   */
  method Send(client: OvhClient, sha1: Hasher, timeResponse: Result<string, Error>,
              verb: Method, url: string, body: string)
    returns (r: Result<Request, Error>)
    ensures r.Err? <==> OvhTime(timeResponse).Err?
    ensures r.Err? ==> r.error == OvhTime(timeResponse).error
    ensures r.Ok? ==> IsSignedRequest(r.value, client, sha1, verb, url, body, OvhTime(timeResponse).value)
    ensures r.Ok? ==> (CONTENT_TYPE in r.value.headers <==> body != "")
  {
    var time := OvhTime(timeResponse);
    if time.Err? {
      return Err(time.error);
    }
    var ts := time.value;
    var sig := Sign(client, sha1, verb, url, body, ts);

    var headers := SignedHeaders(client, body, ts, sig);
    var payload := if body == "" then None else Some(body);
    r := Ok(Request(verb, url, headers, payload));
    SignedHeadersSignRequest(client, sha1, verb, url, body, ts);
  }

  /** A request carrying the headers `send` builds is a signed request for its time. */
  lemma SignedHeadersSignRequest(client: OvhClient, sha1: Hasher, verb: Method, url: string, body: string, ts: u64)
    ensures var req := Request(verb, url, SignedHeaders(client, body, ts, Sign(client, sha1, verb, url, body, ts)),
                               if body == "" then None else Some(body));
      IsSignedRequest(req, client, sha1, verb, url, body, ts) && (CONTENT_TYPE in req.headers <==> body != "")
  {
    HeaderNamesDistinct();
  }

  /**
   * The header map `send` builds: the JSON content type when there is a body,
   * then the application key, the timestamp, the signature and the consumer
   * key, under distinct names.
   */
  function SignedHeaders(client: OvhClient, body: string, ts: u64, sig: string): (h: map<string, string>)
    ensures h.Keys == {X_OVH_APPLICATION, X_OVH_TIMESTAMP, X_OVH_SIGNATURE, X_OVH_CONSUMER}
                      + (if body == "" then {} else {CONTENT_TYPE})
    ensures body != "" ==> h[CONTENT_TYPE] == JSON_UTF8
    ensures h[X_OVH_APPLICATION] == client.appKey && h[X_OVH_CONSUMER] == client.consumerKey
    ensures h[X_OVH_TIMESTAMP] == Decimal(ts) && h[X_OVH_SIGNATURE] == sig
  {
    var contentType: map<string, string> := if body == "" then map[] else map[CONTENT_TYPE := JSON_UTF8];
    HeaderNamesDistinct();
    contentType[X_OVH_APPLICATION := client.appKey]
               [X_OVH_TIMESTAMP := Decimal(ts)]
               [X_OVH_SIGNATURE := sig]
               [X_OVH_CONSUMER := client.consumerKey]
  }

  lemma HeaderNamesDistinct()
    ensures CONTENT_TYPE !in {X_OVH_APPLICATION, X_OVH_TIMESTAMP, X_OVH_SIGNATURE, X_OVH_CONSUMER}
    ensures X_OVH_APPLICATION !in {X_OVH_TIMESTAMP, X_OVH_SIGNATURE, X_OVH_CONSUMER}
    ensures X_OVH_TIMESTAMP !in {X_OVH_SIGNATURE, X_OVH_CONSUMER}
    ensures X_OVH_SIGNATURE != X_OVH_CONSUMER
  {
    assert CONTENT_TYPE[0] != X_OVH_APPLICATION[0];
    assert X_OVH_TIMESTAMP[6] != X_OVH_SIGNATURE[6];
  }

  /**
   * A signed request carries one timestamp: the `X-Ovh-Timestamp` header reads
   * back as the time the signature was computed with.
   */
  lemma TimestampHeaderMatchesSignature(req: Request, client: OvhClient, sha1: Hasher,
                                        verb: Method, url: string, body: string, ts: u64)
    requires IsSignedRequest(req, client, sha1, verb, url, body, ts)
    ensures ParseU64(req.headers[X_OVH_TIMESTAMP]) == Some(ts)
    ensures req.headers[X_OVH_SIGNATURE]
         == Sign(client, sha1, verb, url, body, ParseU64(req.headers[X_OVH_TIMESTAMP]).value)
  {
    ParseDecimal(ts);
  }

  // ---------------------------------------------------------------------------
  // Secret read
  // ---------------------------------------------------------------------------

  const SECRET_QUERY: string := "?includeData=true"

  /** The secret-read URL of `get_secret_for`. */
  function SecretUrl(apiBase: string, okmsId: string, path: string): (u: string)
    ensures var prefix := apiBase + "/okms/resource/" + okmsId + "/secret/";
      && |u| >= |prefix| + |SECRET_QUERY|
      && u[..|prefix|] == prefix
      && u[|u| - |SECRET_QUERY|..] == SECRET_QUERY
      && forall i :: |prefix| <= i < |u| - |SECRET_QUERY| ==> Percent.IsEncodedChar(u[i])
  {
    var prefix := apiBase + "/okms/resource/" + okmsId + "/secret/";
    var seg := Percent.Encode(path);
    Framed(prefix, seg, SECRET_QUERY);
    prefix + seg + SECRET_QUERY
  }

  /** Where the three parts of `prefix + mid + suffix` sit. */
  lemma Framed(prefix: string, mid: string, suffix: string)
    ensures var u := prefix + mid + suffix;
      && |u| == |prefix| + |mid| + |suffix|
      && u[..|prefix|] == prefix
      && u[|u| - |suffix|..] == suffix
      && forall i :: |prefix| <= i < |u| - |suffix| ==> u[i] == mid[i - |prefix|]
  {
  }

  /**
   * The URL is the fixed template around one segment that holds no `/` or
   * `?` and decodes back to the path.
   */
  lemma SecretUrlSegment(apiBase: string, okmsId: string, path: string)
    ensures var seg := Percent.Encode(path);
      && SecretUrl(apiBase, okmsId, path) == apiBase + "/okms/resource/" + okmsId + "/secret/" + seg + SECRET_QUERY
      && '/' !in seg && '?' !in seg
      && Percent.DecodeBytes(seg) == Some(Utf8(path))
      && Utf8Decode(Percent.DecodeBytes(seg).value) == Some(path)
  {
    Percent.EncodedHasNoDelimiter(path);
    Percent.DecodeEncode(path);
    Utf8RoundTrip(path);
  }

  /** Under one store and OKMS id, distinct secret paths give distinct URLs. */
  lemma SecretUrlInjective(apiBase: string, okmsId: string, p1: string, p2: string)
    requires SecretUrl(apiBase, okmsId, p1) == SecretUrl(apiBase, okmsId, p2)
    ensures p1 == p2
  {
    var prefix := apiBase + "/okms/resource/" + okmsId + "/secret/";
    var e1, e2 := Percent.Encode(p1), Percent.Encode(p2);
    var u1, u2 := prefix + e1 + SECRET_QUERY, prefix + e2 + SECRET_QUERY;
    assert |e1| == |e2|;
    assert e1 == u1[|prefix|..|prefix| + |e1|];
    assert e2 == u2[|prefix|..|prefix| + |e2|];
    Percent.EncodeInjective(p1, p2);
  }

  /** `get_secret_for`: a signed GET with an empty body on the secret-read URL. */
  method GetSecretFor(client: OvhClient, sha1: Hasher, timeResponse: Result<string, Error>,
                      okmsId: string, path: string)
    returns (r: Result<Request, Error>)
    ensures r.Err? <==> OvhTime(timeResponse).Err?
    ensures r.Err? ==> r.error == OvhTime(timeResponse).error
    ensures r.Ok? ==>
      IsSignedRequest(r.value, client, sha1, GET, SecretUrl(client.apiBaseV2, okmsId, path), "",
                      OvhTime(timeResponse).value)
    ensures r.Ok? ==> r.value.body == None && CONTENT_TYPE !in r.value.headers
  {
    var url := SecretUrl(client.apiBaseV2, okmsId, path);
    r := Send(client, sha1, timeResponse, GET, url, "");
  }
}
