/**
 * App\Core\Request: the request line, query, body and headers of one HTTP
 * request, read from the CGI server variables (section 4.1 of RFC 3875).
 * Superglobals and php://input become constructor parameters, and
 * json_decode's result is passed in already decoded.
 */
module Http {
  import opened Wrappers
  import opened Text
  import opened Json

  /** `$_SERVER` in insertion order. */
  type ServerParams = seq<(string, string)>

  /** `$server[$key]`: PHP arrays keep one entry per key, here the last. */
  function ServerLookup(server: ServerParams, key: string): (r: Option<string>)
    ensures r.Some? <==> exists i :: 0 <= i < |server| && server[i].0 == key
    decreases |server|
  {
    if |server| == 0 then None
    else if server[|server| - 1].0 == key then Some(server[|server| - 1].1)
    else
      var r := ServerLookup(server[..|server| - 1], key);
      assert forall i :: 0 <= i < |server| - 1 ==> server[..|server| - 1][i] == server[i];
      r
  }

  /** getMethod: REQUEST_METHOD upper-cased, GET when absent. */
  function MethodOf(server: ServerParams): (m: string)
    ensures IsUpper(m)
    ensures ServerLookup(server, "REQUEST_METHOD").None? ==> m == "GET"
    ensures ServerLookup(server, "REQUEST_METHOD").Some? ==>
      m == ToUpper(ServerLookup(server, "REQUEST_METHOD").value)
  {
    ToUpperIsUpper(ServerLookup(server, "REQUEST_METHOD").GetOr("GET"));
    ToUpper(ServerLookup(server, "REQUEST_METHOD").GetOr("GET"))
  }

  /**
   * The path component parse_url reports for a request target in origin form
   * (section 5.3.1 of RFC 7230): everything before the query or fragment.
   */
  function UrlPath(target: string): (p: string)
    ensures StartsWith(target, p) && '?' !in p && '#' !in p
    ensures |p| < |target| ==> target[|p|] == '?' || target[|p|] == '#'
    decreases |target|
  {
    if |target| == 0 || target[0] == '?' || target[0] == '#' then ""
    else [target[0]] + UrlPath(target[1..])
  }

  /** getUri's `'/' . trim($path, '/')`. */
  function CanonicalUri(path: string): string
  {
    "/" + TrimChars(path, {'/'})
  }

  /** A slash-free-ended core behind one slash is its own canonical form. */
  lemma RootedIsCanonical(core: string)
    requires TrimmedBy(core, {'/'})
    ensures CanonicalUri("/" + core) == "/" + core
  {
    assert ("/" + core)[1..] == core;
    TrimCharsOfTrimmed(core, {'/'});
  }

  /**
   * The canonical URI starts with `/`, ends with `/` only when it is `/`, is a
   * fixed point, and keeps everything between the outer slashes of the path,
   * inner `//` included.
   */
  lemma CanonicalUriShape(path: string)
    ensures |CanonicalUri(path)| >= 1 && CanonicalUri(path)[0] == '/'
    ensures CanonicalUri(path) == "/" || CanonicalUri(path)[|CanonicalUri(path)| - 1] != '/'
    ensures CanonicalUri(CanonicalUri(path)) == CanonicalUri(path)
    ensures exists a, b ::
      (&& 0 <= a <= b <= |path| && CanonicalUri(path) == "/" + path[a..b]
       && (forall i :: 0 <= i < a ==> path[i] == '/')
       && (forall i :: b <= i < |path| ==> path[i] == '/'))
  {
    var core := TrimChars(path, {'/'});
    TrimCharsShape(path, {'/'});
    RootedIsCanonical(core);
    var a := |path| - |TrimStart(path, {'/'})|;
    assert CanonicalUri(path) == "/" + path[a..a + |core|];
  }

  /** getHeader's folding of one character: upper case, `-` becomes `_`. */
  function FoldChar(c: char): char
  {
    UpperChar(if c == '-' then '_' else c)
  }

  /** `strtoupper(str_replace('-', '_', $name))`. */
  function HeaderKey(name: string): (k: string)
  {
    seq(|name|, i requires 0 <= i < |name| => FoldChar(name[i]))
  }

  /**
   * Two names reach the same header exactly when they agree letter by letter
   * up to ASCII case and `-` versus `_`; folding twice is folding once.
   */
  lemma HeaderKeyEquivalence(a: string, b: string)
    ensures HeaderKey(a) == HeaderKey(b) <==>
      (|a| == |b| && forall i :: 0 <= i < |a| ==> FoldChar(a[i]) == FoldChar(b[i]))
    ensures HeaderKey(HeaderKey(a)) == HeaderKey(a)
    ensures '-' !in HeaderKey(a) && IsUpper(HeaderKey(a))
  {
    if HeaderKey(a) == HeaderKey(b) {
      forall i | 0 <= i < |a| ensures FoldChar(a[i]) == FoldChar(b[i]) {
        assert HeaderKey(a)[i] == HeaderKey(b)[i];
      }
    }
  }

  lemma HeaderKeyExamples()
    ensures HeaderKey("content-type") == "CONTENT_TYPE"
    ensures HeaderKey("Content-Type") == "CONTENT_TYPE"
    ensures HeaderKey("CONTENT_TYPE") == "CONTENT_TYPE"
  {
    HeaderKeyOfKey("CONTENT_TYPE");
    LowerHeaderFolds();
    MixedHeaderFolds();
  }

  /** A name already folded is its own key. */
  lemma HeaderKeyOfKey(name: string)
    requires '-' !in name && IsUpper(name)
    ensures HeaderKey(name) == name
  {
  }

  lemma LowerHeaderFolds()
    ensures HeaderKey("content-type") == HeaderKey("CONTENT_TYPE")
  {
    var a, b := "content-type", "CONTENT_TYPE";
    forall i | 0 <= i < |a| ensures FoldChar(a[i]) == FoldChar(b[i]) {
    }
    HeaderKeyEquivalence(a, b);
  }

  lemma MixedHeaderFolds()
    ensures HeaderKey("Content-Type") == HeaderKey("CONTENT_TYPE")
  {
    var a, b := "Content-Type", "CONTENT_TYPE";
    forall i | 0 <= i < |a| ensures FoldChar(a[i]) == FoldChar(b[i]) {
    }
    HeaderKeyEquivalence(a, b);
  }

  /** The three CGI variables that carry headers without the HTTP_ prefix. */
  const ContentKeys: set<string> := {"CONTENT_TYPE", "CONTENT_LENGTH", "CONTENT_MD5"}

  /** The header a server key stands for, if any (section 4.1.18 of RFC 3875). */
  function HeaderName(key: string): (r: Option<string>)
    ensures r.Some? <==> StartsWith(key, "HTTP_") || key in ContentKeys
    ensures StartsWith(key, "HTTP_") ==> r == Some(key[5..])
    ensures !StartsWith(key, "HTTP_") && key in ContentKeys ==> r == Some(key)
  {
    if StartsWith(key, "HTTP_") then Some(key[5..])
    else if key in ContentKeys then Some(key)
    else None
  }

  /** The headers array parseHeaders builds, as a fold over the server variables. */
  function HeadersOf(server: ServerParams): map<string, string>
    decreases |server|
  {
    if |server| == 0 then map[]
    else
      var h := HeadersOf(server[..|server| - 1]);
      var (k, v) := server[|server| - 1];
      match HeaderName(k)
      case Some(n) => h[n := v]
      case None => h
  }

  /** parseHeaders: one pass over `$_SERVER`, later keys overwriting earlier ones. */
  method ParseHeaders(server: ServerParams) returns (headers: map<string, string>)
    ensures headers == HeadersOf(server)
  {
    headers := map[];
    for i := 0 to |server|
      invariant headers == HeadersOf(server[..i])
    {
      assert server[..i + 1][..i] == server[..i];
      var (key, value) := server[i];
      if StartsWith(key, "HTTP_") {
        headers := headers[key[5..] := value];
      } else if key in ContentKeys {
        headers := headers[key := value];
      }
    }
    assert server[..|server|] == server;
  }

  /**
   * A header is present exactly when some server key stands for it, and its
   * value is that of the last such key.
   */
  lemma {:induction false} HeadersOfSpec(server: ServerParams, name: string)
    ensures name in HeadersOf(server) <==>
      exists i :: 0 <= i < |server| && HeaderName(server[i].0) == Some(name)
    ensures name in HeadersOf(server) ==>
      exists i :: 0 <= i < |server| && HeaderName(server[i].0) == Some(name)
        && HeadersOf(server)[name] == server[i].1
        && forall j :: i < j < |server| ==> HeaderName(server[j].0) != Some(name)
    decreases |server|
  {
    if |server| > 0 {
      HeadersOfSpec(server[..|server| - 1], name);
      HeadersOfStep(server, name);
    }
  }

  // The step of HeadersOfSpec from all server keys but the last to all of them.
  lemma HeadersOfStep(server: ServerParams, name: string)
    requires |server| > 0
    requires var init := server[..|server| - 1];
      && (name in HeadersOf(init) <==> exists i :: 0 <= i < |init| && HeaderName(init[i].0) == Some(name))
      && (name in HeadersOf(init) ==>
        exists i :: 0 <= i < |init| && HeaderName(init[i].0) == Some(name)
          && HeadersOf(init)[name] == init[i].1
          && forall j :: i < j < |init| ==> HeaderName(init[j].0) != Some(name))
    ensures name in HeadersOf(server) <==>
      exists i :: 0 <= i < |server| && HeaderName(server[i].0) == Some(name)
    ensures name in HeadersOf(server) ==>
      exists i :: 0 <= i < |server| && HeaderName(server[i].0) == Some(name)
        && HeadersOf(server)[name] == server[i].1
        && forall j :: i < j < |server| ==> HeaderName(server[j].0) != Some(name)
  {
    var init := server[..|server| - 1];
    var last := |server| - 1;
    assert forall i :: 0 <= i < |init| ==> init[i] == server[i];
    if HeaderName(server[last].0) == Some(name) {
      assert HeadersOf(server)[name] == server[last].1;
    } else if name in HeadersOf(server) {
      assert HeadersOf(server) == HeadersOf(init) || HeaderName(server[last].0).Some?;
      var i :| 0 <= i < |init| && HeaderName(init[i].0) == Some(name)
        && HeadersOf(init)[name] == init[i].1
        && forall j :: i < j < |init| ==> HeaderName(init[j].0) != Some(name);
      assert forall j :: i < j < |server| ==> HeaderName(server[j].0) != Some(name);
    }
  }

  /** isJson: `application/json` anywhere in the value, ignoring ASCII case. */
  predicate IsJsonType(contentType: string)
  {
    Contains(ToLower(contentType), "application/json")
  }

  /** Containment needs room for the contained text. */
  lemma {:induction false} ContainsNeedsRoom(s: string, sub: string)
    requires Contains(s, sub)
    ensures |sub| <= |s|
    decreases |s|
  {
    if !StartsWith(s, sub) {
      ContainsNeedsRoom(s[1..], sub);
    }
  }

  /**
   * Any value with `application/json` in it, in any ASCII case, is JSON; a
   * value too short to hold those sixteen characters is not.
   */
  lemma IsJsonTypeSpec(before: string, mime: string, after: string)
    requires ToLower(mime) == "application/json"
    ensures IsJsonType(before + mime + after)
    ensures forall s :: |s| < 16 ==> !IsJsonType(s)
  {
    assert ToLower(before + mime + after) == ToLower(before) + ToLower(mime) + ToLower(after);
    ContainsInMiddle(ToLower(before), "application/json", ToLower(after));
    forall s | |s| < 16 ensures !IsJsonType(s) {
      ShortIsNotJson(s);
    }
  }

  lemma ShortIsNotJson(s: string)
    requires |s| < 16
    ensures !IsJsonType(s)
  {
    if IsJsonType(s) {
      ContainsNeedsRoom(ToLower(s), "application/json");
    }
  }

  lemma IsJsonTypeExamples()
    ensures IsJsonType("application/json")
    ensures !IsJsonType("text/plain") && !IsJsonType("")
  {
    JsonMimeIsJson();
    ShortIsNotJson("text/plain");
    ShortIsNotJson("");
  }

  lemma JsonMimeIsJson()
    ensures IsJsonType("application/json")
  {
    JsonMimeIsLower();
    ContainsSelf("application/json");
  }

  lemma JsonMimeIsLower()
    ensures ToLower("application/json") == "application/json"
  {
    ToLowerOfLower("application/json");
  }

  /** The characters PCRE's `\s` matches: HT, LF, VT, FF, CR and space. */
  predicate IsPcreSpace(c: char)
  {
    c == ' ' || c == '\t' || c == '\n' || c == '\U{000B}' || c == '\U{000C}' || c == '\r'
  }

  /** End of the run starting at `j` of characters that are (or are not) `\s`. */
  function RunEnd(h: string, j: nat, space: bool): (k: nat)
    requires j <= |h|
    ensures j <= k <= |h|
    ensures forall x :: j <= x < k ==> IsPcreSpace(h[x]) == space
    ensures k == |h| || IsPcreSpace(h[k]) != space
    decreases |h| - j
  {
    if j < |h| && IsPcreSpace(h[j]) == space then RunEnd(h, j + 1, space) else j
  }

  lemma RunEndIs(h: string, j: nat, space: bool, k: nat)
    requires j <= k <= |h|
    requires forall x :: j <= x < k ==> IsPcreSpace(h[x]) == space
    requires k == |h| || IsPcreSpace(h[k]) != space
    ensures RunEnd(h, j, space) == k
  {
  }

  /**
   * `/Bearer\s+(\S+)/` tried at offset `i`: the literal word, at least one
   * `\s`, then the longest run of non-`\s` characters, which must be non-empty.
   */
  function BearerAt(h: string, i: nat): (r: Option<string>)
    requires i <= |h|
    ensures r.Some? ==> StartsWith(h[i..], "Bearer")
    ensures r.Some? ==>
      (var k := RunEnd(h, i + 6, true); var e := RunEnd(h, k, false);
       && i + 6 < k < e && r.value == h[k..e]
       && (forall x :: i + 6 <= x < k ==> IsPcreSpace(h[x]))
       && (e == |h| || IsPcreSpace(h[e])))
    ensures r.Some? ==> r.value != "" && (forall x :: 0 <= x < |r.value| ==> !IsPcreSpace(r.value[x]))
    ensures r.None? ==>
      (|| !StartsWith(h[i..], "Bearer")
       || RunEnd(h, i + 6, true) == i + 6 || RunEnd(h, i + 6, true) == |h|)
  {
    if !StartsWith(h[i..], "Bearer") then None
    else
      var k := RunEnd(h, i + 6, true);
      if k == i + 6 || k == |h| then None
      else Some(h[k..RunEnd(h, k, false)])
  }

  /** preg_match's leftmost match: the first offset from `i` on where it succeeds, |h| + 1 if none. */
  function FirstBearer(h: string, i: nat): (x: nat)
    requires i <= |h|
    ensures i <= x <= |h| + 1
    ensures x <= |h| ==> BearerAt(h, x).Some?
    ensures forall y :: i <= y < x && y <= |h| ==> BearerAt(h, y).None?
    decreases |h| - i
  {
    if BearerAt(h, i).Some? then i else if i == |h| then |h| + 1 else FirstBearer(h, i + 1)
  }

  /** getBearerToken on the Authorization header's value. */
  function BearerToken(h: string): (r: Option<string>)
    ensures r.Some? ==> r.value != "" && forall x :: 0 <= x < |r.value| ==> !IsPcreSpace(r.value[x])
    ensures r.Some? ==> exists x ::
      (&& 0 <= x <= |h| && BearerAt(h, x) == r
       && forall y :: 0 <= y < x ==> BearerAt(h, y).None?)
    ensures r.None? <==> forall x :: 0 <= x <= |h| ==> BearerAt(h, x).None?
  {
    var x := FirstBearer(h, 0);
    if x <= |h| then BearerAt(h, x) else None
  }

  /** The characters of a b64token (section 2.1 of RFC 6750), before any `=`. */
  predicate IsB64TokenChar(c: char)
  {
    'a' <= c <= 'z' || 'A' <= c <= 'Z' || '0' <= c <= '9'
    || c == '-' || c == '.' || c == '_' || c == '~' || c == '+' || c == '/'
  }

  /** `1*( ALPHA / DIGIT / "-" / "." / "_" / "~" / "+" / "/" ) *"="`. */
  predicate IsB64Token(t: string)
  {
    var n := |TrimEnd(t, {'='})|;
    n >= 1 && forall x :: 0 <= x < n ==> IsB64TokenChar(t[x])
  }

  function Spaces(n: nat): (s: string)
    ensures |s| == n && forall x :: 0 <= x < n ==> s[x] == ' '
  {
    seq(n, _ => ' ')
  }

  /**
   * A header in the form section 2.1 of RFC 6750 prescribes, `Bearer`, one or
   * more spaces and a b64token, yields exactly that token.
   */
  lemma BearerTokenOfRfc6750(n: nat, token: string)
    requires n >= 1 && IsB64Token(token)
    ensures BearerToken("Bearer" + Spaces(n) + token) == Some(token)
  {
    var h := "Bearer" + Spaces(n) + token;
    assert h[0..][..6] == "Bearer";
    var k := 6 + n;
    assert forall x :: 6 <= x < k ==> h[x] == ' ';
    assert h[k] == token[0];
    RunEndIs(h, 6, true, k);
    forall x | k <= x < |h| ensures !IsPcreSpace(h[x]) {
      assert h[x] == token[x - k];
    }
    RunEndIs(h, k, false, |h|);
    assert h[k..|h|] == token;
    assert BearerAt(h, 0) == Some(token);
  }

  /**
   * parseBody: the decoded JSON body (or `[]` when it does not decode) when
   * the Content-Type says JSON and the raw body is not PHP-empty, else `$_POST`.
   */
  function ParseBody(headers: map<string, string>, rawBody: string,
                     decoded: Option<map<string, Value>>, post: map<string, Value>): map<string, Value>
  {
    var contentType := if "CONTENT_TYPE" in headers then headers["CONTENT_TYPE"] else "";
    if IsJsonType(contentType) && !PhpEmpty(rawBody) then decoded.GetOr(map[]) else post
  }

  /**
   * The body as the constructor computes it: parseBody runs before the
   * headers property is assigned, so isJson reads the uninitialised property
   * through `??`, finds no Content-Type, and parseBody always takes `$_POST`.
   */
  function BodyParamsAsWritten(rawBody: string, decoded: Option<map<string, Value>>,
                               post: map<string, Value>): (r: map<string, Value>)
    ensures r == post
  {
    ParseBody(map[], rawBody, decoded, post)
  }

  /** A JSON request whose body the constructor's order loses. */
  lemma BodyParamsAsWrittenLosesJson()
    ensures var server := [("CONTENT_TYPE", "application/json")];
      var decoded := Some(map["name" := Str("Ada")]);
      && "CONTENT_TYPE" in HeadersOf(server)
      && IsJsonType(HeadersOf(server)["CONTENT_TYPE"])
      && BodyParamsAsWritten("{\"name\":\"Ada\"}", decoded, map[]) == map[]
      && BodyParams(server, "{\"name\":\"Ada\"}", decoded, map[]) == decoded.value
  {
    var server := [("CONTENT_TYPE", "application/json")];
    assert server[..0] == [];
    assert "CONTENT_TYPE"[..5] != "HTTP_" by { assert "CONTENT_TYPE"[0] == 'C'; }
    assert HeaderName("CONTENT_TYPE") == Some("CONTENT_TYPE");
    assert HeadersOf(server) == map["CONTENT_TYPE" := "application/json"];
    IsJsonTypeExamples();
  }

  /** The body with the headers parsed first, as parseBody evidently expects. */
  function BodyParams(server: ServerParams, rawBody: string,
                      decoded: Option<map<string, Value>>, post: map<string, Value>): (r: map<string, Value>)
  {
    ParseBody(HeadersOf(server), rawBody, decoded, post)
  }

  /**
   * With the headers known, a JSON Content-Type (from CONTENT_TYPE or
   * HTTP_CONTENT_TYPE, whichever comes last) and a non-empty raw body give
   * the decoded body; anything else gives `$_POST`.
   */
  lemma BodyParamsSpec(server: ServerParams, rawBody: string,
                       decoded: Option<map<string, Value>>, post: map<string, Value>)
    ensures var h := HeadersOf(server);
      var json := "CONTENT_TYPE" in h && IsJsonType(h["CONTENT_TYPE"]) && !PhpEmpty(rawBody);
      && (json ==> BodyParams(server, rawBody, decoded, post) == decoded.GetOr(map[]))
      && (!json ==> BodyParams(server, rawBody, decoded, post) == post)
  {
    var h := HeadersOf(server);
    if "CONTENT_TYPE" !in h {
      assert !Contains(ToLower(""), "application/json");
    }
  }

  /** `$array[$key] ?? $default`: a missing key and a null value both give the default. */
  function Coalesce(params: map<string, Value>, key: string, default: Value): (v: Value)
    ensures key in params && params[key] != Null ==> v == params[key]
    ensures key !in params || params[key] == Null ==> v == default
  {
    if key in params && params[key] != Null then params[key] else default
  }

  class Request {
    var queryParams: map<string, Value>
    var bodyParams: map<string, Value>
    var serverParams: ServerParams
    var headers: map<string, string>

    /**
     * Reads the request's inputs. The headers are parsed before the body
     * (see BodyParamsAsWritten for the order the source uses).
     */
    constructor (get: map<string, Value>, post: map<string, Value>, rawBody: string,
                 decoded: Option<map<string, Value>>, server: ServerParams)
      ensures queryParams == get && serverParams == server
      ensures headers == HeadersOf(server)
      ensures bodyParams == BodyParams(server, rawBody, decoded, post)
    {
      var h := ParseHeaders(server);
      queryParams := get;
      serverParams := server;
      headers := h;
      bodyParams := ParseBody(h, rawBody, decoded, post);
    }

    function GetMethod(): string
      reads this
    {
      MethodOf(serverParams)
    }

    function GetUri(): string
      reads this
    {
      CanonicalUri(UrlPath(ServerLookup(serverParams, "REQUEST_URI").GetOr("/")))
    }

    /** getQuery: the stored value unless it is missing or null. */
    function GetQuery(key: string, default: Value := Null): Value
      reads this
    {
      Coalesce(queryParams, key, default)
    }

    /** getBody: the stored value unless it is missing or null. */
    function GetBody(key: string, default: Value := Null): Value
      reads this
    {
      Coalesce(bodyParams, key, default)
    }

    /** getHeader: the folded name's entry, or the default (None is PHP null). */
    function GetHeader(name: string, default: Option<string> := None): (r: Option<string>)
      reads this
      ensures HeaderKey(name) in headers ==> r == Some(headers[HeaderKey(name)])
      ensures HeaderKey(name) !in headers ==> r == default
    {
      var key := HeaderKey(name);
      if key in headers then Some(headers[key]) else default
    }

    predicate IsJson()
      reads this
    {
      IsJsonType(GetHeader("CONTENT_TYPE", Some("")).value)
    }

    function GetBearerToken(): Option<string>
      reads this
    {
      BearerToken(GetHeader("AUTHORIZATION", Some("")).value)
    }

    /**
     * Any spelling of a header name that folds alike reads the same entry,
     * so `content-type`, `Content-Type` and `CONTENT_TYPE` agree.
     */
    lemma GetHeaderFolds(a: string, b: string, default: Option<string>)
      requires |a| == |b| && forall i :: 0 <= i < |a| ==> FoldChar(a[i]) == FoldChar(b[i])
      ensures GetHeader(a, default) == GetHeader(b, default)
    {
      HeaderKeyEquivalence(a, b);
    }

    /** isJson reads the Content-Type header, and is false when it is absent. */
    lemma IsJsonSpec()
      ensures IsJson() <==> "CONTENT_TYPE" in headers && IsJsonType(headers["CONTENT_TYPE"])
    {
      HeaderKeyExamples();
      if "CONTENT_TYPE" !in headers {
        assert !Contains(ToLower(""), "application/json");
      }
    }

    /** getUri and getMethod on the stored server variables. */
    lemma RequestLineSpec()
      ensures |GetUri()| >= 1 && GetUri()[0] == '/'
      ensures GetUri() == "/" || GetUri()[|GetUri()| - 1] != '/'
      ensures CanonicalUri(GetUri()) == GetUri()
      ensures IsUpper(GetMethod())
      ensures ServerLookup(serverParams, "REQUEST_METHOD").None? ==> GetMethod() == "GET"
    {
      CanonicalUriShape(UrlPath(ServerLookup(serverParams, "REQUEST_URI").GetOr("/")));
    }
  }
}
