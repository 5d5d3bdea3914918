/** Request headers for every call after authentication. Username and
    password together win and yield a `Cookie` header built from the login
    response; otherwise a token yields a Basic `Authorization` header;
    otherwise no header is set. The cookie header follows the cookie-pair
    syntax of section 4.1.1 and the Cookie header form of section 5.4 of
    RFC 6265; the token header uses base64 as in section 4 of RFC 4648. */
module Auth {
  import opened Wrappers
  import opened Errors
  import opened Strings
  import Base64
  import Config

  /** Which of the three authentication branches a run takes. */
  datatype Credentials =
    | Login(username: string, password: string)
    | Token(token: string)
    | Anonymous

  /** `options.headers`: the two headers the script may set. */
  datatype Headers = Headers(cookie: Option<string>, authorization: Option<string>)

  /** `if (username && password) ... else if (token) ...` on ECMAScript truthiness. */
  function SelectCredentials(username: Option<string>, password: Option<string>, token: Option<string>)
    : (c: Credentials)
    ensures c.Login? <==> Config.Truthy(username) && Config.Truthy(password)
    ensures c.Token? <==> !(Config.Truthy(username) && Config.Truthy(password)) && Config.Truthy(token)
    ensures c.Login? ==> username == Some(c.username) && password == Some(c.password)
    ensures c.Token? ==> token == Some(c.token) && c.token != ""
  {
    if Config.Truthy(username) && Config.Truthy(password) then Login(username.value, password.value)
    else if Config.Truthy(token) then Token(token.value)
    else Anonymous
  }

  /** `cookie.split(';')[0]`: the name=value pair of one Set-Cookie value,
      its attributes dropped. */
  function CookiePair(setCookie: string): (pair: string)
    ensures Free(pair, ';')
    ensures IsPrefix(pair, setCookie)
    ensures Free(setCookie, ';') ==> pair == setCookie
    ensures !Free(setCookie, ';') ==> |pair| < |setCookie| && setCookie[|pair|] == ';'
  {
    SplitPartsFree(setCookie, ';');
    FirstPartIsPrefix(setCookie, ";");
    SplitCutsIffPresent(setCookie, ';');
    Split(setCookie, ";")[0]
  }

  /** The pair of each Set-Cookie value, in order. */
  function CookiePairs(setCookies: seq<string>): (pairs: seq<string>)
    ensures |pairs| == |setCookies|
    ensures forall k :: 0 <= k < |pairs| ==> pairs[k] == CookiePair(setCookies[k])
  {
    seq(|setCookies|, k requires 0 <= k < |setCookies| => CookiePair(setCookies[k]))
  }

  /** The `Cookie` header value: the pairs joined with "; ". Splitting it
      on "; " gives the pairs back, one per Set-Cookie value. */
  function CookieHeader(setCookies: seq<string>): (header: string)
    ensures |setCookies| == 0 ==> header == ""
    ensures |setCookies| > 0 ==> Split(header, "; ") == CookiePairs(setCookies)
    ensures forall k :: 0 <= k < |setCookies| ==> Free(CookiePairs(setCookies)[k], ';')
  {
    var pairs := CookiePairs(setCookies);
    if |pairs| == 0 then ""
    else
      SplitJoin(pairs, "; ");
      Join(pairs, "; ")
  }

  /** The `Authorization` header value for a token: "Basic " and the base64
      of the UTF-8 bytes of `token + ":"` (the token as user, an empty password). */
  function TokenHeader(token: string): (header: string)
    ensures |header| > 6 && header[..6] == "Basic "
    ensures Base64.Decode(header[6..]) == Some(Base64.Utf8(token) + [':' as int])
  {
    Base64.Utf8Append(token, ":");
    assert Base64.Utf8(":") == [':' as int];
    var header := "Basic " + Base64.OfText(token + ":");
    assert header[6..] == Base64.OfText(token + ":");
    header
  }

  /** The contract of `TokenHeader` fixes the header: it is the one text
      "Basic " followed by the base64 of `token + ":"`. */
  lemma TokenHeaderUnique(token: string, header: string)
    requires |header| > 6 && header[..6] == "Basic "
    requires Base64.Decode(header[6..]) == Some(Base64.Utf8(token) + [':' as int])
    ensures header == TokenHeader(token)
  {
    Base64.Utf8Append(token, ":");
    assert Base64.Utf8(":") == [':' as int];
    Base64.OfTextUnique(token + ":", header[6..]);
    assert header == header[..6] + header[6..];
  }

  /** The headers of a run. `loginSetCookie` is the Set-Cookie list of the
      login response, consulted only on the Login branch. */
  function HeadersFor(c: Credentials, loginSetCookie: Option<seq<string>>): (r: Result<Headers, Fatal>)
    ensures r.Failure? <==> c.Login? && loginSetCookie.None?
    ensures r.Failure? ==> r.error == MissingSetCookie
    ensures r.Success? ==> r.value.cookie.None? || r.value.authorization.None?
    ensures r.Success? ==> (r.value.cookie.Some? <==> c.Login?)
    ensures r.Success? ==> (r.value.authorization.Some? <==> c.Token?)
    ensures r.Success? && c.Login? ==> r.value.cookie == Some(CookieHeader(loginSetCookie.value))
    ensures r.Success? && c.Token? ==>
              var h := r.value.authorization.value;
              |h| > 6 && h[..6] == "Basic " && Base64.Decode(h[6..]) == Some(Base64.Utf8(c.token + ":"))
    ensures r.Success? && c.Token? ==> r.value.authorization == Some(TokenHeader(c.token))
  {
    match c
    case Login(_, _) =>
      if loginSetCookie.None? then Failure(MissingSetCookie)
      else Success(Headers(Some(CookieHeader(loginSetCookie.value)), None))
    case Token(t) =>
      Base64.Utf8Append(t, ":");
      Success(Headers(None, Some(TokenHeader(t))))
    case Anonymous => Success(Headers(None, None))
  }

  /** Example: token "abc" sends "Basic YWJjOg==". */
  lemma TokenHeaderExample()
    ensures TokenHeader("abc") == "Basic YWJjOg=="
  {
    assert "abc" + ":" == "abc:";
    assert Base64.OfText("abc:") == "YWJjOg==" by { Base64.OfTextExample(); }
    assert TokenHeader("abc") == "Basic " + Base64.OfText("abc:");
  }
}
