// The session side of DeepRacerManager: logging in with a scraped CSRF token
// and polling the battery level. Network exchanges, URL parsing and JSON
// decoding are parameters: each method takes what the network answered.

module Manager {
  import opened Wrappers
  import opened Bytes
  import Search
  import Endpoints
  import Csrf
  import FormEncoding

  /** What a request came back with: an HTTP status when the response is an HTTP one, and the body. */
  datatype Reply = Reply(status: Option<int>, body: seq<Byte>)

  /** An exchange either completes with a reply or throws, with the error's description. */
  type Exchange = Result<Reply, string>

  /** The errors `login()` can catch. */
  datatype LoginError =
    | BadUrl                 // URLError(.badURL)
    | BadServerResponse      // URLError(.badServerResponse)
    | Transport(description: string)
    | CsrfExtractionFailed   // "CSRF Extraction Failed"

  /** The decoded `{"battery_level": …, "success": …}` reply. */
  datatype BatteryResponse = BatteryResponse(batteryLevel: int, success: bool)

  const FORM_CONTENT_TYPE: string := "application/x-www-form-urlencoded; charset=UTF-8"

  /** The login POST: its URL, its `Content-Type` header and its body bytes. */
  datatype PostRequest = PostRequest(url: string, contentType: string, body: seq<Byte>)

  /**
   * `fetchCSRFToken`: GET the login page and scrape its token with the
   * scraper as written. The status of the reply is never looked at; a body
   * that is not UTF-8 fails like a page without a token.
   */
  function FetchCsrfToken(host: string, urlParses: string -> bool, reply: Exchange): (r: Result<string, LoginError>)
    ensures r.Success? ==> Csrf.QUOTE !in r.value
  {
    if !urlParses(Endpoints.LoginUrl(host)) then Failure(BadUrl)
    else match reply
      case Failure(d) => Failure(Transport(d))
      case Success(rep) =>
        match FormEncoding.Utf8Decode(rep.body)
        case None => Failure(CsrfExtractionFailed)
        case Some(html) =>
          Csrf.TokenShapeAsWritten(html);
          match Csrf.ExtractCsrfToken(html)
          case None => Failure(CsrfExtractionFailed)
          case Some(token) => Success(token)
  }

  /** The POST `performLoginPost` sends for a password and a token. */
  function LoginPost(host: string, password: string, token: string): PostRequest
  {
    PostRequest(Endpoints.LoginUrl(host), FORM_CONTENT_TYPE,
                FormEncoding.Utf8(FormEncoding.LoginBody(password, token)))
  }

  /** The verdict on the reply to the login POST: None when it is accepted. */
  function CheckLoginResponse(reply: Exchange): (e: Option<LoginError>)
    ensures e.None? <==> reply.Success? && reply.value.status.Some? && 200 <= reply.value.status.value <= 299
    ensures reply.Failure? ==> e == Some(Transport(reply.error))
  {
    match reply
    case Failure(d) => Some(Transport(d))
    case Success(rep) =>
      match rep.status
      case Some(code) => if 200 <= code <= 299 then None else Some(BadServerResponse)
      case None => Some(BadServerResponse)
  }

  /**
   * The outcome of the `do` block of `login()`: the token that was posted
   * when both steps succeed, else the first error thrown.
   */
  function LoginOutcome(host: string, password: string, urlParses: string -> bool,
                        tokenReply: Exchange, postReply: Exchange): (r: Result<string, LoginError>)
  {
    match FetchCsrfToken(host, urlParses, tokenReply)
    case Failure(e) => Failure(e)
    case Success(token) =>
      if !urlParses(Endpoints.LoginUrl(host)) then Failure(BadUrl)
      else match CheckLoginResponse(postReply)
        case Some(e) => Failure(e)
        case None => Success(token)
  }

  /** The POST `login()` makes, if the token fetch got that far. */
  function SentPost(host: string, password: string, urlParses: string -> bool, tokenReply: Exchange): Option<PostRequest>
  {
    match FetchCsrfToken(host, urlParses, tokenReply)
    case Failure(_) => None
    case Success(token) =>
      if urlParses(Endpoints.LoginUrl(host)) then Some(LoginPost(host, password, token)) else None
  }

  /** The session-expiry check: the battery endpoint answered with an HTML page. */
  predicate LooksLikeHtml(raw: string)
  {
    Search.Contains(raw, "<!DOCTYPE html>") || Search.Contains(raw, "<html")
  }

  /** What one battery poll does to the manager. */
  datatype BatteryEffect = Unchanged | LoggedOut | NewLevel(level: int)

  /**
   * The effect of `fetchBatteryLevel()` once past the authentication guard:
   * `decode` stands for `JSONDecoder().decode(BatteryResponse.self, from:)`.
   */
  function BatteryOutcome(host: string, urlParses: string -> bool, reply: Exchange,
                          decode: seq<Byte> -> Option<BatteryResponse>): BatteryEffect
  {
    if !urlParses(Endpoints.BatteryUrl(host)) then Unchanged
    else match reply
      case Failure(_) => Unchanged
      case Success(rep) =>
        var raw := FormEncoding.Utf8Decode(rep.body);
        if raw.Some? && LooksLikeHtml(raw.value) then LoggedOut
        else match decode(rep.body)
          case None => Unchanged
          case Some(b) => NewLevel(b.batteryLevel)
  }

  class DeepRacerManager {
    var ipAddress: string
    var password: string
    var isAuthenticated: bool
    var isLoggingIn: bool
    var lastError: Option<LoginError>
    var batteryLevel: int

    /** The state the shared manager starts in. */
    constructor ()
      ensures ipAddress == "192.168.x.x" && password == "your_password"
      ensures !isAuthenticated && !isLoggingIn && lastError == None && batteryLevel == 0
    {
      ipAddress := "192.168.x.x";
      password := "your_password";
      isAuthenticated := false;
      isLoggingIn := false;
      lastError := None;
      batteryLevel := 0;
    }

    /**
     * `videoStreamURL`: the camera route on the current device, or None when
     * `URL(string:)` rejects the string.
     */
    function VideoStreamUrl(urlParses: string -> bool): (url: Option<string>)
      reads this
      ensures url.Some? <==> urlParses(Endpoints.StreamUrl(ipAddress))
      ensures url.Some? && '/' !in ipAddress ==> Endpoints.SplitUrl(url.value) == Some((ipAddress, Endpoints.STREAM_PATH))
    {
      var s := Endpoints.StreamUrl(ipAddress);
      if urlParses(s) then Some(s) else None
    }

    /**
     * `login()`: fetch a token, post the credentials, and record the outcome.
     * Returns the POST it sent, if it got that far.
     */
    method Login(urlParses: string -> bool, tokenReply: Exchange, postReply: Exchange)
      returns (sent: Option<PostRequest>)
      modifies this
      ensures sent == SentPost(ipAddress, password, urlParses, tokenReply)
      ensures var outcome := LoginOutcome(ipAddress, password, urlParses, tokenReply, postReply);
        && !isLoggingIn
        && isAuthenticated == outcome.Success?
        && lastError == (if outcome.Success? then None else Some(outcome.error))
      ensures ipAddress == old(ipAddress) && password == old(password) && batteryLevel == old(batteryLevel)
    {
      isLoggingIn := true;
      lastError := None;
      sent := None;
      var fetched := FetchCsrfToken(ipAddress, urlParses, tokenReply);
      if fetched.Failure? {
        lastError := Some(fetched.error);
        isAuthenticated := false;
        isLoggingIn := false;
        return;
      }
      if !urlParses(Endpoints.LoginUrl(ipAddress)) {
        // `performLoginPost` parses the same URL again; the fetch already succeeded with it.
        assert false;
      }
      sent := Some(LoginPost(ipAddress, password, fetched.value));
      var verdict := CheckLoginResponse(postReply);
      if verdict.Some? {
        lastError := Some(verdict.value);
        isAuthenticated := false;
        isLoggingIn := false;
        return;
      }
      isAuthenticated := true;
      isLoggingIn := false;
    }

    /**
     * `fetchBatteryLevel()`: a no-op unless authenticated; otherwise one poll
     * of the battery endpoint. Returns the URL it requested, if any.
     */
    method FetchBatteryLevel(urlParses: string -> bool, reply: Exchange,
                             decode: seq<Byte> -> Option<BatteryResponse>)
      returns (requested: Option<string>)
      modifies this
      ensures !old(isAuthenticated) ==>
        requested == None && isAuthenticated == old(isAuthenticated) && batteryLevel == old(batteryLevel)
      ensures old(isAuthenticated) ==>
        && requested == (if urlParses(Endpoints.BatteryUrl(ipAddress)) then Some(Endpoints.BatteryUrl(ipAddress)) else None)
        && match BatteryOutcome(ipAddress, urlParses, reply, decode)
           case Unchanged => isAuthenticated && batteryLevel == old(batteryLevel)
           case LoggedOut => !isAuthenticated && batteryLevel == old(batteryLevel)
           case NewLevel(level) => isAuthenticated && batteryLevel == level
      ensures ipAddress == old(ipAddress) && password == old(password)
      ensures isLoggingIn == old(isLoggingIn) && lastError == old(lastError)
    {
      requested := None;
      if !isAuthenticated {
        return;
      }
      var url := Endpoints.BatteryUrl(ipAddress);
      if !urlParses(url) {
        return;
      }
      requested := Some(url);
      if reply.Failure? {
        return;
      }
      var raw := FormEncoding.Utf8Decode(reply.value.body);
      if raw.Some? && LooksLikeHtml(raw.value) {
        isAuthenticated := false;
        return;
      }
      var result := decode(reply.value.body);
      if result.Some? {
        batteryLevel := result.value.batteryLevel;
      }
    }
  }

  // ------------------------------------------------------------- properties

  /** The token fetch never looks at the status: two replies with the same body fare alike. */
  lemma TokenIgnoresStatus(host: string, urlParses: string -> bool, body: seq<Byte>, s1: Option<int>, s2: Option<int>)
    ensures FetchCsrfToken(host, urlParses, Success(Reply(s1, body)))
         == FetchCsrfToken(host, urlParses, Success(Reply(s2, body)))
  {
  }

  /**
   * With the URL parsing and the page arriving, the token fetch fails exactly
   * when the page is not UTF-8 or neither CSRF pattern matches in it.
   */
  lemma TokenFetchFailsIff(host: string, urlParses: string -> bool, rep: Reply)
    requires urlParses(Endpoints.LoginUrl(host))
    ensures FetchCsrfToken(host, urlParses, Success(rep)).Failure?
        <==> FormEncoding.Utf8Decode(rep.body).None?
             || (var html := FormEncoding.Utf8Decode(rep.body).value;
                 Csrf.FirstQuoted(html, Csrf.META_OPEN, 0).None? && Csrf.FindInput(html, 0).None?)
    ensures FetchCsrfToken(host, urlParses, Success(rep)).Failure? ==>
        FetchCsrfToken(host, urlParses, Success(rep)).error == CsrfExtractionFailed
  {
    if FormEncoding.Utf8Decode(rep.body).Some? {
      Csrf.NoTokenIff(FormEncoding.Utf8Decode(rep.body).value);
    }
  }

  /** Login succeeds exactly when a token was scraped and the POST drew a 2xx HTTP status. */
  lemma LoginSucceedsIff(host: string, password: string, urlParses: string -> bool,
                         tokenReply: Exchange, postReply: Exchange)
    ensures LoginOutcome(host, password, urlParses, tokenReply, postReply).Success?
        <==> FetchCsrfToken(host, urlParses, tokenReply).Success?
             && postReply.Success? && postReply.value.status.Some?
             && 200 <= postReply.value.status.value <= 299
  {
    if FetchCsrfToken(host, urlParses, tokenReply).Success? {
      assert urlParses(Endpoints.LoginUrl(host));
    }
  }

  /**
   * The fetched token is the capture of the pattern that matched, unless that
   * capture ends with the attribute's own name (`content=` or `value=`).
   */
  lemma FetchedTokenIsCapture(host: string, urlParses: string -> bool, rep: Reply, html: string)
    requires urlParses(Endpoints.LoginUrl(host)) && FormEncoding.Utf8Decode(rep.body) == Some(html)
    requires Csrf.ExtractCsrfTokenIntended(html).Some?
    requires !Search.EndsWith(Csrf.ExtractCsrfTokenIntended(html).value, "content=")
    requires !Search.EndsWith(Csrf.ExtractCsrfTokenIntended(html).value, "value=")
    ensures FetchCsrfToken(host, urlParses, Success(rep)) == Success(Csrf.ExtractCsrfTokenIntended(html).value)
  {
    Csrf.AsWrittenAgrees(html);
  }

  /**
   * A POST is sent exactly when the login URL parses, the login page arrives
   * as UTF-8 and one of the two CSRF patterns matches in it; without a POST,
   * the login fails.
   */
  lemma PostSentIff(host: string, password: string, urlParses: string -> bool,
                    tokenReply: Exchange, postReply: Exchange)
    ensures SentPost(host, password, urlParses, tokenReply).Some?
        <==> urlParses(Endpoints.LoginUrl(host)) && tokenReply.Success?
             && FormEncoding.Utf8Decode(tokenReply.value.body).Some?
             && (var html := FormEncoding.Utf8Decode(tokenReply.value.body).value;
                 Csrf.FirstQuoted(html, Csrf.META_OPEN, 0).Some? || Csrf.FindInput(html, 0).Some?)
    ensures SentPost(host, password, urlParses, tokenReply).None?
        ==> LoginOutcome(host, password, urlParses, tokenReply, postReply).Failure?
  {
    if urlParses(Endpoints.LoginUrl(host)) && tokenReply.Success? {
      TokenFetchFailsIff(host, urlParses, tokenReply.value);
    }
  }

  /**
   * The POST that is sent carries the password and the scraped token: read
   * as UTF-8 and parsed as a form, its body gives back exactly the two.
   */
  lemma SentPostCarriesCredentials(host: string, password: string, urlParses: string -> bool, tokenReply: Exchange)
    requires SentPost(host, password, urlParses, tokenReply).Some?
    ensures var post := SentPost(host, password, urlParses, tokenReply).value;
      && post.url == Endpoints.LoginUrl(host)
      && post.contentType == FORM_CONTENT_TYPE
      && FormEncoding.Utf8Decode(post.body).Some?
      && FormEncoding.ParseLoginBody(FormEncoding.Utf8Decode(post.body).value)
         == Some((password, FetchCsrfToken(host, urlParses, tokenReply).value))
  {
    var token := FetchCsrfToken(host, urlParses, tokenReply).value;
    var body := FormEncoding.LoginBody(password, token);
    FormEncoding.Utf8RoundTrip(body);
    FormEncoding.LoginBodyRoundTrip(password, token);
  }

  /** `LooksLikeHtml` holds exactly when one of the two markers occurs somewhere in the text. */
  lemma LooksLikeHtmlIff(raw: string)
    ensures LooksLikeHtml(raw) <==>
      (exists k :: Search.HasAt(raw, k, "<!DOCTYPE html>")) || (exists k :: Search.HasAt(raw, k, "<html"))
  {
    Search.ContainsIff(raw, "<!DOCTYPE html>");
    Search.ContainsIff(raw, "<html");
  }

  /** An HTML reply logs the session out whatever the JSON decoder would make of it. */
  lemma HtmlReplyLogsOut(host: string, urlParses: string -> bool, rep: Reply,
                         decode: seq<Byte> -> Option<BatteryResponse>, k: nat)
    requires urlParses(Endpoints.BatteryUrl(host))
    requires FormEncoding.Utf8Decode(rep.body).Some?
    requires Search.HasAt(FormEncoding.Utf8Decode(rep.body).value, k, "<!DOCTYPE html>")
          || Search.HasAt(FormEncoding.Utf8Decode(rep.body).value, k, "<html")
    ensures BatteryOutcome(host, urlParses, Success(rep), decode) == LoggedOut
  {
    LooksLikeHtmlIff(FormEncoding.Utf8Decode(rep.body).value);
  }

  /** The battery poll never looks at the status: two replies with the same body fare alike. */
  lemma PollIgnoresStatus(host: string, urlParses: string -> bool, body: seq<Byte>, s1: Option<int>, s2: Option<int>,
                          decode: seq<Byte> -> Option<BatteryResponse>)
    ensures BatteryOutcome(host, urlParses, Success(Reply(s1, body)), decode)
         == BatteryOutcome(host, urlParses, Success(Reply(s2, body)), decode)
  {
  }

  /**
   * The `success` flag of the decoded reply plays no part: two decoders that
   * agree on the level and differ at most in the flag give the same effect.
   */
  lemma LevelIgnoresSuccessFlag(host: string, urlParses: string -> bool, reply: Exchange,
                                d1: seq<Byte> -> Option<BatteryResponse>, d2: seq<Byte> -> Option<BatteryResponse>,
                                flag: bool)
    requires reply.Success? && d1(reply.value.body).None? ==> d2(reply.value.body).None?
    requires reply.Success? && d1(reply.value.body).Some? ==>
      d2(reply.value.body) == Some(BatteryResponse(d1(reply.value.body).value.batteryLevel, flag))
    ensures BatteryOutcome(host, urlParses, reply, d1) == BatteryOutcome(host, urlParses, reply, d2)
  {
  }
}
