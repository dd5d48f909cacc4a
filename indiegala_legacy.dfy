/** The earlier revision of the plugin, the top-level `plugin.py`: a smaller login
    window, an unanchored end-of-login pattern, and a parser that uses the raw text of
    each entry as both id and title. The segmenting, the cookie choice and the two
    storefront requests are the same as in `src/plugin.py` and are taken from there. */
module IndieGalaLegacy {
  import opened Galaxy
  import opened PyStr
  import IndieGala

  const AuthParameters := AuthParams(
    "Login to Indie Gala", 400, 680,
    "https://www.indiegala.com/login", @"https://www\.indiegala\.com")

  /** The record emitted for one showcase entry: the raw name is id and title. */
  function LegacyGame(name: string): Game
  {
    Game(name, name, [], LicenseInfo(SinglePurchase))
  }

  /** The loop of this revision's `parse_html_into_games` over the segments. */
  function ParseSegments(lines: seq<string>): IndieGala.Parse
  {
    if lines == [] then IndieGala.Complete([])
    else if !StartsWith(lines[0], IndieGala.AnchorOpen) then ParseSegments(lines[1..])
    else
      match IndieGala.GameString(lines[0])
      case None => IndieGala.IndexErrorAfter([])
      case Some(name) => IndieGala.Yield(LegacyGame(name), ParseSegments(lines[1..]))
  }

  /** This revision's `parse_html_into_games`. */
  function ParseHtmlIntoGames(raw: string): IndieGala.Parse
  {
    ParseSegments(IndieGala.Segments(raw))
  }

  /** This revision's parser is the later one with the title left unescaped. */
  lemma {:induction false} ParseSegmentsIsUnescaped(lines: seq<string>)
    ensures ParseSegments(lines) == IndieGala.ParseSegments(lines, s => s)
  {
    if lines != [] {
      ParseSegmentsIsUnescaped(lines[1..]);
    }
  }

  /** The `j`-th game yielded comes from the `j`-th kept segment, which names it; the
      name is both id and title. */
  lemma {:induction false} ParseSegmentsGames(lines: seq<string>)
    ensures |ParseSegments(lines).Emitted()| <= |IndieGala.Kept(lines)|
    ensures forall j | 0 <= j < |ParseSegments(lines).Emitted()| ::
              IndieGala.GameString(IndieGala.Kept(lines)[j]).Some?
              && ParseSegments(lines).Emitted()[j]
                 == LegacyGame(IndieGala.GameString(IndieGala.Kept(lines)[j]).value)
  {
    ParseSegmentsIsUnescaped(lines);
    IndieGala.ParseSegmentsGames(lines, s => s);
  }

  /** What this revision's parser promises for every page: one game per segment that
      starts with `<a`, in order, whose id and title are both the raw text (which holds
      no `>`), with a single-purchase licence and no DLCs; or `IndexError` exactly
      when some such segment has no `>` before its `</a>`. */
  lemma ParseHtmlIntoGamesSpec(raw: string)
    ensures ParseHtmlIntoGames(raw).Complete?
        <==> forall l | l in IndieGala.Kept(IndieGala.Segments(raw)) :: '>' in IndieGala.GameLine(l)
    ensures ParseHtmlIntoGames(raw).Complete?
        ==> |ParseHtmlIntoGames(raw).games| == |IndieGala.Kept(IndieGala.Segments(raw))|
    ensures forall g | g in ParseHtmlIntoGames(raw).Emitted() ::
              '>' !in g.gameId && g.gameTitle == g.gameId
              && g.licenseInfo == LicenseInfo(SinglePurchase) && g.dlcs == []
  {
    var id := (s: string) => s;
    ParseSegmentsIsUnescaped(IndieGala.Segments(raw));
    IndieGala.ParseHtmlIntoGamesSpec(raw, id);
    assert ParseHtmlIntoGames(raw) == IndieGala.ParseHtmlIntoGames(raw, id);
  }

  /** What this revision's `get_owned_games` returns for a fetched page: the list of
      games exactly when every segment that starts with `<a` has a `>` before its
      `</a>`, one game per such segment, in order, named by it; otherwise `IndexError`. */
  lemma CollectedGames(raw: string)
    ensures IndieGala.Collect(ParseHtmlIntoGames(raw)).Success?
        <==> forall l | l in IndieGala.Kept(IndieGala.Segments(raw)) :: '>' in IndieGala.GameLine(l)
    ensures IndieGala.Collect(ParseHtmlIntoGames(raw)).Failure?
        ==> IndieGala.Collect(ParseHtmlIntoGames(raw)).error == IndexError
    ensures IndieGala.Collect(ParseHtmlIntoGames(raw)).Success?
        ==> |IndieGala.Collect(ParseHtmlIntoGames(raw)).value| == |IndieGala.Kept(IndieGala.Segments(raw))|
    ensures IndieGala.Collect(ParseHtmlIntoGames(raw)).Success?
        ==> forall j | 0 <= j < |IndieGala.Kept(IndieGala.Segments(raw))| ::
              IndieGala.GameString(IndieGala.Kept(IndieGala.Segments(raw))[j]).Some?
              && IndieGala.Collect(ParseHtmlIntoGames(raw)).value[j]
                 == LegacyGame(IndieGala.GameString(IndieGala.Kept(IndieGala.Segments(raw))[j]).value)
  {
    ParseHtmlIntoGamesSpec(raw);
    ParseSegmentsGames(IndieGala.Segments(raw));
  }

  /** The plugin object of this revision. */
  class IndieGalaPlugin {
    var sessionCookie: Option<Credentials>
    var storedCredentials: seq<Option<Credentials>>
    var requests: seq<Request>

    constructor ()
      ensures sessionCookie == None && storedCredentials == [] && requests == []
    {
      sessionCookie := None;
      storedCredentials := [];
      requests := [];
    }

    /** `authenticate`: with no usable stored credentials, ask the host for the web
        login; otherwise install them as the session and fetch the user's info. */
    method Authenticate(storedCreds: Option<Credentials>, site: Site) returns (r: Result<AuthStep>)
      modifies this
      ensures storedCredentials == old(storedCredentials)
      ensures !Truthy(storedCreds) ==> r == Success(Login(NextStep("web_session", AuthParameters)))
      ensures !Truthy(storedCreds) ==> sessionCookie == old(sessionCookie) && requests == old(requests)
      ensures Truthy(storedCreds) ==> sessionCookie == storedCreds
      ensures Truthy(storedCreds) ==> r == Success(Authenticated(site.userInfo(storedCreds.value)))
      ensures Truthy(storedCreds) ==> requests == old(requests) + [IndieGala.UserInfoRequest(storedCreds.value)]
    {
      if !Truthy(storedCreds) {
        return Success(Login(NextStep("web_session", AuthParameters)));
      }
      sessionCookie := storedCreds;
      var info := GetUserInfo(site);
      match info
      case Success(user) => r := Success(Authenticated(user));
      case Failure(e) => r := Failure(e);
    }

    /** `pass_login_credentials`: take the first `auth` cookie as the session, hand it
        to the host's credential store, install it, and fetch the user's info. */
    method PassLoginCredentials(cookies: seq<Cookie>, site: Site) returns (r: Result<Authentication>)
      modifies this
      ensures sessionCookie == IndieGala.AuthSession(cookies)
      ensures storedCredentials == old(storedCredentials) + [IndieGala.AuthSession(cookies)]
      ensures !Truthy(sessionCookie) ==> r == Failure(AuthenticationRequired) && requests == old(requests)
      ensures Truthy(sessionCookie) ==> r == Success(site.userInfo(sessionCookie.value))
      ensures Truthy(sessionCookie) ==> requests == old(requests) + [IndieGala.UserInfoRequest(sessionCookie.value)]
    {
      var session: Option<Credentials> := None;
      var k := 0;
      while k < |cookies|
        invariant 0 <= k <= |cookies|
        invariant session == None
        invariant IndieGala.AuthSession(cookies[k..]) == IndieGala.AuthSession(cookies)
      {
        if cookies[k].name == "auth" {
          session := Some(map["auth" := cookies[k].value]);
          break;
        }
        assert cookies[k..][1..] == cookies[k + 1..];
        k := k + 1;
      }
      storedCredentials := storedCredentials + [session];
      sessionCookie := session;
      r := GetUserInfo(site);
    }

    /** `get_owned_games`: fetch the showcase HTML and collect the parsed games. */
    method GetOwnedGames(site: Site) returns (r: Result<seq<Game>>)
      modifies this`requests
      ensures !Truthy(sessionCookie) ==> r == Failure(AuthenticationRequired) && requests == old(requests)
      ensures Truthy(sessionCookie) ==> requests == old(requests) + [IndieGala.ShowcaseRequest(sessionCookie.value)]
      ensures Truthy(sessionCookie)
          ==> r == IndieGala.Collect(ParseHtmlIntoGames(site.showcaseHtml(sessionCookie.value)))
    {
      var html := RetrieveShowcaseHtml(site);
      match html
      case Failure(e) => r := Failure(e);
      case Success(text) => r := IndieGala.Collect(ParseHtmlIntoGames(text));
    }

    /** `get_user_info`: refuse without a session, before any request is made. */
    method GetUserInfo(site: Site) returns (r: Result<Authentication>)
      modifies this`requests
      ensures !Truthy(sessionCookie) ==> r == Failure(AuthenticationRequired) && requests == old(requests)
      ensures Truthy(sessionCookie) ==> r == Success(site.userInfo(sessionCookie.value))
      ensures Truthy(sessionCookie) ==> requests == old(requests) + [IndieGala.UserInfoRequest(sessionCookie.value)]
    {
      if !Truthy(sessionCookie) {
        return Failure(AuthenticationRequired);
      }
      requests := requests + [IndieGala.UserInfoRequest(sessionCookie.value)];
      r := Success(site.userInfo(sessionCookie.value));
    }

    /** `retrieve_showcase_html`: refuse without a session, before any request is made. */
    method RetrieveShowcaseHtml(site: Site) returns (r: Result<string>)
      modifies this`requests
      ensures !Truthy(sessionCookie) ==> r == Failure(AuthenticationRequired) && requests == old(requests)
      ensures Truthy(sessionCookie) ==> r == Success(site.showcaseHtml(sessionCookie.value))
      ensures Truthy(sessionCookie) ==> requests == old(requests) + [IndieGala.ShowcaseRequest(sessionCookie.value)]
    {
      if !Truthy(sessionCookie) {
        return Failure(AuthenticationRequired);
      }
      requests := requests + [IndieGala.ShowcaseRequest(sessionCookie.value)];
      r := Success(site.showcaseHtml(sessionCookie.value));
    }
  }
}
