/** The IndieGala plugin of `src/plugin.py`: the showcase HTML parser, the choice of
    the login cookie, and the session guards in front of the two storefront requests. */
module IndieGala {
  import opened Galaxy
  import opened PyStr

  const AuthParameters := AuthParams(
    "Login to Indie Gala", 1000, 800,
    "https://www.indiegala.com/login", @"^https://www\.indiegala\.com/")
  const ShowcaseUrl := "https://www.indiegala.com/showcase_collection"
  const UserInfoUrl := "https://www.indiegala.com/get_user_info"

  /** The literal the showcase HTML is cut on: an opening grid cell, a line break
      and five tabs. */
  const Delimiter := "<div class=\"col-xs-4\">\r\n\t\t\t\t\t"
  const AnchorOpen := "<a"
  const AnchorClose := "</a>"
  const TagEnd := ">"

  /** The request each helper sends with the session cookies; redirects are not followed. */
  function UserInfoRequest(cookies: Credentials): Request
  {
    Request("get", UserInfoUrl, cookies, false)
  }

  function ShowcaseRequest(cookies: Credentials): Request
  {
    Request("get", ShowcaseUrl, cookies, false)
  }

  // ---------------------------------------------------------------------------
  // Showcase parser

  /** The segments of the showcase HTML, in document order. */
  function Segments(raw: string): seq<string>
  {
    Split(raw, Delimiter)
  }

  /** The segments the parser keeps: those that start with `<a`, in order. */
  function Kept(lines: seq<string>): (r: seq<string>)
    ensures forall l | l in r :: StartsWith(l, AnchorOpen)
    ensures forall l | l in lines && StartsWith(l, AnchorOpen) :: l in r
    ensures |r| <= |lines|
  {
    if lines == [] then []
    else if StartsWith(lines[0], AnchorOpen) then [lines[0]] + Kept(lines[1..])
    else Kept(lines[1..])
  }

  /** `line.split('</a>')[0]`: the part of a segment before its first `</a>`. */
  function GameLine(line: string): (r: string)
    ensures StartsWith(line, r) && !Contains(r, AnchorClose)
    ensures r == line || OccursAt(line, AnchorClose, |r|)
  {
    var p := Split(line, AnchorClose)[0];
    SplitFirstPiece(line, AnchorClose, p);
    p
  }

  /** `game_line.split('>')[1]`: the text after the first `>` of the game line, up to
      the next `>` or its end; `None` where Python raises `IndexError` because the
      game line holds no `>`. */
  function GameString(line: string): (r: Option<string>)
    ensures r.None? <==> '>' !in GameLine(line)
    ensures r.Some? ==> '>' !in r.value
  {
    var pieces := Split(GameLine(line), TagEnd);
    SplitFirstPiece(GameLine(line), TagEnd, pieces[0]);
    ContainsChar(GameLine(line), '>');
    if |pieces| < 2 then None
    else
      SplitSecondPiece(GameLine(line), TagEnd, |pieces[0]|, pieces[1]);
      ContainsChar(pieces[1], '>');
      Some(pieces[1])
  }

  /** The record emitted for one showcase entry. */
  function ShowcaseGame(gameId: string, gameTitle: string): Game
  {
    Game(gameId, gameTitle, [], LicenseInfo(SinglePurchase))
  }

  /** What consuming the parser's generator produces: every game, or the games yielded
      before the segment on which it raised `IndexError`. */
  datatype Parse = Complete(games: seq<Game>) | IndexErrorAfter(yielded: seq<Game>)
  {
    function Emitted(): seq<Game>
    {
      match this
      case Complete(gs) => gs
      case IndexErrorAfter(gs) => gs
    }
  }

  /** A game yielded in front of whatever the rest of the generator produces. */
  function Yield(g: Game, rest: Parse): (r: Parse)
    ensures r.Complete? == rest.Complete? && r.Emitted() == [g] + rest.Emitted()
  {
    match rest
    case Complete(gs) => Complete([g] + gs)
    case IndexErrorAfter(gs) => IndexErrorAfter([g] + gs)
  }

  /** The loop of `parse_html_into_games` over the segments: skip what does not start
      with `<a`; yield a game whose id is the raw text and whose title is its
      unescaped form. */
  function ParseSegments(lines: seq<string>, unescape: string -> string): Parse
  {
    if lines == [] then Complete([])
    else if !StartsWith(lines[0], AnchorOpen) then ParseSegments(lines[1..], unescape)
    else
      match GameString(lines[0])
      case None => IndexErrorAfter([])
      case Some(name) => Yield(ShowcaseGame(name, unescape(name)), ParseSegments(lines[1..], unescape))
  }

  /** `parse_html_into_games`; `unescape` stands for `html.unescape`. */
  function ParseHtmlIntoGames(raw: string, unescape: string -> string): Parse
  {
    ParseSegments(Segments(raw), unescape)
  }

  /** What the list comprehension of `get_owned_games` makes of the generator. */
  function Collect(p: Parse): (r: Result<seq<Game>>)
    ensures r.Success? <==> p.Complete?
    ensures r.Success? ==> r.value == p.games
    ensures r.Failure? ==> r.error == IndexError
  {
    match p
    case Complete(gs) => Success(gs)
    case IndexErrorAfter(_) => Failure(IndexError)
  }

  /** The segments cover the whole page: joined back with the delimiter they give the
      HTML, and none of them contains the delimiter. */
  lemma SegmentsPartition(raw: string)
    ensures Join(Segments(raw), Delimiter) == raw
    ensures forall l | l in Segments(raw) :: !Contains(l, Delimiter)
  {
    SplitJoin(raw, Delimiter);
    SplitPiecesFree(raw, Delimiter);
  }

  /** Keeping segments commutes with concatenation, so kept segments stay in order. */
  lemma {:induction false} KeptConcat(a: seq<string>, b: seq<string>)
    ensures Kept(a + b) == Kept(a) + Kept(b)
  {
    if a == [] {
      assert a + b == b;
    } else {
      assert (a + b)[1..] == a[1..] + b;
      KeptConcat(a[1..], b);
    }
  }

  /** A segment that does not start with `<a` (a leading one included) yields nothing. */
  lemma KeptSkips(l: string, rest: seq<string>)
    requires !StartsWith(l, AnchorOpen)
    ensures Kept([l] + rest) == Kept(rest)
  {
  }

  /** The text between the first `>` of the game line, at `k`, and the next `>` or the
      end of the game line. */
  lemma {:induction false} GameStringBetweenTags(line: string, k: nat)
    requires GameString(line).Some?
    requires k < |GameLine(line)| && GameLine(line)[k] == '>' && '>' !in GameLine(line)[..k]
    ensures k + 1 + |GameString(line).value| <= |GameLine(line)|
    ensures GameString(line).value == GameLine(line)[k + 1..k + 1 + |GameString(line).value|]
    ensures k + 1 + |GameString(line).value| == |GameLine(line)|
         || GameLine(line)[k + 1 + |GameString(line).value|] == '>'
  {
    var g := GameLine(line);
    var pieces := Split(g, TagEnd);
    var i := |pieces[0]|;
    var t := GameString(line).value;
    assert |pieces| >= 2 && t == pieces[1];
    SplitFirstPiece(g, TagEnd, pieces[0]);
    SplitSecondPiece(g, TagEnd, i, t);
    assert g[i] == '>' by { assert g[i..i + 1] == TagEnd; }
    ContainsChar(pieces[0], '>');
    assert forall j | 0 <= j < i :: g[j] != '>' by {
      assert pieces[0] == g[..i];
      forall j | 0 <= j < i ensures g[j] != '>' { assert g[..i][j] == g[j]; }
    }
    assert forall j | 0 <= j < k :: g[j] != '>' by {
      forall j | 0 <= j < k ensures g[j] != '>' { assert g[..k][j] == g[j]; }
    }
    assert i == k;
    if i + 1 + |t| < |g| {
      assert g[i + 1 + |t|..i + 1 + |t| + 1] == TagEnd;
    }
  }

  /** The generator, consumed, runs through every kept segment exactly when each of
      them names a game; otherwise it raises `IndexError` at the first kept segment
      without a name, having yielded one game per kept segment before it. */
  lemma {:induction false} ParseSegmentsOutcome(lines: seq<string>, unescape: string -> string)
    ensures ParseSegments(lines, unescape).Complete?
        <==> forall l | l in Kept(lines) :: GameString(l).Some?
    ensures ParseSegments(lines, unescape).Complete?
        ==> |ParseSegments(lines, unescape).games| == |Kept(lines)|
    ensures ParseSegments(lines, unescape).IndexErrorAfter?
        ==> (|ParseSegments(lines, unescape).yielded| < |Kept(lines)|
             && GameString(Kept(lines)[|ParseSegments(lines, unescape).yielded|]).None?)
  {
    if lines != [] {
      ParseSegmentsOutcome(lines[1..], unescape);
      if StartsWith(lines[0], AnchorOpen) {
        var kept := Kept(lines);
        assert kept == [lines[0]] + Kept(lines[1..]);
        if GameString(lines[0]).Some? {
          var rest := ParseSegments(lines[1..], unescape);
          var r := ParseSegments(lines, unescape);
          assert |r.Emitted()| == 1 + |rest.Emitted()|;
          if !r.Complete? {
            assert kept[|r.yielded|] == Kept(lines[1..])[|rest.yielded|];
          }
        }
      }
    }
  }

  /** The `j`-th game yielded comes from the `j`-th kept segment, which names it: its
      id is the raw name and its title the unescaped name. */
  lemma {:induction false} ParseSegmentsGames(lines: seq<string>, unescape: string -> string)
    ensures |ParseSegments(lines, unescape).Emitted()| <= |Kept(lines)|
    ensures forall j | 0 <= j < |ParseSegments(lines, unescape).Emitted()| ::
              GameString(Kept(lines)[j]).Some?
              && ParseSegments(lines, unescape).Emitted()[j]
                 == ShowcaseGame(GameString(Kept(lines)[j]).value, unescape(GameString(Kept(lines)[j]).value))
  {
    if lines != [] {
      ParseSegmentsGames(lines[1..], unescape);
      if StartsWith(lines[0], AnchorOpen) && GameString(lines[0]).Some? {
        var kept := Kept(lines);
        assert kept == [lines[0]] + Kept(lines[1..]);
        var rest := ParseSegments(lines[1..], unescape);
        var r := ParseSegments(lines, unescape);
        var name := GameString(lines[0]).value;
        assert r.Emitted() == [ShowcaseGame(name, unescape(name))] + rest.Emitted();
        forall j | 0 <= j < |r.Emitted()|
          ensures GameString(kept[j]).Some?
          ensures r.Emitted()[j] == ShowcaseGame(GameString(kept[j]).value, unescape(GameString(kept[j]).value))
        {
          if j > 0 {
            assert kept[j] == Kept(lines[1..])[j - 1];
            assert r.Emitted()[j] == rest.Emitted()[j - 1];
          }
        }
      }
    }
  }

  /** What `parse_html_into_games` promises for every page: one game per segment that
      starts with `<a`, in order, each with its raw text (which holds no `>`) as id, the
      unescaped text as title, a single-purchase licence and no DLCs; or `IndexError`
      exactly when some such segment has no `>` before its `</a>`. */
  lemma ParseHtmlIntoGamesSpec(raw: string, unescape: string -> string)
    ensures ParseHtmlIntoGames(raw, unescape).Complete?
        <==> forall l | l in Kept(Segments(raw)) :: '>' in GameLine(l)
    ensures ParseHtmlIntoGames(raw, unescape).Complete?
        ==> |ParseHtmlIntoGames(raw, unescape).games| == |Kept(Segments(raw))|
    ensures forall g | g in ParseHtmlIntoGames(raw, unescape).Emitted() ::
              '>' !in g.gameId && g.gameTitle == unescape(g.gameId)
              && g.licenseInfo == LicenseInfo(SinglePurchase) && g.dlcs == []
  {
    var lines := Segments(raw);
    ParseSegmentsOutcome(lines, unescape);
    ParseSegmentsGames(lines, unescape);
    var r := ParseSegments(lines, unescape);
    forall g | g in r.Emitted()
      ensures '>' !in g.gameId && g.gameTitle == unescape(g.gameId)
      ensures g.licenseInfo == LicenseInfo(SinglePurchase) && g.dlcs == []
    {
      var j :| 0 <= j < |r.Emitted()| && r.Emitted()[j] == g;
      assert g.gameId == GameString(Kept(lines)[j]).value;
    }
  }

  /** What `get_owned_games` returns for a fetched page: the list of games exactly when
      every segment that starts with `<a` has a `>` before its `</a>`, one game per such
      segment, in order, built from that segment's name; otherwise `IndexError`. */
  lemma CollectedGames(raw: string, unescape: string -> string)
    ensures Collect(ParseHtmlIntoGames(raw, unescape)).Success?
        <==> forall l | l in Kept(Segments(raw)) :: '>' in GameLine(l)
    ensures Collect(ParseHtmlIntoGames(raw, unescape)).Failure?
        ==> Collect(ParseHtmlIntoGames(raw, unescape)).error == IndexError
    ensures Collect(ParseHtmlIntoGames(raw, unescape)).Success?
        ==> |Collect(ParseHtmlIntoGames(raw, unescape)).value| == |Kept(Segments(raw))|
    ensures Collect(ParseHtmlIntoGames(raw, unescape)).Success?
        ==> forall j | 0 <= j < |Kept(Segments(raw))| ::
              GameString(Kept(Segments(raw))[j]).Some?
              && Collect(ParseHtmlIntoGames(raw, unescape)).value[j]
                 == ShowcaseGame(GameString(Kept(Segments(raw))[j]).value,
                                 unescape(GameString(Kept(Segments(raw))[j]).value))
  {
    ParseHtmlIntoGamesSpec(raw, unescape);
    ParseSegmentsGames(Segments(raw), unescape);
  }

  /** A kept segment with no `>` before its `</a>`, as in `<a</a>`, raises `IndexError`
      before any game is yielded. */
  lemma EmptyAnchorRaises(unescape: string -> string)
    ensures ParseHtmlIntoGames("<a</a>", unescape) == IndexErrorAfter([])
  {
    var line := "<a</a>";
    assert !OccursAt(line, Delimiter, 0);
    SplitFromUnfold(line, Delimiter, 0);
    assert Segments(line) == [line];
    assert line[..2] == AnchorOpen;
    assert line[2..6] == AnchorClose;
    assert line[0..4][1] != AnchorClose[1] && line[1..5][0] != AnchorClose[0];
    SplitFirstPieceAt(line, AnchorClose, 2);
    assert GameLine(line) == "<a";
    ContainsChar("<a", '>');
  }

  /** The entry `<a>X</a>` names the game `X`. */
  lemma SingleAnchorName()
    ensures GameString("<a>X</a>") == Some("X")
  {
    var line := "<a>X</a>";
    assert line[4..8] == AnchorClose;
    forall j | 0 <= j < 4
      ensures !OccursAt(line, AnchorClose, j)
    {
      if j == 0 {
        assert line[0..4][1] != AnchorClose[1];
      } else {
        assert line[j..j + 4][0] != AnchorClose[0];
      }
    }
    SplitFirstPieceAt(line, AnchorClose, 4);
    var g := GameLine(line);
    assert g == "<a>X";
    ContainsChar(g, '>');
    assert g[2] == '>' && g[..2] == "<a";
    GameStringBetweenTags(line, 2);
    assert g[3] != '>';
  }

  /** A one-entry page yields the entry's text as id and its unescaped form as title. */
  lemma SingleAnchorParses(unescape: string -> string)
    ensures ParseHtmlIntoGames("<a>X</a>", unescape) == Complete([ShowcaseGame("X", unescape("X"))])
  {
    var line := "<a>X</a>";
    assert !OccursAt(line, Delimiter, 0);
    SplitFromUnfold(line, Delimiter, 0);
    assert Segments(line) == [line];
    assert line[..2] == AnchorOpen;
    SingleAnchorName();
  }

  // ---------------------------------------------------------------------------
  // Login-cookie selection

  /** The session that `pass_login_credentials` derives from the browser's cookies:
      `{'auth': value}` for the first cookie named `auth`, or `None`. */
  function AuthSession(cookies: seq<Cookie>): Option<Credentials>
  {
    if cookies == [] then None
    else if cookies[0].name == "auth" then Some(map["auth" := cookies[0].value])
    else AuthSession(cookies[1..])
  }

  /** The session comes from the first `auth` cookie; later ones are ignored. */
  lemma {:induction false} AuthSessionFirstWins(cookies: seq<Cookie>, i: nat)
    requires i < |cookies| && cookies[i].name == "auth"
    requires forall j | 0 <= j < i :: cookies[j].name != "auth"
    ensures AuthSession(cookies) == Some(map["auth" := cookies[i].value])
  {
    if i > 0 {
      assert cookies[0].name != "auth";
      AuthSessionFirstWins(cookies[1..], i - 1);
    }
  }

  /** There is no session exactly when no cookie is named `auth`; otherwise the session
      is non-empty, so the guards let requests through. */
  lemma {:induction false} AuthSessionNone(cookies: seq<Cookie>)
    ensures AuthSession(cookies).None? <==> forall i | 0 <= i < |cookies| :: cookies[i].name != "auth"
    ensures Truthy(AuthSession(cookies)) <==> AuthSession(cookies).Some?
  {
    if cookies != [] {
      AuthSessionNone(cookies[1..]);
      if cookies[0].name != "auth" {
        assert forall i | 1 <= i < |cookies| :: cookies[i] == cookies[1..][i - 1];
      } else {
        assert "auth" in AuthSession(cookies).value;
      }
    }
  }

  // ---------------------------------------------------------------------------
  // The plugin object

  /** The plugin's state: the session cookies it sends, plus what it has handed to the
      host's credential store and the requests it has issued, in order. */
  class IndieGalaPlugin {
    var sessionCookie: Option<Credentials>
    var storedCredentials: seq<Option<Credentials>>
    var requests: seq<Request>

    constructor ()
      ensures sessionCookie == None && storedCredentials == [] && requests == []
    {
      sessionCookie := None;
      storedCredentials := [];
      requests := [];
    }

    /** `authenticate`: with no usable stored credentials, ask the host for the web
        login; otherwise install them as the session and fetch the user's info. */
    method Authenticate(storedCreds: Option<Credentials>, site: Site) returns (r: Result<AuthStep>)
      modifies this
      ensures storedCredentials == old(storedCredentials)
      ensures !Truthy(storedCreds) ==> r == Success(Login(NextStep("web_session", AuthParameters)))
      ensures !Truthy(storedCreds) ==> sessionCookie == old(sessionCookie) && requests == old(requests)
      ensures Truthy(storedCreds) ==> sessionCookie == storedCreds
      ensures Truthy(storedCreds) ==> r == Success(Authenticated(site.userInfo(storedCreds.value)))
      ensures Truthy(storedCreds) ==> requests == old(requests) + [UserInfoRequest(storedCreds.value)]
    {
      if !Truthy(storedCreds) {
        return Success(Login(NextStep("web_session", AuthParameters)));
      }
      sessionCookie := storedCreds;
      var info := GetUserInfo(site);
      match info
      case Success(user) => r := Success(Authenticated(user));
      case Failure(e) => r := Failure(e);
    }

    /** `pass_login_credentials`: take the first `auth` cookie as the session, hand it
        to the host's credential store, install it, and fetch the user's info. */
    method PassLoginCredentials(cookies: seq<Cookie>, site: Site) returns (r: Result<Authentication>)
      modifies this
      ensures sessionCookie == AuthSession(cookies)
      ensures storedCredentials == old(storedCredentials) + [AuthSession(cookies)]
      ensures !Truthy(sessionCookie) ==> r == Failure(AuthenticationRequired) && requests == old(requests)
      ensures Truthy(sessionCookie) ==> r == Success(site.userInfo(sessionCookie.value))
      ensures Truthy(sessionCookie) ==> requests == old(requests) + [UserInfoRequest(sessionCookie.value)]
    {
      var session: Option<Credentials> := None;
      var k := 0;
      while k < |cookies|
        invariant 0 <= k <= |cookies|
        invariant session == None
        invariant AuthSession(cookies[k..]) == AuthSession(cookies)
      {
        if cookies[k].name == "auth" {
          session := Some(map["auth" := cookies[k].value]);
          break;
        }
        assert cookies[k..][1..] == cookies[k + 1..];
        k := k + 1;
      }
      storedCredentials := storedCredentials + [session];
      sessionCookie := session;
      r := GetUserInfo(site);
    }

    /** `get_owned_games`: fetch the showcase HTML and collect the parsed games. */
    method GetOwnedGames(site: Site, unescape: string -> string) returns (r: Result<seq<Game>>)
      modifies this`requests
      ensures !Truthy(sessionCookie) ==> r == Failure(AuthenticationRequired) && requests == old(requests)
      ensures Truthy(sessionCookie) ==> requests == old(requests) + [ShowcaseRequest(sessionCookie.value)]
      ensures Truthy(sessionCookie)
          ==> r == Collect(ParseHtmlIntoGames(site.showcaseHtml(sessionCookie.value), unescape))
    {
      var html := RetrieveShowcaseHtml(site);
      match html
      case Failure(e) => r := Failure(e);
      case Success(text) => r := Collect(ParseHtmlIntoGames(text, unescape));
    }

    /** `get_user_info`: refuse without a session, before any request is made. */
    method GetUserInfo(site: Site) returns (r: Result<Authentication>)
      modifies this`requests
      ensures !Truthy(sessionCookie) ==> r == Failure(AuthenticationRequired) && requests == old(requests)
      ensures Truthy(sessionCookie) ==> r == Success(site.userInfo(sessionCookie.value))
      ensures Truthy(sessionCookie) ==> requests == old(requests) + [UserInfoRequest(sessionCookie.value)]
    {
      if !Truthy(sessionCookie) {
        return Failure(AuthenticationRequired);
      }
      requests := requests + [UserInfoRequest(sessionCookie.value)];
      r := Success(site.userInfo(sessionCookie.value));
    }

    /** `retrieve_showcase_html`: refuse without a session, before any request is made. */
    method RetrieveShowcaseHtml(site: Site) returns (r: Result<string>)
      modifies this`requests
      ensures !Truthy(sessionCookie) ==> r == Failure(AuthenticationRequired) && requests == old(requests)
      ensures Truthy(sessionCookie) ==> r == Success(site.showcaseHtml(sessionCookie.value))
      ensures Truthy(sessionCookie) ==> requests == old(requests) + [ShowcaseRequest(sessionCookie.value)]
    {
      if !Truthy(sessionCookie) {
        return Failure(AuthenticationRequired);
      }
      requests := requests + [ShowcaseRequest(sessionCookie.value)];
      r := Success(site.showcaseHtml(sessionCookie.value));
    }
  }
}
