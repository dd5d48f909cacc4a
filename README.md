# IndieGala Galaxy plugin: showcase parser, login cookie and session guards

This project models the logic of the IndieGala integration for the GOG Galaxy host in
two revisions: `src/plugin.py` and the earlier top-level `plugin.py`. Everything the
plugin does beyond this logic is async HTTP, JSON decoding or calls into the host.

- **Showcase parser** (`parse_html_into_games`). The showcase HTML is split on the
  literal grid-cell delimiter. Segments that do not start with `<a` are skipped. Each
  remaining segment is cut at its first `</a>`. The game's raw text is what lies
  between the first `>` and the next `>` (or the end of the cut). One owned game is
  emitted per kept segment, with a single-purchase licence and no DLCs.
  - `src/plugin.py` uses the raw text as id and `html.unescape` of it as title.
  - `plugin.py` uses the raw text as both.
  - A kept segment with no `>` before its `</a>` makes `split('>')[1]` raise
    `IndexError`. The generator has then yielded the games before that segment, and
    the list comprehension in `get_owned_games` propagates the error.
- **Login-cookie choice** (`pass_login_credentials`). The first cookie named `auth`
  becomes the session `{'auth': value}`, or the session is `None` when there is no such
  cookie. That session is handed to the host's credential store and installed.
- **Session guards**. `authenticate` answers with the web-login directive when the
  stored credentials are falsy. Otherwise it installs them and fetches the user's info.
  `get_user_info` and `retrieve_showcase_html` raise `AuthenticationRequired` without
  a truthy session, before any request is made.

Layout:

- `galaxy.dfy` (module `Galaxy`): the host API records, the two errors, and the storefront.
  - The storefront is reduced to a `Site`: what the two endpoints answer, decoded,
    for the cookies sent.
- `pystr.dfy` (module `PyStr`): Python's `str.split`, `str.startswith` and `str.find`.
  - `Join` (`sep.join`) is the partner that `Split` round-trips with.
- `indiegala.dfy` (module `IndieGala`): `src/plugin.py`.
  - The parser is a function over `seq<char>`.
  - The plugin is a class with `sessionCookie`, plus two logs: the credentials handed
    to `store_credentials` and the HTTP requests issued.
- `indiegala_legacy.dfy` (module `IndieGalaLegacy`): `plugin.py`.
  - It has its own constants, parser and plugin class.
  - Segmenting, the game-line helpers and the cookie choice are the same code in both
    files, so it reuses them from `IndieGala`.

`src/plugin.py` uses the raw, still-escaped text as `game_id`, and only `game_title`
is decoded (src/plugin.py:86-91).

## Model

| member | source | states |
|---|---|---|
| PyStr.Split | src/plugin.py:80 | `str.split(sep)`: always at least one piece; `SplitJoin`, `SplitPiecesFree`, `SplitFirstPiece` and `SplitSecondPiece` state what the pieces are |
| PyStr.StartsWith | src/plugin.py:82 | `str.startswith`; `Kept` and `KeptSkips` state how the parser uses it |
| PyStr.SplitJoin | src/plugin.py:80 | joining the pieces of `split(sep)` with `sep` gives back the string, so the segments cover the page |
| PyStr.SplitPiecesFree | src/plugin.py:80 | no piece of `split(sep)` contains `sep` |
| PyStr.FindFromLeftmost | src/plugin.py:84 | `find` returns the leftmost occurrence at or after the start, and `None` only when there is none |
| PyStr.SplitFirstPiece | src/plugin.py:84 | `split(sep)[0]` is a prefix without `sep`, either the whole string or ending where `sep` occurs; there is a single piece exactly when `sep` does not occur |
| PyStr.SplitFirstPieceAt | src/plugin.py:84 | when the leftmost `sep` is at `n`, `split(sep)[0]` is `s[:n]` and there is a second piece |
| PyStr.SplitSecondPieceStart | src/plugin.py:85 | a second piece exists only after an occurrence of `sep` that ends the first piece, and starts right after it |
| PyStr.SplitSecondPiece | src/plugin.py:85 | `split(sep)[1]` starts right after the first `sep`, contains no `sep`, and runs to the end or to the next `sep` |
| PyStr.ContainsChar | src/plugin.py:85 | for a one-character separator, `sep in s` is membership of that character |
| IndieGala.SegmentsPartition | src/plugin.py:80 | the segments, joined with the delimiter, give back the HTML, and none contains the delimiter |
| IndieGala.Kept | src/plugin.py:81-83 | the kept segments all start with `<a`, and every segment that starts with `<a` is kept |
| IndieGala.KeptConcat | src/plugin.py:81-83 | keeping segments distributes over concatenation, so kept segments stay in document order |
| IndieGala.KeptSkips | src/plugin.py:82-83 | a segment not starting with `<a`, a leading one included, contributes nothing |
| IndieGala.GameLine | src/plugin.py:84 | the game line is a prefix of the segment without `</a>`, ending at the first `</a>` or at the end |
| IndieGala.GameString | src/plugin.py:85 | there is no name exactly when the game line holds no `>` (Python's `IndexError`), and a name holds no `>` |
| IndieGala.GameStringBetweenTags | src/plugin.py:84-85 | the name is the text right after the first `>` of the game line, up to the next `>` or the end of the game line |
| IndieGala.CollectedGames | src/plugin.py:60 | the list comprehension over the parser succeeds exactly when every kept segment has a `>` before its `</a>`; then it holds one game per kept segment, game `j` built from segment `j`'s name; otherwise it fails with `IndexError` |
| IndieGala.ParseSegments | src/plugin.py:81-94 | the generator loop over the segments; `ParseSegmentsOutcome` and `ParseSegmentsGames` state what it yields and where it raises |
| IndieGala.ParseHtmlIntoGames | src/plugin.py:79-94 | `parse_html_into_games`; `ParseHtmlIntoGamesSpec` and `CollectedGames` state its result on every page |
| IndieGala.ParseSegmentsOutcome | src/plugin.py:81-85 | the generator completes exactly when every kept segment names a game, and then yields one game per kept segment; otherwise it stops at the first kept segment without a name |
| IndieGala.ParseSegmentsGames | src/plugin.py:81-94 | the `j`-th game yielded comes from the `j`-th kept segment: id is its raw name, title is `unescape` of it |
| IndieGala.ParseHtmlIntoGamesSpec | src/plugin.py:79-94 | on every page: complete iff every kept segment has a `>` before its `</a>`; one game per kept segment; every game has an id without `>`, the unescaped id as title, a single-purchase licence and no DLCs |
| IndieGala.EmptyAnchorRaises | src/plugin.py:84-85 | the page `<a</a>` raises `IndexError` before yielding anything |
| IndieGala.SingleAnchorName | src/plugin.py:84-85 | the entry `<a>X</a>` names the game `X` |
| IndieGala.SingleAnchorParses | src/plugin.py:79-94 | the page `<a>X</a>` yields exactly one game, with id `X` and title `unescape("X")` |
| IndieGala.AuthSession | src/plugin.py:48-53 | the session the cookie loop selects; `AuthSessionFirstWins` and `AuthSessionNone` characterise it, and `PassLoginCredentials` proves the loop computes it |
| IndieGala.AuthSessionFirstWins | src/plugin.py:48-53 | the session is `{'auth': v}` for the first cookie named `auth`; later ones are ignored |
| IndieGala.AuthSessionNone | src/plugin.py:48-53 | the session is `None` exactly when no cookie is named `auth`, and otherwise it is truthy |
| IndieGala.IndieGalaPlugin.constructor | src/plugin.py:28-37 | a new plugin has no session, has stored nothing and has sent nothing |
| IndieGala.IndieGalaPlugin.Authenticate | src/plugin.py:40-44 | with falsy stored credentials it returns the web-login `NextStep` and changes nothing; otherwise the session is exactly those credentials and the user's info is fetched with them |
| IndieGala.IndieGalaPlugin.PassLoginCredentials | src/plugin.py:46-56 | the first `auth` cookie's session, or `None`, is both stored and installed; then `get_user_info` runs on it |
| IndieGala.IndieGalaPlugin.GetOwnedGames | src/plugin.py:58-61 | without a session it fails with `AuthenticationRequired` and sends nothing; otherwise it is the collected parse of the fetched showcase HTML |
| IndieGala.IndieGalaPlugin.GetUserInfo | src/plugin.py:63-69 | a falsy session raises `AuthenticationRequired` before any request; otherwise one request with the session cookies, no redirects, and the decoded user |
| IndieGala.IndieGalaPlugin.RetrieveShowcaseHtml | src/plugin.py:71-77 | a falsy session raises `AuthenticationRequired` before any request; otherwise one showcase request with the session cookies, no redirects, and the page's HTML |
| IndieGalaLegacy.ParseSegments | plugin.py:82-93 | this revision's generator loop; `ParseSegmentsIsUnescaped` and `ParseSegmentsGames` state what it yields |
| IndieGalaLegacy.ParseHtmlIntoGames | plugin.py:80-93 | this revision's `parse_html_into_games`; `ParseHtmlIntoGamesSpec` and `CollectedGames` state its result on every page |
| IndieGalaLegacy.ParseSegmentsIsUnescaped | plugin.py:80-93 | the earlier parser equals the later one with the identity in place of `html.unescape` |
| IndieGalaLegacy.ParseHtmlIntoGamesSpec | plugin.py:80-93 | on every page: complete iff every kept segment has a `>` before its `</a>`; one game per kept segment; id and title are the same raw name without `>`; a single-purchase licence and no DLCs |
| IndieGalaLegacy.ParseSegmentsGames | plugin.py:85-90 | game `j` comes from kept segment `j`, which names it, and its id and title are both that raw name |
| IndieGalaLegacy.CollectedGames | plugin.py:60 | the list comprehension succeeds exactly when every kept segment has a `>` before its `</a>`; then it holds one game per kept segment, id and title both segment `j`'s raw name; otherwise it fails with `IndexError` |
| IndieGalaLegacy.IndieGalaPlugin.constructor | plugin.py:27-36 | a new plugin has no session, has stored nothing and has sent nothing |
| IndieGalaLegacy.IndieGalaPlugin.Authenticate | plugin.py:39-44 | with falsy stored credentials it returns this revision's web-login `NextStep` and changes nothing; otherwise it installs the credentials and fetches the user's info |
| IndieGalaLegacy.IndieGalaPlugin.PassLoginCredentials | plugin.py:46-56 | the first `auth` cookie's session, or `None`, is both stored and installed; then `get_user_info` runs on it |
| IndieGalaLegacy.IndieGalaPlugin.GetOwnedGames | plugin.py:58-61 | without a session it fails with `AuthenticationRequired`; otherwise it is the collected parse, with raw titles, of the fetched HTML |
| IndieGalaLegacy.IndieGalaPlugin.GetUserInfo | plugin.py:63-69 | a falsy session raises `AuthenticationRequired` before any request; otherwise one request and the decoded user |
| IndieGalaLegacy.IndieGalaPlugin.RetrieveShowcaseHtml | plugin.py:71-78 | a falsy session raises `AuthenticationRequired` before any request; otherwise one showcase request and the page's HTML |

## Left out

- HTTP and JSON: the requests, `response.text()`, `json.loads` and the `profile`,
  `email` and `html` lookups are the `Site` parameter. It gives the decoded answer for
  the cookies sent. Transport failures, non-JSON bodies and missing keys are not
  modelled.
- `html.unescape` is a parameter `unescape`. Its entity table is library code.
- Async and coroutines: each call runs to completion. `plugin.py` returns
  `self.get_user_info()` without `await` in `authenticate` and
  `pass_login_credentials`. The model treats those calls as awaited, so it does not
  capture that the host receives a coroutine there.
- Generator laziness: the parser's result is what consuming the whole generator gives,
  namely every game, or the games before the `IndexError`.
- The host's `store_credentials` is a log of the values handed to it. Its persistence
  is host code.
- The `step` and `credentials` parameters of `pass_login_credentials` are not used by
  the code and are not modelled.
- Credentials are `None` or a string-to-string dictionary. Other falsy Python values
  and non-dictionary credentials are not modelled. Cookies are name/value records, so
  a cookie without a `name` key (a `KeyError` in Python) is not modelled.
- The `end_uri_regex` of the login directive is carried as a string. Matching it
  against URLs is the host's job, so it is not modelled, and neither is
  `tests/test_plugin.py`, which exercises that matching.
- Reading `manifest.json` for the version, logging, the `Platform` tag, `main` and
  `create_and_run_plugin` are start-up and I/O, not logic.
