/** The host's plugin API as the plugin sees it: the records it builds and returns,
    the errors it raises, and the HTTP exchange with the storefront reduced to what
    the plugin sends and what it gets back. */
module Galaxy {
  datatype Option<+T> = None | Some(value: T)

  /** A cookie jar as a dictionary from cookie name to cookie value. */
  type Credentials = map<string, string>

  /** Python truthiness of the plugin's session value: `None` and `{}` are false. */
  predicate Truthy(c: Option<Credentials>)
  {
    c.Some? && c.value != map[]
  }

  datatype LicenseType = Unknown | SinglePurchase | FreeToPlay | OtherUserLicense
  datatype LicenseInfo = LicenseInfo(licenseType: LicenseType)
  datatype Dlc = Dlc(dlcId: string, dlcTitle: string, licenseInfo: LicenseInfo)
  datatype Game = Game(gameId: string, gameTitle: string, dlcs: seq<Dlc>, licenseInfo: LicenseInfo)

  /** The parameters of the host's embedded login window. */
  datatype AuthParams = AuthParams(
    windowTitle: string,
    windowWidth: int,
    windowHeight: int,
    startUri: string,
    endUriRegex: string)

  datatype NextStep = NextStep(nextStep: string, authParams: AuthParams)
  datatype Authentication = Authentication(userId: string, userName: string)

  /** One entry of the cookie list the host hands over after the web login. */
  datatype Cookie = Cookie(name: string, value: string)

  /** The host's `AuthenticationRequired`, and Python's `IndexError`. */
  datatype PluginError = AuthenticationRequired | IndexError

  datatype Result<+T> = Success(value: T) | Failure(error: PluginError)

  /** What `authenticate` answers: a login directive, or the logged-in user. */
  datatype AuthStep = Login(step: NextStep) | Authenticated(user: Authentication)

  /** An HTTP request the plugin issues. */
  datatype Request = Request(verb: string, url: string, cookies: Credentials, allowRedirects: bool)

  /** The storefront as the plugin observes it: for the cookies sent, the decoded
      `profile`/`email` of the user-info endpoint and the `html` of the showcase endpoint. */
  datatype Site = Site(userInfo: Credentials -> Authentication, showcaseHtml: Credentials -> string)
}
