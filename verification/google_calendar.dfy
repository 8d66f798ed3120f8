/** The Google Calendar adapter (`backend/app/services/google_calendar.py`): the OAuth
    client configuration and its redirect address, the life cycle of the stored
    credential, the query windows, and the conversion of provider events.

    The Google libraries are not modelled: what they would return is passed in as
    an outcome (the parsed token file, the refresh, the token exchange, the file
    write, the ISO-8601 parser). Instants are integer microseconds since the Unix
    epoch, within the range Python's `datetime` can represent.
 */
module GoogleCalendar {
  import opened Base
  import Text
  import Config

  // ---------------------------------------------------------------------------
  // OAuth client configuration

  const Scopes: seq<string> := ["https://www.googleapis.com/auth/calendar.readonly"]
  const AuthUri: string := "https://accounts.google.com/o/oauth2/auth"
  const TokenUri: string := "https://oauth2.googleapis.com/token"
  const CallbackPath: string := "/api/calendar/callback"

  /** The bind-everything address, which a browser cannot be redirected to. */
  const Wildcard: string := "0.0.0.0"

  /** The host a browser is sent back to: the backend's host, with the wildcard
      address replaced by `localhost`. */
  function RedirectHost(host: string): (r: string)
    ensures r != Wildcard
    ensures host != Wildcard ==> r == host
  {
    if host == Wildcard then "localhost" else host
  }

  /** `http://{host}:{port}/api/calendar/callback`. */
  function Address(host: string, port: int): string {
    "http://" + host + ":" + Text.IntToString(port) + CallbackPath
  }

  /** The callback address registered with Google. */
  function RedirectUri(s: Config.Settings): (r: string)
    ensures var h := RedirectHost(s.backendHost);
            && |r| > 8 + |h| + |CallbackPath|
            && r[..7] == "http://"
            && r[7..7 + |h|] == h && h != Wildcard
            && r[7 + |h|] == ':'
            && Text.ParseInt(r[8 + |h|..|r| - |CallbackPath|]) == Some(s.backendPort)
            && r[|r| - |CallbackPath|..] == CallbackPath
  {
    var h := RedirectHost(s.backendHost);
    var n := Text.IntToString(s.backendPort);
    var r := Address(h, s.backendPort);
    assert r == "http://" + h + ":" + n + CallbackPath;
    assert r[8 + |h|..|r| - |CallbackPath|] == n;
    r
  }

  /** Binding to every interface is redirected exactly like binding to `localhost`, and
      any other host appears in the address as it is. */
  lemma {:induction false} WildcardIsLocalhost(s: Config.Settings)
    ensures RedirectUri(s.(backendHost := Wildcard)) == RedirectUri(s.(backendHost := "localhost"))
    ensures s.backendHost != Wildcard ==> RedirectUri(s) == Address(s.backendHost, s.backendPort)
  {
  }

  lemma {:induction false} CancelAround(pre: string, x: string, y: string, suf: string)
    requires pre + x + suf == pre + y + suf
    ensures x == y
  {
    assert |x| == |y|;
    assert x == (pre + x + suf)[|pre|..|pre| + |x|];
    assert y == (pre + y + suf)[|pre|..|pre| + |y|];
  }

  /** For a fixed host the address tells the port apart: two ports never share a
      redirect address. */
  lemma {:induction false} RedirectUriDeterminesPort(s: Config.Settings, t: Config.Settings)
    requires s.backendHost == t.backendHost
    ensures RedirectUri(s) == RedirectUri(t) <==> s.backendPort == t.backendPort
  {
    if RedirectUri(s) == RedirectUri(t) {
      var pre := "http://" + RedirectHost(s.backendHost) + ":";
      var a := Text.IntToString(s.backendPort);
      var b := Text.IntToString(t.backendPort);
      CancelAround(pre, a, b, CallbackPath);
      assert Text.ParseInt(a) == Some(s.backendPort) && Text.ParseInt(b) == Some(t.backendPort);
    }
  }

  /** The `web` client configuration handed to the OAuth flow. */
  datatype ClientConfig = ClientConfig(
    clientId: string, clientSecret: string, authUri: string, tokenUri: string, redirectUris: seq<string>)

  function ClientConfigOf(s: Config.Settings): (r: ClientConfig)
    ensures r.clientId == s.googleClientId && r.clientSecret == s.googleClientSecret
    ensures r.redirectUris == [RedirectUri(s)]
  {
    ClientConfig(s.googleClientId, s.googleClientSecret, AuthUri, TokenUri, [RedirectUri(s)])
  }

  /** What the consent URL is built from. */
  datatype AuthRequest = AuthRequest(
    client: ClientConfig, scopes: seq<string>, redirectUri: string,
    accessType: string, includeGrantedScopes: string, prompt: string)

  /** `get_auth_url`: offline access, incremental scopes, consent forced every time. */
  function AuthUrlRequest(s: Config.Settings): (r: AuthRequest)
    ensures r.redirectUri in r.client.redirectUris
    ensures r.accessType == "offline" && r.prompt == "consent"
  {
    var c := ClientConfigOf(s);
    AuthRequest(c, Scopes, c.redirectUris[0], "offline", "true", "consent")
  }

  /** What the code exchange in `handle_callback` sends. */
  datatype TokenRequest = TokenRequest(client: ClientConfig, scopes: seq<string>, redirectUri: string, code: string)

  function TokenExchange(s: Config.Settings, code: string): (r: TokenRequest)
    ensures r.redirectUri in r.client.redirectUris && r.code == code
  {
    var c := ClientConfigOf(s);
    TokenRequest(c, Scopes, c.redirectUris[0], code)
  }

  /** The consent request and the code exchange use one and the same redirect address,
      which the provider requires for the exchange to succeed. */
  lemma {:induction false} SameRedirect(s: Config.Settings, code: string)
    ensures AuthUrlRequest(s).redirectUri == TokenExchange(s, code).redirectUri == RedirectUri(s)
    ensures AuthUrlRequest(s).client == TokenExchange(s, code).client
  {
  }

  // ---------------------------------------------------------------------------
  // Credentials

  /** The parts of a stored OAuth credential the adapter looks at: whether it holds an
      access token, whether it has expired (at the moment it is examined), and its
      refresh token. */
  datatype Credential = Credential(hasToken: bool, expired: bool, refreshToken: Option<string>)

  /** `credentials.valid`. */
  predicate Usable(c: Credential) {
    c.hasToken && !c.expired
  }

  /** `credentials.expired and credentials.refresh_token`: an empty token is falsy too. */
  predicate NeedsRefresh(c: Credential) {
    c.expired && c.refreshToken.Some? && c.refreshToken.value != ""
  }

  /** The token file: absent, or present with the outcome of reading and parsing it. */
  datatype TokenFile = Absent | Present(parsed: Result<Credential>)

  /** The outcome of writing the token file. */
  datatype Write = Written | WriteFailed(message: string)

  /** The in-memory credential after loading, whether a refresh was asked for, and the
      credential written back to the token file, if one was. */
  datatype Loaded = Loaded(credentials: Option<Credential>, refreshed: bool, saved: Option<Credential>)

  /** `_load_credentials`: an expired credential with a refresh token is refreshed once
      and written back; an exception anywhere leaves no credential. */
  function Load(file: TokenFile, refresh: Result<Credential>, write: Write): (r: Loaded)
    ensures file.Absent? ==> r == Loaded(None, false, None)
    ensures r.refreshed <==> file.Present? && file.parsed.Ok? && NeedsRefresh(file.parsed.value)
    ensures r.saved.Some? <==> r.refreshed && refresh.Ok? && write.Written?
    ensures r.credentials.Some? ==> file.Present? && file.parsed.Ok?
    ensures r.credentials.Some? && r.refreshed ==> r.credentials == r.saved == Some(refresh.value)
    ensures r.credentials.Some? && !r.refreshed ==> r.credentials == Some(file.parsed.value)
  {
    match file
    case Absent => Loaded(None, false, None)
    case Present(Err(_)) => Loaded(None, false, None)
    case Present(Ok(c)) =>
      if !NeedsRefresh(c) then Loaded(Some(c), false, None)
      else match refresh
        case Err(_) => Loaded(None, true, None)
        case Ok(renewed) => if write.Written? then Loaded(Some(renewed), true, Some(renewed)) else Loaded(None, true, None)
  }

  /** `is_authenticated`. */
  predicate IsAuthenticated(credentials: Option<Credential>) {
    credentials.Some? && Usable(credentials.value)
  }

  /** A failure while reading, refreshing or writing back leaves the adapter
      unauthenticated, whatever the other outcomes. */
  lemma {:induction false} LoadFailureClears(file: TokenFile, refresh: Result<Credential>, write: Write)
    requires file.Present?
    requires file.parsed.Err? || (NeedsRefresh(file.parsed.value) && (refresh.Err? || write.WriteFailed?))
    ensures Load(file, refresh, write).credentials.None?
    ensures !IsAuthenticated(Load(file, refresh, write).credentials)
  {
  }

  /** An expired credential without a refresh token is kept, but it does not
      authenticate, and nothing is refreshed or written. */
  lemma {:induction false} ExpiredWithoutRefreshToken(c: Credential, refresh: Result<Credential>, write: Write)
    requires c.expired && (c.refreshToken.None? || c.refreshToken.value == "")
    ensures Load(Present(Ok(c)), refresh, write) == Loaded(Some(c), false, None)
    ensures !IsAuthenticated(Load(Present(Ok(c)), refresh, write).credentials)
  {
  }

  /** After loading, the adapter is authenticated exactly when the stored credential
      was usable as read, or needed a refresh that succeeded, was written back and gave
      a usable credential. */
  lemma {:induction false} LoadAuthenticatedIff(file: TokenFile, refresh: Result<Credential>, write: Write)
    ensures IsAuthenticated(Load(file, refresh, write).credentials) <==>
      && file.Present? && file.parsed.Ok?
      && if NeedsRefresh(file.parsed.value)
         then refresh.Ok? && write.Written? && Usable(refresh.value)
         else Usable(file.parsed.value)
  {
  }

  /** What `handle_callback` leaves behind, and the exception it raised, if any. */
  datatype Callback = Callback(credentials: Option<Credential>, saved: Option<Credential>, error: Option<string>)

  /** `handle_callback`: exchange the code; on success keep the new credential in memory
      first, then write it to the token file. */
  function HandleCallback(current: Option<Credential>, exchange: Result<Credential>, write: Write): (r: Callback)
    ensures exchange.Err? ==> r == Callback(current, None, Some(exchange.message))
    ensures exchange.Ok? ==> r.credentials == Some(exchange.value)
    ensures r.error.None? <==> exchange.Ok? && write.Written?
    ensures r.saved.Some? <==> r.error.None?
    ensures r.saved.Some? ==> r.saved == r.credentials
  {
    match exchange
    case Err(message) => Callback(current, None, Some(message))
    case Ok(c) =>
      match write
      case Written => Callback(Some(c), Some(c), None)
      case WriteFailed(message) => Callback(Some(c), None, Some(message))
  }

  /** A credential written by a successful callback is read back by the next load as
      the same credential, so a usable one that needs no refresh keeps the adapter
      authenticated across a restart. */
  lemma {:induction false} CallbackThenLoad(current: Option<Credential>, c: Credential, write: Write, refresh: Result<Credential>, write2: Write)
    requires HandleCallback(current, Ok(c), write).error.None?
    requires Usable(c)
    ensures var saved := HandleCallback(current, Ok(c), write).saved.value;
            IsAuthenticated(Load(Present(Ok(saved)), refresh, write2).credentials)
  {
  }

  // ---------------------------------------------------------------------------
  // Query windows

  /** One day, in microseconds. */
  const DayMicros: int := 86_400_000_000

  /** `datetime.min` and `datetime.max` (years 1 and 9999), in microseconds. */
  const MinInstant: int := -62_135_596_800_000_000
  const MaxInstant: int := 253_402_300_799_999_999

  /** The largest number of days a `timedelta` can hold. */
  const MaxDeltaDays: int := 999_999_999

  predicate InRange(t: int) {
    MinInstant <= t <= MaxInstant
  }

  /** The `timeMin`/`timeMax` pair of an events query. */
  datatype Window = Window(lo: int, hi: int)

  const DateOutOfRange: string := "date value out of range"

  /** The range of a C `int`, which `timedelta` converts its day count to before it
      checks the magnitude. */
  const MinCInt: int := -0x8000_0000
  const MaxCInt: int := 0x7FFF_FFFF

  const CIntOverflow: string := "Python int too large to convert to C int"

  /** The message of the `OverflowError` for a day count beyond `MaxDeltaDays`. */
  function DaysOutOfRange(days: int): string {
    "days=" + Text.IntToString(days) + "; must have magnitude <= " + Text.IntToString(MaxDeltaDays)
  }

  /** `now + timedelta(days=days)`, with the three `OverflowError`s it can raise: a day
      count that is not a C `int`, one beyond the `timedelta` range, and a sum past the
      `datetime` range. */
  function AddDays(now: int, days: int): (r: Result<int>)
    requires InRange(now)
    ensures r.Ok? <==> -MaxDeltaDays <= days <= MaxDeltaDays && InRange(now + days * DayMicros)
    ensures r.Ok? ==> r.value - now == days * DayMicros
    ensures !(MinCInt <= days <= MaxCInt) ==> r == Err(CIntOverflow)
    ensures MinCInt <= days <= MaxCInt && !(-MaxDeltaDays <= days <= MaxDeltaDays) ==> r == Err(DaysOutOfRange(days))
    ensures -MaxDeltaDays <= days <= MaxDeltaDays && r.Err? ==> r == Err(DateOutOfRange)
  {
    if days < MinCInt || days > MaxCInt then Err(CIntOverflow)
    else if days < -MaxDeltaDays || days > MaxDeltaDays then Err(DaysOutOfRange(days))
    else if !InRange(now + days * DayMicros) then Err(DateOutOfRange)
    else Ok(now + days * DayMicros)
  }

  /** `get_upcoming_events`: from now to `days` days later. */
  function UpcomingWindow(now: int, days: int): (r: Result<Window>)
    requires InRange(now)
    ensures r.Ok? <==> AddDays(now, days).Ok?
    ensures r.Ok? ==> r.value.lo == now && r.value.hi - r.value.lo == days * DayMicros
  {
    match AddDays(now, days)
    case Err(m) => Err(m)
    case Ok(hi) => Ok(Window(now, hi))
  }

  /** A week ahead never overflows unless now is within a week of the end of year 9999. */
  lemma {:induction false} DefaultWindowFits(now: int)
    requires InRange(now) && now + 7 * DayMicros <= MaxInstant
    ensures UpcomingWindow(now, 7) == Ok(Window(now, now + 7 * DayMicros))
  {
  }

  /** `now.replace(hour=0, minute=0, second=0, microsecond=0)`. */
  function Midnight(now: int): int {
    now - now % DayMicros
  }

  /** `get_today_events`: midnight (UTC) of now, and exactly one day later; the end
      overflows on the last day of year 9999. */
  function TodayWindow(now: int): (r: Result<Window>)
    requires InRange(now)
    ensures r.Ok? <==> Midnight(now) + DayMicros <= MaxInstant
    ensures r.Ok? ==> r.value.lo <= now < r.value.hi && r.value.hi - r.value.lo == DayMicros
    ensures r.Ok? ==> r.value.lo % DayMicros == 0
  {
    var start := Midnight(now);
    if start + DayMicros > MaxInstant then Err(DateOutOfRange) else Ok(Window(start, start + DayMicros))
  }

  /** The day window is the only midnight-aligned one-day window that contains now. */
  lemma {:induction false} TodayWindowUnique(now: int, m: int)
    requires InRange(now) && TodayWindow(now).Ok?
    requires m % DayMicros == 0 && m <= now < m + DayMicros
    ensures TodayWindow(now).value == Window(m, m + DayMicros)
  {
    var k := m / DayMicros;
    assert m == k * DayMicros;
    var j := now / DayMicros;
    assert now == j * DayMicros + now % DayMicros;
    assert Midnight(now) == j * DayMicros;
    assert j < k ==> (j + 1) * DayMicros <= k * DayMicros;
    assert j > k ==> (k + 1) * DayMicros <= j * DayMicros;
  }

  // ---------------------------------------------------------------------------
  // Events

  /** The `start`/`end` object of a provider event: an all-day event has `date`, a
      timed one `dateTime`. A missing object reads as one with neither key. */
  datatype When = When(date: Option<string>, dateTime: Option<string>)

  const NoWhen: When := When(None, None)

  /** An item of the provider's `items` list, with the keys the adapter reads. */
  datatype RawEvent = RawEvent(
    id: Option<string>, summary: Option<string>, start: Option<When>, end: Option<When>,
    location: Option<string>, description: Option<string>)

  /** `CalendarEvent`. */
  datatype Event = Event(
    id: string, title: string, start: int, end: int, allDay: bool,
    location: Option<string>, description: Option<string>)

  /** The message of the `KeyError` a missing key raises: the key in quotes. */
  function KeyError(key: string): string {
    "'" + key + "'"
  }

  const DefaultTitle: string := "No Title"

  /** The ISO-8601 parser (`datetime.fromisoformat`), as an instant or an error message. */
  type IsoParser = string -> Result<int>

  /** `value.replace("Z", "+00:00")`: the UTC designator spelled as an offset. */
  function ZuluAsOffset(value: string): (r: string)
    ensures 'Z' !in r
    ensures 'Z' !in value ==> r == value
  {
    Text.Replace(value, 'Z', "+00:00")
  }

  /** Read one key of `start` or `end` and parse it. */
  function ReadInstant(w: When, allDay: bool, fromIso: IsoParser): (r: Result<int>)
    ensures allDay && w.date.None? ==> r == Err(KeyError("date"))
    ensures allDay && w.date.Some? ==> r == fromIso(w.date.value)
    ensures !allDay && w.dateTime.None? ==> r == Err(KeyError("dateTime"))
    ensures !allDay && w.dateTime.Some? ==> r == fromIso(ZuluAsOffset(w.dateTime.value))
  {
    if allDay then
      (if w.date.None? then Err(KeyError("date")) else fromIso(w.date.value))
    else
      (if w.dateTime.None? then Err(KeyError("dateTime")) else fromIso(ZuluAsOffset(w.dateTime.value)))
  }

  /** `_parse_event`: all-day exactly when `start` has a `date`; the start is read before
      the end, and the first failure is the one raised. */
  function ParseEvent(raw: RawEvent, fromIso: IsoParser): (r: Result<Event>)
    ensures var allDay := raw.start.Some? && raw.start.value.date.Some?;
            var first := ReadInstant(raw.start.GetOr(NoWhen), allDay, fromIso);
            var second := ReadInstant(raw.end.GetOr(NoWhen), allDay, fromIso);
            && (r.Ok? <==> first.Ok? && second.Ok?)
            && (first.Err? ==> r == Err(first.message))
            && (first.Ok? && second.Err? ==> r == Err(second.message))
            && (r.Ok? ==>
                  && (r.value.allDay <==> allDay)
                  && r.value.start == first.value && r.value.end == second.value
                  && r.value.id == (if raw.id.Some? then raw.id.value else "")
                  && r.value.title == (if raw.summary.Some? then raw.summary.value else DefaultTitle)
                  && r.value.location == raw.location && r.value.description == raw.description)
  {
    var start := raw.start.GetOr(NoWhen);
    var end := raw.end.GetOr(NoWhen);
    var allDay := start.date.Some?;
    match ReadInstant(start, allDay, fromIso)
    case Err(m) => Err(m)
    case Ok(s) =>
      match ReadInstant(end, allDay, fromIso)
      case Err(m) => Err(m)
      case Ok(e) => Ok(Event(raw.id.GetOr(""), raw.summary.GetOr(DefaultTitle), s, e, allDay, raw.location, raw.description))
  }

  /** The optional fields: a missing id becomes "", a missing summary "No Title", and a
      missing location or description stays missing rather than becoming "". */
  lemma {:induction false} ParsedDefaults(raw: RawEvent, fromIso: IsoParser)
    requires ParseEvent(raw, fromIso).Ok?
    ensures var e := ParseEvent(raw, fromIso).value;
            && (raw.id.None? ==> e.id == "")
            && (raw.summary.None? ==> e.title == DefaultTitle)
            && (raw.summary.Some? ==> e.title == raw.summary.value)
            && (raw.location.None? <==> e.location.None?)
            && (raw.description.None? <==> e.description.None?)
  {
  }

  /** An all-day event is one whose start has a `date`; a timed event's instants are
      parsed from its `dateTime` values with every "Z" rewritten, so the parser never
      sees a "Z". */
  lemma {:induction false} AllDayIffDate(raw: RawEvent, fromIso: IsoParser)
    requires ParseEvent(raw, fromIso).Ok?
    ensures var e := ParseEvent(raw, fromIso).value;
            && (e.allDay <==> raw.start.Some? && raw.start.value.date.Some?)
            && (e.allDay ==> raw.end.Some? && raw.end.value.date.Some?)
            && (!e.allDay ==>
                  && raw.start.Some? && raw.start.value.dateTime.Some?
                  && raw.end.Some? && raw.end.value.dateTime.Some?
                  && 'Z' !in ZuluAsOffset(raw.start.value.dateTime.value)
                  && fromIso(ZuluAsOffset(raw.start.value.dateTime.value)) == Ok(e.start)
                  && fromIso(ZuluAsOffset(raw.end.value.dateTime.value)) == Ok(e.end))
  {
  }

  /** An all-day end given only as `dateTime` is a `KeyError` on "date": the end is read
      with the start's kind. */
  lemma {:induction false} MixedKindsFail(raw: RawEvent, fromIso: IsoParser)
    requires raw.start.Some? && raw.start.value.date.Some? && fromIso(raw.start.value.date.value).Ok?
    requires raw.end.Some? && raw.end.value.date.None?
    ensures ParseEvent(raw, fromIso) == Err(KeyError("date"))
  {
  }

  /** Rewriting "Z" distributes over concatenation, so a "Z" suffix on a timestamp
      becomes a "+00:00" suffix. */
  lemma {:induction false} ZuluSuffix(stamp: string)
    requires 'Z' !in stamp
    ensures ZuluAsOffset(stamp + "Z") == stamp + "+00:00"
  {
    Text.ReplaceAppend(stamp, "Z", 'Z', "+00:00");
  }

  /** `[self._parse_event(event) for event in events]`: every event converted in order,
      or the first failure. */
  function ParseAll(items: seq<RawEvent>, fromIso: IsoParser): (r: Result<seq<Event>>)
    ensures r.Ok? ==> |r.value| == |items|
    ensures r.Ok? ==> forall k :: 0 <= k < |items| ==> ParseEvent(items[k], fromIso) == Ok(r.value[k])
    ensures r.Err? ==> exists k :: 0 <= k < |items| && ParseEvent(items[k], fromIso) == Err(r.message)
                                   && forall j :: 0 <= j < k ==> ParseEvent(items[j], fromIso).Ok?
  {
    if |items| == 0 then Ok([])
    else
      match ParseEvent(items[0], fromIso)
      case Err(m) => Err(m)
      case Ok(e) =>
        match ParseAll(items[1..], fromIso)
        case Err(m) =>
          var k :| 0 <= k < |items[1..]| && ParseEvent(items[1..][k], fromIso) == Err(m)
                   && forall j :: 0 <= j < k ==> ParseEvent(items[1..][j], fromIso).Ok?;
          assert ParseEvent(items[k + 1], fromIso) == Err(m);
          assert forall j :: 1 <= j < k + 1 ==> items[j] == items[1..][j - 1];
          Err(m)
        case Ok(es) =>
          assert forall k :: 1 <= k < |items| ==> items[k] == items[1..][k - 1];
          Ok([e] + es)
  }

  /** When every event converts, `ParseAll` succeeds. */
  lemma {:induction false} ParseAllSucceeds(items: seq<RawEvent>, fromIso: IsoParser)
    requires forall k :: 0 <= k < |items| ==> ParseEvent(items[k], fromIso).Ok?
    ensures ParseAll(items, fromIso).Ok?
    decreases |items|
  {
    if |items| > 0 {
      assert forall k :: 0 <= k < |items[1..]| ==> items[1..][k] == items[k + 1];
      ParseAllSucceeds(items[1..], fromIso);
    }
  }

  // ---------------------------------------------------------------------------
  // Fetching

  /** An events query as sent to the provider. */
  datatype Query = Query(calendarId: string, window: Window)

  /** The provider: the `items` of the response to a query, or the exception raised. */
  type Provider = Query -> Result<seq<RawEvent>>

  const NotAuthenticated: string := "Not authenticated with Google Calendar"

  /** The events of one window: not authenticated, an overflowing window, a provider
      failure or an event that does not convert all end in an error. */
  function FetchWindow(credentials: Option<Credential>, calendarId: string, window: Result<Window>,
                       fetch: Provider, fromIso: IsoParser): (r: Result<seq<Event>>)
    ensures !IsAuthenticated(credentials) ==> r == Err(NotAuthenticated)
    ensures IsAuthenticated(credentials) && window.Err? ==> r == Err(window.message)
    ensures IsAuthenticated(credentials) && window.Ok? ==>
      match fetch(Query(calendarId, window.value))
      case Err(m) => r == Err(m)
      case Ok(items) => r == ParseAll(items, fromIso)
  {
    if !IsAuthenticated(credentials) then Err(NotAuthenticated)
    else match window
      case Err(m) => Err(m)
      case Ok(w) =>
        match fetch(Query(calendarId, w))
        case Err(m) => Err(m)
        case Ok(items) => ParseAll(items, fromIso)
  }

  /** `get_upcoming_events(days)`. */
  function UpcomingEvents(credentials: Option<Credential>, calendarId: string, now: int, days: int,
                          fetch: Provider, fromIso: IsoParser): (r: Result<seq<Event>>)
    requires InRange(now)
    ensures r.Ok? ==> IsAuthenticated(credentials) && UpcomingWindow(now, days).Ok?
    ensures r.Ok? ==> exists items :: fetch(Query(calendarId, Window(now, now + days * DayMicros))) == Ok(items)
                                      && ParseAll(items, fromIso) == r
    ensures !IsAuthenticated(credentials) ==> r == Err(NotAuthenticated)
    ensures IsAuthenticated(credentials) && UpcomingWindow(now, days).Err? ==> r == Err(UpcomingWindow(now, days).message)
    ensures IsAuthenticated(credentials) && UpcomingWindow(now, days).Ok? ==>
      match fetch(Query(calendarId, Window(now, now + days * DayMicros)))
      case Err(m) => r == Err(m)
      case Ok(items) => r == ParseAll(items, fromIso)
  {
    FetchWindow(credentials, calendarId, UpcomingWindow(now, days), fetch, fromIso)
  }

  /** `get_today_events()`. */
  function TodayEvents(credentials: Option<Credential>, calendarId: string, now: int,
                       fetch: Provider, fromIso: IsoParser): (r: Result<seq<Event>>)
    requires InRange(now)
    ensures r.Ok? ==> IsAuthenticated(credentials) && TodayWindow(now).Ok?
    ensures r.Ok? ==> exists items :: fetch(Query(calendarId, TodayWindow(now).value)) == Ok(items)
                                      && ParseAll(items, fromIso) == r
    ensures !IsAuthenticated(credentials) ==> r == Err(NotAuthenticated)
    ensures IsAuthenticated(credentials) && TodayWindow(now).Err? ==> r == Err(TodayWindow(now).message)
    ensures IsAuthenticated(credentials) && TodayWindow(now).Ok? ==>
      match fetch(Query(calendarId, TodayWindow(now).value))
      case Err(m) => r == Err(m)
      case Ok(items) => r == ParseAll(items, fromIso)
  {
    FetchWindow(credentials, calendarId, TodayWindow(now), fetch, fromIso)
  }
}
