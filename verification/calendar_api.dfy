/** The calendar endpoints under `/api/calendar` (`backend/app/routers/calendar.py`):
    how the adapter's state and outcomes become HTTP responses.
 */
module CalendarApi {
  import opened Base
  import Text
  import Config
  import opened GoogleCalendar

  datatype Response =
    | Redirect(location: string)
    /** A redirect to Google's consent page, built from this request. */
    | Consent(request: AuthRequest)
    | Failure(status: int, detail: string)
    | EventList(events: seq<Event>, connected: bool)
    | Status(connected: bool, calendarId: Option<string>)

  const NotConfigured: string :=
    "Google Calendar credentials not configured. Set GOOGLE_CLIENT_ID and GOOGLE_CLIENT_SECRET in .env"
  const OAuthFailed: string := "Failed to complete OAuth: "
  const FetchFailed: string := "Failed to fetch events: "
  const ConnectedQuery: string := "?calendar_connected=true"

  /** `GET /auth`: 500 unless both the client id and the client secret are set; otherwise
      a redirect to the consent page. */
  function Auth(s: Config.Settings): (r: Response)
    ensures r.Failure? <==> s.googleClientId == "" || s.googleClientSecret == ""
    ensures r.Failure? ==> r == Failure(500, NotConfigured)
    ensures r.Consent? ==> r.request.redirectUri == RedirectUri(s) && r.request.client == ClientConfigOf(s)
    ensures r.Failure? || r.Consent?
  {
    if s.googleClientId == "" || s.googleClientSecret == "" then Failure(500, NotConfigured)
    else Consent(AuthUrlRequest(s))
  }

  /** A response together with the adapter's credential after it and what was written
      to the token file. */
  datatype Handled = Handled(response: Response, credentials: Option<Credential>, saved: Option<Credential>)

  /** `GET /callback?code=...`: back to the frontend on success, 400 with the exception
      text otherwise. */
  function Callback(s: Config.Settings, current: Option<Credential>, exchange: Result<Credential>, write: Write): (r: Handled)
    ensures var c := HandleCallback(current, exchange, write);
            && r.credentials == c.credentials && r.saved == c.saved
            && (c.error.None? <==> r.response == Redirect(s.frontendUrl + ConnectedQuery))
            && (c.error.Some? ==> r.response == Failure(400, OAuthFailed + c.error.value))
  {
    var c := HandleCallback(current, exchange, write);
    match c.error
    case None => Handled(Redirect(s.frontendUrl + ConnectedQuery), c.credentials, c.saved)
    case Some(m) => Handled(Failure(400, OAuthFailed + m), c.credentials, c.saved)
  }

  /** A failed exchange changes nothing; a failed write after a successful exchange is
      still a 400, although the adapter already holds the new credential. */
  lemma {:induction false} CallbackFailures(s: Config.Settings, current: Option<Credential>, exchange: Result<Credential>, write: Write)
    ensures exchange.Err? ==>
      Callback(s, current, exchange, write) == Handled(Failure(400, OAuthFailed + exchange.message), current, None)
    ensures exchange.Ok? && write.WriteFailed? ==>
      Callback(s, current, exchange, write) == Handled(Failure(400, OAuthFailed + write.message), Some(exchange.value), None)
  {
  }

  /** The outcome of a fetch as the events endpoints report it. */
  function Report(credentials: Option<Credential>, fetched: Result<seq<Event>>): (r: Response)
    ensures !IsAuthenticated(credentials) ==> r == EventList([], false)
    ensures IsAuthenticated(credentials) && fetched.Ok? ==> r == EventList(fetched.value, true)
    ensures IsAuthenticated(credentials) && fetched.Err? ==> r == Failure(500, FetchFailed + fetched.message)
  {
    if !IsAuthenticated(credentials) then EventList([], false)
    else match fetched
      case Ok(events) => EventList(events, true)
      case Err(m) => Failure(500, FetchFailed + m)
  }

  /** `GET /events?days=n`: the next `n` days of the configured calendar. */
  function Events(s: Config.Settings, credentials: Option<Credential>, now: int, days: int,
                  fetch: Provider, fromIso: IsoParser): (r: Response)
    requires InRange(now)
    ensures !IsAuthenticated(credentials) ==> r == EventList([], false)
    ensures IsAuthenticated(credentials) ==> r.Failure? || (r.EventList? && r.connected)
    ensures r.Failure? ==> r.status == 500 && FetchFailed <= r.detail
    ensures r.EventList? && r.connected ==>
      exists items :: fetch(Query(s.googleCalendarId, Window(now, now + days * DayMicros))) == Ok(items)
                      && ParseAll(items, fromIso) == Ok(r.events)
  {
    if !IsAuthenticated(credentials) then EventList([], false)
    else Report(credentials, UpcomingEvents(credentials, s.googleCalendarId, now, days, fetch, fromIso))
  }

  /** `GET /today`: today's events of the configured calendar. */
  function Today(s: Config.Settings, credentials: Option<Credential>, now: int,
                 fetch: Provider, fromIso: IsoParser): (r: Response)
    requires InRange(now)
    ensures !IsAuthenticated(credentials) ==> r == EventList([], false)
    ensures IsAuthenticated(credentials) ==> r.Failure? || (r.EventList? && r.connected)
    ensures r.Failure? ==> r.status == 500 && FetchFailed <= r.detail
    ensures r.EventList? && r.connected ==>
      TodayWindow(now).Ok? &&
      exists items :: fetch(Query(s.googleCalendarId, TodayWindow(now).value)) == Ok(items)
                      && ParseAll(items, fromIso) == Ok(r.events)
  {
    if !IsAuthenticated(credentials) then EventList([], false)
    else Report(credentials, TodayEvents(credentials, s.googleCalendarId, now, fetch, fromIso))
  }

  /** Without a usable credential the provider is never asked: the response is the same
      whatever it would have answered. */
  lemma {:induction false} DisconnectedIgnoresProvider(s: Config.Settings, credentials: Option<Credential>, now: int, days: int,
                                    fetch: Provider, other: Provider, fromIso: IsoParser)
    requires InRange(now) && !IsAuthenticated(credentials)
    ensures Events(s, credentials, now, days, fetch, fromIso) == Events(s, credentials, now, days, other, fromIso)
    ensures Today(s, credentials, now, fetch, fromIso) == Today(s, credentials, now, other, fromIso)
  {
  }

  /** A provider that fails turns into a 500 naming its error; one that answers with
      events that all convert gives the converted events, connected. */
  lemma {:induction false} ProviderOutcome(s: Config.Settings, credentials: Option<Credential>, now: int, days: int,
                        fetch: Provider, fromIso: IsoParser)
    requires InRange(now) && IsAuthenticated(credentials) && UpcomingWindow(now, days).Ok?
    ensures var q := Query(s.googleCalendarId, Window(now, now + days * DayMicros));
            && (fetch(q).Err? ==> Events(s, credentials, now, days, fetch, fromIso) == Failure(500, FetchFailed + fetch(q).message))
            && (fetch(q).Ok? && (forall k :: 0 <= k < |fetch(q).value| ==> ParseEvent(fetch(q).value[k], fromIso).Ok?) ==>
                  Events(s, credentials, now, days, fetch, fromIso) == EventList(ParseAll(fetch(q).value, fromIso).value, true))
  {
    var q := Query(s.googleCalendarId, Window(now, now + days * DayMicros));
    if fetch(q).Ok? && (forall k :: 0 <= k < |fetch(q).value| ==> ParseEvent(fetch(q).value[k], fromIso).Ok?) {
      ParseAllSucceeds(fetch(q).value, fromIso);
    }
  }

  /** The same for `GET /today`: a provider failure is a 500 naming its error, and an
      answer whose events all convert is returned, connected. */
  lemma {:induction false} TodayProviderOutcome(s: Config.Settings, credentials: Option<Credential>, now: int,
                             fetch: Provider, fromIso: IsoParser)
    requires InRange(now) && IsAuthenticated(credentials) && TodayWindow(now).Ok?
    ensures var q := Query(s.googleCalendarId, TodayWindow(now).value);
            && (fetch(q).Err? ==> Today(s, credentials, now, fetch, fromIso) == Failure(500, FetchFailed + fetch(q).message))
            && (fetch(q).Ok? && (forall k :: 0 <= k < |fetch(q).value| ==> ParseEvent(fetch(q).value[k], fromIso).Ok?) ==>
                  Today(s, credentials, now, fetch, fromIso) == EventList(ParseAll(fetch(q).value, fromIso).value, true))
  {
    var q := Query(s.googleCalendarId, TodayWindow(now).value);
    if fetch(q).Ok? && (forall k :: 0 <= k < |fetch(q).value| ==> ParseEvent(fetch(q).value[k], fromIso).Ok?) {
      ParseAllSucceeds(fetch(q).value, fromIso);
    }
  }

  /** `GET /status`: the calendar id is reported exactly when connected. */
  function CalendarStatus(s: Config.Settings, credentials: Option<Credential>): (r: Response)
    ensures r.Status?
    ensures r.connected == IsAuthenticated(credentials)
    ensures r.calendarId.Some? <==> r.connected
    ensures r.calendarId.Some? ==> r.calendarId.value == s.googleCalendarId
  {
    var connected := IsAuthenticated(credentials);
    Status(connected, if connected then Some(s.googleCalendarId) else None)
  }

  /** With every setting at its default, `/auth` refuses, nobody may use the bot, and
      the callback address is the local one on port 8000. */
  lemma {:induction false} UnconfiguredDefaults(userId: int)
    ensures Auth(Config.Defaults) == Failure(500, NotConfigured)
    ensures Config.IsAuthorized(Config.Defaults.authorizedUsers, userId) == Some(false)
    ensures RedirectUri(Config.Defaults) == Address("localhost", 8000)
  {
    Config.EmptyAllowListAuthorizesNobody(userId);
  }
}
