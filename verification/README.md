# Household dashboard: a Dafny model of its core logic

The dashboard keeps a shared list of household todos and shows the family's Google
Calendar. People add and tick off todos from a web page or through a Telegram bot.
This project models that system's discrete logic as pure Dafny functions over
immutable data and proves what each part promises:

- **the todos table and its HTTP endpoints** (`TodoStore`, `TodosApi`). The table is a
  map from id to row, plus an allocation counter. Create, find, update, delete and the
  newest-first listing are modelled as the router and the bot's helpers perform them.
- **the allow-list of bot users** (`Config`). This covers the comma-separated
  `authorized_users` setting, its parse (strip, drop blanks, `int()` every entry,
  fail on the first bad one), membership, and the default settings.
- **the Telegram bot** (`TelegramBot`, `FreeText`). One update from one sender, against
  the table, gives at most one reply and the table after it. This covers every slash
  command and the free-text fallback. The fallback lower-cases and strips the text,
  then tries the four patterns `^<keyword>:?\s*(.+)$` in order, and the first match
  supplies the title. The patterns are modelled the way Python's regular-expression
  engine runs them.
- **the Google Calendar adapter** (`GoogleCalendar`). This covers the OAuth redirect
  address, the load/refresh/save life cycle of the stored credential, the
  `handle_callback` exchange, the two query windows, and the conversion of provider
  events.
- **the calendar endpoints** (`CalendarApi`): how the adapter's state and outcomes
  become HTTP responses.
- **the calendar panel of the frontend** (`CalendarView`). This covers grouping events
  under their day label, the "Today", "Tomorrow", rest ordering of the labels, and the
  styling of an event card.

`Base` holds `Option` and `Result`. `Text` holds the few Python `str` operations the
code relies on: `lower`, `strip`, `split`, `join`, `replace`, `int()` and `str()`.

What the database, Google and the clock would answer is passed in as a parameter.
This applies to the current time, the token file's contents, the refresh and
code-exchange outcomes, the outcome of a file write, the provider's event list and
the ISO-8601 parser. Every branch the code takes on such an answer is modelled. An
exception is an `Err` (or `None`) that carries the message the handler reports.

Where the documented behaviour and the code differ, the model follows the code:

- `POST /api/todos` accepts an empty title, since the request schema is a plain `str`
  (`CreateTodo`). Only the bot's free-text path guarantees a non-empty title.
- An expired credential without a refresh token stays loaded in memory. It is kept,
  not cleared, but it does not authenticate (`ExpiredWithoutRefreshToken`).
- The OAuth callback stores the new credential in memory before writing the token
  file. If the write fails, the response is a 400, yet the adapter is already
  authenticated with the new credential (`CallbackFailures`).
- If the allow-list setting does not parse, reading it raises inside every handler
  before any reply. The bot then says nothing to anyone (`BrokenAllowListIsSilent`),
  not even the refusal.

## Model

| member | source | states |
|---|---|---|
| Config.Entries | backend/app/config.py:33 | entries kept after stripping are non-blank and stripped, and there are no more of them than segments |
| Config.EntriesOfSegment | backend/app/config.py:33 | one segment gives its stripped text, or nothing when it strips to the empty string |
| Config.EntriesAppend | backend/app/config.py:33 | the entries of two runs of segments are the entries of the first followed by those of the second |
| Config.ParseEntries | backend/app/config.py:33 | all entries parse, in order and one-to-one, or some entry is not an integer (the whole parse then fails instead of skipping it) |
| Config.AuthorizedUserIds | backend/app/config.py:28-33 | an empty setting is the empty list; otherwise it is the parse of the entries of the comma-split setting |
| Config.AllowListOfSegments | backend/app/config.py:33 | a setting written as comma-free segments joined by commas is the parse of those segments' entries |
| Config.MessyAllowList | backend/app/config.py:33 | " 1, ,2 ,1" is the list 1, 2, 1: whitespace is stripped, the blank entry dropped and the duplicate kept |
| Config.IsAuthorized | backend/app/services/telegram_bot.py:31-33 | authorized exactly when the allow-list parses and contains the id; a parse failure is an error, not a refusal |
| Config.EmptyAllowListAuthorizesNobody | backend/app/config.py:31-32 | the unset allow-list is the empty list and authorizes nobody |
| Config.FormatIdsRoundTrip | backend/app/config.py:33 | a comma-joined list of printed ids parses back to the same ids in the same order, duplicates included |
| Config.ParsePrintedIds | backend/app/config.py:33 | `int(str(i))` is `i` for every entry of a list |
| Text.Lower | backend/app/services/telegram_bot.py:170 | same length; each upper-case ASCII letter becomes the letter 32 code points above it; other characters unchanged; whitespace stays whitespace |
| Text.Strip | backend/app/services/telegram_bot.py:170 | the result has no whitespace at either end and is a slice of the input with only whitespace cut on either side |
| Text.StripOf | backend/app/config.py:33 | stripping whitespace around a stripped string gives exactly that string |
| Text.StripIdempotent | backend/app/services/telegram_bot.py:183 | stripping twice is stripping once |
| Text.Split | backend/app/config.py:33 | at least one part; no part contains the separator; joining the parts with the separator gives the input back |
| Text.SplitJoin | backend/app/config.py:33 | splitting a separator-free join gives the parts back |
| Text.ParseInt | backend/app/services/telegram_bot.py:130-134 | accepts only an optional sign followed by at least one digit (so "-" alone is rejected); a digit string reads as its decimal value and a signed one as that value with its sign |
| Text.IntToString | backend/app/services/telegram_bot.py:41 | a minus sign exactly for negative numbers, then digits without a leading zero; `int()` reads it back as the same number |
| Text.IntToStringOfParse | backend/app/services/telegram_bot.py:41 | every canonical decimal text is the printing of the number it reads as |
| Text.Replace | backend/app/services/google_calendar.py:156 | the character alone becomes exactly the replacement text; after replacing it by text without it, the character is gone; text without it is unchanged |
| Text.ReplaceAppend | backend/app/services/google_calendar.py:156 | replacing distributes over concatenation |
| TodoStore.Create | backend/app/services/telegram_bot.py:189-199 | a new row under an id not in use, not completed, with the given title, creator and clock reading; no other row changes |
| TodoStore.Find | backend/app/routers/todos.py:38 | the row stored under the id, or none exactly when the id is absent |
| TodoStore.Update | backend/app/routers/todos.py:47-58 | an absent id changes nothing; otherwise only the supplied fields of that one row change and creator and creation time stay |
| TodoStore.Delete | backend/app/services/telegram_bot.py:225-236 | found exactly when the id is present; only that id leaves the table; an absent id changes nothing |
| TodoStore.List | backend/app/routers/todos.py:13-22 | exactly the rows passing the optional `completed` filter, each once, newest first |
| TodoStore.SortNewest | backend/app/services/telegram_bot.py:208 | the ordering is a newest-first rearrangement of the same rows with distinct ids |
| TodoStore.CreateThenFind | backend/app/routers/todos.py:25-41 | a created todo reads back with its title and creator, not completed |
| TodoStore.CreateThenListed | backend/app/services/telegram_bot.py:87 | a created todo appears in the full and in the pending listing |
| TodoStore.DeleteThenFind | backend/app/routers/todos.py:61-70 | after a delete the id is not found |
| TodoStore.UpdateIdempotent | backend/app/services/telegram_bot.py:212-223 | applying the same patch twice equals applying it once |
| TodoStore.ListingsPartition | backend/app/routers/todos.py:19-22 | every row of the full listing is in exactly one of the completed and pending listings |
| TodoStore.EmptyListing | backend/app/services/telegram_bot.py:87-91 | a listing is empty exactly when no row passes its filter |
| TodosApi.GetTodos | backend/app/routers/todos.py:13-22 | 200 with exactly the rows whose flag equals the filter (all rows without it), each once, newest first |
| TodosApi.CreateTodo | backend/app/routers/todos.py:25-32 | 201 with a new row under a fresh id, not completed, created by the given creator or "web"; the rest of the table is unchanged |
| TodosApi.GetTodo | backend/app/routers/todos.py:35-41 | an id beyond SQLite's 64-bit integers is a 500; otherwise 200 with the row exactly when the id is present, else 404 "Todo not found" |
| TodosApi.UpdateTodo | backend/app/routers/todos.py:44-58 | an id beyond 64 bits is a 500 and an absent id a 404, both with no change; otherwise the updated row is returned and stored |
| TodosApi.DeleteTodo | backend/app/routers/todos.py:61-70 | an id beyond 64 bits is a 500 and an absent id a 404, both with no change; otherwise 204 and exactly that id is removed |
| TodosApi.CreateThenGet | backend/app/routers/todos.py:25-41 | reading a created todo back returns the same record |
| TodosApi.DeleteThenGet | backend/app/routers/todos.py:61-70 | after a delete, reading the id and deleting it again both fail the same way (404, or 500 beyond 64 bits) with no change |
| TodosApi.UpdateTouchesOnlySuppliedFields | backend/app/routers/todos.py:51-54 | updating only the flag keeps the title; updating only the title keeps the flag |
| TelegramBot.CreatorTag | backend/app/services/telegram_bot.py:76 | the username when it is present and non-empty, else the user id printed in decimal |
| TelegramBot.Handle | backend/app/services/telegram_bot.py:164-168 | an unauthorized sender never changes the table; a broken allow-list gives no reply; an authorized command goes unanswered exactly when it is /done or /delete with an id beyond 64 bits |
| TelegramBot.HandleCommand | backend/app/services/telegram_bot.py:247-253 | each authorized command goes to its handler; there is no reply only for /done and /delete with an id beyond 64 bits, and then nothing changes |
| TelegramBot.AddCommand | backend/app/services/telegram_bot.py:64-78 | no words: the usage and no change; otherwise the words joined by single spaces become a new pending todo of the sender under an unused id, and only that row is added |
| TelegramBot.ListCommand | backend/app/services/telegram_bot.py:80-117 | never changes the table; the "none" reply exactly when no row passes the filter, otherwise the filtered listing |
| TelegramBot.DoneCommand | backend/app/services/telegram_bot.py:119-140 | usage without an argument, "Invalid ID" for a non-integer, no reply for an id beyond 64 bits, "not found" for an absent id; otherwise that row alone is marked completed and its title named |
| TelegramBot.DeleteCommand | backend/app/services/telegram_bot.py:142-162 | usage, "Invalid ID", no reply and "not found" as for /done; otherwise exactly that id is removed and named |
| TelegramBot.RenderNamesItsSubject | backend/app/services/telegram_bot.py:78-162 | the sent text of a reply about one todo contains its id or title; the refusal contains the sender's id |
| TelegramBot.HandleText | backend/app/services/telegram_bot.py:180-187 | a reply exactly when the text yields a title; no reply means no change |
| TelegramBot.RefusedCommand | backend/app/services/telegram_bot.py:38-44 | an unauthorized sender gets the id-bearing refusal to /start and /help and the plain refusal to the other commands, and nothing changes |
| TelegramBot.RefusalShowsId | backend/app/services/telegram_bot.py:39-43 | the refusal text contains the sender's id as printed |
| TelegramBot.RefusedTextIsSilent | backend/app/services/telegram_bot.py:164-168 | free text from an unauthorized sender gets no reply and changes nothing |
| TelegramBot.EmptyAllowListChangesNothing | backend/app/config.py:31-32 | with an empty allow-list no update changes the table |
| TelegramBot.BrokenAllowListIsSilent | backend/app/config.py:33 | an allow-list that does not parse gives no reply and no change to any update |
| TelegramBot.HelpIsStart | backend/app/services/telegram_bot.py:60-62 | /help answers exactly as /start, authorized or not |
| TelegramBot.AddJoinsWords | backend/app/services/telegram_bot.py:71-78 | /add without words replies with the usage and changes nothing; otherwise the words joined by single spaces become a new pending todo of the sender |
| TelegramBot.FreeTextAdds | backend/app/services/telegram_bot.py:180-187 | a title from free text is non-empty, stripped and lower-case and becomes exactly one new todo; text without a title changes nothing |
| TelegramBot.BadIdChangesNothing | backend/app/services/telegram_bot.py:126-134 | /done and /delete without an argument reply with their usage, and with a non-integer one reply "Invalid ID"; nothing changes |
| TelegramBot.ExtraWordsIgnored | backend/app/services/telegram_bot.py:131 | words after the first argument of /done and /delete make no difference |
| TelegramBot.DoneMarksOnlyThatTodo | backend/app/services/telegram_bot.py:130-140 | /done on an existing id sets only its completed flag and names its title, and repeating it changes nothing; a missing id is "not found"; an id beyond 64 bits gets no reply; neither changes anything |
| TelegramBot.DeleteRemovesOnlyThatTodo | backend/app/services/telegram_bot.py:153-162 | /delete removes exactly that id and a second /delete is "not found"; a missing id is "not found" and an id beyond 64 bits gets no reply, both with no change |
| TelegramBot.ListChangesNothing | backend/app/services/telegram_bot.py:80-97 | /list never changes the table; it is "No pending todos!" exactly when every todo is completed, otherwise the pending listing |
| TelegramBot.AllChangesNothing | backend/app/services/telegram_bot.py:99-117 | /all never changes the table; it is "No todos found!" exactly when the table is empty, otherwise the full listing |
| TelegramBot.ListingShowsEveryRow | backend/app/services/telegram_bot.py:93-95 | the line of every listed row occurs in the listing text |
| FreeText.DotsToEnd | backend/app/services/telegram_bot.py:174 | `(.+)$` captures a non-empty line that is the rest of the text, possibly followed by a final newline |
| FreeText.DotsToEndComplete | backend/app/services/telegram_bot.py:174 | `(.+)$` matches whenever the rest of the text is one non-empty line with an optional final newline |
| FreeText.SpacesThenRestSound | backend/app/services/telegram_bot.py:174 | what `\s*(.+)$` captures is `(.+)$` read after a run of whitespace |
| FreeText.SpacesThenRestComplete | backend/app/services/telegram_bot.py:174 | whitespace followed by one line is always matched by `\s*(.+)$` |
| FreeText.SpacesThenRestExact | backend/app/services/telegram_bot.py:174 | after the whole whitespace run, the capture is exactly the line that follows |
| FreeText.MatchAddSound | backend/app/services/telegram_bot.py:173-181 | every capture is a reading of the text as keyword, optional colon, whitespace and group |
| FreeText.MatchAddComplete | backend/app/services/telegram_bot.py:173-181 | whenever the text can be read as the pattern, the pattern matches |
| FreeText.MatchAddExact | backend/app/services/telegram_bot.py:173-181 | the greedy whitespace run and the colon-first order determine exactly which group is captured |
| FreeText.Candidate | backend/app/services/telegram_bot.py:183-184 | a pattern contributes its stripped group exactly when it matched and the group is not blank |
| FreeText.FirstSome | backend/app/services/telegram_bot.py:180-187 | the loop yields the first candidate preceded only by misses, and yields nothing exactly when every pattern misses |
| FreeText.Title | backend/app/services/telegram_bot.py:170-187 | a title is non-empty, stripped, free of upper-case letters and occurs in the normalized text |
| FreeText.FirstMatchWins | backend/app/services/telegram_bot.py:180-183 | the first pattern that matches decides the title, whatever later patterns would capture |
| FreeText.NoTitleIffNoMatch | backend/app/services/telegram_bot.py:180-187 | there is no title exactly when none of the four patterns matches |
| FreeText.CandidateIffMatch | backend/app/services/telegram_bot.py:181-184 | in stripped text a pattern's group is never blank, so a pattern contributes exactly when it matches |
| FreeText.StrippedMatch | backend/app/services/telegram_bot.py:183-184 | a group matched in stripped text does not strip to nothing and occurs in the text |
| FreeText.NormalizeIsLower | backend/app/services/telegram_bot.py:170 | the normalized text has no upper-case letter |
| FreeText.NormalizeClean | backend/app/services/telegram_bot.py:170 | lower-casing and stripping leave lower-case stripped text alone |
| FreeText.ColonMatch | backend/app/services/telegram_bot.py:174-175 | "todo: buy milk" misses the "add todo" pattern and gives "buy milk" through "todo" |
| FreeText.NoColonMatch | backend/app/services/telegram_bot.py:174 | "add todo milk" gives "milk": the colon is optional |
| FreeText.NoBoundaryMatch | backend/app/services/telegram_bot.py:175 | "todolist" gives "list": no word boundary follows the keyword |
| FreeText.BareColonMatch | backend/app/services/telegram_bot.py:175 | "todo:" gives ":": the colon is handed back to the group |
| FreeText.NoKeywordMatch | backend/app/services/telegram_bot.py:173-178 | "hello" matches none of the four patterns |
| GoogleCalendar.RedirectHost | backend/app/services/google_calendar.py:34-36 | never the wildcard address; any other host is kept |
| GoogleCalendar.RedirectUri | backend/app/services/google_calendar.py:34-36 | "http://", then the redirect host (never the wildcard), a colon, the port printed so that it reads back as the port, and the callback path |
| GoogleCalendar.WildcardIsLocalhost | backend/app/services/google_calendar.py:35-36 | binding to 0.0.0.0 redirects exactly like binding to localhost; other hosts appear as they are |
| GoogleCalendar.RedirectUriDeterminesPort | backend/app/services/google_calendar.py:34 | for a fixed host, two settings share a redirect address exactly when they share the port |
| GoogleCalendar.ClientConfigOf | backend/app/services/google_calendar.py:38-46 | the client id and secret come from the settings and the one redirect address is `RedirectUri` |
| GoogleCalendar.AuthUrlRequest | backend/app/services/google_calendar.py:73-85 | the consent request asks for offline access with forced consent and uses a registered redirect address |
| GoogleCalendar.TokenExchange | backend/app/services/google_calendar.py:89-93 | the exchange sends the received code unchanged with a redirect address the client registered |
| GoogleCalendar.SameRedirect | backend/app/services/google_calendar.py:75-79 | the consent request and the code exchange use the same client and the same redirect address |
| GoogleCalendar.Load | backend/app/services/google_calendar.py:48-61 | a missing file leaves no credential; a refresh happens exactly for an expired credential with a refresh token, and its result is saved only if the refresh and the write succeed; any failure leaves no credential |
| GoogleCalendar.LoadFailureClears | backend/app/services/google_calendar.py:60-61 | a parse, refresh or write failure leaves the adapter without a credential and unauthenticated |
| GoogleCalendar.ExpiredWithoutRefreshToken | backend/app/services/google_calendar.py:57 | an expired credential without a refresh token is kept unrefreshed and does not authenticate |
| GoogleCalendar.LoadAuthenticatedIff | backend/app/services/google_calendar.py:48-71 | after loading, authenticated exactly when the stored credential was valid, or it needed a refresh that succeeded, was saved and is valid |
| GoogleCalendar.HandleCallback | backend/app/services/google_calendar.py:87-96 | a failed exchange changes nothing; a successful one is held in memory even if the write fails, and it is saved exactly when the write succeeds |
| GoogleCalendar.CallbackThenLoad | backend/app/services/google_calendar.py:63-67 | a valid credential saved by the callback authenticates the next load |
| GoogleCalendar.AddDays | backend/app/services/google_calendar.py:110 | `now + timedelta(days)` succeeds exactly when the day count and the sum are in range, and then moves by exactly that many days; a count beyond a C `int` fails with CPython's conversion error, one beyond 999999999 days with the range error, and an out-of-range sum with the date error |
| GoogleCalendar.UpcomingWindow | backend/app/services/google_calendar.py:108-110 | the window runs from now to exactly `days` days later, or overflows exactly when the addition does |
| GoogleCalendar.DefaultWindowFits | backend/app/services/google_calendar.py:104 | the default week-ahead window does not overflow away from the end of year 9999 |
| GoogleCalendar.TodayWindow | backend/app/services/google_calendar.py:128-130 | a midnight-aligned one-day window that contains now; it fails only when the next midnight is past year 9999 |
| GoogleCalendar.TodayWindowUnique | backend/app/services/google_calendar.py:129-130 | it is the only midnight-aligned one-day window containing now |
| GoogleCalendar.ZuluAsOffset | backend/app/services/google_calendar.py:156-157 | no "Z" remains; text without one is unchanged |
| GoogleCalendar.ReadInstant | backend/app/services/google_calendar.py:152-157 | an all-day boundary reads `date`, a timed one reads `dateTime` with "Z" rewritten; a missing key is a `KeyError` naming it |
| GoogleCalendar.ParseEvent | backend/app/services/google_calendar.py:144-167 | succeeds exactly when both reads succeed; a failing start read is raised before the end is read; on success the event is all-day exactly when the start has a `date`, carries the two instants read, and takes id, summary, location and description from the item with their defaults |
| GoogleCalendar.ParsedDefaults | backend/app/services/google_calendar.py:159-167 | a missing id is "", a missing summary is "No Title", and a missing location or description stays missing |
| GoogleCalendar.AllDayIffDate | backend/app/services/google_calendar.py:150-157 | all-day exactly when the start has a `date`; a timed event's instants are parsed from "Z"-free `dateTime` values |
| GoogleCalendar.MixedKindsFail | backend/app/services/google_calendar.py:152-154 | an all-day start with an end lacking `date` raises `KeyError` on "date" |
| GoogleCalendar.ZuluSuffix | backend/app/services/google_calendar.py:156 | a trailing "Z" becomes "+00:00" |
| GoogleCalendar.ParseAll | backend/app/services/google_calendar.py:121-122 | every item converted in order, or the error of the first item that fails |
| GoogleCalendar.ParseAllSucceeds | backend/app/services/google_calendar.py:122 | when every item converts, the list converts |
| GoogleCalendar.FetchWindow | backend/app/services/google_calendar.py:98-102 | not authenticated, an overflowing window and a provider failure each end in their own error; otherwise the items are converted |
| GoogleCalendar.UpcomingEvents | backend/app/services/google_calendar.py:104-122 | unauthenticated and overflowing-window errors first; otherwise the provider's failure for the configured calendar over `[now, now + days]`, or the conversion of every item it answered |
| GoogleCalendar.TodayEvents | backend/app/services/google_calendar.py:124-142 | unauthenticated and window errors first; otherwise the provider's failure for the configured calendar over today's window, or the conversion of every item it answered |
| CalendarApi.Auth | backend/app/routers/calendar.py:17-27 | 500 exactly when the client id or secret is empty, otherwise a redirect to the consent request |
| CalendarApi.Callback | backend/app/routers/calendar.py:30-37 | a redirect to the frontend with `?calendar_connected=true` exactly when the callback raised nothing, otherwise 400 with the error text |
| CalendarApi.CallbackFailures | backend/app/routers/calendar.py:33-37 | a failed exchange is a 400 that changes nothing; a failed write is a 400 although the new credential is already held |
| CalendarApi.Report | backend/app/routers/calendar.py:43-50 | empty and disconnected without a valid credential; the events and connected on success; 500 with the message on failure |
| CalendarApi.Events | backend/app/routers/calendar.py:40-50 | disconnected means an empty list; a connected list comes from the provider's answer for `[now, now + days]`; failures are 500 "Failed to fetch events:" |
| CalendarApi.Today | backend/app/routers/calendar.py:53-63 | the same for today's window |
| CalendarApi.DisconnectedIgnoresProvider | backend/app/routers/calendar.py:43-44 | without a valid credential the response does not depend on the provider |
| CalendarApi.ProviderOutcome | backend/app/routers/calendar.py:46-50 | a provider failure is a 500 naming it; a provider answer whose items all convert is that list, connected |
| CalendarApi.TodayProviderOutcome | backend/app/routers/calendar.py:59-63 | for `/today`, a provider failure is a 500 naming it; a provider answer whose items all convert is that list, connected |
| CalendarApi.CalendarStatus | backend/app/routers/calendar.py:66-72 | connected exactly when authenticated; the calendar id is reported exactly when connected |
| CalendarApi.UnconfiguredDefaults | backend/app/config.py:15-26 | with default settings `/auth` is a 500, nobody may use the bot, and the callback address is localhost on port 8000 |
| CalendarView.WithLabel | frontend/src/components/Calendar.jsx:114-121 | a group holds only events carrying its label |
| CalendarView.WithLabelMembers | frontend/src/components/Calendar.jsx:114-121 | an event is in a label's group exactly when it is one of the events and carries that label |
| CalendarView.FirstAppearances | frontend/src/components/Calendar.jsx:116-118 | the keys are each label once, the same labels as the events carry |
| CalendarView.Group | frontend/src/components/Calendar.jsx:114-121 | the keys in order of first appearance, and each key's group is exactly its events in input order |
| CalendarView.EveryEventInOneGroup | frontend/src/components/Calendar.jsx:114-121 | every event is in the group of its own label and in no other |
| CalendarView.GroupKeepsOrder | frontend/src/components/Calendar.jsx:119 | two events with the same label appear in their group in input order |
| CalendarView.Compare | frontend/src/components/Calendar.jsx:124-130 | the comparator returns -1, 0 or 1, and on distinct labels it orders by rank: "Today", "Tomorrow", then the rest |
| CalendarView.SortIsBucketed | frontend/src/components/Calendar.jsx:124-130 | the stable sort gives every "Today", then every "Tomorrow", then the other labels in their original order |
| CalendarView.SortedByRank | frontend/src/components/Calendar.jsx:124-130 | the sorted labels never go down in rank |
| CalendarView.TodayThenTomorrow | frontend/src/components/Calendar.jsx:125-128 | "Today" is first when present, and "Tomorrow" precedes every label other than "Today" |
| CalendarView.SortedLabels | frontend/src/components/Calendar.jsx:114-130 | the sorted keys are exactly the labels of the events |
| CalendarView.PanelOrder | frontend/src/components/Calendar.jsx:114-130 | the panel's label order is "Today", "Tomorrow", then the other labels in order of first appearance |
| CalendarView.Style | frontend/src/components/Calendar.jsx:43-56 | highlighted exactly while happening now; faded exactly when past and not happening now |
| CalendarView.AllDayIsPlain | frontend/src/components/Calendar.jsx:43-46 | an all-day event is never past nor happening now, so its card is plain |
| CalendarView.TimedCardLifecycle | frontend/src/components/Calendar.jsx:43-56 | a timed card is plain before its start, highlighted from start to end, and faded from its end on |
| CalendarView.LiveCardDimmedTitle | frontend/src/components/Calendar.jsx:43-60 | strictly inside its time span a card is highlighted and its title dimmed at once |

## Left out

- The bot runtime (application builder, handler registration, polling, start and stop) is framework plumbing. The model starts from a parsed update: a command with its words, or plain text.
- The application wiring in `main.py` (lifespan hook, CORS, health endpoint) is not part of this model.
- The database layer is not part of this model: sessions, commits, `database.py` and `run.py`. New ids come from a counter above every id ever handed out, so SQLite's reuse of a freed top rowid is not modelled.
- Ids are bounded only where the code reads them. An id outside SQLite's 64-bit INTEGER range fails when it is bound as a query parameter. The HTTP handlers then answer 500, and `/done` and `/delete` raise before replying. New ids come from an unbounded counter, so rowid allocation after 2^63 - 1 (SQLite then picks a random free rowid, or fails when none is left) is not modelled.
- `TodosApi.CreateThenGet`: requires the id counter to be within 64 bits. Beyond that SQLite's rowid allocation, which is not modelled, decides the new id.
- `updated_at` is not modelled. Every `TodoResponse` carries it (`schemas.py:30`), and the column is re-stamped with the clock on every update (`models.py:19`), but no endpoint or bot command decides anything by it. The modelled responses therefore leave it out of each returned record.
- The `User` table is never read by the code, so it is not modelled.
- A bot `Reply` is the message a handler sends. Its delivery is not modelled. `reply_text` raises when the text exceeds Telegram's 4096-character limit (a long `/list` or `/all`, or `/add` and free text with a title near that length), or on a network error. Then no message arrives, although `/add`, free text, `/done` and `/delete` have already changed the table.
- `TelegramBot.Handle`, `TelegramBot.HandleText`: "no reply means no change" is stated for the replies the handlers send. It does not cover a message that fails in transit after the table changed.
- Concurrency between the web and the bot front-ends is not modelled. Each update and each request is one atomic step.
- `TodoStore.List`: rows with equal creation times come out in id order. SQL leaves their order unspecified, so the contract states only the filter, the distinctness and newest-first.
- `Text.Lower`, `Text.Strip`, `Text.IsSpace`: case mapping and whitespace are restricted to ASCII. Python's Unicode tables are out of reach without a library.
- `Text.ParseInt`: accepts only an optional sign and ASCII digits. Python's `int()` also takes surrounding whitespace, underscores and non-ASCII digits. Allow-list entries are already stripped, and bot arguments contain no whitespace. CPython 3.11 and later also refuse more than 4300 digits with `ValueError`. The bot would then answer "Invalid ID", where the model reads the number and, being beyond 64 bits, sends no reply.
- The Google libraries (`Flow`, `Credentials`, `Request`, `build`, `events().list`) are passed in as outcomes. A `Credential` keeps only what the code looks at: the token, the expiry and the refresh token. Expiry is the value observed when the credential is examined, so expiry while the server runs is not modelled.
- The query's `maxResults`, `singleEvents` and `orderBy` arguments are request parameters the provider honours, not behaviour of this code, so the model does not carry them.
- `datetime.fromisoformat` is a parameter (`IsoParser`). The "Z" rewrite before it is modelled; the ISO-8601 grammar is not. `isoformat()` rendering of the window bounds is left out: windows are integer microseconds.
- The frontend's `getDateLabel`, `formatTime` and `formatDate` depend on the browser's clock, time zone and locale. Labels are an abstract `dayOf` function. The React rendering, the hooks and the fetch code are UI.
- `Object.keys` lists integer-like keys before the others, whatever their insertion order. Day labels are "Today", "Tomorrow" or a weekday-month-day text, never integer-like, so the model keeps plain insertion order.
