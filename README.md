# capiche: release alerts for movies and series episodes

This project models the core of capiche, a Telegram bot that alerts users when
a movie they follow is released or the next episode of a series they follow
airs. Two pieces are covered.

The first is the `Alert` class of `movie.py`. Its parts are:

- `enable` resolves a title to a pending alert. The movie path takes the first
  USA release date. The series path scans the episodes of the first season.
- `_update_episode` moves a series alert on to its next episode.
- `notify` is the periodic pass over the alerts that are due.
- `disable` deletes an alert, and `title_name` lists a user's alerts.
- The `_catch_and_log` decorator turns any exception into the reply
  `Unexpected error occurred.`.

The second is the keyboard logic of the two bot front ends: `result_id`,
`chosen_result`, `imdb_url_button`, and the two different versions of
`create_reply_markup`.

Modules:

- `PyText` (`pytext.dfy`): the parts of Python's string and number handling the
  code relies on. These are truthiness, the regular-expression classes `\d`, `\s`
  and `\w`, `str(n)`, `int(s)`, `str.replace(c, '')`, `str.split`,
  `str.join` and `split(...)[-1]`.
- `DateText` (`datetext.dfy`): dates and time.
  - The date gates `\d{1,2}\s\w{3,9}\s\d{4}` and `\d{1,2}\s\w{3}.{0,1}\s\d{4}`
    under `re.match`. Each gate is decided by scanning runs of characters and is
    proved equal to the regular expression.
  - `datetime.strptime` with the formats `%d %B %Y` and `%d %b %Y`.
  - Time as microseconds on the proleptic Gregorian scale of
    `datetime.toordinal`. A parsed date stands for its midnight. `today` is the
    start of the current day. The re-check date is the midnight seven days on.
- `Metadata` (`metadata.dfy`): the answers of the IMDb client, taken as data (a
  `Catalogue`), and the alerts table (a map from (user, title) to a record).
  An id that the client cannot answer for is absent from its map. The code
  raises there.
- `Release` (`release.dfy`): `enable`, its two paths, `disable` and
  `title_name` as functions, with the properties proved about them.
- `Scheduler` (`scheduler.dfy`): `_update_episode` and `notify` as functions,
  with the properties proved about them.
- `Movie` (`movie.dfy`): the class `Alert`. It holds the table as a mutable
  field. Its methods update that field step by step, the same way the source
  does, including the episode loop and the row loop. Each method is proved to
  return exactly what the matching `Release` or `Scheduler` function gives and
  to leave the table exactly as that function says.
- `Keyboard` (`keyboard.dfy`): the pieces `IMDBbot.py` and `imdbot.py` share.
  `result_id`, `chosen_result` and `imdb_url_button` are the same code in both
  files (`imdbot.py:30-36`, `imdbot.py:63-71`, `imdbot.py:73-81`), so one member
  models each.
- `IMDBbot` and `Imdbot` (`markup.dfy`): the two versions of
  `create_reply_markup`. `IMDBbot.py` checks `'kind' in title`, converts the year
  with `int` (a `ValueError` counts as no year), and tests the year after the
  series test has not returned. `imdbot.py` indexes the fields directly, so a
  missing one raises `KeyError`. It compares the year as it is, and it tests the
  year only in the `elif` of the series test.
- `AsWritten` (`findings.dfy`): the three date-gate calls as the code writes
  them (see Findings).

Points where the code's behaviour may surprise a reader:

- **Failures in `notify`.** An exception in one row of `notify` ends the whole
  pass with the error text. The table keeps the changes the earlier rows made.
  Those rows' alerts are lost. Failures are not isolated per record.
  `Scheduler.CrashAt` and `Scheduler.NotifyOutcomes` state this.
- **Which season.** The series path reads the first season key of the episode
  listing, not the latest season.
- **Re-check date.** The re-check date is computed from the current time. It
  is not compared with the record's previous date.
- **Separator removed.** `enable` and `_get_episode_release_date` remove `.`
  from an air date. `_update_episode` and `notify` remove `,`. As a result, an
  air date written with a dotted month, such as `4 Jul. 2099`, passes the series
  gate and is stored by `enable`. When that episode comes due, `notify` cannot
  parse the date, and the row raises (`Scheduler.DottedMonthRaisesInNotify`).

Failure of `_update_episode` also counts. Because of `_catch_and_log`, a failed
`_update_episode` returns the error text. That text is truthy, so `notify` does
not read it as "series ended" (`Scheduler.AdvanceNextIsTruthy`).

## Model

| member | source | states |
|---|---|---|
| PyText.RunEnd | movie.py:121 | The longest run of one character class from a position: every character in it is of the class, and the next one is not. |
| PyText.IntToString | IMDBbot.py:181 | `str(i)` is decimal: non-negative numbers as their digits with no leading zero, negative ones as `-` and the digits of the absolute value. |
| PyText.ParseInt | IMDBbot.py:188 | `int(s)` succeeds exactly on an optional `-` or `+` followed by one or more digits, and gives those digits' decimal value with the sign applied. |
| PyText.ParseIntToString | IMDBbot.py:188 | `int(str(i)) == i` for every integer. |
| PyText.Remove | movie.py:163 | `s.replace(c, '')` contains no `c` and is no longer than `s`. |
| PyText.LastPart | IMDBbot.py:99 | `s.split(sep)[-1]` has no separator, is a suffix of `s`, and is either all of `s` or the text after a separator. |
| PyText.SplitJoin | movie.py:258 | Joining parts that contain no newline and splitting again gives the parts back. |
| DateText.DaysInMonth | movie.py:130 | The month lengths `strptime` accepts: 28 to 31 days, and 29 exactly for February of a leap year. |
| DateText.Ordinal | movie.py:130 | The proleptic Gregorian ordinal of a valid date is at least 1. |
| DateText.DaysBeforeNextYear | movie.py:130 | Each year starts where the previous one started plus its length, 366 days for a leap year and 365 otherwise. |
| DateText.MonthsFillYear | movie.py:130 | Every month ends within its year, and December ends exactly at the year's end. |
| DateText.OrdinalOrder | movie.py:131 | One date comes before another exactly when its ordinal is smaller, and two dates are equal exactly when their ordinals are. |
| DateText.MidnightOrder | movie.py:131 | Comparing the instants two parsed dates stand for is comparing the dates: `>` and `<` on `datetime` agree with the calendar order. |
| DateText.Midnight | movie.py:130 | A parsed date stands for an instant that is a whole number of days. |
| DateText.StartOfDay | movie.py:283 | `today`: the midnight at or before `now` and less than a day before it. |
| DateText.WeekLater | movie.py:203-205 | The re-check date is today's midnight plus seven days, so it lies more than six and at most seven days after `now`. |
| DateText.MidnightIsToday | movie.py:300 | A parsed air date equals `today` exactly when `now` falls within that day. |
| DateText.MonthNamesDistinct | movie.py:164 | The twelve full and the twelve abbreviated month names are each distinct. |
| DateText.FirstIndex | movie.py:130 | One plus the first position of a name in the list: the name is there and at no earlier position. It is 0 exactly when the name is absent. |
| DateText.MonthNumber | movie.py:130 | `%B` and `%b` ignore case: the month number names the lower-cased token, and it is 0 exactly when the token is no month name. |
| DateText.ParseDate | movie.py:130 | Whatever `strptime` returns is a real calendar date. |
| DateText.ParseFields | movie.py:130 | `strptime` reads day, month token and year out of `day month year`. It gives that date when the day has at most two digits, the year four, and the three make a real date, and raises otherwise. |
| DateText.ParseFormattedToken | movie.py:164 | A date written with any month token that names its month parses back to that date. |
| DateText.UnnamedMonthToken | movie.py:292 | A date written with a month token that names no month raises in `strptime`. |
| DateText.ParseFormatted | movie.py:164 | Every date written as day, month name in any case, and four-digit year parses back to that date under `%d %B %Y` and `%d %b %Y`. |
| DateText.MovieGateIsRegex | movie.py:121 | The run scan accepts exactly the strings that `\d{1,2}\s\w{3,9}\s\d{4}` matches at their start. |
| DateText.SeriesGateIsRegex | movie.py:155 | The run scan accepts exactly the strings that `\d{1,2}\s\w{3}.{0,1}\s\d{4}` matches at their start. |
| DateText.MovieGateAcceptsFormatted | movie.py:121 | Every date written with a month word of 3 to 9 letters passes the movie gate. |
| DateText.SeriesGateAcceptsFormatted | movie.py:191 | Every date written with a 3-letter month, bare or followed by `.` or `,`, passes the episode gate. |
| Release.UsaDates | movie.py:125-127 | The USA dates are empty exactly when no entry is for `USA\n` without notes; otherwise the first one is the date of the first such entry. |
| Release.FirstUsaDate | movie.py:125-128 | The first USA date is the date of the first USA entry without notes. |
| Release.MovieStoresExactlyWhen | movie.py:113-142 | The movie path stores a record exactly when the first USA entry's date matches the regular expression and parses to a midnight after `now`. The record is under (user, title), tracks no episode and is dated at that midnight. |
| Release.MovieOtherwiseReplies | movie.py:123-141 | Otherwise the table is unchanged, and the reply is "No release date found", "Unable to find USA release date", "Released on <date> in USA" quoting the first USA date, or the error text. |
| Release.SkippedBeforeTail | movie.py:160-178 | Episodes the scan passes over before episode k are passed over in the tail as well. |
| Release.ScanFindsFirstUpcoming | movie.py:160-176 | When every earlier episode is passed over, the episode loop stores the first episode whose gated date parses to a midnight not before `now`, with that date. |
| Release.ScanInsertsOnlyFirstUpcoming | movie.py:160-176 | Whatever the episode loop stores is that first upcoming episode. |
| Release.ScanStopsAtAiredFinale | movie.py:165-169 | Reaching an aired episode whose number equals the episode count ends the loop with "Season <n> finale aired <date>" and stores nothing. |
| Release.EnableStoresOneRecord | movie.py:218-233 | `enable` changes the table only by storing one record under (user, title), carrying the long title. It tracks an episode exactly when the title has seasons and is never dated before `now`; a movie record is dated strictly after it. |
| Release.Disable | movie.py:237-243 | `disable` removes the (user, title) record and leaves every other record as it was. |
| Release.EnableThenDisable | movie.py:236-243 | Enabling and then disabling an alert leaves the table as it was, less that record. |
| Release.TitleNameMessage | movie.py:252-262 | No alerts (an empty list or an empty text) gives the help text, and a non-empty text the query returned is passed through. |
| Release.TitleNamesListed | movie.py:258 | The listing is the header followed by the titles, one per line, in the order given. |
| Scheduler.AdvanceOutcomes | movie.py:186-214 | `_update_episode` touches no other record and adds none. It deletes the record exactly when there is no next episode and leaves the table unchanged when it fails. Otherwise it points an existing record at the episode it returns: the next one dated at its air date, or the current one dated a week on. |
| Scheduler.AdvanceCases | movie.py:192-209 | With a next episode named, which way `_update_episode` goes: an unknown next episode, or a gated air date that does not parse, fails and changes nothing. An air date that fails the gate keeps the current episode and dates the record a week on. A gated date that parses moves the record to the next episode at that date's midnight. |
| Scheduler.AdvanceNextIsTruthy | movie.py:192-209 | With a next episode named, the result is never the falsy "no next episode", even when the call fails. |
| Scheduler.RowRaisesExactlyWhen | movie.py:289-313 | A series row raises exactly when its episode's air date cannot be read, and a movie row exactly when its title is unknown. |
| Scheduler.SeriesRowOutcomes | movie.py:289-305 | A series row whose air date was read does not raise and leaves the table as `_update_episode` does. It announces the finale exactly when there is no next episode. Otherwise it announces the episode exactly when its air date is today. |
| Scheduler.RowOutcomes | movie.py:287-313 | One row adds at most one alert, to the row's user, and changes no other record. A movie row announces the movie and deletes its record, a finale deletes its record, and an episode is announced only when its air date is today. |
| Scheduler.AdvanceResultIgnoresStore | movie.py:192-214 | What `_update_episode` returns does not depend on the table. |
| Scheduler.RowCrashIgnoresStore | movie.py:289-313 | Whether a row raises does not depend on the table. |
| Scheduler.RowNoticesIgnoreStore | movie.py:289-313 | What a row announces does not depend on the table. |
| Scheduler.CrashSticks | movie.py:287-315 | Once an exception ends the loop, later rows change nothing. |
| Scheduler.CrashAt | movie.py:287-315 | An exception at row i ends the pass there, keeping the table the earlier rows left. |
| Scheduler.NotesPerRow | movie.py:287-313 | The pass adds at most one alert per row, each to the user of some row. |
| Scheduler.RunRowsFrame | movie.py:287-313 | The pass never adds a record and leaves every record no row names as it was. |
| Scheduler.MovieRowsEndDeleted | movie.py:306-313 | After a complete pass, no record of a movie row remains. |
| Scheduler.NotifyOutcomes | movie.py:276-315 | `notify` fails exactly when some row raises, and then with the error text. A non-list answer or an empty list gives no alerts and no change. No record that no row names changes. |
| Scheduler.DottedMonthRaisesInNotify | movie.py:289-292 | An air date with a dotted month passes the episode gate and parses once `.` is dropped, yet the `notify` row for that episode raises. |
| Movie.Alert.constructor | movie.py:94-99 | The alert object starts from the table the database holds. |
| Movie.Alert.GetMovieReleaseDate | movie.py:113-142 | Returns and stores exactly what `Release.MovieRelease` gives. |
| Movie.Alert.GetEpisodeReleaseDate | movie.py:146-182 | The episode loop returns and stores exactly what `Release.SeriesRelease` gives. |
| Movie.Alert.UpdateEpisode | movie.py:186-214 | Returns and updates exactly what `Scheduler.AdvanceSpec` gives. |
| Movie.Alert.Enable | movie.py:218-233 | Dispatches to the series or movie path as `Release.Enable` gives. |
| Movie.Alert.Disable | movie.py:237-243 | Deletes the (user, title) record. |
| Movie.Alert.Notify | movie.py:276-315 | The row loop returns and leaves exactly what `Scheduler.NotifySpec` gives. |
| Keyboard.ImdbUrlButton | IMDBbot.py:105-115 | One button whose link is the IMDb title URL followed by the id and whose text is the message followed by ` (IMDb link)`. |
| Keyboard.ImdbUrlButtonInjective | IMDBbot.py:110-113 | The link button determines both the title id and the message. |
| Keyboard.ResultId | IMDBbot.py:45-52 | The result id is the uuid, `-`, and the title id. |
| Keyboard.ChosenTitleId | IMDBbot.py:99 | The extracted id holds no `-`, is a suffix of the result id, and is either the whole result id or the text after a `-`. |
| Keyboard.ChosenTitleIdRoundTrip | IMDBbot.py:45-52 | The title id comes back out of its result id exactly when it holds no `-`. |
| Keyboard.UserData.constructor | IMDBbot.py:102 | No title is chosen yet. |
| Keyboard.UserData.ChosenResult | IMDBbot.py:92-102 | Records, for the user, the id extracted from the result id, which is the title id the result was built from. |
| IMDBbot.CreateReplyMarkup | IMDBbot.py:167-205 | Raises for a non-text kind, for a `None` year on any title but an ended series, and for a missing id. An ended series gets the "Series ended in" link, a year before the current one the "Movie released in" link, and any other title (including a non-integer year) Disable or Enable, then Dismiss. |
| Imdbot.CreateReplyMarkup | imdbot.py:121-143 | Raises for a missing kind, end year, year or id and for a non-empty text year. A series gets the "Series ended in" link or the toggle, never "Movie released"; a non-zero integer year before the current one gets the released link; a falsy or not-earlier year gets the toggle. |
| AsWritten.MovieReleaseAsWritten | movie.py:113-142 | As written, the movie path never stores anything. |
| AsWritten.MovieMatchUnbound | movie.py:128 | A movie with an upcoming, well-formed USA date gets an alert from the intended code and the error text from the code as written. |
| AsWritten.ScanAsWritten | movie.py:160-182 | As written, the episode loop never stores anything. |
| AsWritten.EpisodeMatchUnbound | movie.py:162 | An episode with an upcoming, well-formed air date is stored by the intended loop, while the loop as written raises. |
| AsWritten.AdvanceAsWritten | movie.py:186-214 | As written, an alert is never moved to a new episode. |
| AsWritten.NextEpisodeMatchUnbound | movie.py:197 | For any table holding the alert, a next episode with a well-formed air date is taken up by the intended code, which moves the record to it at that date, while the code as written fails and changes nothing. |

## Left out

- Logging: `LOG.error` is not modelled. `_catch_and_log` is modelled only by its reply, the error text.
- The IMDb client (Cinemagoer): its answers are catalogue data. The `search`
  and `get_fields` functions (with their own `_catch_and_log`) and
  `reply_message` are not part of this model. So alerts carry the title or
  episode id, not the rendered text.
- The database (`db.py`) is not part of this model.
  - Its table is a map keyed by (user, title).
  - `insert` replaces the record at that key.
  - `update` changes only an existing record.
  - `delete` removes the key.
  - What `insert` and `delete` return is an opaque reply.
  - `query_released(today)` and `query_title_name` are inputs: their answers
    are given as rows or names, or as a non-list value.
- `create_db`, `title_id` and `__del__` are plain calls into the database and are not modelled.
- The clock: `datetime.now()` is a parameter `now`. `notify` and the
  `_update_episode` it calls read the clock separately in the source. Here they
  share one `now`.
- Time zones and times of day other than midnight are not modelled. Parsed
  dates are midnights, and comparisons are on microseconds.
- `uuid4()` is a parameter of `Keyboard.ResultId`.
- The Telegram handlers (`in_line_query`, the enable, disable and dismiss
  callbacks, the commands, the job queue) are not modelled. They only pass
  values between the bot and the functions modelled here.
- Character classes and parsing are ASCII only:
  - `\d`, `\s`, `\w` and `strptime`'s case-insensitive month match cover
    ASCII characters only.
  - `%d` accepting a leading space (` 5`) is not modelled.
  - `int(s)` accepting surrounding whitespace and `_` separators is not
    modelled.
  - Month names are those of the C locale.
- IMDBbot.CreateReplyMarkup: the callback data is the handler itself, not
  `str(handler)`. The kind is a text or something that makes `'series' in kind`
  raise; a kind that is a list is not modelled.

## Findings

| source | as written | input that shows it | evidently intended | confidence | as-written member | corrected member |
|---|---|---|---|---|---|---|
| movie.py:128 | `match(date_regex, …)` is called, but `match` is never imported, so it raises `NameError`, and the movie path answers the error text | a movie whose only release entry is `USA\n`, `4 July 2099`, no notes | `re.match`: the date is gated, parsed and stored | not executed | AsWritten.MovieMatchUnbound | Release.MovieStoresExactlyWhen |
| movie.py:162 | the same unbound `match` raises for the first episode with an air date, so no series alert is ever stored | a season whose one episode airs `4 Jul. 2099` | `re.match`: the first upcoming episode is stored | not executed | AsWritten.EpisodeMatchUnbound | Release.ScanFindsFirstUpcoming |
| movie.py:197 | the same unbound `match` raises whenever the next episode has an air date, so an alert never moves on to a dated episode | a next episode airing `4 Jul 2099` | `re.match`: the alert moves to the next episode and its air date | not executed | AsWritten.NextEpisodeMatchUnbound | Scheduler.AdvanceCases |
