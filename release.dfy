/**
 * What `Alert.enable`, `Alert.disable` and `Alert.title_name` do, as functions
 * of the catalogue, the alerts table and the current instant.
 *
 * Every exception inside these methods is turned by `_catch_and_log` into the
 * reply `UnexpectedError` with the table as it was.
 */
module Release {
  import opened PyText
  import opened DateText
  import opened Metadata

  /** The reply of a call and the alerts table after it. */
  datatype Outcome = Outcome(reply: Reply, store: Store)

  function Crash(store: Store): Outcome {
    Outcome(Message(UnexpectedError), store)
  }

  const NoReleaseDate: string := "No release date found"
  const NoUsaDate: string := "Unable to find USA release date"
  const NoEpisodeDate: string := "Unable to get episode release date"
  const NoEpisodes: string := "Unable to get series episodes"

  function ReleasedText(date: string): string {
    "Released on " + date + " in USA"
  }

  function FinaleText(season: int, date: string): string {
    "Season " + IntToString(season) + " finale aired " + date
  }

  // ------------------------------------------------------------ movie path

  /** A release entry for the USA without notes. */
  predicate IsUsaEntry(e: ReleaseEntry) {
    e.country == "USA\n" && !Truthy(e.notes)
  }

  /** `entries[i]` is the first entry for the USA without notes. */
  ghost predicate FirstUsaEntry(entries: seq<ReleaseEntry>, i: int) {
    0 <= i < |entries| && IsUsaEntry(entries[i]) &&
    forall j :: 0 <= j < i ==> !IsUsaEntry(entries[j])
  }

  /** `[i['date'] for i in release_dates if i['country'] == 'USA\n' and not i.get('notes')]`. */
  function UsaDates(entries: seq<ReleaseEntry>): (r: seq<string>)
    ensures r == [] <==> forall i :: 0 <= i < |entries| ==> !IsUsaEntry(entries[i])
    ensures r != [] ==> exists i :: FirstUsaEntry(entries, i) && r[0] == entries[i].date
    decreases |entries|
  {
    if entries == [] then []
    else
      var rest := UsaDates(entries[1..]);
      assert forall i :: 1 <= i < |entries| ==> entries[1..][i - 1] == entries[i];
      if IsUsaEntry(entries[0]) then
        assert FirstUsaEntry(entries, 0);
        [entries[0].date] + rest
      else
        assert rest != [] ==> exists i :: FirstUsaEntry(entries, i) && rest[0] == entries[i].date by {
          if rest != [] {
            var i :| FirstUsaEntry(entries[1..], i) && rest[0] == entries[1..][i].date;
            assert FirstUsaEntry(entries, i + 1);
          }
        }
        rest
  }

  /** `Alert._get_movie_release_date`: the first USA date, gated by
      `\d{1,2}\s\w{3,9}\s\d{4}`, parsed by `%d %B %Y`, stored when still to come. */
  function MovieRelease(cat: Catalogue, store: Store, user: UserId, userName: string,
                        title: TitleId, titleName: Option<string>, now: nat): Outcome
  {
    if title !in cat.releaseDates then Crash(store)
    else
      var entries := cat.releaseDates[title];
      if entries == [] then Outcome(Message(NoReleaseDate), store)
      else
        var usa := UsaDates(entries);
        if usa != [] && MovieGate(usa[0]) then
          match ParseDate(usa[0], LongMonthNames)
          case None => Crash(store)
          case Some(d) =>
            if Midnight(d) > now then
              Outcome(Inserted, store[(user, title) := Record(userName, titleName, None, Midnight(d))])
            else Outcome(Message(ReleasedText(usa[0])), store)
        else Outcome(Message(NoUsaDate), store)
  }

  /** The first USA date is `usa[0]`, and it is the date of the only first USA entry. */
  lemma FirstUsaDate(entries: seq<ReleaseEntry>, i: int)
    requires FirstUsaEntry(entries, i)
    ensures UsaDates(entries) != [] && UsaDates(entries)[0] == entries[i].date
  {
    var usa := UsaDates(entries);
    var i0 :| FirstUsaEntry(entries, i0) && usa[0] == entries[i0].date;
  }

  /** The movie path stores a record exactly when the first USA entry passes
      the regular expression and parses to a midnight after `now`; that record
      tracks no episode and is dated at that midnight. */
  lemma MovieStoresExactlyWhen(cat: Catalogue, store: Store, user: UserId, userName: string,
                               title: TitleId, titleName: Option<string>, now: nat)
    ensures var o := MovieRelease(cat, store, user, userName, title, titleName, now);
      o.reply == Inserted <==>
        title in cat.releaseDates &&
        exists i, d :: (FirstUsaEntry(cat.releaseDates[title], i) &&
          MovieRegexMatches(cat.releaseDates[title][i].date) &&
          ParseDate(cat.releaseDates[title][i].date, LongMonthNames) == Some(d) &&
          Midnight(d) > now &&
          o.store == store[(user, title) := Record(userName, titleName, None, Midnight(d))])
  {
    var o := MovieRelease(cat, store, user, userName, title, titleName, now);
    if title in cat.releaseDates {
      var entries := cat.releaseDates[title];
      if o.reply == Inserted {
        var i, d := MovieInsertedWitness(cat, store, user, userName, title, titleName, now);
      }
      if exists i, d :: (FirstUsaEntry(entries, i) && MovieRegexMatches(entries[i].date) &&
          ParseDate(entries[i].date, LongMonthNames) == Some(d) && Midnight(d) > now) {
        var i, d :| FirstUsaEntry(entries, i) && MovieRegexMatches(entries[i].date) &&
          ParseDate(entries[i].date, LongMonthNames) == Some(d) && Midnight(d) > now;
        MovieWitnessInserts(cat, store, user, userName, title, titleName, now, i, d);
      }
    }
  }

  lemma MovieInsertedWitness(cat: Catalogue, store: Store, user: UserId, userName: string,
                             title: TitleId, titleName: Option<string>, now: nat) returns (i: int, d: Date)
    requires MovieRelease(cat, store, user, userName, title, titleName, now).reply == Inserted
    ensures title in cat.releaseDates && FirstUsaEntry(cat.releaseDates[title], i)
    ensures MovieRegexMatches(cat.releaseDates[title][i].date)
    ensures ParseDate(cat.releaseDates[title][i].date, LongMonthNames) == Some(d) && Midnight(d) > now
    ensures MovieRelease(cat, store, user, userName, title, titleName, now).store
         == store[(user, title) := Record(userName, titleName, None, Midnight(d))]
  {
    var entries := cat.releaseDates[title];
    var usa := UsaDates(entries);
    assert usa != [] && MovieGate(usa[0]) && ParseDate(usa[0], LongMonthNames).Some?;
    i :| FirstUsaEntry(entries, i) && usa[0] == entries[i].date;
    MovieGateIsRegex(usa[0]);
    d := ParseDate(usa[0], LongMonthNames).value;
    assert Midnight(d) > now;
  }

  lemma MovieWitnessInserts(cat: Catalogue, store: Store, user: UserId, userName: string,
                            title: TitleId, titleName: Option<string>, now: nat, i: int, d: Date)
    requires title in cat.releaseDates && FirstUsaEntry(cat.releaseDates[title], i)
    requires MovieRegexMatches(cat.releaseDates[title][i].date)
    requires ParseDate(cat.releaseDates[title][i].date, LongMonthNames) == Some(d) && Midnight(d) > now
    ensures MovieRelease(cat, store, user, userName, title, titleName, now)
         == Outcome(Inserted, store[(user, title) := Record(userName, titleName, None, Midnight(d))])
  {
    var entries := cat.releaseDates[title];
    FirstUsaDate(entries, i);
    MovieGateIsRegex(entries[i].date);
  }

  /** When the movie path stores nothing, the table is unchanged and the
      reply is one of its messages: no dates, no USA date, released already
      (quoting the first USA date), or the error text. */
  lemma MovieOtherwiseReplies(cat: Catalogue, store: Store, user: UserId, userName: string,
                              title: TitleId, titleName: Option<string>, now: nat)
    ensures var o := MovieRelease(cat, store, user, userName, title, titleName, now);
      o.reply != Inserted ==>
        o.store == store &&
        (o.reply == Message(NoReleaseDate) || o.reply == Message(NoUsaDate) ||
         o.reply == Message(UnexpectedError) ||
         exists i :: (FirstUsaEntry(cat.releaseDates[title], i) &&
           o.reply == Message(ReleasedText(cat.releaseDates[title][i].date))))
  {
    var o := MovieRelease(cat, store, user, userName, title, titleName, now);
    if title in cat.releaseDates && cat.releaseDates[title] != [] {
      var entries := cat.releaseDates[title];
      var usa := UsaDates(entries);
      if usa != [] && MovieGate(usa[0]) && ParseDate(usa[0], LongMonthNames).Some? {
        var i :| FirstUsaEntry(entries, i) && usa[0] == entries[i].date;
        var d := ParseDate(usa[0], LongMonthNames).value;
        if Midnight(d) <= now {
          assert o.reply == Message(ReleasedText(entries[i].date));
        }
      }
    }
  }

  // ------------------------------------------------------------ series path

  /** An episode whose air date passes the gate `\d{1,2}\s\w{3}.{0,1}\s\d{4}`. */
  predicate Gated(e: EpisodeEntry) {
    Truthy(e.airDate) && SeriesGate(e.airDate.value)
  }

  /** The air date with `.` removed, parsed by `%d %b %Y`. */
  function EpisodeDate(e: EpisodeEntry): Option<Date>
    requires Gated(e)
  {
    ParseDate(Remove(e.airDate.value, '.'), ShortMonthNames)
  }

  /** An episode the scan passes over: no usable date, or aired already and not the finale. */
  predicate Skipped(entry: (int, EpisodeEntry), count: int, now: nat) {
    !Gated(entry.1) ||
    (EpisodeDate(entry.1).Some? && Midnight(EpisodeDate(entry.1).value) < now && entry.0 != count)
  }

  /** An episode whose gated date parses to a midnight not before `now`. */
  predicate Upcoming(e: EpisodeEntry, now: nat) {
    Gated(e) && EpisodeDate(e).Some? && Midnight(EpisodeDate(e).value) >= now
  }

  /** Every episode before `eps[k]` is passed over. */
  ghost predicate SkippedBefore(eps: seq<(int, EpisodeEntry)>, k: int, count: int, now: nat) {
    0 <= k <= |eps| && forall j :: 0 <= j < k ==> Skipped(eps[j], count, now)
  }

  lemma SkippedBeforeTail(eps: seq<(int, EpisodeEntry)>, k: int, count: int, now: nat)
    requires 0 < k && SkippedBefore(eps, k, count, now)
    ensures Skipped(eps[0], count, now) && SkippedBefore(eps[1..], k - 1, count, now)
  {
    forall j | 0 <= j < k - 1 ensures Skipped(eps[1..][j], count, now) {
      assert eps[1..][j] == eps[j + 1];
    }
  }

  lemma SkippedBeforeCons(eps: seq<(int, EpisodeEntry)>, k: int, count: int, now: nat)
    requires eps != [] && Skipped(eps[0], count, now) && SkippedBefore(eps[1..], k, count, now)
    ensures SkippedBefore(eps, k + 1, count, now)
  {
    forall j | 0 < j < k + 1 ensures Skipped(eps[j], count, now) {
      assert eps[1..][j - 1] == eps[j];
    }
  }

  /** `eps[k]` is upcoming and every episode before it is passed over. */
  ghost predicate FirstUpcoming(eps: seq<(int, EpisodeEntry)>, k: int, count: int, now: nat) {
    0 <= k < |eps| && Upcoming(eps[k].1, now) && SkippedBefore(eps, k, count, now)
  }

  /** An episode that aired before `now` and whose number is the season's episode count. */
  predicate AiredFinale(entry: (int, EpisodeEntry), count: int, now: nat) {
    Gated(entry.1) && EpisodeDate(entry.1).Some? &&
    Midnight(EpisodeDate(entry.1).value) < now && entry.0 == count
  }

  /** What the loop of `_get_episode_release_date` ends with. */
  datatype Scan = ScanInsert(episode: EpisodeId, release: nat) | ScanReply(text: string) | ScanCrash

  /**
   * The loop over one season's episodes, in catalogue order.  `message` is
   * the loop's `message` variable (`None` while unassigned: returning it then
   * raises `UnboundLocalError`); `count` is `len(latest_episodes)`.
   */
  function ScanEpisodes(eps: seq<(int, EpisodeEntry)>, count: int, season: int, now: nat,
                        message: Option<string>): Scan
    decreases |eps|
  {
    if eps == [] then (if message.Some? then ScanReply(message.value) else ScanCrash)
    else
      var e := eps[0].1;
      if Gated(e) then
        match EpisodeDate(e)
        case None => ScanCrash
        case Some(d) =>
          if Midnight(d) < now then
            if eps[0].0 == count then ScanReply(FinaleText(season, Remove(e.airDate.value, '.')))
            else ScanEpisodes(eps[1..], count, season, now, message)
          else ScanInsert(e.id, Midnight(d))
      else ScanEpisodes(eps[1..], count, season, now, Some(NoEpisodeDate))
  }

  /** One step of the scan, at position `i` of the episode list. */
  lemma ScanStep(eps: seq<(int, EpisodeEntry)>, count: int, season: int, now: nat,
                 message: Option<string>, i: int)
    requires 0 <= i < |eps|
    ensures var e := eps[i].1;
      ScanEpisodes(eps[i..], count, season, now, message)
      == if !Gated(e) then ScanEpisodes(eps[i + 1..], count, season, now, Some(NoEpisodeDate))
         else if EpisodeDate(e).None? then ScanCrash
         else if Midnight(EpisodeDate(e).value) >= now then ScanInsert(e.id, Midnight(EpisodeDate(e).value))
         else if eps[i].0 == count then ScanReply(FinaleText(season, Remove(e.airDate.value, '.')))
         else ScanEpisodes(eps[i + 1..], count, season, now, message)
  {
    assert eps[i..][0] == eps[i] && eps[i..][1..] == eps[i + 1..];
  }

  /** The scan stores the first upcoming episode, provided every episode before it is passed over. */
  lemma {:induction false} ScanFindsFirstUpcoming(eps: seq<(int, EpisodeEntry)>, count: int, season: int,
                                                  now: nat, message: Option<string>, k: int)
    requires FirstUpcoming(eps, k, count, now)
    ensures ScanEpisodes(eps, count, season, now, message)
         == ScanInsert(eps[k].1.id, Midnight(EpisodeDate(eps[k].1).value))
    decreases k
  {
    if k > 0 {
      SkippedBeforeTail(eps, k, count, now);
      assert eps[1..][k - 1] == eps[k];
      ScanFindsFirstUpcoming(eps[1..], count, season, now,
        if Gated(eps[0].1) then message else Some(NoEpisodeDate), k - 1);
    }
  }

  /** Whatever the scan stores is the first upcoming episode. */
  lemma {:induction false} ScanInsertsOnlyFirstUpcoming(eps: seq<(int, EpisodeEntry)>, count: int, season: int,
                                                        now: nat, message: Option<string>)
    requires ScanEpisodes(eps, count, season, now, message).ScanInsert?
    ensures exists k :: (FirstUpcoming(eps, k, count, now) &&
      ScanEpisodes(eps, count, season, now, message)
        == ScanInsert(eps[k].1.id, Midnight(EpisodeDate(eps[k].1).value)))
    decreases |eps|
  {
    var e := eps[0].1;
    if Upcoming(e, now) {
      assert FirstUpcoming(eps, 0, count, now);
    } else {
      var next := if Gated(e) then message else Some(NoEpisodeDate);
      ScanInsertsOnlyFirstUpcoming(eps[1..], count, season, now, next);
      var k :| FirstUpcoming(eps[1..], k, count, now) &&
        ScanEpisodes(eps[1..], count, season, now, next)
          == ScanInsert(eps[1..][k].1.id, Midnight(EpisodeDate(eps[1..][k].1).value));
      assert eps[1..][k] == eps[k + 1];
      SkippedBeforeCons(eps, k, count, now);
      assert FirstUpcoming(eps, k + 1, count, now);
    }
  }

  /** Reaching an aired episode whose number is the season's episode count
      ends the scan with the finale message and stores nothing. */
  lemma {:induction false} ScanStopsAtAiredFinale(eps: seq<(int, EpisodeEntry)>, count: int, season: int,
                                                  now: nat, message: Option<string>, k: int)
    requires 0 <= k < |eps| && SkippedBefore(eps, k, count, now) && AiredFinale(eps[k], count, now)
    ensures ScanEpisodes(eps, count, season, now, message)
         == ScanReply(FinaleText(season, Remove(eps[k].1.airDate.value, '.')))
    decreases k
  {
    if k > 0 {
      SkippedBeforeTail(eps, k, count, now);
      assert eps[1..][k - 1] == eps[k];
      ScanStopsAtAiredFinale(eps[1..], count, season, now,
        if Gated(eps[0].1) then message else Some(NoEpisodeDate), k - 1);
    }
  }

  /** `Alert._get_episode_release_date`: scan the first season key's episodes. */
  function SeriesRelease(cat: Catalogue, store: Store, user: UserId, userName: string,
                         title: TitleId, titleName: Option<string>, now: nat): Outcome
  {
    if title !in cat.episodeLists then Crash(store)
    else
      var seasons := cat.episodeLists[title];
      if seasons == [] then Outcome(Message(NoEpisodes), store)
      else
        var season := seasons[0];
        match ScanEpisodes(season.episodes, |season.episodes|, season.number, now, None)
        case ScanInsert(id, release) =>
          Outcome(Inserted, store[(user, title) := Record(userName, titleName, Some(id), release)])
        case ScanReply(text) => Outcome(Message(text), store)
        case ScanCrash => Crash(store)
  }

  // ------------------------------------------------------------ enable, disable

  /** `Alert.enable`: a title with seasons takes the series path, any other the movie path. */
  function Enable(cat: Catalogue, store: Store, user: UserId, userName: string,
                  title: TitleId, now: nat): Outcome
  {
    if title !in cat.titles then Crash(store)
    else
      var info := cat.titles[title];
      if info.seasons != [] then SeriesRelease(cat, store, user, userName, title, info.longTitle, now)
      else MovieRelease(cat, store, user, userName, title, info.longTitle, now)
  }

  /** `enable` changes the table only by storing one record under (user, title):
      a series record (tracking an episode) exactly for a title with seasons,
      a movie record otherwise, and never one dated before `now`. */
  lemma EnableStoresOneRecord(cat: Catalogue, store: Store, user: UserId, userName: string,
                              title: TitleId, now: nat)
    ensures var o := Enable(cat, store, user, userName, title, now);
      && (o.reply != Inserted ==> o.store == store)
      && (o.reply == Inserted ==>
            title in cat.titles && (user, title) in o.store &&
            o.store == store[(user, title) := o.store[(user, title)]] &&
            o.store[(user, title)].titleName == cat.titles[title].longTitle &&
            (o.store[(user, title)].episode.Some? <==> cat.titles[title].seasons != []) &&
            o.store[(user, title)].release >= now &&
            (cat.titles[title].seasons == [] ==> o.store[(user, title)].release > now))
  {
    var o := Enable(cat, store, user, userName, title, now);
    if title in cat.titles {
      var info := cat.titles[title];
      if info.seasons == [] {
        assert o == MovieRelease(cat, store, user, userName, title, info.longTitle, now);
        if o.reply == Inserted {
          var i, d := MovieInsertedWitness(cat, store, user, userName, title, info.longTitle, now);
        } else {
          MovieOtherwiseReplies(cat, store, user, userName, title, info.longTitle, now);
        }
      } else {
        assert o == SeriesRelease(cat, store, user, userName, title, info.longTitle, now);
        if title in cat.episodeLists && cat.episodeLists[title] != [] {
          var season := cat.episodeLists[title][0];
          var scan := ScanEpisodes(season.episodes, |season.episodes|, season.number, now, None);
          if scan.ScanInsert? {
            ScanInsertsOnlyFirstUpcoming(season.episodes, |season.episodes|, season.number, now, None);
            assert o.store == store[(user, title) := Record(userName, info.longTitle, Some(scan.episode), scan.release)];
          }
        }
      }
    }
  }

  /** `Alert.disable`: delete the (user, title) record, answer what the table answered. */
  function Disable(store: Store, user: UserId, title: TitleId): (o: Outcome)
    ensures (user, title) !in o.store
    ensures forall k :: k != (user, title) ==> (k in o.store <==> k in store)
    ensures forall k :: k in o.store ==> o.store[k] == store[k]
  {
    Outcome(Deleted, store - {(user, title)})
  }

  /** Enabling and then disabling an alert leaves the table without that
      record and otherwise as it was. */
  lemma EnableThenDisable(cat: Catalogue, store: Store, user: UserId, userName: string,
                          title: TitleId, now: nat)
    ensures Disable(Enable(cat, store, user, userName, title, now).store, user, title).store
         == store - {(user, title)}
  {
    EnableStoresOneRecord(cat, store, user, userName, title, now);
  }

  // ------------------------------------------------------------ title_name

  /** What `query_title_name` answered: a list of names, or a text in its place. */
  datatype NameQuery = Names(names: seq<string>) | NameText(text: string)

  const NoAlerts: string := "No alerts enabled.\n\nType /help for info on enabling alerts."
  const AlertsHeader: string := "<b>Alerts enabled for:</b>\n\n"

  /** `Alert.title_name`: the user's alert titles, one per line after a header. */
  function TitleNameMessage(q: NameQuery): (r: string)
    ensures q == Names([]) || q == NameText("") ==> r == NoAlerts
    ensures q.NameText? && q.text != "" ==> r == q.text
  {
    match q
    case Names(names) => if names == [] then NoAlerts else AlertsHeader + Join(names, '\n')
    case NameText(text) => if text == "" then NoAlerts else text
  }

  /** The listing names each title on its own line, in the order given. */
  lemma TitleNamesListed(names: seq<string>)
    requires names != []
    requires forall i :: 0 <= i < |names| ==> '\n' !in names[i]
    ensures var r := TitleNameMessage(Names(names));
      |AlertsHeader| <= |r| && r[..|AlertsHeader|] == AlertsHeader &&
      Split(r[|AlertsHeader|..], '\n') == names
  {
    var r := TitleNameMessage(Names(names));
    assert r[|AlertsHeader|..] == Join(names, '\n');
    SplitJoin(names, '\n');
  }
}
