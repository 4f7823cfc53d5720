/**
 * `movie.py` calls `match(date_regex, …)` in three places but never imports
 * it (only `re.match` would fit), so as written each call raises `NameError`,
 * which `_catch_and_log` turns into the error reply.  The members here model
 * the three paths as written and exhibit an input on which each differs from
 * the intended behaviour that `Release` and `Scheduler` model.
 */
module AsWritten {
  import opened PyText
  import opened DateText
  import opened Metadata
  import opened Release
  import opened Scheduler

  // ------------------------------------------------------------ movie path

  /** `_get_movie_release_date` as written: evaluating the gate raises once a USA date exists. */
  function MovieReleaseAsWritten(cat: Catalogue, store: Store, user: UserId, userName: string,
                                 title: TitleId, titleName: Option<string>, now: nat): (o: Outcome)
    ensures o.store == store && o.reply != Inserted
  {
    if title !in cat.releaseDates then Crash(store)
    else
      var entries := cat.releaseDates[title];
      if entries == [] then Outcome(Message(NoReleaseDate), store)
      else if UsaDates(entries) == [] then Outcome(Message(NoUsaDate), store)
      else Crash(store)
  }

  /** A movie whose only release entry is a USA date that passes the gate,
      parses and is still to come (such as `4 July 2099`, by
      `MovieGateAcceptsFormatted` and `ParseFormatted`) gets an alert from the
      intended code and the error reply from the code as written. */
  lemma MovieMatchUnbound(cat: Catalogue, title: TitleId, date: string, d: Date, now: nat)
    requires title in cat.releaseDates && cat.releaseDates[title] == [ReleaseEntry("USA\n", date, None)]
    requires MovieGate(date) && ParseDate(date, LongMonthNames) == Some(d) && Midnight(d) > now
    ensures MovieRelease(cat, map[], 7, "Ann", title, None, now).reply == Inserted
    ensures MovieReleaseAsWritten(cat, map[], 7, "Ann", title, None, now).reply == Message(UnexpectedError)
  {
    var entries := cat.releaseDates[title];
    assert UsaDates(entries) == [date] by {
      assert IsUsaEntry(entries[0]);
      assert entries[1..] == [];
    }
  }

  // ------------------------------------------------------------ series path

  /** The episode loop of `_get_episode_release_date` as written: the first
      episode with an air date raises. */
  function ScanAsWritten(eps: seq<(int, EpisodeEntry)>, message: Option<string>): (r: Scan)
    ensures !r.ScanInsert?
    decreases |eps|
  {
    if eps == [] then (if message.Some? then ScanReply(message.value) else ScanCrash)
    else if Truthy(eps[0].1.airDate) then ScanCrash
    else ScanAsWritten(eps[1..], Some(NoEpisodeDate))
  }

  /** An episode whose air date passes the gate and, once `.` is removed,
      parses to a day still to come (such as `4 Jul. 2099`, by
      `SeriesGateAcceptsFormatted` and `ParseFormatted`) is stored by the
      intended loop and makes the loop as written raise. */
  lemma EpisodeMatchUnbound(ep: EpisodeEntry, d: Date, now: nat)
    requires ep.airDate.Some? && SeriesGate(ep.airDate.value)
    requires ParseDate(Remove(ep.airDate.value, '.'), ShortMonthNames) == Some(d) && Midnight(d) >= now
    ensures ScanEpisodes([(1, ep)], 1, 1, now, None) == ScanInsert(ep.id, Midnight(d))
    ensures ScanAsWritten([(1, ep)], None) == ScanCrash
  {
    assert Truthy(ep.airDate) by {
      assert RunEnd(ep.airDate.value, 0, Digits) >= 1;
    }
  }

  // ------------------------------------------------------------ _update_episode

  /** `_update_episode` as written: a next episode with an air date raises, so
      an alert never moves on to a dated next episode. */
  function AdvanceAsWritten(cat: Catalogue, store: Store, user: UserId, title: TitleId,
                            curId: EpisodeId, cur: EpisodeDetail, now: nat): (a: Advancement)
    ensures a.result.Advanced? ==> a.result.id == curId
  {
    if !Truthy(cur.next) then Advancement(NoNext, store - {(user, title)})
    else
      var nid := cur.next.value;
      if nid !in cat.episodes then Advancement(AdvanceFailed, store)
      else if Truthy(cat.episodes[nid].airDate) then Advancement(AdvanceFailed, store)
      else Advancement(Advanced(curId), Update(store, (user, title), curId, WeekLater(now)))
  }

  /** For any alert in the table whose next episode has an air date that
      passes the gate and, once `,` is removed, parses (such as `4 Jul 2099`),
      the intended code moves the alert to that episode and its date, while
      the code as written fails and leaves the alert where it was. */
  lemma NextEpisodeMatchUnbound(cat: Catalogue, store: Store, user: UserId, title: TitleId,
                                curId: EpisodeId, cur: EpisodeDetail, d: Date, now: nat)
    requires Truthy(cur.next) && cur.next.value in cat.episodes
    requires (user, title) in store
    requires var air := cat.episodes[cur.next.value].airDate;
      air.Some? && SeriesGate(air.value) && ParseDate(Remove(air.value, ','), ShortMonthNames) == Some(d)
    ensures var a := AdvanceSpec(cat, store, user, title, curId, cur, now);
      && a.result == Advanced(cur.next.value)
      && (user, title) in a.store
      && a.store[(user, title)].episode == Some(cur.next.value)
      && a.store[(user, title)].release == Midnight(d)
    ensures AdvanceAsWritten(cat, store, user, title, curId, cur, now) == Advancement(AdvanceFailed, store)
  {
    var air := cat.episodes[cur.next.value].airDate;
    assert Truthy(air) by {
      assert RunEnd(air.value, 0, Digits) >= 1;
    }
    AdvanceCases(cat, store, user, title, curId, cur, now);
  }
}
