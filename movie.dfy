/**
 * The `Alert` class: its methods read the catalogue and update the alerts
 * table in place.  Each method is proved to leave the table, and to return,
 * exactly what the corresponding function of `Release` or `Scheduler` says.
 */
module Movie {
  import opened PyText
  import opened DateText
  import opened Metadata
  import Release
  import Scheduler

  class Alert {
    /** The answers of `imdb_api`. */
    const cat: Catalogue
    /** The alerts table behind `db_api`. */
    var store: Store

    /** `Alert(db_location)`: the table is whatever the database already holds. */
    constructor (cat: Catalogue, initial: Store)
      ensures this.cat == cat && store == initial
    {
      this.cat := cat;
      store := initial;
    }

    /** `_get_movie_release_date`: store the movie when its USA date is still to come. */
    method GetMovieReleaseDate(user: UserId, userName: string, title: TitleId,
                               titleName: Option<string>, now: nat) returns (r: Reply)
      modifies this
      ensures Release.Outcome(r, store)
           == Release.MovieRelease(cat, old(store), user, userName, title, titleName, now)
    {
      if title !in cat.releaseDates {
        return Message(UnexpectedError);
      }
      var releaseDates := cat.releaseDates[title];
      if releaseDates == [] {
        return Message(Release.NoReleaseDate);
      }
      var usa := Release.UsaDates(releaseDates);
      if usa == [] || !MovieGate(usa[0]) {
        return Message(Release.NoUsaDate);
      }
      var releaseDate := ParseDate(usa[0], LongMonthNames);
      if releaseDate.None? {
        return Message(UnexpectedError);
      }
      var release := Midnight(releaseDate.value);
      if release > now {
        store := store[(user, title) := Record(userName, titleName, None, release)];
        r := Inserted;
      } else {
        r := Message(Release.ReleasedText(usa[0]));
      }
    }

    /** `_get_episode_release_date`: walk the first season's episodes and store
        the first one still to air, or report the finale or the missing date. */
    method GetEpisodeReleaseDate(user: UserId, userName: string, title: TitleId,
                                 titleName: Option<string>, now: nat) returns (r: Reply)
      modifies this
      ensures Release.Outcome(r, store)
           == Release.SeriesRelease(cat, old(store), user, userName, title, titleName, now)
    {
      if title !in cat.episodeLists {
        return Message(UnexpectedError);
      }
      var seasons := cat.episodeLists[title];
      if seasons == [] {
        return Message(Release.NoEpisodes);
      }
      var season := seasons[0];
      var eps := season.episodes;
      var count := |eps|;
      var message: Option<string> := None;
      var i := 0;
      while i < |eps|
        invariant 0 <= i <= |eps|
        invariant store == old(store)
        invariant Release.ScanEpisodes(eps, count, season.number, now, None)
               == Release.ScanEpisodes(eps[i..], count, season.number, now, message)
      {
        var (epNo, ep) := eps[i];
        Release.ScanStep(eps, count, season.number, now, message, i);
        if Release.Gated(ep) {
          var releaseDate := Release.EpisodeDate(ep);
          if releaseDate.None? {
            return Message(UnexpectedError);
          }
          if Midnight(releaseDate.value) < now {
            if epNo == count {
              return Message(Release.FinaleText(season.number, Remove(ep.airDate.value, '.')));
            }
          } else {
            store := store[(user, title) := Record(userName, titleName, Some(ep.id), Midnight(releaseDate.value))];
            return Inserted;
          }
        } else {
          message := Some(Release.NoEpisodeDate);
        }
        i := i + 1;
      }
      if message.None? {
        return Message(UnexpectedError);
      }
      r := Message(message.value);
    }

    /** `_update_episode`: point the alert at the next episode, or look again in a week, or delete it. */
    method UpdateEpisode(user: UserId, title: TitleId, curId: EpisodeId, cur: EpisodeDetail, now: nat)
      returns (r: Scheduler.Advance)
      modifies this
      ensures Scheduler.Advancement(r, store)
           == Scheduler.AdvanceSpec(cat, old(store), user, title, curId, cur, now)
    {
      if !Truthy(cur.next) {
        store := store - {(user, title)};
        return Scheduler.NoNext;
      }
      var nextId := cur.next.value;
      if nextId !in cat.episodes {
        return Scheduler.AdvanceFailed;
      }
      var nextRelease := cat.episodes[nextId].airDate;
      var release: nat;
      if Scheduler.GatedDate(nextRelease) {
        var releaseDate := Scheduler.AirDate(nextRelease.value);
        if releaseDate.None? {
          return Scheduler.AdvanceFailed;
        }
        release := Midnight(releaseDate.value);
      } else {
        release := WeekLater(now);
        nextId := curId;
      }
      store := Scheduler.Update(store, (user, title), nextId, release);
      r := Scheduler.Advanced(nextId);
    }

    /** `enable`: the series path for a title with seasons, the movie path otherwise. */
    method Enable(user: UserId, userName: string, title: TitleId, now: nat) returns (r: Reply)
      modifies this
      ensures Release.Outcome(r, store) == Release.Enable(cat, old(store), user, userName, title, now)
    {
      if title !in cat.titles {
        return Message(UnexpectedError);
      }
      var info := cat.titles[title];
      if info.seasons != [] {
        r := GetEpisodeReleaseDate(user, userName, title, info.longTitle, now);
      } else {
        r := GetMovieReleaseDate(user, userName, title, info.longTitle, now);
      }
    }

    /** `disable`: delete the user's alert for the title. */
    method Disable(user: UserId, title: TitleId) returns (r: Reply)
      modifies this
      ensures Release.Outcome(r, store) == Release.Disable(old(store), user, title)
    {
      store := store - {(user, title)};
      r := Deleted;
    }

    /** `notify`: handle every released row in order, collecting the alerts to send. */
    method Notify(q: Scheduler.Released, now: nat) returns (r: Scheduler.NotifyResult)
      modifies this
      ensures Scheduler.Notified(r, store) == Scheduler.NotifySpec(cat, old(store), q, now)
    {
      var alerts: seq<Scheduler.Notification> := [];
      if q.NotRows? || q.rows == [] {
        return Scheduler.Alerts(alerts);
      }
      var rows := q.rows;
      var i := 0;
      while i < |rows|
        invariant 0 <= i <= |rows|
        invariant Scheduler.RunRows(cat, old(store), rows[..i], now) == Scheduler.Pass(alerts, store, false)
      {
        var row := rows[i];
        assert rows[..i + 1][..i] == rows[..i];
        if Truthy(row.episode) {
          var eid := row.episode.value;
          var currentRelease := Scheduler.CurrentRelease(cat, eid);
          if currentRelease.None? {
            Scheduler.CrashAt(cat, old(store), rows, i, now);
            return Scheduler.Failed(UnexpectedError);
          }
          var next := UpdateEpisode(row.user, row.title, eid, cat.episodes[eid], now);
          if next == Scheduler.NoNext {
            alerts := alerts + [Scheduler.Notification(row.user, Scheduler.SeriesFinale(eid))];
          } else if Midnight(currentRelease.value) == StartOfDay(now) {
            alerts := alerts + [Scheduler.Notification(row.user, Scheduler.EpisodeOut(eid))];
          }
        } else {
          if row.title !in cat.titles {
            Scheduler.CrashAt(cat, old(store), rows, i, now);
            return Scheduler.Failed(UnexpectedError);
          }
          store := store - {(row.user, row.title)};
          alerts := alerts + [Scheduler.Notification(row.user, Scheduler.MovieOut(row.title))];
        }
        i := i + 1;
      }
      assert rows[..i] == rows;
      r := Scheduler.Alerts(alerts);
    }
  }
}
