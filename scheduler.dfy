/**
 * What `Alert._update_episode` and `Alert.notify` do, as functions of the
 * catalogue, the alerts table, the rows `query_released` answered and the
 * current instant.
 *
 * `_update_episode` is itself wrapped by `_catch_and_log`: when it fails it
 * returns the (truthy) error text, which `notify` then treats like an episode id.
 */
module Scheduler {
  import opened PyText
  import opened DateText
  import opened Metadata

  // ------------------------------------------------------------ _update_episode

  /** What `_update_episode` returns: the episode id it stored, a falsy id
      (no next episode, the alert was deleted), or the error text. */
  datatype Advance = Advanced(id: EpisodeId) | NoNext | AdvanceFailed

  datatype Advancement = Advancement(result: Advance, store: Store)

  /** The table's `update`: rewrite the episode and date of an existing record; no record, no change. */
  function Update(store: Store, key: Key, episode: EpisodeId, release: nat): Store {
    if key in store then store[key := store[key].(episode := Some(episode), release := release)]
    else store
  }

  /** An air date that passes the gate `\d{1,2}\s\w{3}.{0,1}\s\d{4}`. */
  predicate GatedDate(airDate: Option<string>) {
    Truthy(airDate) && SeriesGate(airDate.value)
  }

  /** An air date with `,` removed, parsed by `%d %b %Y`. */
  function AirDate(airDate: string): Option<Date> {
    ParseDate(Remove(airDate, ','), ShortMonthNames)
  }

  /**
   * `Alert._update_episode(user, title, current)` where `current` is the
   * catalogue's answer for the episode `curId`: move the alert to the next
   * episode and its air date, or keep the current episode and look again at
   * the midnight a week from now, or delete the alert when there is no next
   * episode.
   */
  function AdvanceSpec(cat: Catalogue, store: Store, user: UserId, title: TitleId,
                       curId: EpisodeId, cur: EpisodeDetail, now: nat): Advancement
  {
    if !Truthy(cur.next) then Advancement(NoNext, store - {(user, title)})
    else
      var nid := cur.next.value;
      if nid !in cat.episodes then Advancement(AdvanceFailed, store)
      else
        var air := cat.episodes[nid].airDate;
        if GatedDate(air) then
          match AirDate(air.value)
          case None => Advancement(AdvanceFailed, store)
          case Some(d) => Advancement(Advanced(nid), Update(store, (user, title), nid, Midnight(d)))
        else Advancement(Advanced(curId), Update(store, (user, title), curId, WeekLater(now)))
  }

  /**
   * The advance touches no other record and adds none; it deletes the record
   * exactly when there is no next episode, leaves the table as it was when it
   * fails, and otherwise points an existing record at the episode it returns:
   * the next one, dated at its air date, or the current one, dated at the
   * midnight a week from now.
   */
  lemma AdvanceOutcomes(cat: Catalogue, store: Store, user: UserId, title: TitleId,
                        curId: EpisodeId, cur: EpisodeDetail, now: nat)
    ensures var a := AdvanceSpec(cat, store, user, title, curId, cur, now);
      && (forall k :: k != (user, title) ==> (k in a.store <==> k in store))
      && (forall k :: k in a.store && k != (user, title) ==> a.store[k] == store[k])
      && (a.result == NoNext <==> !Truthy(cur.next))
      && (a.result == NoNext ==> (user, title) !in a.store)
      && (a.result == AdvanceFailed ==> a.store == store)
      && (a.result.Advanced? ==>
            ((user, title) in a.store <==> (user, title) in store) &&
            ((user, title) in a.store ==>
               a.store[(user, title)].episode == Some(a.result.id) &&
               a.store[(user, title)].userName == store[(user, title)].userName &&
               a.store[(user, title)].titleName == store[(user, title)].titleName &&
               ((a.result.id == curId && a.store[(user, title)].release == WeekLater(now)) ||
                (a.result.id == cur.next.value && a.result.id in cat.episodes &&
                 GatedDate(cat.episodes[a.result.id].airDate) &&
                 AirDate(cat.episodes[a.result.id].airDate.value).Some? &&
                 a.store[(user, title)].release
                   == Midnight(AirDate(cat.episodes[a.result.id].airDate.value).value)))))
  {
  }

  /**
   * Which way the advance goes once a next episode is named: an unknown next
   * episode, or an air date that passes the gate but does not parse, fails
   * and changes nothing; an air date that fails the gate keeps the current
   * episode and looks again at the midnight a week on; a readable air date
   * moves the alert to the next episode at that date.  Only an existing
   * record is rewritten.
   */
  lemma AdvanceCases(cat: Catalogue, store: Store, user: UserId, title: TitleId,
                     curId: EpisodeId, cur: EpisodeDetail, now: nat)
    requires Truthy(cur.next)
    ensures var a := AdvanceSpec(cat, store, user, title, curId, cur, now);
      var key, nid := (user, title), cur.next.value;
      && (nid !in cat.episodes ==> a == Advancement(AdvanceFailed, store))
      && (nid in cat.episodes && !GatedDate(cat.episodes[nid].airDate) ==>
            a.result == Advanced(curId) &&
            a.store == (if key in store
                        then store[key := store[key].(episode := Some(curId), release := WeekLater(now))]
                        else store))
      && ((nid in cat.episodes && GatedDate(cat.episodes[nid].airDate) &&
           AirDate(cat.episodes[nid].airDate.value).None?) ==> a == Advancement(AdvanceFailed, store))
      && ((nid in cat.episodes && GatedDate(cat.episodes[nid].airDate) &&
           AirDate(cat.episodes[nid].airDate.value).Some?) ==>
            var release := Midnight(AirDate(cat.episodes[nid].airDate.value).value);
            a.result == Advanced(nid) &&
            a.store == (if key in store
                        then store[key := store[key].(episode := Some(nid), release := release)]
                        else store))
  {
  }

  /** The error outcome is never falsy: only a missing next episode reads as "series ended". */
  lemma AdvanceNextIsTruthy(cat: Catalogue, store: Store, user: UserId, title: TitleId,
                            curId: EpisodeId, cur: EpisodeDetail, now: nat)
    requires Truthy(cur.next)
    ensures AdvanceSpec(cat, store, user, title, curId, cur, now).result != NoNext
  {
  }

  // ------------------------------------------------------------ notify

  /** What an alert says; the rendered text (`reply_message` of the title's fields) is left out. */
  datatype Notice = MovieOut(title: TitleId) | SeriesFinale(episode: EpisodeId) | EpisodeOut(episode: EpisodeId)

  datatype Notification = Notification(user: UserId, notice: Notice)

  /** One row handled: the alerts it adds and the table after it, or an exception. */
  datatype RowOutcome = RowDone(notes: seq<Notification>, store: Store) | RowCrash

  /** The air date of the row's episode as `notify` reads it (`,` removed,
      `%d %b %Y`); `None` when reading it raises: an unknown episode, no date,
      or a date `strptime` refuses. */
  function CurrentRelease(cat: Catalogue, eid: EpisodeId): Option<Date> {
    if eid !in cat.episodes || cat.episodes[eid].airDate.None? then None
    else AirDate(cat.episodes[eid].airDate.value)
  }

  /** A series row whose episode aired on `cd`: advance the alert, then
      announce the finale when there is no next episode, or the episode when
      it aired today. */
  function SeriesRow(cat: Catalogue, store: Store, row: Row, eid: EpisodeId, cd: Date, now: nat): (o: RowOutcome)
    requires eid in cat.episodes && ValidDate(cd)
    ensures o.RowDone?
  {
    var a := AdvanceSpec(cat, store, row.user, row.title, eid, cat.episodes[eid], now);
    if a.result == NoNext then RowDone([Notification(row.user, SeriesFinale(eid))], a.store)
    else if Midnight(cd) == StartOfDay(now) then RowDone([Notification(row.user, EpisodeOut(eid))], a.store)
    else RowDone([], a.store)
  }

  /** One iteration of the loop in `Alert.notify`: a series row is handled by
      `SeriesRow` once its episode's date is read; a movie row announces the
      movie (an exception when the title is unknown) and deletes the alert. */
  function RowSpec(cat: Catalogue, store: Store, row: Row, now: nat): RowOutcome {
    if Truthy(row.episode) then
      match CurrentRelease(cat, row.episode.value)
      case None => RowCrash
      case Some(cd) => SeriesRow(cat, store, row, row.episode.value, cd, now)
    else if row.title !in cat.titles then RowCrash
    else RowDone([Notification(row.user, MovieOut(row.title))], store - {(row.user, row.title)})
  }

  /** The loop's state: alerts so far, the table, and whether an exception ended the loop. */
  datatype Pass = Pass(notes: seq<Notification>, store: Store, crashed: bool)

  /** The loop of `notify` over `rows`; an exception ends it with the table as the earlier rows left it. */
  function RunRows(cat: Catalogue, store: Store, rows: seq<Row>, now: nat): Pass
    decreases |rows|
  {
    if rows == [] then Pass([], store, false)
    else
      var p := RunRows(cat, store, rows[..|rows| - 1], now);
      if p.crashed then p
      else
        match RowSpec(cat, p.store, rows[|rows| - 1], now)
        case RowCrash => Pass(p.notes, p.store, true)
        case RowDone(notes, s) => Pass(p.notes + notes, s, false)
  }

  /** What `query_released(today)` answered: a list of rows, or something else (an error text). */
  datatype Released = Rows(rows: seq<Row>) | NotRows(text: string)

  /** What `notify` returns: the alerts to send, or the error text in their place. */
  datatype NotifyResult = Alerts(notes: seq<Notification>) | Failed(text: string)

  datatype Notified = Notified(result: NotifyResult, store: Store)

  /** `Alert.notify`. */
  function NotifySpec(cat: Catalogue, store: Store, q: Released, now: nat): Notified {
    if q.NotRows? || q.rows == [] then Notified(Alerts([]), store)
    else
      var p := RunRows(cat, store, q.rows, now);
      if p.crashed then Notified(Failed(UnexpectedError), p.store)
      else Notified(Alerts(p.notes), p.store)
  }

  // ------------------------------------------------------------ properties of notify

  /** The key of a row's record. */
  function KeyOf(row: Row): Key {
    (row.user, row.title)
  }

  /**
   * A handled row adds at most one alert, addressed to the row's user; it
   * changes no other record and adds none; a movie row announces the movie
   * and deletes its record; a series finale deletes its record; an episode is
   * announced only when its air date is today.
   */
  lemma RowOutcomes(cat: Catalogue, store: Store, row: Row, now: nat)
    ensures match RowSpec(cat, store, row, now)
      case RowCrash => true
      case RowDone(notes, s) =>
        && |notes| <= 1
        && (forall i :: 0 <= i < |notes| ==> notes[i].user == row.user)
        && (forall k :: k != KeyOf(row) ==> (k in s <==> k in store))
        && (forall k :: k in s && k != KeyOf(row) ==> s[k] == store[k])
        && s.Keys <= store.Keys
        && (!Truthy(row.episode) ==> notes == [Notification(row.user, MovieOut(row.title))] && KeyOf(row) !in s)
        && (forall i :: 0 <= i < |notes| && notes[i].notice.SeriesFinale? ==> KeyOf(row) !in s)
        && (forall i :: 0 <= i < |notes| && notes[i].notice.EpisodeOut? ==>
              Truthy(row.episode) && notes[i].notice.episode == row.episode.value &&
              CurrentRelease(cat, row.episode.value).Some? &&
              Midnight(CurrentRelease(cat, row.episode.value).value) == StartOfDay(now))
  {
    if Truthy(row.episode) && row.episode.value in cat.episodes {
      var eid := row.episode.value;
      AdvanceOutcomes(cat, store, row.user, row.title, eid, cat.episodes[eid], now);
    }
  }

  /** Whether a row raises: a series row exactly when its episode's air date
      cannot be read, a movie row exactly when the title is unknown. */
  lemma RowRaisesExactlyWhen(cat: Catalogue, store: Store, row: Row, now: nat)
    ensures RowSpec(cat, store, row, now).RowCrash? <==>
      if Truthy(row.episode) then CurrentRelease(cat, row.episode.value).None?
      else row.title !in cat.titles
  {
  }

  /**
   * A series row whose air date was read leaves the table as the advance
   * does; it announces the finale exactly when there is no next episode, and
   * otherwise announces the episode exactly when it aired today.
   */
  lemma SeriesRowOutcomes(cat: Catalogue, store: Store, row: Row, now: nat)
    requires Truthy(row.episode)
    requires CurrentRelease(cat, row.episode.value).Some?
    ensures var eid, o := row.episode.value, RowSpec(cat, store, row, now);
      && eid in cat.episodes
      && o.RowDone?
      && o.store == AdvanceSpec(cat, store, row.user, row.title, eid, cat.episodes[eid], now).store
      && (!Truthy(cat.episodes[eid].next) ==> o.notes == [Notification(row.user, SeriesFinale(eid))])
      && (Truthy(cat.episodes[eid].next) ==>
            o.notes == (if Midnight(CurrentRelease(cat, eid).value) == StartOfDay(now)
                        then [Notification(row.user, EpisodeOut(eid))] else []))
  {
    var eid := row.episode.value;
    AdvanceOutcomes(cat, store, row.user, row.title, eid, cat.episodes[eid], now);
  }

  /** What the advance returns does not depend on the table. */
  lemma AdvanceResultIgnoresStore(cat: Catalogue, s1: Store, s2: Store, user: UserId, title: TitleId,
                                  curId: EpisodeId, cur: EpisodeDetail, now: nat)
    ensures AdvanceSpec(cat, s1, user, title, curId, cur, now).result
         == AdvanceSpec(cat, s2, user, title, curId, cur, now).result
  {
  }

  /** Whether a row raises does not depend on the table. */
  lemma RowCrashIgnoresStore(cat: Catalogue, s1: Store, s2: Store, row: Row, now: nat)
    ensures RowSpec(cat, s1, row, now).RowCrash? == RowSpec(cat, s2, row, now).RowCrash?
  {
  }

  /** What a row announces does not depend on the table. */
  lemma RowNoticesIgnoreStore(cat: Catalogue, s1: Store, s2: Store, row: Row, now: nat)
    requires RowSpec(cat, s1, row, now).RowDone?
    ensures RowSpec(cat, s2, row, now).RowDone?
    ensures RowSpec(cat, s1, row, now).notes == RowSpec(cat, s2, row, now).notes
  {
    if Truthy(row.episode) {
      var eid := row.episode.value;
      AdvanceResultIgnoresStore(cat, s1, s2, row.user, row.title, eid, cat.episodes[eid], now);
    }
  }

  /** Once an exception ends the loop, later rows change nothing. */
  lemma {:induction false} CrashSticks(cat: Catalogue, store: Store, rows: seq<Row>, more: seq<Row>, now: nat)
    requires RunRows(cat, store, rows, now).crashed
    ensures RunRows(cat, store, rows + more, now) == RunRows(cat, store, rows, now)
    decreases |more|
  {
    if more == [] {
      assert rows + more == rows;
    } else {
      var all := rows + more;
      assert all[..|all| - 1] == rows + more[..|more| - 1];
      CrashSticks(cat, store, rows, more[..|more| - 1], now);
    }
  }

  /** An exception at row `i` ends the whole loop there, with the alerts and table of the rows before it. */
  lemma CrashAt(cat: Catalogue, store: Store, rows: seq<Row>, i: int, now: nat)
    requires 0 <= i < |rows|
    requires !RunRows(cat, store, rows[..i], now).crashed
    requires RowSpec(cat, RunRows(cat, store, rows[..i], now).store, rows[i], now).RowCrash?
    ensures RunRows(cat, store, rows, now)
         == Pass(RunRows(cat, store, rows[..i], now).notes, RunRows(cat, store, rows[..i], now).store, true)
  {
    assert rows[..i + 1][..i] == rows[..i];
    CrashSticks(cat, store, rows[..i + 1], rows[i + 1..], now);
    assert rows[..i + 1] + rows[i + 1..] == rows;
  }

  /** The loop adds at most one alert per row, each to the user of some row. */
  lemma {:induction false} NotesPerRow(cat: Catalogue, store: Store, rows: seq<Row>, now: nat)
    ensures var p := RunRows(cat, store, rows, now);
      |p.notes| <= |rows| &&
      forall i :: 0 <= i < |p.notes| ==> exists j :: 0 <= j < |rows| && p.notes[i].user == rows[j].user
    decreases |rows|
  {
    if rows != [] {
      var init := rows[..|rows| - 1];
      var last := rows[|rows| - 1];
      NotesPerRow(cat, store, init, now);
      var p := RunRows(cat, store, init, now);
      if !p.crashed {
        RowOutcomes(cat, p.store, last, now);
        var q := RunRows(cat, store, rows, now);
        forall i | 0 <= i < |q.notes| ensures exists j :: 0 <= j < |rows| && q.notes[i].user == rows[j].user {
          if i < |p.notes| {
            var j :| 0 <= j < |init| && p.notes[i].user == init[j].user;
            assert rows[j] == init[j];
          } else {
            assert q.notes[i].user == last.user;
          }
        }
      }
    }
  }

  /** No row of `rows` is about the record under `k`. */
  predicate Unnamed(rows: seq<Row>, k: Key) {
    forall j :: 0 <= j < |rows| ==> KeyOf(rows[j]) != k
  }

  /** The loop never adds a record, and a record no row names is left as it was. */
  lemma {:induction false} RunRowsFrame(cat: Catalogue, store: Store, rows: seq<Row>, now: nat)
    ensures var p := RunRows(cat, store, rows, now);
      && p.store.Keys <= store.Keys
      && (forall k :: Unnamed(rows, k) ==>
            (k in p.store <==> k in store) && (k in store ==> p.store[k] == store[k]))
    decreases |rows|
  {
    if rows != [] {
      var init := rows[..|rows| - 1];
      RunRowsFrame(cat, store, init, now);
      var p := RunRows(cat, store, init, now);
      if !p.crashed {
        RowOutcomes(cat, p.store, rows[|rows| - 1], now);
        forall k | Unnamed(rows, k) ensures Unnamed(init, k) {
          forall j | 0 <= j < |init| ensures KeyOf(init[j]) != k {
            assert init[j] == rows[j];
          }
        }
      }
    }
  }

  /** When the loop runs to the end, no record of a movie row is left. */
  lemma {:induction false} MovieRowsEndDeleted(cat: Catalogue, store: Store, rows: seq<Row>, now: nat)
    requires !RunRows(cat, store, rows, now).crashed
    ensures forall j :: 0 <= j < |rows| && !Truthy(rows[j].episode) ==>
              KeyOf(rows[j]) !in RunRows(cat, store, rows, now).store
    decreases |rows|
  {
    if rows != [] {
      var init := rows[..|rows| - 1];
      var last := rows[|rows| - 1];
      var p := RunRows(cat, store, init, now);
      MovieRowsEndDeleted(cat, store, init, now);
      RowOutcomes(cat, p.store, last, now);
      var q := RunRows(cat, store, rows, now);
      forall j | 0 <= j < |rows| && !Truthy(rows[j].episode) ensures KeyOf(rows[j]) !in q.store {
        if j < |init| {
          assert rows[j] == init[j];
        }
      }
    }
  }

  /** `notify` fails only with the error text, after an exception in some row; it changes no record no row names. */
  lemma NotifyOutcomes(cat: Catalogue, store: Store, q: Released, now: nat)
    ensures var n := NotifySpec(cat, store, q, now);
      && (n.result.Failed? ==>
            (n.result.text == UnexpectedError && q.Rows? && RunRows(cat, store, q.rows, now).crashed))
      && (q.Rows? && RunRows(cat, store, q.rows, now).crashed ==> n.result == Failed(UnexpectedError))
      && (q.NotRows? || q == Rows([]) ==> n == Notified(Alerts([]), store))
      && n.store.Keys <= store.Keys
      && (q.Rows? ==> forall k :: Unnamed(q.rows, k) ==>
            (k in n.store <==> k in store) && (k in store ==> n.store[k] == store[k]))
  {
    if q.Rows? {
      RunRowsFrame(cat, store, q.rows, now);
    }
  }

  // ------------------------------------------------------------ dotted months

  /** `str(day) + ' ' + month + '.' + ' ' + str(year)` holds no `,`, and
      dropping its `.` leaves the undotted date. */
  lemma DottedDate(d: Date, month: string)
    requires ValidDate(d) && AllIn(month, Words)
    ensures ',' !in FormatDate(d, month + ".")
    ensures Remove(FormatDate(d, month + "."), '.') == FormatDate(d, month)
  {
    var ds, ys := NatToString(d.day), NatToString(d.year);
    var a, b := ds + " " + month, " " + ys;
    assert FormatDate(d, month + ".") == a + ['.'] + b;
    assert FormatDate(d, month) == a + b;
    NotInRun(ds, Digits, '.');
    NotInRun(ds, Digits, ',');
    NotInRun(ys, Digits, '.');
    NotInRun(ys, Digits, ',');
    NotInRun(month, Words, '.');
    NotInRun(month, Words, ',');
    RemoveMark(a, b, '.');
  }

  /** A date whose month token is not a month name does not parse. */
  lemma DottedMonthUnreadable(d: Date, month: string)
    requires ValidDate(d) && |month| == 3 && AllIn(month, Words)
    ensures ParseDate(FormatDate(d, month + "."), ShortMonthNames) == None
  {
    var m := month + ".";
    WordsAreNonSpaces(month);
    AllInConcat(month, ".", NonSpaces);
    assert MonthNumber(m, ShortMonthNames) == 0 by {
      assert |LowerStr(m)| == 4;
    }
    UnnamedMonthToken(d, m, ShortMonthNames);
  }

  /**
   * An air date written with a dotted month, such as `4 Jul. 2099`, passes
   * the gate of `enable`, which drops `.` and reads the date, but `notify`
   * drops `,` instead and cannot read it: a row for that episode raises, and
   * with it the rest of the pass.
   */
  lemma DottedMonthRaisesInNotify(cat: Catalogue, store: Store, row: Row, now: nat, d: Date, month: string)
    requires ValidDate(d) && 1000 <= d.year
    requires |month| == 3 && AllIn(month, Words) && LowerStr(month) == ShortMonthNames[d.month - 1]
    requires Truthy(row.episode) && row.episode.value in cat.episodes
    requires cat.episodes[row.episode.value].airDate == Some(FormatDate(d, month + "."))
    ensures SeriesGate(FormatDate(d, month + "."))
    ensures ParseDate(Remove(FormatDate(d, month + "."), '.'), ShortMonthNames) == Some(d)
    ensures RowSpec(cat, store, row, now) == RowCrash
  {
    var s := FormatDate(d, month + ".");
    SeriesGateAcceptsFormatted(d, month, ".");
    DottedDate(d, month);
    WordsAreNonSpaces(month);
    ParseFormatted(d, month, ShortMonthNames);
    assert AirDate(s) == None by {
      RemoveAbsent(s, ',');
      DottedMonthUnreadable(d, month);
    }
    assert CurrentRelease(cat, row.episode.value) == None;
  }
}
