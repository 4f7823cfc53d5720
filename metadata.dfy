/**
 * What the alert logic reads and writes: the answers of the IMDb client
 * (Cinemagoer), taken as data, and the table of pending alerts.
 *
 * A lookup of an id the client cannot answer for is absent from the
 * corresponding map; the code treats that as an exception.
 */
module Metadata {
  import opened PyText

  type UserId = int
  /** An IMDb title id (the digits after `tt`). */
  type TitleId = string
  type EpisodeId = string

  /** `get_movie(title_id)`: the long title and the `seasons` field, empty when absent. */
  datatype TitleInfo = TitleInfo(longTitle: Option<string>, seasons: seq<int>)

  /** One entry of `raw release dates`. */
  datatype ReleaseEntry = ReleaseEntry(country: string, date: string, notes: Option<string>)

  /** One episode of a season listing: its id and `original air date`. */
  datatype EpisodeEntry = EpisodeEntry(id: EpisodeId, airDate: Option<string>)

  /** One season of `get_movie_episodes`: its key and its episodes by number, in catalogue order. */
  datatype Season = Season(number: int, episodes: seq<(int, EpisodeEntry)>)

  /** `get_episode(id)`: `original air date` and `next episode`. */
  datatype EpisodeDetail = EpisodeDetail(airDate: Option<string>, next: Option<EpisodeId>)

  datatype Catalogue = Catalogue(
    titles: map<TitleId, TitleInfo>,
    releaseDates: map<TitleId, seq<ReleaseEntry>>,
    episodeLists: map<TitleId, seq<Season>>,
    episodes: map<EpisodeId, EpisodeDetail>)

  /** One pending alert.  `episode == None` marks a movie alert. */
  datatype Record = Record(userName: string, titleName: Option<string>, episode: Option<EpisodeId>, release: nat)

  type Key = (UserId, TitleId)

  /** The alerts table: at most one record per (user, title). */
  type Store = map<Key, Record>

  /** A row of `query_released`: user, title and tracked episode. */
  datatype Row = Row(user: UserId, title: TitleId, episode: Option<EpisodeId>)

  /** What a public method of `Alert` returns: a message, or whatever the
      table answered to an insert or a delete. */
  datatype Reply = Message(text: string) | Inserted | Deleted

  /** The text `_catch_and_log` returns in place of any exception. */
  const UnexpectedError: string := "Unexpected error occurred."
}
