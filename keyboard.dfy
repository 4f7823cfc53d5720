/**
 * The pieces both bot front ends share: the inline-result id that carries an
 * IMDb title id, its extraction when a result is chosen, the per-user memory
 * of the chosen title, and the IMDb link button.
 */
module Keyboard {
  import opened PyText

  type UserId = int

  // ------------------------------------------------------------ Python values

  /** A value of a title dictionary, as far as the bots look at it. */
  datatype PyValue = PyNone | PyInt(i: int) | PyStr(s: string)

  /** `str(v)`, which is also what `'{0}'.format(v)` writes. */
  function Str(v: PyValue): string {
    match v
    case PyNone => "None"
    case PyInt(i) => IntToString(i)
    case PyStr(s) => s
  }

  /** Python truthiness: `None`, `0` and `''` are false. */
  predicate PyTruthy(v: PyValue) {
    match v
    case PyNone => false
    case PyInt(i) => i != 0
    case PyStr(s) => s != ""
  }

  /** A title as the search results describe it: field name to value. */
  type Title = map<string, PyValue>

  // ------------------------------------------------------------ markup

  /** The callbacks the inline keyboard can trigger. */
  datatype Handler = EnableAlert | DisableAlert | Dismiss

  datatype ButtonData = Callback(handler: Handler) | Url(url: string)

  datatype Button = Button(text: string, data: ButtonData)

  /** `InlineKeyboardMarkup(keyboard)`: rows of buttons. */
  datatype Markup = Markup(rows: seq<seq<Button>>)

  const EnableButton: Button := Button("Enable alert", Callback(EnableAlert))
  const DisableButton: Button := Button("Disable alert", Callback(DisableAlert))
  const DismissButton: Button := Button("Dismiss", Callback(Dismiss))

  const ImdbTitleUrl: string := "https://www.imdb.com/title/tt"
  const LinkSuffix: string := " (IMDb link)"

  /** `imdb_url_button(title_id, message)`: one button that opens the title's IMDb page. */
  function ImdbUrlButton(titleId: string, message: string): (m: Markup)
    ensures |m.rows| == 1 && |m.rows[0]| == 1 && m.rows[0][0].data.Url?
    ensures var b := m.rows[0][0];
      && |b.data.url| == |ImdbTitleUrl| + |titleId|
      && b.data.url[..|ImdbTitleUrl|] == ImdbTitleUrl && b.data.url[|ImdbTitleUrl|..] == titleId
      && |b.text| == |message| + |LinkSuffix|
      && b.text[..|message|] == message && b.text[|message|..] == LinkSuffix
  {
    Markup([[Button(message + LinkSuffix, Url(ImdbTitleUrl + titleId))]])
  }

  /** The link button determines its title and its message. */
  lemma ImdbUrlButtonInjective(t1: string, m1: string, t2: string, m2: string)
    requires ImdbUrlButton(t1, m1) == ImdbUrlButton(t2, m2)
    ensures t1 == t2 && m1 == m2
  {
    var b1, b2 := ImdbUrlButton(t1, m1).rows[0][0], ImdbUrlButton(t2, m2).rows[0][0];
    assert |m1| == |b1.text| - |LinkSuffix| == |m2|;
  }

  /** What `user_titles` holds: the ids of the user's alerts, or the error text in their place. */
  datatype TitleIds = IdList(ids: seq<string>) | IdText(text: string)

  /** `id in user_titles`: list membership, or substring search when it is a text. */
  predicate HasTitle(userTitles: TitleIds, id: string) {
    match userTitles
    case IdList(ids) => id in ids
    case IdText(text) => Contains(text, id)
  }

  /** The keyboard of a title with no link button: Disable for a title the
      user already follows, Enable otherwise, then Dismiss. */
  function Toggle(title: Title, userTitles: TitleIds): Markup
    requires "id" in title
  {
    Markup([if HasTitle(userTitles, Str(title["id"])) then [DisableButton, DismissButton]
            else [EnableButton, DismissButton]])
  }

  // ------------------------------------------------------------ result ids

  /** `result_id(title_id)`, with `uuid` standing for `str(uuid4())`. */
  function ResultId(uuid: string, titleId: string): (r: string)
    ensures |r| == |uuid| + 1 + |titleId|
    ensures r[..|uuid|] == uuid && r[|uuid|] == '-' && r[|uuid| + 1..] == titleId
  {
    uuid + "-" + titleId
  }

  /** `result_id.split('-')[-1]`, as `chosen_result` takes it. */
  function ChosenTitleId(resultId: string): (t: string)
    ensures '-' !in t
    ensures |t| <= |resultId| && t == resultId[|resultId| - |t|..]
    ensures |t| == |resultId| || resultId[|resultId| - |t| - 1] == '-'
  {
    LastPart(resultId, '-')
  }

  /** The title id comes back out of the result id exactly when it holds no `-`. */
  lemma {:induction false} ChosenTitleIdRoundTrip(uuid: string, titleId: string)
    ensures ChosenTitleId(ResultId(uuid, titleId)) == titleId <==> '-' !in titleId
  {
    if '-' !in titleId {
      SplitAround(uuid, titleId, '-');
      SplitWithoutSeparator(titleId, '-');
      assert uuid + "-" + titleId == uuid + ['-'] + titleId;
    }
  }

  /** `context.user_data`: the title each user chose last. */
  class UserData {
    var chosen: map<UserId, string>

    constructor ()
      ensures chosen == map[]
    {
      chosen := map[];
    }

    /** `chosen_result`: remember the title id carried by the chosen result. */
    method ChosenResult(user: UserId, resultId: string)
      modifies this
      ensures chosen == old(chosen)[user := ChosenTitleId(resultId)]
      ensures forall uuid, titleId :: resultId == ResultId(uuid, titleId) && '-' !in titleId ==>
                chosen[user] == titleId
    {
      chosen := chosen[user := ChosenTitleId(resultId)];
      forall uuid, titleId | resultId == ResultId(uuid, titleId) && '-' !in titleId
        ensures chosen[user] == titleId
      {
        ChosenTitleIdRoundTrip(uuid, titleId);
      }
    }
  }
}
