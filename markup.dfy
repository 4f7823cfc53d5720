/**
 * `create_reply_markup` of `IMDBbot.py`: the keyboard under an inline search
 * result.  A series that has ended, or a title whose year (converted with
 * `int`) is before the current year, gets a single IMDb link button; any
 * other title gets the Enable or Disable button, whichever applies, and Dismiss.
 */
module IMDBbot {
  import opened PyText
  import opened Keyboard

  /** What `create_reply_markup` gives: a keyboard, or an exception it does not catch. */
  datatype MarkupResult = Built(markup: Markup) | Raised

  /** `'kind' in title and 'series' in title['kind']`, when that does not raise. */
  predicate IsSeries(title: Title) {
    "kind" in title && title["kind"].PyStr? && Contains(title["kind"].s, "series")
  }

  /** `'end_year' in title and title['end_year']`. */
  predicate HasEnded(title: Title) {
    "end_year" in title && PyTruthy(title["end_year"])
  }

  /** `int(title['year'])` with `ValueError` caught: `None` for a text that is not an integer. */
  function YearOf(v: PyValue): Option<int>
    requires !v.PyNone?
  {
    match v
    case PyInt(i) => Some(i)
    case PyStr(s) => ParseInt(s)
  }

  /** The year check passes: the year converts and lies before `currentYear`. */
  predicate ReleasedBefore(title: Title, currentYear: int) {
    "year" in title && !title["year"].PyNone? &&
    YearOf(title["year"]).Some? && currentYear > YearOf(title["year"]).value
  }

  method CreateReplyMarkup(title: Title, currentYear: int, userTitles: TitleIds) returns (r: MarkupResult)
    // `'series' in kind` raises for a kind that is not a text; `int(None)` raises `TypeError`.
    ensures "kind" in title && !title["kind"].PyStr? ==> r == Raised
    ensures (!("kind" in title && !title["kind"].PyStr?) && !(IsSeries(title) && HasEnded(title)) &&
             "year" in title && title["year"].PyNone?) ==> r == Raised
    ensures "id" !in title ==> r == Raised
    // An ended series: a single link button naming the end year.
    ensures IsSeries(title) && HasEnded(title) && "id" in title ==>
              r == Built(ImdbUrlButton(Str(title["id"]), "Series ended in " + Str(title["end_year"])))
    // A released title, series without an end year included.
    ensures !(IsSeries(title) && HasEnded(title)) && ReleasedBefore(title, currentYear) &&
            "id" in title && !("kind" in title && !title["kind"].PyStr?) ==>
              r == Built(ImdbUrlButton(Str(title["id"]), "Movie released in " + Str(title["year"])))
    // A year that is not an integer text never counts as released.
    ensures "year" in title && title["year"].PyStr? && ParseInt(title["year"].s).None? &&
            !(IsSeries(title) && HasEnded(title)) && "id" in title &&
            !("kind" in title && !title["kind"].PyStr?) ==>
              r == Built(Toggle(title, userTitles))
    // Otherwise: Disable and Dismiss for a title the user already follows, else Enable and Dismiss.
    ensures !(IsSeries(title) && HasEnded(title)) && !ReleasedBefore(title, currentYear) &&
            "id" in title && !("kind" in title && !title["kind"].PyStr?) &&
            !("year" in title && title["year"].PyNone?) ==>
              r == Built(Toggle(title, userTitles))
  {
    var keyboard := [EnableButton, DisableButton, DismissButton];
    if "kind" in title {
      var kind := title["kind"];
      if !kind.PyStr? {
        return Raised;
      }
      if Contains(kind.s, "series") && "end_year" in title && PyTruthy(title["end_year"]) {
        if "id" !in title {
          return Raised;
        }
        return Built(ImdbUrlButton(Str(title["id"]), "Series ended in " + Str(title["end_year"])));
      }
    }
    if "year" in title {
      if title["year"].PyNone? {
        return Raised;
      }
      var titleYear := YearOf(title["year"]);
      if titleYear.Some? && currentYear > titleYear.value {
        if "id" !in title {
          return Raised;
        }
        return Built(ImdbUrlButton(Str(title["id"]), "Movie released in " + Str(title["year"])));
      }
    }
    if "id" !in title {
      return Raised;
    }
    if HasTitle(userTitles, Str(title["id"])) {
      keyboard := keyboard[1..];
      assert keyboard == [DisableButton, DismissButton];
    } else {
      keyboard := keyboard[..1] + keyboard[2..];
      assert keyboard == [EnableButton, DismissButton];
    }
    r := Built(Markup([keyboard]));
  }
}

/**
 * `create_reply_markup` of `imdbot.py`: the same keyboard, but the fields are
 * read with `title[...]` (a missing one raises `KeyError`), the year is
 * compared as it is (a text year raises `TypeError`), and the year check is
 * the `elif` of the series check, so a series never gets "Movie released".
 */
module Imdbot {
  import opened PyText
  import opened Keyboard

  datatype MarkupResult = Built(markup: Markup) | Raised

  /** `'series' in title['kind']`, for a title whose kind is a text. */
  predicate IsSeries(title: Title) {
    "kind" in title && title["kind"].PyStr? && Contains(title["kind"].s, "series")
  }

  method CreateReplyMarkup(title: Title, currentYear: int, userTitles: TitleIds) returns (r: MarkupResult)
    // Missing or mistyped fields raise.
    ensures "kind" !in title || !title["kind"].PyStr? || "id" !in title ==> r == Raised
    ensures IsSeries(title) && "end_year" !in title ==> r == Raised
    ensures "kind" in title && !IsSeries(title) && "year" !in title ==> r == Raised
    ensures ("kind" in title && !IsSeries(title) && "year" in title &&
             title["year"].PyStr? && title["year"].s != "") ==> r == Raised
    // A series gets the end-year link button or the toggle, never "Movie released".
    ensures IsSeries(title) && "end_year" in title && "id" in title ==>
              r == Built(if PyTruthy(title["end_year"])
                         then ImdbUrlButton(Str(title["id"]), "Series ended in " + Str(title["end_year"]))
                         else Toggle(title, userTitles))
    // Any other title with an integer year before the current one: the released link button.
    ensures "kind" in title && title["kind"].PyStr? && !IsSeries(title) && "year" in title && "id" in title &&
            title["year"].PyInt? && title["year"].i != 0 && currentYear > title["year"].i ==>
              r == Built(ImdbUrlButton(Str(title["id"]), "Movie released in " + Str(title["year"])))
    // A non-series title whose year is falsy, or not before the current one: the toggle.
    ensures "kind" in title && title["kind"].PyStr? && !IsSeries(title) && "year" in title && "id" in title &&
            (!PyTruthy(title["year"]) || (title["year"].PyInt? && currentYear <= title["year"].i)) ==>
              r == Built(Toggle(title, userTitles))
  {
    var keyboard := [EnableButton, DisableButton, DismissButton];
    if "kind" !in title || !title["kind"].PyStr? {
      return Raised;
    }
    if Contains(title["kind"].s, "series") {
      if "end_year" !in title {
        return Raised;
      }
      if PyTruthy(title["end_year"]) {
        if "id" !in title {
          return Raised;
        }
        return Built(ImdbUrlButton(Str(title["id"]), "Series ended in " + Str(title["end_year"])));
      }
    } else {
      if "year" !in title {
        return Raised;
      }
      var year := title["year"];
      if PyTruthy(year) {
        if !year.PyInt? {
          return Raised;
        }
        if currentYear > year.i {
          if "id" !in title {
            return Raised;
          }
          return Built(ImdbUrlButton(Str(title["id"]), "Movie released in " + Str(year)));
        }
      }
    }
    if "id" !in title {
      return Raised;
    }
    if HasTitle(userTitles, Str(title["id"])) {
      keyboard := keyboard[1..];
      assert keyboard == [DisableButton, DismissButton];
    } else {
      keyboard := keyboard[..1] + keyboard[2..];
      assert keyboard == [EnableButton, DismissButton];
    }
    r := Built(Markup([keyboard]));
  }
}
