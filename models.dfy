/**
 * The value sets and the record shape of the movie application: the `Genre`
 * and `TitleType` enumerations with their string values, and the `Movie` row.
 */
module Models {
  import opened Wrappers

  /** The genres the scraper accepts. */
  datatype Genre = Comedy | Action | Drama | Horror
  {
    /** The enumeration's string value, as it appears on the command line and in the URL. */
    function Value(): string
    {
      match this
      case Comedy => "comedy"
      case Action => "action"
      case Drama => "drama"
      case Horror => "horror"
    }
  }

  /** The genre whose value is `s`, if there is one (membership in `[g.value for g in Genre]`). */
  function ParseGenre(s: string): (g: Option<Genre>)
    ensures g.Some? ==> g.value.Value() == s
    ensures forall x: Genre :: x.Value() == s ==> g == Some(x)
  {
    if s == "comedy" then Some(Comedy)
    else if s == "action" then Some(Action)
    else if s == "drama" then Some(Drama)
    else if s == "horror" then Some(Horror)
    else None
  }

  /** The title types offered as command-line choices. */
  datatype TitleType = Feature | TvSeries | Short
  {
    function Value(): string
    {
      match this
      case Feature => "feature"
      case TvSeries => "tv_series"
      case Short => "short"
    }
  }

  function ParseTitleType(s: string): (t: Option<TitleType>)
    ensures t.Some? ==> t.value.Value() == s
    ensures forall x: TitleType :: x.Value() == s ==> t == Some(x)
  {
    if s == "feature" then Some(Feature)
    else if s == "tv_series" then Some(TvSeries)
    else if s == "short" then Some(Short)
    else None
  }

  /**
   * The six columns a scrape fills in and an update overwrites: release year,
   * rating, cast, plot summary, duration and category. Every column is nullable.
   */
  datatype Details = Details(
    releaseYear: Option<string>,
    imdbRating: Option<string>,
    cast: Option<string>,
    plotSummary: Option<string>,
    duration: Option<string>,
    category: Option<string>)

  /**
   * A `Movie` instance. `title` is the unique key of the table; an unsaved
   * instance may still lack one. `director` is never set by the scraper.
   */
  datatype MovieRecord = MovieRecord(title: Option<string>, director: Option<string>, details: Details)
}
