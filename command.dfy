/**
 * The command's entry point: validate the arguments, build the search URL,
 * scrape the containers the browser found there and save the movies. What the
 * browser finds at the URL is a parameter.
 */
module Command {
  import opened Wrappers
  import opened Arguments
  import opened Scrape
  import opened Store

  /**
   * One run of the command. A rejected argument is reported and nothing is
   * saved; otherwise the URL is built and the scraped movies are saved. The
   * titles are taken under `rule`: `AsWritten` is the command as it stands,
   * `Corrected` the command with its title split fixed.
   */
  method Handle(
    store: MovieStore, genre: string, titleType: string, userRating: Option<int>,
    numVotes: Option<int>, releaseYear: Option<int>, currentYear: int, currentDate: string,
    fetched: seq<Container>, rule: TitleRule)
    returns (outcome: Outcome<ArgumentError>, url: Option<string>)
    requires store.Valid()
    modifies store
    ensures store.Valid()
    ensures outcome == ValidateArguments(genre, userRating, releaseYear, currentYear)
    ensures outcome.Fail? ==> url.None? && store.rows == old(store.rows)
    ensures outcome.Pass? ==>
      && url == Some(ConstructUrl(genre, titleType, userRating, numVotes, releaseYear, currentDate))
      && store.rows == Upserted(old(store.rows), ScrapeFrom(fetched, None, rule))
  {
    outcome := ValidateArguments(genre, userRating, releaseYear, currentYear);
    if outcome.Fail? {
      return outcome, None;
    }
    var u := ConstructUrl(genre, titleType, userRating, numVotes, releaseYear, currentDate);
    var page := ScrapePage(fetched, rule);
    var movies := Flatten([page]);
    var _, _ := store.SaveMovies(movies);
    url := Some(u);
  }
}
