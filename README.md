# IMDb scrape command, modelled in Dafny

This project models the `scrape_movies` management command of a small Django
application. The command searches IMDb for titles of a genre and upserts what
it finds into the `Movie` table. It does four things, and the model covers
each of them:

- **Argument check** (`validate_arguments`): the genre must be one of the
  `Genre` values. An optional user rating must lie in 1.0–10.0. An optional
  release year must lie between 1900 and the current year.
- **Search URL** (`construct_url`): a fixed prefix with the title type and
  the genre. Then, in this order and only for truthy arguments, a
  `user_rating`, a `num_votes` and a `release_date` filter.
- **Container extraction** (the loop of `scrape_page`): each result
  container gives a movie with its title, cast, year, duration, category,
  rating and plot. A container that raises is logged and skipped. The cast
  variable is carried over from one container to the next. The loop, and
  `handle` above it, take a `TitleRule`. `AsWritten` takes the title with
  `split(". ")[1]`, as line 186 of the command does. `Corrected` takes
  everything after the rank (see "## Findings"). Every loop property below is
  proved for both rules.
- **Save** (`save_movies`): the scraped movies are split into updates of
  stored titles and new records. The new records are bulk-inserted with
  conflicts ignored. The updated records have their six detail columns
  bulk-updated.

Modules:

| file | module | contents |
|---|---|---|
| wrappers.dfy | `Wrappers` | `Option` and `Outcome` |
| text.dfy | `Text` | `str.split` and its inverse `join`; `str(int)` and its parser |
| models.dfy | `Models` | the `Genre` and `TitleType` enumerations; the `Movie` row |
| arguments.dfy | `Arguments` | the argument check; the URL builder; a URL reader that undoes it |
| scrape.dfy | `Scrape` | the per-container extraction; the page loop (`ScrapePage`); the flattening of pages |
| store.dfy | `Store` | the table as a map keyed by title; the declarative `Upserted` result; the `MovieStore` class whose `SaveMovies` method runs the loop and the bulk writes |
| command.dfy | `Command` | `handle`: validate, build the URL, scrape, save |

Representation choices:

- **Rating.** A user rating is a whole number of tenths, so 8.5 is 85. Its
  text in the URL is Python's repr of that float.
- **Clock and browser.** The current year and today's date are parameters.
  So are the containers the browser finds at the URL.
- **Container.** Each container is the optional texts its selectors found:
  heading, image alt text, metadata items, rating and plot.
- **Saved movie.** Title keys are `string`. A scraped movie's title may be
  missing.

## Model

| member | source | states |
|---|---|---|
| Models.ParseGenre | movies/models.py:20-24 | Finds the genre whose value is the given string, and finds one exactly when some genre has that value |
| Models.ParseTitleType | movies/models.py:27-30 | Finds the title type whose value is the given string, and finds one exactly when some title type has that value |
| Arguments.ValidateArguments | movies/management/commands/scrape_movies.py:51-76 | An unknown genre fails with the genre error whatever the other arguments are. Validation passes iff the genre is known, the rating is absent or within 1.0–10.0 inclusive, and the year is absent or within 1900..current year inclusive. The rating error occurs iff the genre is known and the rating is out of range. The year error occurs iff the genre is known, the rating is in range and the year is out of range, and it carries the current year. The genre error names the given genre, which no genre has as its value |
| Arguments.Truthy | movies/management/commands/scrape_movies.py:95-100 | The falsy optional numbers are exactly None and 0, as for Python's `if x:` |
| Arguments.UrlPrefix | movies/management/commands/scrape_movies.py:92 | The fixed part of the URL is the base URL, `?`, and the `&`-join of the `title_type` and `genres` fields |
| Arguments.RatingFilter | movies/management/commands/scrape_movies.py:95-96 | A rating filter is present exactly when the rating is truthy (0 and None give none) |
| Arguments.VotesFilter | movies/management/commands/scrape_movies.py:97-98 | A vote filter is present exactly when the vote count is truthy, so a count of 0 is omitted |
| Arguments.DateFilter | movies/management/commands/scrape_movies.py:99-100 | A release-date filter is present exactly when the year is truthy |
| Arguments.RatingText | movies/management/commands/scrape_movies.py:96 | The rating's text consists of digits, a sign and a decimal point only |
| Arguments.ConstructUrl | movies/management/commands/scrape_movies.py:78-102 | The URL always starts with the base URL, `?title_type=<type>&genres=<genre>`. With no truthy optional argument it is exactly that prefix |
| Arguments.ConstructUrlJoinsFields | movies/management/commands/scrape_movies.py:92-100 | The URL is the base URL, `?`, and the `&`-join of `title_type`, `genres` and then those of `user_rating`, `num_votes` and `release_date` whose argument is truthy, in that order |
| Arguments.RatingTextRoundTrip | movies/management/commands/scrape_movies.py:96 | The rating text reads back as the same number of tenths, for any sign |
| Arguments.RatingFilterRoundTrip | movies/management/commands/scrape_movies.py:96 | `R,10` reads back as the rating R |
| Arguments.VotesFilterRoundTrip | movies/management/commands/scrape_movies.py:98 | `N,` reads back as the vote count N |
| Arguments.DateFilterRoundTrip | movies/management/commands/scrape_movies.py:100 | `Y-01-01,<date>` reads back as the year Y and the date |
| Arguments.ParseQueryRoundTrip | movies/management/commands/scrape_movies.py:92-100 | The query fields the URL builder writes are read back as the arguments, with falsy optional ones absent |
| Arguments.FieldsHaveNoAmpersand | movies/management/commands/scrape_movies.py:92-100 | When no string argument holds `&`, no query field holds one, so the fields survive splitting at `&` |
| Arguments.ConstructUrlRoundTrip | movies/management/commands/scrape_movies.py:78-102 | Reading the built URL back gives title type, genre, rating, vote count and date range. Falsy optional arguments are absent. This holds whenever genre, title type and date contain no `&`, since values are not percent-encoded |
| Arguments.ValidatedUrlRoundTrip | movies/management/commands/scrape_movies.py:341-344 | Every argument set that `handle` lets through validation, with a title-type choice, builds a URL that reads back as those arguments |
| Text.FindFrom | movies/management/commands/scrape_movies.py:186 | The result is the first occurrence of the separator at or after the start index, or none when the separator does not occur there |
| Text.Split | movies/management/commands/scrape_movies.py:186 | As `str.split(sep)`: there is at least one piece. There is exactly one iff the separator does not occur. The first piece is a separator-free prefix, followed by the separator when there are more pieces |
| Text.SplitFirstPieceFirst | movies/management/commands/scrape_movies.py:191 | No occurrence of the separator in the string starts inside the first piece of its split, so that piece ends at the first occurrence |
| Text.JoinSplit | movies/management/commands/scrape_movies.py:191 | Joining the pieces of a split with the separator gives the string back |
| Text.SplitJoin | movies/management/commands/scrape_movies.py:92-100 | Splitting the `&`-join of pieces that hold no `&` gives the pieces back |
| Text.SplitFirst | movies/management/commands/scrape_movies.py:186 | When the first separator follows `a`, splitting `a + sep + b` yields `a` and then the pieces of `b` |
| Text.Decimal | movies/management/commands/scrape_movies.py:98-100 | `str(n)` of an integer is non-empty and made of digits and a minus sign. It is canonical: the minus sign appears exactly for negative numbers, and there is no leading zero except in `0` itself. `DecimalRoundTrip` reads it back |
| Text.DecimalRoundTrip | movies/management/commands/scrape_movies.py:98-100 | `int(str(n)) == n` for every integer |
| Scrape.TitleAsWritten | movies/management/commands/scrape_movies.py:184-186 | A missing or empty heading gives no title. A non-empty heading without `". "` raises, and one with `". "` gives a title. That title holds no `". "` and is the start of the text after the first `". "`: all of that text, or the part of it before its next `". "`. This is the second piece of the split |
| Scrape.Title | movies/management/commands/scrape_movies.py:184-186 | A missing or empty heading gives no title. A non-empty heading without `". "` raises, and one with `". "` gives a title. That title is everything after the first `". "`, and the text before that separator holds none |
| Scrape.TitleStripsRank | movies/management/commands/scrape_movies.py:186 | A heading `<rank>. <title>` gives back `<title>` unchanged, whatever it contains |
| Scrape.TitleAsWrittenTruncates | movies/management/commands/scrape_movies.py:186 | For `<rank>. A. B`, where A holds no `". "`, the code as written gives `A`; the corrected title gives `A. B` |
| Scrape.DrNoExample | movies/management/commands/scrape_movies.py:186 | `"1. Dr. No"` gives `"Dr"` as written and `"Dr. No"` corrected |
| Scrape.TitleBy | movies/management/commands/scrape_movies.py:184-186 | Both title rules raise on the same headings and give no title for the same headings. `Corrected` is `Title`. `AsWritten` agrees with it exactly when the corrected title holds no `". "` |
| Scrape.TitlesAgree | movies/management/commands/scrape_movies.py:186 | The as-written and corrected titles agree exactly when the corrected title holds no `". "` |
| Scrape.CastOf | movies/management/commands/scrape_movies.py:188-191 | The cast is a prefix of the alt text without `" in "`. It is either the whole alt text or followed by `" in "`, and `" in "` occurs nowhere in the alt text before its end, so it ends at the first `" in "` |
| Scrape.CastBeforeTitle | movies/management/commands/scrape_movies.py:191 | An alt text `<cast> in <title>` gives `<cast>` exactly when `" in "` first occurs after the cast, that is when `<cast> in` holds no `" in "` |
| Scrape.ItemAt | movies/management/commands/scrape_movies.py:199-205 | Item k is present iff there are more than k items, and is then item k |
| Scrape.ExtractContainer | movies/management/commands/scrape_movies.py:182-236 | A container raises iff its heading has no `". "` or it has no alt text while no cast is bound yet. Otherwise the movie has the container's title under the rule. Its cast comes from its own alt text, or is the carried one when there is no alt text. Year, duration and category are metadata items 0, 1 and 2 when that many exist, and absent otherwise. The rating and the plot are the container's |
| Scrape.ScrapeFrom | movies/management/commands/scrape_movies.py:181-236 | The loop's result as a fold over the containers, the cast carried from each movie to the next. Every movie it yields has a cast |
| Scrape.ScrapePage | movies/management/commands/scrape_movies.py:179-236 | The loop appends exactly the movies of the containers that do not raise, in container order, with the cast carried across iterations. It does so under either title rule; `AsWritten` is the command as it stands |
| Scrape.ScrapeRulesAgree | movies/management/commands/scrape_movies.py:186 | When no container's corrected title holds a second `". "`, the loop yields the same movies under both rules |
| Scrape.ScrapeTruncatesTitle | movies/management/commands/scrape_movies.py:186 | A container headed `<rank>. A. B` with alt text yields one movie. As written its title is `A`; corrected it is `A. B` |
| Scrape.ScrapeNeverLonger | movies/management/commands/scrape_movies.py:181-236 | A page never yields more movies than it has containers |
| Scrape.ScrapeKeepsComplete | movies/management/commands/scrape_movies.py:181-236 | When every heading is missing, empty or holds `". "`, and every container has alt text, there are as many movies as containers. Movie k has container k's title under the rule, the cast from its own alt text, its metadata items 0, 1 and 2 where present, its rating and its plot |
| Scrape.ScrapeSkipsUnboundCast | movies/management/commands/scrape_movies.py:188-191 | Before any alt text has been seen, a container without one raises and yields nothing |
| Scrape.ScrapeReusesCast | movies/management/commands/scrape_movies.py:188-191 | A container without alt text after one with alt text takes that earlier cast |
| Scrape.ScrapeSingleContainer | movies/tests/test_imdb_scraper.py:173-189 | A page with one container of the listing's shape yields one movie. It has the title without its rank, the cast before `" in "`, the three metadata items, the rating and the plot. As written this holds only for a title without `". "` |
| Scrape.Flatten | movies/management/commands/scrape_movies.py:255-256 | The results of a single page, which is what `gather` returns here, flatten to that page's movies |
| Scrape.FlattenAppend | movies/management/commands/scrape_movies.py:256 | Flattening keeps the pages' order: it distributes over concatenation of page lists |
| Scrape.FlattenLength | movies/management/commands/scrape_movies.py:256 | The flattened list holds as many movies as all pages together |
| Store.FirstIndex | movies/management/commands/scrape_movies.py:302-318 | The position of the first movie with a title, none exactly when no movie has it; this is the record `bulk_create` keeps |
| Store.LastIndex | movies/management/commands/scrape_movies.py:292-301 | The position of the last movie with a title, none exactly when no movie has it; its details are the last written into the shared record |
| Store.Upserted | movies/management/commands/scrape_movies.py:259-326 | The reference result of a save: its titles are the stored ones and the scraped ones. `UpsertedFrame` and `UpsertedStoresMovies` state each row |
| Store.Existing | movies/management/commands/scrape_movies.py:281-286 | The existing rows are exactly the stored rows whose title is among the movies' titles, each the stored row under that title |
| Store.IsUpdate | movies/management/commands/scrape_movies.py:292 | A movie counts as an update exactly when it has a title that is a key of the existing rows |
| Store.NewRecord | movies/management/commands/scrape_movies.py:303-313 | A new record has the movie's title and six details, and no director |
| Store.NewRecords | movies/management/commands/scrape_movies.py:291-312 | Every collected new record has no director and a title that is missing or not among the existing rows |
| Store.UpdatedTitles | movies/management/commands/scrape_movies.py:291-301 | Every collected update refers to an existing row |
| Store.Refreshed | movies/management/commands/scrape_movies.py:291-300 | After the loop the existing records are the same rows, each with the details of the last movie of its title, if any |
| Store.StoredCount | movies/management/commands/scrape_movies.py:327-328 | The update count never exceeds the number of movies |
| Store.Insert | movies/management/commands/scrape_movies.py:318 | A record is inserted under its title when the title is free, and dropped when the title is taken or missing |
| Store.InsertAll | movies/management/commands/scrape_movies.py:318 | The bulk insert never changes a stored row, and every row it adds sits under its own title |
| Store.ApplyUpdates | movies/management/commands/scrape_movies.py:320-326 | Each listed title gets its record's current state, and every other row is left alone |
| Store.Saved | movies/management/commands/scrape_movies.py:316-326 | The bulk insert followed by the bulk update loses no stored row. It leaves every stored row that is not listed for update as it was |
| Store.UpsertedEmpty | movies/management/commands/scrape_movies.py:277-279 | Saving no movies leaves the table unchanged |
| Store.UpsertedSnoc | movies/management/commands/scrape_movies.py:291-326 | One more movie: without a title it changes nothing. A stored title takes its details. A new title is added with its details unless an earlier movie already added it |
| Store.UpsertedSnocNew | movies/management/commands/scrape_movies.py:318 | A further movie whose title is not stored acts as one insert-if-absent of its record |
| Store.SavedIsUpserted | movies/management/commands/scrape_movies.py:281-326 | The loop's two collections, bulk-inserted and then bulk-updated, give exactly the declarative upsert |
| Store.SavedSnocUpdate | movies/management/commands/scrape_movies.py:292-301 | The save step for an update keeps the loop and the declarative upsert in step |
| Store.SavedSnocInsert | movies/management/commands/scrape_movies.py:302-318 | The save step for a new record keeps the loop and the declarative upsert in step |
| Store.UpdateStep | movies/management/commands/scrape_movies.py:321-326 | Writing one more record in the bulk update: the last write to a title wins |
| Store.InsertStep | movies/management/commands/scrape_movies.py:316-326 | Inserting a record whose title is not updated commutes with the bulk update |
| Store.FoldsSnocNew | movies/management/commands/scrape_movies.py:302-313 | A movie that is not an update adds one new record and leaves the updates alone |
| Store.InsertAllSnoc | movies/management/commands/scrape_movies.py:318 | The bulk insert handles its records one after another, in order |
| Store.PartitionSizes | movies/management/commands/scrape_movies.py:288-313 | Every movie lands in exactly one of the two lists, so the counts sum to the number of movies, and there are as many updates as movies with a stored title |
| Store.UpsertedKeyed | movies/models.py:7 | A save keeps every row under its own unique title |
| Store.UpsertedFrame | movies/management/commands/scrape_movies.py:291-326 | A save loses no stored row and changes no stored title or director. It leaves the rows of titles the movies do not mention exactly as they were |
| Store.UpsertedStoresMovies | movies/management/commands/scrape_movies.py:291-326 | After a save every scraped title is stored: a previously stored one with the last such movie's details, a new one with the first such movie's details |
| Store.SaveOneStoredOneNew | movies/tests/test_imdb_scraper.py:240-298 | For one movie with a stored title and one with a new title, one update and one insert happen. The stored row takes the first movie's details and the new row the second's |
| Store.MovieStore.BulkCreate | movies/management/commands/scrape_movies.py:318 | The bulk insert, record by record, gives the insert-if-absent table and keeps rows keyed |
| Store.MovieStore.BulkUpdate | movies/management/commands/scrape_movies.py:321-326 | The bulk update, title by title, writes each listed record and keeps rows keyed |
| Store.MovieStore.SaveMovies | movies/management/commands/scrape_movies.py:259-330 | After the save the table is the declarative upsert of the movies. The update count is the number of movies with a stored title. The two counts sum to the number of movies |
| Command.Handle | movies/management/commands/scrape_movies.py:332-349 | A rejected argument yields the validator's error, no URL and an unchanged table. Otherwise the URL is the built one and the table is the upsert of the movies scraped from the fetched containers under the title rule. With `AsWritten` this is the command as it stands |

## Left out

- Fetching pages with Playwright (`fetch_all_pages_with_playwright`): browser I/O. Its result enters `Command.Handle` as the containers found. No containers stands for the empty or failed fetch.
- HTML parsing with BeautifulSoup: foreign library. Each container is the already-stripped texts its selectors found.
- Django ORM, `transaction.atomic`, and the exception handler around the save: the table is a map, and the save is one atomic update of it.
- Logging everywhere: the log line's two counts are the values `SaveMovies` returns.
- `asyncio.gather`: only the order-preserving flatten of its single result is modelled.
- `add_arguments`: argparse registration only. Its `--pages` count only feeds the browser.
- The `views.py` and `urls.py` REST handlers: not part of this model.
- Store.Insert: models the insert-or-ignore of SQLite, Django's default backend, which drops a record with no title. A backend that raises on the NOT NULL title instead would roll back the whole save.
- The conversions the database applies on save, such as the rating text into a float column and column widths: not modelled. The details are kept as the scraped strings.
- Arguments.RatingText: covers ratings with one decimal and magnitude below 2^49 (about 5.6e14), as tenths; above that, neighbouring tenths round to the same double; Python's repr of other floats, and NaN, are not modelled.
- Arguments.ValidateArguments: the rating is compared in tenths, so ratings between tenths, such as 9.95, are not represented.
- The clock: `datetime.now()` becomes the `currentYear` and `currentDate` parameters.

## Findings

| source | as written | input that shows it | evidently intended | confidence | as-written member | corrected member |
|---|---|---|---|---|---|---|
| movies/management/commands/scrape_movies.py:186 | `title.split(". ")[1]` keeps only the text between the first and second `". "` of the heading | the heading `"1. Dr. No"` gives the title `"Dr"` | the whole title after the rank, `"Dr. No"` (`split(". ", 1)[1]`) | high; not executed | Scrape.ScrapeTruncatesTitle | Scrape.Title |
