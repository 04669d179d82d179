/**
 * Checking the command's arguments and building the search URL from them.
 *
 * A user rating is held as a whole number of tenths (8.5 is 85), so that its
 * text in the URL is the float's Python repr written out digit by digit. The
 * current year and today's date, which the command reads from the clock, are
 * parameters.
 */
module Arguments {
  import opened Wrappers
  import opened Text
  import opened Models

  const BaseUrl := "https://www.imdb.com/search/title/"

  /** The rating bounds 1.0 and 10.0, in tenths, both inclusive. */
  const MinRating := 10
  const MaxRating := 100

  const MinReleaseYear := 1900

  /** The `ValueError`s the validator raises. */
  datatype ArgumentError =
    | InvalidGenre(genre: string)
    | InvalidUserRating
    | InvalidReleaseYear(currentYear: int)

  predicate RatingInRange(userRating: Option<int>) {
    userRating.None? || MinRating <= userRating.value <= MaxRating
  }

  predicate YearInRange(releaseYear: Option<int>, currentYear: int) {
    releaseYear.None? || MinReleaseYear <= releaseYear.value <= currentYear
  }

  /**
   * Checks the genre first, then the optional rating, then the optional
   * release year, and fails with the first check that does not hold.
   */
  function ValidateArguments(genre: string, userRating: Option<int>, releaseYear: Option<int>, currentYear: int)
    : (r: Outcome<ArgumentError>)
    ensures (forall g: Genre :: g.Value() != genre) ==> r == Fail(InvalidGenre(genre))
    ensures r.Pass? <==>
      (exists g: Genre :: g.Value() == genre) && RatingInRange(userRating) && YearInRange(releaseYear, currentYear)
    ensures r == Fail(InvalidUserRating) <==>
      (exists g: Genre :: g.Value() == genre) && !RatingInRange(userRating)
    ensures r == Fail(InvalidReleaseYear(currentYear)) <==>
      (exists g: Genre :: g.Value() == genre) && RatingInRange(userRating) && !YearInRange(releaseYear, currentYear)
    ensures r.Fail? && r.error.InvalidReleaseYear? ==> r.error.currentYear == currentYear
    ensures r.Fail? && r.error.InvalidGenre? ==> r.error.genre == genre && forall g: Genre :: g.Value() != genre
  {
    if ParseGenre(genre).None? then
      Fail(InvalidGenre(genre))
    else if userRating.Some? && !(MinRating <= userRating.value <= MaxRating) then
      Fail(InvalidUserRating)
    else if releaseYear.Some? && (releaseYear.value < MinReleaseYear || releaseYear.value > currentYear) then
      Fail(InvalidReleaseYear(currentYear))
    else
      Pass
  }

  /** Python truthiness of an optional number: None and 0 are false. */
  predicate Truthy(arg: Option<int>)
    ensures !Truthy(arg) <==> arg == None || arg == Some(0)
  {
    arg.Some? && arg.value != 0
  }

  /** The argument if it is truthy, None otherwise. */
  function Kept(arg: Option<int>): Option<int> {
    if Truthy(arg) then arg else None
  }

  /** Python's repr of the float `tenths / 10`: sign, whole part, a point and one decimal. */
  function RatingText(tenths: int): (s: string)
    ensures forall k :: 0 <= k < |s| ==> IsDigit(s[k]) || s[k] == '-' || s[k] == '.'
  {
    var a := if tenths < 0 then -tenths else tenths;
    (if tenths < 0 then "-" else "") + Digits(a / 10) + "." + [DigitChar(a % 10)]
  }

  predicate StartsWith(s: string, p: string) {
    |p| <= |s| && s[..|p|] == p
  }

  /** `key=value`, one field of the query string. */
  function Field(key: string, value: string): string {
    key + "=" + value
  }

  /** `&key=value` for a filter that is present, nothing for one that is not. */
  function Segment(key: string, value: Option<string>): string {
    match value
    case None => ""
    case Some(v) => "&" + Field(key, v)
  }

  /** The part of the URL that is always there. */
  function UrlPrefix(genre: string, titleType: string): (p: string)
    ensures p == BaseUrl + "?" + Join([Field("title_type", titleType), Field("genres", genre)], "&")
  {
    BaseUrl + "?" + Field("title_type", titleType) + "&" + Field("genres", genre)
  }

  /** `{user_rating},10` for a truthy rating: from that rating up to the maximum. */
  function RatingFilter(userRating: Option<int>): (v: Option<string>)
    ensures v.Some? <==> Truthy(userRating)
  {
    if Truthy(userRating) then Some(RatingText(userRating.value) + ",10") else None
  }

  /** `{num_votes},` for a truthy vote count: at least that many votes. */
  function VotesFilter(numVotes: Option<int>): (v: Option<string>)
    ensures v.Some? <==> Truthy(numVotes)
  {
    if Truthy(numVotes) then Some(Decimal(numVotes.value) + ",") else None
  }

  /** `{release_year}-01-01,{current_date}` for a truthy year: from January 1st of it until today. */
  function DateFilter(releaseYear: Option<int>, currentDate: string): (v: Option<string>)
    ensures v.Some? <==> Truthy(releaseYear)
  {
    if Truthy(releaseYear) then Some(Decimal(releaseYear.value) + "-01-01," + currentDate) else None
  }

  /**
   * The search URL: the prefix, then a rating, a vote and a release-date filter,
   * in that order, each only when its argument is truthy. Values go in verbatim,
   * without percent-encoding.
   */
  function ConstructUrl(
    genre: string, titleType: string, userRating: Option<int>, numVotes: Option<int>,
    releaseYear: Option<int>, currentDate: string): (url: string)
    ensures StartsWith(url, UrlPrefix(genre, titleType))
    ensures !Truthy(userRating) && !Truthy(numVotes) && !Truthy(releaseYear) ==> url == UrlPrefix(genre, titleType)
  {
    var prefix := UrlPrefix(genre, titleType);
    var url := prefix
      + Segment("user_rating", RatingFilter(userRating))
      + Segment("num_votes", VotesFilter(numVotes))
      + Segment("release_date", DateFilter(releaseYear, currentDate));
    assert url[..|prefix|] == prefix;
    url
  }

  // ---------------------------------------------------------------------------
  // Reading a search URL back: the inverse of ConstructUrl.

  /** The release-date filter: from January 1st of `fromYear` to `until`. */
  datatype DateRange = DateRange(fromYear: int, until: string)

  /** What a search URL asks for. */
  datatype SearchQuery = SearchQuery(
    titleType: string,
    genre: string,
    userRating: Option<int>,
    numVotes: Option<int>,
    releaseDate: Option<DateRange>)

  function StripPrefix(s: string, p: string): (r: Option<string>)
    ensures r.Some? <==> StartsWith(s, p)
    ensures r.Some? ==> s == p + r.value
  {
    if StartsWith(s, p) then Some(s[|p|..]) else None
  }

  function StripSuffix(s: string, p: string): (r: Option<string>)
    ensures r.Some? ==> s == r.value + p
  {
    if |p| <= |s| && s[|s| - |p|..] == p then Some(s[..|s| - |p|]) else None
  }

  /** The text of a rating written by RatingText, back in tenths. */
  function ParseRatingText(s: string): Option<int>
  {
    if |s| > 0 && s[0] == '-' then
      match ParseUnsignedTenths(s[1..])
      case None => None
      case Some(v) => Some(-(v as int))
    else ParseUnsignedTenths(s)
  }

  function ParseUnsignedTenths(s: string): Option<nat>
  {
    if |s| < 3 || s[|s| - 2] != '.' || !IsDigit(s[|s| - 1]) then None
    else match ParseDigits(s[..|s| - 2])
      case None => None
      case Some(w) => Some(10 * w + DigitValue(s[|s| - 1]))
  }

  function ParseRatingFilter(v: string): Option<int> {
    match StripSuffix(v, ",10")
    case None => None
    case Some(text) => ParseRatingText(text)
  }

  function ParseVotesFilter(v: string): Option<int> {
    match StripSuffix(v, ",")
    case None => None
    case Some(text) => ParseDecimal(text)
  }

  function ParseDateFilter(v: string): Option<DateRange> {
    match FindFrom(v, ",", 0)
    case None => None
    case Some(k) =>
      match StripSuffix(v[..k], "-01-01")
      case None => None
      case Some(year) =>
        match ParseDecimal(year)
        case None => None
        case Some(y) => Some(DateRange(y, v[k + 1..]))
  }

  /** The value of a `key=value` field. */
  function ValueOf(field: string, key: string): Option<string> {
    StripPrefix(field, key + "=")
  }

  /** Takes the first of `fields` when it is a `key=value` field. */
  function TakeField(fields: seq<string>, key: string): (Option<string>, seq<string>)
  {
    if |fields| > 0 && ValueOf(fields[0], key).Some? then (ValueOf(fields[0], key), fields[1..])
    else (None, fields)
  }

  /** Reads the `&`-separated fields of a query in the order ConstructUrl writes them. */
  function ParseQuery(fields: seq<string>): Option<SearchQuery>
  {
    if |fields| < 2 then None
    else match (ValueOf(fields[0], "title_type"), ValueOf(fields[1], "genres"))
      case (Some(titleType), Some(genre)) =>
        var (rating, rest) := TakeField(fields[2..], "user_rating");
        var (votes, rest) := TakeField(rest, "num_votes");
        var (dates, rest) := TakeField(rest, "release_date");
        var r := if rating.Some? then ParseRatingFilter(rating.value) else None;
        var v := if votes.Some? then ParseVotesFilter(votes.value) else None;
        var d := if dates.Some? then ParseDateFilter(dates.value) else None;
        if rest != [] || (rating.Some? && r.None?) || (votes.Some? && v.None?) || (dates.Some? && d.None?) then None
        else Some(SearchQuery(titleType, genre, r, v, d))
      case _ => None
  }

  /** Reads a URL of the shape ConstructUrl writes; None for any other string. */
  function ParseSearchUrl(url: string): Option<SearchQuery>
  {
    match StripPrefix(url, BaseUrl + "?")
    case None => None
    case Some(query) => ParseQuery(Split(query, "&"))
  }

  // ---------------------------------------------------------------------------
  // The round trip.

  /** A rating's text reads back as the same number of tenths. */
  lemma RatingTextRoundTrip(tenths: int)
    ensures ParseRatingText(RatingText(tenths)) == Some(tenths)
  {
    var a := if tenths < 0 then -tenths else tenths;
    var u := Digits(a / 10) + "." + [DigitChar(a % 10)];
    assert u[..|u| - 2] == Digits(a / 10);
    DigitsRoundTrip(a / 10);
    assert ParseUnsignedTenths(u) == Some(a);
    if tenths < 0 {
      assert RatingText(tenths)[1..] == u;
    } else {
      assert RatingText(tenths) == u;
    }
  }

  lemma RatingFilterRoundTrip(userRating: Option<int>)
    requires Truthy(userRating)
    ensures ParseRatingFilter(RatingFilter(userRating).value) == userRating
  {
    var text := RatingText(userRating.value);
    assert StripSuffix(text + ",10", ",10") == Some(text) by {
      assert (text + ",10")[|text|..] == ",10";
      assert (text + ",10")[..|text|] == text;
    }
    RatingTextRoundTrip(userRating.value);
  }

  lemma VotesFilterRoundTrip(numVotes: Option<int>)
    requires Truthy(numVotes)
    ensures ParseVotesFilter(VotesFilter(numVotes).value) == numVotes
  {
    var text := Decimal(numVotes.value);
    assert StripSuffix(text + ",", ",") == Some(text) by {
      assert (text + ",")[|text|..] == ",";
      assert (text + ",")[..|text|] == text;
    }
    DecimalRoundTrip(numVotes.value);
  }

  lemma DateFilterRoundTrip(releaseYear: Option<int>, currentDate: string)
    requires Truthy(releaseYear)
    ensures ParseDateFilter(DateFilter(releaseYear, currentDate).value)
         == Some(DateRange(releaseYear.value, currentDate))
  {
    var d := Decimal(releaseYear.value);
    var v := DateFilter(releaseYear, currentDate).value;
    var k := |d| + 6;
    assert v == d + "-01-01," + currentDate;
    assert v[k] == ',';
    assert OccursAt(v, ",", k) by { assert v[k..k + 1] == [v[k]]; }
    forall j: nat | j < k ensures !OccursAt(v, ",", j) {
      assert v[j..j + 1][0] == v[j];
      if j < |d| { assert v[j] == d[j]; }
    }
    FindFirstAt(v, ",", k);
    assert v[..k] == d + "-01-01";
    assert StripSuffix(v[..k], "-01-01") == Some(d) by {
      assert v[..k][|d|..] == "-01-01";
      assert v[..k][..|d|] == d;
    }
    assert v[k + 1..] == currentDate;
    DecimalRoundTrip(releaseYear.value);
  }

  /** The field a filter contributes to the query: none, or `key=value`. */
  function OptionalField(key: string, value: Option<string>): seq<string> {
    match value
    case None => []
    case Some(v) => [Field(key, v)]
  }

  /** The query fields ConstructUrl joins with `&`. */
  function UrlFields(
    genre: string, titleType: string, userRating: Option<int>, numVotes: Option<int>,
    releaseYear: Option<int>, currentDate: string): seq<string>
  {
    [Field("title_type", titleType), Field("genres", genre)]
    + OptionalField("user_rating", RatingFilter(userRating))
    + OptionalField("num_votes", VotesFilter(numVotes))
    + OptionalField("release_date", DateFilter(releaseYear, currentDate))
  }

  lemma JoinOptional(fields: seq<string>, key: string, value: Option<string>)
    requires |fields| >= 1
    ensures Join(fields + OptionalField(key, value), "&") == Join(fields, "&") + Segment(key, value)
  {
    match value
    case None =>
      assert fields + [] == fields;
    case Some(v) =>
      JoinSnoc(fields, "&", Field(key, v));
  }

  lemma ConstructUrlJoinsFields(
    genre: string, titleType: string, userRating: Option<int>, numVotes: Option<int>,
    releaseYear: Option<int>, currentDate: string)
    ensures ConstructUrl(genre, titleType, userRating, numVotes, releaseYear, currentDate)
         == BaseUrl + "?" + Join(UrlFields(genre, titleType, userRating, numVotes, releaseYear, currentDate), "&")
  {
    var head := BaseUrl + "?";
    var f0 := [Field("title_type", titleType), Field("genres", genre)];
    var f1 := f0 + OptionalField("user_rating", RatingFilter(userRating));
    var f2 := f1 + OptionalField("num_votes", VotesFilter(numVotes));
    var f3 := f2 + OptionalField("release_date", DateFilter(releaseYear, currentDate));
    var s1 := Segment("user_rating", RatingFilter(userRating));
    var s2 := Segment("num_votes", VotesFilter(numVotes));
    var s3 := Segment("release_date", DateFilter(releaseYear, currentDate));
    JoinOptional(f0, "user_rating", RatingFilter(userRating));
    JoinOptional(f1, "num_votes", VotesFilter(numVotes));
    JoinOptional(f2, "release_date", DateFilter(releaseYear, currentDate));
    assert UrlFields(genre, titleType, userRating, numVotes, releaseYear, currentDate) == f3;
    calc {
      UrlPrefix(genre, titleType);
      head + Field("title_type", titleType) + "&" + Field("genres", genre);
      { Append3(head, Field("title_type", titleType) + "&", Field("genres", genre));
        Append3(head, Field("title_type", titleType), "&"); }
      head + (Field("title_type", titleType) + "&" + Field("genres", genre));
      head + Join(f0, "&");
    }
    calc {
      head + Join(f3, "&");
      head + (Join(f2, "&") + s3);
      { Append3(head, Join(f2, "&"), s3); }
      head + Join(f2, "&") + s3;
      head + (Join(f1, "&") + s2) + s3;
      { Append3(head, Join(f1, "&"), s2); }
      head + Join(f1, "&") + s2 + s3;
      head + (Join(f0, "&") + s1) + s2 + s3;
      { Append3(head, Join(f0, "&"), s1); }
      head + Join(f0, "&") + s1 + s2 + s3;
      UrlPrefix(genre, titleType) + s1 + s2 + s3;
    }
  }

  /** A filter's field, if any, is taken off the front of the remaining fields. */
  lemma TakeOptional(key: string, value: Option<string>, rest: seq<string>)
    requires |key| > 0
    requires rest == [] || (|rest[0]| > 0 && rest[0][0] != key[0])
    ensures TakeField(OptionalField(key, value) + rest, key) == (value, rest)
  {
    match value
    case Some(v) =>
      var fields := [Field(key, v)] + rest;
      assert fields[0] == (key + "=") + v;
      assert fields[1..] == rest;
    case None =>
      assert [] + rest == rest;
      if rest != [] && |key + "="| <= |rest[0]| {
        assert rest[0][..|key + "="|][0] == rest[0][0];
      }
  }

  /** Two lists of fields without `&` concatenate to one. */
  lemma NoAmpersandAppend(a: seq<string>, b: seq<string>)
    requires forall k :: 0 <= k < |a| ==> '&' !in a[k]
    requires forall k :: 0 <= k < |b| ==> '&' !in b[k]
    ensures forall k :: 0 <= k < |a + b| ==> '&' !in (a + b)[k]
  {
    forall k | 0 <= k < |a + b| ensures '&' !in (a + b)[k] {
      if k < |a| {
        assert (a + b)[k] == a[k];
      } else {
        assert (a + b)[k] == b[k - |a|];
      }
    }
  }

  /** A filter value without `&` gives a field without `&`. */
  lemma OptionalFieldNoAmpersand(key: string, value: Option<string>)
    requires '&' !in key && (value.Some? ==> '&' !in value.value)
    ensures forall k :: 0 <= k < |OptionalField(key, value)| ==> '&' !in OptionalField(key, value)[k]
  {
  }

  /** No field of the query holds `&`, given none in the genre, the title type and the date. */
  lemma FieldsHaveNoAmpersand(
    genre: string, titleType: string, userRating: Option<int>, numVotes: Option<int>,
    releaseYear: Option<int>, currentDate: string)
    requires '&' !in genre && '&' !in titleType && '&' !in currentDate
    ensures var fields := UrlFields(genre, titleType, userRating, numVotes, releaseYear, currentDate);
      forall k :: 0 <= k < |fields| ==> '&' !in fields[k]
  {
    var base := [Field("title_type", titleType), Field("genres", genre)];
    var rf := OptionalField("user_rating", RatingFilter(userRating));
    var vf := OptionalField("num_votes", VotesFilter(numVotes));
    var df := OptionalField("release_date", DateFilter(releaseYear, currentDate));
    if Truthy(userRating) {
      assert '&' !in RatingText(userRating.value);
    }
    if Truthy(numVotes) {
      assert '&' !in Decimal(numVotes.value);
    }
    if Truthy(releaseYear) {
      assert '&' !in Decimal(releaseYear.value);
    }
    OptionalFieldNoAmpersand("user_rating", RatingFilter(userRating));
    OptionalFieldNoAmpersand("num_votes", VotesFilter(numVotes));
    OptionalFieldNoAmpersand("release_date", DateFilter(releaseYear, currentDate));
    NoAmpersandAppend(base, rf);
    NoAmpersandAppend(base + rf, vf);
    NoAmpersandAppend(base + rf + vf, df);
  }

  /** Reading the fields back gives the arguments, with the falsy optional ones dropped. */
  lemma ParseQueryRoundTrip(
    genre: string, titleType: string, userRating: Option<int>, numVotes: Option<int>,
    releaseYear: Option<int>, currentDate: string)
    ensures ParseQuery(UrlFields(genre, titleType, userRating, numVotes, releaseYear, currentDate))
         == Some(SearchQuery(titleType, genre, Kept(userRating), Kept(numVotes),
              if Truthy(releaseYear) then Some(DateRange(releaseYear.value, currentDate)) else None))
  {
    var fields := UrlFields(genre, titleType, userRating, numVotes, releaseYear, currentDate);
    var rf := OptionalField("user_rating", RatingFilter(userRating));
    var vf := OptionalField("num_votes", VotesFilter(numVotes));
    var df := OptionalField("release_date", DateFilter(releaseYear, currentDate));
    assert fields[0] == "title_type" + "=" + titleType;
    assert fields[1] == "genres" + "=" + genre;
    assert fields[2..] == rf + (vf + df);
    TakeOptional("release_date", DateFilter(releaseYear, currentDate), []);
    assert df + [] == df;
    TakeOptional("num_votes", VotesFilter(numVotes), df);
    TakeOptional("user_rating", RatingFilter(userRating), vf + df);
    if Truthy(userRating) { RatingFilterRoundTrip(userRating); }
    if Truthy(numVotes) { VotesFilterRoundTrip(numVotes); }
    if Truthy(releaseYear) { DateFilterRoundTrip(releaseYear, currentDate); }
  }

  /**
   * Reading back the URL that ConstructUrl builds gives the arguments it was
   * built from, with the falsy optional ones dropped, provided that no value
   * contains `&`.
   */
  lemma ConstructUrlRoundTrip(
    genre: string, titleType: string, userRating: Option<int>, numVotes: Option<int>,
    releaseYear: Option<int>, currentDate: string)
    requires '&' !in genre && '&' !in titleType && '&' !in currentDate
    ensures ParseSearchUrl(ConstructUrl(genre, titleType, userRating, numVotes, releaseYear, currentDate))
         == Some(SearchQuery(titleType, genre, Kept(userRating), Kept(numVotes),
              if Truthy(releaseYear) then Some(DateRange(releaseYear.value, currentDate)) else None))
  {
    var url := ConstructUrl(genre, titleType, userRating, numVotes, releaseYear, currentDate);
    var fields := UrlFields(genre, titleType, userRating, numVotes, releaseYear, currentDate);
    var head := BaseUrl + "?";
    var query := Join(fields, "&");
    ConstructUrlJoinsFields(genre, titleType, userRating, numVotes, releaseYear, currentDate);
    assert StripPrefix(url, head) == Some(query) by {
      assert url == head + query;
      assert url[..|head|] == head;
      assert url[|head|..] == query;
    }
    FieldsHaveNoAmpersand(genre, titleType, userRating, numVotes, releaseYear, currentDate);
    SplitJoin(fields, '&');
    ParseQueryRoundTrip(genre, titleType, userRating, numVotes, releaseYear, currentDate);
  }

  /**
   * The arguments `handle` passes on once the validator accepts them: a valid
   * genre and one of the title-type choices give a URL that reads back as
   * those arguments.
   */
  lemma ValidatedUrlRoundTrip(
    genre: string, titleType: string, userRating: Option<int>, numVotes: Option<int>,
    releaseYear: Option<int>, currentYear: int, currentDate: string)
    requires ValidateArguments(genre, userRating, releaseYear, currentYear).Pass?
    requires ParseTitleType(titleType).Some?
    requires '&' !in currentDate
    ensures ParseSearchUrl(ConstructUrl(genre, titleType, userRating, numVotes, releaseYear, currentDate))
         == Some(SearchQuery(titleType, genre, Kept(userRating), Kept(numVotes),
              if Truthy(releaseYear) then Some(DateRange(releaseYear.value, currentDate)) else None))
  {
    ConstructUrlRoundTrip(genre, titleType, userRating, numVotes, releaseYear, currentDate);
  }
}
