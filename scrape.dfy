/**
 * Turning the movie containers of a search-results page into movie entries,
 * and flattening the entries of several pages into one list.
 *
 * A container is given as the texts the HTML selectors found in it; finding
 * them is not modelled. A Python exception inside the per-container `try`
 * is modelled as `Raises`, and such a container yields no movie.
 */
module Scrape {
  import opened Wrappers
  import opened Text
  import opened Models

  /** The outcome of Python code that may raise. */
  datatype Attempt<+T> = Raises | Returns(value: T)

  /**
   * One `li` movie container: the heading text ("12. Title"), the image's alt
   * text ("Cast in Title"), the metadata items (year, duration, category; empty
   * when the metadata block is missing), the rating text and the plot text.
   */
  datatype Container = Container(
    heading: Option<string>,
    altText: Option<string>,
    metadataItems: seq<string>,
    rating: Option<string>,
    plot: Option<string>)

  /** The dictionary built for one container: a title and the six fields a save copies. */
  datatype ScrapedMovie = ScrapedMovie(title: Option<string>, details: Details)

  /** Separates the rank from the title in a heading. */
  const RankSeparator := ". "

  /** Separates the cast from the title in an image's alt text. */
  const CastSeparator := " in "

  /**
   * The title exactly as the command computes it: None for a missing or empty
   * heading, otherwise the second piece of `heading.split(". ")`, raising when
   * there is no second piece.
   */
  function TitleAsWritten(heading: Option<string>): (r: Attempt<Option<string>>)
    ensures heading.None? || heading == Some("") ==> r == Returns(None)
    ensures heading.Some? && heading.value != "" ==> (r.Raises? <==> !Contains(heading.value, RankSeparator))
    ensures heading.Some? && heading.value != "" && r.Returns? ==> r.value.Some?
    ensures r.Returns? && r.value.Some? ==> !Contains(r.value.value, RankSeparator)
    ensures r.Returns? && r.value.Some? ==>
      && Title(heading).Returns? && Title(heading).value.Some?
      && var rest := Title(heading).value.value;
         r.value.value <= rest && (r.value.value == rest || OccursAt(rest, RankSeparator, |r.value.value|))
  {
    match heading
    case None => Returns(None)
    case Some(h) =>
      if h == "" then Returns(None)
      else
        var pieces := Split(h, RankSeparator);
        if |pieces| < 2 then Raises
        else
          SecondPieceStartsRest(h);
          Returns(Some(pieces[1]))
  }

  /**
   * The second piece of a split heading is the start of the text after the
   * first separator: all of it, or the part before the next separator.
   */
  lemma SecondPieceStartsRest(h: string)
    requires h != "" && |Split(h, RankSeparator)| >= 2
    ensures Title(Some(h)).Returns? && Title(Some(h)).value.Some?
    ensures var rest := Title(Some(h)).value.value;
      var p := Split(h, RankSeparator)[1];
      p <= rest && (p == rest || OccursAt(rest, RankSeparator, |p|))
  {
    match FindFrom(h, RankSeparator, 0)
    case None =>
    case Some(k) =>
      var rest := h[k + |RankSeparator|..];
      assert Split(h, RankSeparator) == [h[..k]] + Split(rest, RankSeparator);
      if !Contains(rest, RankSeparator) {
        assert FindFrom(rest, RankSeparator, 0).None?;
        assert Split(rest, RankSeparator) == [rest];
      }
  }

  /**
   * The title with the rank removed, `heading.split(". ", 1)[1]`: everything
   * after the first separator. Missing or empty headings and headings without
   * a separator behave as in TitleAsWritten.
   */
  function Title(heading: Option<string>): (r: Attempt<Option<string>>)
    ensures heading.None? || heading == Some("") ==> r == Returns(None)
    ensures heading.Some? && heading.value != "" ==> (r.Raises? <==> !Contains(heading.value, RankSeparator))
    ensures heading.Some? && heading.value != "" && r.Returns? ==> r.value.Some?
    ensures r.Returns? && r.value.Some? ==>
      var h := heading.value;
      var k := |h| - |r.value.value| - |RankSeparator|;
      0 <= k && OccursAt(h, RankSeparator, k) && !Contains(h[..k], RankSeparator)
      && h[k + |RankSeparator|..] == r.value.value
  {
    match heading
    case None => Returns(None)
    case Some(h) =>
      if h == "" then Returns(None)
      else
        match FindFrom(h, RankSeparator, 0)
        case None => Raises
        case Some(k) =>
          assert !Contains(h[..k], RankSeparator) by {
            forall j: nat | OccursAt(h[..k], RankSeparator, j) ensures false {
              OccursInPrefix(h, RankSeparator, k, j);
            }
          }
          Returns(Some(h[k + |RankSeparator|..]))
  }

  /** A decimal rank holds no '.', so its separator is the first one of the heading. */
  lemma RankSplits(rank: int, title: string)
    ensures FindFrom(Decimal(rank) + RankSeparator + title, RankSeparator, 0) == Some(|Decimal(rank)|)
    ensures Split(Decimal(rank) + RankSeparator + title, RankSeparator) == [Decimal(rank)] + Split(title, RankSeparator)
  {
    SplitFirstByChar(Decimal(rank), RankSeparator, title, 0);
  }

  /** A ranked heading gives back its title, whatever the title contains. */
  lemma TitleStripsRank(rank: int, title: string)
    ensures Title(Some(Decimal(rank) + RankSeparator + title)) == Returns(Some(title))
  {
    var d := Decimal(rank);
    RankSplits(rank, title);
    assert (d + RankSeparator + title)[|d| + 2..] == title;
  }

  /**
   * As written, a ranked heading whose title itself holds ". " loses
   * everything from that point on: "1. Dr. No" gives "Dr".
   */
  lemma TitleAsWrittenTruncates(rank: int, first: string, rest: string)
    requires !Contains(first, RankSeparator)
    ensures TitleAsWritten(Some(Decimal(rank) + RankSeparator + (first + RankSeparator + rest)))
         == Returns(Some(first))
    ensures Title(Some(Decimal(rank) + RankSeparator + (first + RankSeparator + rest)))
         == Returns(Some(first + RankSeparator + rest))
  {
    var title := first + RankSeparator + rest;
    var h := Decimal(rank) + RankSeparator + title;
    TitleStripsRank(rank, title);
    RankSplits(rank, title);
    FirstSplits(first, rest);
    assert Split(h, RankSeparator)[1] == first;
  }

  /** A first piece without ". " is what splitting the title peels off. */
  lemma FirstSplits(first: string, rest: string)
    requires !Contains(first, RankSeparator)
    ensures Split(first + RankSeparator + rest, RankSeparator)[0] == first
  {
    var title := first + RankSeparator + rest;
    forall j: nat | j < |first| ensures !OccursAt(title, RankSeparator, j) {
      if j + 2 <= |first| {
        assert first[j..j + 2] == title[j..j + 2];
        assert !OccursAt(first, RankSeparator, j);
      } else {
        assert title[j + 1] == RankSeparator[0];
        assert title[j..j + 2][1] == title[j + 1];
        assert RankSeparator[1] != RankSeparator[0];
      }
    }
    SplitFirst(first, RankSeparator, rest);
  }

  /** The heading "1. Dr. No" is rank 1, the separator, and the title "Dr. No". */
  lemma DrNoParts()
    ensures Decimal(1) + RankSeparator + ("Dr" + RankSeparator + "No") == "1. Dr. No"
    ensures "Dr" + RankSeparator + "No" == "Dr. No"
    ensures !Contains("Dr", RankSeparator)
  {
    assert Decimal(1) == "1";
    AbsentChar("Dr", RankSeparator, 0);
  }

  /** The heading "1. Dr. No" is cut to "Dr" as written, and kept whole by Title. */
  lemma DrNoExample(heading: string)
    requires heading == "1. Dr. No"
    ensures TitleAsWritten(Some(heading)) == Returns(Some("Dr"))
    ensures Title(Some(heading)) == Returns(Some("Dr. No"))
  {
    DrNoParts();
    TitleAsWrittenTruncates(1, "Dr", "No");
  }

  /**
   * The two titles agree exactly when the text after the first separator has
   * no second one, which is the case for every heading whose title has no ". ".
   */
  lemma TitlesAgree(heading: Option<string>)
    ensures TitleAsWritten(heading) == Title(heading) <==>
      !(Title(heading).Returns? && Title(heading).value.Some? && Contains(Title(heading).value.value, RankSeparator))
  {
    if heading.Some? && heading.value != "" {
      var h := heading.value;
      match FindFrom(h, RankSeparator, 0)
      case None =>
      case Some(k) =>
        var rest := h[k + 2..];
        assert Split(h, RankSeparator) == [h[..k]] + Split(rest, RankSeparator);
        var inner := Split(rest, RankSeparator);
        if Contains(rest, RankSeparator) {
          assert |inner| > 1;
          assert |inner[0]| < |rest| by {
            assert OccursAt(rest, RankSeparator, |inner[0]|);
          }
        } else {
          assert inner == [rest];
        }
    }
  }

  /** The cast: the alt text before the first " in ", or all of it. */
  function CastOf(altText: string): (cast: string)
    ensures cast <= altText && !Contains(cast, CastSeparator)
    ensures cast == altText || OccursAt(altText, CastSeparator, |cast|)
    ensures forall j: nat :: j < |cast| ==> !OccursAt(altText, CastSeparator, j)
  {
    Split(altText, CastSeparator)[0]
  }

  /** Metadata item `k` when there are more than `k` items. */
  function ItemAt(items: seq<string>, k: nat): (r: Option<string>)
    ensures r.Some? <==> k < |items|
    ensures r.Some? ==> r.value == items[k]
  {
    if k < |items| then Some(items[k]) else None
  }

  /**
   * Which split the loop takes the title with: `AsWritten` is the command's own
   * `split(". ")[1]`, `Corrected` the intended `split(". ", 1)[1]`.
   */
  datatype TitleRule = AsWritten | Corrected

  /** The title of a heading under a rule; both rules raise on the same headings. */
  function TitleBy(rule: TitleRule, heading: Option<string>): (r: Attempt<Option<string>>)
    ensures r.Raises? <==> Title(heading).Raises?
    ensures r.Returns? ==> (r.value.None? <==> Title(heading).value.None?)
    ensures rule.Corrected? ==> r == Title(heading)
    ensures rule.AsWritten? ==> (r == Title(heading) <==>
      !(Title(heading).Returns? && Title(heading).value.Some? && Contains(Title(heading).value.value, RankSeparator)))
  {
    TitlesAgree(heading);
    match rule
    case AsWritten => TitleAsWritten(heading)
    case Corrected => Title(heading)
  }

  /**
   * One pass of the loop body for a container, given the cast left over from
   * earlier containers (None while the variable is still unbound). It raises
   * when the heading has no rank separator, or when the container has no alt
   * text and no cast has been bound yet.
   */
  function ExtractContainer(c: Container, cast: Option<string>, rule: TitleRule): (r: Attempt<ScrapedMovie>)
    ensures r.Raises? <==> Title(c.heading).Raises? || (c.altText.None? && cast.None?)
    ensures r.Returns? ==> r.value.title == TitleBy(rule, c.heading).value
    ensures r.Returns? && c.altText.Some? ==> r.value.details.cast == Some(CastOf(c.altText.value))
    ensures r.Returns? && c.altText.None? ==> r.value.details.cast == cast
    ensures r.Returns? ==>
      && r.value.details.releaseYear == ItemAt(c.metadataItems, 0)
      && r.value.details.duration == ItemAt(c.metadataItems, 1)
      && r.value.details.category == ItemAt(c.metadataItems, 2)
      && r.value.details.imdbRating == c.rating
      && r.value.details.plotSummary == c.plot
  {
    match TitleBy(rule, c.heading)
    case Raises => Raises
    case Returns(title) =>
      var cast := if c.altText.Some? then Some(CastOf(c.altText.value)) else cast;
      if cast.None? then Raises
      else
        Returns(ScrapedMovie(title, Details(
          releaseYear := ItemAt(c.metadataItems, 0),
          imdbRating := c.rating,
          cast := cast,
          plotSummary := c.plot,
          duration := ItemAt(c.metadataItems, 1),
          category := ItemAt(c.metadataItems, 2))))
  }

  /**
   * The movies the loop appends for `containers`, starting with `cast` bound
   * as given. A container that raises is skipped and leaves the cast as it
   * was; one that yields a movie leaves its cast behind for the next, so
   * every movie has a cast.
   */
  function ScrapeFrom(containers: seq<Container>, cast: Option<string>, rule: TitleRule): (movies: seq<ScrapedMovie>)
    ensures forall k :: 0 <= k < |movies| ==> movies[k].details.cast.Some?
    decreases |containers|
  {
    if containers == [] then []
    else match ExtractContainer(containers[0], cast, rule)
      case Raises => ScrapeFrom(containers[1..], cast, rule)
      case Returns(m) =>
        var rest := ScrapeFrom(containers[1..], m.details.cast, rule);
        assert forall k :: 0 < k <= |rest| ==> ([m] + rest)[k] == rest[k - 1];
        [m] + rest
  }

  /** The pass over container i decides what comes next and which cast the containers after it start with. */
  lemma ScrapeUnfold(containers: seq<Container>, i: nat, cast: Option<string>, rule: TitleRule)
    requires i < |containers|
    ensures ScrapeFrom(containers[i..], cast, rule) ==
      match ExtractContainer(containers[i], cast, rule)
      case Raises => ScrapeFrom(containers[i + 1..], cast, rule)
      case Returns(m) => [m] + ScrapeFrom(containers[i + 1..], m.details.cast, rule)
  {
    assert containers[i..][1..] == containers[i + 1..];
  }

  /**
   * The container loop of the page scrape: one movie per container that does
   * not raise, in container order, its title taken under `rule`.
   */
  method ScrapePage(containers: seq<Container>, rule: TitleRule) returns (movies: seq<ScrapedMovie>)
    ensures movies == ScrapeFrom(containers, None, rule)
  {
    movies := [];
    var cast: Option<string> := None;
    var i := 0;
    while i < |containers|
      invariant 0 <= i <= |containers|
      invariant movies + ScrapeFrom(containers[i..], cast, rule) == ScrapeFrom(containers, None, rule)
    {
      var c := containers[i];
      ghost var pass := ExtractContainer(c, cast, rule);
      ghost var before := movies;
      ScrapeUnfold(containers, i, cast, rule);
      var title := TitleBy(rule, c.heading);
      if title.Returns? {
        if c.altText.Some? {
          cast := Some(CastOf(c.altText.value));
        }
        if cast.Some? {
          var movie := ScrapedMovie(title.value, Details(
            releaseYear := ItemAt(c.metadataItems, 0),
            imdbRating := c.rating,
            cast := cast,
            plotSummary := c.plot,
            duration := ItemAt(c.metadataItems, 1),
            category := ItemAt(c.metadataItems, 2)));
          movies := movies + [movie];
        }
      }
      assert pass.Raises? ==> movies == before;
      assert pass.Returns? ==> movies == before + [pass.value] && cast == pass.value.details.cast;
      if pass.Returns? {
        Append3(before, [pass.value], ScrapeFrom(containers[i + 1..], cast, rule));
      }
      i := i + 1;
      assert movies + ScrapeFrom(containers[i..], cast, rule) == ScrapeFrom(containers, None, rule);
    }
  }

  /** A page never yields more movies than it has containers. */
  lemma {:induction false} ScrapeNeverLonger(containers: seq<Container>, cast: Option<string>, rule: TitleRule)
    ensures |ScrapeFrom(containers, cast, rule)| <= |containers|
    decreases |containers|
  {
    if containers != [] {
      match ExtractContainer(containers[0], cast, rule)
      case Raises => ScrapeNeverLonger(containers[1..], cast, rule);
      case Returns(m) => ScrapeNeverLonger(containers[1..], m.details.cast, rule);
    }
  }

  /**
   * The two rules give the same movies for containers whose corrected titles
   * hold no second separator.
   */
  lemma {:induction false} ScrapeRulesAgree(containers: seq<Container>, cast: Option<string>)
    requires forall k :: 0 <= k < |containers| ==> TitleAsWritten(containers[k].heading) == Title(containers[k].heading)
    ensures ScrapeFrom(containers, cast, AsWritten) == ScrapeFrom(containers, cast, Corrected)
    decreases |containers|
  {
    if containers != [] {
      var c := containers[0];
      assert TitleAsWritten(c.heading) == Title(c.heading);
      assert ExtractContainer(c, cast, AsWritten) == ExtractContainer(c, cast, Corrected);
      match ExtractContainer(c, cast, Corrected)
      case Raises => ScrapeRulesAgree(containers[1..], cast);
      case Returns(m) => ScrapeRulesAgree(containers[1..], m.details.cast);
    }
  }

  /** A container whose title does not raise and which has an alt text. */
  predicate Complete(c: Container) {
    Title(c.heading).Returns? && c.altText.Some?
  }

  /** The movie a complete container yields under a rule, field by field. */
  predicate Yields(c: Container, m: ScrapedMovie, rule: TitleRule) {
    && Complete(c)
    && m.title == TitleBy(rule, c.heading).value
    && m.details == Details(
         releaseYear := ItemAt(c.metadataItems, 0),
         imdbRating := c.rating,
         cast := Some(CastOf(c.altText.value)),
         plotSummary := c.plot,
         duration := ItemAt(c.metadataItems, 1),
         category := ItemAt(c.metadataItems, 2))
  }

  /** One complete container in front yields its movie in front. */
  lemma ScrapeComplete(c: Container, rest: seq<Container>, cast: Option<string>, rule: TitleRule)
    requires Complete(c)
    ensures ExtractContainer(c, cast, rule).Returns?
    ensures Yields(c, ExtractContainer(c, cast, rule).value, rule)
    ensures ScrapeFrom([c] + rest, cast, rule) ==
      [ExtractContainer(c, cast, rule).value] + ScrapeFrom(rest, Some(CastOf(c.altText.value)), rule)
  {
    assert ([c] + rest)[1..] == rest;
  }

  /** Matching a container to a movie in front keeps two matched sequences matched. */
  lemma YieldsCons(c: Container, rest: seq<Container>, m: ScrapedMovie, tail: seq<ScrapedMovie>, rule: TitleRule)
    requires Yields(c, m, rule) && |rest| == |tail|
    requires forall k :: 0 <= k < |rest| ==> Yields(rest[k], tail[k], rule)
    ensures forall k :: 0 <= k < |rest| + 1 ==> Yields(([c] + rest)[k], ([m] + tail)[k], rule)
  {
    PairwiseCons((c', m') => Yields(c', m', rule), c, rest, m, tail);
  }

  /** A relation that holds pairwise still does after one more matched pair in front. */
  lemma PairwiseCons<A, B>(p: (A, B) -> bool, x: A, xs: seq<A>, y: B, ys: seq<B>)
    requires p(x, y) && |xs| == |ys|
    requires forall k :: 0 <= k < |xs| ==> p(xs[k], ys[k])
    ensures forall k :: 0 <= k < |xs| + 1 ==> p(([x] + xs)[k], ([y] + ys)[k])
  {
    forall k | 0 < k < |xs| + 1
      ensures p(([x] + xs)[k], ([y] + ys)[k])
    {
      assert ([x] + xs)[k] == xs[k - 1];
      assert ([y] + ys)[k] == ys[k - 1];
    }
  }

  /**
   * When every container is complete, each yields its own movie, in order:
   * its title, its own cast, its metadata items, rating and plot.
   */
  lemma {:induction false} ScrapeKeepsComplete(containers: seq<Container>, cast: Option<string>, rule: TitleRule)
    requires forall k :: 0 <= k < |containers| ==> Complete(containers[k])
    ensures |ScrapeFrom(containers, cast, rule)| == |containers|
    ensures forall k :: 0 <= k < |containers| ==> Yields(containers[k], ScrapeFrom(containers, cast, rule)[k], rule)
    decreases |containers|
  {
    if containers != [] {
      var c := containers[0];
      var rest := containers[1..];
      assert containers == [c] + rest;
      var next := Some(CastOf(c.altText.value));
      ScrapeComplete(c, rest, cast, rule);
      ScrapeKeepsComplete(rest, next, rule);
      YieldsCons(c, rest, ExtractContainer(c, cast, rule).value, ScrapeFrom(rest, next, rule), rule);
    }
  }

  /** Before any alt text has been seen, a container without one is skipped. */
  lemma ScrapeSkipsUnboundCast(c: Container, rest: seq<Container>, rule: TitleRule)
    requires c.altText.None?
    ensures ScrapeFrom([c] + rest, None, rule) == ScrapeFrom(rest, None, rule)
  {
    assert ([c] + rest)[1..] == rest;
  }

  /** A container without alt text takes the cast of the last movie before it. */
  lemma ScrapeReusesCast(first: Container, second: Container, rule: TitleRule)
    requires Complete(first)
    requires Title(second.heading).Returns? && second.altText.None?
    ensures |ScrapeFrom([first, second], None, rule)| == 2
    ensures ScrapeFrom([first, second], None, rule)[1].details.cast == Some(CastOf(first.altText.value))
  {
    var cast := Some(CastOf(first.altText.value));
    ScrapeComplete(first, [second], None, rule);
    assert [first] + [second] == [first, second];
    var m := ExtractContainer(second, cast, rule);
    assert m.Returns? && m.value.details.cast == cast;
    assert ScrapeFrom([second], cast, rule) == [m.value] + ScrapeFrom([], cast, rule);
  }

  /**
   * An alt text "<cast> in <title>" gives the cast back exactly when " in "
   * first occurs after the cast, that is when "<cast> in" holds no " in ".
   */
  lemma CastBeforeTitle(cast: string, title: string)
    ensures CastOf(cast + CastSeparator + title) == cast <==> !Contains(cast + " in", CastSeparator)
  {
    var s := cast + CastSeparator + title;
    var p := cast + " in";
    assert s[..|p|] == p;
    if !Contains(p, CastSeparator) {
      forall j: nat | j < |cast| ensures !OccursAt(s, CastSeparator, j) {
        OccursBeforeEnd(s, CastSeparator, |p|, j);
      }
      SplitFirst(cast, CastSeparator, title);
    } else {
      var j: nat :| j <= |p| && OccursAt(p, CastSeparator, j);
      OccursInPrefix(s, CastSeparator, |p|, j);
      assert j < |cast|;
    }
  }

  /**
   * A page with one container shaped like the listing's (ranked heading,
   * "<cast> in <title>" alt text, three metadata items) yields exactly one
   * movie holding the title without its rank, the cast and every field. As
   * written this needs a title without ". ".
   */
  lemma ScrapeSingleContainer(rank: int, title: string, cast: string, items: seq<string>,
                              rating: Option<string>, plot: Option<string>, rule: TitleRule)
    requires !Contains(cast + " in", CastSeparator) && |items| == 3
    requires rule.AsWritten? ==> !Contains(title, RankSeparator)
    ensures ScrapeFrom([Container(Some(Decimal(rank) + RankSeparator + title),
                                  Some(cast + CastSeparator + title), items, rating, plot)], None, rule)
         == [ScrapedMovie(Some(title), Details(
              releaseYear := Some(items[0]),
              imdbRating := rating,
              cast := Some(cast),
              plotSummary := plot,
              duration := Some(items[1]),
              category := Some(items[2])))]
  {
    var c := Container(Some(Decimal(rank) + RankSeparator + title),
                       Some(cast + CastSeparator + title), items, rating, plot);
    TitleStripsRank(rank, title);
    CastBeforeTitle(cast, title);
    assert [c][1..] == [];
  }

  /**
   * The loop as written cuts a title holding ". " at that point, where the
   * corrected loop keeps it whole: "1. Dr. No" is saved as "Dr".
   */
  lemma ScrapeTruncatesTitle(rank: int, first: string, rest: string, c: Container)
    requires !Contains(first, RankSeparator) && c.altText.Some?
    requires c.heading == Some(Decimal(rank) + RankSeparator + (first + RankSeparator + rest))
    ensures |ScrapeFrom([c], None, AsWritten)| == 1 && ScrapeFrom([c], None, AsWritten)[0].title == Some(first)
    ensures |ScrapeFrom([c], None, Corrected)| == 1
      && ScrapeFrom([c], None, Corrected)[0].title == Some(first + RankSeparator + rest)
  {
    TitleAsWrittenTruncates(rank, first, rest);
    ScrapeComplete(c, [], None, AsWritten);
    ScrapeComplete(c, [], None, Corrected);
    assert [c] + [] == [c];
  }

  /** The movies of all pages, page after page (`scrape_url`'s flattening). */
  function Flatten(pages: seq<seq<ScrapedMovie>>): (movies: seq<ScrapedMovie>)
    ensures |pages| == 1 ==> movies == pages[0]
  {
    if pages == [] then [] else pages[0] + Flatten(pages[1..])
  }

  /** Flattening respects the order of the pages. */
  lemma {:induction false} FlattenAppend(first: seq<seq<ScrapedMovie>>, second: seq<seq<ScrapedMovie>>)
    ensures Flatten(first + second) == Flatten(first) + Flatten(second)
    decreases |first|
  {
    if first == [] {
      assert first + second == second;
    } else {
      assert (first + second)[1..] == first[1..] + second;
      FlattenAppend(first[1..], second);
    }
  }

  /** The flattened list holds as many movies as all pages together. */
  lemma {:induction false} FlattenLength(pages: seq<seq<ScrapedMovie>>)
    ensures |Flatten(pages)| == TotalCount(pages)
    decreases |pages|
  {
    if pages != [] {
      FlattenLength(pages[1..]);
    }
  }

  function TotalCount(pages: seq<seq<ScrapedMovie>>): nat
  {
    if pages == [] then 0 else |pages[0]| + TotalCount(pages[1..])
  }
}
