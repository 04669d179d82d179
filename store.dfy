/**
 * Saving scraped movies into the `Movie` table: the table keyed by its unique
 * title column, the loop that splits the scraped movies into new records and
 * updates of stored ones, the bulk insert that ignores conflicts and the bulk
 * update of the six detail columns.
 */
module Store {
  import opened Wrappers
  import opened Models
  import opened Scrape

  /** The `Movie` table: each row under its unique title. */
  type Table = map<string, MovieRecord>

  /** Every row sits under its own title. */
  ghost predicate Keyed(rows: Table) {
    forall t :: t in rows ==> rows[t].title == Some(t)
  }

  /** The titles of the scraped movies that have one. */
  function TitleSet(ms: seq<ScrapedMovie>): set<string> {
    set k | 0 <= k < |ms| && ms[k].title.Some? :: ms[k].title.value
  }

  /** The position of the first movie titled `t`. */
  function FirstIndex(ms: seq<ScrapedMovie>, t: string): (r: Option<nat>)
    ensures r.Some? ==> r.value < |ms| && ms[r.value].title == Some(t)
    ensures r.Some? ==> forall j :: 0 <= j < r.value ==> ms[j].title != Some(t)
    ensures r.None? <==> t !in TitleSet(ms)
  {
    if ms == [] then None
    else
      var init := ms[..|ms| - 1];
      assert forall j :: 0 <= j < |init| ==> init[j] == ms[j];
      match FirstIndex(init, t)
      case Some(k) => Some(k)
      case None =>
        if ms[|ms| - 1].title == Some(t) then Some(|ms| - 1)
        else
          assert forall j :: 0 <= j < |ms| ==> ms[j].title != Some(t) by {
            forall j | 0 <= j < |ms| ensures ms[j].title != Some(t) {
              assert j < |init| ==> init[j] == ms[j];
            }
          }
          None
  }

  /** The position of the last movie titled `t`. */
  function LastIndex(ms: seq<ScrapedMovie>, t: string): (r: Option<nat>)
    ensures r.Some? ==> r.value < |ms| && ms[r.value].title == Some(t)
    ensures r.Some? ==> forall j :: r.value < j < |ms| ==> ms[j].title != Some(t)
    ensures r.None? <==> t !in TitleSet(ms)
  {
    if ms == [] then None
    else if ms[|ms| - 1].title == Some(t) then Some(|ms| - 1)
    else
      var init := ms[..|ms| - 1];
      assert forall j :: 0 <= j < |init| ==> init[j] == ms[j];
      LastIndex(init, t)
  }

  /**
   * The table a save should leave behind: a stored title that the movies
   * mention gets the details of the last movie with that title; a title not
   * stored yet gets a new row with the first such movie's details and no
   * director; every other row stays as it was.
   */
  function Upserted(rows: Table, ms: seq<ScrapedMovie>): (after: Table)
    ensures after.Keys == rows.Keys + TitleSet(ms)
  {
    map t | t in rows.Keys + TitleSet(ms) ::
      if t in rows then
        match LastIndex(ms, t)
        case None => rows[t]
        case Some(k) => rows[t].(details := ms[k].details)
      else
        MovieRecord(Some(t), None, ms[FirstIndex(ms, t).value].details)
  }

  /** The rows of `filter(title__in=titles)`, keyed by title. */
  function Existing(rows: Table, ms: seq<ScrapedMovie>): (existing: Table)
    ensures forall t :: t in existing <==> t in rows && t in TitleSet(ms)
    ensures forall t :: t in existing ==> existing[t] == rows[t]
  {
    map t | t in rows && t in TitleSet(ms) :: rows[t]
  }

  /** The movie counts as an update: its title is a key of the existing rows. */
  predicate IsUpdate(existing: Table, m: ScrapedMovie)
    ensures IsUpdate(existing, m) <==> exists t :: m.title == Some(t) && t in existing
  {
    m.title.Some? && m.title.value in existing
  }

  /** The `Movie` instance built for a movie that is not stored yet. */
  function NewRecord(m: ScrapedMovie): (rec: MovieRecord)
    ensures rec.title == m.title && rec.director.None? && rec.details == m.details
  {
    MovieRecord(m.title, None, m.details)
  }

  /** The records the loop collects in `new_movies`. */
  function NewRecords(existing: Table, ms: seq<ScrapedMovie>): (recs: seq<MovieRecord>)
    ensures forall k :: 0 <= k < |recs| ==>
      recs[k].director.None? && (recs[k].title.None? || recs[k].title.value !in existing)
    ensures |recs| <= |ms|
  {
    if ms == [] then []
    else
      var m := ms[|ms| - 1];
      NewRecords(existing, ms[..|ms| - 1]) + (if IsUpdate(existing, m) then [] else [NewRecord(m)])
  }

  /** The titles of the records the loop collects in `updates`, in order. */
  function UpdatedTitles(existing: Table, ms: seq<ScrapedMovie>): (titles: seq<string>)
    ensures forall k :: 0 <= k < |titles| ==> titles[k] in existing
    ensures |titles| <= |ms|
  {
    if ms == [] then []
    else
      var m := ms[|ms| - 1];
      UpdatedTitles(existing, ms[..|ms| - 1]) + (if IsUpdate(existing, m) then [m.title.value] else [])
  }

  /**
   * The existing records after the loop has copied the details of every
   * update into them: the last movie with a record's title decides its details.
   */
  function Refreshed(existing: Table, ms: seq<ScrapedMovie>): (objects: Table)
    ensures objects.Keys == existing.Keys
    ensures forall t :: t in objects ==>
      objects[t] == (match LastIndex(ms, t)
        case None => existing[t]
        case Some(k) => existing[t].(details := ms[k].details))
  {
    if ms == [] then existing
    else
      var m := ms[|ms| - 1];
      var init := ms[..|ms| - 1];
      assert forall j :: 0 <= j < |init| ==> init[j] == ms[j];
      var before := Refreshed(existing, init);
      if IsUpdate(existing, m) then
        var t := m.title.value;
        before[t := before[t].(details := m.details)]
      else before
  }

  /** The number of movies whose title is already stored. */
  function StoredCount(rows: Table, ms: seq<ScrapedMovie>): (n: nat)
    ensures n <= |ms|
  {
    if ms == [] then 0
    else
      var m := ms[|ms| - 1];
      StoredCount(rows, ms[..|ms| - 1]) + (if m.title.Some? && m.title.value in rows then 1 else 0)
  }

  /**
   * One insert of `bulk_create(..., ignore_conflicts=True)`: a record whose
   * title is already stored, or that has no title, is dropped.
   */
  function Insert(rows: Table, rec: MovieRecord): (after: Table)
    ensures rec.title.Some? && rec.title.value !in rows ==> after == rows[rec.title.value := rec]
    ensures rec.title.None? || rec.title.value in rows ==> after == rows
  {
    if rec.title.Some? && rec.title.value !in rows then rows[rec.title.value := rec] else rows
  }

  /** The table after the bulk insert of `recs`, in order. */
  function InsertAll(rows: Table, recs: seq<MovieRecord>): (after: Table)
    ensures forall t :: t in rows ==> t in after && after[t] == rows[t]
    ensures forall t :: t in after && t !in rows ==> after[t].title == Some(t)
  {
    if recs == [] then rows else Insert(InsertAll(rows, recs[..|recs| - 1]), recs[|recs| - 1])
  }

  /**
   * The table after `bulk_update` of the listed records: each listed title
   * gets its record's current state, every other row is left alone.
   */
  function ApplyUpdates(rows: Table, objects: Table, titles: seq<string>): (after: Table)
    requires forall k :: 0 <= k < |titles| ==> titles[k] in objects
    ensures forall t :: t in after <==> t in rows || t in titles
    ensures forall t :: t in after ==> after[t] == if t in titles then objects[t] else rows[t]
  {
    if titles == [] then rows
    else
      var init := titles[..|titles| - 1];
      var t := titles[|titles| - 1];
      assert forall u :: u in titles <==> u in init || u == t by {
        assert titles == init + [t];
      }
      ApplyUpdates(rows, objects, init)[t := objects[t]]
  }

  /** What the save computes, from the loop's collections. */
  function Saved(rows: Table, existing: Table, ms: seq<ScrapedMovie>): (saved: Table)
    ensures forall t :: t in rows ==> t in saved
    ensures forall t :: t in rows && t !in UpdatedTitles(existing, ms) ==> saved[t] == rows[t]
  {
    ApplyUpdates(InsertAll(rows, NewRecords(existing, ms)), Refreshed(existing, ms), UpdatedTitles(existing, ms))
  }

  /** Every record of `existing` is the stored row of its title. */
  predicate Agrees(rows: Table, existing: Table) {
    forall t :: t in existing ==> t in rows && existing[t] == rows[t]
  }

  /** Every stored title among the movies is one of the existing rows. */
  predicate CoversStored(rows: Table, existing: Table, ms: seq<ScrapedMovie>) {
    forall k :: 0 <= k < |ms| && ms[k].title.Some? && ms[k].title.value in rows ==> ms[k].title.value in existing
  }

  /** The titles of one more movie. */
  lemma TitleSetSnoc(ms: seq<ScrapedMovie>, m: ScrapedMovie)
    ensures TitleSet(ms + [m]) == TitleSet(ms) + (if m.title.Some? then {m.title.value} else {})
  {
    var ms' := ms + [m];
    forall u | u in TitleSet(ms') ensures u in TitleSet(ms) || m.title == Some(u) {
      var k :| 0 <= k < |ms'| && ms'[k].title == Some(u);
      if k < |ms| {
        assert ms[k] == ms'[k];
      }
    }
    forall u | u in TitleSet(ms) ensures u in TitleSet(ms') {
      var k :| 0 <= k < |ms| && ms[k].title == Some(u);
      assert ms'[k] == ms[k];
    }
    if m.title.Some? {
      assert ms'[|ms|] == m;
    }
  }

  /** The row of title `u` after one more movie. */
  lemma UpsertedSnocAt(rows: Table, ms: seq<ScrapedMovie>, m: ScrapedMovie, u: string)
    requires u in Upserted(rows, ms + [m])
    ensures m.title != Some(u) ==> u in Upserted(rows, ms) && Upserted(rows, ms + [m])[u] == Upserted(rows, ms)[u]
    ensures m.title == Some(u) && u in rows ==> Upserted(rows, ms + [m])[u] == rows[u].(details := m.details)
    ensures m.title == Some(u) && u !in rows && u in Upserted(rows, ms) ==>
      Upserted(rows, ms + [m])[u] == Upserted(rows, ms)[u]
    ensures m.title == Some(u) && u !in rows && u !in Upserted(rows, ms) ==>
      Upserted(rows, ms + [m])[u] == MovieRecord(Some(u), None, m.details)
  {
    var ms' := ms + [m];
    assert ms'[..|ms|] == ms;
    TitleSetSnoc(ms, m);
  }

  /**
   * Saving one more movie: a title without value changes nothing; a stored
   * title takes the movie's details; a title not stored yet is added with
   * them unless an earlier movie already added it.
   */
  lemma UpsertedSnoc(rows: Table, ms: seq<ScrapedMovie>, m: ScrapedMovie)
    ensures Upserted(rows, ms + [m]) ==
      match m.title
      case None => Upserted(rows, ms)
      case Some(t) =>
        if t in rows then Upserted(rows, ms)[t := rows[t].(details := m.details)]
        else if t in Upserted(rows, ms) then Upserted(rows, ms)
        else Upserted(rows, ms)[t := MovieRecord(Some(t), None, m.details)]
  {
    match m.title
    case None => UpsertedSnocCase(rows, ms, m, Upserted(rows, ms));
    case Some(t) =>
      if t in rows {
        UpsertedSnocCase(rows, ms, m, Upserted(rows, ms)[t := rows[t].(details := m.details)]);
      } else if t in Upserted(rows, ms) {
        UpsertedSnocCase(rows, ms, m, Upserted(rows, ms));
      } else {
        UpsertedSnocCase(rows, ms, m, Upserted(rows, ms)[t := MovieRecord(Some(t), None, m.details)]);
      }
  }

  /** A table that agrees with the row-by-row description of one more movie is the saved table. */
  lemma UpsertedSnocCase(rows: Table, ms: seq<ScrapedMovie>, m: ScrapedMovie, expected: Table)
    requires forall u :: u in expected <==> u in rows || u in TitleSet(ms) || m.title == Some(u)
    requires forall u :: u in expected && m.title != Some(u) ==> u in Upserted(rows, ms) && expected[u] == Upserted(rows, ms)[u]
    requires m.title.Some? && m.title.value in rows ==> expected[m.title.value] == rows[m.title.value].(details := m.details)
    requires m.title.Some? && m.title.value !in rows && m.title.value in Upserted(rows, ms) ==>
      expected[m.title.value] == Upserted(rows, ms)[m.title.value]
    requires m.title.Some? && m.title.value !in rows && m.title.value !in Upserted(rows, ms) ==>
      expected[m.title.value] == MovieRecord(Some(m.title.value), None, m.details)
    ensures Upserted(rows, ms + [m]) == expected
  {
    var after := Upserted(rows, ms + [m]);
    TitleSetSnoc(ms, m);
    assert after.Keys == expected.Keys;
    forall u | u in after ensures after[u] == expected[u] {
      UpsertedSnocAt(rows, ms, m, u);
    }
  }

  /** Saving nothing leaves the table as it is. */
  lemma UpsertedEmpty(rows: Table)
    ensures Upserted(rows, []) == rows
  {
  }

  /**
   * The loop's collections, inserted and then updated, give the table the
   * declarative upsert describes, for every prefix of the movies.
   */
  lemma {:induction false} SavedIsUpserted(rows: Table, existing: Table, ms: seq<ScrapedMovie>)
    requires Agrees(rows, existing) && CoversStored(rows, existing, ms)
    ensures Saved(rows, existing, ms) == Upserted(rows, ms)
    decreases |ms|
  {
    if ms == [] {
      UpsertedEmpty(rows);
    } else {
      var init := ms[..|ms| - 1];
      var m := ms[|ms| - 1];
      assert ms == init + [m];
      assert CoversStored(rows, existing, init) by {
        forall k | 0 <= k < |init| ensures init[k] == ms[k] { }
      }
      SavedIsUpserted(rows, existing, init);
      if IsUpdate(existing, m) {
        SavedSnocUpdate(rows, existing, init, m);
      } else {
        assert m.title.Some? ==> m.title.value !in rows by {
          assert ms[|ms| - 1] == m;
        }
        SavedSnocInsert(rows, existing, init, m);
      }
    }
  }

  /** The save step for a movie whose title is among the existing rows. */
  lemma SavedSnocUpdate(rows: Table, existing: Table, init: seq<ScrapedMovie>, m: ScrapedMovie)
    requires Agrees(rows, existing) && IsUpdate(existing, m)
    requires Saved(rows, existing, init) == Upserted(rows, init)
    ensures Saved(rows, existing, init + [m]) == Upserted(rows, init + [m])
  {
    var ms := init + [m];
    assert ms[..|init|] == init;
    var t := m.title.value;
    var inserted := InsertAll(rows, NewRecords(existing, init));
    var objects := Refreshed(existing, init);
    var titles := UpdatedTitles(existing, init);
    var objects' := objects[t := objects[t].(details := m.details)];
    assert NewRecords(existing, ms) == NewRecords(existing, init);
    assert UpdatedTitles(existing, ms) == titles + [t];
    assert Refreshed(existing, ms) == objects';
    UpdateStep(inserted, objects, titles, t, m.details);
    assert objects[t].(details := m.details) == rows[t].(details := m.details);
    UpsertedSnoc(rows, init, m);
  }

  /** The save step for a movie whose title is not stored, or missing. */
  lemma SavedSnocInsert(rows: Table, existing: Table, init: seq<ScrapedMovie>, m: ScrapedMovie)
    requires !IsUpdate(existing, m) && (m.title.Some? ==> m.title.value !in rows)
    requires Saved(rows, existing, init) == Upserted(rows, init)
    ensures Saved(rows, existing, init + [m]) == Upserted(rows, init + [m])
  {
    var ms := init + [m];
    var news := NewRecords(existing, init);
    var objects := Refreshed(existing, init);
    var titles := UpdatedTitles(existing, init);
    var rec := NewRecord(m);
    FoldsSnocNew(existing, init, m);
    InsertAllSnoc(rows, news, rec);
    var inserted := InsertAll(rows, news);
    InsertStep(inserted, objects, titles, rec);
    UpsertedSnocNew(rows, init, m);
  }

  /** The loop's collections after one more movie that is not an update. */
  lemma FoldsSnocNew(existing: Table, init: seq<ScrapedMovie>, m: ScrapedMovie)
    requires !IsUpdate(existing, m)
    ensures NewRecords(existing, init + [m]) == NewRecords(existing, init) + [NewRecord(m)]
    ensures UpdatedTitles(existing, init + [m]) == UpdatedTitles(existing, init)
    ensures Refreshed(existing, init + [m]) == Refreshed(existing, init)
  {
    assert (init + [m])[..|init|] == init;
  }

  /** Inserting one more record. */
  lemma InsertAllSnoc(rows: Table, recs: seq<MovieRecord>, rec: MovieRecord)
    ensures InsertAll(rows, recs + [rec]) == Insert(InsertAll(rows, recs), rec)
  {
    assert (recs + [rec])[..|recs|] == recs;
  }

  /** One more movie whose title is not stored inserts its record unless the title is taken. */
  lemma UpsertedSnocNew(rows: Table, ms: seq<ScrapedMovie>, m: ScrapedMovie)
    requires m.title.None? || m.title.value !in rows
    ensures Upserted(rows, ms + [m]) == Insert(Upserted(rows, ms), NewRecord(m))
  {
    UpsertedSnoc(rows, ms, m);
  }

  /** Updating one more record after the others: the last write wins. */
  lemma UpdateStep(rows: Table, objects: Table, titles: seq<string>, t: string, d: Details)
    requires forall k :: 0 <= k < |titles| ==> titles[k] in objects
    requires t in objects
    ensures var objects' := objects[t := objects[t].(details := d)];
      ApplyUpdates(rows, objects', titles + [t])
      == ApplyUpdates(rows, objects, titles)[t := objects[t].(details := d)]
  {
    var objects' := objects[t := objects[t].(details := d)];
    var titles' := titles + [t];
    var lhs := ApplyUpdates(rows, objects', titles');
    var before := ApplyUpdates(rows, objects, titles);
    var rhs := before[t := objects'[t]];
    forall u | u in lhs ensures u in rhs && lhs[u] == rhs[u] {
      assert u in titles' <==> u in titles || u == t;
      if u != t && u in titles {
        assert objects'[u] == objects[u];
      }
    }
    forall u | u in rhs ensures u in lhs {
      assert u in titles' <==> u in titles || u == t;
    }
    assert lhs.Keys == rhs.Keys;
  }

  /** Inserting a record whose title is not updated commutes with the updates. */
  lemma InsertStep(rows: Table, objects: Table, titles: seq<string>, rec: MovieRecord)
    requires forall k :: 0 <= k < |titles| ==> titles[k] in objects
    requires rec.title.None? || rec.title.value !in titles
    ensures ApplyUpdates(Insert(rows, rec), objects, titles) == Insert(ApplyUpdates(rows, objects, titles), rec)
  {
    var lhs := ApplyUpdates(Insert(rows, rec), objects, titles);
    var rhs := Insert(ApplyUpdates(rows, objects, titles), rec);
    forall u | u in lhs ensures u in rhs && lhs[u] == rhs[u] {
    }
    assert lhs.Keys == rhs.Keys;
  }

  /**
   * The loop sends every movie to exactly one of the two collections, and
   * the updates are the movies whose title is stored.
   */
  lemma {:induction false} PartitionSizes(rows: Table, existing: Table, ms: seq<ScrapedMovie>)
    requires Agrees(rows, existing) && CoversStored(rows, existing, ms)
    ensures |UpdatedTitles(existing, ms)| == StoredCount(rows, ms)
    ensures |NewRecords(existing, ms)| + |UpdatedTitles(existing, ms)| == |ms|
    decreases |ms|
  {
    if ms != [] {
      var init := ms[..|ms| - 1];
      assert CoversStored(rows, existing, init) by {
        forall k | 0 <= k < |init| ensures init[k] == ms[k] { }
      }
      PartitionSizes(rows, existing, init);
    }
  }

  /** A save keeps every row under its own title. */
  lemma UpsertedKeyed(rows: Table, ms: seq<ScrapedMovie>)
    requires Keyed(rows)
    ensures Keyed(Upserted(rows, ms))
  {
  }

  /**
   * A save loses no row, never touches a director, and leaves the rows of
   * titles the movies do not mention exactly as they were.
   */
  lemma UpsertedFrame(rows: Table, ms: seq<ScrapedMovie>, t: string)
    requires t in rows
    ensures t in Upserted(rows, ms)
    ensures Upserted(rows, ms)[t].title == rows[t].title
    ensures Upserted(rows, ms)[t].director == rows[t].director
    ensures t !in TitleSet(ms) ==> Upserted(rows, ms)[t] == rows[t]
  {
  }

  /**
   * After a save, every scraped title is stored, with the details of the
   * last movie of that title when it was stored before and of the first
   * when it was not.
   */
  lemma UpsertedStoresMovies(rows: Table, ms: seq<ScrapedMovie>, k: nat)
    requires k < |ms| && ms[k].title.Some?
    ensures ms[k].title.value in Upserted(rows, ms)
    ensures var t := ms[k].title.value;
      var d := Upserted(rows, ms)[t].details;
      if t in rows then d == ms[LastIndex(ms, t).value].details
      else d == ms[FirstIndex(ms, t).value].details
  {
    assert ms[k].title.value in TitleSet(ms);
  }

  /**
   * The save test's situation: of two movies, one titled like a stored row
   * and one with a new title, the first updates that row and the second is
   * inserted with no director.
   */
  lemma SaveOneStoredOneNew(rows: Table, m1: ScrapedMovie, m2: ScrapedMovie, t1: string, t2: string)
    requires m1.title == Some(t1) && m2.title == Some(t2) && t1 in rows && t2 !in rows
    ensures StoredCount(rows, [m1, m2]) == 1
    ensures Upserted(rows, [m1, m2])
      == rows[t1 := rows[t1].(details := m1.details)][t2 := MovieRecord(Some(t2), None, m2.details)]
  {
    assert [m1, m2][..1] == [m1];
    assert [m1][..0] == [];
    UpsertedEmpty(rows);
    UpsertedSnoc(rows, [], m1);
    assert [] + [m1] == [m1];
    UpsertedSnoc(rows, [m1], m2);
    assert [m1] + [m2] == [m1, m2];
  }

  /** The database table the command writes to. */
  class MovieStore {
    var rows: Table

    ghost predicate Valid()
      reads this
    {
      Keyed(rows)
    }

    /** `Movie.objects.bulk_create(records, ignore_conflicts=True)`. */
    method BulkCreate(records: seq<MovieRecord>)
      requires Valid()
      modifies this
      ensures Valid()
      ensures rows == InsertAll(old(rows), records)
    {
      var i := 0;
      while i < |records|
        invariant 0 <= i <= |records|
        invariant Valid()
        invariant rows == InsertAll(old(rows), records[..i])
      {
        var rec := records[i];
        assert records[..i + 1][..i] == records[..i];
        if rec.title.Some? && rec.title.value !in rows {
          rows := rows[rec.title.value := rec];
        }
        i := i + 1;
      }
      assert records[..i] == records;
    }

    /** `Movie.objects.bulk_update(...)` of the records listed by title, on the six detail columns. */
    method BulkUpdate(objects: Table, titles: seq<string>)
      requires Valid() && Keyed(objects)
      requires forall k :: 0 <= k < |titles| ==> titles[k] in objects
      modifies this
      ensures Valid()
      ensures rows == ApplyUpdates(old(rows), objects, titles)
    {
      var i := 0;
      while i < |titles|
        invariant 0 <= i <= |titles|
        invariant Valid()
        invariant rows == ApplyUpdates(old(rows), objects, titles[..i])
      {
        assert titles[..i + 1][..i] == titles[..i];
        rows := rows[titles[i] := objects[titles[i]]];
        i := i + 1;
      }
      assert titles[..i] == titles;
    }

    /**
     * Saves the scraped movies: a movie whose title is stored updates that
     * row's six detail columns, any other is inserted unless its title is
     * taken or missing. Returns the sizes of the two collections the log
     * line reports.
     */
    method SaveMovies(movies: seq<ScrapedMovie>) returns (created: nat, updated: nat)
      requires Valid()
      modifies this
      ensures Valid()
      ensures rows == Upserted(old(rows), movies)
      ensures updated == StoredCount(old(rows), movies)
      ensures created + updated == |movies|
    {
      if |movies| == 0 {
        UpsertedEmpty(rows);
        return 0, 0;
      }
      var existing := Existing(rows, movies);
      ghost var rows0 := rows;
      ghost var existing0 := existing;
      assert CoversStored(rows0, existing0, movies) by {
        forall k | 0 <= k < |movies| && movies[k].title.Some? && movies[k].title.value in rows0
          ensures movies[k].title.value in existing0 {
          assert movies[k].title.value in TitleSet(movies);
        }
      }
      var newMovies: seq<MovieRecord> := [];
      var updates: seq<string> := [];
      var i := 0;
      while i < |movies|
        invariant 0 <= i <= |movies|
        invariant newMovies == NewRecords(existing0, movies[..i])
        invariant updates == UpdatedTitles(existing0, movies[..i])
        invariant existing == Refreshed(existing0, movies[..i])
      {
        var movie := movies[i];
        assert movies[..i + 1][..i] == movies[..i];
        assert movies[..i + 1][i] == movie;
        if movie.title.Some? && movie.title.value in existing {
          var t := movie.title.value;
          existing := existing[t := existing[t].(details := movie.details)];
          updates := updates + [t];
        } else {
          newMovies := newMovies + [NewRecord(movie)];
        }
        i := i + 1;
      }
      assert movies[..i] == movies;
      BulkCreate(newMovies);
      BulkUpdate(existing, updates);
      SavedIsUpserted(rows0, existing0, movies);
      PartitionSizes(rows0, existing0, movies);
      created, updated := |newMovies|, |updates|;
    }
  }
}
