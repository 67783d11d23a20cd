/** The host's game library as both cleaners see it: game and series records, the
    lookups and writes they issue, and the `Database` whose two collections they change. */
module Store {
  import opened Seqs

  datatype Option<T> = None | Some(value: T)

  /** Record identifiers (GUIDs in the host). */
  type GameId = int
  type SeriesId = int

  /** A series record; a `None` name is a null name. */
  datatype Series = Series(id: SeriesId, name: Option<string>)

  /** A game record; `seriesIds` is the game's association list, `None` when it is null. */
  datatype Game = Game(id: GameId, name: Option<string>, seriesIds: Option<seq<SeriesId>>)

  /** The game has a non-null association list that contains `id`. */
  predicate ListsSeries(g: Game, id: SeriesId) {
    g.seriesIds.Some? && id in g.seriesIds.value
  }

  ghost predicate UniqueGameIds(games: seq<Game>) {
    forall i, j :: 0 <= i < j < |games| ==> games[i].id != games[j].id
  }

  ghost predicate UniqueSeriesIds(series: seq<Series>) {
    forall i, j :: 0 <= i < j < |series| ==> series[i].id != series[j].id
  }

  ghost function IdsOf(series: seq<Series>): set<SeriesId> {
    set s | s in series :: s.id
  }

  /** `Games.Get(id)`: the game recorded under `id`, if there is one. */
  function FindGame(games: seq<Game>, id: GameId): (r: Option<Game>)
    ensures r.Some? ==> r.value in games && r.value.id == id
    ensures r.None? <==> forall i :: 0 <= i < |games| ==> games[i].id != id
  {
    if games == [] then None
    else
      var found := FindGame(games[..|games| - 1], id);
      if found.Some? then found
      else if games[|games| - 1].id == id then Some(games[|games| - 1])
      else None
  }

  /** With unique ids the lookup finds the one record carrying the id. */
  lemma {:induction false} FindGameAt(games: seq<Game>, i: int)
    requires UniqueGameIds(games) && 0 <= i < |games|
    ensures FindGame(games, games[i].id) == Some(games[i])
  {
    var found := FindGame(games, games[i].id);
    assert found.Some?;
    var j :| 0 <= j < |games| && games[j] == found.value;
  }

  /** With unique ids two records of the collection that share an id are the same record. */
  lemma SameSeriesId(series: seq<Series>, a: Series, b: Series)
    requires UniqueSeriesIds(series) && a in series && b in series && a.id == b.id
    ensures a == b
  {
    var i :| 0 <= i < |series| && series[i] == a;
    var j :| 0 <= j < |series| && series[j] == b;
    assert series[i].id == series[j].id;
  }

  /** `Games.Update(g)`: the record with `g`'s id now holds `g`; every other record is kept. */
  function ReplaceGame(games: seq<Game>, g: Game): (r: seq<Game>)
    ensures |r| == |games|
    ensures forall i :: 0 <= i < |r| ==> r[i] == (if games[i].id == g.id then g else games[i])
  {
    seq(|games|, i requires 0 <= i < |games| => if games[i].id == g.id then g else games[i])
  }

  /** After `Games.Update(g)` a lookup of `g`'s id yields `g` when the library held a record with
      that id, and the library is unchanged when it did not; lookups of every other id are as
      before, and ids stay unique. */
  lemma ReplaceGameLookup(games: seq<Game>, g: Game, x: GameId)
    requires UniqueGameIds(games)
    ensures UniqueGameIds(ReplaceGame(games, g))
    ensures FindGame(games, g.id).Some? ==> FindGame(ReplaceGame(games, g), g.id) == Some(g)
    ensures FindGame(games, g.id).None? ==> ReplaceGame(games, g) == games
    ensures x != g.id ==> FindGame(ReplaceGame(games, g), x) == FindGame(games, x)
  {
    var r := ReplaceGame(games, g);
    assert forall i :: 0 <= i < |r| ==> r[i].id == games[i].id;
    if FindGame(games, g.id).Some? {
      var i :| 0 <= i < |games| && games[i].id == g.id;
      FindGameAt(r, i);
    }
    if x != g.id {
      if FindGame(games, x).Some? {
        var i :| 0 <= i < |games| && games[i].id == x;
        FindGameAt(r, i);
        FindGameAt(games, i);
      }
    }
  }

  /** The series collection after `Series.Remove` of every id in `ids`. */
  function RemoveSeriesIds(series: seq<Series>, ids: set<SeriesId>): seq<Series>
  {
    Filter(series, (s: Series) => s.id !in ids)
  }

  lemma RemoveSeriesIdsSnoc(series: seq<Series>, s: Series, ids: set<SeriesId>)
    ensures RemoveSeriesIds(series + [s], ids)
         == RemoveSeriesIds(series, ids) + (if s.id !in ids then [s] else [])
  {
    FilterSnoc(series, s, (s: Series) => s.id !in ids);
  }

  lemma {:induction false} RemoveNoSeriesIds(series: seq<Series>)
    ensures RemoveSeriesIds(series, {}) == series
  {
    if series != [] {
      var init, last := series[..|series| - 1], series[|series| - 1];
      assert series == init + [last];
      RemoveNoSeriesIds(init);
      RemoveSeriesIdsSnoc(init, last, {});
    }
  }

  /** A series survives the removal exactly when its id is not removed; survivors keep their order. */
  lemma {:induction false} RemoveSeriesIdsMembers(series: seq<Series>, ids: set<SeriesId>, s: Series)
    ensures s in RemoveSeriesIds(series, ids) <==> s in series && s.id !in ids
  {
    if s in series && s.id !in ids {
      var i :| 0 <= i < |series| && series[i] == s;
    }
    if s in RemoveSeriesIds(series, ids) {
      var r := RemoveSeriesIds(series, ids);
      var i :| 0 <= i < |r| && r[i] == s;
    }
  }

  /** Removing `a` and then `b` leaves what removing `a + b` at once leaves. */
  lemma {:induction false} RemoveSeriesIdsTwice(series: seq<Series>, a: set<SeriesId>, b: set<SeriesId>)
    ensures RemoveSeriesIds(RemoveSeriesIds(series, a), b) == RemoveSeriesIds(series, a + b)
  {
    if series != [] {
      var init, last := series[..|series| - 1], series[|series| - 1];
      assert series == init + [last];
      RemoveSeriesIdsTwice(init, a, b);
      RemoveSeriesIdsSnoc(init, last, a);
      RemoveSeriesIdsSnoc(init, last, a + b);
      if last.id !in a {
        RemoveSeriesIdsSnoc(RemoveSeriesIds(init, a), last, b);
      }
    }
  }

  lemma {:induction false} RemoveSeriesIdsUnique(series: seq<Series>, ids: set<SeriesId>)
    requires UniqueSeriesIds(series)
    ensures UniqueSeriesIds(RemoveSeriesIds(series, ids))
  {
    if series != [] {
      var init, last := series[..|series| - 1], series[|series| - 1];
      assert series == init + [last];
      RemoveSeriesIdsUnique(init, ids);
      RemoveSeriesIdsSnoc(init, last, ids);
      var r := RemoveSeriesIds(init, ids);
      forall i | 0 <= i < |r| ensures r[i].id != last.id {
        RemoveSeriesIdsMembers(init, ids, r[i]);
        var j :| 0 <= j < |init| && init[j] == r[i];
        assert series[j] == init[j];
      }
    }
  }

  /** With unique ids, removing `ids` shortens the collection by the number of its ids it held. */
  lemma {:induction false} RemoveSeriesIdsCount(series: seq<Series>, ids: set<SeriesId>)
    requires UniqueSeriesIds(series)
    ensures |RemoveSeriesIds(series, ids)| == |series| - |ids * IdsOf(series)|
  {
    if series != [] {
      var init, last := series[..|series| - 1], series[|series| - 1];
      assert series == init + [last];
      assert UniqueSeriesIds(init);
      RemoveSeriesIdsCount(init, ids);
      RemoveSeriesIdsSnoc(init, last, ids);
      assert last.id !in IdsOf(init) by {
        forall i | 0 <= i < |init| ensures init[i].id != last.id {
          assert series[i] == init[i];
        }
      }
      CommonIdsSnoc(init, last, ids);
    }
  }

  lemma CommonIdsSnoc(series: seq<Series>, s: Series, ids: set<SeriesId>)
    requires s.id !in IdsOf(series)
    ensures |ids * IdsOf(series + [s])| == |ids * IdsOf(series)| + (if s.id in ids then 1 else 0)
  {
    IdsOfSnoc(series, s);
    var common := ids * IdsOf(series);
    if s.id in ids {
      assert ids * IdsOf(series + [s]) == common + {s.id};
    } else {
      assert ids * IdsOf(series + [s]) == common;
    }
  }

  lemma IdsOfSnoc(series: seq<Series>, s: Series)
    ensures IdsOf(series + [s]) == IdsOf(series) + {s.id}
  {
    assert forall x :: x in series + [s] <==> x in series || x == s;
  }

  /** The records of the collection whose ids an association list names, each record once and
      in collection order; ids with no record contribute nothing. */
  function ResolveSeries(ids: seq<SeriesId>, series: seq<Series>): (r: seq<Series>)
    ensures forall i :: 0 <= i < |r| ==> r[i] in series && r[i].id in ids
    ensures forall s :: s in series && s.id in ids ==> s in r
  {
    Filter(series, (s: Series) => s.id in ids)
  }

  /** `Game.Series`, the host's getter: null when the association list is null or empty,
      otherwise the records whose ids the list names. */
  function GameSeries(g: Game, series: seq<Series>): Option<seq<Series>>
  {
    if g.seriesIds.None? || |g.seriesIds.value| == 0 then None
    else Some(ResolveSeries(g.seriesIds.value, series))
  }

  lemma ResolveSeriesSnoc(ids: seq<SeriesId>, series: seq<Series>, s: Series)
    ensures ResolveSeries(ids, series + [s]) == ResolveSeries(ids, series) + (if s.id in ids then [s] else [])
  {
    FilterSnoc(series, s, (s: Series) => s.id in ids);
  }

  /** An id listed twice still contributes its record once. */
  lemma {:induction false} ResolveSeriesOnce(ids: seq<SeriesId>, series: seq<Series>)
    requires UniqueSeriesIds(series)
    ensures UniqueSeriesIds(ResolveSeries(ids, series))
  {
    if series != [] {
      var init, last := series[..|series| - 1], series[|series| - 1];
      assert series == init + [last];
      assert UniqueSeriesIds(init);
      ResolveSeriesOnce(ids, init);
      ResolveSeriesSnoc(ids, init, last);
      var r := ResolveSeries(ids, init);
      forall i | 0 <= i < |r| ensures r[i].id != last.id {
        var j :| 0 <= j < |init| && init[j] == r[i];
        assert series[j] == init[j];
      }
    }
  }

  /** Resolving against a collection with `removed` taken out drops exactly those records. */
  lemma {:induction false} ResolveAfterRemoval(ids: seq<SeriesId>, series: seq<Series>, removed: set<SeriesId>)
    ensures ResolveSeries(ids, RemoveSeriesIds(series, removed))
         == RemoveSeriesIds(ResolveSeries(ids, series), removed)
  {
    if series != [] {
      var init, last := series[..|series| - 1], series[|series| - 1];
      assert series == init + [last];
      ResolveAfterRemoval(ids, init, removed);
      RemoveSeriesIdsSnoc(init, last, removed);
      ResolveSeriesSnoc(ids, init, last);
      if last.id !in removed {
        ResolveSeriesSnoc(ids, RemoveSeriesIds(init, removed), last);
      }
      if last.id in ids {
        RemoveSeriesIdsSnoc(ResolveSeries(ids, init), last, removed);
      }
    }
  }

  /** The host's game database: two collections in enumeration order. The two cleaners
      read them, update game records and remove series records. */
  class Database {
    var games: seq<Game>
    var series: seq<Series>

    /** Record ids are unique within each collection. */
    ghost predicate Valid()
      reads this
    {
      UniqueGameIds(games) && UniqueSeriesIds(series)
    }

    /** `Games.Update(g)`. */
    method UpdateGame(g: Game)
      requires Valid()
      modifies this
      ensures Valid()
      ensures games == ReplaceGame(old(games), g) && series == old(series)
    {
      games := ReplaceGame(games, g);
    }

    /** `Series.Remove(id)`; removing an id that has no record changes nothing. */
    method RemoveSeries(id: SeriesId)
      requires Valid()
      modifies this
      ensures Valid()
      ensures series == RemoveSeriesIds(old(series), {id}) && games == old(games)
    {
      RemoveSeriesIdsUnique(series, {id});
      series := RemoveSeriesIds(series, {id});
    }
  }
}
