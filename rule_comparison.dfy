/** How the selection rules of the two cleaners relate. The cleaner of src/SeriesCleaner.cs
    selects a series when exactly one game lists its id; the plugin selects a game whose only
    series no other single-series game has. They agree where every game involved has a single
    series, and a game with several series separates them. */
module RuleComparison {
  import opened Seqs
  import opened Store
  import SeriesCleaner
  import SeriesCleanerPlugin

  /** A single-series game that lists a record of the collection resolves to that record. */
  lemma SoleSeriesIsListed(g: Game, series: seq<Series>, s: Series)
    requires UniqueSeriesIds(series) && SeriesCleanerPlugin.HasSingleSeries(g, series)
    requires s in series && ListsSeries(g, s.id)
    ensures SeriesCleanerPlugin.SoleSeries(g, series) == s
  {
    assert s in GameSeries(g, series).value;
  }

  /** A series a single game lists, when that game has no other series, is also selected by the
      plugin, through the same game. */
  lemma CandidateSelectedByPlugin(games: seq<Game>, series: seq<Series>, c: SeriesCleaner.Candidate)
    requires UniqueGameIds(games) && UniqueSeriesIds(series)
    requires c in SeriesCleaner.SingleGameSeries(games, series)
    requires SeriesCleanerPlugin.HasSingleSeries(c.game, series)
    ensures SeriesCleanerPlugin.SoleSeries(c.game, series) == c.series
    ensures c.game in SeriesCleanerPlugin.GamesToClean(games, series)
  {
    SeriesCleaner.CandidateIsSoleReferrer(games, series, c);
    SoleSeriesIsListed(c.game, series, c.series);
    var key := SeriesCleanerPlugin.SeriesKey(c.game, series);
    forall h | h in games && SeriesCleanerPlugin.SeriesKey(h, series) == key ensures h == c.game {
      assert ListsSeries(h, SeriesCleanerPlugin.SoleSeries(h, series).id);
    }
    SeriesCleanerPlugin.SelectedIff(games, series, c.game);
  }

  /** Conversely, a game the plugin selects yields a candidate of the other cleaner, pairing the
      game with its series, provided every game listing that series has a single series. */
  lemma SelectedIsCandidate(games: seq<Game>, series: seq<Series>, g: Game)
    requires UniqueGameIds(games) && UniqueSeriesIds(series)
    requires g in SeriesCleanerPlugin.GamesToClean(games, series)
    requires SeriesCleanerPlugin.HasSingleSeries(g, series)
    requires forall h :: h in games && ListsSeries(h, SeriesCleanerPlugin.SoleSeries(g, series).id)
               ==> SeriesCleanerPlugin.HasSingleSeries(h, series)
    ensures SeriesCleaner.Candidate(SeriesCleanerPlugin.SoleSeries(g, series), g)
            in SeriesCleaner.SingleGameSeries(games, series)
  {
    var s := SeriesCleanerPlugin.SoleSeries(g, series);
    var candidates := SeriesCleaner.SingleGameSeries(games, series);
    SeriesCleanerPlugin.SelectedIff(games, series, g);
    assert SeriesCleaner.ReferencingGames(games, s.id) == {g.id} by {
      forall h | h in games && ListsSeries(h, s.id) ensures h == g {
        SoleSeriesIsListed(h, series, s);
        assert SeriesCleanerPlugin.SeriesKey(h, series) == SeriesCleanerPlugin.SeriesKey(g, series);
      }
    }
    assert s.id in IdsOf(series);
    SeriesCleaner.CandidateIff(games, series, s.id);
    var m :| 0 <= m < |candidates| && SeriesCleaner.CandidateIds(candidates)[m] == s.id;
    var c := candidates[m];
    SeriesCleaner.CandidateIsSoleReferrer(games, series, c);
    SameSeriesId(series, c.series, s);
    assert c == SeriesCleaner.Candidate(s, g);
  }

  /** The hypothesis above cannot be dropped. Game 1 lists series 10 alone; game 2 lists 10
      and 20. */
  const gameOne := Game(1, Some("A"), Some([10]))
  const gameTwo := Game(2, Some("B"), Some([10, 20]))
  const seriesTen := Series(10, Some("X"))
  const seriesTwenty := Series(20, Some("Y"))
  const library := [gameOne, gameTwo]
  const collection := [seriesTen, seriesTwenty]

  lemma LibraryResolution()
    ensures SeriesCleanerPlugin.HasSingleSeries(gameOne, collection)
    ensures SeriesCleanerPlugin.SoleSeries(gameOne, collection) == seriesTen
    ensures !SeriesCleanerPlugin.HasSingleSeries(gameTwo, collection)
  {
    assert collection == [seriesTen] + [seriesTwenty];
    assert [seriesTen] == [] + [seriesTen];
    ResolveSeriesSnoc([10], [seriesTen], seriesTwenty);
    ResolveSeriesSnoc([10], [], seriesTen);
    ResolveSeriesSnoc([10, 20], [seriesTen], seriesTwenty);
    ResolveSeriesSnoc([10, 20], [], seriesTen);
  }

  lemma SeriesTenGames()
    ensures SeriesCleaner.GamesInSeries(library, 10) == [gameOne, gameTwo]
  {
    assert [gameOne] + [gameTwo] == library;
    assert [gameOne] == [] + [gameOne];
    FilterSnoc([gameOne], gameTwo, (g: Game) => ListsSeries(g, 10));
    FilterSnoc([], gameOne, (g: Game) => ListsSeries(g, 10));
  }

  lemma SeriesTwentyGames()
    ensures SeriesCleaner.GamesInSeries(library, 20) == [gameTwo]
  {
    assert [gameOne] + [gameTwo] == library;
    assert [gameOne] == [] + [gameOne];
    FilterSnoc([gameOne], gameTwo, (g: Game) => ListsSeries(g, 20));
    FilterSnoc([], gameOne, (g: Game) => ListsSeries(g, 20));
  }

  lemma PluginSelection()
    ensures SeriesCleanerPlugin.GamesToClean(library, collection) == [gameOne]
  {
    LibraryResolution();
    SeriesCleanerPlugin.GamesToCleanSpec(library, collection);
    assert [gameOne] + [gameTwo] == library;
    assert [gameOne] == [] + [gameOne];
    assert SeriesCleanerPlugin.GamesKeyed(library, collection, 10) == [gameOne] by {
      FilterSnoc([gameOne], gameTwo, (h: Game) => SeriesCleanerPlugin.SeriesKey(h, collection) == Some(10));
      FilterSnoc([], gameOne, (h: Game) => SeriesCleanerPlugin.SeriesKey(h, collection) == Some(10));
    }
    var rule := (g: Game) => SeriesCleanerPlugin.OnlyGameOfItsSeries(library, collection, g);
    assert rule(gameOne) && !rule(gameTwo);
    FilterSnoc([gameOne], gameTwo, rule);
    FilterSnoc([], gameOne, rule);
  }

  /** The plugin selects game 1, and with it series 10, which both games list. */
  lemma PluginSelectsSharedSeries()
    ensures SeriesCleanerPlugin.GamesToClean(library, collection) == [gameOne]
    ensures SeriesCleaner.GamesInSeries(library, 10) == [gameOne, gameTwo]
  {
    PluginSelection();
    SeriesTenGames();
  }

  /** The other cleaner selects series 20 only, whose one game the plugin skips for having
      two series. */
  lemma ScanSelectsOtherSeries()
    ensures SeriesCleaner.SingleGameSeries(library, collection) == [SeriesCleaner.Candidate(seriesTwenty, gameTwo)]
  {
    SeriesTenGames();
    SeriesTwentyGames();
    assert collection[..1] == [seriesTen];
    assert [seriesTen][..0] == [];
    assert SeriesCleaner.SingleGameSeries(library, []) == [];
    assert SeriesCleaner.SingleGameSeries(library, [seriesTen]) == [];
    assert SeriesCleaner.GamesInSeries(library, seriesTwenty.id)[0] == gameTwo;
  }

  /** A game listing its one series twice. `Game.Series` yields each record once, so the plugin
      sees a single series and selects the game, as the first version selects the series. */
  const twice := Game(3, Some("C"), Some([30, 30]))
  const seriesThirty := Series(30, None)

  lemma RepeatedIdResolvesOnce()
    ensures GameSeries(twice, [seriesThirty]) == Some([seriesThirty])
    ensures SeriesCleanerPlugin.HasSingleSeries(twice, [seriesThirty])
  {
    assert [seriesThirty] == [] + [seriesThirty];
    ResolveSeriesSnoc([30, 30], [], seriesThirty);
  }

  lemma RepeatedIdSelectedByBoth()
    ensures SeriesCleanerPlugin.GamesToClean([twice], [seriesThirty]) == [twice]
    ensures SeriesCleaner.SingleGameSeries([twice], [seriesThirty]) == [SeriesCleaner.Candidate(seriesThirty, twice)]
  {
    RepeatedIdResolvesOnce();
    SeriesCleanerPlugin.GamesToCleanSpec([twice], [seriesThirty]);
    assert [twice] == [] + [twice];
    assert SeriesCleanerPlugin.GamesKeyed([twice], [seriesThirty], 30) == [twice] by {
      FilterSnoc([], twice, (h: Game) => SeriesCleanerPlugin.SeriesKey(h, [seriesThirty]) == Some(30));
    }
    FilterSnoc([], twice, (g: Game) => SeriesCleanerPlugin.OnlyGameOfItsSeries([twice], [seriesThirty], g));
    assert SeriesCleaner.GamesInSeries([twice], 30) == [twice] by {
      FilterSnoc([], twice, (g: Game) => ListsSeries(g, 30));
    }
    assert [seriesThirty][..0] == [];
  }
}
