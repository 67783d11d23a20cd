/** The cleaner of sources/SeriesCleaner/SeriesCleanerPlugin.cs. It considers only the games
    whose resolved series list has one record, groups them by that record's id, and selects
    the game of every group of one. A confirmation text lists the first ten selected games.
    On Yes it removes each selected game's series record and leaves every game as it was. */
module SeriesCleanerPlugin {
  import opened Seqs
  import opened Text
  import opened Store
  import opened Grouping

  /** The answer of one run of the command; `Cleaned` carries the count the success message shows. */
  datatype Outcome = NoneFound | Declined | Cleaned(reported: nat)

  // ---------------------------------------------------------------- selection

  /** `g.Series != null && g.Series.Count == 1` (line 44). */
  predicate HasSingleSeries(g: Game, series: seq<Series>) {
    var resolved := GameSeries(g, series);
    resolved.Some? && |resolved.value| == 1
  }

  /** `g.Series.First()` for a game with a single series: a record of the collection that the
      game's association list names. */
  function SoleSeries(g: Game, series: seq<Series>): (s: Series)
    requires HasSingleSeries(g, series)
    ensures s in series && ListsSeries(g, s.id)
  {
    GameSeries(g, series).value[0]
  }

  /** The grouping key of a game: its sole series id, and `None` for a game with none or several. */
  function SeriesKey(g: Game, series: seq<Series>): (k: Option<SeriesId>)
    ensures k.Some? <==> HasSingleSeries(g, series)
    ensures k.Some? ==> k.value == SoleSeries(g, series).id
  {
    if HasSingleSeries(g, series) then Some(SoleSeries(g, series).id) else None
  }

  /** Lines 43-45: the games with a single series, in enumeration order. */
  function SingleSeriesGames(games: seq<Game>, series: seq<Series>): seq<Game>
  {
    Filter(games, (g: Game) => HasSingleSeries(g, series))
  }

  /** Each single-series game beside its key `g.Series.First().Id`. */
  function Keyed(games: seq<Game>, series: seq<Series>): (r: seq<(SeriesId, Game)>)
    requires forall i :: 0 <= i < |games| ==> HasSingleSeries(games[i], series)
    ensures |r| == |games|
    ensures forall i :: 0 <= i < |r| ==> r[i] == (SoleSeries(games[i], series).id, games[i])
  {
    seq(|games|, i requires 0 <= i < |games| => (SoleSeries(games[i], series).id, games[i]))
  }

  /** Lines 48-51: the groups of one game. */
  function SingleGameGroups(games: seq<Game>, series: seq<Series>): seq<Group<SeriesId, Game>>
  {
    SingleItemGroups(GroupBy(Keyed(SingleSeriesGames(games, series), series)))
  }

  /** Line 59: the first (and only) game of every group of one. */
  function GamesToClean(games: seq<Game>, series: seq<Series>): (r: seq<Game>)
    ensures |r| == |SingleGameGroups(games, series)|
    ensures forall i :: 0 <= i < |r| ==> r[i] == SingleGameGroups(games, series)[i].items[0]
  {
    Values(SoleEntries(GroupBy(Keyed(SingleSeriesGames(games, series), series))))
  }

  /** The games of the library whose key is `Some(k)`. */
  function GamesKeyed(games: seq<Game>, series: seq<Series>, k: SeriesId): seq<Game>
  {
    Filter(games, (h: Game) => SeriesKey(h, series) == Some(k))
  }

  /** The selection rule stated on its own: a single-series game that no other single-series
      game of the library shares its series with. */
  predicate OnlyGameOfItsSeries(games: seq<Game>, series: seq<Series>, g: Game) {
    HasSingleSeries(g, series) && |GamesKeyed(games, series, SoleSeries(g, series).id)| == 1
  }

  /** The grouping pipeline selects exactly the games the rule describes, in enumeration order. */
  lemma GamesToCleanSpec(games: seq<Game>, series: seq<Series>)
    ensures GamesToClean(games, series) == Filter(games, (g: Game) => OnlyGameOfItsSeries(games, series, g))
  {
    var single := SingleSeriesGames(games, series);
    var keyed := Keyed(single, series);
    GroupBySoleEntries(keyed);
    forall k ensures KeyCount(keyed, k) == |GamesKeyed(games, series, k)| {
      KeyedCount(single, series, k);
      FilterImplied(games, (g: Game) => HasSingleSeries(g, series), (h: Game) => SeriesKey(h, series) == Some(k));
    }
    var onKeyed := (e: (SeriesId, Game)) => KeyCount(keyed, e.0) == 1;
    var onGames := (g: Game) => OnlyGameOfItsSeries(games, series, g);
    ValuesFilterKeyed(single, series, onKeyed, onGames);
    FilterImplied(games, (g: Game) => HasSingleSeries(g, series), onGames);
  }

  lemma {:induction false} KeyedCount(games: seq<Game>, series: seq<Series>, k: SeriesId)
    requires forall i :: 0 <= i < |games| ==> HasSingleSeries(games[i], series)
    ensures KeyCount(Keyed(games, series), k) == |Filter(games, (h: Game) => SeriesKey(h, series) == Some(k))|
  {
    if games != [] {
      var init, g := games[..|games| - 1], games[|games| - 1];
      assert games == init + [g];
      KeyedCount(init, series, k);
      assert Keyed(games, series) == Keyed(init, series) + [(SoleSeries(g, series).id, g)];
      ValuesWithKeySnoc(Keyed(init, series), (SoleSeries(g, series).id, g), k);
      FilterSnoc(init, g, (h: Game) => SeriesKey(h, series) == Some(k));
    }
  }

  /** Filtering the keyed pairs and dropping the keys is filtering the games, when the two
      filters agree position by position. */
  lemma {:induction false} ValuesFilterKeyed(games: seq<Game>, series: seq<Series>,
                                             onKeyed: ((SeriesId, Game)) -> bool, onGames: Game -> bool)
    requires forall i :: 0 <= i < |games| ==> HasSingleSeries(games[i], series)
    requires forall i :: 0 <= i < |games| ==> onKeyed(Keyed(games, series)[i]) == onGames(games[i])
    ensures Values(Filter(Keyed(games, series), onKeyed)) == Filter(games, onGames)
  {
    if games != [] {
      var init, g := games[..|games| - 1], games[|games| - 1];
      assert games == init + [g];
      var e := (SoleSeries(g, series).id, g);
      assert Keyed(games, series) == Keyed(init, series) + [e];
      forall i | 0 <= i < |init| ensures onKeyed(Keyed(init, series)[i]) == onGames(init[i]) {
        assert Keyed(init, series)[i] == Keyed(games, series)[i];
      }
      ValuesFilterKeyed(init, series, onKeyed, onGames);
      assert onKeyed(e) == onGames(g) by {
        assert Keyed(games, series)[|games| - 1] == e;
      }
      FilterSnoc(Keyed(init, series), e, onKeyed);
      FilterSnoc(init, g, onGames);
      var kept := Filter(Keyed(init, series), onKeyed);
      assert Values(kept + [e]) == Values(kept) + [g];
    }
  }

  /** Selected games are exactly the library's games that are the only game of their series:
      a game with none or several series, or whose series another single-series game also has,
      is never selected. */
  lemma SelectedIff(games: seq<Game>, series: seq<Series>, g: Game)
    requires UniqueGameIds(games)
    ensures g in GamesToClean(games, series) <==>
      && g in games && HasSingleSeries(g, series)
      && forall h :: h in games && SeriesKey(h, series) == SeriesKey(g, series) ==> h == g
  {
    GamesToCleanSpec(games, series);
    var onGames := (g: Game) => OnlyGameOfItsSeries(games, series, g);
    assert g in GamesToClean(games, series) <==> g in games && OnlyGameOfItsSeries(games, series, g) by {
      if g in games && OnlyGameOfItsSeries(games, series, g) {
        var i :| 0 <= i < |games| && games[i] == g;
        assert onGames(games[i]);
      }
    }
    if g in games && HasSingleSeries(g, series) {
      var k := SoleSeries(g, series).id;
      var same := GamesKeyed(games, series, k);
      var i :| 0 <= i < |games| && games[i] == g;
      assert g in same;
      assert Distinct(same) by {
        assert Distinct(games);
        FilterDistinct(games, (h: Game) => SeriesKey(h, series) == Some(k));
      }
      SameKeyedIff(games, series, g, same);
    }
  }

  lemma SameKeyedIff(games: seq<Game>, series: seq<Series>, g: Game, same: seq<Game>)
    requires HasSingleSeries(g, series) && g in same && Distinct(same)
    requires same == GamesKeyed(games, series, SoleSeries(g, series).id)
    ensures |same| == 1 <==> forall h :: h in games && SeriesKey(h, series) == SeriesKey(g, series) ==> h == g
  {
    var k := SoleSeries(g, series).id;
    if |same| == 1 {
      forall h | h in games && SeriesKey(h, series) == SeriesKey(g, series) ensures h == g {
        var j :| 0 <= j < |games| && games[j] == h;
        assert h in same;
      }
    }
    if forall h :: h in games && SeriesKey(h, series) == SeriesKey(g, series) ==> h == g {
      forall y | y in same ensures y == g {
        var j :| 0 <= j < |same| && same[j] == y;
      }
      AllEqualDistinct(same, g);
    }
  }

  /** The selected games have pairwise different series: no series record is selected twice. */
  lemma SelectedKeysDistinct(games: seq<Game>, series: seq<Series>)
    requires UniqueGameIds(games)
    ensures var sel := GamesToClean(games, series);
      && (forall i :: 0 <= i < |sel| ==> HasSingleSeries(sel[i], series))
      && (forall i, j :: 0 <= i < j < |sel| ==> SoleSeries(sel[i], series).id != SoleSeries(sel[j], series).id)
  {
    var sel := GamesToClean(games, series);
    GamesToCleanSpec(games, series);
    assert Distinct(games);
    FilterDistinct(games, (g: Game) => OnlyGameOfItsSeries(games, series, g));
    forall i | 0 <= i < |sel| ensures HasSingleSeries(sel[i], series) && sel[i] in games {
      SelectedIff(games, series, sel[i]);
    }
    forall i, j | 0 <= i < j < |sel|
      ensures SoleSeries(sel[i], series).id != SoleSeries(sel[j], series).id
    {
      var a, b := sel[i], sel[j];
      SelectedIff(games, series, a);
      assert b in games && SeriesKey(b, series) == SeriesKey(a, series) ==> b == a;
      assert a != b;
    }
  }

  // ---------------------------------------------------------------- confirmation text

  const PREVIEW_LIMIT := 10
  const UNKNOWN_SERIES := "Unknown"
  const CONFIRM_FOOTER := "\nWould you like to remove these single-game series from the database?"
  const HEADER_PREFIX := "Found "
  const HEADER_SUFFIX := " games that are the only title in their (single) series:\n\n"

  /** Line 61, with the count in decimal. */
  function ConfirmationHeader(count: nat): string {
    HEADER_PREFIX + NatToString(count) + HEADER_SUFFIX
  }

  /** `game.Series.FirstOrDefault()?.Name ?? "Unknown"` (line 65): a null name only is replaced. */
  function SeriesNameOrUnknown(g: Game, series: seq<Series>): (r: string)
    requires HasSingleSeries(g, series)
    ensures SoleSeries(g, series).name.Some? ==> r == SoleSeries(g, series).name.value
    ensures SoleSeries(g, series).name.None? ==> r == UNKNOWN_SERIES
  {
    match SoleSeries(g, series).name
    case Some(name) => name
    case None => UNKNOWN_SERIES
  }

  /** Line 66; a null game name interpolates as the empty text. */
  function GameLine(g: Game, series: seq<Series>): string
    requires HasSingleSeries(g, series)
  {
    var name := match g.name case Some(n) => n case None => "";
    "\U{2022} " + name + " (Series: " + SeriesNameOrUnknown(g, series) + ")\n"
  }

  function GameLines(sel: seq<Game>, series: seq<Series>): (r: seq<string>)
    requires forall i :: 0 <= i < |sel| ==> HasSingleSeries(sel[i], series)
    ensures |r| == |sel| && forall i :: 0 <= i < |r| ==> r[i] == GameLine(sel[i], series)
  {
    seq(|sel|, i requires 0 <= i < |sel| => GameLine(sel[i], series))
  }

  /** Line 71. */
  function MoreLine(more: nat): string {
    "\U{2022} And " + NatToString(more) + " more...\n"
  }

  /** The text of the Yes/No prompt of lines 61-74. */
  function ConfirmationMessage(sel: seq<Game>, series: seq<Series>): string
    requires forall i :: 0 <= i < |sel| ==> HasSingleSeries(sel[i], series)
  {
    var listing := ConfirmationHeader(|sel|) + Concat(GameLines(sel[..Min(PREVIEW_LIMIT, |sel|)], series));
    (if |sel| > PREVIEW_LIMIT then listing + MoreLine(|sel| - PREVIEW_LIMIT) else listing) + CONFIRM_FOOTER
  }

  lemma ConfirmationTail(sel: seq<Game>, series: seq<Series>, listing: string)
    requires forall i :: 0 <= i < |sel| ==> HasSingleSeries(sel[i], series)
    requires listing == ConfirmationHeader(|sel|) + Concat(GameLines(sel[..Min(PREVIEW_LIMIT, |sel|)], series))
    ensures ConfirmationMessage(sel, series)
         == (if |sel| > PREVIEW_LIMIT then listing + MoreLine(|sel| - PREVIEW_LIMIT) else listing) + CONFIRM_FOOTER
  {
  }

  /** The `foreach`/`+=` loop of lines 61-74. */
  method BuildConfirmationMessage(sel: seq<Game>, series: seq<Series>) returns (message: string)
    requires forall i :: 0 <= i < |sel| ==> HasSingleSeries(sel[i], series)
    ensures message == ConfirmationMessage(sel, series)
  {
    message := ConfirmationHeader(|sel|);
    ghost var header := message;
    var shown := Min(PREVIEW_LIMIT, |sel|);
    ghost var lines := GameLines(sel[..shown], series);
    for i := 0 to shown
      invariant message == header + Concat(lines[..i])
    {
      var line := GameLine(sel[i], series);
      assert line == lines[i];
      ConcatPrefixStep(lines, i);
      AppendAssoc(header, Concat(lines[..i]), line);
      message := message + line;
    }
    assert lines[..shown] == lines;
    ConfirmationTail(sel, series, message);
    if |sel| > PREVIEW_LIMIT {
      message := message + MoreLine(|sel| - PREVIEW_LIMIT);
    }
    message := message + CONFIRM_FOOTER;
  }

  /** The prompt lists the first min(10, n) selected games, one line each, in selection order,
      and the "And N more..." line appears exactly when n > 10, with N = n - 10 read back from
      its digits. */
  lemma ConfirmationShape(sel: seq<Game>, series: seq<Series>)
    requires forall i :: 0 <= i < |sel| ==> HasSingleSeries(sel[i], series)
    ensures var shown := Min(PREVIEW_LIMIT, |sel|);
      var body := ConfirmationMessage(sel, series)[..|ConfirmationMessage(sel, series)| - |CONFIRM_FOOTER|];
      && EndsWith(ConfirmationMessage(sel, series), CONFIRM_FOOTER)
      && (EndsWith(body, " more...\n") <==> |sel| > PREVIEW_LIMIT)
      && (|sel| > PREVIEW_LIMIT ==>
            body == ConfirmationHeader(|sel|) + Concat(GameLines(sel[..shown], series)) + MoreLine(|sel| - PREVIEW_LIMIT)
            && DigitsValue(NatToString(|sel| - PREVIEW_LIMIT)) == |sel| - shown)
      && (|sel| <= PREVIEW_LIMIT ==> body == ConfirmationHeader(|sel|) + Concat(GameLines(sel, series)))
  {
    var shown := Min(PREVIEW_LIMIT, |sel|);
    var lines := GameLines(sel[..shown], series);
    var message := ConfirmationMessage(sel, series);
    var listing := ConfirmationHeader(|sel|) + Concat(lines);
    var body := if |sel| > PREVIEW_LIMIT then listing + MoreLine(|sel| - PREVIEW_LIMIT) else listing;
    assert message == body + CONFIRM_FOOTER;
    AppendDropSuffix(body, CONFIRM_FOOTER);
    EndsWithAppend(body, CONFIRM_FOOTER);
    if |sel| > PREVIEW_LIMIT {
      NatToStringRoundTrip(|sel| - PREVIEW_LIMIT);
      var more := |sel| - PREVIEW_LIMIT;
      EndsWithAppend("\U{2022} And " + NatToString(more), " more...\n");
      EndsWithAppend(listing, MoreLine(more));
      EndsWithTrans(body, MoreLine(more), " more...\n");
    } else {
      assert sel[..shown] == sel;
      ListingEndsWithParen(sel, series, |sel|);
    }
  }

  /** A game line ends with ")\n". */
  lemma GameLineEnds(g: Game, series: seq<Series>)
    requires HasSingleSeries(g, series)
    ensures EndsWith(GameLine(g, series), ")\n")
  {
    var name := match g.name case Some(n) => n case None => "";
    EndsWithAppend("\U{2022} " + name + " (Series: " + SeriesNameOrUnknown(g, series), ")\n");
  }

  /** A game line names the series as the record's own name, or "Unknown" when that name is null. */
  lemma GameLineShowsSeries(g: Game, series: seq<Series>)
    requires HasSingleSeries(g, series)
    ensures SoleSeries(g, series).name.None? ==> EndsWith(GameLine(g, series), " (Series: Unknown)\n")
    ensures SoleSeries(g, series).name.Some? ==>
      EndsWith(GameLine(g, series), " (Series: " + SoleSeries(g, series).name.value + ")\n")
  {
    var name := match g.name case Some(n) => n case None => "";
    var shown := SeriesNameOrUnknown(g, series);
    var head := "\U{2022} " + name;
    assert GameLine(g, series) == head + (" (Series: " + shown + ")\n");
    EndsWithAppend(head, " (Series: " + shown + ")\n");
  }

  /** The header ends with a blank line. */
  lemma HeaderEnds(count: nat)
    ensures |ConfirmationHeader(count)| >= 2 && ConfirmationHeader(count)[|ConfirmationHeader(count)| - 2] == '\n'
    ensures EndsWith(ConfirmationHeader(count), "\n\n")
  {
    EndsWithAppend(HEADER_PREFIX + NatToString(count), HEADER_SUFFIX);
    EndsWithCharAt(ConfirmationHeader(count), HEADER_SUFFIX, 2);
    EndsWithTrans(ConfirmationHeader(count), HEADER_SUFFIX, "\n\n");
  }

  /** A listing with at least one game line ends with that line's ")\n". */
  lemma ListingEndsWithGameLine(sel: seq<Game>, series: seq<Series>, shown: nat)
    requires 0 < shown <= |sel| && forall i :: 0 <= i < |sel| ==> HasSingleSeries(sel[i], series)
    ensures var body := ConfirmationHeader(|sel|) + Concat(GameLines(sel[..shown], series));
      |body| >= 2 && body[|body| - 2] == ')'
  {
    var lines := GameLines(sel[..shown], series);
    var header := ConfirmationHeader(|sel|);
    var body := header + Concat(lines);
    var init := lines[..|lines| - 1];
    var last := lines[|lines| - 1];
    assert last == GameLine(sel[shown - 1], series);
    assert lines == init + [last];
    ConcatSnoc(init, last);
    AppendAssoc(header, Concat(init), last);
    EndsWithAppend(header + Concat(init), last);
    GameLineEnds(sel[shown - 1], series);
    EndsWithTrans(body, last, ")\n");
    EndsWithCharAt(body, ")\n", 2);
  }

  /** A text whose next-to-last character is not a dot does not end with " more...\n". */
  lemma NotEndsWithMore(body: string)
    requires |body| >= 2 && body[|body| - 2] != '.'
    ensures !EndsWith(body, " more...\n")
  {
    EndsWithCharAt(body, " more...\n", 2);
  }

  /** Without the "more" line the text before the footer ends with a game line's ")\n" or with
      the header's blank line, so never with " more...\n". */
  lemma ListingEndsWithParen(sel: seq<Game>, series: seq<Series>, shown: nat)
    requires shown <= |sel| && forall i :: 0 <= i < |sel| ==> HasSingleSeries(sel[i], series)
    ensures !EndsWith(ConfirmationHeader(|sel|) + Concat(GameLines(sel[..shown], series)), " more...\n")
  {
    var header := ConfirmationHeader(|sel|);
    var body := header + Concat(GameLines(sel[..shown], series));
    if shown == 0 {
      assert Concat(GameLines(sel[..shown], series)) == "";
      AppendEmpty(header);
      HeaderEnds(|sel|);
      NotEndsWithMore(body);
    } else {
      ListingEndsWithGameLine(sel, series, shown);
      NotEndsWithMore(body);
    }
  }

  // ---------------------------------------------------------------- removal

  /** The series ids of the selected games. */
  function SelectedSeriesIds(sel: seq<Game>, series: seq<Series>): (r: seq<SeriesId>)
    requires forall i :: 0 <= i < |sel| ==> HasSingleSeries(sel[i], series)
    ensures |r| == |sel| && forall i :: 0 <= i < |r| ==> r[i] == SoleSeries(sel[i], series).id
  {
    seq(|sel|, i requires 0 <= i < |sel| => SoleSeries(sel[i], series).id)
  }

  /** What the removal loop needs of its list: every game has one series and no two share it. */
  ghost predicate RemovalPlan(sel: seq<Game>, series: seq<Series>) {
    && (forall i :: 0 <= i < |sel| ==> HasSingleSeries(sel[i], series))
    && (forall i, j :: 0 <= i < j < |sel| ==> SoleSeries(sel[i], series).id != SoleSeries(sel[j], series).id)
  }

  lemma GamesToCleanIsPlan(games: seq<Game>, series: seq<Series>)
    requires UniqueGameIds(games)
    ensures RemovalPlan(GamesToClean(games, series), series)
  {
    SelectedKeysDistinct(games, series);
  }

  /** Once other series are removed, a selected game still resolves to its own series record. */
  lemma StillResolves(g: Game, series: seq<Series>, removed: set<SeriesId>)
    requires HasSingleSeries(g, series) && SoleSeries(g, series).id !in removed
    ensures GameSeries(g, RemoveSeriesIds(series, removed)) == Some([SoleSeries(g, series)])
  {
    var s := SoleSeries(g, series);
    var ids := g.seriesIds.value;
    ResolveAfterRemoval(ids, series, removed);
    assert ResolveSeries(ids, series) == [] + [s];
    RemoveSeriesIdsSnoc([], s, removed);
  }

  /** The `i`-th step of the removal loop: the game still resolves to its own record, whose id
      joins those already removed. */
  lemma PlanStep(sel: seq<Game>, series: seq<Series>, i: int)
    requires RemovalPlan(sel, series) && 0 <= i < |sel|
    ensures var ids := SelectedSeriesIds(sel, series);
      && GameSeries(sel[i], RemoveSeriesIds(series, ToSet(ids[..i]))) == Some([SoleSeries(sel[i], series)])
      && ids[i] == SoleSeries(sel[i], series).id
      && ToSet(ids[..i + 1]) == ToSet(ids[..i]) + {ids[i]}
  {
    var ids := SelectedSeriesIds(sel, series);
    var id := SoleSeries(sel[i], series).id;
    forall j | 0 <= j < i ensures ids[j] != id {
      assert ids[j] == SoleSeries(sel[j], series).id;
    }
    NotInPrefixSet(ids, i, id);
    StillResolves(sel[i], series, ToSet(ids[..i]));
    ToSetPrefixStep(ids, i);
  }

  /** The removal loop of lines 83-96: each selected game's series is looked up again through
      the game (`game.Series.FirstOrDefault()`) and its record removed. */
  method RemoveSelectedSeries(db: Database, sel: seq<Game>)
    requires db.Valid() && RemovalPlan(sel, db.series)
    modifies db
    ensures db.Valid()
    ensures db.games == old(db.games)
    ensures db.series == RemoveSeriesIds(old(db.series), ToSet(SelectedSeriesIds(sel, old(db.series))))
  {
    ghost var ids := SelectedSeriesIds(sel, db.series);
    RemoveNoSeriesIds(db.series);
    assert ToSet(ids[..0]) == {};
    for i := 0 to |sel|
      invariant db.Valid() && db.games == old(db.games)
      invariant db.series == RemoveSeriesIds(old(db.series), ToSet(ids[..i]))
    {
      var game := sel[i];
      PlanStep(sel, old(db.series), i);
      var resolved := GameSeries(game, db.series);
      if resolved.Some? && |resolved.value| > 0 {
        var seriesObj := resolved.value[0];
        db.RemoveSeries(seriesObj.id);
      } else {
        assert false;
      }
      RemoveSeriesIdsTwice(old(db.series), ToSet(ids[..i]), {ids[i]});
    }
    assert ids[..|sel|] == ids;
  }

  /** After a run that removes, the collection is shorter by exactly the count the success
      message reports: each selected game's series was present and none was counted twice. */
  lemma RemovedCount(games: seq<Game>, series: seq<Series>)
    requires UniqueGameIds(games) && UniqueSeriesIds(series)
    ensures var sel := GamesToClean(games, series);
      && RemovalPlan(sel, series)
      && |RemoveSeriesIds(series, ToSet(SelectedSeriesIds(sel, series)))| == |series| - |sel|
  {
    var sel := GamesToClean(games, series);
    GamesToCleanIsPlan(games, series);
    var ids := SelectedSeriesIds(sel, series);
    assert Distinct(ids);
    DistinctCard(ids);
    forall x | x in ToSet(ids) ensures x in IdsOf(series) {
      var i :| 0 <= i < |ids| && ids[i] == x;
      assert SoleSeries(sel[i], series) in series;
    }
    assert ToSet(ids) * IdsOf(series) == ToSet(ids);
    RemoveSeriesIdsCount(series, ToSet(ids));
  }

  /** After removal every selected game still lists its former series id, which now resolves
      to no record: the association list is left dangling. */
  lemma SelectedGamesLeftDangling(games: seq<Game>, series: seq<Series>, g: Game)
    requires UniqueGameIds(games) && g in GamesToClean(games, series)
    ensures var sel := GamesToClean(games, series);
      && RemovalPlan(sel, series)
      && ListsSeries(g, SoleSeries(g, series).id)
      && GameSeries(g, RemoveSeriesIds(series, ToSet(SelectedSeriesIds(sel, series)))) == Some([])
  {
    var sel := GamesToClean(games, series);
    GamesToCleanIsPlan(games, series);
    var ids := SelectedSeriesIds(sel, series);
    var removed := ToSet(ids);
    var i :| 0 <= i < |sel| && sel[i] == g;
    assert ids[i] in removed;
    NoLongerResolves(g, series, removed);
  }

  /** Once its own series is removed, a single-series game resolves to no record. */
  lemma NoLongerResolves(g: Game, series: seq<Series>, removed: set<SeriesId>)
    requires HasSingleSeries(g, series) && SoleSeries(g, series).id in removed
    ensures GameSeries(g, RemoveSeriesIds(series, removed)) == Some([])
  {
    var s := SoleSeries(g, series);
    ResolveAfterRemoval(g.seriesIds.value, series, removed);
    assert ResolveSeries(g.seriesIds.value, series) == [] + [s];
    RemoveSeriesIdsSnoc([], s, removed);
  }

  // ---------------------------------------------------------------- the command

  /** One run of the command (lines 38-108); `confirmed` is the answer to the Yes/No prompt. */
  method CleanSingleGameSeries(db: Database, confirmed: bool) returns (outcome: Outcome, prompt: Option<string>)
    requires db.Valid()
    modifies db
    ensures db.Valid()
    ensures db.games == old(db.games)
    ensures var sel := GamesToClean(old(db.games), old(db.series));
      && RemovalPlan(sel, old(db.series))
      && (sel == [] ==> outcome == NoneFound && prompt == None)
      && (sel != [] ==> prompt == Some(ConfirmationMessage(sel, old(db.series))))
      && (sel != [] && !confirmed ==> outcome == Declined)
      && (sel != [] && confirmed ==> outcome == Cleaned(|sel|))
      && (outcome.Cleaned? ==>
            db.series == RemoveSeriesIds(old(db.series), ToSet(SelectedSeriesIds(sel, old(db.series)))))
      && (!outcome.Cleaned? ==> db.series == old(db.series))
  {
    GamesToCleanIsPlan(db.games, db.series);
    var groups := SingleGameGroups(db.games, db.series);
    if |groups| == 0 {
      return NoneFound, None;
    }
    var sel := GamesToClean(db.games, db.series);
    var message := BuildConfirmationMessage(sel, db.series);
    prompt := Some(message);
    if !confirmed {
      return Declined, prompt;
    }
    RemoveSelectedSeries(db, sel);
    outcome := Cleaned(|sel|);
  }
}
