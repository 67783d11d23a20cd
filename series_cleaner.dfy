/** The cleaner of src/SeriesCleaner.cs. A scan pairs every series with the only game whose
    association list contains it. A preview lists the first pairs. After confirmation, the apply
    step fetches each pair's game again, takes the series id out of its list once, and removes
    the series record. */
module SeriesCleaner {
  import opened Seqs
  import opened Text
  import opened Store

  /** A series together with the only game that listed it when the scan ran. */
  datatype Candidate = Candidate(series: Series, game: Game)

  /** The answer of one run of the command. */
  datatype Outcome = NoneFound | Declined | Removed(count: nat)

  // ---------------------------------------------------------------- scan

  /** The games whose non-null association list contains `id`, in enumeration order. */
  function GamesInSeries(games: seq<Game>, id: SeriesId): seq<Game>
  {
    Filter(games, (g: Game) => ListsSeries(g, id))
  }

  /** The identities of the games that list `id`: an order-free account of the same set. */
  ghost function ReferencingGames(games: seq<Game>, id: SeriesId): set<GameId>
  {
    set g | g in games && ListsSeries(g, id) :: g.id
  }

  lemma ReferencingGamesSnoc(games: seq<Game>, g: Game, id: SeriesId)
    ensures ReferencingGames(games + [g], id)
         == ReferencingGames(games, id) + (if ListsSeries(g, id) then {g.id} else {})
  {
    assert forall x :: x in games + [g] <==> x in games || x == g;
  }

  /** With unique game ids the query returns exactly as many games as there are games listing the id. */
  lemma {:induction false} GamesInSeriesCount(games: seq<Game>, id: SeriesId)
    requires UniqueGameIds(games)
    ensures |GamesInSeries(games, id)| == |ReferencingGames(games, id)|
  {
    if games != [] {
      var init, last := games[..|games| - 1], games[|games| - 1];
      assert games == init + [last];
      assert UniqueGameIds(init);
      GamesInSeriesCount(init, id);
      FilterSnoc(init, last, (g: Game) => ListsSeries(g, id));
      assert last.id !in ReferencingGames(init, id) by {
        forall i | 0 <= i < |init| ensures init[i].id != last.id {
          assert games[i] == init[i];
        }
      }
      ReferencingGamesSnoc(init, last, id);
    }
  }

  /** The candidates of a scan over `series` (lines 53-65), in series order. */
  function SingleGameSeries(games: seq<Game>, series: seq<Series>): seq<Candidate>
  {
    if series == [] then []
    else
      var init := SingleGameSeries(games, series[..|series| - 1]);
      var s := series[|series| - 1];
      var inSeries := GamesInSeries(games, s.id);
      if |inSeries| == 1 then init + [Candidate(s, inSeries[0])] else init
  }

  function CandidateIds(candidates: seq<Candidate>): (r: seq<SeriesId>)
    ensures |r| == |candidates|
    ensures forall k :: 0 <= k < |r| ==> r[k] == candidates[k].series.id
  {
    seq(|candidates|, k requires 0 <= k < |candidates| => candidates[k].series.id)
  }

  lemma {:induction false} CandidatesSound(games: seq<Game>, series: seq<Series>)
    ensures forall c :: c in SingleGameSeries(games, series) ==>
      c.series in series && GamesInSeries(games, c.series.id) == [c.game]
  {
    if series != [] {
      var init := series[..|series| - 1];
      CandidatesSound(games, init);
      assert forall s :: s in init ==> s in series;
    }
  }

  /** Each candidate pairs a scanned series with a game that lists it, and no other game lists it. */
  lemma CandidateIsSoleReferrer(games: seq<Game>, series: seq<Series>, c: Candidate)
    requires c in SingleGameSeries(games, series)
    ensures c.series in series && c.game in games && ListsSeries(c.game, c.series.id)
    ensures forall g :: g in games && ListsSeries(g, c.series.id) ==> g == c.game
    ensures ReferencingGames(games, c.series.id) == {c.game.id}
  {
    CandidatesSound(games, series);
    var inSeries := GamesInSeries(games, c.series.id);
    assert inSeries == [c.game];
    assert inSeries[0] == c.game;
    forall g | g in games && ListsSeries(g, c.series.id) ensures g == c.game {
      var i :| 0 <= i < |games| && games[i] == g;
      assert g in inSeries;
    }
  }

  /** A series id is among the candidates exactly when a scanned series has it and exactly one
      game lists it; ids listed by no game or by two or more games never are. */
  lemma {:induction false} CandidateIff(games: seq<Game>, series: seq<Series>, id: SeriesId)
    requires UniqueGameIds(games)
    ensures id in CandidateIds(SingleGameSeries(games, series))
        <==> id in IdsOf(series) && |ReferencingGames(games, id)| == 1
  {
    if series == [] {
      assert IdsOf(series) == {};
    } else {
      var init, s := series[..|series| - 1], series[|series| - 1];
      assert series == init + [s];
      CandidateIff(games, init, id);
      IdsOfSnoc(init, s);
      GamesInSeriesCount(games, s.id);
      var before := SingleGameSeries(games, init);
      var inSeries := GamesInSeries(games, s.id);
      if |inSeries| == 1 {
        assert CandidateIds(before + [Candidate(s, inSeries[0])]) == CandidateIds(before) + [s.id];
      }
    }
  }

  /** The candidates follow series enumeration order: candidate k comes from position
      `origin[k]` of the scanned collection, and the positions strictly increase. */
  lemma {:induction false} CandidateOrigins(games: seq<Game>, series: seq<Series>) returns (origin: seq<nat>)
    ensures |origin| == |SingleGameSeries(games, series)|
    ensures forall k :: 0 <= k < |origin| ==>
      origin[k] < |series| && series[origin[k]] == SingleGameSeries(games, series)[k].series
    ensures forall k, l :: 0 <= k < l < |origin| ==> origin[k] < origin[l]
  {
    if series == [] {
      origin := [];
    } else {
      var init, last := series[..|series| - 1], series[|series| - 1];
      var before := CandidateOrigins(games, init);
      var prev, cands := SingleGameSeries(games, init), SingleGameSeries(games, series);
      assert forall k :: 0 <= k < |init| ==> series[k] == init[k];
      var inSeries := GamesInSeries(games, last.id);
      if |inSeries| == 1 {
        assert cands == prev + [Candidate(last, inSeries[0])];
        origin := before + [|series| - 1];
        forall k | 0 <= k < |origin| ensures origin[k] < |series| && series[origin[k]] == cands[k].series {
          if k < |before| {
            assert cands[k] == prev[k];
          }
        }
      } else {
        assert cands == prev;
        origin := before;
      }
    }
  }

  /** Over a collection with unique ids, no series is a candidate twice. */
  lemma CandidateIdsDistinct(games: seq<Game>, series: seq<Series>)
    requires UniqueSeriesIds(series)
    ensures Distinct(CandidateIds(SingleGameSeries(games, series)))
  {
    var origin := CandidateOrigins(games, series);
  }

  /** The scan loop of lines 53-65, over the collections as they are enumerated. */
  method FindCandidates(games: seq<Game>, series: seq<Series>) returns (candidates: seq<Candidate>)
    ensures candidates == SingleGameSeries(games, series)
  {
    candidates := [];
    for i := 0 to |series|
      invariant candidates == SingleGameSeries(games, series[..i])
    {
      var s := series[i];
      var gamesInSeries := GamesInSeries(games, s.id);
      if |gamesInSeries| == 1 {
        candidates := candidates + [Candidate(s, gamesInSeries[0])];
      }
      assert series[..i + 1][..i] == series[..i];
    }
    assert series[..|series|] == series;
  }

  // ---------------------------------------------------------------- preview

  const PREVIEW_LIMIT := 20
  const PREVIEW_HEADER := "Series scheduled for removal:\n\n"
  const MORE_SERIES := " more series"

  predicate IsBlankName(name: Option<string>) {
    name.None? || IsBlank(name.value)
  }

  const UNNAMED_SERIES := "<Unnamed Series>"
  const UNKNOWN_GAME := "Unknown Game"

  /** A name as a preview line shows it: a null or blank name gives way to `placeholder`, any
      other name is shown as it is, so a non-blank placeholder makes a non-blank label. */
  function Label(name: Option<string>, placeholder: string): (r: string)
    ensures !IsBlankName(name) ==> r == name.value
    ensures IsBlankName(name) ==> r == placeholder
    ensures !IsBlank(placeholder) ==> !IsBlank(r)
  {
    if IsBlankName(name) then placeholder else name.value
  }

  /** Neither placeholder is blank, so no preview label is. */
  lemma PlaceholdersNotBlank(c: Candidate)
    ensures !IsBlank(Label(c.series.name, UNNAMED_SERIES))
    ensures !IsBlank(Label(c.game.name, UNKNOWN_GAME))
  {
    assert !IsWhiteSpace(UNNAMED_SERIES[0]);
    assert !IsWhiteSpace(UNKNOWN_GAME[0]);
  }

  function PreviewLine(c: Candidate): string {
    "\U{2022} " + Label(c.series.name, UNNAMED_SERIES) + " (Game: " + Label(c.game.name, UNKNOWN_GAME) + ")"
  }

  /** `Select(PreviewLine)`. */
  function RenderLines(candidates: seq<Candidate>): (r: seq<string>)
    ensures |r| == |candidates|
    ensures forall i :: 0 <= i < |r| ==> r[i] == PreviewLine(candidates[i])
  {
    if candidates == [] then []
    else RenderLines(candidates[..|candidates| - 1]) + [PreviewLine(candidates[|candidates| - 1])]
  }

  /** The preview lines (lines 130-144): one per candidate, in candidate order, at most twenty. */
  function PreviewLines(candidates: seq<Candidate>): (lines: seq<string>)
    ensures |lines| == Min(PREVIEW_LIMIT, |candidates|)
    ensures forall i :: 0 <= i < |lines| ==> lines[i] == PreviewLine(candidates[i])
  {
    RenderLines(candidates[..Min(PREVIEW_LIMIT, |candidates|)])
  }

  function OverflowSuffix(more: nat): string {
    "\n\U{2026}and " + NatToString(more) + MORE_SERIES
  }

  /** The text of the preview dialog (lines 128-157). */
  function PreviewMessage(candidates: seq<Candidate>): string
  {
    var previewCount := Min(PREVIEW_LIMIT, |candidates|);
    var message := Join("\n", PreviewLines(candidates));
    PREVIEW_HEADER + message
      + (if |candidates| > previewCount then OverflowSuffix(|candidates| - previewCount) else "")
  }

  /** The "...and N more series" suffix is there exactly when there are more than twenty
      candidates; N is then the number left out, and without it the text is the joined lines. */
  lemma PreviewOverflow(candidates: seq<Candidate>)
    ensures EndsWith(PreviewMessage(candidates), MORE_SERIES) <==> |candidates| > PREVIEW_LIMIT
    ensures |candidates| > PREVIEW_LIMIT ==>
      PreviewMessage(candidates)
        == PREVIEW_HEADER + Join("\n", PreviewLines(candidates)) + OverflowSuffix(|candidates| - PREVIEW_LIMIT)
    ensures |candidates| <= PREVIEW_LIMIT ==>
      PreviewMessage(candidates) == PREVIEW_HEADER + Join("\n", PreviewLines(candidates))
  {
    if |candidates| > PREVIEW_LIMIT {
      PreviewWithSuffix(candidates);
    } else {
      PreviewWithoutSuffix(candidates);
    }
  }

  lemma PreviewWithSuffix(candidates: seq<Candidate>)
    requires |candidates| > PREVIEW_LIMIT
    ensures PreviewMessage(candidates)
         == PREVIEW_HEADER + Join("\n", PreviewLines(candidates)) + OverflowSuffix(|candidates| - PREVIEW_LIMIT)
    ensures EndsWith(PreviewMessage(candidates), MORE_SERIES)
  {
    var more := |candidates| - PREVIEW_LIMIT;
    var suffix := OverflowSuffix(more);
    EndsWithAppend("\n\U{2026}and " + NatToString(more), MORE_SERIES);
    var listing := PREVIEW_HEADER + Join("\n", PreviewLines(candidates));
    assert PreviewMessage(candidates) == listing + suffix;
    EndsWithAppend(listing, suffix);
    EndsWithTrans(listing + suffix, suffix, MORE_SERIES);
  }

  lemma PreviewWithoutSuffix(candidates: seq<Candidate>)
    requires |candidates| <= PREVIEW_LIMIT
    ensures PreviewMessage(candidates) == PREVIEW_HEADER + Join("\n", PreviewLines(candidates))
    ensures !EndsWith(PreviewMessage(candidates), MORE_SERIES)
  {
    var msg := PreviewMessage(candidates);
    var listing := PREVIEW_HEADER + Join("\n", PreviewLines(candidates));
    assert msg == listing + "";
    AppendEmpty(listing);
    if candidates == [] {
      assert Join("\n", PreviewLines(candidates)) == "";
      AppendEmpty(PREVIEW_HEADER);
      assert msg[|msg| - 1] == '\n';
    } else {
      ListingEndsWithLine(candidates);
    }
    EndsWithLastChar(msg, MORE_SERIES);
  }

  /** A preview line ends with ")". */
  lemma PreviewLineEnds(c: Candidate)
    ensures EndsWith(PreviewLine(c), ")")
  {
    EndsWithAppend("\U{2022} " + Label(c.series.name, UNNAMED_SERIES) + " (Game: " + Label(c.game.name, UNKNOWN_GAME), ")");
  }

  /** With at least one candidate the preview text ends with the last line's ")". */
  lemma ListingEndsWithLine(candidates: seq<Candidate>)
    requires 0 < |candidates| <= PREVIEW_LIMIT
    ensures var listing := PREVIEW_HEADER + Join("\n", PreviewLines(candidates));
      |listing| > 0 && listing[|listing| - 1] == ')'
  {
    var lines := PreviewLines(candidates);
    PreviewLineEnds(candidates[|lines| - 1]);
    JoinedEndsWith(PREVIEW_HEADER, "\n", lines, ")");
    EndsWithLastChar(PREVIEW_HEADER + Join("\n", lines), ")");
  }

  // ---------------------------------------------------------------- apply

  /** The game collection after the game step for one candidate (lines 100-105): the game is
      fetched again by id, and if it is still there and still lists the series, the first
      occurrence of the id is taken out of its list and the record is written back. */
  function StripCandidate(games: seq<Game>, c: Candidate): (r: seq<Game>)
    ensures |r| == |games|
  {
    match FindGame(games, c.game.id)
    case Some(g) =>
      if ListsSeries(g, c.series.id)
      then ReplaceGame(games, g.(seriesIds := Some(RemoveFirst(g.seriesIds.value, c.series.id))))
      else games
    case None => games
  }

  /** The game collection after the game steps for all candidates, in order. */
  function GamesAfterRemoval(games: seq<Game>, candidates: seq<Candidate>): (r: seq<Game>)
    ensures |r| == |games|
  {
    if candidates == [] then games
    else StripCandidate(GamesAfterRemoval(games, candidates[..|candidates| - 1]), candidates[|candidates| - 1])
  }

  ghost function CandidateIdSet(candidates: seq<Candidate>): set<SeriesId> {
    ToSet(CandidateIds(candidates))
  }

  ghost function TargetGameIds(candidates: seq<Candidate>): set<GameId> {
    set c | c in candidates :: c.game.id
  }

  /** One candidate's game step. The re-fetched game, if it still lists the series, loses exactly
      one occurrence of the id; every other game, and every game when the re-fetched one is
      missing or no longer lists the id, is left as it was. Ids and names never change. */
  lemma StripCandidateSpec(games: seq<Game>, c: Candidate)
    requires UniqueGameIds(games)
    ensures var r := StripCandidate(games, c);
      && |r| == |games| && UniqueGameIds(r)
      && (forall i :: 0 <= i < |r| ==> r[i].id == games[i].id && r[i].name == games[i].name)
      && (forall i :: 0 <= i < |r| ==>
            if games[i].id == c.game.id && ListsSeries(games[i], c.series.id)
            then r[i].seriesIds == Some(RemoveFirst(games[i].seriesIds.value, c.series.id))
            else r[i] == games[i])
  {
    var found := FindGame(games, c.game.id);
    if found.Some? {
      var j :| 0 <= j < |games| && games[j] == found.value;
      forall i | 0 <= i < |games| && games[i].id == c.game.id ensures i == j {
        FindGameAt(games, i);
      }
    }
  }

  /** The game steps never change ids or names, keep ids unique, and leave every game that is
      no candidate's game exactly as it was. */
  lemma {:induction false} GamesAfterRemovalFrame(games: seq<Game>, candidates: seq<Candidate>)
    requires UniqueGameIds(games)
    ensures var r := GamesAfterRemoval(games, candidates);
      && |r| == |games| && UniqueGameIds(r)
      && (forall i :: 0 <= i < |r| ==> r[i].id == games[i].id && r[i].name == games[i].name)
      && (forall i :: 0 <= i < |r| && games[i].id !in TargetGameIds(candidates) ==> r[i] == games[i])
  {
    if candidates != [] {
      var init, c := candidates[..|candidates| - 1], candidates[|candidates| - 1];
      assert candidates == init + [c];
      GamesAfterRemovalFrame(games, init);
      StripCandidateSpec(GamesAfterRemoval(games, init), c);
      assert forall d :: d in init ==> d in candidates;
    }
  }

  /** The series ids of the candidates whose game has id `gid`, in candidate order. */
  function SeriesIdsFor(candidates: seq<Candidate>, gid: GameId): (r: seq<SeriesId>)
    ensures forall k :: 0 <= k < |candidates| && candidates[k].game.id == gid ==> candidates[k].series.id in r
    ensures forall x :: x in r ==> x in CandidateIds(candidates)
  {
    if candidates == [] then []
    else
      var init, c := candidates[..|candidates| - 1], candidates[|candidates| - 1];
      assert forall k :: 0 <= k < |init| ==> init[k] == candidates[k];
      SeriesIdsFor(init, gid) + (if c.game.id == gid then [c.series.id] else [])
  }

  /** Exactly the ids of the candidates naming game `gid`, one per such candidate, in candidate
      order: nothing from the candidates of other games. */
  lemma {:induction false} SeriesIdsForOfGame(candidates: seq<Candidate>, gid: GameId)
    ensures SeriesIdsFor(candidates, gid) == CandidateIds(Filter(candidates, (d: Candidate) => d.game.id == gid))
  {
    if candidates != [] {
      var init, c := candidates[..|candidates| - 1], candidates[|candidates| - 1];
      assert candidates == init + [c];
      SeriesIdsForOfGame(init, gid);
      FilterSnoc(init, c, (d: Candidate) => d.game.id == gid);
      var mine := Filter(init, (d: Candidate) => d.game.id == gid);
      assert CandidateIds(mine + [c]) == CandidateIds(mine) + [c.series.id];
    }
  }

  /** What the fresh scan guarantees the apply step: every candidate's game is a current record
      that lists the candidate's series, and no series id is a candidate twice. */
  ghost predicate ScanAgrees(games: seq<Game>, candidates: seq<Candidate>) {
    && (forall k :: 0 <= k < |candidates| ==>
          candidates[k].game in games && ListsSeries(candidates[k].game, candidates[k].series.id))
    && Distinct(CandidateIds(candidates))
  }

  lemma ScanAgreesWithCandidates(games: seq<Game>, series: seq<Series>)
    requires UniqueSeriesIds(series)
    ensures ScanAgrees(games, SingleGameSeries(games, series))
  {
    var candidates := SingleGameSeries(games, series);
    CandidateIdsDistinct(games, series);
    forall k | 0 <= k < |candidates|
      ensures candidates[k].game in games && ListsSeries(candidates[k].game, candidates[k].series.id)
    {
      CandidateIsSoleReferrer(games, series, candidates[k]);
    }
  }

  /** When the candidates agree with the store, every game's association list afterwards is its
      old list with one occurrence of each of its candidates' series ids taken out. */
  lemma {:induction false} GamesAfterRemovalAccounting(games: seq<Game>, candidates: seq<Candidate>)
    requires UniqueGameIds(games) && ScanAgrees(games, candidates)
    ensures var r := GamesAfterRemoval(games, candidates);
      && |r| == |games|
      && forall i :: 0 <= i < |games| && games[i].seriesIds.Some? ==>
           && r[i].seriesIds.Some?
           && multiset(r[i].seriesIds.value) + multiset(SeriesIdsFor(candidates, games[i].id))
              == multiset(games[i].seriesIds.value)
  {
    if candidates != [] {
      var init, c := candidates[..|candidates| - 1], candidates[|candidates| - 1];
      assert candidates == init + [c];
      ScanAgreesPrefix(games, init, c);
      GamesAfterRemovalAccounting(games, init);
      GamesAfterRemovalFrame(games, init);
      var j :| 0 <= j < |games| && games[j] == c.game;
      forall i | 0 <= i < |games| && games[i].seriesIds.Some?
        ensures && GamesAfterRemoval(games, candidates)[i].seriesIds.Some?
                && multiset(GamesAfterRemoval(games, candidates)[i].seriesIds.value)
                   + multiset(SeriesIdsFor(candidates, games[i].id))
                   == multiset(games[i].seriesIds.value)
      {
        AccountingAt(games, init, c, i, j);
      }
    }
  }

  lemma ScanAgreesPrefix(games: seq<Game>, init: seq<Candidate>, c: Candidate)
    requires ScanAgrees(games, init + [c])
    ensures ScanAgrees(games, init)
    ensures c.game in games && ListsSeries(c.game, c.series.id)
    ensures c.series.id !in SeriesIdsFor(init, c.game.id)
  {
    var candidates := init + [c];
    assert forall k :: 0 <= k < |init| ==> init[k] == candidates[k];
    assert CandidateIds(init) == CandidateIds(candidates)[..|init|];
    assert candidates[|init|] == c;
    forall k | 0 <= k < |init| ensures init[k].series.id != c.series.id {
      assert CandidateIds(candidates)[k] == init[k].series.id;
      assert CandidateIds(candidates)[|init|] == c.series.id;
    }
  }

  /** The induction step of the accounting, for the game at position `i`; `j` is the position of
      the last candidate's game. */
  lemma AccountingAt(games: seq<Game>, init: seq<Candidate>, c: Candidate, i: int, j: int)
    requires UniqueGameIds(games)
    requires 0 <= i < |games| && games[i].seriesIds.Some?
    requires 0 <= j < |games| && games[j] == c.game && ListsSeries(c.game, c.series.id)
    requires c.series.id !in SeriesIdsFor(init, c.game.id)
    requires var before := GamesAfterRemoval(games, init);
      && UniqueGameIds(before)
      && (forall n :: 0 <= n < |games| ==> before[n].id == games[n].id)
      && (forall n :: 0 <= n < |games| && games[n].seriesIds.Some? ==>
            && before[n].seriesIds.Some?
            && multiset(before[n].seriesIds.value) + multiset(SeriesIdsFor(init, games[n].id))
               == multiset(games[n].seriesIds.value))
    ensures var after := GamesAfterRemoval(games, init + [c]);
      && after[i].seriesIds.Some?
      && multiset(after[i].seriesIds.value) + multiset(SeriesIdsFor(init + [c], games[i].id))
         == multiset(games[i].seriesIds.value)
  {
    var before := GamesAfterRemoval(games, init);
    assert (init + [c])[..|init|] == init;
    assert GamesAfterRemoval(games, init + [c]) == StripCandidate(before, c);
    assert SeriesIdsFor(init + [c], games[i].id)
        == SeriesIdsFor(init, games[i].id) + (if c.game.id == games[i].id then [c.series.id] else []);
    StripCandidateSpec(before, c);
    if games[i].id == c.game.id {
      assert i == j;
      StepAccounting(games[i].seriesIds.value, before[i].seriesIds.value,
                     SeriesIdsFor(init, c.game.id), c.series.id);
    } else {
      assert before[i].id != c.game.id;
    }
  }

  /** One subtraction step of the accounting above. */
  lemma StepAccounting(original: seq<SeriesId>, current: seq<SeriesId>, taken: seq<SeriesId>, sid: SeriesId)
    requires multiset(current) + multiset(taken) == multiset(original)
    requires sid in original && sid !in taken
    ensures sid in current
    ensures multiset(RemoveFirst(current, sid)) + multiset(taken + [sid]) == multiset(original)
  {
    assert multiset(original)[sid] == multiset(current)[sid] + multiset(taken)[sid];
    RemoveFirstSpec(current, sid);
  }

  /** Where a game's list holds no id twice, the apply step that follows a fresh scan leaves no
      candidate's series id in any game's list. */
  lemma FreshRemovalStrips(games: seq<Game>, series: seq<Series>, i: int, k: int)
    requires UniqueGameIds(games) && UniqueSeriesIds(series)
    requires 0 <= i < |games| && games[i].seriesIds.Some? && Distinct(games[i].seriesIds.value)
    requires 0 <= k < |SingleGameSeries(games, series)|
    ensures var candidates := SingleGameSeries(games, series);
      && GamesAfterRemoval(games, candidates)[i].seriesIds.Some?
      && candidates[k].series.id !in GamesAfterRemoval(games, candidates)[i].seriesIds.value
  {
    var candidates := SingleGameSeries(games, series);
    var c := candidates[k];
    ScanAgreesWithCandidates(games, series);
    GamesAfterRemovalAccounting(games, candidates);
    CandidateIsSoleReferrer(games, series, c);
    var l := games[i].seriesIds.value;
    var after := GamesAfterRemoval(games, candidates)[i].seriesIds.value;
    var taken := SeriesIdsFor(candidates, games[i].id);
    var sid := c.series.id;
    if games[i].id == c.game.id {
      var j :| 0 <= j < |games| && games[j] == c.game;
      assert i == j;
      DistinctCount(l, sid);
      assert sid in taken;
      assert multiset(l)[sid] == multiset(after)[sid] + multiset(taken)[sid];
    } else {
      assert games[i] != c.game;
      assert sid !in l;
      assert multiset(l)[sid] == multiset(after)[sid] + multiset(taken)[sid];
    }
  }

  /** An id occurs once in a repetition-free list that contains it. */
  lemma {:induction false} DistinctCount(s: seq<SeriesId>, x: SeriesId)
    requires Distinct(s) && x in s
    ensures multiset(s)[x] == 1
  {
    var init, last := s[..|s| - 1], s[|s| - 1];
    assert s == init + [last];
    assert Distinct(init);
    assert last !in init by {
      forall i | 0 <= i < |init| ensures init[i] != last {
        assert s[i] == init[i];
      }
    }
    if last != x {
      DistinctCount(init, x);
    }
  }

  /** The apply step that follows a fresh scan removes one series record per candidate, so the
      count reported matches the records removed. */
  lemma FreshRemovalCount(games: seq<Game>, series: seq<Series>)
    requires UniqueSeriesIds(series)
    ensures var candidates := SingleGameSeries(games, series);
      |RemoveSeriesIds(series, CandidateIdSet(candidates))| == |series| - |candidates|
  {
    var candidates := SingleGameSeries(games, series);
    var ids := CandidateIdSet(candidates);
    CandidateIdsDistinct(games, series);
    DistinctCard(CandidateIds(candidates));
    forall x | x in ids ensures x in IdsOf(series) {
      var k :| 0 <= k < |candidates| && CandidateIds(candidates)[k] == x;
      CandidatesSound(games, series);
      assert candidates[k] in candidates;
    }
    assert ids * IdsOf(series) == ids;
    RemoveSeriesIdsCount(series, ids);
  }

  /** Extending the processed prefix by one candidate adds its game step and its series id. */
  lemma PrefixStep(games: seq<Game>, candidates: seq<Candidate>, i: int)
    requires 0 <= i < |candidates|
    ensures GamesAfterRemoval(games, candidates[..i + 1])
         == StripCandidate(GamesAfterRemoval(games, candidates[..i]), candidates[i])
    ensures CandidateIdSet(candidates[..i + 1]) == CandidateIdSet(candidates[..i]) + {candidates[i].series.id}
  {
    var pre := candidates[..i + 1];
    assert pre[..i] == candidates[..i];
    assert CandidateIds(pre) == CandidateIds(candidates[..i]) + [candidates[i].series.id];
  }

  /** The apply loop of lines 96-108. The store passed in need not be the one the candidates
      were computed from: a game may since have been deleted or changed. */
  method ApplyRemoval(db: Database, candidates: seq<Candidate>)
    requires db.Valid()
    modifies db
    ensures db.Valid()
    ensures db.games == GamesAfterRemoval(old(db.games), candidates)
    ensures db.series == RemoveSeriesIds(old(db.series), CandidateIdSet(candidates))
  {
    RemoveNoSeriesIds(db.series);
    assert CandidateIdSet(candidates[..0]) == {};
    for i := 0 to |candidates|
      invariant db.Valid()
      invariant db.games == GamesAfterRemoval(old(db.games), candidates[..i])
      invariant db.series == RemoveSeriesIds(old(db.series), CandidateIdSet(candidates[..i]))
    {
      var candidate := candidates[i];
      ghost var gamesBefore := db.games;
      var game := FindGame(db.games, candidate.game.id);
      if game.Some? && game.value.seriesIds.Some? && candidate.series.id in game.value.seriesIds.value {
        var updated := game.value.(seriesIds := Some(RemoveFirst(game.value.seriesIds.value, candidate.series.id)));
        db.UpdateGame(updated);
      }
      assert db.games == StripCandidate(gamesBefore, candidate);
      db.RemoveSeries(candidate.series.id);
      PrefixStep(old(db.games), candidates, i);
      RemoveSeriesIdsTwice(old(db.series), CandidateIdSet(candidates[..i]), {candidate.series.id});
    }
    assert candidates[..|candidates|] == candidates;
  }

  /** One run of the command (lines 49-126); `confirmed` is the answer to the Yes/No prompt. */
  method CleanSingleGameSeries(db: Database, confirmed: bool) returns (outcome: Outcome, preview: Option<string>)
    requires db.Valid()
    modifies db
    ensures db.Valid()
    ensures var candidates := SingleGameSeries(old(db.games), old(db.series));
      && (candidates == [] ==> outcome == NoneFound && preview == None)
      && (candidates != [] ==> preview == Some(PreviewMessage(candidates)))
      && (candidates != [] && !confirmed ==> outcome == Declined)
      && (candidates != [] && confirmed ==> outcome == Removed(|candidates|))
      && (outcome.Removed? ==>
            && db.games == GamesAfterRemoval(old(db.games), candidates)
            && db.series == RemoveSeriesIds(old(db.series), CandidateIdSet(candidates)))
      && (!outcome.Removed? ==> db.games == old(db.games) && db.series == old(db.series))
  {
    var candidates := FindCandidates(db.games, db.series);
    if |candidates| == 0 {
      return NoneFound, None;
    }
    preview := Some(PreviewMessage(candidates));
    if !confirmed {
      return Declined, preview;
    }
    ApplyRemoval(db, candidates);
    outcome := Removed(|candidates|);
  }
}
