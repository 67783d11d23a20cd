/** Two small libraries run through the cleaner of src/SeriesCleaner.cs. */
module Scenarios {
  import opened Seqs
  import opened Store
  import opened SeriesCleaner

  // Games A:[1], B:[2], C:[2]; series 1 "Alpha" and 2 "Beta".
  const gameA := Game(1, Some("A"), Some([1]))
  const gameB := Game(2, Some("B"), Some([2]))
  const gameC := Game(3, Some("C"), Some([2]))
  const alpha := Series(1, Some("Alpha"))
  const beta := Series(2, Some("Beta"))
  const games := [gameA, gameB, gameC]
  const series := [alpha, beta]

  lemma ExampleSeriesOne()
    ensures GamesInSeries(games, 1) == [gameA]
  {
    assert games == [gameA, gameB] + [gameC];
    assert [gameA, gameB] == [gameA] + [gameB];
    assert [gameA] == [] + [gameA];
    FilterSnoc([gameA, gameB], gameC, (g: Game) => ListsSeries(g, 1));
    FilterSnoc([gameA], gameB, (g: Game) => ListsSeries(g, 1));
    FilterSnoc([], gameA, (g: Game) => ListsSeries(g, 1));
  }

  lemma ExampleSeriesTwo()
    ensures GamesInSeries(games, 2) == [gameB, gameC]
  {
    assert games == [gameA, gameB] + [gameC];
    assert [gameA, gameB] == [gameA] + [gameB];
    assert [gameA] == [] + [gameA];
    FilterSnoc([gameA, gameB], gameC, (g: Game) => ListsSeries(g, 2));
    FilterSnoc([gameA], gameB, (g: Game) => ListsSeries(g, 2));
    FilterSnoc([], gameA, (g: Game) => ListsSeries(g, 2));
  }

  lemma ExampleGamesInSeries()
    ensures GamesInSeries(games, 1) == [gameA]
    ensures GamesInSeries(games, 2) == [gameB, gameC]
  {
    ExampleSeriesOne();
    ExampleSeriesTwo();
  }

  lemma ExampleScan()
    ensures SingleGameSeries(games, series) == [Candidate(alpha, gameA)]
  {
    ExampleGamesInSeries();
    assert series[..1] == [alpha];
    assert [alpha][..0] == [];
    assert SingleGameSeries(games, []) == [];
    assert SingleGameSeries(games, [alpha]) == [Candidate(alpha, gameA)];
  }

  lemma ExampleCollection()
    ensures RemoveSeriesIds(series, CandidateIdSet([Candidate(alpha, gameA)])) == [beta]
  {
    var candidates := [Candidate(alpha, gameA)];
    assert CandidateIds(candidates) == [1];
    assert CandidateIdSet(candidates) == {1};
    assert series == [alpha] + [beta];
    assert [alpha] == [] + [alpha];
    RemoveSeriesIdsSnoc([alpha], beta, {1});
    RemoveSeriesIdsSnoc([], alpha, {1});
  }

  lemma ExampleGames()
    ensures GamesAfterRemoval(games, [Candidate(alpha, gameA)])
         == [gameA.(seriesIds := Some([])), gameB, gameC]
  {
    var c := Candidate(alpha, gameA);
    assert [c][..0] == [];
    assert GamesAfterRemoval(games, [c]) == StripCandidate(games, c);
    assert FindGame(games, 1) == Some(gameA) by {
      assert games[..2] == [gameA, gameB] && [gameA, gameB][..1] == [gameA] && [gameA][..0] == [];
      assert FindGame([gameA], 1) == Some(gameA);
      assert FindGame([gameA, gameB], 1) == Some(gameA);
    }
    assert RemoveFirst([1], 1) == [];
    var stripped := gameA.(seriesIds := Some([]));
    assert StripCandidate(games, c) == ReplaceGame(games, stripped);
    var r := ReplaceGame(games, stripped);
    assert r[0] == stripped && r[1] == gameB && r[2] == gameC;
  }

  /** Only series 1 is a candidate; applying it leaves series 2 alone in the collection,
      game A with an empty list and games B and C as they were. */
  lemma ExampleRun()
    ensures SingleGameSeries(games, series) == [Candidate(alpha, gameA)]
    ensures RemoveSeriesIds(series, CandidateIdSet([Candidate(alpha, gameA)])) == [beta]
    ensures GamesAfterRemoval(games, [Candidate(alpha, gameA)])
         == [gameA.(seriesIds := Some([])), gameB, gameC]
  {
    ExampleScan();
    ExampleCollection();
    ExampleGames();
  }

  // A game whose association list holds series 7 twice.
  const doubled := Game(1, Some("D"), Some([7, 7]))
  const seven := Series(7, None)

  lemma DoubledScan()
    ensures SingleGameSeries([doubled], [seven]) == [Candidate(seven, doubled)]
  {
    assert GamesInSeries([doubled], 7) == [doubled] by {
      assert [doubled] == [] + [doubled];
      FilterSnoc([], doubled, (g: Game) => ListsSeries(g, 7));
    }
    assert [seven][..0] == [];
  }

  lemma DoubledCollection()
    ensures RemoveSeriesIds([seven], CandidateIdSet([Candidate(seven, doubled)])) == []
  {
    var candidates := [Candidate(seven, doubled)];
    assert CandidateIds(candidates) == [7];
    assert CandidateIdSet(candidates) == {7};
    assert [seven] == [] + [seven];
    RemoveSeriesIdsSnoc([], seven, {7});
  }

  lemma DoubledGames()
    ensures GamesAfterRemoval([doubled], [Candidate(seven, doubled)]) == [doubled.(seriesIds := Some([7]))]
  {
    var c := Candidate(seven, doubled);
    assert [c][..0] == [];
    assert GamesAfterRemoval([doubled], [c]) == StripCandidate([doubled], c);
    assert FindGame([doubled], 1) == Some(doubled) by {
      assert [doubled][..0] == [];
    }
    assert RemoveFirst([7, 7], 7) == [7];
    var stripped := doubled.(seriesIds := Some([7]));
    assert StripCandidate([doubled], c) == ReplaceGame([doubled], stripped);
    assert ReplaceGame([doubled], stripped)[0] == stripped;
  }

  /** `List.Remove` takes out one occurrence only: after the run series 7 is gone from the
      collection but the game still lists its id once. */
  lemma DuplicateIdSurvives()
    ensures SingleGameSeries([doubled], [seven]) == [Candidate(seven, doubled)]
    ensures RemoveSeriesIds([seven], CandidateIdSet([Candidate(seven, doubled)])) == []
    ensures GamesAfterRemoval([doubled], [Candidate(seven, doubled)]) == [doubled.(seriesIds := Some([7]))]
  {
    DoubledScan();
    DoubledCollection();
    DoubledGames();
  }
}
