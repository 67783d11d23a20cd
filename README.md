# Series Cleaner, modelled in Dafny

Playnite is a game-library manager. This repository holds two versions of one plugin command, "Clean Single-Game Series". The command finds series records that belong to a single game and deletes them. This project models both versions and proves what they select, what they show, and what they change.

- **`src/SeriesCleaner.cs`** (module `SeriesCleaner`).
  - It scans every series record and keeps a candidate pair (series, game) when exactly one game's association list contains the series id.
  - It previews at most twenty candidates.
  - After a Yes, it fetches each candidate's game again. If that game still lists the id, it drops one occurrence of the id and updates the game. Then it removes the series record.
- **`sources/SeriesCleaner/SeriesCleanerPlugin.cs`** (module `SeriesCleanerPlugin`).
  - It considers only games whose resolved series list has exactly one record.
  - It groups them by that record's id and selects the game of every group of one.
  - Its confirmation text lists at most ten selected games.
  - After a Yes, it removes each selected game's series record. It never touches a game.

Shared parts:

- `Store` holds the records, the host's lookups and writes, and the class `Store.Database`. That class has two fields: `games` and `series`.
- `Seqs` holds the LINQ `Where` and `List<T>.Remove`.
- `Text` holds blank tests, decimal counts and string joining.
- `Grouping` holds LINQ `GroupBy` and the theorem behind the plugin's selection.
- `RuleComparison` relates the two selection rules.
- `Scenarios` works through two small libraries with the first version.

Modelling decisions:

- Ids are integers. A null name or list is `None`.
- Both collections are sequences in enumeration order, and the order is part of what the source computes, which a map would lose. The first version's scan, and so its candidates and its preview, follow series order. The plugin's grouping, selection and prompt follow game order.
  - Unique ids are the invariant `Store.Database.Valid`.
  - A lookup by id (`Store.FindGame`) stands in for the host's dictionary access.
- The host's `Game.Series` getter is part of the SDK and not of this repository. It is modelled as `Store.GameSeries`. It gives null when the id list is null or empty. Otherwise it gives the records of the collection whose ids the list names, each record once, so an id listed twice still counts as one series (`RuleComparison.RepeatedIdResolvesOnce`). Ids that have no record contribute nothing.
- Removing a series id that has no record changes nothing.
- The dialog answer is the parameter `confirmed`. The texts the dialogs would show are results of the command methods.

The first version's Yes/No text promises that the series association is removed from affected games. The code calls `List.Remove`, which drops one occurrence only. The model follows the code:

- `SeriesCleaner.FreshRemovalStrips` proves the id is gone when a game's list has no repeated id.
- `Scenarios.DuplicateIdSurvives` shows that a list holding the id twice keeps one copy.

The plugin's own code never writes a game: it only asks the host to remove series records (`SeriesCleanerPlugin.SelectedGamesLeftDangling` states the result under the record-only model of that call). Likewise, `Scenarios.DuplicateIdSurvives` is about the first version's own `List.Remove` write. Whether the host's `Series.Remove` also strips the id from games' lists is outside this repository; see `Store.Database.RemoveSeries` under "## Left out".

## Model

| member | source | states |
|---|---|---|
| `Seqs.Filter` | src/SeriesCleaner.cs:57-59 | `Where`: every kept element is from the input and passes; every passing element is kept; never longer |
| `Seqs.RemoveFirst` | src/SeriesCleaner.cs:103 | definition of `List.Remove`; properties in the `RemoveFirstSpec` row |
| `Seqs.RemoveFirstSpec` | src/SeriesCleaner.cs:103 | `List.Remove` cuts out exactly the first occurrence and keeps the rest in order; a list without the id is returned unchanged; the multiset loses one copy |
| `Store.ListsSeries` | src/SeriesCleaner.cs:58 | definition of `g.SeriesIds != null && g.SeriesIds.Contains(id)` (also line 101); properties in the `CandidateIff` and `StripCandidateSpec` rows |
| `SeriesCleaner.IsBlankName` | src/SeriesCleaner.cs:135 | definition of `string.IsNullOrWhiteSpace` on a possibly null name (also line 139); properties in the `Label` row |
| `Text.IsBlank` | src/SeriesCleaner.cs:135 | definition of `string.IsNullOrWhiteSpace` for a non-null text (also line 139), over the character list of `Text.IsWhiteSpace` |
| `Text.Join` | src/SeriesCleaner.cs:146 | definition of `string.Join`; properties in the `PreviewOverflow` rows |
| `Text.NatToString` | sources/SeriesCleaner/SeriesCleanerPlugin.cs:61 | an interpolated count is a non-empty string of decimal digits with no leading zero |
| `Text.NatToStringRoundTrip` | src/SeriesCleaner.cs:150 | reading the digits of an interpolated count back gives the count |
| `Store.FindGame` | src/SeriesCleaner.cs:100 | `Games.Get`: a found game is in the collection with that id; nothing is found exactly when no game has the id |
| `Store.FindGameAt` | src/SeriesCleaner.cs:100 | with unique ids the lookup returns the one game carrying the id |
| `Store.ReplaceGame` | src/SeriesCleaner.cs:104 | definition of `Games.Update`, position by position; properties in the `Store.ReplaceGameLookup` row |
| `Store.ReplaceGameLookup` | src/SeriesCleaner.cs:104 | after an update, looking up the game's id yields the new record when the library held that id, and the library is unchanged when it did not; lookups of every other id are unchanged; ids stay unique |
| `Store.RemoveSeriesIdsMembers` | src/SeriesCleaner.cs:107 | a series survives removal exactly when it was present and its id was not removed |
| `Store.RemoveSeriesIdsTwice` | src/SeriesCleaner.cs:98-108 | removing ids one batch after another leaves what removing their union at once leaves |
| `Store.RemoveSeriesIdsUnique` | src/SeriesCleaner.cs:107 | removal keeps series ids unique |
| `Store.RemoveSeriesIdsCount` | src/SeriesCleaner.cs:107 | with unique ids the collection shrinks by the number of removed ids it held |
| `Store.ResolveSeries` | sources/SeriesCleaner/SeriesCleanerPlugin.cs:44 | the resolved records are exactly the records of the collection whose ids the game lists |
| `Store.ResolveSeriesOnce` | sources/SeriesCleaner/SeriesCleanerPlugin.cs:44 | with unique series ids the resolved list holds each record once, however often the game lists its id |
| `Store.GameSeries` | sources/SeriesCleaner/SeriesCleanerPlugin.cs:44 | definition of `Game.Series`: null for a null or empty id list, else the resolution; properties in the `Store.ResolveSeries`, `Store.ResolveSeriesOnce` and `Store.ResolveAfterRemoval` rows |
| `Store.RemoveSeriesIds` | src/SeriesCleaner.cs:107 | definition of `Series.Remove` over a set of ids (also SeriesCleanerPlugin.cs line 88); properties in the `Store.RemoveSeriesIds…` rows |
| `Store.ResolveAfterRemoval` | sources/SeriesCleaner/SeriesCleanerPlugin.cs:85 | resolving against the collection after a removal drops exactly the removed records from the earlier resolution |
| `Store.Database.UpdateGame` | src/SeriesCleaner.cs:104 | the games become the replaced collection; series unchanged; ids stay unique |
| `Store.Database.RemoveSeries` | src/SeriesCleaner.cs:107 | the series become the collection without that id; games unchanged (record-only host call, see "## Left out"); ids stay unique |
| `SeriesCleaner.GamesInSeries` | src/SeriesCleaner.cs:57-59 | definition of the per-series game query; properties in the `GamesInSeriesCount` and `CandidateIff` rows |
| `SeriesCleaner.SingleGameSeries` | src/SeriesCleaner.cs:53-65 | definition of the candidate list; properties in the `Candidate…` rows |
| `SeriesCleaner.GamesInSeriesCount` | src/SeriesCleaner.cs:57-61 | with unique game ids the query returns one game per game identity that lists the id |
| `SeriesCleaner.CandidatesSound` | src/SeriesCleaner.cs:55-64 | every candidate pairs a scanned series with the single game the query returned for it |
| `SeriesCleaner.CandidateIsSoleReferrer` | src/SeriesCleaner.cs:55-64 | a candidate's game is in the library and lists the series; every game listing it is that game; the referencing ids are just its id |
| `SeriesCleaner.CandidateIff` | src/SeriesCleaner.cs:55-65 | an id is a candidate's exactly when a scanned series has it and exactly one game lists it; ids listed by zero or by two or more games never are |
| `SeriesCleaner.CandidateOrigins` | src/SeriesCleaner.cs:55-63 | candidates come from strictly increasing positions of the series collection, so they are in enumeration order |
| `SeriesCleaner.CandidateIdsDistinct` | src/SeriesCleaner.cs:55-63 | with unique series ids no series is a candidate twice |
| `SeriesCleaner.FindCandidates` | src/SeriesCleaner.cs:53-65 | the scan loop computes exactly the candidate list `SingleGameSeries` |
| `SeriesCleaner.Label` | src/SeriesCleaner.cs:135-141 | a null or blank name gives way to the placeholder; any other name passes through; a non-blank placeholder gives a non-blank label |
| `SeriesCleaner.PlaceholdersNotBlank` | src/SeriesCleaner.cs:135-141 | with "<Unnamed Series>" and "Unknown Game" as placeholders neither label of a preview line is blank |
| `SeriesCleaner.PreviewLine` | src/SeriesCleaner.cs:143 | definition of `• {series} (Game: {game})`; properties in the `PreviewLines` and `PreviewLineEnds` rows |
| `SeriesCleaner.OverflowSuffix` | src/SeriesCleaner.cs:150 | definition of `\n…and N more series`; properties in the `PreviewOverflow` row |
| `SeriesCleaner.PreviewMessage` | src/SeriesCleaner.cs:128-157 | definition of the preview text; properties in the `PreviewOverflow` rows |
| `SeriesCleaner.RenderLines` | src/SeriesCleaner.cs:133-144 | one line per candidate, line i rendering candidate i |
| `SeriesCleaner.PreviewLines` | src/SeriesCleaner.cs:130-132 | exactly min(20, count) lines, line i rendering candidate i |
| `SeriesCleaner.PreviewOverflow` | src/SeriesCleaner.cs:146-154 | the text ends with " more series" exactly when there are more than 20 candidates; it is then header, joined lines and "\n…and N more series" with N = count − 20; otherwise header and joined lines |
| `SeriesCleaner.PreviewWithSuffix` | src/SeriesCleaner.cs:148-151 | with more than 20 candidates the overflow suffix is appended |
| `SeriesCleaner.PreviewLineEnds` | src/SeriesCleaner.cs:143 | every preview line ends with the closing parenthesis |
| `SeriesCleaner.PreviewWithoutSuffix` | src/SeriesCleaner.cs:146-149 | with at most 20 candidates the text ends in a preview line or the header, never in the suffix |
| `SeriesCleaner.StripCandidate` | src/SeriesCleaner.cs:100-105 | a game step keeps the number of game records |
| `SeriesCleaner.StripCandidateSpec` | src/SeriesCleaner.cs:100-105 | the re-fetched game, if it still lists the id, loses one occurrence; a missing game or one that no longer lists the id causes no update; ids and names never change |
| `SeriesCleaner.GamesAfterRemoval` | src/SeriesCleaner.cs:98-105 | the game steps keep the number of game records |
| `SeriesCleaner.GamesAfterRemovalFrame` | src/SeriesCleaner.cs:98-108 | ids and names are kept, ids stay unique, and games no candidate names are unchanged |
| `SeriesCleaner.SeriesIdsFor` | src/SeriesCleaner.cs:98-101 | every candidate of the given game contributes its series id, and nothing but candidate ids appears; the exact content is in the `SeriesIdsForOfGame` row |
| `SeriesCleaner.SeriesIdsForOfGame` | src/SeriesCleaner.cs:98-101 | exactly the series ids of the candidates whose game has the given id, one per such candidate, in candidate order: filtering the candidates by game and taking their ids |
| `SeriesCleaner.ScanAgreesWithCandidates` | src/SeriesCleaner.cs:55-63 | candidates from a scan name games of the library that list their series, with no series twice |
| `SeriesCleaner.GamesAfterRemovalAccounting` | src/SeriesCleaner.cs:98-105 | when each candidate's game is a current record listing its series and no series repeats, each game's list afterwards plus the ids its candidates took equals its old list, as multisets |
| `SeriesCleaner.FreshRemovalStrips` | src/SeriesCleaner.cs:98-105 | after a fresh scan and apply, no candidate id remains in a list that held no id twice |
| `SeriesCleaner.FreshRemovalCount` | src/SeriesCleaner.cs:107-113 | the series collection shrinks by exactly the reported candidate count |
| `SeriesCleaner.ApplyRemoval` | src/SeriesCleaner.cs:96-109 | the apply loop leaves games as `GamesAfterRemoval` and series without every candidate id, on any store state |
| `SeriesCleaner.CleanSingleGameSeries` | src/SeriesCleaner.cs:49-117 | no candidates: no change and no dialog text; declined: no change; confirmed: apply and report the candidate count |
| `Grouping.GroupBySpec` | sources/SeriesCleaner/SeriesCleanerPlugin.cs:48-49 | `GroupBy`: keys are distinct; each group holds exactly the values filed under its key, in order, never none; a key has a group exactly when some pair carries it |
| `Grouping.FirstEntries` | sources/SeriesCleaner/SeriesCleanerPlugin.cs:59 | definition of `Select(group => group.First())`, keeping the key beside the value; properties in the `GroupBySoleEntries` row |
| `Grouping.SoleEntries` | sources/SeriesCleaner/SeriesCleanerPlugin.cs:50-59 | definition of `Where(group => group.Count() == 1)` followed by `Select(First())`; properties in the `GroupBySoleEntries` row |
| `Grouping.GroupBySoleEntries` | sources/SeriesCleaner/SeriesCleanerPlugin.cs:48-59 | grouping, keeping the one-value groups and taking their first value yields exactly the pairs whose key occurs once, in input order |
| `Grouping.GroupBy` | sources/SeriesCleaner/SeriesCleanerPlugin.cs:49 | definition of LINQ `GroupBy`, one pair at a time; properties in the `GroupBySpec` row |
| `Grouping.SingleItemGroups` | sources/SeriesCleaner/SeriesCleanerPlugin.cs:50 | definition of `Where(group => group.Count() == 1)`; properties in the `GroupBySoleEntries` row |
| `SeriesCleanerPlugin.HasSingleSeries` | sources/SeriesCleaner/SeriesCleanerPlugin.cs:44 | definition of `g.Series != null && g.Series.Count == 1`; properties in the `SeriesKey` and `SelectedIff` rows |
| `SeriesCleanerPlugin.SingleSeriesGames` | sources/SeriesCleaner/SeriesCleanerPlugin.cs:43-45 | definition of the single-series filter; properties in the `GamesToCleanSpec` row |
| `SeriesCleanerPlugin.SingleGameGroups` | sources/SeriesCleaner/SeriesCleanerPlugin.cs:48-51 | definition of the grouping and size-1 filter; properties in the `GamesToCleanSpec` row |
| `SeriesCleanerPlugin.SoleSeries` | sources/SeriesCleaner/SeriesCleanerPlugin.cs:49 | a single-series game's `Series.First()` is a record of the collection that the game lists |
| `SeriesCleanerPlugin.SeriesKey` | sources/SeriesCleaner/SeriesCleanerPlugin.cs:43-49 | definition of a game's grouping key, absent for games the first `Where` drops; properties in the `GamesToCleanSpec` and `SelectedIff` rows |
| `SeriesCleanerPlugin.Keyed` | sources/SeriesCleaner/SeriesCleanerPlugin.cs:49 | definition of the key selector `g => g.Series.First().Id` applied to each game; properties in the `GamesToCleanSpec` row |
| `SeriesCleanerPlugin.GamesToClean` | sources/SeriesCleaner/SeriesCleanerPlugin.cs:59 | one game per size-1 group, the group's only game |
| `SeriesCleanerPlugin.GamesToCleanSpec` | sources/SeriesCleaner/SeriesCleanerPlugin.cs:43-59 | the pipeline selects exactly the library's games that are the only single-series game with their series, in enumeration order |
| `SeriesCleanerPlugin.SelectedIff` | sources/SeriesCleaner/SeriesCleanerPlugin.cs:43-59 | a game is selected iff it is in the library, has a single series, and no other game has the same single series; games with zero or several series never are |
| `SeriesCleanerPlugin.SelectedKeysDistinct` | sources/SeriesCleaner/SeriesCleanerPlugin.cs:48-59 | selected games have a single series each, and pairwise different ones |
| `SeriesCleanerPlugin.SeriesNameOrUnknown` | sources/SeriesCleaner/SeriesCleanerPlugin.cs:65 | definition of `?.Name ?? "Unknown"`; properties in the `GameLineShowsSeries` row |
| `SeriesCleanerPlugin.ConfirmationHeader` | sources/SeriesCleaner/SeriesCleanerPlugin.cs:61 | definition of the header; properties in the `HeaderEnds` and `ConfirmationShape` rows |
| `SeriesCleanerPlugin.GameLine` | sources/SeriesCleaner/SeriesCleanerPlugin.cs:66 | definition of one game line, a null game name printed as empty text; properties in the `GameLineEnds` row |
| `SeriesCleanerPlugin.MoreLine` | sources/SeriesCleaner/SeriesCleanerPlugin.cs:71 | definition of the "And N more..." line; properties in the `ConfirmationShape` row |
| `SeriesCleanerPlugin.ConfirmationMessage` | sources/SeriesCleaner/SeriesCleanerPlugin.cs:61-74 | definition of the prompt text; properties in the `ConfirmationShape` row |
| `SeriesCleanerPlugin.GameLines` | sources/SeriesCleaner/SeriesCleanerPlugin.cs:63-66 | definition of the lines the loop appends, one per game; properties in the `ConfirmationShape` and `BuildConfirmationMessage` rows |
| `Text.Concat` | sources/SeriesCleaner/SeriesCleanerPlugin.cs:66 | definition of the text the repeated `+=` builds from an empty start; properties in the `BuildConfirmationMessage` and `ConfirmationShape` rows |
| `SeriesCleanerPlugin.BuildConfirmationMessage` | sources/SeriesCleaner/SeriesCleanerPlugin.cs:61-74 | the append loop builds exactly `ConfirmationMessage` |
| `SeriesCleanerPlugin.ConfirmationShape` | sources/SeriesCleaner/SeriesCleanerPlugin.cs:63-74 | the prompt lists the first min(10, n) games in order and ends with the question; the "And N more..." line appears iff n > 10, with N = n − 10 |
| `SeriesCleanerPlugin.HeaderEnds` | sources/SeriesCleaner/SeriesCleanerPlugin.cs:61 | the header ends with two line breaks, so the game lines start after a blank line |
| `SeriesCleanerPlugin.GameLineEnds` | sources/SeriesCleaner/SeriesCleanerPlugin.cs:66 | every game line ends with ")" and a line break |
| `SeriesCleanerPlugin.GameLineShowsSeries` | sources/SeriesCleaner/SeriesCleanerPlugin.cs:65-66 | a game line ends with " (Series: Unknown)" when the game's series has a null name, and with that name otherwise, blank or not |
| `SeriesCleanerPlugin.ListingEndsWithParen` | sources/SeriesCleaner/SeriesCleanerPlugin.cs:61-67 | without the extra line the listing never ends like the "more" line |
| `SeriesCleanerPlugin.SelectedSeriesIds` | sources/SeriesCleaner/SeriesCleanerPlugin.cs:85 | definition of the ids the removal loop hands to `Series.Remove`; properties in the `RemoveSelectedSeries` and `RemovedCount` rows |
| `SeriesCleanerPlugin.GamesToCleanIsPlan` | sources/SeriesCleaner/SeriesCleanerPlugin.cs:59-85 | the selection meets what the removal loop relies on |
| `SeriesCleanerPlugin.StillResolves` | sources/SeriesCleaner/SeriesCleanerPlugin.cs:85-86 | after other series are removed a selected game still resolves to its own record, so `FirstOrDefault()` is never null |
| `SeriesCleanerPlugin.PlanStep` | sources/SeriesCleaner/SeriesCleanerPlugin.cs:85-88 | at step i the game resolves to its record and that id joins those removed |
| `SeriesCleanerPlugin.RemoveSelectedSeries` | sources/SeriesCleaner/SeriesCleanerPlugin.cs:83-96 | the loop removes exactly the selected games' series ids and leaves games unchanged |
| `SeriesCleanerPlugin.RemovedCount` | sources/SeriesCleaner/SeriesCleanerPlugin.cs:98 | the collection shrinks by exactly the selected count the success message reports |
| `SeriesCleanerPlugin.NoLongerResolves` | sources/SeriesCleaner/SeriesCleanerPlugin.cs:85-88 | once its own series record is removed, a single-series game resolves to no record |
| `SeriesCleanerPlugin.SelectedGamesLeftDangling` | sources/SeriesCleaner/SeriesCleanerPlugin.cs:83-96 | the plugin's own code writes no game: each selected game still lists its former series id, which no longer resolves, under the record-only `Series.Remove` |
| `SeriesCleanerPlugin.CleanSingleGameSeries` | sources/SeriesCleaner/SeriesCleanerPlugin.cs:38-99 | games never change; no selection: nothing removed and no prompt; declined: nothing removed; confirmed: the selected series removed and the selected count reported |
| `RuleComparison.SoleSeriesIsListed` | sources/SeriesCleaner/SeriesCleanerPlugin.cs:49 | a single-series game listing a record resolves to that record |
| `RuleComparison.CandidateSelectedByPlugin` | sources/SeriesCleaner/SeriesCleanerPlugin.cs:43-59 | a first-version candidate whose game has a single series is selected by the plugin through the same game and series |
| `RuleComparison.SelectedIsCandidate` | src/SeriesCleaner.cs:55-65 | a game the plugin selects yields a first-version candidate when every game listing its series has a single series |
| `RuleComparison.PluginSelectsSharedSeries` | sources/SeriesCleaner/SeriesCleanerPlugin.cs:43-59 | concrete library: the plugin selects a series that two games list |
| `RuleComparison.ScanSelectsOtherSeries` | src/SeriesCleaner.cs:55-65 | same library: the first version selects only the other series, whose game the plugin skips |
| `RuleComparison.RepeatedIdResolvesOnce` | sources/SeriesCleaner/SeriesCleanerPlugin.cs:44 | a game listing its one series twice resolves to that record once and so has a single series |
| `RuleComparison.RepeatedIdSelectedByBoth` | sources/SeriesCleaner/SeriesCleanerPlugin.cs:43-59 | such a game is selected by the plugin, and its series is a candidate of the first version |
| `Scenarios.ExampleRun` | src/SeriesCleaner.cs:53-108 | games A:[1], B:[2], C:[2]: only series 1 is a candidate; after apply only series 2 remains and A's list is empty |
| `Scenarios.DuplicateIdSurvives` | src/SeriesCleaner.cs:103 | a game listing series 7 twice is a candidate, its record is removed, and the first version's own `List.Remove` write leaves one copy of the id in the game's list (the host's `Series.Remove` taken as record-only) |

## Left out

- Dialogs, notifications and logging are left out: `ShowMessage`, `ShowErrorMessage`, `Notifications.Add` and `logger`.
  - The answer to the Yes/No prompt is the `confirmed` parameter.
  - The preview and the plugin's prompt text are returned as values.
  - The first version's fixed Yes/No wording and both success messages are not modelled. Their only variable part is the count, which the outcome carries.
- The plugin lifecycle is left out: its constructor, `Id`, `GetMainMenuItems`, and sources/Program.cs. These are host glue with no logic.
- `BufferedUpdate()` is left out. It coalesces host change notifications. The loop is modelled as plain sequential updates.
- Exceptions and the catch-all handlers are left out. They come from the host store. A missing game is modelled as a failed lookup. Removing an absent series id is modelled as a no-op.
- Concurrent changes to the store between scan and apply are left out. Instead, `SeriesCleaner.ApplyRemoval` accepts any store state.
- Unicode white space is not modelled exactly. `Text.IsWhiteSpace` is a fixed list of characters (ASCII white space, U+0085, U+00A0, U+2028, U+2029, U+3000), not the full `char.IsWhiteSpace` table.
- The SDK's `Game.Series` getter is not part of this repository. `Store.GameSeries` is an assumption about it. Its order is not visible here, and the model gives collection order. The order matters nowhere, since both uses take `First()` of a list known to hold one record.
- Store.Database.RemoveSeries: the host's `Series.Remove` is modelled as deleting the series record only. The SDK is not part of this repository, and the host may also strip the id from every game's association list when a series is removed. The model therefore does not promise what a game's list holds after the host call; `SeriesCleanerPlugin.SelectedGamesLeftDangling` and `Scenarios.DuplicateIdSurvives` describe only the writes this repository's code issues.
- Ids are integers, not GUIDs. Only equality of ids matters to both versions.
