# La Porra Musical — a Dafny model of the game core

La Porra Musical is a party game. Participants submit songs anonymously,
guess who submitted each song, then reveal the songs one by one while a
live ranking is computed. One `Game` record in a realtime store is the
whole state. Every client subscribes to it, and every mutation publishes
the whole record again.

This project models that core as pure functions over immutable
datatypes, and proves properties of them:

- `Types`: the game entities.
- `AppContext`: the game context. It decodes every store notification
  into a sanitised game, holds the `updateGame` guard, and runs the six
  updaters: add participant, add song, cast vote, set phase, reveal song
  and reset.
- `RevealView` and `Ranking`: the live scores, their stable ranking, the
  "all songs revealed" test and the moderator check.
- `YouTube` and `YouTubeExamples`: the two video-id regular expressions,
  the embed and thumbnail addresses derived from them, and short and
  watch links around any plain id.
- `VotingView`: the default voter, the vote handler and the media shown
  on each song card.
- `HomeView`: creating a game and joining one from an id or a pasted link.
- `App`: the hash router. It also holds the round trips from creating or
  joining a game to the screen that shows it.
- `JsString`: the JavaScript string built-ins the code relies on. These
  are `trim` with the exact ECMAScript white-space set, `toLowerCase`,
  `indexOf`, `split` and the UTF-16 `length`.

Fresh ids from `crypto.randomUUID()`, values read from `localStorage`,
and the record the store delivers are all parameters of the functions.

Two consequences of the code are worth stating. A guess counts whenever
the guessed participant did submit the song, so in a three-player game
(songs s1 by A, s2 by B, s3 by C) C's guess that B brought s2 scores a
point, and the ranking is B (2), A (1), C (1).
`RevealView.ThreePlayerScenario` proves that ranking. And `setGameState`
sets any phase: the code has no guard on phase changes.

## Model

| member | source | states |
|---|---|---|
| JsString.Trim | components/views/HomeView.tsx:35 | the trimmed string is the unique infix that is empty or has non-space ends, with only ECMAScript white space and line terminators around it; it is empty exactly when the input is all such characters |
| JsString.TrimIdempotent | components/ParticipantForm.tsx:14-16 | trimming a name that the form has already trimmed, as `addParticipant` does again, changes nothing |
| JsString.TrimOfUnpadded | components/views/HomeView.tsx:52 | a string without leading or trailing white space is its own trim |
| JsString.ToLower | context/AppContext.tsx:58 | lower-casing keeps the length and maps each character independently |
| JsString.IndexOf | components/views/HomeView.tsx:55 | the first occurrence of the separator, with -1 exactly when there is none |
| JsString.Split | components/views/HomeView.tsx:55-56 | `split` with a non-empty separator: the parts joined with the separator give back the input, each part but the last ends at the leftmost occurrence of the separator from where it starts and the last part holds none, and there is more than one part exactly when the input contains the separator |
| JsString.SplitUnique | components/views/HomeView.tsx:55-56 | any list of parts that joins back to the input and is cut at the leftmost occurrences is the result of `split`: the characterisation has one solution |
| JsString.SplitOverlapping | components/views/HomeView.tsx:55 | with a separator that overlaps itself the leftmost cut decides: `"aaa".split("aa")` is `["", "a"]` |
| JsString.SplitSecondPart | components/views/HomeView.tsx:55-56 | when the input contains the separator, the second part is the text after its first occurrence, up to the next occurrence or the end |
| JsString.Utf16Length | components/views/RevealView.tsx:14 | `length` counts one UTF-16 unit per character plus one more per astral character, so between one and two per character |
| JsString.Utf16LengthBmp | components/views/RevealView.tsx:14 | for a string without astral characters, `length` is the number of characters |
| JsString.LineEnd | App.tsx:17 | the reach of `.` from the start: no line terminator before it, and one at it unless it is the end |
| Ranking.InsertKeepsOrder | components/views/RevealView.tsx:50 | inserting into a list sorted by non-increasing score keeps it sorted |
| Ranking.InsertStable | components/views/RevealView.tsx:50 | inserting puts the entry first among equal scores and moves no entry past one of equal score |
| Ranking.SortByScore | components/views/RevealView.tsx:50 | `sort((a, b) => b.score - a.score)` on a stable sort: a permutation, sorted by non-increasing score, and for every score the entries carrying it keep their input order |
| Ranking.StableOrderIsUnique | components/views/RevealView.tsx:50 | two lists that are both sorted and keep the same per-score order are equal, so any stable sort gives the same ranking |
| AppContext.NotFoundMessage | context/AppContext.tsx:38 | the not-found error names the requested game id |
| AppContext.Sanitize | context/AppContext.tsx:27-33 | each absent collection becomes empty, and every present field is kept unchanged |
| AppContext.OnValue | context/AppContext.tsx:24-41 | a present record loads the sanitised game with no error; an absent record leaves no game and an error naming the id; loading ends either way |
| AppContext.DecodeEncode | context/AppContext.tsx:24-47 | a game published by an update and delivered back by the subscription is the same game |
| AppContext.UpdateGame | context/AppContext.tsx:49-54 | without a loaded game nothing is published; with one, exactly the updater's result is |
| AppContext.AddParticipantTo | context/AppContext.tsx:56-64 | the game is unchanged exactly when the trimmed name is empty or the name's lower-case form is taken; otherwise one participant with the fresh id and the trimmed name is appended and nothing else changes |
| AppContext.AddSongTo | context/AppContext.tsx:66-71 | one song carrying the draft's fields and the fresh id is appended, and nothing else changes |
| AppContext.FindVote | context/AppContext.tsx:76 | `findIndex` on the (voter, song) key: the first vote with that key, or -1 exactly when there is none |
| AppContext.Upsert | context/AppContext.tsx:73-84 | with no vote under the key the vote is appended; otherwise the first vote under the key, the one `findIndex` returns, is replaced in place and every other vote keeps its value and position; one vote per key stays one vote per key |
| AppContext.CastVoteIn | context/AppContext.tsx:73-84 | `castVote` changes only the votes, and changes them by the upsert |
| AppContext.SetGameStateIn | context/AppContext.tsx:86-88 | the phase becomes the requested one whatever it was, and nothing else changes |
| AppContext.RevealSongIn | context/AppContext.tsx:91-98 | afterwards the id is revealed; it is appended only if it was not revealed before, and the revealed list stays free of duplicates |
| AppContext.ResetGameIn | context/AppContext.tsx:100-109 | back to Submission with all four collections empty, keeping id, name and creator |
| AppContext.Apply | context/AppContext.tsx:56-109 | no updater changes the game's id, name or creator |
| AppContext.Dispatch | context/AppContext.tsx:49-54 | an action publishes nothing without a game, and otherwise publishes a record under the same game id |
| AppContext.AddParticipantKeepsNamesDistinct | context/AppContext.tsx:58-60 | for a trimmed name, participant names stay distinct under lower-casing |
| AppContext.AddParticipantUntrimmedDuplicates | context/AppContext.tsx:58-59 | the duplicate test compares the untrimmed name: with "bob" present, " Bob" is accepted and stored as "Bob" |
| AppContext.AddParticipantCaseCollision | context/AppContext.tsx:58 | of two names equal up to case, the second is rejected once the first is in |
| AppContext.CastVoteOverwrites | context/AppContext.tsx:76-81 | a second vote with the same key replaces the first, as if only the second had been cast |
| AppContext.RevealSongIdempotent | context/AppContext.tsx:93-96 | revealing a song twice is the same as revealing it once |
| AppContext.ResetGameIdempotent | context/AppContext.tsx:100-109 | resetting twice is the same as resetting once |
| AppContext.ApplyPreservesValid | context/AppContext.tsx:56-109 | every action keeps the invariant when its name is trimmed and its id is fresh: one vote per key, no id revealed twice, names distinct up to case, distinct participant and song ids |
| AppContext.RunPreservesValid | context/AppContext.tsx:49-109 | any sequence of such actions keeps the invariant, so no run publishes two votes with the same key |
| RevealView.FindSong | components/views/RevealView.tsx:45 | `songs.find`: the first song with the id, or none exactly when no song has it |
| RevealView.Score | components/views/RevealView.tsx:42-48 | the score is the number of the participant's votes on a revealed song whose submitter, found through the first song with that id, is the guessed participant |
| RevealView.ScoreAtMostVotesCast | components/views/RevealView.tsx:42-48 | a participant scores at most the number of votes they cast |
| RevealView.Tally | components/views/RevealView.tsx:41-49 | one row per participant, in participant order, with that participant's id, name and score |
| RevealView.LiveScores | components/views/RevealView.tsx:39-51 | empty without a game; otherwise exactly the participants' rows, ranked by non-increasing score, with ties in participant order |
| RevealView.NothingRevealedScoresZero | components/views/RevealView.tsx:44 | before any reveal every live score is zero |
| RevealView.UnknownSongNeverCounts | components/views/RevealView.tsx:45-46 | a vote on an id that names no song is never a right guess, and adding it changes no score |
| RevealView.ThreePlayerScenario | components/views/RevealView.tsx:39-51 | in the three-player example the ranking is B (2), A (1), C (1), with A before C on the tie |
| RevealView.AllSongsRevealed | components/views/RevealView.tsx:36-37 | when the revealed ids are distinct ids of songs, the length test holds exactly when every song is revealed |
| RevealView.AllSongsRevealedCountsOnly | components/views/RevealView.tsx:36-37 | the length test is not a content test: revealing an id of no song makes a one-song game count as all revealed while its song stays hidden |
| RevealView.IsModerator | components/views/RevealView.tsx:27-34 | only a game with a non-empty creator has a moderator, and then the viewer is moderator exactly when the stored moderator id is that creator |
| RevealView.NoCreatorNoModerator | components/views/RevealView.tsx:27-34 | in a game without a creator, such as one made on the home screen, no stored id makes anyone moderator |
| RevealView.ModeratorStable | components/views/RevealView.tsx:27-34 | no action changes who is moderator |
| YouTube.MarkerEnd | components/views/RevealView.tsx:12 | the marker alternation as a list of six token sequences per screen: no match exactly when no alternative matches at the position, and otherwise the end is the position plus the length of the alternative that matches |
| YouTube.AlternativesExclusive | components/views/RevealView.tsx:12 | no two alternatives match at the same position, so the order of the alternation never decides the match |
| YouTube.MarkerHasSeparator | components/views/RevealView.tsx:12 | every matched marker holds a `/`, `?` or `&` at a fixed offset from where it starts |
| YouTube.LastMarker | components/views/RevealView.tsx:12-13 | the backtracking of the greedy `^.*`: the rightmost position where a marker matches, and none when there is none |
| YouTube.Capture | components/views/RevealView.tsx:12-13 | the second group: there is a match exactly when a marker starts before the first line terminator; the group is the maximal run without `#`, `&` or `?` after the rightmost such marker |
| YouTube.VideoId | components/views/RevealView.tsx:10-15 | `getYouTubeVideoId` (both screens' variants): none for an empty URL; otherwise the capture exactly when it is 11 UTF-16 units long |
| YouTube.EmbedUrl | components/views/RevealView.tsx:17-20 | an embed address exists exactly when a video id does, and it is the fixed prefix followed by the id |
| YouTube.EmbedUrlRecoversId | components/views/RevealView.tsx:17-20 | the id can be read back from the embed address after its prefix |
| YouTube.ThumbnailUrl | components/views/VotingView.tsx:27-30 | a thumbnail address exists exactly when the voting screen finds a video id, and it embeds that id |
| YouTube.EmbedIffThumbnail | components/views/VotingView.tsx:27-35 | on the voting screen, the player and the thumbnail exist for exactly the same URLs |
| YouTubeExamples.ShortLinkOnlyOnRevealScreen | components/views/VotingView.tsx:17 | `youtu.be/<id>`, for any 11-character id free of separators, yields the id on the reveal screen and nothing on the voting screen |
| YouTubeExamples.WatchLinkOnBothScreens | components/views/RevealView.tsx:12 | `watch?v=<id>`, for any 11-character id free of separators, yields the id on both screens |
| VotingView.StorageKey | components/views/VotingView.tsx:46 | the storage key is the fixed prefix `porra-musical-user-` followed by the game id |
| VotingView.StorageKeyInjective | components/views/VotingView.tsx:46 | different games use different storage keys |
| VotingView.SavedName | components/views/VotingView.tsx:46 | the saved name is the value stored under the game's key, and none exactly when the key is absent |
| VotingView.RememberName | components/ParticipantForm.tsx:20 | after joining, the game's saved name is the trimmed name, and every other game's saved name is unchanged |
| VotingView.FindByName | components/views/VotingView.tsx:49 | the first participant whose name is exactly the saved one; none when no name was saved or none matches |
| VotingView.DefaultVoter | components/views/VotingView.tsx:44-54 | once the game is loaded and a saved name matches, the voter becomes the first participant carrying that name; without a game, a saved name or a match, the selection is kept |
| VotingView.DefaultVoterPicksNamed | components/views/VotingView.tsx:49-52 | with names distinct up to case, a saved name selects exactly its participant |
| VotingView.JoinedParticipantVotes | components/ParticipantForm.tsx:14-20 | a participant who joins through the form is, once the game reloads, the default voter on the voting screen |
| VotingView.HandleVote | components/views/VotingView.tsx:57-59 | nothing is sent exactly when no voter is selected; otherwise the vote has the selected voter, the song and the guess |
| VotingView.HandleVoteStores | components/views/VotingView.tsx:57-59 | after casting, the vote found under that voter and song carries the latest guess, and keys stay unique |
| VotingView.CardMedia | components/views/VotingView.tsx:89-116 | the card shows the player exactly when there is an embed address; a thumbnail is shown only from its address |
| VotingView.ThumbnailNeverShown | components/views/VotingView.tsx:94-116 | the thumbnail branch is dead: a card shows the player or the placeholder, and the placeholder exactly when there is no video id |
| HomeView.CreateNewGame | components/views/HomeView.tsx:18-27 | a new record has the fresh id, the name, the Submission phase, empty collections, and no creator or revealed list |
| HomeView.HandleCreateGame | components/views/HomeView.tsx:33-48 | nothing happens exactly when the name is blank; otherwise the record uses the trimmed, non-blank name and the hash points at the new id |
| HomeView.HandleJoinGame | components/views/HomeView.tsx:50-61 | nothing happens exactly when the input is blank; otherwise the id is the trimmed input when it holds no link marker, and otherwise the text after its first marker up to the next one or the end |
| HomeView.JoinWithBareId | components/views/HomeView.tsx:52-60 | a bare id without padding is joined as it is |
| HomeView.SplitInvitation | components/views/HomeView.tsx:55-58 | a link whose only `#` starts the marker splits into the address and the id |
| HomeView.JoinWithLink | components/views/HomeView.tsx:50-61 | pasting an invitation link joins the game whose id follows the marker |
| App.StripHash | App.tsx:16 | one leading `#` is dropped, and a hash without one is kept |
| App.GameIdOf | App.tsx:17-20 | a route matches exactly when it starts with `/game/` followed by a character that is not a line terminator; the id is the longest run up to the first line terminator |
| App.Route | App.tsx:16-24 | the game screen for exactly the routes that match, with the captured id; the home screen otherwise |
| App.GameHashRoutes | App.tsx:16-21 | `#/game/<id>`, with or without the `#`, routes to the game screen for that id |
| App.OtherHashesGoHome | App.tsx:24 | a hash without the game path shows the home screen |
| App.CreateThenRoute | components/views/HomeView.tsx:33-47 | creating a game with a usable name lands on that game's screen |
| App.JoinThenRoute | components/views/HomeView.tsx:50-60 | joining through an invitation link lands on the screen of the game it names |
| App.JoinWithEmptyIdGoesHome | components/views/HomeView.tsx:55-60 | a link with nothing after the marker leads to the home screen |
| App.CreatedGameLoads | components/views/HomeView.tsx:18-27 | a new game loads as an empty, valid Submission game with no moderator and no scores, whether or not the store keeps its empty lists |

## Left out

- The realtime store itself is not modelled: the database connection, `set`, the `onValue` subscription, concurrent writers and last-writer-wins. A notification is the `Option<StoredGame>` passed to `OnValue`, and a publication is the value `Dispatch` returns.
- `crypto.randomUUID()` is not modelled: the fresh id is a parameter. Its uniqueness is a precondition of the invariant lemmas only.
- `localStorage` is modelled as a map from key to value passed in and returned; the saved moderator id is a parameter.
- RevealView.IsModerator models one run of the effect. The component's flag is React state that is set to true and never reset, so it can stay true after the game changes.
- Phase transitions have no guards in the code, so none are modelled. `SetGameStateIn` accepts any phase.
- JsString.ToLower: maps only the ASCII letters; the full Unicode case mapping of `toLowerCase` is not modelled.
- JsString.Utf16Length: a Dafny `char` is a Unicode scalar value, so lone surrogates cannot be represented.
- App.Route: the browser's percent-encoding of characters written to `location.hash` is not modelled.
- The hashchange listener, form events (`preventDefault`, the `required` attribute) and all rendering are left out. The one exception is the choice of media on a song card.
- `getVoteForSong` and `guessedParticipantIds` on the voting screen only feed the display (the option shown as selected and the struck-through names), so they are not modelled.
- GameScreen, the submission and results screens, the song form and the song-info extraction service are not part of this model.
