/**
 * The pure parts of the reveal screen: the live ranking, the "all songs
 * revealed" test and the moderator check.
 */
module RevealView {
  import opened Wrappers
  import opened Types
  import opened Ranking
  import opened AppContext

  // ---------------------------------------------------------------------
  // Live scores
  // ---------------------------------------------------------------------

  /** `songs.find(s => s.id === id)`: the first song with that id, if any. */
  function FindSong(songs: seq<Song>, id: string): (r: Option<Song>)
    ensures r.None? <==> forall i :: 0 <= i < |songs| ==> songs[i].id != id
    ensures r.Some? ==> r.value in songs && r.value.id == id
    ensures r.Some? ==> exists i :: 0 <= i < |songs| && songs[i] == r.value
                          && forall j :: 0 <= j < i ==> songs[j].id != id
  {
    if |songs| == 0 then None
    else if songs[0].id == id then Some(songs[0])
    else
      var r := FindSong(songs[1..], id);
      assert forall i :: 1 <= i < |songs| ==> songs[i] == songs[1..][i - 1];
      r
  }

  /**
   * The filter of the live score: the vote is the participant's, its song is
   * revealed, and the first song with that id was submitted by the guessed
   * participant.
   */
  predicate IsCorrectGuess(g: Game, participantId: string, v: Vote) {
    && v.voterId == participantId
    && v.songId in g.revealedSongIds
    && FindSong(g.songs, v.songId).Some?
    && FindSong(g.songs, v.songId).value.submittedBy == v.guessedParticipantId
  }

  /** The live-score test for one participant, as the callback handed to `filter`. */
  function GuessedRight(g: Game, participantId: string): Vote -> bool {
    (v: Vote) => IsCorrectGuess(g, participantId, v)
  }

  /** The test selecting the votes a participant cast. */
  function CastBy(participantId: string): Vote -> bool {
    (v: Vote) => v.voterId == participantId
  }

  /** `xs.filter(keep)`: the kept elements, in their order. */
  function Filter<T>(xs: seq<T>, keep: T -> bool): (r: seq<T>)
    ensures |r| <= |xs|
    decreases |xs|
  {
    if |xs| == 0 then []
    else Filter(xs[..|xs| - 1], keep) + (if keep(xs[|xs| - 1]) then [xs[|xs| - 1]] else [])
  }

  /** The filter keeps exactly the elements that pass the test. */
  lemma {:induction false} FilterMembers<T>(xs: seq<T>, keep: T -> bool)
    ensures forall x :: x in Filter(xs, keep) <==> x in xs && keep(x)
    decreases |xs|
  {
    if |xs| > 0 {
      var init := xs[..|xs| - 1];
      FilterMembers(init, keep);
      assert xs == init + [xs[|xs| - 1]];
    }
  }

  lemma FilterSnoc<T>(xs: seq<T>, x: T, keep: T -> bool)
    ensures Filter(xs + [x], keep) == Filter(xs, keep) + (if keep(x) then [x] else [])
  {
    assert (xs + [x])[..|xs|] == xs;
  }

  /** Filtering with a test that lets more through keeps at least as many elements. */
  lemma {:induction false} FilterMonotone<T>(xs: seq<T>, keep: T -> bool, wider: T -> bool)
    requires forall x :: x in xs && keep(x) ==> wider(x)
    ensures |Filter(xs, keep)| <= |Filter(xs, wider)|
    decreases |xs|
  {
    if |xs| > 0 {
      var init := xs[..|xs| - 1];
      assert forall x :: x in init ==> x in xs;
      FilterMonotone(init, keep, wider);
    }
  }

  /** Two tests that agree on every element filter alike. */
  lemma {:induction false} FilterAgree<T>(xs: seq<T>, keep: T -> bool, other: T -> bool)
    requires forall x :: x in xs ==> keep(x) == other(x)
    ensures Filter(xs, keep) == Filter(xs, other)
    decreases |xs|
  {
    if |xs| > 0 {
      var init := xs[..|xs| - 1];
      assert forall x :: x in init ==> x in xs;
      FilterAgree(init, keep, other);
    }
  }

  /** The positions below `n` whose element passes the test. */
  function Positions<T>(xs: seq<T>, keep: T -> bool, n: int): set<int> {
    set i | 0 <= i < n && i < |xs| && keep(xs[i])
  }

  /** The kept elements, counted by position. */
  lemma {:induction false} FilterCountsPositions<T>(xs: seq<T>, keep: T -> bool)
    ensures |Filter(xs, keep)| == |Positions(xs, keep, |xs|)|
    decreases |xs|
  {
    if |xs| == 0 {
      assert Positions(xs, keep, 0) == {};
    } else {
      var n := |xs| - 1;
      var init := xs[..n];
      FilterCountsPositions(init, keep);
      var before := Positions(init, keep, n);
      assert before == Positions(xs, keep, n) by {
        forall i ensures i in before <==> i in Positions(xs, keep, n) {
          if 0 <= i < n {
            assert init[i] == xs[i];
          }
        }
      }
      if keep(xs[n]) {
        assert Positions(xs, keep, n + 1) == Positions(xs, keep, n) + {n};
      } else {
        assert Positions(xs, keep, n + 1) == Positions(xs, keep, n);
      }
    }
  }

  /**
   * A participant's live score, the length of `votes.filter(...)`: the
   * number of the participant's votes on a revealed song whose first song
   * with that id was submitted by the guessed participant.
   */
  function Score(g: Game, participantId: string): (n: nat)
    ensures n == |set i | 0 <= i < |g.votes| && IsCorrectGuess(g, participantId, g.votes[i])|
  {
    var keep := GuessedRight(g, participantId);
    FilterCountsPositions(g.votes, keep);
    assert Positions(g.votes, keep, |g.votes|)
        == (set i | 0 <= i < |g.votes| && IsCorrectGuess(g, participantId, g.votes[i])) by {
      forall i ensures i in Positions(g.votes, keep, |g.votes|)
                   <==> 0 <= i < |g.votes| && IsCorrectGuess(g, participantId, g.votes[i]) {
      }
    }
    |Filter(g.votes, keep)|
  }

  /** A score never exceeds the number of votes the participant cast. */
  lemma ScoreAtMostVotesCast(g: Game, participantId: string)
    ensures Score(g, participantId) <= |Filter(g.votes, CastBy(participantId))|
  {
    FilterMonotone(g.votes, GuessedRight(g, participantId), CastBy(participantId));
  }

  /** The ranking rows in participant order, before sorting. */
  function Tally(g: Game): (r: seq<ScoreEntry>)
    ensures |r| == |g.participants|
    ensures forall i :: 0 <= i < |r| ==>
      r[i] == ScoreEntry(g.participants[i].id, g.participants[i].name, Score(g, g.participants[i].id))
  {
    seq(|g.participants|, i requires 0 <= i < |g.participants| =>
      ScoreEntry(g.participants[i].id, g.participants[i].name, Score(g, g.participants[i].id)))
  }

  /**
   * `liveScores`: empty without a game; otherwise one row per participant,
   * carrying its id, name and score, ranked by non-increasing score with
   * ties in participant order.
   */
  function LiveScores(game: Option<Game>): (r: seq<ScoreEntry>)
    ensures game.None? ==> r == []
    ensures game.Some? ==> |r| == |game.value.participants|
    ensures game.Some? ==> multiset(r) == multiset(Tally(game.value))
    ensures game.Some? ==> forall p :: p in game.value.participants ==>
      ScoreEntry(p.id, p.name, Score(game.value, p.id)) in r
    ensures game.Some? ==> forall e :: e in r ==>
      exists p :: p in game.value.participants && e == ScoreEntry(p.id, p.name, Score(game.value, p.id))
    ensures SortedByScore(r)
    ensures game.Some? ==> forall k :: WithScore(r, k) == WithScore(Tally(game.value), k)
  {
    match game
    case None => []
    case Some(g) =>
      var t := Tally(g);
      var r := SortByScore(t);
      assert forall e :: e in r <==> e in t by {
        forall e ensures e in r <==> e in t {
          assert e in r <==> e in multiset(r);
          assert e in t <==> e in multiset(t);
        }
      }
      assert forall p :: p in g.participants ==> ScoreEntry(p.id, p.name, Score(g, p.id)) in t by {
        forall p | p in g.participants ensures ScoreEntry(p.id, p.name, Score(g, p.id)) in t {
          var i :| 0 <= i < |g.participants| && g.participants[i] == p;
          assert t[i] == ScoreEntry(p.id, p.name, Score(g, p.id));
        }
      }
      assert forall e :: e in t ==> exists p :: p in g.participants && e == ScoreEntry(p.id, p.name, Score(g, p.id)) by {
        forall e | e in t ensures exists p :: p in g.participants && e == ScoreEntry(p.id, p.name, Score(g, p.id)) {
          var i :| 0 <= i < |t| && t[i] == e;
          assert g.participants[i] in g.participants;
        }
      }
      r
  }

  /** With nothing revealed every live score is zero. */
  lemma NothingRevealedScoresZero(g: Game)
    requires g.revealedSongIds == []
    ensures forall e :: e in LiveScores(Some(g)) ==> e.score == 0
  {
    forall p | p in g.participants ensures Score(g, p.id) == 0 {
      assert (set i | 0 <= i < |g.votes| && IsCorrectGuess(g, p.id, g.votes[i])) == {};
    }
  }

  /** A vote naming no song never counts: adding it changes no score. */
  lemma UnknownSongNeverCounts(g: Game, v: Vote, participantId: string)
    requires FindSong(g.songs, v.songId).None?
    ensures !IsCorrectGuess(g, participantId, v)
    ensures Score(g.(votes := g.votes + [v]), participantId) == Score(g, participantId)
  {
    var g' := g.(votes := g.votes + [v]);
    FilterSnoc(g.votes, v, GuessedRight(g', participantId));
    FilterAgree(g.votes, GuessedRight(g', participantId), GuessedRight(g, participantId));
  }

  /**
   * The worked example: A, B and C each submit one song (s1, s2, s3), all
   * three are revealed, and the votes are A: s2->B, s3->A; B: s1->A, s3->C;
   * C: s1->B, s2->B.
   */
  function ScenarioGame(): Game {
    var songs := [Song("s1", "t1", "r1", "", "a"), Song("s2", "t2", "r2", "", "b"), Song("s3", "t3", "r3", "", "c")];
    var votes := [Vote("a", "s2", "b"), Vote("a", "s3", "a"), Vote("b", "s1", "a"),
                  Vote("b", "s3", "c"), Vote("c", "s1", "b"), Vote("c", "s2", "b")];
    Game("g", "n", Reveal, songs, [Participant("a", "A"), Participant("b", "B"), Participant("c", "C")],
         votes, None, ["s1", "s2", "s3"])
  }

  lemma ScenarioSongs()
    ensures FindSong(ScenarioGame().songs, "s1") == Some(ScenarioGame().songs[0])
    ensures FindSong(ScenarioGame().songs, "s2") == Some(ScenarioGame().songs[1])
    ensures FindSong(ScenarioGame().songs, "s3") == Some(ScenarioGame().songs[2])
  {
    var songs := ScenarioGame().songs;
    assert songs[1..][1..] == [songs[2]];
  }

  /** Filtering one more element adds one exactly when it passes. */
  lemma FilterPrefixStep<T>(xs: seq<T>, keep: T -> bool, k: nat)
    requires k < |xs|
    ensures |Filter(xs[..k + 1], keep)| == |Filter(xs[..k], keep)| + (if keep(xs[k]) then 1 else 0)
  {
    assert xs[..k + 1] == xs[..k] + [xs[k]];
    FilterSnoc(xs[..k], xs[k], keep);
  }

  /** How many of six elements pass the test. */
  lemma FilterOfSix<T>(xs: seq<T>, keep: T -> bool)
    requires |xs| == 6
    ensures |Filter(xs, keep)|
         == (if keep(xs[0]) then 1 else 0) + (if keep(xs[1]) then 1 else 0) + (if keep(xs[2]) then 1 else 0)
          + (if keep(xs[3]) then 1 else 0) + (if keep(xs[4]) then 1 else 0) + (if keep(xs[5]) then 1 else 0)
  {
    assert xs[..0] == [];
    FilterPrefixStep(xs, keep, 0);
    FilterPrefixStep(xs, keep, 1);
    FilterPrefixStep(xs, keep, 2);
    FilterPrefixStep(xs, keep, 3);
    FilterPrefixStep(xs, keep, 4);
    FilterPrefixStep(xs, keep, 5);
    assert xs[..6] == xs;
  }

  lemma ScenarioScores()
    ensures Score(ScenarioGame(), "a") == 1
    ensures Score(ScenarioGame(), "b") == 2
    ensures Score(ScenarioGame(), "c") == 1
  {
    var g := ScenarioGame();
    ScenarioSongs();
    var v := g.votes;
    FilterOfSix(v, GuessedRight(g, "a"));
    FilterOfSix(v, GuessedRight(g, "b"));
    FilterOfSix(v, GuessedRight(g, "c"));
  }

  /**
   * B ranks first with two right guesses; A and C tie on one and keep their
   * participant order. C's guess of B for s2 counts: B did submit s2.
   */
  lemma ThreePlayerScenario()
    ensures LiveScores(Some(ScenarioGame()))
         == [ScoreEntry("b", "B", 2), ScoreEntry("a", "A", 1), ScoreEntry("c", "C", 1)]
  {
    var g := ScenarioGame();
    ScenarioTally();
    var expected := [ScoreEntry("b", "B", 2), ScoreEntry("a", "A", 1), ScoreEntry("c", "C", 1)];
    ScenarioGroups(Tally(g), expected);
    StableOrderIsUnique(LiveScores(Some(g)), expected);
  }

  lemma ScenarioTally()
    ensures Tally(ScenarioGame()) == [ScoreEntry("a", "A", 1), ScoreEntry("b", "B", 2), ScoreEntry("c", "C", 1)]
  {
    ScenarioScores();
    TallyOfThree(ScenarioGame(), 1, 2, 1);
  }

  /** The tally of a game with the scenario's three participants, from their scores. */
  lemma TallyOfThree(g: Game, a: nat, b: nat, c: nat)
    requires g.participants == [Participant("a", "A"), Participant("b", "B"), Participant("c", "C")]
    requires Score(g, "a") == a && Score(g, "b") == b && Score(g, "c") == c
    ensures Tally(g) == [ScoreEntry("a", "A", a), ScoreEntry("b", "B", b), ScoreEntry("c", "C", c)]
  {
    var t := Tally(g);
    assert t[0] == ScoreEntry("a", "A", a);
    assert t[1] == ScoreEntry("b", "B", b);
    assert t[2] == ScoreEntry("c", "C", c);
  }

  lemma ScenarioGroups(t: seq<ScoreEntry>, expected: seq<ScoreEntry>)
    requires t == [ScoreEntry("a", "A", 1), ScoreEntry("b", "B", 2), ScoreEntry("c", "C", 1)]
    requires expected == [ScoreEntry("b", "B", 2), ScoreEntry("a", "A", 1), ScoreEntry("c", "C", 1)]
    ensures SortedByScore(expected)
    ensures forall k :: WithScore(expected, k) == WithScore(t, k)
  {
    forall k ensures WithScore(expected, k) == WithScore(t, k) {
      WithScoreOfThree(t[0], t[1], t[2], k);
      WithScoreOfThree(expected[0], expected[1], expected[2], k);
      assert t == [t[0], t[1], t[2]];
      assert expected == [expected[0], expected[1], expected[2]];
    }
  }

  /** `WithScore` of a three-entry list, entry by entry. */
  lemma WithScoreOfThree(x: ScoreEntry, y: ScoreEntry, z: ScoreEntry, k: int)
    ensures WithScore([x, y, z], k)
         == (if x.score == k then [x] else []) + (if y.score == k then [y] else []) + (if z.score == k then [z] else [])
  {
    var fx := if x.score == k then [x] else [];
    var fy := if y.score == k then [y] else [];
    var fz := if z.score == k then [z] else [];
    assert [z][1..] == [];
    assert WithScore([z], k) == fz + WithScore([], k);
    assert [y, z][1..] == [z];
    assert WithScore([y, z], k) == fy + WithScore([z], k);
    assert [x, y, z][1..] == [y, z];
    assert WithScore([x, y, z], k) == fx + WithScore([y, z], k);
    assert fz + [] == fz;
    assert fx + (fy + fz) == fx + fy + fz;
  }

  // ---------------------------------------------------------------------
  // Reveal progress and moderation
  // ---------------------------------------------------------------------

  /**
   * `allSongsRevealed`, a comparison of lengths. When the revealed ids are
   * distinct ids of songs and song ids are distinct, it holds exactly when
   * every song is revealed.
   */
  predicate AllSongsRevealed(g: Game): (b: bool)
    ensures NoDuplicates(g.revealedSongIds) && DistinctSongIds(g.songs)
            && (forall id :: id in g.revealedSongIds ==> id in SongIds(g.songs)) ==>
              (b <==> forall s :: s in g.songs ==> s.id in g.revealedSongIds)
  {
    RevealedCountMeansEverySong(g);
    |g.revealedSongIds| == |g.songs|
  }

  lemma {:induction false} NoDuplicatesCardinality(xs: seq<string>)
    requires NoDuplicates(xs)
    ensures |set x | x in xs| == |xs|
  {
    if |xs| > 0 {
      var init := xs[..|xs| - 1];
      NoDuplicatesCardinality(init);
      assert (set x | x in xs) == (set x | x in init) + {xs[|xs| - 1]};
    }
  }

  lemma {:induction false} DistinctSongIdsCardinality(songs: seq<Song>)
    requires DistinctSongIds(songs)
    ensures |SongIds(songs)| == |songs|
  {
    if |songs| > 0 {
      var init := songs[..|songs| - 1];
      DistinctSongIdsCardinality(init);
      assert SongIds(songs) == SongIds(init) + {songs[|songs| - 1].id};
    }
  }

  lemma SubsetOfEqualSize(a: set<string>, b: set<string>)
    requires a <= b && |a| == |b|
    ensures a == b
  {
    var d := b - a;
    assert b == a + d;
    assert a * d == {};
    assert |b| == |a| + |d|;
    assert d == {};
  }

  lemma RevealedCountMeansEverySong(g: Game)
    ensures NoDuplicates(g.revealedSongIds) && DistinctSongIds(g.songs)
            && (forall id :: id in g.revealedSongIds ==> id in SongIds(g.songs)) ==>
              (|g.revealedSongIds| == |g.songs| <==> forall s :: s in g.songs ==> s.id in g.revealedSongIds)
  {
    if NoDuplicates(g.revealedSongIds) && DistinctSongIds(g.songs)
       && (forall id :: id in g.revealedSongIds ==> id in SongIds(g.songs)) {
      RevealedCountWhenDistinct(g);
    }
  }

  lemma RevealedCountWhenDistinct(g: Game)
    requires NoDuplicates(g.revealedSongIds)
    requires DistinctSongIds(g.songs)
    requires forall id :: id in g.revealedSongIds ==> id in SongIds(g.songs)
    ensures |g.revealedSongIds| == |g.songs| <==> forall s :: s in g.songs ==> s.id in g.revealedSongIds
  {
    var revealed := set x | x in g.revealedSongIds;
    NoDuplicatesCardinality(g.revealedSongIds);
    DistinctSongIdsCardinality(g.songs);
    if |g.revealedSongIds| == |g.songs| {
      SubsetOfEqualSize(revealed, SongIds(g.songs));
      forall s | s in g.songs ensures s.id in g.revealedSongIds {
        assert s.id in SongIds(g.songs);
      }
    }
    if forall s :: s in g.songs ==> s.id in g.revealedSongIds {
      assert revealed == SongIds(g.songs) by {
        forall id | id in SongIds(g.songs) ensures id in revealed {
          var s :| s in g.songs && s.id == id;
        }
      }
    }
  }

  /**
   * The length comparison is not a content comparison: revealing an id that
   * names no song makes a one-song game "all revealed" with its song hidden.
   */
  lemma AllSongsRevealedCountsOnly()
    ensures
      var s := Song("s1", "t", "r", "", "p");
      var g := Game("g", "n", Reveal, [s], [], [], None, []);
      var r := RevealSongIn(g, "nope");
      AllSongsRevealed(r) && "s1" !in r.revealedSongIds
  {
  }

  /**
   * The moderator check: a non-empty stored id equal to the game's
   * creator. Only a game whose creator id is non-empty has a moderator,
   * and then exactly the device that stores that id.
   */
  predicate IsModerator(game: Option<Game>, storedModeratorId: Option<string>): (b: bool)
    ensures b ==> game.Some? && game.value.creatorId.Some? && game.value.creatorId.value != []
    ensures game.Some? && game.value.creatorId.Some? && game.value.creatorId.value != [] ==>
              (b <==> storedModeratorId == game.value.creatorId)
  {
    && game.Some?
    && storedModeratorId.Some?
    && storedModeratorId.value != []
    && game.value.creatorId == Some(storedModeratorId.value)
  }

  /** No stored id makes anyone moderator of a game without a creator. */
  lemma NoCreatorNoModerator(g: Game, storedModeratorId: Option<string>)
    requires g.creatorId.None?
    ensures !IsModerator(Some(g), storedModeratorId)
  {
  }

  /** Moderation survives every action: each keeps the creator. */
  lemma ModeratorStable(g: Game, a: Action, storedModeratorId: Option<string>)
    ensures IsModerator(Some(Apply(g, a)), storedModeratorId) == IsModerator(Some(g), storedModeratorId)
  {
  }
}
