/**
 * The game context: the decode step applied to every store notification,
 * the `updateGame` guard, and the six updaters it runs.
 */
module AppContext {
  import opened Wrappers
  import opened Types
  import opened JsString

  // ---------------------------------------------------------------------
  // Decoding store notifications
  // ---------------------------------------------------------------------

  /** What the provider holds after a store notification. */
  datatype ProviderState = ProviderState(game: Option<Game>, error: string, loading: bool)

  function NotFoundMessage(gameId: string): (msg: string)
    ensures Contains(msg, gameId)
  {
    var prefix := "Juego con ID \"";
    var msg := prefix + gameId + "\" no encontrado.";
    assert msg[|prefix|..|prefix| + |gameId|] == gameId;
    assert OccursAt(msg, gameId, |prefix|);
    msg
  }

  /**
   * The sanitised game: every absent collection becomes the empty list,
   * every present field is kept as it is.
   */
  function Sanitize(data: StoredGame): (g: Game)
    ensures g.id == data.id && g.name == data.name && g.gameState == data.gameState
    ensures g.creatorId == data.creatorId
    ensures data.participants.Some? ==> g.participants == data.participants.value
    ensures data.participants.None? ==> g.participants == []
    ensures data.songs.Some? ==> g.songs == data.songs.value
    ensures data.songs.None? ==> g.songs == []
    ensures data.votes.Some? ==> g.votes == data.votes.value
    ensures data.votes.None? ==> g.votes == []
    ensures data.revealedSongIds.Some? ==> g.revealedSongIds == data.revealedSongIds.value
    ensures data.revealedSongIds.None? ==> g.revealedSongIds == []
  {
    Game(data.id, data.name, data.gameState,
         data.songs.GetOr([]), data.participants.GetOr([]), data.votes.GetOr([]),
         data.creatorId, data.revealedSongIds.GetOr([]))
  }

  /** The subscription callback: a record loads the game, no record is a not-found error. */
  function OnValue(gameId: string, data: Option<StoredGame>): (st: ProviderState)
    ensures !st.loading
    ensures st.game.None? <==> data.None?
    ensures data.None? ==> Contains(st.error, gameId)
    ensures data.Some? ==> st.error == [] && st.game == Some(Sanitize(data.value))
  {
    match data
    case None => ProviderState(None, NotFoundMessage(gameId), false)
    case Some(d) => ProviderState(Some(Sanitize(d)), "", false)
  }

  /** The record published for a game: the whole aggregate, every field present. */
  function Encode(g: Game): StoredGame {
    StoredGame(g.id, g.name, g.gameState, Some(g.songs), Some(g.participants), Some(g.votes),
               g.creatorId, Some(g.revealedSongIds))
  }

  /** A published game, read back from its own key, is the same game. */
  lemma DecodeEncode(g: Game)
    ensures OnValue(g.id, Some(Encode(g))) == ProviderState(Some(g), "", false)
  {
  }

  // ---------------------------------------------------------------------
  // The update guard
  // ---------------------------------------------------------------------

  /**
   * `updateGame`: with no materialised game nothing is published; otherwise
   * exactly `updater(game)` is.
   */
  function UpdateGame(current: Option<Game>, updater: Game -> Game): (published: Option<Game>)
    ensures current.None? ==> published.None?
    ensures current.Some? ==> published == Some(updater(current.value))
  {
    match current
    case None => None
    case Some(g) => Some(updater(g))
  }

  // ---------------------------------------------------------------------
  // The updaters
  // ---------------------------------------------------------------------

  /** Some participant's name equals `name` once both are lower-cased. */
  predicate NameTaken(ps: seq<Participant>, name: string) {
    exists p :: p in ps && ToLower(p.name) == ToLower(name)
  }

  /**
   * `addParticipant`: a blank name, or one whose lower-case form is already
   * taken (compared untrimmed), leaves the game alone; otherwise exactly one
   * participant with the trimmed name is appended and nothing else changes.
   */
  function AddParticipantTo(g: Game, name: string, freshId: string): (r: Game)
    ensures r == g <==> Trim(name) == [] || NameTaken(g.participants, name)
    ensures r != g ==>
      && |r.participants| == |g.participants| + 1
      && r.participants[..|g.participants|] == g.participants
      && r.participants[|g.participants|] == Participant(freshId, Trim(name))
      && r.(participants := g.participants) == g
  {
    if Trim(name) != [] && !NameTaken(g.participants, name) then
      var r := g.(participants := g.participants + [Participant(freshId, Trim(name))]);
      assert |r.participants| != |g.participants|;
      r
    else g
  }

  /** `addSong`: one song with the draft's fields and a fresh id is appended; nothing else changes. */
  function AddSongTo(g: Game, draft: SongDraft, freshId: string): (r: Game)
    ensures |r.songs| == |g.songs| + 1
    ensures r.songs[..|g.songs|] == g.songs
    ensures r.songs[|g.songs|] ==
      Song(freshId, draft.title, draft.artist, draft.youtubeUrl, draft.submittedBy)
    ensures r.(songs := g.songs) == g
  {
    var song := Song(freshId, draft.title, draft.artist, draft.youtubeUrl, draft.submittedBy);
    g.(songs := g.songs + [song])
  }

  /** The first index at or after `from` whose vote has key `key`, or -1. */
  function FindVoteFrom(votes: seq<Vote>, key: VoteKey, from: nat): (i: int)
    requires from <= |votes|
    ensures i == -1 ==> forall j :: from <= j < |votes| ==> KeyOf(votes[j]) != key
    ensures i != -1 ==> from <= i < |votes| && KeyOf(votes[i]) == key
    ensures i != -1 ==> forall j :: from <= j < i ==> KeyOf(votes[j]) != key
    decreases |votes| - from
  {
    if from == |votes| then -1
    else if KeyOf(votes[from]) == key then from
    else FindVoteFrom(votes, key, from + 1)
  }

  /** `votes.findIndex(...)` on the (voterId, songId) key. */
  function FindVote(votes: seq<Vote>, key: VoteKey): (i: int)
    ensures i == -1 <==> forall j :: 0 <= j < |votes| ==> KeyOf(votes[j]) != key
    ensures i != -1 ==> 0 <= i < |votes| && KeyOf(votes[i]) == key
    ensures i != -1 ==> forall j :: 0 <= j < i ==> KeyOf(votes[j]) != key
  {
    FindVoteFrom(votes, key, 0)
  }

  /** At most one vote per (voterId, songId). */
  predicate UniqueKeys(votes: seq<Vote>) {
    forall i, j :: 0 <= i < j < |votes| ==> KeyOf(votes[i]) != KeyOf(votes[j])
  }

  /**
   * The upsert behind `castVote`: the first vote with the same key is
   * replaced, or the vote is appended when there is none. Votes with other
   * keys keep their value and position, and at most one vote per key stays
   * at most one.
   */
  function Upsert(votes: seq<Vote>, vote: Vote): (r: seq<Vote>)
    ensures |r| == |votes| || |r| == |votes| + 1
    ensures |r| == |votes| + 1 <==> forall j :: 0 <= j < |votes| ==> KeyOf(votes[j]) != KeyOf(vote)
    ensures FindVote(votes, KeyOf(vote)) == -1 ==> r == votes + [vote]
    ensures FindVote(votes, KeyOf(vote)) != -1 ==>
              && |r| == |votes|
              && r[FindVote(votes, KeyOf(vote))] == vote
              && forall j :: 0 <= j < |votes| && j != FindVote(votes, KeyOf(vote)) ==> r[j] == votes[j]
    ensures vote in r
    ensures forall j :: 0 <= j < |votes| && KeyOf(votes[j]) != KeyOf(vote) ==> r[j] == votes[j]
    ensures UniqueKeys(votes) ==> UniqueKeys(r)
    ensures UniqueKeys(votes) ==>
      forall j :: 0 <= j < |r| && KeyOf(r[j]) == KeyOf(vote) ==> r[j] == vote
  {
    var i := FindVote(votes, KeyOf(vote));
    if i != -1 then
      assert votes[i := vote][i] == vote;
      votes[i := vote]
    else
      assert (votes + [vote])[|votes|] == vote;
      votes + [vote]
  }

  /** `castVote`: the vote is upserted; nothing else changes. */
  function CastVoteIn(g: Game, vote: Vote): (r: Game)
    ensures r.votes == Upsert(g.votes, vote)
    ensures r.(votes := g.votes) == g
  {
    g.(votes := Upsert(g.votes, vote))
  }

  /** `setGameState`: the phase becomes `state`, unconditionally; nothing else changes. */
  function SetGameStateIn(g: Game, state: GameState): (r: Game)
    ensures r.gameState == state
    ensures r.(gameState := g.gameState) == g
  {
    g.(gameState := state)
  }

  /** No value occurs twice. */
  predicate NoDuplicates(xs: seq<string>) {
    forall i, j :: 0 <= i < j < |xs| ==> xs[i] != xs[j]
  }

  /**
   * `revealSong`: the id is appended when it is not yet revealed, whether or
   * not it names a song; an already revealed id leaves the game alone.
   */
  function RevealSongIn(g: Game, songId: string): (r: Game)
    ensures songId in r.revealedSongIds
    ensures songId in g.revealedSongIds ==> r == g
    ensures songId !in g.revealedSongIds ==> r.revealedSongIds == g.revealedSongIds + [songId]
    ensures r.(revealedSongIds := g.revealedSongIds) == g
    ensures NoDuplicates(g.revealedSongIds) ==> NoDuplicates(r.revealedSongIds)
  {
    if songId !in g.revealedSongIds then
      g.(revealedSongIds := g.revealedSongIds + [songId])
    else g
  }

  /**
   * `resetGame`: back to Submission with every collection emptied; the id,
   * name and creator survive.
   */
  function ResetGameIn(g: Game): (r: Game)
    ensures r.gameState == Submission
    ensures r.songs == [] && r.participants == [] && r.votes == [] && r.revealedSongIds == []
    ensures r.id == g.id && r.name == g.name && r.creatorId == g.creatorId
  {
    g.(gameState := Submission, songs := [], participants := [], votes := [], revealedSongIds := [])
  }

  /** The updater an action passes to `updateGame`. Every action keeps the game's identity. */
  function Apply(g: Game, a: Action): (r: Game)
    ensures r.id == g.id && r.name == g.name && r.creatorId == g.creatorId
  {
    match a
    case AddSong(draft, freshId) => AddSongTo(g, draft, freshId)
    case AddParticipant(name, freshId) => AddParticipantTo(g, name, freshId)
    case CastVote(vote) => CastVoteIn(g, vote)
    case SetGameState(state) => SetGameStateIn(g, state)
    case ResetGame => ResetGameIn(g)
    case RevealSong(songId) => RevealSongIn(g, songId)
  }

  /** An action as the context runs it: through the `updateGame` guard. */
  function Dispatch(current: Option<Game>, a: Action): (published: Option<Game>)
    ensures current.None? ==> published.None?
    ensures current.Some? ==> published.Some? && published.value.id == current.value.id
  {
    UpdateGame(current, g => Apply(g, a))
  }

  // ---------------------------------------------------------------------
  // Properties of the updaters
  // ---------------------------------------------------------------------

  /** Participant names are pairwise distinct once lower-cased. */
  predicate DistinctFoldedNames(ps: seq<Participant>) {
    forall i, j :: 0 <= i < j < |ps| ==> ToLower(ps[i].name) != ToLower(ps[j].name)
  }

  /** For an already trimmed name, `addParticipant` keeps names distinct under lower-casing. */
  lemma AddParticipantKeepsNamesDistinct(g: Game, name: string, freshId: string)
    requires DistinctFoldedNames(g.participants)
    requires Trim(name) == name
    ensures DistinctFoldedNames(AddParticipantTo(g, name, freshId).participants)
  {
    var r := AddParticipantTo(g, name, freshId);
    if r != g {
      var ps := g.participants;
      forall i, j | 0 <= i < j < |r.participants|
        ensures ToLower(r.participants[i].name) != ToLower(r.participants[j].name)
      {
        if j == |ps| {
          assert r.participants[i] == ps[i] && ps[i] in ps;
          assert r.participants[j].name == name;
        } else {
          assert r.participants[i] == ps[i] && r.participants[j] == ps[j];
        }
      }
    }
  }

  /**
   * The lower-case comparison uses the untrimmed argument: with "bob" on the
   * list, " Bob" slips past it and a second "Bob" is added.
   */
  lemma AddParticipantUntrimmedDuplicates()
    ensures var g := Game("g", "n", Submission, [], [Participant("p1", "bob")], [], None, []);
            var r := AddParticipantTo(g, " Bob", "p2");
            && r.participants == [Participant("p1", "bob"), Participant("p2", "Bob")]
            && !DistinctFoldedNames(r.participants)
  {
    var g := Game("g", "n", Submission, [], [Participant("p1", "bob")], [], None, []);
    TrimLeadingBlank();
    assert !NameTaken(g.participants, " Bob") by {
      forall p | p in g.participants ensures ToLower(p.name) != ToLower(" Bob") {
        assert |ToLower(p.name)| == 3;
      }
    }
    var r := AddParticipantTo(g, " Bob", "p2");
    assert r.participants == g.participants + [Participant("p2", "Bob")];
    assert ToLower(r.participants[0].name) == ToLower(r.participants[1].name);
  }

  lemma TrimLeadingBlank()
    ensures Trim(" Bob") == "Bob"
  {
    assert LeadingSpace("Bob") == 0;
    assert LeadingSpace(" Bob") == 1;
    assert TrailingSpace(" Bob") == 0;
    assert " Bob"[1..4] == "Bob";
  }

  /**
   * Two names equal up to case, the first already trimmed: the second
   * `addParticipant` is a no-op, so exactly one participant was added.
   */
  lemma AddParticipantCaseCollision(g: Game, n1: string, n2: string, id1: string, id2: string)
    requires Trim(n1) == n1
    requires ToLower(n1) == ToLower(n2)
    ensures var once := AddParticipantTo(g, n1, id1);
            AddParticipantTo(once, n2, id2) == once
  {
    var once := AddParticipantTo(g, n1, id1);
    if once != g {
      var p := once.participants[|g.participants|];
      assert p in once.participants && p.name == n1;
      assert NameTaken(once.participants, n2);
    } else if Trim(n1) == [] {
      assert |n2| == |ToLower(n1)| == 0;
    } else {
      var p :| p in g.participants && ToLower(p.name) == ToLower(n1);
      assert NameTaken(g.participants, n2);
    }
  }

  /** Casting two votes with the same key leaves exactly the second in place of the first. */
  lemma CastVoteOverwrites(g: Game, v1: Vote, v2: Vote)
    requires KeyOf(v1) == KeyOf(v2)
    ensures CastVoteIn(CastVoteIn(g, v1), v2) == CastVoteIn(g, v2)
  {
    var i := FindVote(g.votes, KeyOf(v1));
    var once := Upsert(g.votes, v1);
    if i != -1 {
      assert KeyOf(once[i]) == KeyOf(v2);
      assert forall j :: 0 <= j < i ==> once[j] == g.votes[j];
      assert FindVote(once, KeyOf(v2)) == i;
      assert once[i := v2] == g.votes[i := v2];
    } else {
      assert KeyOf(once[|g.votes|]) == KeyOf(v2);
      assert forall j :: 0 <= j < |g.votes| ==> once[j] == g.votes[j];
      assert FindVote(once, KeyOf(v2)) == |g.votes|;
      assert once[|g.votes| := v2] == g.votes + [v2];
    }
  }

  /** Revealing the same song twice is revealing it once. */
  lemma RevealSongIdempotent(g: Game, songId: string)
    ensures RevealSongIn(RevealSongIn(g, songId), songId) == RevealSongIn(g, songId)
  {
  }

  /** Resetting a reset game changes nothing. */
  lemma ResetGameIdempotent(g: Game)
    ensures ResetGameIn(ResetGameIn(g)) == ResetGameIn(g)
  {
  }

  // ---------------------------------------------------------------------
  // The game invariant
  // ---------------------------------------------------------------------

  predicate DistinctParticipantIds(ps: seq<Participant>) {
    forall i, j :: 0 <= i < j < |ps| ==> ps[i].id != ps[j].id
  }

  predicate DistinctSongIds(songs: seq<Song>) {
    forall i, j :: 0 <= i < j < |songs| ==> songs[i].id != songs[j].id
  }

  /**
   * What every reachable game satisfies: one vote per key, no id revealed
   * twice, participant names distinct under lower-casing, participant and
   * song ids distinct.
   */
  predicate Valid(g: Game) {
    && UniqueKeys(g.votes)
    && NoDuplicates(g.revealedSongIds)
    && DistinctFoldedNames(g.participants)
    && DistinctParticipantIds(g.participants)
    && DistinctSongIds(g.songs)
  }

  /**
   * What the callers guarantee: the participant form trims the name, and
   * `crypto.randomUUID` yields an id not used before.
   */
  predicate WellFormedAction(g: Game, a: Action) {
    match a
    case AddParticipant(name, freshId) =>
      Trim(name) == name && freshId !in ParticipantIds(g.participants)
    case AddSong(_, freshId) => freshId !in SongIds(g.songs)
    case _ => true
  }

  /** Every well-formed action keeps the game valid. */
  lemma ApplyPreservesValid(g: Game, a: Action)
    requires Valid(g)
    requires WellFormedAction(g, a)
    ensures Valid(Apply(g, a))
  {
    match a
    case AddParticipant(name, freshId) =>
      AddParticipantKeepsNamesDistinct(g, name, freshId);
      var r := AddParticipantTo(g, name, freshId);
      if r != g {
        var ps := g.participants;
        forall i, j | 0 <= i < j < |r.participants|
          ensures r.participants[i].id != r.participants[j].id
        {
          assert r.participants[i] == ps[i] && ps[i] in ps;
          if j < |ps| {
            assert r.participants[j] == ps[j];
          }
        }
      }
    case AddSong(draft, freshId) =>
      var r := AddSongTo(g, draft, freshId);
      forall i, j | 0 <= i < j < |r.songs| ensures r.songs[i].id != r.songs[j].id {
        assert r.songs[i] == g.songs[i] && g.songs[i] in g.songs;
        if j < |g.songs| {
          assert r.songs[j] == g.songs[j];
        }
      }
    case _ =>
  }

  /** The game reached by running the actions in order. */
  function Run(g: Game, actions: seq<Action>): Game
    decreases |actions|
  {
    if actions == [] then g else Run(Apply(g, actions[0]), actions[1..])
  }

  /** Every action of the run is well formed for the game it is applied to. */
  predicate WellFormedRun(g: Game, actions: seq<Action>)
    decreases |actions|
  {
    actions == [] || (WellFormedAction(g, actions[0]) && WellFormedRun(Apply(g, actions[0]), actions[1..]))
  }

  /** No run of well-formed actions leaves a valid game invalid: in particular no duplicate vote key. */
  lemma {:induction false} RunPreservesValid(g: Game, actions: seq<Action>)
    requires Valid(g)
    requires WellFormedRun(g, actions)
    ensures Valid(Run(g, actions))
    decreases |actions|
  {
    if actions != [] {
      ApplyPreservesValid(g, actions[0]);
      RunPreservesValid(Apply(g, actions[0]), actions[1..]);
    }
  }
}
