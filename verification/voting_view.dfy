/**
 * The voting screen: who votes by default, what a vote selection sends,
 * and what each song card shows in place of the player.
 */
module VotingView {
  import opened Wrappers
  import opened Types
  import opened YouTube
  import opened JsString
  import AppContext

  /** What every key of a remembered participant name starts with. */
  const UserKeyPrefix := "porra-musical-user-"

  /** The key under which this device remembers its participant's name for a game. */
  function StorageKey(gameId: string): (key: string)
    ensures |key| == |UserKeyPrefix| + |gameId|
    ensures key[..|UserKeyPrefix|] == UserKeyPrefix
    ensures key[|UserKeyPrefix|..] == gameId
  {
    UserKeyPrefix + gameId
  }

  /** Different games remember their names under different keys. */
  lemma StorageKeyInjective(a: string, b: string)
    requires StorageKey(a) == StorageKey(b)
    ensures a == b
  {
    assert a == StorageKey(a)[|UserKeyPrefix|..];
  }

  /** The device's `localStorage`, as the strings it holds under each key. */
  type Storage = map<string, string>

  /** `localStorage.getItem` of the game's key: the remembered name, if any. */
  function SavedName(storage: Storage, gameId: string): (r: Option<string>)
    ensures r.Some? <==> StorageKey(gameId) in storage
    ensures r.Some? ==> r.value == storage[StorageKey(gameId)]
  {
    if StorageKey(gameId) in storage then Some(storage[StorageKey(gameId)]) else None
  }

  /**
   * The participant form's `localStorage.setItem`: the trimmed name is
   * remembered for this game, and what other games remember is kept.
   */
  function RememberName(storage: Storage, gameId: string, trimmedName: string): (r: Storage)
    ensures SavedName(r, gameId) == Some(trimmedName)
    ensures forall other :: other != gameId ==> SavedName(r, other) == SavedName(storage, other)
  {
    var r := storage[StorageKey(gameId) := trimmedName];
    forall other | other != gameId ensures SavedName(r, other) == SavedName(storage, other) {
      if StorageKey(other) == StorageKey(gameId) {
        StorageKeyInjective(other, gameId);
      }
    }
    r
  }

  /** `participants.find(p => p.name === savedUser)`: the first participant with that exact name. */
  function FindByName(ps: seq<Participant>, saved: Option<string>): (r: Option<Participant>)
    ensures r.Some? <==> saved.Some? && exists i :: 0 <= i < |ps| && ps[i].name == saved.value
    ensures r.Some? ==> exists i :: 0 <= i < |ps| && ps[i] == r.value && r.value.name == saved.value
                          && forall j :: 0 <= j < i ==> ps[j].name != saved.value
  {
    if saved.None? || |ps| == 0 then None
    else if ps[0].name == saved.value then Some(ps[0])
    else
      var r := FindByName(ps[1..], saved);
      assert forall i :: 1 <= i < |ps| ==> ps[i] == ps[1..][i - 1];
      r
  }

  /**
   * The voter selected once the screen has read the name this device
   * remembers for the game: the first participant carrying exactly that
   * name, or else the selection already held. Without a game nothing is
   * read.
   */
  function DefaultVoter(game: Option<Game>, participants: seq<Participant>, storage: Storage,
                        current: string): (voterId: string)
    ensures game.None? ==> voterId == current
    ensures game.Some? && SavedName(storage, game.value.id).Some? &&
            (exists i :: 0 <= i < |participants| && participants[i].name == SavedName(storage, game.value.id).value) ==>
              exists i :: && 0 <= i < |participants|
                          && participants[i].id == voterId
                          && participants[i].name == SavedName(storage, game.value.id).value
                          && forall j :: 0 <= j < i ==> participants[j].name != SavedName(storage, game.value.id).value
    ensures game.Some? &&
            (|| SavedName(storage, game.value.id).None?
             || forall i :: 0 <= i < |participants| ==> participants[i].name != SavedName(storage, game.value.id).value) ==>
              voterId == current
  {
    if game.None? then current
    else
      match FindByName(participants, SavedName(storage, game.value.id))
      case Some(p) => p.id
      case None => current
  }

  /** With distinct names the remembered name picks out exactly its participant. */
  lemma DefaultVoterPicksNamed(g: Game, storage: Storage, i: nat, current: string)
    requires i < |g.participants|
    requires AppContext.DistinctFoldedNames(g.participants)
    requires SavedName(storage, g.id) == Some(g.participants[i].name)
    ensures DefaultVoter(Some(g), g.participants, storage, current) == g.participants[i].id
  {
    var ps := g.participants;
    var p := FindByName(ps, Some(ps[i].name));
    var j :| 0 <= j < |ps| && ps[j] == p.value && p.value.name == ps[i].name
             && forall k :: 0 <= k < j ==> ps[k].name != ps[i].name;
  }

  /**
   * Joining through the participant form and then opening the voting
   * screen on the same device selects the new participant: the form adds
   * the trimmed name and remembers it for the game.
   */
  lemma JoinedParticipantVotes(g: Game, storage: Storage, name: string, freshId: string, current: string)
    requires AppContext.DistinctFoldedNames(g.participants)
    requires AppContext.AddParticipantTo(g, Trim(name), freshId) != g
    ensures var joined := AppContext.AddParticipantTo(g, Trim(name), freshId);
            DefaultVoter(Some(joined), joined.participants, RememberName(storage, g.id, Trim(name)), current)
            == freshId
  {
    var t := Trim(name);
    TrimIdempotent(name);
    var joined := AppContext.AddParticipantTo(g, t, freshId);
    AppContext.AddParticipantKeepsNamesDistinct(g, t, freshId);
    DefaultVoterPicksNamed(joined, RememberName(storage, g.id, t), |g.participants|, current);
  }

  /** `handleVote`: nothing is sent without a selected voter; otherwise the vote for that song. */
  function HandleVote(currentVoterId: string, songId: string, guessedParticipantId: string): (r: Option<Vote>)
    ensures r.None? <==> currentVoterId == []
    ensures r.Some? ==> KeyOf(r.value) == VoteKey(currentVoterId, songId)
    ensures r.Some? ==> r.value.guessedParticipantId == guessedParticipantId
  {
    if currentVoterId == [] then None
    else Some(Vote(currentVoterId, songId, guessedParticipantId))
  }

  /**
   * A vote sent from the screen ends up as the one vote stored under its
   * voter and song, carrying the chosen guess, however many times that
   * voter changed their mind before.
   */
  lemma HandleVoteStores(g: Game, currentVoterId: string, songId: string, guessed: string)
    requires currentVoterId != []
    requires AppContext.UniqueKeys(g.votes)
    ensures var v := HandleVote(currentVoterId, songId, guessed).value;
            var votes := AppContext.Dispatch(Some(g), CastVote(v)).value.votes;
            && AppContext.UniqueKeys(votes)
            && AppContext.FindVote(votes, VoteKey(currentVoterId, songId)) >= 0
            && votes[AppContext.FindVote(votes, VoteKey(currentVoterId, songId))].guessedParticipantId == guessed
  {
    var v := HandleVote(currentVoterId, songId, guessed).value;
    var votes := AppContext.Upsert(g.votes, v);
    assert v in votes;
    var i :| 0 <= i < |votes| && votes[i] == v;
    assert KeyOf(votes[i]) == VoteKey(currentVoterId, songId);
  }

  /** What a song card shows above its title. */
  datatype Media = Player(embedUrl: string) | Thumbnail(imageUrl: string) | Placeholder

  /** The card: the player when there is an embed address, else the thumbnail, else a placeholder. */
  function CardMedia(youtubeUrl: string): (m: Media)
    ensures m.Player? <==> EmbedUrl(VotingPattern, youtubeUrl).Some?
    ensures m.Player? ==> m.embedUrl == EmbedUrl(VotingPattern, youtubeUrl).value
    ensures m.Thumbnail? ==> ThumbnailUrl(youtubeUrl).Some? && m.imageUrl == ThumbnailUrl(youtubeUrl).value
  {
    match EmbedUrl(VotingPattern, youtubeUrl)
    case Some(e) => Player(e)
    case None =>
      match ThumbnailUrl(youtubeUrl)
      case Some(t) => Thumbnail(t)
      case None => Placeholder
  }

  /**
   * The thumbnail branch is never taken: the embed address and the
   * thumbnail both exist exactly when the URL yields a video id.
   */
  lemma ThumbnailNeverShown(youtubeUrl: string)
    ensures !CardMedia(youtubeUrl).Thumbnail?
    ensures CardMedia(youtubeUrl).Placeholder? <==> VideoId(VotingPattern, youtubeUrl).None?
  {
    EmbedIffThumbnail(youtubeUrl);
  }
}
