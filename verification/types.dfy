/**
 * The entities of the game. Every cross reference is by id: a song's
 * `submittedBy`, a vote's `voterId` and `guessedParticipantId` are
 * participant ids, a vote's `songId` is a song id.
 */
module Types {
  import opened Wrappers

  /** The four phases of a game; reset goes back to Submission. */
  datatype GameState = Submission | Voting | Reveal | Results

  datatype Participant = Participant(id: string, name: string)

  datatype Song = Song(id: string, title: string, artist: string, youtubeUrl: string, submittedBy: string)

  /** A song as handed to `addSong`: everything but the id. */
  datatype SongDraft = SongDraft(title: string, artist: string, youtubeUrl: string, submittedBy: string)

  /** A voter's guess of who submitted a song. */
  datatype Vote = Vote(voterId: string, songId: string, guessedParticipantId: string)

  /** The key under which a vote is upserted. */
  datatype VoteKey = VoteKey(voterId: string, songId: string)

  function KeyOf(v: Vote): VoteKey {
    VoteKey(v.voterId, v.songId)
  }

  /**
   * A materialised game. `creatorId` is optional because the game record
   * written at creation carries no creator.
   */
  datatype Game = Game(
    id: string,
    name: string,
    gameState: GameState,
    songs: seq<Song>,
    participants: seq<Participant>,
    votes: seq<Vote>,
    creatorId: Option<string>,
    revealedSongIds: seq<string>)

  /**
   * A game record as it sits in the replicated store: any of the four
   * collections, and the creator, may be missing.
   */
  datatype StoredGame = StoredGame(
    id: string,
    name: string,
    gameState: GameState,
    songs: Option<seq<Song>>,
    participants: Option<seq<Participant>>,
    votes: Option<seq<Vote>>,
    creatorId: Option<string>,
    revealedSongIds: Option<seq<string>>)

  /** The six mutation operations the game context exposes. */
  datatype Action =
    | AddSong(song: SongDraft, freshId: string)
    | AddParticipant(name: string, freshId: string)
    | CastVote(vote: Vote)
    | SetGameState(state: GameState)
    | ResetGame
    | RevealSong(songId: string)

  function ParticipantIds(ps: seq<Participant>): set<string> {
    set p | p in ps :: p.id
  }

  function SongIds(songs: seq<Song>): set<string> {
    set s | s in songs :: s.id
  }
}
