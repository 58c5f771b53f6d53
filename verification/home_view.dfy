/**
 * The home screen: creating a game (a fresh record written to the store,
 * then a jump to its hash) and joining one (from a bare id or a pasted
 * link). The fresh id of `crypto.randomUUID()` is a parameter.
 */
module HomeView {
  import opened Wrappers
  import opened Types
  import opened JsString

  /** The path the home screen puts in the location hash for a game. */
  const GamePath := "/game/"

  /** What a pasted invitation link holds before the game id. */
  const LinkMarker := "#/game/"

  /**
   * `createNewGame`: the record written for a new game. It carries no
   * creator and no list of revealed songs.
   */
  function CreateNewGame(freshId: string, name: string): (g: StoredGame)
    ensures g.id == freshId && g.name == name && g.gameState == Submission
    ensures g.participants == Some([]) && g.songs == Some([]) && g.votes == Some([])
    ensures g.creatorId.None? && g.revealedSongIds.None?
  {
    StoredGame(freshId, name, Submission, Some([]), Some([]), Some([]), None, None)
  }

  /** A created game: the record to write and the hash to jump to. */
  datatype Created = Created(record: StoredGame, hash: string)

  /**
   * `handleCreateGame`: nothing happens for a blank name; otherwise a game
   * named with the trimmed name is written under the fresh id and the
   * hash points at it.
   */
  function HandleCreateGame(gameName: string, freshId: string): (r: Option<Created>)
    ensures r.None? <==> AllTrimmable(gameName)
    ensures r.Some? ==> r.value.record.id == freshId && r.value.record.name == Trim(gameName)
    ensures r.Some? ==> r.value.record.name != [] && !IsTrimmable(r.value.record.name[0])
    ensures r.Some? ==> r.value.record == CreateNewGame(freshId, r.value.record.name)
    ensures r.Some? ==> r.value.hash == GamePath + r.value.record.id
  {
    var trimmedName := Trim(gameName);
    if trimmedName == [] then None
    else
      var newGame := CreateNewGame(freshId, trimmedName);
      Some(Created(newGame, GamePath + newGame.id))
  }

  /**
   * `handleJoinGame`: nothing happens for blank input; otherwise the game
   * id is the text after the first link marker of the trimmed input, up to
   * the next marker or the end, and the whole trimmed input when it holds
   * no marker.
   */
  function HandleJoinGame(input: string): (r: Option<string>)
    ensures r.None? <==> AllTrimmable(input)
    ensures r.Some? && !Contains(Trim(input), LinkMarker) ==> r.value == GamePath + Trim(input)
    ensures r.Some? && Contains(Trim(input), LinkMarker) ==>
              r.value == GamePath + Split(Trim(input), LinkMarker)[1]
    ensures r.Some? && Contains(Trim(input), LinkMarker) ==>
              var rest := Trim(input)[IndexOf(Trim(input), LinkMarker) + |LinkMarker|..];
              r.value == GamePath + if Contains(rest, LinkMarker) then rest[..IndexOf(rest, LinkMarker)] else rest
    ensures r.Some? ==> !Contains(r.value[|GamePath|..], LinkMarker)
  {
    var gameId := Trim(input);
    if gameId == [] then None
    else
      var urlParts := Split(gameId, LinkMarker);
      SplitSecondPart(gameId, LinkMarker);
      var id := if |urlParts| > 1 then urlParts[1] else gameId;
      assert (GamePath + id)[|GamePath|..] == id;
      Some(GamePath + id)
  }

  /** A bare id, typed without padding and holding no link marker, is taken as it is. */
  lemma JoinWithBareId(id: string)
    requires id != [] && !IsTrimmable(id[0]) && !IsTrimmable(id[|id| - 1])
    requires !Contains(id, LinkMarker)
    ensures HandleJoinGame(id) == Some(GamePath + id)
  {
    TrimOfUnpadded(id);
  }

  /** No `#` in `s` means no link marker in `s`. */
  lemma NoHashNoMarker(s: string)
    requires forall i :: 0 <= i < |s| ==> s[i] != '#'
    ensures !Contains(s, LinkMarker)
  {
    forall i | 0 <= i <= |s| - |LinkMarker| ensures !OccursAt(s, LinkMarker, i) {
      assert LinkMarker[0] == '#';
    }
  }

  /** In `prefix + "#/game/" + id` without other `#`, the only marker is the one after `prefix`. */
  lemma SplitInvitation(prefix: string, id: string)
    requires forall i :: 0 <= i < |prefix| ==> prefix[i] != '#'
    requires forall i :: 0 <= i < |id| ==> id[i] != '#'
    ensures Split(prefix + LinkMarker + id, LinkMarker) == [prefix, id]
  {
    var s := prefix + LinkMarker + id;
    var k := |prefix|;
    assert s[k..k + |LinkMarker|] == LinkMarker;
    assert OccursAt(s, LinkMarker, k);
    var i := IndexOf(s, LinkMarker);
    assert i != -1;
    assert i <= k;
    assert s[i..i + |LinkMarker|][0] == s[i];
    assert i == k;
    assert s[..i] == prefix;
    assert s[i + |LinkMarker|..] == id;
    NoHashNoMarker(id);
    assert Split(id, LinkMarker) == [id];
  }

  /**
   * Pasting an invitation link (an address, the marker, the id, no other
   * `#`, no padding) joins the game whose id follows the marker.
   */
  lemma JoinWithLink(prefix: string, id: string)
    requires prefix != [] && !IsTrimmable(prefix[0])
    requires id != [] && !IsTrimmable(id[|id| - 1])
    requires forall i :: 0 <= i < |prefix| ==> prefix[i] != '#'
    requires forall i :: 0 <= i < |id| ==> id[i] != '#'
    ensures HandleJoinGame(prefix + LinkMarker + id) == Some(GamePath + id)
  {
    var s := prefix + LinkMarker + id;
    assert s[0] == prefix[0] && s[|s| - 1] == id[|id| - 1];
    TrimOfUnpadded(s);
    SplitInvitation(prefix, id);
    NoHashNoMarker(prefix);
    assert OccursAt(s, LinkMarker, |prefix|) by {
      assert s[|prefix|..|prefix| + |LinkMarker|] == LinkMarker;
    }
  }
}
