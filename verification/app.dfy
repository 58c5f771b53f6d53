/**
 * The hash router: `#/game/<id>` shows that game's screen, anything else
 * the home screen. Together with the home screen it closes the loop from
 * creating or joining a game to seeing it.
 */
module App {
  import opened Wrappers
  import opened JsString
  import opened Types
  import HomeView
  import AppContext
  import RevealView

  /** The two screens the router chooses between. */
  datatype Screen = Home | GameScreen(gameId: string)

  /** `hash.replace(/^#/, '')`: drops one leading `#`, if there is one. */
  function StripHash(hash: string): (route: string)
    ensures |hash| > 0 && hash[0] == '#' ==> "#" + route == hash
    ensures (|hash| == 0 || hash[0] != '#') ==> route == hash
  {
    if |hash| > 0 && hash[0] == '#' then hash[1..] else hash
  }

  /**
   * `route.match(/^\/game\/(.+)/)[1]`: after a leading `/game/`, the
   * longest run of characters up to the first line terminator, which must
   * not be empty.
   */
  function GameIdOf(route: string): (r: Option<string>)
    ensures r.Some? <==> |route| > 6 && route[..6] == "/game/" && !IsLineTerminator(route[6])
    ensures r.Some? ==> r.value != [] && 6 + |r.value| <= |route| && route[..6 + |r.value|] == "/game/" + r.value
    ensures r.Some? ==> forall i :: 0 <= i < |r.value| ==> !IsLineTerminator(r.value[i])
    ensures r.Some? && 6 + |r.value| < |route| ==> IsLineTerminator(route[6 + |r.value|])
  {
    if |route| > 6 && route[..6] == "/game/" then
      var rest := route[6..];
      var n := LineEnd(rest);
      if n == 0 then None
      else
        assert route[..6 + n] == "/game/" + rest[..n];
        Some(rest[..n])
    else None
  }

  /** The screen shown for a location hash. */
  function Route(hash: string): (s: Screen)
    ensures s.GameScreen? <==> GameIdOf(StripHash(hash)).Some?
    ensures s.GameScreen? ==> s.gameId == GameIdOf(StripHash(hash)).value
  {
    match GameIdOf(StripHash(hash))
    case Some(gameId) => GameScreen(gameId)
    case None => Home
  }

  /** A game path with a non-empty id free of line terminators routes to that id. */
  lemma GameHashRoutes(id: string)
    requires id != []
    requires forall i :: 0 <= i < |id| ==> !IsLineTerminator(id[i])
    ensures Route("#" + HomeView.GamePath + id) == GameScreen(id)
    ensures Route(HomeView.GamePath + id) == GameScreen(id)
  {
    var route := HomeView.GamePath + id;
    assert route[..6] == "/game/";
    assert route[6..] == id;
    assert route[6] == id[0];
    assert StripHash("#" + route) == route by {
      assert ("#" + route)[1..] == route;
    }
    assert |HomeView.GamePath| == 6;
    assert StripHash(route) == route;
  }

  /** A hash that is not a game path shows the home screen. */
  lemma OtherHashesGoHome(hash: string)
    requires !(|StripHash(hash)| > 6 && StripHash(hash)[..6] == "/game/")
    ensures Route(hash) == Home
  {
  }

  /**
   * Creating a game with a usable name ends on that game's screen, for
   * any non-empty fresh id free of line terminators, as a UUID is.
   */
  lemma CreateThenRoute(gameName: string, freshId: string)
    requires !AllTrimmable(gameName)
    requires freshId != []
    requires forall i :: 0 <= i < |freshId| ==> !IsLineTerminator(freshId[i])
    ensures HomeView.HandleCreateGame(gameName, freshId).Some?
    ensures Route("#" + HomeView.HandleCreateGame(gameName, freshId).value.hash) == GameScreen(freshId)
  {
    GameHashRoutes(freshId);
  }

  /** Pasting an invitation link ends on the screen of the game it names. */
  lemma JoinThenRoute(prefix: string, id: string)
    requires prefix != [] && !IsTrimmable(prefix[0])
    requires id != [] && !IsTrimmable(id[|id| - 1])
    requires forall i :: 0 <= i < |prefix| ==> prefix[i] != '#'
    requires forall i :: 0 <= i < |id| ==> id[i] != '#' && !IsLineTerminator(id[i])
    ensures Route("#" + HomeView.HandleJoinGame(prefix + HomeView.LinkMarker + id).value) == GameScreen(id)
  {
    HomeView.JoinWithLink(prefix, id);
    GameHashRoutes(id);
  }

  /** A link whose marker is followed by nothing leads back to the home screen. */
  lemma JoinWithEmptyIdGoesHome(prefix: string)
    requires prefix != [] && !IsTrimmable(prefix[0])
    requires forall i :: 0 <= i < |prefix| ==> prefix[i] != '#'
    ensures HomeView.HandleJoinGame(prefix + HomeView.LinkMarker) == Some(HomeView.GamePath)
    ensures Route("#" + HomeView.GamePath) == Home
  {
    var s := prefix + HomeView.LinkMarker;
    assert s == prefix + HomeView.LinkMarker + [];
    HomeView.SplitInvitation(prefix, []);
    assert s[|s| - 1] == '/';
    TrimOfUnpadded(s);
    assert OccursAt(s, HomeView.LinkMarker, |prefix|) by {
      assert s[|prefix|..|prefix| + |HomeView.LinkMarker|] == HomeView.LinkMarker;
    }
    assert HomeView.GamePath + [] == HomeView.GamePath;
  }

  /**
   * A freshly created game, once read back from the store, is an empty
   * game in the submission phase that satisfies the game invariant and
   * has no moderator; the same holds when the store drops the empty lists.
   */
  lemma CreatedGameLoads(freshId: string, name: string, storedModeratorId: Option<string>)
    ensures var st := AppContext.OnValue(freshId, Some(HomeView.CreateNewGame(freshId, name)));
            && st.game == Some(Game(freshId, name, Submission, [], [], [], None, []))
            && AppContext.Valid(st.game.value)
            && !RevealView.IsModerator(st.game, storedModeratorId)
            && RevealView.LiveScores(st.game) == []
    ensures var bare := StoredGame(freshId, name, Submission, None, None, None, None, None);
            AppContext.OnValue(freshId, Some(bare)) == AppContext.OnValue(freshId, Some(HomeView.CreateNewGame(freshId, name)))
  {
    var g := Game(freshId, name, Submission, [], [], [], None, []);
    RevealView.NoCreatorNoModerator(g, storedModeratorId);
  }
}
