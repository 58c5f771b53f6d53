/**
 * Worked examples of the YouTube id extraction: a short link and a watch
 * link around any plain 11-character id, showing where the two screens'
 * patterns agree and where they differ.
 */
module YouTubeExamples {
  import opened Wrappers
  import opened JsString
  import opened YouTube

  /** A character of an id as YouTube issues them: no separator, line terminator or astral character. */
  predicate PlainChar(c: char) {
    IsIdChar(c) && c != '/' && !IsLineTerminator(c) && c as int <= 0xFFFF
  }

  predicate PlainId(id: string) {
    |id| == 11 && forall i :: 0 <= i < |id| ==> PlainChar(id[i])
  }

  const ShortPrefix := "youtu.be/"
  const WatchPrefix := "watch?v="

  /** A link made of a terminator-free prefix and a plain id: the id runs to the end. */
  lemma PlainLink(prefix: string, id: string)
    requires PlainId(id)
    requires forall i :: 0 <= i < |prefix| ==> !IsLineTerminator(prefix[i])
    ensures LineEnd(prefix + id) == |prefix + id|
    ensures RunEnd(prefix + id, |prefix|) == |prefix + id|
    ensures (prefix + id)[|prefix|..] == id
    ensures Utf16Length(id) == 11
  {
    var s := prefix + id;
    forall i | 0 <= i < |s| ensures !IsLineTerminator(s[i]) {
      if i >= |prefix| {
        assert s[i] == id[i - |prefix|];
      }
    }
    forall i | |prefix| <= i < |s| ensures IsIdChar(s[i]) {
      assert s[i] == id[i - |prefix|];
    }
    assert s[|prefix|..] == id;
    Utf16LengthBmp(id);
  }

  /** In a short link the only separator is the `/` at position 8. */
  lemma ShortLinkSeparators(id: string, j: nat)
    requires PlainId(id) && j < |ShortPrefix + id|
    ensures (ShortPrefix + id)[j] == '/' ==> j == 8
    ensures (ShortPrefix + id)[j] != '?' && (ShortPrefix + id)[j] != '&'
  {
    var s := ShortPrefix + id;
    if j >= 9 {
      assert s[j] == id[j - 9];
    } else {
      assert s[j] == ShortPrefix[j];
      assert j == 0 || j == 1 || j == 2 || j == 3 || j == 4 || j == 5 || j == 6 || j == 7 || j == 8;
    }
  }

  /** In a watch link the only separator is the `?` at position 5. */
  lemma WatchLinkSeparators(id: string, j: nat)
    requires PlainId(id) && j < |WatchPrefix + id|
    ensures (WatchPrefix + id)[j] == '?' ==> j == 5
    ensures (WatchPrefix + id)[j] != '/' && (WatchPrefix + id)[j] != '&'
  {
    var s := WatchPrefix + id;
    if j >= 8 {
      assert s[j] == id[j - 8];
    } else {
      assert s[j] == WatchPrefix[j];
      assert j == 0 || j == 1 || j == 2 || j == 3 || j == 4 || j == 5 || j == 6 || j == 7;
    }
  }

  /** A short link holds no voting-screen marker, and no reveal-screen marker after its start. */
  lemma ShortLinkMarkers(v: Variant, id: string, q: nat)
    requires PlainId(id)
    requires q > 0 || v == VotingPattern
    ensures MarkerEnd(v, ShortPrefix + id, q).None?
  {
    var s := ShortPrefix + id;
    forall j | 0 <= j < |s|
      ensures (s[j] == '/' ==> j == 8) && s[j] != '?' && s[j] != '&'
    {
      ShortLinkSeparators(id, j);
    }
    if MarkerEnd(v, s, q).Some? {
      MarkerHasSeparator(v, s, q);
      assert false;
    }
  }

  /** A watch link holds a marker at its start only. */
  lemma WatchLinkMarkers(v: Variant, id: string, q: nat)
    requires PlainId(id) && q > 0
    ensures MarkerEnd(v, WatchPrefix + id, q).None?
  {
    var s := WatchPrefix + id;
    forall j | 0 <= j < |s|
      ensures (s[j] == '?' ==> j == 5) && s[j] != '/' && s[j] != '&'
    {
      WatchLinkSeparators(id, j);
    }
    if MarkerEnd(v, s, q).Some? {
      MarkerHasSeparator(v, s, q);
      assert false;
    }
  }

  /** When the only marker of `s` is at its start, the capture is what follows that marker. */
  lemma OnlyMarkerAtStart(v: Variant, s: string, e: nat)
    requires LineEnd(s) == |s|
    requires MarkerEnd(v, s, 0) == Some(e)
    requires forall q :: 0 < q <= |s| ==> MarkerEnd(v, s, q).None?
    ensures Capture(v, s) == Some(s[e..RunEnd(s, e)])
  {
    var r := LastMarker(v, s, |s|);
    assert r == Some(0);
  }

  /**
   * A short link is recognised on the reveal screen only: the voting
   * screen's pattern has `youtube.com/` where the reveal screen's has
   * `youtu.be/`, and no other marker occurs in it.
   */
  lemma ShortLinkOnlyOnRevealScreen(id: string)
    requires PlainId(id)
    ensures VideoId(RevealPattern, ShortPrefix + id) == Some(id)
    ensures VideoId(VotingPattern, ShortPrefix + id) == None
  {
    var s := ShortPrefix + id;
    forall i | 0 <= i < |ShortPrefix| ensures !IsLineTerminator(ShortPrefix[i]) {
      assert i == 0 || i == 1 || i == 2 || i == 3 || i == 4 || i == 5 || i == 6 || i == 7 || i == 8;
    }
    PlainLink(ShortPrefix, id);
    forall q | 0 < q <= |s| ensures MarkerEnd(RevealPattern, s, q).None? {
      ShortLinkMarkers(RevealPattern, id, q);
    }
    assert MarkerEnd(RevealPattern, s, 0) == Some(9) by {
      HostAlternative(RevealPattern, s, 0);
      assert s[..9] == ShortPrefix;
      assert LiteralAt(s, 0, "youtu") && LiteralAt(s, 6, "be/");
    }
    OnlyMarkerAtStart(RevealPattern, s, 9);
    assert s[9..RunEnd(s, 9)] == id;
    forall q | 0 <= q <= |s| ensures MarkerEnd(VotingPattern, s, q).None? {
      ShortLinkMarkers(VotingPattern, id, q);
    }
  }

  /** A watch link is recognised on both screens. */
  lemma WatchLinkOnBothScreens(v: Variant, id: string)
    requires PlainId(id)
    ensures VideoId(v, WatchPrefix + id) == Some(id)
  {
    var s := WatchPrefix + id;
    forall i | 0 <= i < |WatchPrefix| ensures !IsLineTerminator(WatchPrefix[i]) {
      assert i == 0 || i == 1 || i == 2 || i == 3 || i == 4 || i == 5 || i == 6 || i == 7;
    }
    PlainLink(WatchPrefix, id);
    forall q | 0 < q <= |s| ensures MarkerEnd(v, s, q).None? {
      WatchLinkMarkers(v, id, q);
    }
    assert MarkerEnd(v, s, 0) == Some(8) by {
      LiteralAlternative(v, s, 0, 4, "watch?v=");
      assert s[..8] == WatchPrefix;
      assert LiteralAt(s, 0, "watch?v=");
    }
    OnlyMarkerAtStart(v, s, 8);
    assert s[8..RunEnd(s, 8)] == id;
  }
}
