/**
 * YouTube video-id extraction, shared by the reveal and voting screens.
 * Both match the URL against `^.*(marker)([^#&?]*).*` and accept the second
 * group only when it is 11 UTF-16 units long; they differ in the first
 * marker (`youtu.be/` on the reveal screen, `youtube.com/` on the voting
 * screen, each with its `.` matching any one character).
 *
 * The greedy `^.*` makes the match start the marker at the rightmost
 * position where one begins, as long as no line terminator precedes it
 * (`.` does not match one); the group is then the maximal run of characters
 * other than `#`, `&` and `?` after the marker, line terminators included.
 */
module YouTube {
  import opened Wrappers
  import opened JsString

  /** Which of the two regular expressions. */
  datatype Variant = RevealPattern | VotingPattern

  /** The literal `lit` occurs in `s` at position `p`. */
  predicate LiteralAt(s: string, p: int, lit: string) {
    0 <= p && p + |lit| <= |s| && forall i :: 0 <= i < |lit| ==> s[p + i] == lit[i]
  }

  /** The characters a marker can begin with. */
  predicate IsMarkerStart(c: char) {
    c == 'y' || c == 'v' || c == 'u' || c == 'e' || c == 'w' || c == '&'
  }

  /** Regex `.` without the `u` flag: one UTF-16 unit that is not a line terminator. */
  predicate IsAnyChar(c: char) {
    !IsLineTerminator(c) && c as int <= 0xFFFF
  }

  /** Regex `\w`. */
  predicate IsWordChar(c: char) {
    ('a' <= c <= 'z') || ('A' <= c <= 'Z') || ('0' <= c <= '9') || c == '_'
  }

  /** Regex `[^#&?]`. */
  predicate IsIdChar(c: char) {
    c != '#' && c != '&' && c != '?'
  }

  /** One position of a marker alternative: a literal character, `.` or `\w`. */
  datatype Token = Lit(c: char) | AnyChar | WordChar

  predicate TokenMatches(t: Token, c: char) {
    match t
    case Lit(d) => c == d
    case AnyChar => IsAnyChar(c)
    case WordChar => IsWordChar(c)
  }

  /** The literal `lit`, token by token. */
  function Lits(lit: string): (r: seq<Token>)
    ensures |r| == |lit|
    ensures forall i :: 0 <= i < |lit| ==> r[i] == Lit(lit[i])
  {
    seq(|lit|, i requires 0 <= i < |lit| => Lit(lit[i]))
  }

  /** The alternative `a` matches `s` at position `p`. */
  predicate Matches(s: string, p: int, a: seq<Token>) {
    0 <= p && p + |a| <= |s| && forall i :: 0 <= i < |a| ==> TokenMatches(a[i], s[p + i])
  }

  /**
   * The alternatives of the marker group, in the order the pattern lists
   * them: `youtu.be/` (reveal screen) or `youtube.com/` (voting screen),
   * then `v/`, `u/\w/`, `embed/`, `watch\?v=` and `&v=`.
   */
  function Alternatives(v: Variant): (alts: seq<seq<Token>>)
    ensures |alts| == 6
  {
    [ if v == RevealPattern then Lits("youtu") + [AnyChar] + Lits("be/")
      else Lits("youtube") + [AnyChar] + Lits("com/"),
      Lits("v/"),
      Lits("u/") + [WordChar] + Lits("/"),
      Lits("embed/"),
      Lits("watch?v="),
      Lits("&v=") ]
  }

  lemma MatchesLits(s: string, p: int, lit: string)
    ensures Matches(s, p, Lits(lit)) <==> LiteralAt(s, p, lit)
  {
  }

  lemma MatchesConcat(s: string, p: int, a: seq<Token>, b: seq<Token>)
    ensures Matches(s, p, a + b) <==> Matches(s, p, a) && Matches(s, p + |a|, b)
  {
    if Matches(s, p, a) && Matches(s, p + |a|, b) {
      forall i | 0 <= i < |a + b| ensures TokenMatches((a + b)[i], s[p + i]) {
        if i >= |a| {
          assert TokenMatches(b[i - |a|], s[p + |a| + (i - |a|)]);
        }
      }
    }
    if Matches(s, p, a + b) {
      forall i | 0 <= i < |a| ensures TokenMatches(a[i], s[p + i]) {
        assert (a + b)[i] == a[i];
      }
      forall i | 0 <= i < |b| ensures TokenMatches(b[i], s[p + |a| + i]) {
        assert (a + b)[|a| + i] == b[i];
      }
    }
  }

  lemma MatchesOne(s: string, p: int, t: Token)
    ensures Matches(s, p, [t]) <==> 0 <= p < |s| && TokenMatches(t, s[p])
  {
    assert [t][0] == t;
  }

  // Each alternative of the pattern, spelled out as a condition on `s`.

  lemma HostAlternative(v: Variant, s: string, p: nat)
    ensures |Alternatives(v)[0]| == if v == RevealPattern then 9 else 12
    ensures Matches(s, p, Alternatives(v)[0]) <==>
              if v == RevealPattern then
                LiteralAt(s, p, "youtu") && p + 5 < |s| && IsAnyChar(s[p + 5]) && LiteralAt(s, p + 6, "be/")
              else
                LiteralAt(s, p, "youtube") && p + 7 < |s| && IsAnyChar(s[p + 7]) && LiteralAt(s, p + 8, "com/")
    ensures Matches(s, p, Alternatives(v)[0]) ==> p < |s| && s[p] == 'y'
  {
    var head := if v == RevealPattern then "youtu" else "youtube";
    var tail := if v == RevealPattern then "be/" else "com/";
    MatchesConcat(s, p, Lits(head) + [AnyChar], Lits(tail));
    MatchesConcat(s, p, Lits(head), [AnyChar]);
    MatchesLits(s, p, head);
    MatchesOne(s, p + |head|, AnyChar);
    MatchesLits(s, p + |head| + 1, tail);
    if Matches(s, p, Alternatives(v)[0]) {
      assert s[p + 0] == head[0];
    }
  }

  lemma UserAlternative(v: Variant, s: string, p: nat)
    ensures |Alternatives(v)[2]| == 4
    ensures Matches(s, p, Alternatives(v)[2]) <==>
              LiteralAt(s, p, "u/") && p + 2 < |s| && IsWordChar(s[p + 2]) && LiteralAt(s, p + 3, "/")
    ensures Matches(s, p, Alternatives(v)[2]) ==> p < |s| && s[p] == 'u'
  {
    MatchesConcat(s, p, Lits("u/") + [WordChar], Lits("/"));
    MatchesConcat(s, p, Lits("u/"), [WordChar]);
    MatchesLits(s, p, "u/");
    MatchesOne(s, p + 2, WordChar);
    MatchesLits(s, p + 3, "/");
    if Matches(s, p, Alternatives(v)[2]) {
      assert s[p + 0] == "u/"[0];
    }
  }

  /** An alternative that is a plain literal. */
  lemma LiteralAlternative(v: Variant, s: string, p: nat, k: nat, lit: string)
    requires k in {1, 3, 4, 5} && lit == ["", "v/", "", "embed/", "watch?v=", "&v="][k]
    ensures |Alternatives(v)[k]| == |lit|
    ensures Matches(s, p, Alternatives(v)[k]) <==> LiteralAt(s, p, lit)
    ensures Matches(s, p, Alternatives(v)[k]) ==> p < |s| && s[p] == lit[0]
  {
    assert Alternatives(v)[k] == Lits(lit);
    MatchesLits(s, p, lit);
    if LiteralAt(s, p, lit) {
      assert s[p + 0] == lit[0];
    }
  }

  /**
   * The marker group's dispatch on the character at `p`: only the
   * alternative beginning with that character can match there.
   */
  function DispatchOnFirst(v: Variant, s: string, p: nat): (r: Option<nat>)
    ensures r.Some? ==> p < r.value <= |s| && IsMarkerStart(s[p])
  {
    if p >= |s| then None
    else match s[p]
      case 'y' =>
        if v == RevealPattern && LiteralAt(s, p, "youtu") && p + 5 < |s| && IsAnyChar(s[p + 5])
           && LiteralAt(s, p + 6, "be/") then Some(p + 9)
        else if v == VotingPattern && LiteralAt(s, p, "youtube") && p + 7 < |s| && IsAnyChar(s[p + 7])
           && LiteralAt(s, p + 8, "com/") then Some(p + 12)
        else None
      case 'v' => if LiteralAt(s, p, "v/") then Some(p + 2) else None
      case 'u' =>
        if LiteralAt(s, p, "u/") && p + 2 < |s| && IsWordChar(s[p + 2]) && LiteralAt(s, p + 3, "/")
        then Some(p + 4) else None
      case 'e' => if LiteralAt(s, p, "embed/") then Some(p + 6) else None
      case 'w' => if LiteralAt(s, p, "watch?v=") then Some(p + 8) else None
      case '&' => if LiteralAt(s, p, "&v=") then Some(p + 3) else None
      case _ => None
  }

  /** The dispatch finds the alternative that matches, and only when one does. */
  lemma DispatchMatchesAlternation(v: Variant, s: string, p: nat)
    ensures DispatchOnFirst(v, s, p).None? <==>
              forall k :: 0 <= k < |Alternatives(v)| ==> !Matches(s, p, Alternatives(v)[k])
    ensures forall k :: 0 <= k < |Alternatives(v)| && Matches(s, p, Alternatives(v)[k]) ==>
              DispatchOnFirst(v, s, p) == Some(p + |Alternatives(v)[k]|)
  {
    var alts := Alternatives(v);
    forall k | 0 <= k < |alts| && Matches(s, p, alts[k])
      ensures DispatchOnFirst(v, s, p) == Some(p + |alts[k]|)
    {
      DispatchFinds(v, s, p, k);
    }
    if DispatchOnFirst(v, s, p).Some? {
      DispatchFound(v, s, p);
    }
  }

  lemma DispatchFinds(v: Variant, s: string, p: nat, k: nat)
    requires k < |Alternatives(v)| && Matches(s, p, Alternatives(v)[k])
    ensures DispatchOnFirst(v, s, p) == Some(p + |Alternatives(v)[k]|)
  {
    if k == 0 {
      HostAlternative(v, s, p);
    } else if k == 2 {
      UserAlternative(v, s, p);
    } else {
      LiteralAlternative(v, s, p, k, ["", "v/", "", "embed/", "watch?v=", "&v="][k]);
    }
  }

  lemma DispatchFound(v: Variant, s: string, p: nat)
    requires DispatchOnFirst(v, s, p).Some?
    ensures exists k :: 0 <= k < |Alternatives(v)| && Matches(s, p, Alternatives(v)[k])
  {
    var c := s[p];
    if c == 'y' {
      HostAlternative(v, s, p);
      assert Matches(s, p, Alternatives(v)[0]);
    } else if c == 'u' {
      UserAlternative(v, s, p);
      assert Matches(s, p, Alternatives(v)[2]);
    } else {
      var k := if c == 'v' then 1 else if c == 'e' then 3 else if c == 'w' then 4 else 5;
      LiteralAlternative(v, s, p, k, ["", "v/", "", "embed/", "watch?v=", "&v="][k]);
      assert Matches(s, p, Alternatives(v)[k]);
    }
  }

  /**
   * Where the marker group ends when the pattern's alternation matches at
   * `p`: the end of whichever alternative matches there. The alternatives
   * begin with different characters, so at most one of them can match at a
   * position, and trying them in order picks that one.
   */
  function MarkerEnd(v: Variant, s: string, p: nat): (r: Option<nat>)
    ensures r.None? <==> forall k :: 0 <= k < |Alternatives(v)| ==> !Matches(s, p, Alternatives(v)[k])
    ensures forall k :: 0 <= k < |Alternatives(v)| && Matches(s, p, Alternatives(v)[k]) ==>
              r == Some(p + |Alternatives(v)[k]|)
    ensures r.Some? ==> p < r.value <= |s| && IsMarkerStart(s[p])
  {
    DispatchMatchesAlternation(v, s, p);
    DispatchOnFirst(v, s, p)
  }

  /** No two alternatives match at the same position. */
  lemma AlternativesExclusive(v: Variant, s: string, p: nat, j: nat, k: nat)
    requires j < k < |Alternatives(v)|
    ensures !(Matches(s, p, Alternatives(v)[j]) && Matches(s, p, Alternatives(v)[k]))
  {
    if Matches(s, p, Alternatives(v)[j]) {
      DispatchFinds(v, s, p, j);
      AlternativeLengthsDiffer(v, j, k);
      if Matches(s, p, Alternatives(v)[k]) {
        DispatchFinds(v, s, p, k);
      }
    }
  }

  lemma AlternativeLengthsDiffer(v: Variant, j: nat, k: nat)
    requires j < k < |Alternatives(v)|
    ensures |Alternatives(v)[j]| != |Alternatives(v)[k]|
  {
  }

  /**
   * Every alternative holds a `/`, `?` or `&` at a fixed offset from its
   * first character, so a marker can only start where one of these
   * characters follows at that offset.
   */
  lemma MarkerHasSeparator(v: Variant, s: string, q: nat)
    requires MarkerEnd(v, s, q).Some?
    ensures || (s[q] == 'y' && v == RevealPattern && q + 8 < |s| && s[q + 8] == '/')
            || (s[q] == 'y' && v == VotingPattern && q + 11 < |s| && s[q + 11] == '/')
            || ((s[q] == 'v' || s[q] == 'u') && q + 1 < |s| && s[q + 1] == '/')
            || (s[q] == 'e' && q + 5 < |s| && s[q + 5] == '/')
            || (s[q] == 'w' && q + 5 < |s| && s[q + 5] == '?')
            || s[q] == '&'
  {
    var c := s[q];
    if c == 'y' && v == RevealPattern {
      assert s[q + 6 + 2] == "be/"[2];
    } else if c == 'y' {
      assert s[q + 8 + 3] == "com/"[3];
    } else if c == 'v' {
      assert s[q + 1] == "v/"[1];
    } else if c == 'u' {
      assert s[q + 1] == "u/"[1];
    } else if c == 'e' {
      assert s[q + 5] == "embed/"[5];
    } else if c == 'w' {
      assert s[q + 5] == "watch?v="[5];
    }
  }

  /** The end of the longest run of `[^#&?]` starting at `from`. */
  function RunEnd(s: string, from: nat): (e: nat)
    requires from <= |s|
    ensures from <= e <= |s|
    ensures forall i :: from <= i < e ==> IsIdChar(s[i])
    ensures e < |s| ==> !IsIdChar(s[e])
    decreases |s| - from
  {
    if from == |s| || !IsIdChar(s[from]) then from else RunEnd(s, from + 1)
  }

  /** `q` is the rightmost position up to `limit` where a marker matches. */
  predicate RightmostMarker(v: Variant, s: string, q: nat, limit: nat) {
    && q <= limit
    && MarkerEnd(v, s, q).Some?
    && forall q' :: q < q' <= limit ==> MarkerEnd(v, s, q').None?
  }

  /** The backtracking of `^.*`: try positions from `p` down to 0. */
  function LastMarker(v: Variant, s: string, p: nat): (r: Option<nat>)
    ensures r.Some? ==> RightmostMarker(v, s, r.value, p)
    ensures r.None? ==> forall q :: 0 <= q <= p ==> MarkerEnd(v, s, q).None?
  {
    if MarkerEnd(v, s, p).Some? then Some(p)
    else if p == 0 then None
    else LastMarker(v, s, p - 1)
  }

  /**
   * The second group of the match, if the string matches: the maximal id
   * run after the rightmost marker that no line terminator precedes.
   */
  function Capture(v: Variant, s: string): (r: Option<string>)
    ensures r.Some? <==> exists q :: 0 <= q <= LineEnd(s) && MarkerEnd(v, s, q).Some?
    ensures r.Some? ==> exists q :: (RightmostMarker(v, s, q, LineEnd(s))
              && r.value == s[MarkerEnd(v, s, q).value..RunEnd(s, MarkerEnd(v, s, q).value)])
    ensures r.Some? ==> forall i :: 0 <= i < |r.value| ==> IsIdChar(r.value[i])
  {
    match LastMarker(v, s, LineEnd(s))
    case None => None
    case Some(q) =>
      var e := MarkerEnd(v, s, q).value;
      Some(s[e..RunEnd(s, e)])
  }

  /**
   * `getYouTubeVideoId`: null for the empty URL and for a capture that is
   * not 11 UTF-16 units long; otherwise the capture, which then holds no
   * `#`, `&` or `?`.
   */
  function VideoId(v: Variant, url: string): (r: Option<string>)
    ensures url == [] ==> r.None?
    ensures r.Some? <==> url != [] && Capture(v, url).Some? && Utf16Length(Capture(v, url).value) == 11
    ensures r.Some? ==> r.value == Capture(v, url).value
    ensures r.Some? ==> Utf16Length(r.value) == 11 && 6 <= |r.value| <= 11
    ensures r.Some? ==> forall i :: 0 <= i < |r.value| ==> IsIdChar(r.value[i])
  {
    if url == [] then None
    else
      match Capture(v, url)
      case Some(c) => if Utf16Length(c) == 11 then Some(c) else None
      case None => None
  }

  const EmbedPrefix := "https://www.youtube.com/embed/"

  /** `getYouTubeEmbedUrl`: the embed address exactly when there is a video id. */
  function EmbedUrl(v: Variant, url: string): (r: Option<string>)
    ensures r.Some? <==> VideoId(v, url).Some?
    ensures r.Some? ==> r.value == EmbedPrefix + VideoId(v, url).value
  {
    match VideoId(v, url)
    case Some(id) => Some(EmbedPrefix + id)
    case None => None
  }

  /** `getYouTubeThumbnail` (voting screen): the thumbnail address exactly when there is a video id. */
  function ThumbnailUrl(url: string): (r: Option<string>)
    ensures r.Some? <==> VideoId(VotingPattern, url).Some?
    ensures r.Some? ==> r.value == "https://img.youtube.com/vi/" + VideoId(VotingPattern, url).value + "/sddefault.jpg"
  {
    match VideoId(VotingPattern, url)
    case Some(id) => Some("https://img.youtube.com/vi/" + id + "/sddefault.jpg")
    case None => None
  }

  /** On the voting screen the player and the thumbnail are offered for the same URLs. */
  lemma EmbedIffThumbnail(url: string)
    ensures EmbedUrl(VotingPattern, url).Some? <==> ThumbnailUrl(url).Some?
  {
  }

  /** The embed address gives back the id after its fixed prefix. */
  lemma EmbedUrlRecoversId(v: Variant, url: string)
    requires EmbedUrl(v, url).Some?
    ensures EmbedUrl(v, url).value[|EmbedPrefix|..] == VideoId(v, url).value
  {
  }
}
