/**
 * The JavaScript string built-ins the game code relies on: `trim`,
 * `toLowerCase`, `indexOf`/`split` with a non-empty separator, and the
 * UTF-16 `length`. Strings are sequences of Unicode scalar values.
 */
module JsString {

  /** ECMAScript LineTerminator: LF, CR, LINE SEPARATOR, PARAGRAPH SEPARATOR. */
  predicate IsLineTerminator(c: char) {
    c == '\n' || c == '\r' || c == '\U{2028}' || c == '\U{2029}'
  }

  /** ECMAScript WhiteSpace: TAB, VT, FF, ZWNBSP and the Unicode category Zs. */
  predicate IsWhiteSpace(c: char) {
    || c == '\t' || c == '\U{000B}' || c == '\U{000C}' || c == '\U{FEFF}'
    || c == ' ' || c == '\U{00A0}' || c == '\U{1680}'
    || ('\U{2000}' <= c <= '\U{200A}')
    || c == '\U{202F}' || c == '\U{205F}' || c == '\U{3000}'
  }

  /** The characters `String.prototype.trim` removes from both ends. */
  predicate IsTrimmable(c: char) {
    IsWhiteSpace(c) || IsLineTerminator(c)
  }

  predicate AllTrimmable(s: string) {
    forall i :: 0 <= i < |s| ==> IsTrimmable(s[i])
  }

  /** Number of trimmable characters at the front of `s`. */
  function LeadingSpace(s: string): (n: nat)
    ensures n <= |s|
    ensures forall i :: 0 <= i < n ==> IsTrimmable(s[i])
    ensures n < |s| ==> !IsTrimmable(s[n])
  {
    if |s| == 0 || !IsTrimmable(s[0]) then 0 else 1 + LeadingSpace(s[1..])
  }

  /** Number of trimmable characters at the back of `s`. */
  function TrailingSpace(s: string): (n: nat)
    ensures n <= |s|
    ensures forall i :: |s| - n <= i < |s| ==> IsTrimmable(s[i])
    ensures n < |s| ==> !IsTrimmable(s[|s| - n - 1])
  {
    if |s| == 0 || !IsTrimmable(s[|s| - 1]) then 0 else 1 + TrailingSpace(s[..|s| - 1])
  }

  /**
   * `s.trim()`: the unique infix of `s` that is empty or starts and ends
   * with a non-trimmable character, everything around it being trimmable.
   */
  function Trim(s: string): (r: string)
    ensures |r| <= |s|
    ensures r == [] <==> AllTrimmable(s)
    ensures r != [] ==> !IsTrimmable(r[0]) && !IsTrimmable(r[|r| - 1])
    ensures exists i :: 0 <= i <= |s| - |r| && s[i..i + |r|] == r
              && AllTrimmable(s[..i]) && AllTrimmable(s[i + |r|..])
  {
    var a := LeadingSpace(s);
    if a == |s| then
      assert s[..0] == [] && s[0..] == s;
      []
    else
      var b := TrailingSpace(s);
      assert a < |s| - b;
      var r := s[a..|s| - b];
      assert r[0] == s[a] && r[|r| - 1] == s[|s| - b - 1];
      assert !AllTrimmable(s) by { assert !IsTrimmable(s[a]); }
      assert s[a..a + |r|] == r;
      assert AllTrimmable(s[..a]) by {
        forall k | 0 <= k < a ensures IsTrimmable(s[..a][k]) {
          assert s[..a][k] == s[k];
        }
      }
      var tail := s[a + |r|..];
      assert AllTrimmable(tail) by {
        forall k | 0 <= k < |tail| ensures IsTrimmable(tail[k]) {
          assert tail[k] == s[a + |r| + k];
        }
      }
      r
  }

  /** Trimming a trimmed string changes nothing. */
  lemma TrimIdempotent(s: string)
    ensures Trim(Trim(s)) == Trim(s)
  {
    var t := Trim(s);
    if t != [] {
      assert LeadingSpace(t) == 0;
      assert TrailingSpace(t) == 0;
      assert t[0..|t|] == t;
    }
  }

  /** A string that neither starts nor ends with a trimmable character is its own trim. */
  lemma TrimOfUnpadded(s: string)
    requires s != [] && !IsTrimmable(s[0]) && !IsTrimmable(s[|s| - 1])
    ensures Trim(s) == s
  {
    assert LeadingSpace(s) == 0;
    assert TrailingSpace(s) == 0;
    assert s[0..|s|] == s;
  }

  /** `c.toLowerCase()` for the ASCII letters; every other character is kept. */
  function LowerChar(c: char): char {
    if 'A' <= c <= 'Z' then (c as int + 32) as char else c
  }

  /** `s.toLowerCase()`, character by character. */
  function ToLower(s: string): (r: string)
    ensures |r| == |s|
    ensures forall i :: 0 <= i < |s| ==> r[i] == LowerChar(s[i])
  {
    seq(|s|, i requires 0 <= i < |s| => LowerChar(s[i]))
  }

  /** `sep` occurs in `s` starting at index `i`. */
  predicate OccursAt(s: string, sep: string, i: int) {
    0 <= i && i + |sep| <= |s| && s[i..i + |sep|] == sep
  }

  predicate Contains(s: string, sep: string) {
    exists i :: 0 <= i <= |s| - |sep| && OccursAt(s, sep, i)
  }

  /** `s.indexOf(sep, from)`: the first occurrence at or after `from`, or -1. */
  function IndexOfFrom(s: string, sep: string, from: nat): (r: int)
    requires from <= |s|
    ensures r == -1 || (from <= r && OccursAt(s, sep, r))
    ensures r == -1 ==> forall i :: from <= i <= |s| - |sep| ==> !OccursAt(s, sep, i)
    ensures r != -1 ==> forall i :: from <= i < r ==> !OccursAt(s, sep, i)
    decreases |s| - from
  {
    if from + |sep| > |s| then -1
    else if OccursAt(s, sep, from) then from
    else if from == |s| then -1
    else IndexOfFrom(s, sep, from + 1)
  }

  function IndexOf(s: string, sep: string): (r: int)
    ensures r == -1 <==> !Contains(s, sep)
    ensures r != -1 ==> OccursAt(s, sep, r) && forall i :: 0 <= i < r ==> !OccursAt(s, sep, i)
  {
    IndexOfFrom(s, sep, 0)
  }

  /** The inverse of `Split`: the parts glued back together with `sep`. */
  function Join(parts: seq<string>, sep: string): string
    requires |parts| >= 1
  {
    if |parts| == 1 then parts[0] else parts[0] + sep + Join(parts[1..], sep)
  }

  /** A prefix that ends before the first occurrence holds no occurrence. */
  lemma PrefixBeforeFirst(s: string, sep: string, i: int)
    requires |sep| > 0
    requires 0 <= i <= |s|
    requires forall j :: 0 <= j < i ==> !OccursAt(s, sep, j)
    ensures !Contains(s[..i], sep)
  {
    if Contains(s[..i], sep) {
      var j :| 0 <= j <= i - |sep| && OccursAt(s[..i], sep, j);
      assert s[..i][j..j + |sep|] == s[j..j + |sep|];
      assert OccursAt(s, sep, j);
    }
  }

  /** Where part `k` begins in the string that `parts` were split from. */
  function PartStart(parts: seq<string>, sep: string, k: nat): nat
    requires k <= |parts|
  {
    if k == 0 then 0 else PartStart(parts, sep, k - 1) + |parts[k - 1]| + |sep|
  }

  /**
   * `parts` cut `s` at leftmost occurrences of `sep`: searching from the
   * start of any part but the last finds the occurrence right after it, and
   * searching from the start of the last part finds none.
   */
  predicate CutAtLeftmost(s: string, sep: string, parts: seq<string>) {
    forall k :: 0 <= k < |parts| ==> PartCut(s, sep, parts, k)
  }

  /** Part `k` ends where the search for `sep` from its start stops. */
  predicate PartCut(s: string, sep: string, parts: seq<string>, k: nat)
    requires k < |parts|
  {
    && PartStart(parts, sep, k) <= |s|
    && IndexOfFrom(s, sep, PartStart(parts, sep, k))
       == if k < |parts| - 1 then PartStart(parts, sep, k) + |parts[k]| else -1
  }

  lemma {:induction false} PartStartCons(a: string, rest: seq<string>, sep: string, k: nat)
    requires k <= |rest|
    ensures PartStart([a] + rest, sep, k + 1) == |a| + |sep| + PartStart(rest, sep, k)
  {
    if k > 0 {
      PartStartCons(a, rest, sep, k - 1);
      assert ([a] + rest)[k] == rest[k - 1];
    } else {
      assert ([a] + rest)[0] == a;
    }
  }

  /** Searching a suffix is searching the whole string, shifted. */
  lemma {:induction false} IndexOfShifted(s: string, sep: string, d: nat, x: nat)
    requires d + x <= |s|
    ensures var r := IndexOfFrom(s[d..], sep, x);
            IndexOfFrom(s, sep, d + x) == if r == -1 then -1 else r + d
    decreases |s| - d - x
  {
    var t := s[d..];
    if x + |sep| <= |t| {
      assert t[x..x + |sep|] == s[d + x..d + x + |sep|];
    }
    if x + |sep| <= |t| && !OccursAt(t, sep, x) && x < |t| {
      IndexOfShifted(s, sep, d, x + 1);
    }
  }

  /** Cutting `s` at its first occurrence `i`, given a leftmost cut of the rest. */
  lemma CutAtLeftmostStep(s: string, sep: string, i: nat, rest: seq<string>)
    requires |sep| > 0 && i + |sep| <= |s| && IndexOfFrom(s, sep, 0) == i
    requires |rest| >= 1 && CutAtLeftmost(s[i + |sep|..], sep, rest)
    ensures CutAtLeftmost(s, sep, [s[..i]] + rest)
  {
    var parts := [s[..i]] + rest;
    forall k | 0 <= k < |parts| ensures PartCut(s, sep, parts, k) {
      if k == 0 {
        assert parts[0] == s[..i] && |parts[0]| == i;
        assert PartStart(parts, sep, 0) == 0;
      } else {
        LaterPart(s, sep, i, rest, parts, k - 1);
      }
    }
  }

  lemma LaterPart(s: string, sep: string, i: nat, rest: seq<string>, parts: seq<string>, k: nat)
    requires i + |sep| <= |s| && parts == [s[..i]] + rest && k < |rest|
    ensures PartCut(s, sep, parts, k + 1) <==> PartCut(s[i + |sep|..], sep, rest, k)
  {
    var d := i + |sep|;
    var x := PartStart(rest, sep, k);
    PartStartCons(s[..i], rest, sep, k);
    assert PartStart(parts, sep, k + 1) == d + x;
    assert parts[k + 1] == rest[k];
    if d + x <= |s| {
      IndexOfShifted(s, sep, d, x);
      var r := IndexOfFrom(s[d..], sep, x);
      assert IndexOfFrom(s, sep, d + x) == if r == -1 then -1 else r + d;
    }
  }

  /**
   * `s.split(sep)` for a non-empty separator: the parts glue back to `s`,
   * and each part ends at the leftmost occurrence of `sep` that starts at
   * or after the part's beginning. So no occurrence starts inside a part,
   * every part but the last is followed by one, and there is more than
   * one part exactly when `s` contains `sep`.
   */
  function Split(s: string, sep: string): (parts: seq<string>)
    requires |sep| > 0
    ensures |parts| >= 1
    ensures Join(parts, sep) == s
    ensures CutAtLeftmost(s, sep, parts)
    ensures forall k :: 0 <= k < |parts| ==> !Contains(parts[k], sep)
    ensures |parts| > 1 <==> Contains(s, sep)
    decreases |s|
  {
    var i := IndexOf(s, sep);
    if i == -1 then
      assert PartStart([s], sep, 0) == 0;
      [s]
    else
      PrefixBeforeFirst(s, sep, i);
      var rest := Split(s[i + |sep|..], sep);
      CutAtLeftmostStep(s, sep, i, rest);
      assert s == s[..i] + sep + s[i + |sep|..];
      assert ([s[..i]] + rest)[1..] == rest;
      [s[..i]] + rest
  }

  /**
   * The contract of `Split` determines its result: any parts that glue back
   * to `s` and are cut at leftmost occurrences are the split.
   */
  lemma {:induction false} SplitUnique(s: string, sep: string, parts: seq<string>)
    requires |sep| > 0 && |parts| >= 1
    requires Join(parts, sep) == s && CutAtLeftmost(s, sep, parts)
    ensures parts == Split(s, sep)
    decreases |parts|
  {
    assert PartCut(s, sep, parts, 0);
    assert PartStart(parts, sep, 0) == 0;
    if |parts| > 1 {
      var i := |parts[0]|;
      var d := i + |sep|;
      var rest := parts[1..];
      assert parts == [parts[0]] + rest;
      assert s == parts[0] + sep + Join(rest, sep);
      assert s[..i] == parts[0];
      assert s[d..] == Join(rest, sep);
      forall k | 0 <= k < |rest| ensures PartCut(s[d..], sep, rest, k) {
        assert PartCut(s, sep, parts, k + 1);
        LaterPart(s, sep, i, rest, parts, k);
      }
      SplitUnique(s[d..], sep, rest);
    }
  }

  /** With a separator that overlaps itself, the first occurrence wins. */
  lemma SplitOverlapping()
    ensures Split("aaa", "aa") == ["", "a"]
  {
    var s := "aaa";
    assert OccursAt(s, "aa", 0) by { assert s[0..2] == "aa"; }
    assert IndexOf(s, "aa") == 0;
    assert s[2..] == "a";
    assert IndexOf("a", "aa") == -1;
    assert s[..0] == "";
  }

  /**
   * The second part of a split: the text after the first occurrence, up to
   * the next occurrence or the end.
   */
  lemma SplitSecondPart(s: string, sep: string)
    requires |sep| > 0
    ensures Contains(s, sep) ==>
              var rest := s[IndexOf(s, sep) + |sep|..];
              Split(s, sep)[1] == if Contains(rest, sep) then rest[..IndexOf(rest, sep)] else rest
  {
    if Contains(s, sep) {
      var rest := s[IndexOf(s, sep) + |sep|..];
      assert Split(s, sep)[1..] == Split(rest, sep);
    }
  }

  /**
   * The position of the first line terminator, or the length: how far a
   * regular-expression `.*` anchored at the start can reach.
   */
  function LineEnd(s: string): (n: nat)
    ensures n <= |s|
    ensures forall i :: 0 <= i < n ==> !IsLineTerminator(s[i])
    ensures n < |s| ==> IsLineTerminator(s[n])
  {
    LineEndFrom(s, 0)
  }

  function LineEndFrom(s: string, from: nat): (n: nat)
    requires from <= |s|
    ensures from <= n <= |s|
    ensures forall i :: from <= i < n ==> !IsLineTerminator(s[i])
    ensures n < |s| ==> IsLineTerminator(s[n])
    decreases |s| - from
  {
    if from == |s| || IsLineTerminator(s[from]) then from else LineEndFrom(s, from + 1)
  }

  /** `s.length`: the number of UTF-16 code units of `s`. */
  function Utf16Length(s: string): (n: nat)
    ensures n == |s| + |AstralPositions(s)|
    ensures |s| <= n <= 2 * |s|
  {
    if |s| == 0 then
      assert AstralPositions(s) == {};
      0
    else
      var init := s[..|s| - 1];
      var last := s[|s| - 1];
      assert AstralPositions(s)
          == AstralPositions(init) + (if last as int > 0xFFFF then {|s| - 1} else {});
      Utf16Length(init) + (if last as int > 0xFFFF then 2 else 1)
  }

  /** The positions of the characters outside the Basic Multilingual Plane: two UTF-16 units each. */
  function AstralPositions(s: string): set<nat> {
    set i: nat | i < |s| && s[i] as int > 0xFFFF
  }

  /** A string without astral characters has one UTF-16 unit per character. */
  lemma {:induction false} Utf16LengthBmp(s: string)
    requires forall i :: 0 <= i < |s| ==> s[i] as int <= 0xFFFF
    ensures Utf16Length(s) == |s|
  {
    if |s| > 0 {
      Utf16LengthBmp(s[..|s| - 1]);
    }
  }
}
