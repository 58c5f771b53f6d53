/**
 * The ranking order of the live scores: `scores.sort((a, b) => b.score - a.score)`
 * on a stable `Array.prototype.sort`, i.e. non-increasing by score with
 * equal scores left in their original order. It is modelled as an insertion
 * sort, together with the proof that the stable order is the only one.
 */
module Ranking {

  /** One row of the ranking: a participant's id, name and score. */
  datatype ScoreEntry = ScoreEntry(id: string, name: string, score: nat)

  /** Non-increasing by score. */
  predicate SortedByScore(s: seq<ScoreEntry>) {
    forall i, j :: 0 <= i < j < |s| ==> s[i].score >= s[j].score
  }

  /** The entries of `s` whose score is `k`, in their order in `s`. */
  function WithScore(s: seq<ScoreEntry>, k: int): (r: seq<ScoreEntry>)
    ensures forall x :: x in r <==> x in s && x.score == k
  {
    if |s| == 0 then []
    else (if s[0].score == k then [s[0]] else []) + WithScore(s[1..], k)
  }

  /** `WithScore` of a sequence built by putting `x` in front. */
  lemma WithScoreCons(x: ScoreEntry, s: seq<ScoreEntry>)
    ensures forall k :: WithScore([x] + s, k) == (if x.score == k then [x] else []) + WithScore(s, k)
  {
    assert ([x] + s)[0] == x;
    assert ([x] + s)[1..] == s;
  }

  /**
   * Puts `x` in front of the first entry whose score is not above its own.
   * Among equal scores `x` therefore comes first.
   */
  function Insert(x: ScoreEntry, s: seq<ScoreEntry>): (r: seq<ScoreEntry>)
    ensures |r| == |s| + 1
    ensures multiset(r) == multiset(s) + multiset{x}
    decreases |s|
  {
    if |s| == 0 then [x]
    else if s[0].score <= x.score then [x] + s
    else
      assert s == [s[0]] + s[1..];
      [s[0]] + Insert(x, s[1..])
  }

  /** Inserting into a non-increasing sequence keeps it non-increasing. */
  lemma {:induction false} InsertKeepsOrder(x: ScoreEntry, s: seq<ScoreEntry>)
    requires SortedByScore(s)
    ensures SortedByScore(Insert(x, s))
    decreases |s|
  {
    if |s| == 0 {
    } else if s[0].score <= x.score {
      var t := [x] + s;
      forall i, j | 0 <= i < j < |t| ensures t[i].score >= t[j].score {
        if i == 0 {
          assert t[j] == s[j - 1] && s[0].score >= s[j - 1].score;
        } else {
          assert t[i] == s[i - 1] && t[j] == s[j - 1];
        }
      }
    } else {
      assert SortedByScore(s[1..]) by {
        forall i, j | 0 <= i < j < |s[1..]| ensures s[1..][i].score >= s[1..][j].score {
          assert s[1..][i] == s[i + 1] && s[1..][j] == s[j + 1];
        }
      }
      InsertKeepsOrder(x, s[1..]);
      InsertBehindHead(x, s, Insert(x, s[1..]));
    }
  }

  /** Inserting `x` puts it first among the entries with its score and moves no other entry past an equal one. */
  lemma {:induction false} InsertStable(x: ScoreEntry, s: seq<ScoreEntry>)
    ensures forall k :: WithScore(Insert(x, s), k) == (if x.score == k then [x] else []) + WithScore(s, k)
    decreases |s|
  {
    if |s| == 0 || s[0].score <= x.score {
      WithScoreCons(x, s);
    } else {
      var rest := Insert(x, s[1..]);
      InsertStable(x, s[1..]);
      WithScoreCons(s[0], rest);
      WithScoreCons(s[0], s[1..]);
      assert s == [s[0]] + s[1..];
    }
  }

  /** The step of `Insert` that passes over a head scoring above `x` keeps the order. */
  lemma InsertBehindHead(x: ScoreEntry, s: seq<ScoreEntry>, rest: seq<ScoreEntry>)
    requires |s| > 0 && s[0].score > x.score
    requires multiset(rest) == multiset(s[1..]) + multiset{x}
    requires SortedByScore(s) && SortedByScore(rest)
    ensures SortedByScore([s[0]] + rest)
  {
    forall y | y in rest ensures s[0].score >= y.score {
      assert y in multiset(rest);
      if y != x {
        assert y in multiset(s[1..]);
        var j :| 0 <= j < |s[1..]| && s[1..][j] == y;
        assert s[j + 1] == y;
      }
    }
    var t := [s[0]] + rest;
    forall i, j | 0 <= i < j < |t| ensures t[i].score >= t[j].score {
      if i == 0 {
        assert t[j] == rest[j - 1] && rest[j - 1] in rest;
      } else {
        assert t[i] == rest[i - 1] && t[j] == rest[j - 1];
      }
    }
  }

  /**
   * The stable sort: a permutation of `s`, non-increasing by score, and for
   * every score the entries carrying it are in the order they had in `s`.
   */
  function SortByScore(s: seq<ScoreEntry>): (r: seq<ScoreEntry>)
    ensures |r| == |s|
    ensures multiset(r) == multiset(s)
    ensures SortedByScore(r)
    ensures forall k :: WithScore(r, k) == WithScore(s, k)
    decreases |s|
  {
    if |s| == 0 then []
    else
      var rest := SortByScore(s[1..]);
      InsertKeepsOrder(s[0], rest);
      InsertStable(s[0], rest);
      WithScoreCons(s[0], s[1..]);
      assert s == [s[0]] + s[1..];
      Insert(s[0], rest)
  }

  /**
   * Two sequences, both non-increasing by score and with the same entries
   * per score in the same order, are equal: whatever stable sort the engine
   * uses, its result is `SortByScore`.
   */
  lemma {:induction false} StableOrderIsUnique(a: seq<ScoreEntry>, b: seq<ScoreEntry>)
    requires SortedByScore(a) && SortedByScore(b)
    requires forall k :: WithScore(a, k) == WithScore(b, k)
    ensures a == b
    decreases |a|
  {
    if |a| == 0 {
    } else {
      var m := a[0].score;
      assert a[0] in WithScore(a, m);
      assert a[0] in WithScore(b, m);
      assert |b| != 0 && b[0].score >= m;
      assert b[0] in WithScore(b, b[0].score);
      assert b[0] in WithScore(a, b[0].score);
      assert m == b[0].score;
      WithScoreCons(a[0], a[1..]);
      WithScoreCons(b[0], b[1..]);
      assert a == [a[0]] + a[1..];
      assert b == [b[0]] + b[1..];
      assert WithScore(a, m)[0] == a[0];
      assert WithScore(b, m)[0] == b[0];
      assert a[0] == b[0];
      forall k ensures WithScore(a[1..], k) == WithScore(b[1..], k) {
        if k == m {
          assert WithScore(a, k) == [a[0]] + WithScore(a[1..], k);
          assert WithScore(b, k) == [b[0]] + WithScore(b[1..], k);
          assert WithScore(a, k)[1..] == WithScore(a[1..], k);
          assert WithScore(b, k)[1..] == WithScore(b[1..], k);
        } else {
          assert WithScore(a, k) == WithScore(a[1..], k);
          assert WithScore(b, k) == WithScore(b[1..], k);
        }
      }
      StableOrderIsUnique(a[1..], b[1..]);
    }
  }
}
