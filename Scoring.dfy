/**
 * `scoreAndSortArticles`: every article gets a relevance score for a list of
 * keywords (2 per keyword found in the title, plus the number of whole-word
 * occurrences of each keyword in the content, all ignoring case), and the
 * list is sorted by score, highest first, with a stable sort.
 */
module Scoring {
  import opened Text
  import opened Articles

  // ---------------------------------------------------------------- title

  /** The keyword occurs in the title, ignoring case. */
  predicate TitleHit(title: string, keyword: string) {
    ContainsIgnoringCase(title, keyword)
  }

  /** The `reduce` over the keywords that adds 2 for each keyword found in the title. */
  function TitleScore(title: string, keywords: seq<string>): (r: nat)
    ensures r % 2 == 0 && r <= 2 * |keywords|
  {
    if keywords == [] then 0
    else
      TitleScore(title, keywords[..|keywords| - 1])
      + (if TitleHit(title, keywords[|keywords| - 1]) then 2 else 0)
  }

  /** Positions in the keyword list of the keywords found in the title. */
  ghost function TitleHits(title: string, keywords: seq<string>): set<int> {
    set i | 0 <= i < |keywords| && TitleHit(title, keywords[i])
  }

  lemma {:induction false} TitleScoreCountsHits(title: string, keywords: seq<string>)
    ensures TitleScore(title, keywords) == 2 * |TitleHits(title, keywords)|
  {
    if keywords != [] {
      var n := |keywords| - 1;
      var init := keywords[..n];
      TitleScoreCountsHits(title, init);
      var hitsBefore := TitleHits(title, init);
      if TitleHit(title, keywords[n]) {
        assert TitleHits(title, keywords) == hitsBefore + {n};
        assert n !in hitsBefore;
      } else {
        assert TitleHits(title, keywords) == hitsBefore;
      }
    }
  }

  // ------------------------------------------------------ whole-word match

  /** A character matched by the regular-expression class `\w`. */
  predicate IsWordChar(c: char) {
    'a' <= c <= 'z' || 'A' <= c <= 'Z' || '0' <= c <= '9' || c == '_'
  }

  predicate WordAt(s: string, i: int) {
    0 <= i < |s| && IsWordChar(s[i])
  }

  /** `\b` holds between positions i - 1 and i. */
  predicate Boundary(s: string, i: int) {
    WordAt(s, i - 1) != WordAt(s, i)
  }

  /** `\bkeyword\b` with the `i` flag matches the content at position i. */
  predicate MatchAt(s: string, keyword: string, i: int) {
    && 0 <= i && i + |keyword| <= |s|
    && Boundary(s, i)
    && SameIgnoringCase(s[i..i + |keyword|], keyword)
    && Boundary(s, i + |keyword|)
  }

  /**
   * `content.match(/\bkeyword\b/gi)?.length || 0`, from position i on: the
   * global search takes the first match at or after i, counts it and resumes
   * after it (one position further for an empty match).
   */
  function CountFrom(s: string, keyword: string, i: nat): (r: nat)
    ensures i <= |s| ==> r <= |s| - i + 1
    decreases |s| + 1 - i
  {
    if i > |s| then 0
    else if MatchAt(s, keyword, i) then 1 + CountFrom(s, keyword, i + (if |keyword| == 0 then 1 else |keyword|))
    else CountFrom(s, keyword, i + 1)
  }

  /** Matches of a non-empty keyword do not overlap, so they cover at most the text after i. */
  lemma {:induction false} CountFromCoversText(s: string, keyword: string, i: nat)
    requires |keyword| > 0 && i <= |s|
    ensures CountFrom(s, keyword, i) * |keyword| <= |s| - i
    decreases |s| - i
  {
    if i < |s| {
      if MatchAt(s, keyword, i) {
        var n := |keyword|;
        var rest := CountFrom(s, keyword, i + n);
        assert i + n <= |s|;
        CountFromCoversText(s, keyword, i + n);
        assert CountFrom(s, keyword, i) == 1 + rest;
        OneMoreMatch(rest, n, |s| - i);
      } else {
        CountFromCoversText(s, keyword, i + 1);
      }
    } else {
      assert !MatchAt(s, keyword, i);
      assert CountFrom(s, keyword, i + 1) == 0;
    }
  }

  /** One more match of n characters still fits when the rest fit after it. */
  lemma OneMoreMatch(count: nat, n: nat, room: int)
    requires count * n <= room - n
    ensures (1 + count) * n <= room
  {
    assert (1 + count) * n == n + count * n;
  }

  function CountWholeWord(content: string, keyword: string): (r: nat)
    ensures r <= |content| + 1
  {
    CountFrom(content, keyword, 0)
  }

  /** A keyword of n characters occurs as a whole word at most |content| / n times. */
  lemma WholeWordCountBound(content: string, keyword: string)
    requires |keyword| > 0
    ensures CountWholeWord(content, keyword) * |keyword| <= |content|
  {
    CountFromCoversText(content, keyword, 0);
  }

  /** A non-empty keyword made of word characters only. */
  predicate IsWord(keyword: string) {
    |keyword| > 0 && forall i :: 0 <= i < |keyword| ==> IsWordChar(keyword[i])
  }

  /** The positions at or after i where the keyword occurs as a whole word, checking every position. */
  ghost function MatchesFrom(s: string, keyword: string, i: nat): (r: set<int>)
    ensures forall j :: j in r ==> i <= j
    decreases |s| + 1 - i
  {
    if i > |s| then {}
    else (if MatchAt(s, keyword, i) then {i} else {}) + MatchesFrom(s, keyword, i + 1)
  }

  /** MatchesFrom holds exactly the whole-word positions from i to the end. */
  lemma {:induction false} MatchesFromIff(s: string, keyword: string, i: nat, j: int)
    ensures j in MatchesFrom(s, keyword, i) <==> i <= j <= |s| && MatchAt(s, keyword, j)
    decreases |s| + 1 - i
  {
    if i <= |s| && j != i {
      MatchesFromIff(s, keyword, i + 1, j);
    }
  }

  lemma LowerKeepsWordChars(c: char)
    ensures IsWordChar(LowerChar(c)) <==> IsWordChar(c)
  {
  }

  /** Inside a whole-word match of a word keyword every character is a word character. */
  lemma MatchIsWord(s: string, keyword: string, i: int, m: int)
    requires IsWord(keyword) && MatchAt(s, keyword, i) && i <= m < i + |keyword|
    ensures WordAt(s, m)
  {
    SameIgnoringCaseAt(s[i..i + |keyword|], keyword, m - i);
    LowerKeepsWordChars(s[m]);
    LowerKeepsWordChars(keyword[m - i]);
  }

  /** A whole-word match of a word keyword leaves no room for another match to start inside it. */
  lemma NoMatchInside(s: string, keyword: string, i: nat, j: int)
    requires IsWord(keyword) && MatchAt(s, keyword, i) && i < j < i + |keyword|
    ensures !MatchAt(s, keyword, j)
  {
    MatchIsWord(s, keyword, i, j - 1);
    MatchIsWord(s, keyword, i, j);
    assert !Boundary(s, j);
  }

  lemma {:induction false} MatchesSkipInside(s: string, keyword: string, i: nat, j: nat)
    requires IsWord(keyword) && MatchAt(s, keyword, i) && i < j <= i + |keyword|
    ensures MatchesFrom(s, keyword, j) == MatchesFrom(s, keyword, i + |keyword|)
    decreases i + |keyword| - j
  {
    if j < i + |keyword| {
      NoMatchInside(s, keyword, i, j);
      MatchesSkipInside(s, keyword, i, j + 1);
    }
  }

  /**
   * For a keyword of word characters, whole-word matches never overlap, so
   * the global search counts every position where the keyword stands as a
   * whole word.
   */
  lemma {:induction false} CountFromCountsMatches(s: string, keyword: string, i: nat)
    requires IsWord(keyword) && i <= |s| + 1
    ensures CountFrom(s, keyword, i) == |MatchesFrom(s, keyword, i)|
    decreases |s| + 1 - i
  {
    if i <= |s| {
      if MatchAt(s, keyword, i) {
        CountFromCountsMatches(s, keyword, i + |keyword|);
        HitStep(s, keyword, i);
      } else {
        CountFromCountsMatches(s, keyword, i + 1);
        MissStep(s, keyword, i);
      }
    } else {
      assert MatchesFrom(s, keyword, i) == {};
    }
  }

  /** One match found at i: it is counted, and it is the only whole-word position before i + |keyword|. */
  lemma HitStep(s: string, keyword: string, i: nat)
    requires IsWord(keyword) && i <= |s| && MatchAt(s, keyword, i)
    requires CountFrom(s, keyword, i + |keyword|) == |MatchesFrom(s, keyword, i + |keyword|)|
    ensures CountFrom(s, keyword, i) == |MatchesFrom(s, keyword, i)|
  {
    var n := |keyword|;
    MatchesSkipInside(s, keyword, i, i + 1);
    var later := MatchesFrom(s, keyword, i + n);
    assert i !in later;
    assert CountFrom(s, keyword, i) == 1 + CountFrom(s, keyword, i + n);
    assert MatchesFrom(s, keyword, i) == {i} + later;
    assert |{i} + later| == 1 + |later|;
  }

  /** No match at i: both sides move on to i + 1. */
  lemma MissStep(s: string, keyword: string, i: nat)
    requires i <= |s| && !MatchAt(s, keyword, i)
    requires CountFrom(s, keyword, i + 1) == |MatchesFrom(s, keyword, i + 1)|
    ensures CountFrom(s, keyword, i) == |MatchesFrom(s, keyword, i)|
  {
    assert MatchesFrom(s, keyword, i) == {} + MatchesFrom(s, keyword, i + 1);
    assert {} + MatchesFrom(s, keyword, i + 1) == MatchesFrom(s, keyword, i + 1);
  }

  lemma WholeWordCountIsOccurrences(content: string, keyword: string)
    requires IsWord(keyword)
    ensures CountWholeWord(content, keyword) == |MatchesFrom(content, keyword, 0)|
  {
    CountFromCountsMatches(content, keyword, 0);
  }

  // ---------------------------------------------------------------- score

  /** The `reduce` over the keywords that adds each keyword's whole-word count. */
  function ContentScore(content: string, keywords: seq<string>): (r: nat)
    ensures r <= |keywords| * (|content| + 1)
  {
    if keywords == [] then 0
    else
      var n := |keywords|;
      var init := ContentScore(content, keywords[..n - 1]);
      assert (n - 1) * (|content| + 1) + (|content| + 1) == n * (|content| + 1);
      init + CountWholeWord(content, keywords[n - 1])
  }

  /** The fold adds up one whole-word count per keyword: splitting the keyword list splits the sum. */
  lemma {:induction false} ContentScoreAppend(content: string, xs: seq<string>, ys: seq<string>)
    ensures ContentScore(content, xs + ys) == ContentScore(content, xs) + ContentScore(content, ys)
    decreases |ys|
  {
    if ys == [] {
      assert xs + ys == xs;
    } else {
      var n := |ys| - 1;
      assert (xs + ys)[..|xs + ys| - 1] == xs + ys[..n];
      assert (xs + ys)[|xs + ys| - 1] == ys[n];
      ContentScoreAppend(content, xs, ys[..n]);
    }
  }

  function Score(a: RawArticle, keywords: seq<string>): (r: nat)
    ensures r <= |keywords| * (|a.content| + 3)
  {
    assert |keywords| * (|a.content| + 1) + 2 * |keywords| == |keywords| * (|a.content| + 3);
    TitleScore(a.title, keywords) + ContentScore(a.content, keywords)
  }

  /** Two articles with the same content differ only by their title bonuses. */
  lemma SameContentScoreDifference(a: RawArticle, b: RawArticle, keywords: seq<string>)
    requires a.content == b.content
    ensures Score(a, keywords) - Score(b, keywords)
            == 2 * (|TitleHits(a.title, keywords)| - |TitleHits(b.title, keywords)|)
  {
    TitleScoreCountsHits(a.title, keywords);
    TitleScoreCountsHits(b.title, keywords);
  }

  /** The `.map` step: each article with its score, in input order. */
  function ScoreAll(articles: seq<RawArticle>, keywords: seq<string>): (r: seq<ScoredArticle>)
    ensures |r| == |articles|
    ensures forall i :: 0 <= i < |r| ==> r[i].article == articles[i] && r[i].score == Score(articles[i], keywords)
  {
    seq(|articles|, i requires 0 <= i < |articles| => ScoredArticle(articles[i], Score(articles[i], keywords)))
  }

  // ----------------------------------------------------------------- sort

  /** The articles without their scores. */
  function ArticlesOf(s: seq<ScoredArticle>): (r: seq<RawArticle>)
    ensures |r| == |s|
  {
    if s == [] then [] else [s[0].article] + ArticlesOf(s[1..])
  }

  lemma {:induction false} ArticlesOfAppend(a: seq<ScoredArticle>, b: seq<ScoredArticle>)
    ensures ArticlesOf(a + b) == ArticlesOf(a) + ArticlesOf(b)
  {
    if a == [] {
      assert a + b == b;
    } else {
      assert (a + b)[1..] == a[1..] + b;
      ArticlesOfAppend(a[1..], b);
    }
  }

  /** Dropping the scores of the scored list gives back the input articles. */
  lemma {:induction false} ArticlesOfScoreAll(articles: seq<RawArticle>, keywords: seq<string>)
    ensures ArticlesOf(ScoreAll(articles, keywords)) == articles
  {
    if articles != [] {
      assert ScoreAll(articles, keywords)[1..] == ScoreAll(articles[1..], keywords);
      ArticlesOfScoreAll(articles[1..], keywords);
    }
  }

  /** Highest score first. */
  predicate Descending(s: seq<ScoredArticle>) {
    forall i, j :: 0 <= i < j < |s| ==> s[i].score >= s[j].score
  }

  /** The articles of score k, in their order in s: the run of score k. */
  function WithScore(s: seq<ScoredArticle>, k: nat): seq<ScoredArticle> {
    if s == [] then [] else (if s[0].score == k then [s[0]] else []) + WithScore(s[1..], k)
  }

  lemma {:induction false} WithScoreMember(s: seq<ScoredArticle>, k: nat, x: ScoredArticle)
    requires x in WithScore(s, k)
    ensures x in s && x.score == k
  {
    if !(s[0].score == k && x == s[0]) {
      WithScoreMember(s[1..], k, x);
    }
  }

  lemma {:induction false} WithScoreNone(s: seq<ScoredArticle>, k: nat)
    requires forall i :: 0 <= i < |s| ==> s[i].score != k
    ensures WithScore(s, k) == []
  {
    if s != [] {
      WithScoreNone(s[1..], k);
    }
  }

  lemma WithScoreHead(s: seq<ScoredArticle>)
    requires s != []
    ensures WithScore(s, s[0].score) != []
  {
  }

  lemma {:induction false} WithScoreAppend(a: seq<ScoredArticle>, b: seq<ScoredArticle>, k: nat)
    ensures WithScore(a + b, k) == WithScore(a, k) + WithScore(b, k)
  {
    if a != [] {
      var head := if a[0].score == k then [a[0]] else [];
      assert (a + b)[0] == a[0];
      assert (a + b)[1..] == a[1..] + b;
      WithScoreAppend(a[1..], b, k);
      calc {
        WithScore(a + b, k);
        head + WithScore(a[1..] + b, k);
        head + (WithScore(a[1..], k) + WithScore(b, k));
        (head + WithScore(a[1..], k)) + WithScore(b, k);
      }
    } else {
      assert a + b == b;
    }
  }

  lemma WithScoreSnoc(s: seq<ScoredArticle>, k: nat)
    requires s != []
    ensures var n := |s| - 1;
      WithScore(s, k) == WithScore(s[..n], k) + (if s[n].score == k then [s[n]] else [])
  {
    var n := |s| - 1;
    assert s == s[..n] + [s[n]];
    WithScoreAppend(s[..n], [s[n]], k);
    assert [s[n]][1..] == [];
  }

  /**
   * x placed into s just before the first article that scores less than x,
   * which is where the comparator `(b.score || 0) - (a.score || 0)` of a
   * stable sort puts a later element.
   */
  function Insert(s: seq<ScoredArticle>, x: ScoredArticle): (r: seq<ScoredArticle>)
    ensures |r| == |s| + 1
    ensures multiset(r) == multiset(s) + multiset{x}
  {
    if s == [] || s[0].score < x.score then [x] + s
    else
      assert s == [s[0]] + s[1..];
      [s[0]] + Insert(s[1..], x)
  }

  lemma {:induction false} InsertArticles(s: seq<ScoredArticle>, x: ScoredArticle)
    ensures multiset(ArticlesOf(Insert(s, x))) == multiset(ArticlesOf(s)) + multiset{x.article}
  {
    if s != [] && s[0].score >= x.score {
      InsertArticles(s[1..], x);
    }
  }

  /** Every article of Insert(s, x) scores at most s[0] when x does. */
  lemma InsertBelowHead(s: seq<ScoredArticle>, x: ScoredArticle)
    requires Descending(s) && s != [] && x.score <= s[0].score
    ensures forall j :: 0 <= j < |Insert(s[1..], x)| ==> Insert(s[1..], x)[j].score <= s[0].score
  {
    var rest := Insert(s[1..], x);
    forall j | 0 <= j < |rest|
      ensures rest[j].score <= s[0].score
    {
      var y := rest[j];
      assert y in multiset(rest);
      if y != x {
        assert y in multiset(s[1..]);
        var m :| 0 <= m < |s[1..]| && s[1..][m] == y;
        assert s[1..][m] == s[m + 1];
      }
    }
  }

  lemma {:induction false} InsertDescending(s: seq<ScoredArticle>, x: ScoredArticle)
    requires Descending(s)
    ensures Descending(Insert(s, x))
  {
    var r := Insert(s, x);
    if s == [] || s[0].score < x.score {
      forall i, j | 0 <= i < j < |r|
        ensures r[i].score >= r[j].score
      {
        if i == 0 {
          assert r[j] == s[j - 1];
        } else {
          assert r[i] == s[i - 1] && r[j] == s[j - 1];
        }
      }
    } else {
      var rest := Insert(s[1..], x);
      InsertDescending(s[1..], x);
      InsertBelowHead(s, x);
      forall i, j | 0 <= i < j < |r|
        ensures r[i].score >= r[j].score
      {
        if i == 0 {
          assert r[j] == rest[j - 1];
        } else {
          assert r[i] == rest[i - 1] && r[j] == rest[j - 1];
        }
      }
    }
  }

  /** Inserting x adds it at the end of its run and changes no other run. */
  lemma {:induction false} InsertRuns(s: seq<ScoredArticle>, x: ScoredArticle, k: nat)
    requires Descending(s)
    ensures WithScore(Insert(s, x), k) == WithScore(s, k) + (if x.score == k then [x] else [])
  {
    if s == [] || s[0].score < x.score {
      if s != [] {
        HeadIsMaximum(s);
      }
      FrontRuns(s, x, k);
    } else {
      InsertRuns(s[1..], x, k);
      LaterRuns(s, x, k);
    }
  }

  lemma HeadIsMaximum(s: seq<ScoredArticle>)
    requires Descending(s) && s != []
    ensures forall i :: 0 <= i < |s| ==> s[i].score <= s[0].score
  {
  }

  /** x in front of articles that all score less than it. */
  lemma FrontRuns(s: seq<ScoredArticle>, x: ScoredArticle, k: nat)
    requires forall i :: 0 <= i < |s| ==> s[i].score < x.score
    ensures WithScore([x] + s, k) == WithScore(s, k) + (if x.score == k then [x] else [])
  {
    assert ([x] + s)[1..] == s;
    if x.score == k {
      WithScoreNone(s, k);
    }
  }

  /** x inserted after the head of s. */
  lemma LaterRuns(s: seq<ScoredArticle>, x: ScoredArticle, k: nat)
    requires s != [] && x.score <= s[0].score
    requires WithScore(Insert(s[1..], x), k) == WithScore(s[1..], k) + (if x.score == k then [x] else [])
    ensures WithScore(Insert(s, x), k) == WithScore(s, k) + (if x.score == k then [x] else [])
  {
    var rest := Insert(s[1..], x);
    var r := Insert(s, x);
    var here := if x.score == k then [x] else [];
    var head := if s[0].score == k then [s[0]] else [];
    assert r == [s[0]] + rest;
    assert r[1..] == rest;
    calc {
      WithScore(r, k);
      head + WithScore(rest, k);
      head + (WithScore(s[1..], k) + here);
      (head + WithScore(s[1..], k)) + here;
    }
  }

  /** The stable sort of the scored list, highest score first: each article inserted in input order. */
  function SortByScore(s: seq<ScoredArticle>): (r: seq<ScoredArticle>)
    ensures |r| == |s|
    ensures Descending(r)
    ensures multiset(r) == multiset(s)
    ensures multiset(ArticlesOf(r)) == multiset(ArticlesOf(s))
    ensures forall k :: WithScore(r, k) == WithScore(s, k)
  {
    if s == [] then []
    else
      var n := |s| - 1;
      var sorted := SortByScore(s[..n]);
      InsertDescending(sorted, s[n]);
      SortStepPermutes(s, sorted);
      SortStepRuns(s, sorted);
      Insert(sorted, s[n])
  }

  /** Inserting the last element into a permutation of the rest gives a permutation of the whole. */
  lemma SortStepPermutes(s: seq<ScoredArticle>, sorted: seq<ScoredArticle>)
    requires s != []
    requires multiset(sorted) == multiset(s[..|s| - 1])
    requires multiset(ArticlesOf(sorted)) == multiset(ArticlesOf(s[..|s| - 1]))
    ensures multiset(Insert(sorted, s[|s| - 1])) == multiset(s)
    ensures multiset(ArticlesOf(Insert(sorted, s[|s| - 1]))) == multiset(ArticlesOf(s))
  {
    var n := |s| - 1;
    var x := s[n];
    assert s == s[..n] + [x];
    calc {
      multiset(Insert(sorted, x));
      multiset(sorted) + multiset{x};
      multiset(s[..n]) + multiset([x]);
      multiset(s[..n] + [x]);
    }
    InsertArticles(sorted, x);
    ArticlesOfAppend(s[..n], [x]);
    assert ArticlesOf([x]) == [x.article];
    calc {
      multiset(ArticlesOf(Insert(sorted, x)));
      multiset(ArticlesOf(sorted)) + multiset{x.article};
      multiset(ArticlesOf(s[..n])) + multiset(ArticlesOf([x]));
      multiset(ArticlesOf(s[..n]) + ArticlesOf([x]));
    }
  }

  /** Inserting the last element into a sorted list with the runs of the rest gives the runs of the whole. */
  lemma SortStepRuns(s: seq<ScoredArticle>, sorted: seq<ScoredArticle>)
    requires s != [] && Descending(sorted)
    requires forall k :: WithScore(sorted, k) == WithScore(s[..|s| - 1], k)
    ensures forall k :: WithScore(Insert(sorted, s[|s| - 1]), k) == WithScore(s, k)
  {
    var n := |s| - 1;
    forall k
      ensures WithScore(Insert(sorted, s[n]), k) == WithScore(s, k)
    {
      InsertRuns(sorted, s[n], k);
      WithScoreSnoc(s, k);
    }
  }

  /** Two descending lists with the same runs of equal-score articles are equal. */
  lemma {:induction false} RunsDetermineDescending(t: seq<ScoredArticle>, u: seq<ScoredArticle>)
    requires Descending(t) && Descending(u)
    requires forall k :: WithScore(t, k) == WithScore(u, k)
    ensures t == u
    decreases |t|
  {
    if t == [] && u == [] {
    } else if t == [] {
      WithScoreHead(u);
      assert false;
    } else if u == [] {
      WithScoreHead(t);
      assert false;
    } else {
      var a, b := t[0].score, u[0].score;
      assert u[0] in WithScore(t, b) by {
        assert u[0] in WithScore(u, b);
      }
      WithScoreMember(t, b, u[0]);
      assert t[0] in WithScore(u, a) by {
        assert t[0] in WithScore(t, a);
      }
      WithScoreMember(u, a, t[0]);
      assert a == b;
      assert WithScore(t, a)[0] == t[0];
      assert WithScore(u, a)[0] == u[0];
      assert t[0] == u[0];
      forall k
        ensures WithScore(t[1..], k) == WithScore(u[1..], k)
      {
        var head := if a == k then [t[0]] else [];
        assert WithScore(t, k) == head + WithScore(t[1..], k);
        assert WithScore(u, k) == head + WithScore(u[1..], k);
        assert WithScore(t[1..], k) == (head + WithScore(t[1..], k))[|head|..];
        assert WithScore(u[1..], k) == (head + WithScore(u[1..], k))[|head|..];
      }
      RunsDetermineDescending(t[1..], u[1..]);
      assert t == [t[0]] + t[1..];
      assert u == [u[0]] + u[1..];
    }
  }

  /** SortByScore is THE stable descending sort: any descending rearrangement keeping equal-score order is it. */
  lemma StableSortIsUnique(s: seq<ScoredArticle>, t: seq<ScoredArticle>)
    requires Descending(t)
    requires forall k :: WithScore(t, k) == WithScore(s, k)
    ensures t == SortByScore(s)
  {
    RunsDetermineDescending(t, SortByScore(s));
  }

  /** Sorting a list that is already highest-first changes nothing (so sorting is idempotent). */
  lemma SortKeepsDescending(s: seq<ScoredArticle>)
    requires Descending(s)
    ensures SortByScore(s) == s
  {
    StableSortIsUnique(s, s);
  }

  // ------------------------------------------------------------ top level

  /** `scoreAndSortArticles(articles, keywords)`. */
  function ScoreAndSort(articles: seq<RawArticle>, keywords: seq<string>): (r: seq<ScoredArticle>)
    ensures |r| == |articles|
    ensures multiset(ArticlesOf(r)) == multiset(articles)
    ensures forall e :: e in r ==> e.score == Score(e.article, keywords)
    ensures Descending(r)
    ensures forall k :: WithScore(r, k) == WithScore(ScoreAll(articles, keywords), k)
  {
    var scored := ScoreAll(articles, keywords);
    ArticlesOfScoreAll(articles, keywords);
    var r := SortByScore(scored);
    assert forall e :: e in r ==> e in multiset(scored);
    r
  }

  /** With no keywords every score is 0 and the input order is kept. */
  lemma NoKeywordsKeepsOrder(articles: seq<RawArticle>)
    ensures ScoreAndSort(articles, []) == seq(|articles|, i requires 0 <= i < |articles| => ScoredArticle(articles[i], 0))
  {
    var scored := ScoreAll(articles, []);
    assert scored == seq(|articles|, i requires 0 <= i < |articles| => ScoredArticle(articles[i], 0));
    SortKeepsDescending(scored);
  }
}
