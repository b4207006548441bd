/** The pairwise match loop: inside each search-volume group every keyword is
    scored against every keyword of the group whose string differs, and the
    ones at or above the threshold are appended to `results[keyword]`. */
module Matching {

  /** `fuzz.token_sort_ratio`, a foreign library function, left uninterpreted. */
  type Scorer = (string, string) -> int

  /** `results.get(k, [])`. */
  function Lookup(results: map<string, seq<string>>, k: string): seq<string> {
    if k in results then results[k] else []
  }

  /** `acc` extended by the appends the inner loop for keyword `k` makes over
      the first `j` positions of `others`: the elements that differ from `k`
      as strings and score at least `t` against it, in order. */
  function AppendSimilar(acc: seq<string>, others: seq<string>, j: nat, k: string,
                         score: Scorer, t: int): seq<string>
    requires j <= |others|
  {
    if j == 0 then acc
    else
      AppendSimilar(acc, others, j - 1, k, score, t)
        + (if others[j - 1] != k && score(k, others[j - 1]) >= t then [others[j - 1]] else [])
  }

  /** `acc` extended by what the loop over group `g` appends for `k` once it
      has visited the first `i` positions: a full inner pass for every
      position holding `k`. */
  function AppendGroup(acc: seq<string>, g: seq<string>, i: nat, k: string,
                       score: Scorer, t: int): seq<string>
    requires i <= |g|
  {
    if i == 0 then acc
    else
      var prev := AppendGroup(acc, g, i - 1, k, score, t);
      if g[i - 1] == k then AppendSimilar(prev, g, |g|, k, score, t) else prev
  }

  /** Every key of `order` is a key of `groups`, as with `groups.items()`. */
  predicate Keyed(order: seq<string>, groups: map<string, seq<string>>) {
    forall v :: v in order ==> v in groups
  }

  /** `results.get(k, [])` once the first `n` groups, in key order, are done. */
  function MatchesUpTo(order: seq<string>, groups: map<string, seq<string>>, n: nat,
                       k: string, score: Scorer, t: int): seq<string>
    requires Keyed(order, groups) && n <= |order|
  {
    if n == 0 then []
    else
      var g := groups[order[n - 1]];
      AppendGroup(MatchesUpTo(order, groups, n - 1, k, score, t), g, |g|, k, score, t)
  }

  /** The final `results.get(k, [])`. */
  function Matches(order: seq<string>, groups: map<string, seq<string>>,
                   k: string, score: Scorer, t: int): seq<string>
    requires Keyed(order, groups)
  {
    MatchesUpTo(order, groups, |order|, k, score, t)
  }

  /** Lines 112-131: the match loop over the groups in key order. `results`
      holds a key only once something was appended for it, and then holds
      exactly `Matches` for it. */
  method FindMatches(order: seq<string>, groups: map<string, seq<string>>,
                     score: Scorer, simScore: int)
    returns (results: map<string, seq<string>>)
    requires Keyed(order, groups)
    ensures forall k :: Lookup(results, k) == Matches(order, groups, k, score, simScore)
    ensures forall k :: k in results ==> results[k] != []
  {
    results := map[];
    for n := 0 to |order|
      invariant forall k :: Lookup(results, k) == MatchesUpTo(order, groups, n, k, score, simScore)
      invariant forall k :: k in results ==> results[k] != []
    {
      results := MatchGroup(groups[order[n]], results, score, simScore);
    }
  }

  /** Lines 113-131, the body of the loop for one group `keywords`: each
      position of the group runs the inner loop for its keyword. */
  method MatchGroup(keywords: seq<string>, results0: map<string, seq<string>>,
                    score: Scorer, simScore: int)
    returns (results: map<string, seq<string>>)
    requires forall k :: k in results0 ==> results0[k] != []
    ensures forall k :: Lookup(results, k)
                        == AppendGroup(Lookup(results0, k), keywords, |keywords|, k, score, simScore)
    ensures forall k :: k in results ==> results[k] != []
  {
    results := results0;
    for i := 0 to |keywords|
      invariant forall k :: Lookup(results, k)
                          == AppendGroup(Lookup(results0, k), keywords, i, k, score, simScore)
      invariant forall k :: k in results ==> results[k] != []
    {
      results := MatchKeyword(keywords, keywords[i], results, score, simScore);
    }
  }

  /** Lines 116-131, the inner loop for one `keyword` of the group: the
      keywords of the group whose string differs and whose score reaches
      `simScore` are appended to `results[keyword]`, the list being created at
      the first append; no other entry changes. */
  method MatchKeyword(keywords: seq<string>, keyword: string, results0: map<string, seq<string>>,
                      score: Scorer, simScore: int)
    returns (results: map<string, seq<string>>)
    requires forall k :: k in results0 ==> results0[k] != []
    ensures forall k :: k != keyword ==> Lookup(results, k) == Lookup(results0, k)
    ensures Lookup(results, keyword)
            == AppendSimilar(Lookup(results0, keyword), keywords, |keywords|, keyword, score, simScore)
    ensures forall k :: k in results ==> results[k] != []
  {
    results := results0;
    ghost var acc := Lookup(results0, keyword);
    for j := 0 to |keywords|
      invariant forall k :: k != keyword ==> Lookup(results, k) == Lookup(results0, k)
      invariant Lookup(results, keyword) == AppendSimilar(acc, keywords, j, keyword, score, simScore)
      invariant forall k :: k in results ==> results[k] != []
    {
      var other := keywords[j];
      if keyword == other {
        continue;
      }
      var s := score(keyword, other);
      if s >= simScore {
        if keyword !in results {
          results := results[keyword := []];
        }
        results := results[keyword := results[keyword] + [other]];
      }
    }
  }

  // ---------------------------------------------------------------------
  // What the appends amount to

  /** Whether the inner loop appends `x` when it meets it while scanning for `k`. */
  predicate Kept(k: string, x: string, score: Scorer, t: int) {
    x != k && score(k, x) >= t
  }

  /** The number of positions among the first `j` of `s` that hold `x`. */
  function Occurrences(s: seq<string>, j: nat, x: string): nat
    requires j <= |s|
  {
    if j == 0 then 0 else Occurrences(s, j - 1, x) + (if s[j - 1] == x then 1 else 0)
  }

  lemma {:induction false} OccurrencesPositive(s: seq<string>, j: nat, x: string)
    requires j <= |s|
    ensures Occurrences(s, j, x) > 0 <==> x in s[..j]
  {
    if j > 0 {
      OccurrencesPositive(s, j - 1, x);
      assert s[..j] == s[..j - 1] + [s[j - 1]];
    }
  }

  /** The number of (position of `k`, position of `x`) pairs inside the first
      `n` groups: the pairs the loops visit. */
  function PairCount(order: seq<string>, groups: map<string, seq<string>>, n: nat,
                     k: string, x: string): nat
    requires Keyed(order, groups) && n <= |order|
  {
    if n == 0 then 0
    else
      var g := groups[order[n - 1]];
      PairCount(order, groups, n - 1, k, x) + Occurrences(g, |g|, k) * Occurrences(g, |g|, x)
  }

  /** Some group among the first `n` holds both `k` and `x`. */
  predicate ShareGroup(order: seq<string>, groups: map<string, seq<string>>, n: nat,
                       k: string, x: string)
    requires Keyed(order, groups) && n <= |order|
  {
    exists m :: 0 <= m < n && k in groups[order[m]] && x in groups[order[m]]
  }

  /** One step of the inner loop: position `j - 1` is appended exactly when it
      is kept. */
  lemma AppendSimilarStep(acc: seq<string>, others: seq<string>, j: nat, k: string,
                          score: Scorer, t: int)
    requires 0 < j <= |others|
    ensures AppendSimilar(acc, others, j, k, score, t)
            == if Kept(k, others[j - 1], score, t)
               then AppendSimilar(acc, others, j - 1, k, score, t) + [others[j - 1]]
               else AppendSimilar(acc, others, j - 1, k, score, t)
  {
    var prev := AppendSimilar(acc, others, j - 1, k, score, t);
    assert prev + [] == prev;
  }

  /** Extending a sequence does not change the count in its first `j`
      positions. */
  lemma {:induction false} OccurrencesPrefix(s: seq<string>, u: seq<string>, j: nat, x: string)
    requires j <= |s|
    ensures Occurrences(s + u, j, x) == Occurrences(s, j, x)
  {
    if j > 0 {
      OccurrencesPrefix(s, u, j - 1, x);
      assert (s + u)[j - 1] == s[j - 1];
    }
  }

  /** Appending `y` adds one occurrence of `y` and none of anything else. */
  lemma OccurrencesSnoc(s: seq<string>, y: string, x: string)
    ensures Occurrences(s + [y], |s + [y]|, x) == Occurrences(s, |s|, x) + (if y == x then 1 else 0)
  {
    OccurrencesPrefix(s, [y], |s|, x);
    assert (s + [y])[|s|] == y;
  }

  lemma {:induction false} AppendSimilarCount(acc: seq<string>, others: seq<string>, j: nat,
                                              k: string, x: string, score: Scorer, t: int)
    requires j <= |others|
    ensures var r := AppendSimilar(acc, others, j, k, score, t);
            Occurrences(r, |r|, x)
            == Occurrences(acc, |acc|, x) + (if Kept(k, x, score, t) then Occurrences(others, j, x) else 0)
  {
    if j > 0 {
      var y := others[j - 1];
      var prev := AppendSimilar(acc, others, j - 1, k, score, t);
      AppendSimilarCount(acc, others, j - 1, k, x, score, t);
      AppendSimilarStep(acc, others, j, k, score, t);
      if Kept(k, y, score, t) {
        OccurrencesSnoc(prev, y, x);
      }
    }
  }

  lemma MulSucc(c: nat, p: nat)
    ensures (c + 1) * p == c * p + p
  {
  }

  lemma {:induction false} AppendGroupCount(acc: seq<string>, g: seq<string>, i: nat,
                                            k: string, x: string, score: Scorer, t: int)
    requires i <= |g|
    ensures var r := AppendGroup(acc, g, i, k, score, t);
            Occurrences(r, |r|, x)
            == Occurrences(acc, |acc|, x)
               + Occurrences(g, i, k) * (if Kept(k, x, score, t) then Occurrences(g, |g|, x) else 0)
  {
    if i > 0 {
      var prev := AppendGroup(acc, g, i - 1, k, score, t);
      var per := if Kept(k, x, score, t) then Occurrences(g, |g|, x) else 0;
      AppendGroupCount(acc, g, i - 1, k, x, score, t);
      if g[i - 1] == k {
        AppendSimilarCount(prev, g, |g|, k, x, score, t);
        var c := Occurrences(g, i - 1, k);
        assert Occurrences(g, i, k) == c + 1;
        MulSucc(c, per);
      }
    }
  }

  lemma {:induction false} MatchesUpToCount(order: seq<string>, groups: map<string, seq<string>>,
                                            n: nat, k: string, x: string, score: Scorer, t: int)
    requires Keyed(order, groups) && n <= |order|
    ensures var r := MatchesUpTo(order, groups, n, k, score, t);
            Occurrences(r, |r|, x)
            == if Kept(k, x, score, t) then PairCount(order, groups, n, k, x) else 0
  {
    if n > 0 {
      var g := groups[order[n - 1]];
      MatchesUpToCount(order, groups, n - 1, k, x, score, t);
      AppendGroupCount(MatchesUpTo(order, groups, n - 1, k, score, t), g, |g|, k, x, score, t);
    }
  }

  /** Completeness with multiplicity: `results[k]` holds `x` exactly once per
      pair of positions, in one group, holding `k` and `x`, when `x` is kept
      against `k`, and never otherwise; nothing is deduplicated. */
  lemma MatchesCount(order: seq<string>, groups: map<string, seq<string>>,
                     k: string, x: string, score: Scorer, t: int)
    requires Keyed(order, groups)
    ensures var r := Matches(order, groups, k, score, t);
            Occurrences(r, |r|, x)
            == if Kept(k, x, score, t) then PairCount(order, groups, |order|, k, x) else 0
  {
    MatchesUpToCount(order, groups, |order|, k, x, score, t);
  }

  lemma {:induction false} PairCountPositive(order: seq<string>, groups: map<string, seq<string>>,
                                             n: nat, k: string, x: string)
    requires Keyed(order, groups) && n <= |order|
    ensures PairCount(order, groups, n, k, x) > 0 <==> ShareGroup(order, groups, n, k, x)
  {
    if n > 0 {
      var g := groups[order[n - 1]];
      PairCountPositive(order, groups, n - 1, k, x);
      OccurrencesPositive(g, |g|, k);
      OccurrencesPositive(g, |g|, x);
      assert g[..|g|] == g;
      var a, b := Occurrences(g, |g|, k), Occurrences(g, |g|, x);
      assert a * b > 0 <==> a > 0 && b > 0 by {
        if a > 0 && b > 0 {
          assert a * b >= b;
        }
      }
      if ShareGroup(order, groups, n, k, x) && !ShareGroup(order, groups, n - 1, k, x) {
        var m :| 0 <= m < n && k in groups[order[m]] && x in groups[order[m]];
        assert m == n - 1;
      }
    }
  }

  /** Match soundness and completeness: `x` is among the matches of `k`
      exactly when `x` differs from `k`, scores at least `t` against it, and
      the two share a search-volume group. */
  lemma MatchesMember(order: seq<string>, groups: map<string, seq<string>>,
                      k: string, x: string, score: Scorer, t: int)
    requires Keyed(order, groups)
    ensures x in Matches(order, groups, k, score, t)
            <==> Kept(k, x, score, t) && ShareGroup(order, groups, |order|, k, x)
  {
    var r := Matches(order, groups, k, score, t);
    MatchesCount(order, groups, k, x, score, t);
    PairCountPositive(order, groups, |order|, k, x);
    OccurrencesPositive(r, |r|, x);
    assert r[..|r|] == r;
  }

  /** No self-match: a keyword is never among its own matches, however often
      its string occurs in a group. */
  lemma NoSelfMatch(order: seq<string>, groups: map<string, seq<string>>,
                    k: string, score: Scorer, t: int)
    requires Keyed(order, groups)
    ensures k !in Matches(order, groups, k, score, t)
  {
    MatchesMember(order, groups, k, k, score, t);
  }

  /** With a scorer that is symmetric, matching is symmetric too. */
  lemma MatchesSymmetric(order: seq<string>, groups: map<string, seq<string>>,
                         k: string, x: string, score: Scorer, t: int)
    requires Keyed(order, groups)
    requires forall a, b :: score(a, b) == score(b, a)
    requires x in Matches(order, groups, k, score, t)
    ensures k in Matches(order, groups, x, score, t)
  {
    MatchesMember(order, groups, k, x, score, t);
    MatchesMember(order, groups, x, k, score, t);
  }

  // ---------------------------------------------------------------------
  // Threshold monotonicity

  /** `a` can be obtained from `b` by deleting elements. */
  predicate IsSubsequence(a: seq<string>, b: seq<string>)
    decreases |b|
  {
    a == []
    || (b != []
        && ((a[|a| - 1] == b[|b| - 1] && IsSubsequence(a[..|a| - 1], b[..|b| - 1]))
            || IsSubsequence(a, b[..|b| - 1])))
  }

  lemma {:induction false} SubsequenceSnoc(a: seq<string>, b: seq<string>, y: string, keep: bool)
    requires IsSubsequence(a, b)
    ensures IsSubsequence(if keep then a + [y] else a, b + [y])
  {
    assert (b + [y])[..|b|] == b;
    if keep {
      assert (a + [y])[..|a|] == a;
    }
  }

  lemma {:induction false} AppendSimilarRaise(a: seq<string>, b: seq<string>, others: seq<string>,
                                              j: nat, k: string, score: Scorer, t1: int, t2: int)
    requires j <= |others| && t1 <= t2 && IsSubsequence(a, b)
    ensures IsSubsequence(AppendSimilar(a, others, j, k, score, t2),
                          AppendSimilar(b, others, j, k, score, t1))
  {
    if j > 0 {
      AppendSimilarRaise(a, b, others, j - 1, k, score, t1, t2);
      AppendSimilarStep(a, others, j, k, score, t2);
      AppendSimilarStep(b, others, j, k, score, t1);
      var y := others[j - 1];
      if Kept(k, y, score, t1) {
        SubsequenceSnoc(AppendSimilar(a, others, j - 1, k, score, t2),
                        AppendSimilar(b, others, j - 1, k, score, t1), y, Kept(k, y, score, t2));
      }
    }
  }

  lemma {:induction false} AppendGroupRaise(a: seq<string>, b: seq<string>, g: seq<string>,
                                            i: nat, k: string, score: Scorer, t1: int, t2: int)
    requires i <= |g| && t1 <= t2 && IsSubsequence(a, b)
    ensures IsSubsequence(AppendGroup(a, g, i, k, score, t2), AppendGroup(b, g, i, k, score, t1))
  {
    if i > 0 {
      AppendGroupRaise(a, b, g, i - 1, k, score, t1, t2);
      if g[i - 1] == k {
        AppendSimilarRaise(AppendGroup(a, g, i - 1, k, score, t2),
                           AppendGroup(b, g, i - 1, k, score, t1), g, |g|, k, score, t1, t2);
      }
    }
  }

  lemma {:induction false} MatchesUpToRaise(order: seq<string>, groups: map<string, seq<string>>,
                                            n: nat, k: string, score: Scorer, t1: int, t2: int)
    requires Keyed(order, groups) && n <= |order| && t1 <= t2
    ensures IsSubsequence(MatchesUpTo(order, groups, n, k, score, t2),
                          MatchesUpTo(order, groups, n, k, score, t1))
  {
    if n > 0 {
      MatchesUpToRaise(order, groups, n - 1, k, score, t1, t2);
      var g := groups[order[n - 1]];
      AppendGroupRaise(MatchesUpTo(order, groups, n - 1, k, score, t2),
                       MatchesUpTo(order, groups, n - 1, k, score, t1), g, |g|, k, score, t1, t2);
    }
  }

  /** Threshold monotonicity: raising the threshold leaves every keyword a
      subsequence of the match list it had under the lower threshold. */
  lemma ThresholdMonotone(order: seq<string>, groups: map<string, seq<string>>,
                          k: string, score: Scorer, t1: int, t2: int)
    requires Keyed(order, groups) && t1 <= t2
    ensures IsSubsequence(Matches(order, groups, k, score, t2), Matches(order, groups, k, score, t1))
  {
    MatchesUpToRaise(order, groups, |order|, k, score, t1, t2);
  }
}
