/**
 * The integer core of the suggester: survivor counts behind the expected
 * next-set size, and the heuristic sort with its shortlist cut.
 */
module Suggest {
  import opened Words
  import opened Constraints
  import opened Filtering
  import opened Diff
  import opened Scorer
  import opened Sorting

  /** How many top-scoring candidates get the full expected-size evaluation. */
  const ShortlistSize: nat := 20

  /** The inner count: how many pool words satisfy `c`. */
  method CountSurvivors(c: Constraints, ws: seq<Candidate>) returns (n: nat)
    requires Valid(c) && IsPool(ws)
    ensures n == |Kept(c, ws)|
  {
    n := 0;
    for j := 0 to |ws|
      invariant IsPool(ws[..j])
      invariant n == |Kept(c, ws[..j])|
    {
      assert ws[j] in ws;
      assert ws[..j + 1] == ws[..j] + [ws[j]];
      KeptSnoc(c, ws[..j], ws[j]);
      if Satisfies(c, ws[j].word) {
        n := n + 1;
      }
    }
    assert ws[..|ws|] == ws;
  }

  /** How many pool words satisfy the diff of `guess` against `answer`. */
  function SurvivorsOf(pool: seq<Candidate>, guess: string, answer: string): (n: nat)
    requires IsPool(pool) && IsWord(guess) && IsWord(answer)
    ensures n <= |pool|
  {
    |Kept(DiffOf(guess, answer), pool)|
  }

  /**
   * Survivor counts, one per hypothetical answer among the first `n` pool
   * words: entry `k` counts the words of `pool` that satisfy the diff of
   * `guess` against the `k`-th pool word.
   */
  function SurvivorsPerAnswer(pool: seq<Candidate>, guess: string, n: nat): (r: seq<nat>)
    requires IsPool(pool) && IsWord(guess) && n <= |pool|
    ensures |r| == n
  {
    seq(n, k requires 0 <= k < n => PoolAt(pool, k); SurvivorsOf(pool, guess, pool[k].word))
  }

  /** Extending the hypotheses by the next pool word appends its count. */
  lemma SurvivorsPerAnswerSnoc(pool: seq<Candidate>, guess: string, n: nat)
    requires IsPool(pool) && IsWord(guess) && n < |pool|
    ensures IsWord(pool[n].word)
    ensures SurvivorsPerAnswer(pool, guess, n + 1)
            == SurvivorsPerAnswer(pool, guess, n) + [SurvivorsOf(pool, guess, pool[n].word)]
  {
  }

  /** Every count is between 1 and the pool size: the answer always survives its own diff. */
  lemma SurvivorsPerAnswerBounds(pool: seq<Candidate>, guess: string, n: nat, k: nat)
    requires IsPool(pool) && IsWord(guess) && k < n <= |pool|
    ensures 1 <= SurvivorsPerAnswer(pool, guess, n)[k] <= |pool|
  {
    PoolAt(pool, k);
    DiffAdmitsAnswer(guess, pool[k].word);
    KeptMembers(DiffOf(guess, pool[k].word), pool);
    assert pool[k] in pool;
  }

  /** A sum of entries that all lie in [lo, hi] lies in [|s|*lo, |s|*hi]. */
  lemma {:induction false} SumBounds(s: seq<nat>, lo: nat, hi: nat)
    requires forall k :: 0 <= k < |s| ==> lo <= s[k] <= hi
    ensures |s| * lo <= Sum(s) <= |s| * hi
  {
    if |s| > 0 {
      var init := s[..|s| - 1];
      SumBounds(init, lo, hi);
      assert |s| * lo == |init| * lo + lo;
      assert |s| * hi == |init| * hi + hi;
    }
  }

  /** With the whole pool as hypotheses, every count and the total are bounded. */
  lemma SurvivorsPerAnswerRange(ws: seq<Candidate>, guess: string)
    requires IsPool(ws) && IsWord(guess)
    ensures forall k :: 0 <= k < |ws| ==> 1 <= SurvivorsPerAnswer(ws, guess, |ws|)[k] <= |ws|
    ensures |ws| <= Sum(SurvivorsPerAnswer(ws, guess, |ws|)) <= |ws| * |ws|
  {
    var counts := SurvivorsPerAnswer(ws, guess, |ws|);
    forall k | 0 <= k < |ws|
      ensures 1 <= counts[k] <= |ws|
    {
      SurvivorsPerAnswerBounds(ws, guess, |ws|, k);
    }
    SumBounds(counts, 1, |ws|);
  }

  /**
   * The survivor counts of `guess` summed over every hypothetical answer in
   * the pool: the numerator of the expected next-set size.
   */
  function SurvivorTotal(pool: seq<Candidate>, guess: string): (t: nat)
    requires IsPool(pool) && IsWord(guess)
    ensures |pool| <= t <= |pool| * |pool|
  {
    SurvivorsPerAnswerRange(pool, guess);
    Sum(SurvivorsPerAnswer(pool, guess, |pool|))
  }

  /**
   * One round of the estimator: reset the scratch record, apply the diff of
   * `guess` against the `i`-th candidate, count the survivors, and append the
   * count to those of the earlier rounds.
   */
  method SurvivorsRound(scratch: Constraints, ws: seq<Candidate>, guess: string, i: nat, counts: seq<nat>, total: nat)
    returns (c: Constraints, counts': seq<nat>, total': nat)
    requires IsPool(ws) && IsWord(guess) && i < |ws|
    requires counts == SurvivorsPerAnswer(ws, guess, i) && total == Sum(counts)
    ensures counts' == SurvivorsPerAnswer(ws, guess, i + 1) && total' == Sum(counts')
  {
    PoolAt(ws, i);
    c := Clear(scratch);
    c := ApplyDiff(c, guess, ws[i].word);
    var n := CountSurvivors(c, ws);
    SurvivorsPerAnswerSnoc(ws, guess, i);
    assert (counts + [n])[..|counts|] == counts;
    counts', total' := counts + [n], total + n;
  }

  /**
   * For each candidate taken as the hypothetical answer, the number of pool
   * words that survive the diff of `guess` against it. wordle.go's
   * expectedNextSetSize averages these counts; `total` is their sum, the
   * mean's numerator.
   */
  method SurvivorCounts(ws: seq<Candidate>, guess: string) returns (counts: seq<nat>, total: nat)
    requires IsPool(ws) && IsWord(guess)
    ensures counts == SurvivorsPerAnswer(ws, guess, |ws|)
    ensures forall i :: 0 <= i < |ws| ==> 1 <= counts[i] <= |ws|
    ensures total == Sum(counts) == SurvivorTotal(ws, guess)
    ensures |ws| <= total <= |ws| * |ws|
  {
    counts, total := [], 0;
    var c := NewConstraints();
    for i := 0 to |ws|
      invariant counts == SurvivorsPerAnswer(ws, guess, i)
      invariant total == Sum(counts)
    {
      c, counts, total := SurvivorsRound(c, ws, guess, i, counts, total);
    }
    SurvivorsPerAnswerRange(ws, guess);
  }

  /**
   * wordle.go's expectedNextSetSize with the mean's numerator in place of the
   * running mean: the survivor counts of `guess` summed over the pool.
   */
  method ExpectedTotal(ws: seq<Candidate>, guess: string) returns (total: nat)
    requires IsPool(ws) && IsWord(guess)
    ensures total == SurvivorTotal(ws, guess)
  {
    var _, t := SurvivorCounts(ws, guess);
    total := t;
  }


  /** A candidate with its heuristic score. */
  datatype Scored = Scored(cand: Candidate, score: int)

  /** The first sort's comparator: a higher score, then a higher frequency, comes first. */
  function Ahead(): (ahead: (Scored, Scored) -> bool)
    ensures StrictOrder(ahead)
    ensures forall a, b :: !ahead(a, b) && !ahead(b, a) <==> a.score == b.score && a.cand.freq == b.cand.freq
  {
    (a: Scored, b: Scored) => a.score > b.score || (a.score == b.score && a.cand.freq > b.cand.freq)
  }


  /** The rank tables of the pool's own letter histogram. */
  function PoolRanks(ws: seq<Candidate>): (rank: seq<seq<int>>)
    requires IsPool(ws)
    ensures IsRankShape(rank)
    ensures IsRankTables(LetterFreqByPosition(ws), rank)
  {
    LetterScoreByPosition(LetterFreqByPosition(ws))
  }

  /** Every candidate paired with its score under the rank tables `rank`. */
  function ScoreAll(ws: seq<Candidate>, rank: seq<seq<int>>): (r: seq<Scored>)
    requires IsPool(ws) && IsRankShape(rank)
    ensures |r| == |ws|
    ensures forall i :: 0 <= i < |ws| ==> r[i].cand == ws[i] && r[i].score == Score(rank, ws[i].word)
  {
    seq(|ws|, i requires 0 <= i < |ws| => assert ws[i] in ws; Scored(ws[i], Score(rank, ws[i].word)))
  }

  /**
   * The pool after the first sort: the same scored candidates, each carrying
   * its own score, ordered so that no candidate is ahead of one placed before it.
   */
  function RankCandidates(ws: seq<Candidate>, rank: seq<seq<int>>): (ranked: seq<Scored>)
    requires IsPool(ws) && IsRankShape(rank)
    ensures multiset(ranked) == multiset(ScoreAll(ws, rank))
    ensures |ranked| == |ws|
    ensures SortedBy(ranked, Ahead())
    ensures CarriesOwnScores(ranked, ws, rank)
    ensures AllWords(ranked)
  {
    var scored := ScoreAll(ws, rank);
    var ranked := SortBy(scored, Ahead());
    forall s | s in ranked
      ensures s in scored
    {
      assert s in multiset(ranked);
    }
    ranked
  }

  /** Every entry is a pool candidate carrying its own in-range score. */
  ghost predicate CarriesOwnScores(ranked: seq<Scored>, ws: seq<Candidate>, rank: seq<seq<int>>)
    requires IsPool(ws) && IsRankShape(rank)
  {
    forall s :: s in ranked ==>
      && s.cand in ws
      && s.score == Score(rank, s.cand.word)
      && 0 <= s.score <= MaxRank * WordLength
  }

  /** Every scored entry carries a five-letter word. */
  predicate AllWords(ss: seq<Scored>) {
    forall i :: 0 <= i < |ss| ==> IsWord(ss[i].cand.word)
  }

  /** The candidates of a ranked pool, in order. */
  function Candidates(ranked: seq<Scored>): (cs: seq<Candidate>)
    requires AllWords(ranked)
    ensures |cs| == |ranked|
    ensures forall i :: 0 <= i < |ranked| ==> cs[i] == ranked[i].cand
    ensures IsPool(cs)
  {
    var cs := seq(|ranked|, i requires 0 <= i < |ranked| => ranked[i].cand);
    assert IsPool(cs) by {
      forall w | w in cs
        ensures IsWord(w.word)
      {
        var i :| 0 <= i < |cs| && cs[i] == w;
        assert ranked[i] in ranked;
      }
    }
    cs
  }

  /** The top `n` of a ranked pool; none of the rest is ahead of any of them. */
  function Shortlist(ranked: seq<Scored>, n: nat): (top: seq<Scored>)
    requires SortedBy(ranked, Ahead())
    ensures |top| == if |ranked| < n then |ranked| else n
    ensures top == ranked[..|top|]
    ensures forall s :: s in top ==> s in ranked
    ensures AllWords(ranked) ==> AllWords(top)
    ensures forall i, j :: 0 <= i < |top| <= j < |ranked| ==> !Ahead()(ranked[j], top[i])
  {
    if |ranked| < n then ranked else ranked[..n]
  }

  /** For each shortlisted word, the survivor counts summed over every hypothetical answer. */
  method ShortlistTotals(pool: seq<Candidate>, top: seq<Scored>) returns (totals: seq<nat>)
    requires IsPool(pool) && AllWords(top)
    ensures |totals| == |top|
    ensures forall k :: 0 <= k < |top| ==> totals[k] == SurvivorTotal(pool, top[k].cand.word)
    ensures forall k :: 0 <= k < |top| ==> |pool| <= totals[k] <= |pool| * |pool|
  {
    totals := [];
    for k := 0 to |top|
      invariant |totals| == k
      invariant forall m :: 0 <= m < k ==> totals[m] == SurvivorTotal(pool, top[m].cand.word)
    {
      var total := ExpectedTotal(pool, top[k].cand.word);
      ghost var before := totals;
      totals := totals + [total];
      forall m | 0 <= m <= k
        ensures totals[m] == SurvivorTotal(pool, top[m].cand.word)
      {
        if m < k {
          assert totals[m] == before[m];
        }
      }
    }
  }

  /**
   * The integer part of a suggestion pass: rank the pool, cut the shortlist,
   * and for each shortlisted word sum the survivor counts over every
   * hypothetical answer in the pool. The rank tables are any rank tables of
   * the pool's histogram (`PoolRanks` is one), so the pass is stated for
   * whichever tie order the slot sort picks.
   */
  method Suggest(ws: seq<Candidate>, rank: seq<seq<int>>) returns (ranked: seq<Scored>, top: seq<Scored>, totals: seq<nat>)
    requires IsPool(ws)
    requires IsRankShape(rank) && IsRankTables(LetterFreqByPosition(ws), rank)
    ensures multiset(ranked) == multiset(ScoreAll(ws, rank)) && SortedBy(ranked, Ahead())
    ensures top == Shortlist(ranked, ShortlistSize)
    ensures |top| == if |ws| < ShortlistSize then |ws| else ShortlistSize
    ensures AllWords(ranked) && AllWords(top)
    ensures |totals| == |top|
    ensures forall k :: 0 <= k < |top| ==> totals[k] == SurvivorTotal(Candidates(ranked), top[k].cand.word)
    ensures forall k :: 0 <= k < |top| ==> |ws| <= totals[k] <= |ws| * |ws|
  {
    ranked := RankCandidates(ws, rank);
    top := Shortlist(ranked, ShortlistSize);
    var pool := Candidates(ranked);
    assert |pool| == |ws|;
    totals := ShortlistTotals(pool, top);
  }
}
