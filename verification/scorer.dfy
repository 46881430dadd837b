/**
 * The heuristic scorer: a per-position letter histogram over the pool, each
 * position's histogram turned into a rank table, and a word scored as the sum
 * of its letters' ranks.
 */
module Scorer {
  import opened Words
  import opened Sorting

  /** The tables are indexed by byte values 0..254. */
  const TableSize: nat := 255

  /** The highest rank a byte can receive. */
  const MaxRank: nat := TableSize - 1

  /** Table slot of a letter. */
  function Slot(ch: char): int {
    ch as int
  }

  function Sum(s: seq<nat>): nat {
    if |s| == 0 then 0 else Sum(s[..|s| - 1]) + s[|s| - 1]
  }

  lemma {:induction false} SumOfBump(s: seq<nat>, k: nat)
    requires k < |s|
    ensures Sum(s[k := s[k] + 1]) == Sum(s) + 1
  {
    var init := s[..|s| - 1];
    if k == |s| - 1 {
      assert s[k := s[k] + 1][..|s| - 1] == init;
    } else {
      assert s[k := s[k] + 1][..|s| - 1] == init[k := s[k] + 1];
      SumOfBump(init, k);
    }
  }

  lemma {:induction false} SumOfZeros(n: nat)
    ensures Sum(seq(n, _ => 0)) == 0
  {
    if n > 0 {
      assert seq(n, _ => 0)[..n - 1] == seq(n - 1, _ => 0);
      SumOfZeros(n - 1);
    }
  }

  /** Five tables of `TableSize` slots each. */
  predicate IsTableShape<T>(t: seq<seq<T>>) {
    |t| == WordLength && forall p :: 0 <= p < WordLength ==> |t[p]| == TableSize
  }

  /** The letters found at position `p` across the pool, in pool order. */
  function Column(ws: seq<Candidate>, p: nat): seq<char>
    requires IsPool(ws) && p < WordLength
  {
    seq(|ws|, i requires 0 <= i < |ws| => assert ws[i] in ws; ws[i].word[p])
  }

  /** The histogram with one more word counted. */
  function Bump(f: seq<seq<nat>>, w: string): (r: seq<seq<nat>>)
    requires IsTableShape(f) && IsWord(w)
    ensures IsTableShape(r)
  {
    seq(WordLength, p requires 0 <= p < WordLength => f[p][Slot(w[p]) := f[p][Slot(w[p])] + 1])
  }

  /** wordle.go's letterFreqByPosition: one histogram of letter slots per position. */
  function LetterFreqByPosition(ws: seq<Candidate>): (f: seq<seq<nat>>)
    requires IsPool(ws)
    ensures IsTableShape(f)
  {
    if |ws| == 0 then seq(WordLength, _ => seq(TableSize, _ => 0))
    else
      PoolAt(ws, |ws| - 1);
      PoolPrefix(ws, |ws| - 1);
      Bump(LetterFreqByPosition(ws[..|ws| - 1]), ws[|ws| - 1].word)
  }

  /**
   * Slot `b` of table `p` counts the pool words whose letter at position `p`
   * is byte `b`, so each table sums to the pool size.
   */
  lemma {:induction false} LetterFreqCounts(ws: seq<Candidate>)
    requires IsPool(ws)
    ensures forall p :: 0 <= p < WordLength ==> Sum(LetterFreqByPosition(ws)[p]) == |ws|
    ensures forall p, b :: 0 <= p < WordLength && 0 <= b < TableSize ==>
              LetterFreqByPosition(ws)[p][b] == multiset(Column(ws, p))[b as char]
  {
    var f := LetterFreqByPosition(ws);
    if |ws| == 0 {
      SumOfZeros(TableSize);
    } else {
      var init := ws[..|ws| - 1];
      var last := ws[|ws| - 1];
      PoolAt(ws, |ws| - 1);
      PoolPrefix(ws, |ws| - 1);
      LetterFreqCounts(init);
      var f0 := LetterFreqByPosition(init);
      assert f == Bump(f0, last.word);
      forall p | 0 <= p < WordLength
        ensures Sum(f[p]) == |ws|
        ensures Column(ws, p) == Column(init, p) + [last.word[p]]
      {
        SumOfBump(f0[p], Slot(last.word[p]));
        assert Column(ws, p) == Column(init, p) + [last.word[p]];
      }
    }
  }

  /** Only the slots of the letters 'a'..'z' are ever counted. */
  lemma FreqOnlyOfLetters(ws: seq<Candidate>, p: nat, b: nat)
    requires IsPool(ws) && p < WordLength && b < TableSize && !IsLetter(b as char)
    ensures LetterFreqByPosition(ws)[p][b] == 0
  {
  }

  /**
   * A rank table for the histogram `f` of one position: a bijection of the
   * slots 0..254 onto the ranks 0..254 under which a strictly more frequent
   * byte has a strictly higher rank.
   */
  ghost predicate IsRankTable(f: seq<nat>, rank: seq<int>) {
    && |f| == TableSize && |rank| == TableSize
    && (forall b :: 0 <= b < TableSize ==> 0 <= rank[b] < TableSize)
    && (forall a, b :: 0 <= a < b < TableSize ==> rank[a] != rank[b])
    && (forall j :: 0 <= j < TableSize ==> IsTaken(rank, j))
    && (forall a, b :: 0 <= a < TableSize && 0 <= b < TableSize && f[a] < f[b] ==> rank[a] < rank[b])
  }

  /** Within one rank table, the more frequent of two slots has the higher rank. */
  lemma RankRisesWithFrequency(f: seq<nat>, rank: seq<int>, a: int, b: int)
    requires IsRankTable(f, rank) && 0 <= a < TableSize && 0 <= b < TableSize && f[a] < f[b]
    ensures rank[a] < rank[b]
  {
  }

  /** Some slot has rank `j`. */
  predicate IsTaken(rank: seq<int>, j: int) {
    j in rank
  }

  /** The sort comparator: a byte comes before another when it is less frequent. */
  function LessFrequent(f: seq<nat>): (lt: (int, int) -> bool)
    ensures StrictOrder(lt)
    ensures forall a, b :: 0 <= a < |f| && 0 <= b < |f| ==> (!lt(a, b) && !lt(b, a) <==> f[a] == f[b])
  {
    (a: int, b: int) => 0 <= a < |f| && 0 <= b < |f| && f[a] < f[b]
  }

  /** Every entry of the five tables is a rank in 0..254. */
  predicate IsRankShape(rank: seq<seq<int>>) {
    IsTableShape(rank)
    && forall p, b :: 0 <= p < WordLength && 0 <= b < TableSize ==> 0 <= rank[p][b] <= MaxRank
  }

  /** The slots 0..254 in increasing order. */
  function Slots(): (s: seq<int>)
    ensures |s| == TableSize
    ensures forall i :: 0 <= i < |s| ==> s[i] == i
  {
    seq(TableSize, i => i)
  }

  /** `order` lists each of the slots 0..254 exactly once. */
  ghost predicate IsSlotPermutation(order: seq<int>) {
    && |order| == TableSize
    && Distinct(order)
    && forall b :: b in order <==> 0 <= b < TableSize
  }

  /** Any rearrangement of the slots lists each of 0..254 exactly once. */
  lemma PermutationOfSlots(order: seq<int>)
    requires multiset(order) == multiset(Slots())
    ensures IsSlotPermutation(order)
  {
    var slots := Slots();
    PermutationKeepsDistinct(order, slots);
    forall b
      ensures b in order <==> 0 <= b < TableSize
    {
      assert b in order <==> b in multiset(slots);
      if 0 <= b < TableSize {
        assert slots[b] == b;
      }
      if b in slots {
        var i :| 0 <= i < |slots| && slots[i] == b;
        assert b == i;
      }
    }
  }

  function IndexOf(s: seq<int>, x: int): (k: nat)
    requires x in s
    ensures k < |s| && s[k] == x
    ensures forall j :: 0 <= j < k ==> s[j] != x
  {
    if s[0] == x then 0 else 1 + IndexOf(s[1..], x)
  }

  /** The slots sorted by increasing frequency, ties in some order. */
  function SlotOrder(f: seq<nat>): (order: seq<int>)
    requires |f| == TableSize
    ensures IsSlotPermutation(order)
    ensures SortedBy(order, LessFrequent(f))
  {
    var order := SortBy(Slots(), LessFrequent(f));
    PermutationOfSlots(order);
    order
  }

  /**
   * The rank table of an order: each slot's index in it. Every slot is listed
   * once, so each slot gets a distinct rank and every rank is taken.
   */
  function Invert(order: seq<int>): (rank: seq<int>)
    requires IsSlotPermutation(order)
    ensures |rank| == TableSize
    ensures forall b :: 0 <= b < TableSize ==> 0 <= rank[b] < TableSize && order[rank[b]] == b
    ensures forall a, b :: 0 <= a < b < TableSize ==> rank[a] != rank[b]
    ensures forall j :: 0 <= j < TableSize ==> IsTaken(rank, j)
  {
    var rank := seq(TableSize, b requires 0 <= b < TableSize => IndexOf(order, b));
    forall j | 0 <= j < TableSize
      ensures IsTaken(rank, j)
    {
      assert order[j] in order;
      assert rank[order[j]] == j;
    }
    rank
  }

  /** The inverse of an order sorted by frequency is a rank table for that frequency. */
  lemma InverseIsRankTable(f: seq<nat>, order: seq<int>)
    requires |f| == TableSize && IsSlotPermutation(order)
    requires SortedBy(order, LessFrequent(f))
    ensures IsRankTable(f, Invert(order))
  {
  }

  /** One position's rank table: each slot's index in the sorted order. */
  function RankTable(f: seq<nat>): (rank: seq<int>)
    requires |f| == TableSize
    ensures IsRankTable(f, rank)
  {
    InverseIsRankTable(f, SlotOrder(f));
    Invert(SlotOrder(f))
  }

  /** Each of the five tables of `rank` is a rank table for the matching histogram. */
  ghost predicate IsRankTables(f: seq<seq<nat>>, rank: seq<seq<int>>)
    requires IsTableShape(f) && IsRankShape(rank)
  {
    forall p :: 0 <= p < WordLength ==> IsRankTable(f[p], rank[p])
  }

  /** wordle.go's letterScoreByPosition: one rank table per position. */
  function LetterScoreByPosition(f: seq<seq<nat>>): (rank: seq<seq<int>>)
    requires IsTableShape(f)
    ensures IsRankShape(rank)
    ensures IsRankTables(f, rank)
  {
    seq(WordLength, p requires 0 <= p < WordLength => RankTable(f[p]))
  }

  /** The ranks of the letters of `w` at positions `i`.. summed. */
  function ScoreFrom(rank: seq<seq<int>>, w: string, i: nat): (s: int)
    requires IsRankShape(rank) && IsWord(w) && i <= WordLength
    ensures 0 <= s <= MaxRank * (WordLength - i)
    decreases WordLength - i
  {
    if i == WordLength then 0
    else rank[i][Slot(w[i])] + ScoreFrom(rank, w, i + 1)
  }

  /** wordle.go's score: the sum of the word's five positional ranks, within 0..5*254. */
  function Score(rank: seq<seq<int>>, w: string): (s: int)
    requires IsRankShape(rank) && IsWord(w)
    ensures 0 <= s <= MaxRank * WordLength
  {
    ScoreFrom(rank, w, 0)
  }

  /** Raising the rank of one letter, all others equal, raises the partial sums that include it. */
  lemma {:induction false} ScoreFromOneLetter(rank: seq<seq<int>>, v: string, w: string, p: nat, i: nat)
    requires IsRankShape(rank) && IsWord(v) && IsWord(w)
    requires p < WordLength && i <= WordLength
    requires forall q :: 0 <= q < WordLength && q != p ==> v[q] == w[q]
    requires rank[p][Slot(v[p])] < rank[p][Slot(w[p])]
    ensures p < i ==> ScoreFrom(rank, v, i) == ScoreFrom(rank, w, i)
    ensures i <= p ==> ScoreFrom(rank, v, i) < ScoreFrom(rank, w, i)
    decreases WordLength - i
  {
    if i < WordLength {
      ScoreFromOneLetter(rank, v, w, p, i + 1);
    }
  }

  /**
   * Replacing one letter of a word by a letter strictly more frequent at that
   * position, in the pool the tables were built from, strictly raises its score.
   */
  lemma ScoreRisesWithFrequency(ws: seq<Candidate>, v: string, w: string, p: nat)
    requires IsPool(ws) && IsWord(v) && IsWord(w) && p < WordLength
    requires forall q :: 0 <= q < WordLength && q != p ==> v[q] == w[q]
    requires LetterFreqByPosition(ws)[p][Slot(v[p])] < LetterFreqByPosition(ws)[p][Slot(w[p])]
    ensures Score(LetterScoreByPosition(LetterFreqByPosition(ws)), v)
            < Score(LetterScoreByPosition(LetterFreqByPosition(ws)), w)
  {
    var f := LetterFreqByPosition(ws);
    var rank := LetterScoreByPosition(f);
    assert IsLetter(v[p]) && IsLetter(w[p]);
    assert IsRankTable(f[p], rank[p]) by {
      assert IsRankTables(f, rank);
    }
    RankRisesWithFrequency(f[p], rank[p], Slot(v[p]), Slot(w[p]));
    ScoreFromOneLetter(rank, v, w, p, 0);
  }
}
