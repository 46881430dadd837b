/** Filtering the candidate pool against a constraint record. */
module Filtering {
  import opened Words
  import opened Constraints

  /**
   * The candidates of `ws` that satisfy `c`, in their original order: the
   * reference the in-place compaction is measured against.
   */
  function Kept(c: Constraints, ws: seq<Candidate>): (r: seq<Candidate>)
    requires Valid(c) && IsPool(ws)
    ensures |r| <= |ws|
    ensures IsPool(r)
  {
    if |ws| == 0 then []
    else
      var init := ws[..|ws| - 1];
      var last := ws[|ws| - 1];
      assert ws == init + [last];
      assert forall w :: w in init ==> w in ws;
      var rest := Kept(c, init);
      if Satisfies(c, last.word) then rest + [last] else rest
  }

  /** A candidate survives exactly when it is in the pool and satisfies the record. */
  lemma {:induction false} KeptMembers(c: Constraints, ws: seq<Candidate>)
    requires Valid(c) && IsPool(ws)
    ensures forall w :: w in Kept(c, ws) <==> w in ws && Satisfies(c, w.word)
  {
    if |ws| > 0 {
      var init := ws[..|ws| - 1];
      var last := ws[|ws| - 1];
      assert ws == init + [last];
      PoolPrefix(ws, |ws| - 1);
      KeptMembers(c, init);
    }
  }

  /** Each satisfying candidate survives as often as it occurs; no other candidate survives. */
  lemma {:induction false} KeptCounts(c: Constraints, ws: seq<Candidate>, w: Candidate)
    requires Valid(c) && IsPool(ws)
    ensures multiset(Kept(c, ws))[w] == (if w in ws && Satisfies(c, w.word) then multiset(ws)[w] else 0)
  {
    if |ws| > 0 {
      var init := ws[..|ws| - 1];
      var last := ws[|ws| - 1];
      assert ws == init + [last];
      assert forall v :: v in init ==> v in ws;
      KeptCounts(c, init, w);
      if w !in init && w != last {
        assert w !in ws;
      }
    }
  }

  /** `a` can be obtained from `b` by deleting elements. */
  predicate IsSubsequence<T(==)>(a: seq<T>, b: seq<T>) {
    if |a| == 0 then true
    else if |b| == 0 then false
    else
      || (a[|a| - 1] == b[|b| - 1] && IsSubsequence(a[..|a| - 1], b[..|b| - 1]))
      || IsSubsequence(a, b[..|b| - 1])
  }

  /** The survivors keep their relative order. */
  lemma {:induction false} KeptIsSubsequence(c: Constraints, ws: seq<Candidate>)
    requires Valid(c) && IsPool(ws)
    ensures IsSubsequence(Kept(c, ws), ws)
  {
    if |ws| > 0 {
      var init := ws[..|ws| - 1];
      assert forall w :: w in init ==> w in ws;
      KeptIsSubsequence(c, init);
      var r := Kept(c, ws);
      if Satisfies(c, ws[|ws| - 1].word) {
        assert r[..|r| - 1] == Kept(c, init);
      }
    }
  }

  /** A pool whose every word already satisfies `c` is kept whole. */
  lemma {:induction false} KeptAllSatisfying(c: Constraints, ws: seq<Candidate>)
    requires Valid(c) && IsPool(ws)
    requires forall w :: w in ws ==> Satisfies(c, w.word)
    ensures Kept(c, ws) == ws
  {
    if |ws| > 0 {
      var init := ws[..|ws| - 1];
      assert forall w :: w in init ==> w in ws;
      KeptAllSatisfying(c, init);
      assert Satisfies(c, ws[|ws| - 1].word);
      assert ws == init + [ws[|ws| - 1]];
    }
  }

  /** Filtering twice with the same record removes nothing more. */
  lemma KeptIdempotent(c: Constraints, ws: seq<Candidate>)
    requires Valid(c) && IsPool(ws)
    ensures Kept(c, Kept(c, ws)) == Kept(c, ws)
  {
  }

  /** Filtering by two records, in either order, keeps the same candidates. */
  lemma {:induction false} KeptCommutes(c1: Constraints, c2: Constraints, ws: seq<Candidate>)
    requires Valid(c1) && Valid(c2) && IsPool(ws)
    ensures Kept(c2, Kept(c1, ws)) == Kept(c1, Kept(c2, ws))
  {
    if |ws| > 0 {
      var init := ws[..|ws| - 1];
      var last := ws[|ws| - 1];
      assert forall w :: w in init ==> w in ws;
      KeptCommutes(c1, c2, init);
      var k1 := Kept(c1, init);
      var k2 := Kept(c2, init);
      if Satisfies(c1, last.word) {
        assert (k1 + [last])[..|k1|] == k1;
      }
      if Satisfies(c2, last.word) {
        assert (k2 + [last])[..|k2|] == k2;
      }
    }
  }

  /** Growing the pool by one candidate grows the survivors by at most that candidate. */
  lemma KeptSnoc(c: Constraints, ws: seq<Candidate>, w: Candidate)
    requires Valid(c) && IsPool(ws) && IsWord(w.word)
    ensures IsPool(ws + [w])
    ensures Kept(c, ws + [w]) == Kept(c, ws) + (if Satisfies(c, w.word) then [w] else [])
  {
  }

  /**
   * wordle.go's filter: an in-place compaction that copies each satisfying
   * candidate down to the next free slot and returns the filled prefix.
   */
  method Filter(c: Constraints, ws: seq<Candidate>) returns (r: seq<Candidate>)
    requires Valid(c) && IsPool(ws)
    ensures r == Kept(c, ws)
  {
    var buf := ws;
    var i := 0;
    for j := 0 to |ws|
      invariant i <= j && |buf| == |ws|
      invariant buf[j..] == ws[j..]
      invariant IsPool(ws[..j])
      invariant buf[..i] == Kept(c, ws[..j])
    {
      var w := buf[j];
      assert w == ws[j] && w in ws;
      assert ws[..j + 1] == ws[..j] + [w];
      KeptSnoc(c, ws[..j], w);
      if Satisfies(c, w.word) {
        buf := buf[i := w];
        i := i + 1;
        assert buf[..i] == buf[..i - 1] + [w];
      }
    }
    assert ws[..|ws|] == ws;
    r := buf[..i];
  }
}
