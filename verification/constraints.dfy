/** The constraint record accumulated from feedback, and its membership test. */
module Constraints {
  import opened Words

  /**
   * What is known about the answer:
   * - `position[i]`: the letter fixed at position i, if any;
   * - `notPosition[i]`: letters known not to be at position i;
   * - `contains`: letters that must occur somewhere;
   * - `notContains`: letters that must not occur anywhere.
   * The lists may hold repeats; only membership matters to the test.
   */
  datatype Constraints = Constraints(
    position: seq<Option<char>>,
    notPosition: seq<seq<char>>,
    contains: seq<char>,
    notContains: seq<char>)

  /** One entry per letter position. */
  predicate Valid(c: Constraints) {
    |c.position| == WordLength && |c.notPosition| == WordLength
  }

  /** No knowledge at all: nothing fixed, every list empty. */
  predicate IsEmpty(c: Constraints) {
    && Valid(c)
    && (forall i :: 0 <= i < WordLength ==> c.position[i] == None && c.notPosition[i] == [])
    && c.contains == []
    && c.notContains == []
  }

  /** A freshly allocated constraint record. */
  function NewConstraints(): (c: Constraints)
    ensures IsEmpty(c)
  {
    Constraints([None, None, None, None, None], [[], [], [], [], []], [], [])
  }

  /** Resetting a record forgets everything it held, whatever it held. */
  function Clear(c: Constraints): (r: Constraints)
    ensures IsEmpty(r)
  {
    NewConstraints()
  }

  /**
   * The membership test: every fixed letter is in place, no letter sits at a
   * position it is excluded from, every required letter occurs, and no
   * forbidden letter occurs.
   */
  predicate Satisfies(c: Constraints, w: string)
    requires Valid(c) && |w| == WordLength
  {
    && (forall i :: 0 <= i < WordLength ==> c.position[i].Some? ==> w[i] == c.position[i].value)
    && (forall i :: 0 <= i < WordLength ==> w[i] !in c.notPosition[i])
    && (forall b :: b in c.contains ==> b in w)
    && (forall b :: b in c.notContains ==> b !in w)
  }

  /** Some position of the five-letter word `w` holds `b`, tested position by position. */
  predicate Holds(w: string, b: char)
    requires |w| == WordLength
  {
    w[0] == b || w[1] == b || w[2] == b || w[3] == b || w[4] == b
  }

  /**
   * The membership test as a scan that stops at the first violation: per
   * position the fixed letter and the banned list, then each required letter,
   * then each forbidden letter. It answers exactly as `Satisfies` does.
   */
  method Check(c: Constraints, w: string) returns (ok: bool)
    requires Valid(c) && |w| == WordLength
    ensures ok <==> Satisfies(c, w)
  {
    assert forall b :: b in w <==> Holds(w, b);
    for i := 0 to WordLength
      invariant forall k :: 0 <= k < i ==> c.position[k].Some? ==> w[k] == c.position[k].value
      invariant forall k :: 0 <= k < i ==> w[k] !in c.notPosition[k]
    {
      var got := w[i];
      if c.position[i].Some? && got != c.position[i].value {
        return false;
      }
      for j := 0 to |c.notPosition[i]|
        invariant got !in c.notPosition[i][..j]
      {
        if got == c.notPosition[i][j] {
          return false;
        }
        assert c.notPosition[i][..j + 1] == c.notPosition[i][..j] + [c.notPosition[i][j]];
      }
      assert c.notPosition[i][..|c.notPosition[i]|] == c.notPosition[i];
    }
    for j := 0 to |c.contains|
      invariant forall b :: b in c.contains[..j] ==> b in w
    {
      if !Holds(w, c.contains[j]) {
        return false;
      }
      assert c.contains[..j + 1] == c.contains[..j] + [c.contains[j]];
    }
    assert c.contains[..|c.contains|] == c.contains;
    for j := 0 to |c.notContains|
      invariant forall b :: b in c.notContains[..j] ==> b !in w
    {
      if Holds(w, c.notContains[j]) {
        return false;
      }
      assert c.notContains[..j + 1] == c.notContains[..j] + [c.notContains[j]];
    }
    assert c.notContains[..|c.notContains|] == c.notContains;
    return true;
  }

  /** A record without knowledge admits every five-letter word. */
  lemma EmptyAdmitsAll(c: Constraints, w: string)
    requires IsEmpty(c) && |w| == WordLength
    ensures Satisfies(c, w)
  {
  }

  /** In particular a cleared record admits every word, whatever it held before. */
  lemma ClearedAdmitsAll(c: Constraints, w: string)
    requires |w| == WordLength
    ensures Valid(Clear(c)) && Satisfies(Clear(c), w)
  {
  }
}
