/**
 * The diff engine: the constraints implied by guessing `guess` when the answer
 * is `answer`. Letters are compared one position at a time and membership is
 * looked up in the whole answer, so repeated letters are not counted.
 */
module Diff {
  import opened Words
  import opened Constraints

  /** Some position at or after `from` holds the non-matching guess letter `b`. */
  ghost predicate MissedAt(guess: string, answer: string, b: char, from: nat)
    requires |guess| == WordLength && |answer| == WordLength
  {
    exists k :: from <= k < WordLength && guess[k] != answer[k] && guess[k] == b
  }

  /** The effect of comparing position `i`. */
  function Compare(c: Constraints, guess: string, answer: string, i: nat): (r: Constraints)
    requires Valid(c) && |guess| == WordLength && |answer| == WordLength && i < WordLength
    ensures Valid(r)
  {
    if guess[i] == answer[i] then c.(position := c.position[i := Some(guess[i])])
    else
      var c' := c.(notPosition := c.notPosition[i := c.notPosition[i] + [guess[i]]]);
      if guess[i] !in answer then c'.(notContains := c'.notContains + [guess[i]])
      else c'.(contains := c'.contains + [guess[i]])
  }

  /**
   * Comparing one position touches no other position, grows each list by at
   * most the guessed letter, and keeps admitting an answer the record admitted.
   */
  lemma CompareEffect(c: Constraints, guess: string, answer: string, i: nat)
    requires Valid(c) && |guess| == WordLength && |answer| == WordLength && i < WordLength
    ensures var r := Compare(c, guess, answer, i);
            && (forall k :: 0 <= k < WordLength && k != i ==>
                  r.position[k] == c.position[k] && r.notPosition[k] == c.notPosition[k])
            && (forall b :: b in r.contains ==> b in c.contains || b == guess[i])
            && (forall b :: b in r.notContains ==> b in c.notContains || b == guess[i])
            && (Satisfies(c, answer) ==> Satisfies(r, answer))
  {
  }

  /** Positions `i`.. compared in order, adding to `c`. */
  function ApplyDiffFrom(c: Constraints, guess: string, answer: string, i: nat): (r: Constraints)
    requires Valid(c) && |guess| == WordLength && |answer| == WordLength && i <= WordLength
    ensures Valid(r)
    decreases WordLength - i
  {
    if i == WordLength then c
    else ApplyDiffFrom(Compare(c, guess, answer, i), guess, answer, i + 1)
  }

  /**
   * What comparing positions `i`.. adds: a match fixes its position; a
   * mismatch bans the guessed letter there and, according to whether the
   * answer holds that letter anywhere, requires or excludes it.
   */
  lemma {:induction false} ApplyDiffFromEffect(c: Constraints, guess: string, answer: string, i: nat)
    requires Valid(c) && |guess| == WordLength && |answer| == WordLength && i <= WordLength
    ensures var r := ApplyDiffFrom(c, guess, answer, i);
            && (forall k :: 0 <= k < i ==> r.position[k] == c.position[k] && r.notPosition[k] == c.notPosition[k])
            && (forall k :: i <= k < WordLength ==>
                  r.position[k] == (if guess[k] == answer[k] then Some(guess[k]) else c.position[k]))
            && (forall k :: i <= k < WordLength ==>
                  r.notPosition[k] == c.notPosition[k] + (if guess[k] == answer[k] then [] else [guess[k]]))
            && (forall b :: b in r.contains <==> b in c.contains || (b in answer && MissedAt(guess, answer, b, i)))
            && (forall b :: b in r.notContains <==> b in c.notContains || (b !in answer && MissedAt(guess, answer, b, i)))
    decreases WordLength - i
  {
    if i < WordLength {
      ApplyDiffFromEffect(Compare(c, guess, answer, i), guess, answer, i + 1);
    }
  }

  /** wordle.go's applyDiffConstraint: adds to `c` what guessing `guess` reveals about `answer`. */
  function ApplyDiff(c: Constraints, guess: string, answer: string): (r: Constraints)
    requires Valid(c) && |guess| == WordLength && |answer| == WordLength
    ensures Valid(r)
  {
    ApplyDiffFrom(c, guess, answer, 0)
  }

  /** The whole-word effect of a diff, position by position and letter by letter. */
  lemma ApplyDiffEffect(c: Constraints, guess: string, answer: string)
    requires Valid(c) && |guess| == WordLength && |answer| == WordLength
    ensures var r := ApplyDiff(c, guess, answer);
            && (forall k :: 0 <= k < WordLength ==>
                  r.position[k] == (if guess[k] == answer[k] then Some(guess[k]) else c.position[k]))
            && (forall k :: 0 <= k < WordLength ==>
                  r.notPosition[k] == c.notPosition[k] + (if guess[k] == answer[k] then [] else [guess[k]]))
            && (forall b :: b in r.contains <==> b in c.contains || (b in answer && MissedAt(guess, answer, b, 0)))
            && (forall b :: b in r.notContains <==> b in c.notContains || (b !in answer && MissedAt(guess, answer, b, 0)))
  {
    ApplyDiffFromEffect(c, guess, answer, 0);
  }

  /** The diff on a cleared record, as the expected-size estimator uses it. */
  function DiffOf(guess: string, answer: string): (r: Constraints)
    requires |guess| == WordLength && |answer| == WordLength
    ensures Valid(r)
  {
    ApplyDiff(NewConstraints(), guess, answer)
  }

  /** A diff against the true answer never rules that answer out. */
  lemma DiffKeepsAnswer(c: Constraints, guess: string, answer: string)
    requires Valid(c) && |guess| == WordLength && |answer| == WordLength
    requires Satisfies(c, answer)
    ensures Satisfies(ApplyDiff(c, guess, answer), answer)
  {
    ApplyDiffEffect(c, guess, answer);
  }

  /** Soundness from scratch: the answer satisfies its own diff. */
  lemma DiffAdmitsAnswer(guess: string, answer: string)
    requires |guess| == WordLength && |answer| == WordLength
    ensures Satisfies(DiffOf(guess, answer), answer)
  {
    EmptyAdmitsAll(NewConstraints(), answer);
    DiffKeepsAnswer(NewConstraints(), guess, answer);
  }

  /** Every mismatched position excludes the guessed letter from that position. */
  lemma DiffExcludesMismatch(c: Constraints, guess: string, answer: string, i: nat)
    requires Valid(c) && |guess| == WordLength && |answer| == WordLength
    requires i < WordLength && guess[i] != answer[i]
    ensures guess[i] in ApplyDiff(c, guess, answer).notPosition[i]
  {
    ApplyDiffEffect(c, guess, answer);
  }

  /** The guess survives its own diff exactly when it is the answer. */
  lemma DiffAdmitsGuessIffEqual(guess: string, answer: string)
    requires |guess| == WordLength && |answer| == WordLength
    ensures Satisfies(DiffOf(guess, answer), guess) <==> guess == answer
  {
    if guess == answer {
      DiffAdmitsAnswer(guess, answer);
    } else {
      var i :| 0 <= i < WordLength && guess[i] != answer[i];
      DiffExcludesMismatch(NewConstraints(), guess, answer, i);
    }
  }

  /**
   * Repeated letters are not counted: guessing "sassy" against "glass"
   * requires 's' twice over and excludes nothing but 'y', although the
   * answer holds only two of the guess's three s's.
   */
  lemma DiffIgnoresMultiplicity()
    ensures DiffOf("sassy", "glass").contains == "sas"
    ensures DiffOf("sassy", "glass").notContains == "y"
    ensures DiffOf("sassy", "glass").position[3] == Some('s')
  {
  }
}
