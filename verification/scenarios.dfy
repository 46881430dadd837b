/**
 * Repeated letters. The game greys out a repeated guess letter once the
 * answer's copies are used up: guessing "eerie" against "crane" is coloured
 * "-e -e ~r -i +e". The parser reads '-' as "the letter is absent", so a line
 * typed the game's way rules out the very answer it describes.
 */
module Scenarios {
  import opened Words
  import opened Constraints
  import opened Feedback

  /** A token's letter is among the letters gathered for its mark. */
  lemma {:induction false} MarkedLetterListed(ts: seq<Token>, m: Mark, k: nat)
    requires k < |ts| && ts[k].mark == m
    ensures ts[k].letter in LettersMarked(ts, m)
  {
    if k > 0 {
      MarkedLetterListed(ts[1..], m, k - 1);
    }
  }

  /** Any '-' token on an accepted line rules out every word holding its letter. */
  lemma AbsentMarkExcludes(ts: seq<Token>, answer: string, k: nat)
    requires |ts| == WordLength && forall i :: 0 <= i < |ts| ==> IsLetter(ts[i].letter)
    requires IsWord(answer) && k < WordLength && ts[k].mark == Absent && ts[k].letter in answer
    ensures InputConstraints(ShowFeedback(ts)).Some?
    ensures !Satisfies(InputConstraints(ShowFeedback(ts)).value, answer)
  {
    ShowFeedbackParses(ts);
    MarkedLetterListed(ts, Absent, k);
  }

  /** The game's colouring of "eerie" against "crane", typed in, excludes "crane". */
  lemma EerieAgainstCrane(ts: seq<Token>)
    requires ts == [Token(Absent, 'e'), Token(Absent, 'e'), Token(Present, 'r'), Token(Absent, 'i'), Token(Exact, 'e')]
    ensures InputConstraints(ShowFeedback(ts)).Some?
    ensures !Satisfies(InputConstraints(ShowFeedback(ts)).value, "crane")
  {
    assert "crane"[4] == 'e';
    AbsentMarkExcludes(ts, "crane", 0);
  }
}
