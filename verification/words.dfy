/** Words and candidates: the five-letter, lower-case words the solver works on. */
module Words {

  /** The conventional Some/None datatype; `None` stands for the "unset" byte 0. */
  datatype Option<+T> = None | Some(value: T)

  /** Number of letters in every word the solver handles. */
  const WordLength: nat := 5

  predicate IsLetter(ch: char) {
    'a' <= ch <= 'z'
  }

  /** The loader's admission rule: exactly five letters, each in 'a'..'z'. */
  predicate IsWord(w: string) {
    |w| == WordLength && forall i :: 0 <= i < |w| ==> IsLetter(w[i])
  }

  /** One entry of the candidate pool: the word and its corpus frequency. */
  datatype Candidate = Candidate(word: string, freq: int)

  /** Every candidate of the pool holds an admissible word. */
  predicate IsPool(ws: seq<Candidate>) {
    forall w :: w in ws ==> IsWord(w.word)
  }

  /** Every entry of a pool holds a word. */
  lemma PoolAt(ws: seq<Candidate>, i: nat)
    requires IsPool(ws) && i < |ws|
    ensures IsWord(ws[i].word)
  {
  }

  /** A prefix of a pool is a pool. */
  lemma PoolPrefix(ws: seq<Candidate>, n: nat)
    requires IsPool(ws) && n <= |ws|
    ensures IsPool(ws[..n])
  {
  }
}
