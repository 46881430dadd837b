# Wordle helper: the constraint engine, in Dafny

This project models the core of a command-line Wordle helper (`wordle.go`).
The helper keeps a pool of candidate five-letter words. After each guess the
player types the game's colouring as five tokens (`-x`, `+x`, `~x`). The
helper turns that line into a *constraint record* and filters the pool with it.
It then suggests guesses: it ranks the pool by a letter-frequency heuristic and,
for the top 20, estimates how far each guess would shrink the pool.

The model covers:

- **The constraint record** (`constraints.dfy`, module `Constraints`).
  - It holds a fixed letter per position. The source uses the byte 0 for "unset"; here that is `Option<char>`.
  - It holds a list of banned letters per position, a must-contain list and a must-not-contain list.
  - It covers construction, clearing and the membership test `satisfies`.
- **The feedback parser** (`feedback.dfy`, module `Feedback`).
  - The line is split on white space as Go's `strings.Fields` does.
  - A line is accepted only when it has exactly five two-character tokens, each an operator in `-+~` followed by a letter in `a`..`z`.
  - The tokens are then applied in order.
- **The filter** (`filter.dfy`, module `Filtering`).
  - The reference `Kept` is the order-preserving subsequence of satisfying candidates.
  - `Filter` is the source's in-place compaction. It is proved equal to `Kept`.
- **The diff engine** (`diff.dfy`, module `Diff`). It models `applyDiffConstraint` as the code writes it:
  - a matching position fixes the letter;
  - a mismatching position bans the guessed letter there;
  - it then puts the letter in must-contain or must-not-contain, depending on whether the answer holds that letter anywhere;
  - repeated letters are not counted.
- **The heuristic scorer** (`scorer.dfy`, module `Scorer`).
  - It builds a per-position histogram over the byte slots 0..254.
  - It turns each histogram into a rank table: a bijection onto 0..254 that gives a strictly more frequent slot a strictly higher rank.
  - A word's score is the sum of its five ranks.
- **Sorting** (`sorting.dfy`, module `Sorting`). This is a generic sort by a strict "comes before" relation. The source uses an unstable library sort, so the contract fixes only the outcome (sorted, same multiset) and never the order among ties.
- **The integer part of the suggester** (`suggest.dfy`, module `Suggest`).
  - For each hypothetical answer in the pool, it counts how many pool words survive the diff of a guess against it.
  - It also sums those counts.
  - It covers the first sort by score then frequency, and the cut to the top 20.
- **Repeated letters** (`scenarios.dfy`, module `Scenarios`). This is a consequence of the parser's reading of `-` (see below).

Words are `seq<char>` of length 5 over `'a'..'z'`: the loader's admission rule
(`wordle.go:104-107`) is taken as the precondition `IsWord`.

`applyDiffConstraint` is not position-aware and does not count repeated
letters: it tests each mismatched guess letter against the whole answer.
`Diff.DiffIgnoresMultiplicity` records a case: guessing "sassy" against "glass"
gives must-contain `"sas"`. The `s` at guess position 2 is still recorded as
required, although the game would grey it: the answer's two s's are already
matched by the guess's `s` at position 3 and its `s` at position 0.

The parser reads `-x` as "x does not occur", with no regard to repeats. The game
greys a repeated guess letter once the answer's copies are used up. For
example, guessing "eerie" against "crane" is coloured `-e -e ~r -i +e`. Typed in
as the game shows it, that line rules out "crane" itself
(`Scenarios.EerieAgainstCrane`). For the same pair the diff engine builds a
record with the same survivors as `~e ~e ~r -i +e`. (It also bans `i` at
position 3, which a typed `-i` does not, but `i` is forbidden everywhere anyway.) So the line the player must type to keep the answer is not
always the game's colouring.

## Model

| member | source | states |
|---|---|---|
| Constraints.NewConstraints | wordle.go:133-146 | A new record fixes no position, bans nothing at any position, and requires and forbids no letter. |
| Constraints.Clear | wordle.go:340-349 | Clearing yields the empty record, whatever the record held before. |
| Constraints.Satisfies | wordle.go:194-217 | The reference membership test, with no contract of its own: a word passes when every fixed letter is in place, no letter sits at a position that bans it, every must-contain letter occurs and no must-not-contain letter occurs. `Constraints.Check` is proved to agree with it. |
| Constraints.Check | wordle.go:194-217 | The early-exit scan, position by position and then list by list, returns true exactly when the word satisfies the record. |
| Constraints.EmptyAdmitsAll | wordle.go:194-217 | The empty record is satisfied by every five-character word. |
| Constraints.ClearedAdmitsAll | wordle.go:340-349 | After clearing, every five-character word satisfies the record. |
| Feedback.Fields | wordle.go:151 | The empty line has no fields; any line splits into non-empty fields that contain no white space. |
| Feedback.FieldsOfUnfields | wordle.go:151 | Splitting undoes joining: any fields without white space, joined by spaces, split back into the same fields. |
| Feedback.FieldsOfField | wordle.go:151 | A non-empty stretch without white space is exactly one field. |
| Feedback.FieldsSplitAtSpace | wordle.go:151 | Any white-space character splits the line: the fields of a, a space and b are the fields of a followed by the fields of b. So leading, trailing, repeated and tab white space yield no empty fields and no merged ones. |
| Feedback.OpOf | wordle.go:168-176 | Each mark has an operator character, and reading that operator gives the mark back. |
| Feedback.ParseToken | wordle.go:156-163 | A field yields a token exactly when it is two characters, an operator in `-+~` then a letter `a`..`z`. The token prints back as the field. |
| Feedback.ParseShowToken | wordle.go:156-163 | Printing a token and parsing it gives the same token. |
| Feedback.ParseTokens | wordle.go:155-164 | The validation pass succeeds exactly when every field is a token. On success it returns one token per field, each parsed from its field. |
| Feedback.Record | wordle.go:166-176 | One token keeps the record well-formed. |
| Feedback.RecordEffect | wordle.go:166-176 | One token touches no other position and adds at most its own letter to each list. At a position nothing fixed yet, it only narrows the record: a word that satisfies the result satisfies the record before it. |
| Feedback.RecordFrom | wordle.go:165-177 | Applying the tokens keeps the record well-formed. It appends the `~` letters to must-contain and the `-` letters to must-not-contain, in field order. |
| Feedback.RecordFromAt | wordle.go:165-177 | Applying tokens from index i leaves positions before i alone. Each later position k is fixed by a `+` token k, or gets the letter of a `~` token k added to its banned list, and by nothing else. |
| Feedback.RecordFromPositions | wordle.go:150-177 | From a fresh record, position k is fixed exactly when token k is `+`, and bans exactly the letter of a `~` token k. |
| Feedback.InputConstraints | wordle.go:149-179 | A line is accepted exactly when it has five fields and all of them are tokens. An accepted line yields the record its tokens describe and nothing more. |
| Feedback.ShowFeedbackParses | wordle.go:149-179 | Any five well-formed tokens, written out as a line, are accepted and yield the record they describe. |
| Filtering.Kept | wordle.go:182-191 | The survivors are no more than the pool and hold only words. |
| Filtering.KeptMembers | wordle.go:182-217 | A candidate survives exactly when it is in the pool and satisfies the record. |
| Filtering.KeptCounts | wordle.go:182-191 | Every satisfying candidate survives as many times as it occurs in the pool. No other candidate survives. |
| Filtering.KeptIsSubsequence | wordle.go:182-191 | The survivors are a subsequence of the pool: the relative order is kept. |
| Filtering.KeptAllSatisfying | wordle.go:182-191 | A pool whose every word satisfies the record is returned whole. |
| Filtering.KeptIdempotent | wordle.go:182-191 | Filtering twice with the same record equals filtering once. |
| Filtering.KeptCommutes | wordle.go:182-217 | Filtering by two records in either order gives the same survivors. |
| Filtering.Filter | wordle.go:182-191 | The in-place compaction returns exactly the reference survivors. |
| Diff.ApplyDiffFromEffect | wordle.go:354-365 | Comparing positions i onward leaves earlier positions alone. A match fixes its position; a mismatch bans the guessed letter there. A letter joins must-contain or must-not-contain exactly when some compared mismatch guessed it and the answer does or does not hold it. |
| Diff.ApplyDiffEffect | wordle.go:353-366 | The whole diff, per position and per letter: each position is fixed on a match, and bans the guessed letter on a mismatch. A letter is required or forbidden exactly when some mismatch guessed it and the answer does or does not hold it. |
| Diff.DiffKeepsAnswer | wordle.go:353-366 | A diff against the true answer never rules that answer out of a record it already satisfies. |
| Diff.DiffAdmitsAnswer | wordle.go:340-366 | From a cleared record, the answer satisfies its own diff. |
| Diff.DiffExcludesMismatch | wordle.go:355-359 | Every mismatched position bans the guessed letter at that position. |
| Diff.DiffAdmitsGuessIffEqual | wordle.go:354-359 | From a cleared record, the guess satisfies the diff exactly when it equals the answer. |
| Diff.DiffIgnoresMultiplicity | wordle.go:359-364 | Guessing "sassy" against "glass" requires `"sas"`, forbids only `'y'` and fixes position 3 to `'s'`. Repeats are not counted. |
| Diff.Compare | wordle.go:355-364 | Comparing one position keeps the record well-formed. |
| Diff.CompareEffect | wordle.go:355-364 | Comparing one position touches no other position and adds at most the guessed letter to each list. A record the answer satisfies still admits it afterwards. |
| Diff.ApplyDiffFrom | wordle.go:354-365 | Comparing positions i onward keeps the record well-formed. |
| Diff.ApplyDiff | wordle.go:353-366 | The whole diff keeps the record well-formed. |
| Sorting.Insert | wordle.go:229-236 | Inserting into a sorted sequence keeps it sorted and adds exactly that element. |
| Sorting.SortBy | wordle.go:229-236 | The result is sorted by the comparator and is a permutation of the input. |
| Sorting.PermutationKeepsDistinct | wordle.go:296-302 | A rearrangement of a repetition-free sequence is repetition-free. |
| Scorer.LetterFreqByPosition | wordle.go:271-279 | Five tables of 255 slots, one per letter position. |
| Scorer.LetterFreqCounts | wordle.go:271-279 | Slot b of table p counts the pool words whose letter at position p is byte b. Each table sums to the pool size. |
| Scorer.FreqOnlyOfLetters | wordle.go:271-279 | Only the slots of `a`..`z` are ever counted. |
| Scorer.LessFrequent | wordle.go:300-302 | The comparator "less frequent" is a strict order, and two slots are tied under it exactly when their frequencies are equal. |
| Scorer.SlotOrder | wordle.go:294-302 | The slots 0..254 are sorted by increasing frequency. Each slot appears exactly once. |
| Scorer.Invert | wordle.go:303-305 | Each slot's rank is its index in the order. The ranks are distinct and cover 0..254. |
| Scorer.InverseIsRankTable | wordle.go:294-305 | Inverting an order sorted by frequency gives a rank table: a bijection onto 0..254 under which a strictly more frequent slot ranks strictly higher. |
| Scorer.RankTable | wordle.go:294-306 | One position's table is a rank table for its histogram. |
| Scorer.LetterScoreByPosition | wordle.go:293-308 | Every rank lies in 0..254, and each of the five tables is a rank table for its histogram. |
| Scorer.ScoreFrom | wordle.go:312-318 | The ranks of positions i onward sum to a value between 0 and 254 times the number of positions summed. |
| Scorer.Score | wordle.go:312-318 | A word's score lies in 0..5*254. |
| Scorer.ScoreFromOneLetter | wordle.go:312-318 | Raising the rank of one letter, all others equal, strictly raises every partial sum that includes it and leaves the others alone. |
| Scorer.ScoreRisesWithFrequency | wordle.go:271-318 | Replacing one letter by a letter strictly more frequent at that position in the pool strictly raises the word's score. |
| Suggest.CountSurvivors | wordle.go:329-333 | The inner loop counts exactly the reference survivors. |
| Suggest.SurvivorsOf | wordle.go:326-333 | The survivors of one hypothesis are at most the pool size. |
| Suggest.SurvivorsPerAnswer | wordle.go:326-334 | One survivor count per hypothetical answer among the first n pool words. |
| Suggest.SurvivorsPerAnswerBounds | wordle.go:326-334 | When the hypothesis is drawn from the pool, its survivor count lies in 1..pool size. |
| Suggest.SumBounds | wordle.go:326-335 | A sum of counts that each lie in [lo, hi] lies between the count of entries times lo and times hi. |
| Suggest.SurvivorsPerAnswerRange | wordle.go:323-338 | With the whole pool as hypotheses, every count lies in 1..n, and their sum lies in n..n*n, where n is the pool size. |
| Suggest.SurvivorTotal | wordle.go:323-338 | The sum of the survivor counts over every hypothetical answer in the pool lies in n..n*n, where n is the pool size. |
| Suggest.SurvivorsRound | wordle.go:327-334 | One round of the estimator appends the next hypothesis's survivor count and keeps the running total equal to the sum. |
| Suggest.SurvivorCounts | wordle.go:323-338 | The estimator's integer part: one survivor count per hypothesis in pool order, each in 1..n. The total is their sum, `SurvivorTotal`, in n..n*n. |
| Suggest.ExpectedTotal | wordle.go:323-338 | `expectedNextSetSize` with the mean's numerator in place of the running mean: it returns exactly the survivor total of the guess over the pool. |
| Suggest.Ahead | wordle.go:229-236 | Higher score first, then higher frequency, is a strict order. Two entries are tied under it exactly when both score and frequency are equal. |
| Suggest.PoolRanks | wordle.go:222-223 | The five tables are rank tables for the pool's own per-position histogram. |
| Suggest.ScoreAll | wordle.go:226-228 | Entry i pairs the i-th candidate with its score under the rank tables. |
| Suggest.RankCandidates | wordle.go:222-236 | The ranked pool is a permutation of the scored pool, sorted by score then frequency. Every entry carries its own in-range score. |
| Suggest.Shortlist | wordle.go:240-245 | The cut keeps the first min(n, size) entries, and none of the rest is ahead of any kept entry. |
| Suggest.ShortlistTotals | wordle.go:246-248 | Entry k is the survivor total of the k-th shortlisted word over the whole pool, so it lies in n..n*n. |
| Suggest.Suggest | wordle.go:221-248 | For any rank tables of the pool's histogram, whatever the tie order, a pass ranks the pool by those scores and keeps the top 20 (or the whole pool when smaller). It gives each kept word its survivor total over the ranked pool, which lies in n..n*n. |
| Scenarios.AbsentMarkExcludes | wordle.go:149-217 | An accepted line with a `-x` token rules out every word that holds x. |
| Scenarios.EerieAgainstCrane | wordle.go:149-217 | The game's colouring of "eerie" against "crane", typed in, rules out "crane". |

## Left out

- `main` (`wordle.go:45-84`): the standard-input loop, help text and CPU profiling are I/O and process control.
- `initialCandidates` (`wordle.go:93-124`): it reads the word-list file, parses numbers and exits on errors. Only its admission rule (five letters `a`..`z`) is kept, as the precondition `IsWord`.
- The running `float64` mean of `expectedNextSetSize` (`wordle.go:325`, `335`): floating point. The survivor counts and their integer sum, the mean's numerator, are modelled instead.
- The second, float-keyed sort of the shortlist (`wordle.go:249-261`): floating point.
- The printing at the end of `suggest` (`wordle.go:264-267`).
- The order among ties of Go's unstable `sort.Slice`. The contracts of the sorts and the rank tables state only "sorted by the comparator" and "a permutation". `Suggest.Suggest` takes any rank tables of the pool's histogram, so its contract holds whichever tie order the slot sort picks. `Suggest.PoolRanks`, `Scorer.RankTable` and `Scorer.LetterScoreByPosition` compute one particular such table.
- The whole of `filter.go`: a one-off preprocessing tool built on file reads, a foreign stemming library, map iteration order and printing.
- Input that is not valid UTF-8. The line is modelled as the sequence of characters Go decodes from it.
- Suggest.SurvivorsOf: its own contract states only the upper bound. The lower bound, that the answer survives its own diff, is stated by `Suggest.SurvivorsPerAnswerBounds`.
- Filtering.Kept: its own contract states only the size bound and that survivors are words. Membership, multiplicity and order are stated by `KeptMembers`, `KeptCounts` and `KeptIsSubsequence`.
- Feedback.Fields: its own contract states only that the empty line has no fields and that fields are non-empty and free of white space. That they are the maximal runs between white space is stated by `Feedback.FieldsOfField` and `Feedback.FieldsSplitAtSpace`; together with the empty case these three statements determine the fields of every line.
- Feedback.Record: its own contract states only well-formedness. The effect of one token is stated by `Feedback.RecordEffect`, and the effect of the whole pass by `Feedback.RecordFromAt` and `Feedback.RecordFrom`.
- Diff.Compare: its own contract states only well-formedness. The effect of one position is stated by `Diff.CompareEffect`.
- Diff.ApplyDiffFrom: its own contract states only well-formedness. Its effect is stated by `Diff.ApplyDiffFromEffect`.
- Diff.ApplyDiff: its own contract states only well-formedness. Its effect is stated by `Diff.ApplyDiffEffect`.
- Scorer.LetterFreqByPosition: its own contract states only the table shape. The counts are stated by `Scorer.LetterFreqCounts` and `Scorer.FreqOnlyOfLetters`.
- Suggest.SurvivorsPerAnswer: its own contract states only the length. The range of each count is stated by `Suggest.SurvivorsPerAnswerBounds` and `Suggest.SurvivorsPerAnswerRange`.
- Scorer.ScoreFrom: the score is a mathematical integer. In the source it is a Go `int`, and five ranks of at most 254 cannot overflow it.
