/**
 * The feedback-line parser: five whitespace-separated tokens `XY`, where X is
 * '-', '+' or '~' and Y is a letter, turned into a constraint record.
 */
module Feedback {
  import opened Words
  import opened Constraints

  /** The characters the line splitter treats as white space (Unicode White_Space). */
  predicate IsSpace(ch: char) {
    || ch == '\t' || ch == '\n' || ch == '\U{B}' || ch == '\U{C}' || ch == '\r' || ch == ' '
    || ch == '\U{85}' || ch == '\U{A0}' || ch == '\U{1680}'
    || ('\U{2000}' <= ch <= '\U{200A}')
    || ch == '\U{2028}' || ch == '\U{2029}' || ch == '\U{202F}' || ch == '\U{205F}' || ch == '\U{3000}'
  }

  predicate NoSpace(s: string) {
    forall k :: 0 <= k < |s| ==> !IsSpace(s[k])
  }

  /** Length of the run of non-space characters that starts `s`. */
  function RunLength(s: string): (n: nat)
    ensures n <= |s|
    ensures NoSpace(s[..n])
    ensures n == |s| || IsSpace(s[n])
  {
    if |s| == 0 || IsSpace(s[0]) then 0 else 1 + RunLength(s[1..])
  }

  /** The maximal runs of non-space characters of `s`, in order. */
  function Fields(s: string): (fs: seq<string>)
    ensures |s| == 0 ==> fs == []
    ensures forall i :: 0 <= i < |fs| ==> |fs[i]| > 0 && NoSpace(fs[i])
    decreases |s|
  {
    if |s| == 0 then []
    else if IsSpace(s[0]) then Fields(s[1..])
    else
      var n := RunLength(s);
      [s[..n]] + Fields(s[n..])
  }

  /** The fields written back out, one space between neighbours. */
  function Unfields(fs: seq<string>): string {
    if |fs| == 0 then ""
    else if |fs| == 1 then fs[0]
    else fs[0] + " " + Unfields(fs[1..])
  }

  lemma {:induction false} RunLengthOfField(f: string, rest: string)
    requires |f| > 0 && NoSpace(f)
    requires rest == [] || IsSpace(rest[0])
    ensures RunLength(f + rest) == |f|
    decreases |f|
  {
    assert (f + rest)[0] == f[0];
    if |f| > 1 {
      assert (f + rest)[1..] == f[1..] + rest;
      RunLengthOfField(f[1..], rest);
    } else {
      assert (f + rest)[1..] == rest;
    }
  }

  /** A run that ends inside `a` ends at the same place however `a` is continued. */
  lemma {:induction false} RunLengthOfPrefix(a: string, rest: string)
    requires RunLength(a) < |a|
    ensures RunLength(a + rest) == RunLength(a)
    decreases |a|
  {
    assert (a + rest)[0] == a[0];
    if !IsSpace(a[0]) {
      assert (a + rest)[1..] == a[1..] + rest;
      RunLengthOfPrefix(a[1..], rest);
    }
  }

  /** A non-empty stretch without white space is a single field. */
  lemma FieldsOfField(f: string)
    requires |f| > 0 && NoSpace(f)
    ensures Fields(f) == [f]
  {
    RunLengthOfField(f, []);
    assert f + [] == f;
    assert f[|f|..] == [];
  }

  /**
   * A white-space character splits the line: the fields of `a`, the space and
   * `b` are the fields of `a` followed by those of `b`. With `FieldsOfField`
   * and the empty line having no fields (the contract of `Fields`), this
   * fixes the fields of every line, whatever its leading, trailing or
   * repeated white space.
   */
  lemma {:induction false} FieldsSplitAtSpace(a: string, sp: char, b: string)
    requires IsSpace(sp)
    ensures Fields(a + [sp] + b) == Fields(a) + Fields(b)
    decreases |a|
  {
    var rest := [sp] + b;
    var s := a + rest;
    assert a + [sp] + b == s;
    if |a| == 0 {
      assert s == rest && rest[1..] == b;
    } else if IsSpace(a[0]) {
      assert s[0] == a[0];
      assert s[1..] == a[1..] + [sp] + b;
      FieldsSplitAtSpace(a[1..], sp, b);
    } else if RunLength(a) == |a| {
      FieldsOfRun(a, rest);
      assert rest[1..] == b;
      FieldsOfField(a);
    } else {
      var n := RunLength(a);
      RunLengthOfPrefix(a, rest);
      assert s[0] == a[0];
      assert s[..n] == a[..n];
      assert s[n..] == a[n..] + [sp] + b;
      FieldsSplitAtSpace(a[n..], sp, b);
    }
  }

  /** A whole field followed by a white-space character splits off as the first field. */
  lemma FieldsOfRun(a: string, rest: string)
    requires |a| > 0 && !IsSpace(a[0]) && RunLength(a) == |a|
    requires |rest| > 0 && IsSpace(rest[0])
    ensures Fields(a + rest) == [a] + Fields(rest[1..])
  {
    assert a[..|a|] == a;
    RunLengthOfField(a, rest);
    var s := a + rest;
    assert s[0] == a[0];
    assert s[..|a|] == a;
    assert s[|a|..] == rest;
  }

  /** Splitting undoes joining: fields without spaces survive a write-out. */
  lemma {:induction false} FieldsOfUnfields(fs: seq<string>)
    requires forall i :: 0 <= i < |fs| ==> |fs[i]| > 0 && NoSpace(fs[i])
    ensures Fields(Unfields(fs)) == fs
  {
    if |fs| == 1 {
      RunLengthOfField(fs[0], []);
      assert fs[0] + [] == fs[0];
      assert fs[0][|fs[0]|..] == [];
    } else if |fs| > 1 {
      var s := Unfields(fs);
      var tail := " " + Unfields(fs[1..]);
      assert s == fs[0] + tail;
      RunLengthOfField(fs[0], tail);
      assert s[..|fs[0]|] == fs[0];
      assert s[|fs[0]|..] == tail;
      assert tail[0] == ' ';
      assert tail[1..] == Unfields(fs[1..]);
      FieldsOfUnfields(fs[1..]);
      assert Fields(tail) == Fields(tail[1..]);
    }
  }

  /** What a token says about its letter. */
  datatype Mark =
    | Absent   // '-': the letter does not occur in the answer
    | Exact    // '+': the letter is at this position
    | Present  // '~': the letter occurs, but not at this position

  datatype Token = Token(mark: Mark, letter: char)

  predicate IsOp(ch: char) {
    ch == '-' || ch == '+' || ch == '~'
  }

  /** The accepted token shape: an operator followed by a lower-case letter. */
  predicate IsTokenText(f: string) {
    |f| == 2 && IsOp(f[0]) && IsLetter(f[1])
  }

  function MarkOf(op: char): Mark
    requires IsOp(op)
  {
    if op == '-' then Absent else if op == '+' then Exact else Present
  }

  function OpOf(m: Mark): (op: char)
    ensures IsOp(op) && MarkOf(op) == m
  {
    match m
    case Absent => '-'
    case Exact => '+'
    case Present => '~'
  }

  function ShowToken(t: Token): string {
    [OpOf(t.mark), t.letter]
  }

  function ParseToken(f: string): (r: Option<Token>)
    ensures r.Some? <==> IsTokenText(f)
    ensures r.Some? ==> ShowToken(r.value) == f && IsLetter(r.value.letter)
  {
    if IsTokenText(f) then Some(Token(MarkOf(f[0]), f[1])) else None
  }

  lemma ParseShowToken(t: Token)
    requires IsLetter(t.letter)
    ensures ParseToken(ShowToken(t)) == Some(t)
  {
  }

  /** The field-by-field validation pass: all fields parse, or the line is rejected. */
  function ParseTokens(fs: seq<string>): (r: Option<seq<Token>>)
    ensures r.Some? <==> forall i :: 0 <= i < |fs| ==> IsTokenText(fs[i])
    ensures r.Some? ==> |r.value| == |fs|
    ensures r.Some? ==> forall i :: 0 <= i < |fs| ==> ParseToken(fs[i]) == Some(r.value[i])
  {
    if |fs| == 0 then Some([])
    else
      match (ParseToken(fs[0]), ParseTokens(fs[1..]))
      case (Some(t), Some(ts)) => Some([t] + ts)
      case _ => None
  }

  /** The letters of the tokens carrying mark `m`, in token order. */
  function LettersMarked(ts: seq<Token>, m: Mark): seq<char> {
    if |ts| == 0 then []
    else (if ts[0].mark == m then [ts[0].letter] else []) + LettersMarked(ts[1..], m)
  }

  /**
   * The record a five-token line denotes: '+' fixes position i, '~' excludes
   * the letter from position i and requires it, '-' forbids it, and nothing
   * else is known.
   */
  predicate Describes(c: Constraints, ts: seq<Token>)
    requires |ts| == WordLength
  {
    && Valid(c)
    && (forall i :: 0 <= i < WordLength ==>
          c.position[i] == (if ts[i].mark == Exact then Some(ts[i].letter) else None))
    && (forall i :: 0 <= i < WordLength ==>
          c.notPosition[i] == (if ts[i].mark == Present then [ts[i].letter] else []))
    && c.contains == LettersMarked(ts, Present)
    && c.notContains == LettersMarked(ts, Absent)
  }

  /** The effect of token `t` at position `i` on the record built so far. */
  function Record(c: Constraints, i: nat, t: Token): (r: Constraints)
    requires Valid(c) && i < WordLength
    ensures Valid(r)
  {
    match t.mark
    case Absent => c.(notContains := c.notContains + [t.letter])
    case Exact => c.(position := c.position[i := Some(t.letter)])
    case Present =>
      c.(notPosition := c.notPosition[i := c.notPosition[i] + [t.letter]],
         contains := c.contains + [t.letter])
  }

  /**
   * One token touches only its own position, adds at most its own letter to
   * the lists, and, at a position nothing fixed yet, only narrows the record:
   * whatever satisfies the result satisfies the record before it. (A '+'
   * replaces a letter already fixed there; each line starts from a fresh
   * record, where no position is fixed.)
   */
  lemma RecordEffect(c: Constraints, i: nat, t: Token, w: string)
    requires Valid(c) && i < WordLength && |w| == WordLength
    ensures var r := Record(c, i, t);
            && (forall k :: 0 <= k < WordLength && k != i ==>
                  r.position[k] == c.position[k] && r.notPosition[k] == c.notPosition[k])
            && (forall b :: b in r.contains ==> b in c.contains || b == t.letter)
            && (forall b :: b in r.notContains ==> b in c.notContains || b == t.letter)
            && (c.position[i] == None && Satisfies(r, w) ==> Satisfies(c, w))
  {
  }

  /** The application pass, tokens i.. applied in order onto `c`. */
  function RecordFrom(c: Constraints, ts: seq<Token>, i: nat): (r: Constraints)
    requires Valid(c) && |ts| == WordLength && i <= WordLength
    ensures Valid(r)
    ensures r.contains == c.contains + LettersMarked(ts[i..], Present)
    ensures r.notContains == c.notContains + LettersMarked(ts[i..], Absent)
    decreases WordLength - i
  {
    if i == WordLength then c
    else
      var r := RecordFrom(Record(c, i, ts[i]), ts, i + 1);
      assert ts[i..][1..] == ts[i + 1..];
      r
  }

  /**
   * The positional effect of the application pass on position `k`: left
   * alone when `k` comes before `i`, otherwise set by token `k` only.
   */
  lemma {:induction false} RecordFromAt(c: Constraints, ts: seq<Token>, i: nat, k: nat)
    requires Valid(c) && |ts| == WordLength && i <= WordLength && k < WordLength
    ensures RecordFrom(c, ts, i).position[k]
            == (if i <= k && ts[k].mark == Exact then Some(ts[k].letter) else c.position[k])
    ensures RecordFrom(c, ts, i).notPosition[k]
            == c.notPosition[k] + (if i <= k && ts[k].mark == Present then [ts[k].letter] else [])
    decreases WordLength - i
  {
    if i < WordLength {
      RecordFromAt(Record(c, i, ts[i]), ts, i + 1, k);
    }
  }

  /** The whole pass from a fresh record sets each position from its own token. */
  lemma RecordFromPositions(ts: seq<Token>)
    requires |ts| == WordLength
    ensures forall k :: 0 <= k < WordLength ==>
              RecordFrom(NewConstraints(), ts, 0).position[k]
              == (if ts[k].mark == Exact then Some(ts[k].letter) else None)
    ensures forall k :: 0 <= k < WordLength ==>
              RecordFrom(NewConstraints(), ts, 0).notPosition[k]
              == (if ts[k].mark == Present then [ts[k].letter] else [])
  {
    forall k | 0 <= k < WordLength {
      RecordFromAt(NewConstraints(), ts, 0, k);
    }
  }

  /** The record a five-field line denotes, or None for a malformed line. */
  function InputConstraints(line: string): (r: Option<Constraints>)
    ensures r.Some? <==> |Fields(line)| == WordLength && forall f :: f in Fields(line) ==> IsTokenText(f)
    ensures r.Some? ==> Describes(r.value, ParseTokens(Fields(line)).value)
  {
    var fields := Fields(line);
    if |fields| != WordLength then None
    else
      match ParseTokens(fields)
      case None => None
      case Some(ts) =>
        var c := RecordFrom(NewConstraints(), ts, 0);
        RecordFromPositions(ts);
        assert ts[0..] == ts;
        Some(c)
  }

  /** The line a player types for five tokens. */
  function ShowFeedback(ts: seq<Token>): string {
    Unfields(seq(|ts|, i requires 0 <= i < |ts| => ShowToken(ts[i])))
  }

  /** Any five well-formed tokens, written out, are accepted and mean what they say. */
  lemma ShowFeedbackParses(ts: seq<Token>)
    requires |ts| == WordLength
    requires forall i :: 0 <= i < |ts| ==> IsLetter(ts[i].letter)
    ensures InputConstraints(ShowFeedback(ts)).Some?
    ensures Describes(InputConstraints(ShowFeedback(ts)).value, ts)
  {
    var fs := seq(|ts|, i requires 0 <= i < |ts| => ShowToken(ts[i]));
    FieldsOfUnfields(fs);
    var ps := ParseTokens(fs);
    assert ps.Some?;
    forall i | 0 <= i < |ts|
      ensures ps.value[i] == ts[i]
    {
      ParseShowToken(ts[i]);
    }
    assert ps.value == ts;
  }
}
