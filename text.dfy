/**
 * Character classes, lower-casing and the `re.split(r'\W+', ...)` tokenizer
 * used by the ingredient preprocessing of the query server.
 *
 * Text is restricted to ASCII: a word character is a letter, a digit or `_`
 * (what `\w` matches on ASCII), and lower-casing maps `A`-`Z` to `a`-`z`.
 */
module Text {

  /** The characters matched by `\w` (on ASCII text). */
  predicate IsWordChar(c: char) {
    ('a' <= c <= 'z') || ('A' <= c <= 'Z') || ('0' <= c <= '9') || c == '_'
  }

  predicate AllWord(s: string) {
    forall i :: 0 <= i < |s| ==> IsWordChar(s[i])
  }

  predicate AllSeparator(s: string) {
    forall i :: 0 <= i < |s| ==> !IsWordChar(s[i])
  }

  /** `str.lower()` on one ASCII character. */
  function LowerChar(c: char): (d: char)
    ensures 'A' <= c <= 'Z' ==> 'a' <= d <= 'z' && d as int - 'a' as int == c as int - 'A' as int
    ensures !('A' <= c <= 'Z') ==> d == c
    ensures !('A' <= d <= 'Z')
    ensures IsWordChar(d) == IsWordChar(c)
  {
    if 'A' <= c <= 'Z' then (c as int - 'A' as int + 'a' as int) as char else c
  }

  /** Two characters lower-case alike exactly when they are one letter in either case. */
  predicate SameIgnoringCase(c: char, d: char) {
    c == d
    || ('A' <= c <= 'Z' && d as int == c as int - 'A' as int + 'a' as int)
    || ('A' <= d <= 'Z' && c as int == d as int - 'A' as int + 'a' as int)
  }

  lemma LowerCharAlike(c: char, d: char)
    ensures LowerChar(c) == LowerChar(d) <==> SameIgnoringCase(c, d)
  {
  }

  /** `str.lower()`: every capital becomes its lower-case letter, all else stays. */
  function LowerStr(s: string): (r: string)
    ensures |r| == |s|
    ensures forall i :: 0 <= i < |s| && 'A' <= s[i] <= 'Z' ==>
              r[i] as int - 'a' as int == s[i] as int - 'A' as int
    ensures forall i :: 0 <= i < |s| && !('A' <= s[i] <= 'Z') ==> r[i] == s[i]
    ensures forall i :: 0 <= i < |r| ==> !('A' <= r[i] <= 'Z')
  {
    seq(|s|, i requires 0 <= i < |s| => LowerChar(s[i]))
  }

  /** Lower-casing twice is lower-casing once. */
  lemma LowerStrIdempotent(s: string)
    ensures LowerStr(LowerStr(s)) == LowerStr(s)
  {
    assert forall i :: 0 <= i < |s| ==> LowerStr(LowerStr(s))[i] == LowerStr(s)[i];
  }

  /** Text without upper-case letters is its own lower-cased form. */
  lemma LowerCaseUnchanged(s: string)
    requires forall i :: 0 <= i < |s| ==> !('A' <= s[i] <= 'Z')
    ensures LowerStr(s) == s
  {
  }

  /** The maximal run of separators at the start of `s`. */
  function LeadingRun(s: string): (run: string)
    ensures run <= s && AllSeparator(run)
    ensures |run| < |s| ==> IsWordChar(s[|run|])
  {
    if s != [] && !IsWordChar(s[0]) then [s[0]] + LeadingRun(s[1..]) else []
  }

  /**
   * The runs of separators in `s`, left to right: the parts that
   * `re.split(r'\W+', s)` cuts out.
   */
  function SeparatorRuns(s: string): (runs: seq<string>)
    ensures forall k :: 0 <= k < |runs| ==> runs[k] != [] && AllSeparator(runs[k])
    decreases |s|
  {
    if s == [] then []
    else if IsWordChar(s[0]) then SeparatorRuns(s[1..])
    else
      var run := LeadingRun(s);
      [run] + SeparatorRuns(s[|run|..])
  }

  /**
   * `re.split(r'\W+', s)`: the pieces between the separator runs. A string
   * that starts or ends with a separator yields an empty first or last piece,
   * and the empty string yields one empty piece.
   */
  function Split(s: string): (pieces: seq<string>)
    ensures |pieces| == |SeparatorRuns(s)| + 1
    ensures forall k :: 0 <= k < |pieces| ==> AllWord(pieces[k])
    ensures pieces[0] == [] <==> s == [] || !IsWordChar(s[0])
    decreases |s|
  {
    if s == [] then [[]]
    else if IsWordChar(s[0]) then
      var rest := Split(s[1..]);
      [[s[0]] + rest[0]] + rest[1..]
    else
      var run := LeadingRun(s);
      [[]] + Split(s[|run|..])
  }

  /** Puts pieces and separator runs back together, alternately. */
  function Join(pieces: seq<string>, runs: seq<string>): string
    requires |pieces| == |runs| + 1
  {
    if runs == [] then pieces[0] else pieces[0] + runs[0] + Join(pieces[1..], runs[1..])
  }

  lemma {:induction false} JoinExtendsFirst(x: string, pieces: seq<string>, runs: seq<string>)
    requires |pieces| == |runs| + 1
    ensures Join([x + pieces[0]] + pieces[1..], runs) == x + Join(pieces, runs)
  {
    var extended := [x + pieces[0]] + pieces[1..];
    assert extended[1..] == pieces[1..];
  }

  /**
   * Round trip: joining the pieces of `s` with the separator runs that were
   * cut out gives back `s`, so nothing but the separators is dropped.
   */
  lemma {:induction false} SplitJoin(s: string)
    ensures Join(Split(s), SeparatorRuns(s)) == s
    decreases |s|
  {
    if s == [] {
    } else if IsWordChar(s[0]) {
      SplitJoin(s[1..]);
      JoinExtendsFirst([s[0]], Split(s[1..]), SeparatorRuns(s[1..]));
      assert [s[0]] + s[1..] == s;
    } else {
      var run := LeadingRun(s);
      var rest := s[|run|..];
      SplitJoin(rest);
      var pieces := [[]] + Split(rest);
      assert pieces[1..] == Split(rest);
      assert ([run] + SeparatorRuns(rest))[1..] == SeparatorRuns(rest);
      assert run + rest == s;
    }
  }

  /** Every piece but the first and the last is non-empty: runs are maximal. */
  lemma {:induction false} InteriorPiecesNonEmpty(s: string)
    ensures forall k :: 0 < k < |Split(s)| - 1 ==> Split(s)[k] != []
    decreases |s|
  {
    if s == [] {
    } else if IsWordChar(s[0]) {
      InteriorPiecesNonEmpty(s[1..]);
    } else {
      var run := LeadingRun(s);
      InteriorPiecesNonEmpty(s[|run|..]);
    }
  }

  /** A string holding a separator has at least one separator run. */
  lemma {:induction false} SeparatorGivesRun(s: string, i: int)
    requires 0 <= i < |s| && !IsWordChar(s[i])
    ensures |SeparatorRuns(s)| > 0
    decreases |s|
  {
    if IsWordChar(s[0]) {
      SeparatorGivesRun(s[1..], i - 1);
    }
  }

  /** The last piece is empty exactly when `s` is empty or ends with a separator. */
  lemma {:induction false} LastPieceEmpty(s: string)
    ensures Split(s)[|Split(s)| - 1] == [] <==> s == [] || !IsWordChar(s[|s| - 1])
    decreases |s|
  {
    if s == [] {
    } else if IsWordChar(s[0]) {
      var tail := s[1..];
      LastPieceEmpty(tail);
      var rest := Split(tail);
      var pieces := [[s[0]] + rest[0]] + rest[1..];
      assert Split(s) == pieces;
      if |rest| == 1 {
        assert pieces[|pieces| - 1] != [];
        if tail != [] && !IsWordChar(tail[|tail| - 1]) {
          SeparatorGivesRun(tail, |tail| - 1);
        }
      } else {
        assert pieces[|pieces| - 1] == rest[|rest| - 1];
        assert s[|s| - 1] == tail[|tail| - 1];
      }
    } else {
      var run := LeadingRun(s);
      var rest := s[|run|..];
      LastPieceEmpty(rest);
      var pieces := [[]] + Split(rest);
      assert Split(s) == pieces;
      assert pieces[|pieces| - 1] == Split(rest)[|Split(rest)| - 1];
      assert run + rest == s;
      if rest == [] {
        assert s[|s| - 1] == run[|run| - 1];
      } else {
        assert s[|s| - 1] == rest[|rest| - 1];
      }
    }
  }

  /** A string of word characters only is a single piece. */
  lemma {:induction false} SplitOfWord(w: string)
    requires AllWord(w)
    ensures Split(w) == [w]
    decreases |w|
  {
    if w != [] {
      SplitOfWord(w[1..]);
      assert [w[0]] + w[1..] == w;
    }
  }

  /** A word followed by one separator splits into the word and an empty piece. */
  lemma {:induction false} SplitWordThenSeparator(w: string, c: char)
    requires w != [] && AllWord(w) && !IsWordChar(c)
    ensures Split(w + [c]) == [w, ""]
    decreases |w|
  {
    var s := w + [c];
    assert s[1..] == w[1..] + [c];
    if |w| == 1 {
      assert LeadingRun([c]) == [c];
      assert [c][1..] == [];
      assert Split([c]) == ["", ""];
      assert [w[0]] + "" == w;
    } else {
      SplitWordThenSeparator(w[1..], c);
      assert [w[0]] + w[1..] == w;
    }
  }

  /** Lower-casing keeps every character on its side of the `\W` class. */
  lemma LowerKeepsClasses(s: string)
    ensures |LowerStr(s)| == |s|
    ensures forall i :: 0 <= i < |s| ==> IsWordChar(LowerStr(s)[i]) == IsWordChar(s[i])
  {
  }
}
