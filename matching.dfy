/**
 * The three ways the engine substitutes a literal string in a document, each
 * a single left-to-right pass that replaces leftmost, non-overlapping
 * occurrences and counts them, as Python's `re.subn` with an escaped
 * literal pattern (and `str.replace`) do:
 *  - Literal: `str.replace`, and `re.subn` on the escaped selection;
 *  - IgnoreCase: `re.sub(re.escape(x), tag, text, flags=re.IGNORECASE)`;
 *  - WordIgnoreCase: the same pattern wrapped in `\b ... \b`.
 * An empty needle matches at every position (subject to `\b` in the last
 * mode), and the scan then copies one character before trying again, as
 * Python does with empty matches.
 * The replacement is inserted as it is. `re.sub` and `re.subn` read it as a
 * template and expand its backslash escapes, so the model is exact for them
 * on replacements without a backslash, which every tag is
 * (`Tags.TagHasNoBackslash`, `Store.StoredTagsHaveNoBackslash`).
 */
module Matching {
  import opened Text

  datatype Mode = Literal | IgnoreCase | WordIgnoreCase

  /** The substituted text and the number of substitutions made. */
  datatype Replaced = Replaced(text: string, count: nat)

  predicate SameFolded(a: string, b: string)
    requires |a| == |b|
  {
    forall k :: 0 <= k < |a| ==> Fold(a[k]) == Fold(b[k])
  }

  predicate WordAt(doc: string, i: int) {
    0 <= i < |doc| && IsWordChar(doc[i])
  }

  /** `\b` holds between positions `i - 1` and `i`. */
  predicate IsBoundary(doc: string, i: int) {
    WordAt(doc, i - 1) != WordAt(doc, i)
  }

  /** The pattern for `needle` in `mode` matches `doc` starting at position `i`. */
  predicate MatchAt(mode: Mode, doc: string, needle: string, i: nat) {
    i + |needle| <= |doc| && MatchHere(mode, doc, needle, i)
  }

  predicate MatchHere(mode: Mode, doc: string, needle: string, i: nat)
    requires i + |needle| <= |doc|
  {
    match mode
    case Literal => doc[i..i + |needle|] == needle
    case IgnoreCase => SameFolded(doc[i..i + |needle|], needle)
    case WordIgnoreCase =>
      SameFolded(doc[i..i + |needle|], needle) && IsBoundary(doc, i) && IsBoundary(doc, i + |needle|)
  }

  predicate Occurs(mode: Mode, doc: string, needle: string) {
    exists i: nat :: i <= |doc| && MatchAt(mode, doc, needle, i)
  }

  /** The substitution pass over `doc[i..]`, with `doc` kept whole so that `\b` can look back. */
  function ReplaceFrom(mode: Mode, doc: string, needle: string, rep: string, i: nat): (r: Replaced)
    requires i <= |doc|
    decreases |doc| - i
  {
    if MatchAt(mode, doc, needle, i) then
      if |needle| > 0 then
        var rest := ReplaceFrom(mode, doc, needle, rep, i + |needle|);
        Replaced(rep + rest.text, rest.count + 1)
      else if i == |doc| then
        Replaced(rep, 1)
      else
        var rest := ReplaceFrom(mode, doc, needle, rep, i + 1);
        Replaced(rep + [doc[i]] + rest.text, rest.count + 1)
    else if i == |doc| then
      Replaced([], 0)
    else
      var rest := ReplaceFrom(mode, doc, needle, rep, i + 1);
      Replaced([doc[i]] + rest.text, rest.count)
  }

  /** The pass substitutes nothing exactly when the pattern matches nowhere in `doc[i..]`, and then copies it. */
  lemma {:induction false} ReplaceFromNone(mode: Mode, doc: string, needle: string, rep: string, i: nat)
    requires i <= |doc|
    ensures var r := ReplaceFrom(mode, doc, needle, rep, i);
      && (r.count == 0 <==> forall j: nat :: i <= j <= |doc| ==> !MatchAt(mode, doc, needle, j))
      && (r.count == 0 ==> r.text == doc[i..])
    decreases |doc| - i
  {
    var r := ReplaceFrom(mode, doc, needle, rep, i);
    if MatchAt(mode, doc, needle, i) {
      assert r.count > 0 by {
        if |needle| > 0 {
          var rest := ReplaceFrom(mode, doc, needle, rep, i + |needle|);
          assert r == Replaced(rep + rest.text, rest.count + 1);
        } else if i < |doc| {
          var rest := ReplaceFrom(mode, doc, needle, rep, i + 1);
          assert r == Replaced(rep + [doc[i]] + rest.text, rest.count + 1);
        }
      }
    } else if i < |doc| {
      CopyStep(mode, doc, needle, rep, i);
      ReplaceFromNone(mode, doc, needle, rep, i + 1);
      SuffixUncons(doc, i);
      assert (forall j: nat :: i + 1 <= j <= |doc| ==> !MatchAt(mode, doc, needle, j))
         ==> (forall j: nat :: i <= j <= |doc| ==> !MatchAt(mode, doc, needle, j)) by {
        assert !MatchAt(mode, doc, needle, i);
      }
    }
  }

  /**
   * Replace every occurrence of `needle` in `doc` by `rep`. The length
   * changes by `|rep| - |needle|` per substitution, and zero substitutions
   * happen exactly when the pattern occurs nowhere, leaving `doc` as it was.
   */
  function ReplaceAll(mode: Mode, doc: string, needle: string, rep: string): (r: Replaced)
    ensures |r.text| == |doc| + r.count * (|rep| - |needle|)
    ensures r.count == 0 <==> !Occurs(mode, doc, needle)
    ensures r.count == 0 ==> r.text == doc
  {
    var r := ReplaceFrom(mode, doc, needle, rep, 0);
    ReplaceFromNone(mode, doc, needle, rep, 0);
    ReplaceFromLength(mode, doc, needle, rep, 0);
    TimesIsProduct(r.count, |rep| - |needle|);
    r
  }

  /** `c` copies of `d` added up. */
  function Times(c: nat, d: int): int {
    if c == 0 then 0 else Times(c - 1, d) + d
  }

  lemma {:induction false} TimesIsProduct(c: nat, d: int)
    ensures Times(c, d) == c * d
  {
    if c > 0 {
      TimesIsProduct(c - 1, d);
    }
  }

  /** Each substitution changes the length by `|rep| - |needle|`. */
  lemma {:induction false} ReplaceFromLength(mode: Mode, doc: string, needle: string, rep: string, i: nat)
    requires i <= |doc|
    ensures var r := ReplaceFrom(mode, doc, needle, rep, i);
      |r.text| == |doc| - i + Times(r.count, |rep| - |needle|)
    decreases |doc| - i
  {
    var r := ReplaceFrom(mode, doc, needle, rep, i);
    if MatchAt(mode, doc, needle, i) {
      if |needle| > 0 {
        var rest := ReplaceFrom(mode, doc, needle, rep, i + |needle|);
        assert r == Replaced(rep + rest.text, rest.count + 1);
        ReplaceFromLength(mode, doc, needle, rep, i + |needle|);
      } else if i < |doc| {
        var rest := ReplaceFrom(mode, doc, needle, rep, i + 1);
        assert r == Replaced(rep + [doc[i]] + rest.text, rest.count + 1);
        ReplaceFromLength(mode, doc, needle, rep, i + 1);
      }
    } else if i < |doc| {
      var rest := ReplaceFrom(mode, doc, needle, rep, i + 1);
      assert r == Replaced([doc[i]] + rest.text, rest.count);
      ReplaceFromLength(mode, doc, needle, rep, i + 1);
    }
  }

  /** Every character of the result comes from the scanned part of `doc` or from `rep`. */
  lemma {:induction false} ReplaceFromDrawsFrom(mode: Mode, doc: string, needle: string, rep: string, i: nat)
    requires i <= |doc|
    ensures forall c :: c in ReplaceFrom(mode, doc, needle, rep, i).text ==> c in doc[i..] || c in rep
    decreases |doc| - i
  {
    if MatchAt(mode, doc, needle, i) {
      if |needle| > 0 {
        ReplaceFromDrawsFrom(mode, doc, needle, rep, i + |needle|);
        assert doc[i..] == doc[i..i + |needle|] + doc[i + |needle|..];
      } else if i < |doc| {
        ReplaceFromDrawsFrom(mode, doc, needle, rep, i + 1);
        assert doc[i..] == [doc[i]] + doc[i + 1..];
      }
    } else if i < |doc| {
      ReplaceFromDrawsFrom(mode, doc, needle, rep, i + 1);
      assert doc[i..] == [doc[i]] + doc[i + 1..];
    }
  }

  /** Substituting a replacement without foreign line breaks keeps a text's breaks plain newlines. */
  lemma ReplaceKeepsNewlineBreaks(mode: Mode, doc: string, needle: string, rep: string)
    requires OnlyNewlineBreaks(doc) && OnlyNewlineBreaks(rep)
    ensures OnlyNewlineBreaks(ReplaceAll(mode, doc, needle, rep).text)
  {
    var t := ReplaceAll(mode, doc, needle, rep).text;
    ReplaceFromDrawsFrom(mode, doc, needle, rep, 0);
    assert doc[0..] == doc;
    forall k | 0 <= k < |t| && IsLineBreak(t[k]) ensures t[k] == '\n' {
      assert t[k] in t;
    }
  }

  /** Where the pattern does not match in `[i, j)`, the pass copies `doc[i..j]` unchanged. */
  lemma {:induction false} ReplaceFromCopies(mode: Mode, doc: string, needle: string, rep: string, i: nat, j: nat)
    requires i <= j <= |doc|
    requires forall k: nat :: i <= k < j ==> !MatchAt(mode, doc, needle, k)
    ensures ReplaceFrom(mode, doc, needle, rep, i).text == doc[i..j] + ReplaceFrom(mode, doc, needle, rep, j).text
    ensures ReplaceFrom(mode, doc, needle, rep, i).count == ReplaceFrom(mode, doc, needle, rep, j).count
    decreases j - i
  {
    if i < j {
      CopyStep(mode, doc, needle, rep, i);
      ReplaceFromCopies(mode, doc, needle, rep, i + 1, j);
      var tail := ReplaceFrom(mode, doc, needle, rep, j).text;
      assert doc[i..j] == [doc[i]] + doc[i + 1..j];
      assert [doc[i]] + (doc[i + 1..j] + tail) == ([doc[i]] + doc[i + 1..j]) + tail;
    }
  }

  /** Where the pattern does not match, the pass copies one character and moves on. */
  lemma CopyStep(mode: Mode, doc: string, needle: string, rep: string, i: nat)
    requires i < |doc| && !MatchAt(mode, doc, needle, i)
    ensures ReplaceFrom(mode, doc, needle, rep, i)
         == Replaced([doc[i]] + ReplaceFrom(mode, doc, needle, rep, i + 1).text, ReplaceFrom(mode, doc, needle, rep, i + 1).count)
  {
  }


  /** A literal scan does not look back: text in front of the scanned part changes nothing. */
  lemma {:induction false} LiteralScanIgnoresPrefix(pre: string, s: string, needle: string, rep: string, k: nat)
    requires k <= |s|
    ensures ReplaceFrom(Literal, pre + s, needle, rep, |pre| + k) == ReplaceFrom(Literal, s, needle, rep, k)
    decreases |s| - k
  {
    var doc := pre + s;
    var i := |pre| + k;
    if k + |needle| <= |s| {
      assert doc[i..i + |needle|] == s[k..k + |needle|];
    }
    assert MatchAt(Literal, doc, needle, i) == MatchAt(Literal, s, needle, k);
    if k < |s| {
      assert doc[i] == s[k];
      if MatchAt(Literal, s, needle, k) && |needle| > 0 {
        LiteralScanIgnoresPrefix(pre, s, needle, rep, k + |needle|);
        var rest := ReplaceFrom(Literal, s, needle, rep, k + |needle|);
        assert ReplaceFrom(Literal, s, needle, rep, k) == Replaced(rep + rest.text, rest.count + 1);
        assert ReplaceFrom(Literal, doc, needle, rep, i) == Replaced(rep + rest.text, rest.count + 1);
      } else {
        LiteralScanIgnoresPrefix(pre, s, needle, rep, k + 1);
        var rest := ReplaceFrom(Literal, s, needle, rep, k + 1);
        if MatchAt(Literal, s, needle, k) {
          assert ReplaceFrom(Literal, s, needle, rep, k) == Replaced(rep + [s[k]] + rest.text, rest.count + 1);
          assert ReplaceFrom(Literal, doc, needle, rep, i) == Replaced(rep + [s[k]] + rest.text, rest.count + 1);
        } else {
          assert ReplaceFrom(Literal, s, needle, rep, k) == Replaced([s[k]] + rest.text, rest.count);
          assert ReplaceFrom(Literal, doc, needle, rep, i) == Replaced([s[k]] + rest.text, rest.count);
        }
      }
    }
  }

  /** Scanning back over a replacement: `rep` is met first and turned back into `needle`. */
  lemma BackOverReplacement(rep: string, rest: string, needle: string, tail: string)
    requires rep != []
    requires ReplaceFrom(Literal, rest, rep, needle, 0).text == tail
    ensures ReplaceFrom(Literal, rep + rest, rep, needle, 0).text == needle + tail
  {
    assert (rep + rest)[0..|rep|] == rep;
    LiteralScanIgnoresPrefix(rep, rest, rep, needle, 0);
  }

  /** Scanning back over a copied character that cannot start `rep`: it is copied again. */
  lemma BackOverCopy(c: char, rest: string, rep: string, needle: string, tail: string)
    requires rep != [] && c != rep[0]
    requires ReplaceFrom(Literal, rest, rep, needle, 0).text == tail
    ensures ReplaceFrom(Literal, [c] + rest, rep, needle, 0).text == [c] + tail
  {
    var doc := [c] + rest;
    assert !MatchAt(Literal, doc, rep, 0) by {
      if |rep| <= |doc| {
        assert doc[0..|rep|][0] == c;
      }
    }
    LiteralScanIgnoresPrefix([c], rest, rep, needle, 0);
  }

  /**
   * Replacing `rep` back by `needle` undoes a pass, provided every match of
   * the pass was an exact copy of `needle` and the first character of `rep`
   * occurs nowhere in `doc` (so the literal pass back finds exactly the
   * replacements).
   */
  lemma {:induction false} ReplaceBackRestores(mode: Mode, doc: string, needle: string, rep: string, i: nat)
    requires i <= |doc| && needle != [] && rep != []
    requires forall k :: 0 <= k < |doc| ==> doc[k] != rep[0]
    requires forall j: nat :: i <= j && MatchAt(mode, doc, needle, j) ==> doc[j..j + |needle|] == needle
    ensures ReplaceFrom(Literal, ReplaceFrom(mode, doc, needle, rep, i).text, rep, needle, 0).text == doc[i..]
    decreases |doc| - i
  {
    if MatchAt(mode, doc, needle, i) {
      var rest := ReplaceFrom(mode, doc, needle, rep, i + |needle|);
      assert ReplaceFrom(mode, doc, needle, rep, i).text == rep + rest.text;
      ReplaceBackRestores(mode, doc, needle, rep, i + |needle|);
      BackOverReplacement(rep, rest.text, needle, doc[i + |needle|..]);
      assert doc[i..] == doc[i..i + |needle|] + doc[i + |needle|..];
    } else if i < |doc| {
      var rest := ReplaceFrom(mode, doc, needle, rep, i + 1);
      CopyStep(mode, doc, needle, rep, i);
      ReplaceBackRestores(mode, doc, needle, rep, i + 1);
      BackOverCopy(doc[i], rest.text, rep, needle, doc[i + 1..]);
      SuffixUncons(doc, i);
    }
  }

  /** One step of a deleting pass: a match is dropped, anything else is copied. */
  lemma DeletingStep(mode: Mode, doc: string, needle: string, i: nat)
    requires i < |doc|
    ensures MatchAt(mode, doc, needle, i) && |needle| > 0 ==>
      ReplaceFrom(mode, doc, needle, [], i).text == ReplaceFrom(mode, doc, needle, [], i + |needle|).text
    ensures !(MatchAt(mode, doc, needle, i) && |needle| > 0) ==>
      ReplaceFrom(mode, doc, needle, [], i).text == [doc[i]] + ReplaceFrom(mode, doc, needle, [], i + 1).text
  {
  }

  /** With an empty replacement the pass only deletes characters. */
  lemma {:induction false} DeletingPassDeletes(mode: Mode, doc: string, needle: string, i: nat)
    requires i <= |doc|
    ensures IsSubsequence(ReplaceFrom(mode, doc, needle, [], i).text, doc[i..])
    decreases |doc| - i
  {
    if i < |doc| {
      DeletingStep(mode, doc, needle, i);
      if MatchAt(mode, doc, needle, i) && |needle| > 0 {
        DeletingPassDeletes(mode, doc, needle, i + |needle|);
        assert doc[i..][|needle|..] == doc[i + |needle|..];
        SubsequenceOfSuffix(ReplaceFrom(mode, doc, needle, [], i + |needle|).text, doc[i..], |needle|);
      } else {
        DeletingPassDeletes(mode, doc, needle, i + 1);
        SubsequenceCons(doc[i], ReplaceFrom(mode, doc, needle, [], i + 1).text, doc[i + 1..]);
        assert doc[i..] == [doc[i]] + doc[i + 1..];
      }
    }
  }

  /** Apply `(needle, replacement)` pairs one after the other, first pair first. */
  function ReplaceEach(mode: Mode, text: string, steps: seq<(string, string)>): string
    decreases |steps|
  {
    if steps == [] then text
    else
      var last := steps[|steps| - 1];
      ReplaceAll(mode, ReplaceEach(mode, text, steps[..|steps| - 1]), last.0, last.1).text
  }

  /** One more step is one more pass over the result so far. */
  lemma ReplaceEachSnoc(mode: Mode, text: string, steps: seq<(string, string)>, step: (string, string))
    ensures ReplaceEach(mode, text, steps + [step]) == ReplaceAll(mode, ReplaceEach(mode, text, steps), step.0, step.1).text
  {
    assert (steps + [step])[..|steps|] == steps;
  }

  /** Steps whose needles occur nowhere in the text leave it unchanged. */
  lemma {:induction false} ReplaceEachAbsent(mode: Mode, text: string, steps: seq<(string, string)>)
    requires forall k :: 0 <= k < |steps| ==> !Occurs(mode, text, steps[k].0)
    ensures ReplaceEach(mode, text, steps) == text
    decreases |steps|
  {
    if steps != [] {
      ReplaceEachAbsent(mode, text, steps[..|steps| - 1]);
    }
  }
}
