/**
 * How "Redact/Delete all instances" compile the selection: the selection is
 * escaped with `re.escape`, and then every backslash-`n` pair in the escaped
 * text is replaced by `\s*\n\s*`, in an attempt to relax the whitespace
 * around line breaks. `re.escape` writes a line break as a backslash
 * followed by the line break itself, so that relaxation never fires for
 * one. A pair does appear, though, where the selection holds a backslash
 * followed by the letter n: the backslash is escaped as two backslashes, and
 * the second of them with the n forms the pair. Such a selection then
 * compiles to a pattern that demands a line break, and no longer matches
 * its own text.
 */
module EscapedSelection {
  import opened Text
  import opened Matching
  import opened Editing

  /** One element of a compiled pattern. */
  datatype Atom =
    | Char(c: char)   // exactly this character
    | Many(c: char)   // `c*`
    | Spaces          // `\s*`

  /** The pattern matches the whole of `s` (with backtracking, as `re` does). */
  predicate Matches(p: seq<Atom>, s: string)
    decreases |p| + |s|
  {
    if p == [] then s == []
    else match p[0]
      case Char(c) => s != [] && s[0] == c && Matches(p[1..], s[1..])
      case Many(c) => Matches(p[1..], s) || (s != [] && s[0] == c && Matches(p, s[1..]))
      case Spaces => Matches(p[1..], s) || (s != [] && IsSpace(s[0]) && Matches(p, s[1..]))
  }

  /**
   * The pattern the code compiles, as written: each character stands for
   * itself, except that a backslash followed by 'n' turns into a backslash,
   * `s*`, a line break and `\s*`.
   */
  function AsWrittenPattern(needle: string): seq<Atom>
    decreases |needle|
  {
    if needle == [] then []
    else if |needle| >= 2 && needle[0] == '\\' && needle[1] == 'n' then
      [Char('\\'), Many('s'), Char('\n'), Spaces] + AsWrittenPattern(needle[2..])
    else [Char(needle[0])] + AsWrittenPattern(needle[1..])
  }

  /** The evidently intended pattern for a selection without line breaks: the selection, literally. */
  function LiteralPattern(needle: string): (p: seq<Atom>)
    ensures |p| == |needle|
  {
    if needle == [] then [] else [Char(needle[0])] + LiteralPattern(needle[1..])
  }

  predicate HasBackslashN(needle: string) {
    exists k :: 0 <= k < |needle| - 1 && needle[k] == '\\' && needle[k + 1] == 'n'
  }

  /** The literal pattern matches exactly the selection. */
  lemma {:induction false} LiteralPatternMatchesExactly(needle: string, s: string)
    ensures Matches(LiteralPattern(needle), s) <==> s == needle
    decreases |needle|
  {
    if needle != [] {
      var p := LiteralPattern(needle);
      assert p[1..] == LiteralPattern(needle[1..]);
      LiteralPatternMatchesExactly(needle[1..], if s == [] then [] else s[1..]);
      if s != [] && s[0] == needle[0] && s[1..] == needle[1..] {
        assert s == [s[0]] + s[1..];
      }
    }
  }

  /** Without a backslash followed by 'n', the pattern as written is the literal one. */
  lemma {:induction false} AsWrittenIsLiteralWithoutBackslashN(needle: string)
    requires !HasBackslashN(needle)
    ensures AsWrittenPattern(needle) == LiteralPattern(needle)
    decreases |needle|
  {
    if needle != [] {
      assert !(|needle| >= 2 && needle[0] == '\\' && needle[1] == 'n');
      assert !HasBackslashN(needle[1..]) by {
        forall k | 0 <= k < |needle| - 2
          ensures !(needle[1..][k] == '\\' && needle[1..][k + 1] == 'n')
        {
          assert needle[1..][k] == needle[k + 1] && needle[1..][k + 1] == needle[k + 2];
        }
      }
      AsWrittenIsLiteralWithoutBackslashN(needle[1..]);
    }
  }

  /** A pattern with a line-break atom only matches text holding a line break. */
  lemma {:induction false} LineBreakAtomNeedsLineBreak(p: seq<Atom>, s: string)
    requires Char('\n') in p
    requires Matches(p, s)
    ensures '\n' in s
    decreases |p| + |s|
  {
    match p[0]
    case Char(c) =>
      if c != '\n' {
        assert Char('\n') in p[1..];
        LineBreakAtomNeedsLineBreak(p[1..], s[1..]);
      }
    case Many(c) =>
      assert Char('\n') in p[1..];
      if Matches(p[1..], s) {
        LineBreakAtomNeedsLineBreak(p[1..], s);
      } else {
        LineBreakAtomNeedsLineBreak(p, s[1..]);
      }
    case Spaces =>
      assert Char('\n') in p[1..];
      if Matches(p[1..], s) {
        LineBreakAtomNeedsLineBreak(p[1..], s);
      } else {
        LineBreakAtomNeedsLineBreak(p, s[1..]);
      }
  }

  /** The example selection, a Windows path: C, colon, backslash, n, e, w. */
  const Example: string := "C:\\new"

  lemma ExamplePattern()
    ensures AsWrittenPattern(Example) == [Char('C'), Char(':'), Char('\\'), Many('s'), Char('\n'), Spaces, Char('e'), Char('w')]
  {
    assert Example[1..][1..][2..] == "ew";
    assert AsWrittenPattern("w") == [Char('w')];
    assert AsWrittenPattern("ew") == [Char('e'), Char('w')];
  }

  /** The example has no line break, so the window's line normalisation leaves it as it is. */
  lemma ExampleIsItsOwnNeedle()
    ensures JoinLines(Example) == Example
    ensures '\n' !in Example
  {
    JoinLinesIdentity(Example);
  }

  /**
   * The discrepancy: the selection `C:\new`, taken from a document that is
   * exactly that text, occurs in it literally, yet the pattern as written
   * matches no part of it, so the window reports "No Matches" (after having
   * stored a tag for it, in the redacting case).
   */
  lemma AsWrittenMissesItsOwnSelection()
    ensures JoinLines(Example) == Example
    ensures Occurs(Literal, Example, Example)
    ensures forall i, j :: 0 <= i <= j <= |Example| ==> !Matches(AsWrittenPattern(Example), Example[i..j])
  {
    ExampleIsItsOwnNeedle();
    assert Example[0..|Example|] == Example;
    assert MatchAt(Literal, Example, Example, 0);
    var p := AsWrittenPattern(Example);
    ExamplePattern();
    assert p[4] == Char('\n');
    forall i, j | 0 <= i <= j <= |Example| ensures !Matches(p, Example[i..j]) {
      if Matches(p, Example[i..j]) {
        LineBreakAtomNeedsLineBreak(p, Example[i..j]);
        assert false;
      }
    }
  }

  /**
   * Corrected: matching the selection literally (which is what the code
   * does for every selection without a backslash-n pair) always finds the
   * selection in a document that contains it.
   */
  lemma CorrectedFindsSelection(before: string, selection: string, after: string, rep: string)
    requires selection != []
    ensures var doc := before + JoinLines(selection) + after;
      && Matches(LiteralPattern(JoinLines(selection)), doc[|before|..|before| + |JoinLines(selection)|])
      && ReplaceSelection(doc, selection, rep, false).outcome.Edited?
  {
    var needle := JoinLines(selection);
    var doc := before + needle + after;
    assert doc[|before|..|before| + |needle|] == needle;
    LiteralPatternMatchesExactly(needle, needle);
    assert MatchAt(Literal, doc, needle, |before|);
  }
}
