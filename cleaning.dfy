/**
 * `clean_text`: three substitutions applied to the text of an e-mail,
 *  1. `re.sub('<[^<]+?>', '', text)`: drop markup tags;
 *  2. `re.sub(r'\n\s*\n', '\n', text)`: collapse blank-line runs;
 *  3. `text.strip()`: trim surrounding whitespace.
 * Each step is a left-to-right scan with Python's regex semantics: the tag
 * pattern is lazy, so a tag ends at the first '>' after at least one
 * character that is not '<'; `\s*` in step 2 is greedy, so one match runs
 * from a newline to the LAST newline of the whitespace that follows it.
 */
module Cleaning {
  import opened Optional
  import opened Text

  /** Scanning for the '>' that closes a tag: the first '>' at or after `k`, unless a '<' comes first. */
  function CloseFrom(s: string, k: nat): (r: Option<nat>)
    ensures r.Some? ==> k <= r.value < |s| && s[r.value] == '>'
    decreases |s| - k
  {
    if k >= |s| then None
    else if s[k] == '>' then Some(k)
    else if s[k] == '<' then None
    else CloseFrom(s, k + 1)
  }

  /** Where the match of `<[^<]+?>` that starts at the '<' at `i` ends, if it matches there. */
  function TagEnd(s: string, i: nat): (r: Option<nat>)
    requires i < |s| && s[i] == '<'
    ensures r.Some? ==> i + 2 <= r.value < |s|
  {
    if i + 1 < |s| && s[i + 1] != '<' then CloseFrom(s, i + 2) else None
  }

  /** Step 1 on `s[i..]`. */
  function StripTagsFrom(s: string, i: nat): string
    requires i <= |s|
    decreases |s| - i
  {
    if i == |s| then []
    else if s[i] == '<' && TagEnd(s, i).Some? then StripTagsFrom(s, TagEnd(s, i).value + 1)
    else [s[i]] + StripTagsFrom(s, i + 1)
  }

  function StripTags(s: string): string {
    StripTagsFrom(s, 0)
  }

  /** Step 1 does not remove all markup: one pass over "<a<b>>" leaves "<a>". */
  lemma StripTagsMayLeaveMarkup()
    ensures StripTags("<a<b>>") == "<a>"
  {
    var s := "<a<b>>";
    assert TagEnd(s, 0).None?;
    assert CloseFrom(s, 4) == Some(4);
    assert StripTagsFrom(s, 5) == ">";
    assert StripTagsFrom(s, 2) == ">";
    assert StripTagsFrom(s, 1) == "a>";
  }

  /** Step 1 only deletes characters. */
  lemma {:induction false} StripTagsFromDeletes(s: string, i: nat)
    requires i <= |s|
    ensures IsSubsequence(StripTagsFrom(s, i), s[i..])
    decreases |s| - i
  {
    if i == |s| {
      assert StripTagsFrom(s, i) == [];
    } else if s[i] == '<' && TagEnd(s, i).Some? {
      var e := TagEnd(s, i).value;
      var rest := StripTagsFrom(s, e + 1);
      StripTagsFromDeletes(s, e + 1);
      assert StripTagsFrom(s, i) == rest;
      assert s[i..][e + 1 - i..] == s[e + 1..];
      SubsequenceOfSuffix(rest, s[i..], e + 1 - i);
    } else {
      var rest := StripTagsFrom(s, i + 1);
      StripTagsFromDeletes(s, i + 1);
      assert StripTagsFrom(s, i) == [s[i]] + rest;
      SuffixUncons(s, i);
      SubsequenceCons(s[i], rest, s[i + 1..]);
    }
  }

  /** Step 1 leaves text without '<' as it is. */
  lemma {:induction false} StripTagsFromIdentity(s: string, i: nat)
    requires i <= |s|
    requires forall k :: i <= k < |s| ==> s[k] != '<'
    ensures StripTagsFrom(s, i) == s[i..]
    decreases |s| - i
  {
    if i < |s| {
      StripTagsFromIdentity(s, i + 1);
      SuffixUncons(s, i);
    }
  }

  /**
   * The last newline in the whitespace run that starts at `k` (or `last`,
   * the one seen before `k`, when the rest of the run has none).
   */
  function LastNewlineOfRun(s: string, k: nat, last: Option<nat>): (r: Option<nat>)
    ensures r == last || (r.Some? && k <= r.value < |s| && s[r.value] == '\n'
                         && forall m :: k <= m < r.value ==> IsSpace(s[m]))
    decreases |s| - k
  {
    if k < |s| && IsSpace(s[k]) then
      LastNewlineOfRun(s, k + 1, if s[k] == '\n' then Some(k) else last)
    else last
  }

  /** Two newlines with nothing but whitespace between them: what step 2 collapses. */
  predicate BlankLineBetween(s: string, i: nat, j: nat) {
    && i < j < |s|
    && s[i] == '\n' && s[j] == '\n'
    && forall m :: i < m < j ==> IsSpace(s[m])
  }

  ghost predicate HasNoBlankLine(s: string) {
    forall i: nat, j: nat :: !BlankLineBetween(s, i, j)
  }

  /** Where the match of `\n\s*\n` that starts at `i` ends, if it matches there. */
  function BlankRunEnd(s: string, i: nat): (r: Option<nat>)
    requires i < |s|
    ensures r.Some? ==> BlankLineBetween(s, i, r.value)
  {
    if s[i] == '\n' then LastNewlineOfRun(s, i + 1, None) else None
  }

  /** Step 2 on `s[i..]`: each match is replaced by the single newline it starts with. */
  function CollapseFrom(s: string, i: nat): string
    requires i <= |s|
    decreases |s| - i
  {
    if i == |s| then []
    else if BlankRunEnd(s, i).Some? then "\n" + CollapseFrom(s, BlankRunEnd(s, i).value + 1)
    else [s[i]] + CollapseFrom(s, i + 1)
  }

  function CollapseBlankLines(s: string): string {
    CollapseFrom(s, 0)
  }

  /** Step 2 only deletes characters. */
  lemma {:induction false} CollapseFromDeletes(s: string, i: nat)
    requires i <= |s|
    ensures IsSubsequence(CollapseFrom(s, i), s[i..])
    decreases |s| - i
  {
    if i == |s| {
      assert CollapseFrom(s, i) == [];
    } else if BlankRunEnd(s, i).Some? {
      var e := BlankRunEnd(s, i).value;
      var rest := CollapseFrom(s, e + 1);
      CollapseFromDeletes(s, e + 1);
      assert CollapseFrom(s, i) == "\n" + rest;
      assert s[i + 1..][e - i..] == s[e + 1..];
      SubsequenceOfSuffix(rest, s[i + 1..], e - i);
      SuffixUncons(s, i);
      SubsequenceCons('\n', rest, s[i + 1..]);
    } else {
      var rest := CollapseFrom(s, i + 1);
      CollapseFromDeletes(s, i + 1);
      assert CollapseFrom(s, i) == [s[i]] + rest;
      SuffixUncons(s, i);
      SubsequenceCons(s[i], rest, s[i + 1..]);
    }
  }

  /** Step 2 leaves text without blank-line runs as it is. */
  lemma {:induction false} CollapseFromIdentity(s: string, i: nat)
    requires i <= |s|
    requires HasNoBlankLine(s)
    ensures CollapseFrom(s, i) == s[i..]
    decreases |s| - i
  {
    if i < |s| {
      if BlankRunEnd(s, i).Some? {
        assert false;
      }
      CollapseFromIdentity(s, i + 1);
      SuffixUncons(s, i);
    }
  }

  /** A blank-line run, from its first newline to its last, holds no non-whitespace. */
  lemma BlankRunHasNoNonSpace(s: string, i: nat, j: nat)
    requires BlankLineBetween(s, i, j)
    ensures NonSpace(s[i..]) == NonSpace(s[j + 1..])
  {
    var run := s[i..j + 1];
    assert forall k :: 0 <= k < |run| ==> IsSpace(run[k]) by {
      forall k | 0 <= k < |run| ensures IsSpace(run[k]) {
        assert run[k] == s[i + k];
      }
    }
    NonSpaceOfSpaces(run);
    assert s[i..] == run + s[j + 1..];
    NonSpaceAppend(run, s[j + 1..]);
  }

  /** Step 2 deletes only whitespace: each collapsed run is made of it. */
  lemma {:induction false} CollapseKeepsNonSpace(s: string, i: nat)
    requires i <= |s|
    ensures NonSpace(CollapseFrom(s, i)) == NonSpace(s[i..])
    decreases |s| - i
  {
    if i == |s| {
      assert s[i..] == [];
    } else {
      var e := BlankRunEnd(s, i);
      if e.Some? {
        var rest := CollapseFrom(s, e.value + 1);
        CollapseKeepsNonSpace(s, e.value + 1);
        BlankRunHasNoNonSpace(s, i, e.value);
        assert CollapseFrom(s, i) == "\n" + rest;
        assert ("\n" + rest)[1..] == rest;
      } else {
        var rest := CollapseFrom(s, i + 1);
        CollapseKeepsNonSpace(s, i + 1);
        assert CollapseFrom(s, i) == [s[i]] + rest;
        assert ([s[i]] + rest)[1..] == rest;
        assert s[i..][1..] == s[i + 1..];
      }
    }
  }

  /** The whitespace that opens `t` holds no newline. */
  predicate ClearStart(t: string) {
    t == [] || (t[0] != '\n' && (IsSpace(t[0]) ==> ClearStart(t[1..])))
  }

  /** No newline is followed by whitespace and another newline, stated one character at a time. */
  predicate NoBlankFrom(t: string) {
    t == [] || ((t[0] == '\n' ==> ClearStart(t[1..])) && NoBlankFrom(t[1..]))
  }

  lemma {:induction false} ClearStartHasNoNewline(u: string, j: nat)
    requires ClearStart(u) && j < |u| && u[j] == '\n'
    ensures !forall m :: 0 <= m < j ==> IsSpace(u[m])
    decreases j
  {
    if IsSpace(u[0]) {
      ClearStartHasNoNewline(u[1..], j - 1);
      var m :| 0 <= m < j - 1 && !IsSpace(u[1..][m]);
      assert !IsSpace(u[m + 1]);
    }
  }

  lemma {:induction false} NoBlankFromHasNoBlankLine(t: string)
    requires NoBlankFrom(t)
    ensures HasNoBlankLine(t)
    decreases |t|
  {
    if t != [] {
      NoBlankFromHasNoBlankLine(t[1..]);
      forall i: nat, j: nat ensures !BlankLineBetween(t, i, j) {
        if i == 0 && BlankLineBetween(t, 0, j) {
          ClearStartHasNoNewline(t[1..], j - 1);
        } else if 0 < i < j {
          assert !BlankLineBetween(t[1..], i - 1, j - 1);
        }
      }
    }
  }

  /** The last newline of a run does not depend on the one seen before it, unless the run has none. */
  lemma {:induction false} LastNewlineOfRunFrom(s: string, k: nat, last: Option<nat>)
    ensures LastNewlineOfRun(s, k, last) ==
      if LastNewlineOfRun(s, k, None).None? then last else LastNewlineOfRun(s, k, None)
    decreases |s| - k
  {
    if k < |s| && IsSpace(s[k]) {
      LastNewlineOfRunFrom(s, k + 1, last);
      LastNewlineOfRunFrom(s, k + 1, if s[k] == '\n' then Some(k) else None);
    }
  }

  /** After the last newline of a run, the rest of the run holds no newline. */
  lemma {:induction false} NothingAfterLastNewline(s: string, k: nat)
    requires LastNewlineOfRun(s, k, None).Some?
    ensures LastNewlineOfRun(s, LastNewlineOfRun(s, k, None).value + 1, None).None?
    decreases |s| - k
  {
    if s[k] == '\n' {
      LastNewlineOfRunFrom(s, k + 1, Some(k));
      if LastNewlineOfRun(s, k + 1, None).Some? {
        NothingAfterLastNewline(s, k + 1);
      }
    } else {
      NothingAfterLastNewline(s, k + 1);
    }
  }

  /** Where the whitespace from `k` holds no newline, step 2 starts its output without one there either. */
  lemma {:induction false} CollapseFromClearStart(s: string, k: nat)
    requires k <= |s| && LastNewlineOfRun(s, k, None).None?
    ensures ClearStart(CollapseFrom(s, k))
    decreases |s| - k
  {
    if k < |s| {
      if IsSpace(s[k]) {
        if s[k] == '\n' {
          LastNewlineOfRunFrom(s, k + 1, Some(k));
        }
        CollapseFromClearStart(s, k + 1);
      }
      assert ([s[k]] + CollapseFrom(s, k + 1))[1..] == CollapseFrom(s, k + 1);
    }
  }

  /** Step 2 leaves no blank-line run behind. */
  lemma {:induction false} CollapseFromLeavesNoBlankLine(s: string, i: nat)
    requires i <= |s|
    ensures NoBlankFrom(CollapseFrom(s, i))
    decreases |s| - i
  {
    if i < |s| {
      var e := BlankRunEnd(s, i);
      if e.Some? {
        NothingAfterLastNewline(s, i + 1);
        CollapseFromClearStart(s, e.value + 1);
        CollapseFromLeavesNoBlankLine(s, e.value + 1);
        assert ("\n" + CollapseFrom(s, e.value + 1))[1..] == CollapseFrom(s, e.value + 1);
      } else {
        if s[i] == '\n' {
          CollapseFromClearStart(s, i + 1);
        }
        CollapseFromLeavesNoBlankLine(s, i + 1);
        assert ([s[i]] + CollapseFrom(s, i + 1))[1..] == CollapseFrom(s, i + 1);
      }
    }
  }

  lemma SliceBlankLine(s: string, a: nat, b: nat, i: nat, j: nat)
    requires a <= b <= |s| && BlankLineBetween(s[a..b], i, j)
    ensures BlankLineBetween(s, a + i, a + j)
  {
    forall m | a + i < m < a + j ensures IsSpace(s[m]) {
      assert s[m] == s[a..b][m - a];
    }
  }

  lemma SliceHasNoBlankLine(s: string, a: nat, b: nat)
    requires a <= b <= |s| && HasNoBlankLine(s)
    ensures HasNoBlankLine(s[a..b])
  {
    forall i: nat, j: nat ensures !BlankLineBetween(s[a..b], i, j) {
      if BlankLineBetween(s[a..b], i, j) {
        SliceBlankLine(s, a, b, i, j);
        assert false;
      }
    }
  }

  predicate NoSurroundingSpace(s: string) {
    s == [] || (!IsSpace(s[0]) && !IsSpace(s[|s| - 1]))
  }

  /** `s.lstrip()`: the suffix of `s` left after its leading whitespace. */
  function LStrip(s: string): (r: string)
    ensures |r| <= |s| && r == s[|s| - |r|..]
    ensures forall k :: 0 <= k < |s| - |r| ==> IsSpace(s[k])
    ensures r == [] || !IsSpace(r[0])
    ensures (s == [] || !IsSpace(s[0])) ==> r == s
  {
    if s != [] && IsSpace(s[0]) then
      var r := LStrip(s[1..]);
      assert s[1..][|s| - 1 - |r|..] == s[|s| - |r|..];
      assert forall k :: 0 < k < |s| - |r| ==> s[k] == s[1..][k - 1];
      r
    else s
  }

  /** `s.rstrip()`: the prefix of `s` left before its trailing whitespace. */
  function RStrip(s: string): (r: string)
    ensures |r| <= |s| && r == s[..|r|]
    ensures forall k :: |r| <= k < |s| ==> IsSpace(s[k])
    ensures r == [] || !IsSpace(r[|r| - 1])
    ensures (s == [] || !IsSpace(s[|s| - 1])) ==> r == s
  {
    if s != [] && IsSpace(s[|s| - 1]) then
      var r := RStrip(s[..|s| - 1]);
      assert s[..|s| - 1][..|r|] == s[..|r|];
      assert forall k :: |r| <= k < |s| - 1 ==> s[k] == s[..|s| - 1][k];
      r
    else s
  }

  lemma {:induction false} PrefixIsSubsequence(s: string, n: nat)
    requires n <= |s|
    ensures IsSubsequence(s[..n], s)
    decreases n
  {
    if n > 0 {
      PrefixIsSubsequence(s[1..], n - 1);
      assert s[..n][1..] == s[1..][..n - 1];
    }
  }

  /** `r` is the slice of `s` that starts at `a`, and everything of `s` outside it is whitespace. */
  ghost predicate TrimmedAt(s: string, r: string, a: nat) {
    && a + |r| <= |s| && r == s[a..a + |r|]
    && (forall k :: 0 <= k < a ==> IsSpace(s[k]))
    && (forall k :: a + |r| <= k < |s| ==> IsSpace(s[k]))
  }

  /** Whitespace at the end of the suffix `s[a..]` is whitespace at the end of `s`. */
  lemma SpacesAtEnd(s: string, a: nat, n: nat)
    requires a + n <= |s|
    requires forall k :: n <= k < |s| - a ==> IsSpace(s[a..][k])
    ensures forall k :: a + n <= k < |s| ==> IsSpace(s[k])
  {
    forall k | a + n <= k < |s| ensures IsSpace(s[k]) {
      assert s[k] == s[a..][k - a];
    }
  }

  /**
   * Removing leading whitespace (leaving `l`) and then trailing whitespace
   * (leaving `r`) leaves a trimmed slice of `s`.
   */
  lemma TrimmedInTwoSteps(s: string, l: string, r: string)
    requires |l| <= |s| && l == s[|s| - |l|..]
    requires forall k :: 0 <= k < |s| - |l| ==> IsSpace(s[k])
    requires |r| <= |l| && r == l[..|r|]
    requires forall k :: |r| <= k < |l| ==> IsSpace(l[k])
    ensures TrimmedAt(s, r, |s| - |l|)
  {
    var a := |s| - |l|;
    assert r == s[a..a + |r|] by {
      assert r == s[a..][..|r|];
    }
    SpacesAtEnd(s, a, |r|);
  }

  /** A slice of `s` is obtained from `s` by deleting characters. */
  lemma SliceIsSubsequence(s: string, r: string, a: nat)
    requires a + |r| <= |s| && r == s[a..a + |r|]
    ensures IsSubsequence(r, s)
  {
    PrefixIsSubsequence(s[a..], |r|);
    assert s[a..][..|r|] == r;
    SubsequenceOfSuffix(r, s, a);
  }

  /**
   * Step 3, `s.strip()`: `s` with whitespace removed at both ends and only
   * there, so the result is a slice of `s` with no whitespace at either end.
   */
  function Strip(s: string): (r: string)
    ensures exists a: nat :: TrimmedAt(s, r, a)
    ensures NoSurroundingSpace(r)
    ensures IsSubsequence(r, s)
    ensures NoSurroundingSpace(s) ==> r == s
  {
    var l := LStrip(s);
    var r := RStrip(l);
    TrimmedInTwoSteps(s, l, r);
    SliceIsSubsequence(s, r, |s| - |l|);
    assert r != [] ==> r[0] == l[0];
    r
  }

  /** A slice with only whitespace outside it keeps every non-whitespace character. */
  lemma TrimmedKeepsNonSpace(s: string, r: string, a: nat)
    requires TrimmedAt(s, r, a)
    ensures NonSpace(r) == NonSpace(s)
  {
    var head, tail := s[..a], s[a + |r|..];
    assert s == head + (r + tail);
    assert forall k :: 0 <= k < |tail| ==> IsSpace(tail[k]) by {
      forall k | 0 <= k < |tail| ensures IsSpace(tail[k]) {
        assert tail[k] == s[a + |r| + k];
      }
    }
    NonSpaceOfSpaces(head);
    NonSpaceOfSpaces(tail);
    NonSpaceAppend(head, r + tail);
    NonSpaceAppend(r, tail);
  }

  /** Trimming removes only whitespace. */
  lemma StripKeepsNonSpace(s: string)
    ensures NonSpace(Strip(s)) == NonSpace(s)
  {
    var a: nat :| TrimmedAt(s, Strip(s), a);
    TrimmedKeepsNonSpace(s, Strip(s), a);
  }

  /** Trimming a text without blank-line runs leaves none. */
  lemma StripKeepsNoBlankLine(s: string)
    requires HasNoBlankLine(s)
    ensures HasNoBlankLine(Strip(s))
  {
    var l := LStrip(s);
    SliceHasNoBlankLine(s, |s| - |l|, |s|);
    assert s[|s| - |l|..|s|] == l;
    SliceHasNoBlankLine(l, 0, |RStrip(l)|);
  }

  /**
   * `clean_text`: the result has no surrounding whitespace and no blank-line
   * run; it is obtained from the input by deleting characters, so it is
   * never longer; and the characters it deleted after markup removal were
   * all whitespace.
   */
  function CleanText(text: string): (r: string)
    ensures NoSurroundingSpace(r)
    ensures HasNoBlankLine(r)
    ensures IsSubsequence(r, text)
    ensures |r| <= |text|
    ensures NonSpace(r) == NonSpace(StripTags(text))
  {
    CleaningSteps(text);
    Strip(CollapseBlankLines(StripTags(text)))
  }

  /** What each of the three steps of `clean_text` contributes, one at a time. */
  lemma CleaningSteps(text: string)
    ensures var r := Strip(CollapseBlankLines(StripTags(text)));
      && NoSurroundingSpace(r)
      && HasNoBlankLine(r)
      && IsSubsequence(r, text) && |r| <= |text|
      && NonSpace(r) == NonSpace(StripTags(text))
  {
    var a := StripTags(text);
    var b := CollapseBlankLines(a);
    var r := Strip(b);
    assert IsSubsequence(r, text) && |r| <= |text| by {
      StripTagsFromDeletes(text, 0);
      assert text[0..] == text;
      CollapseFromDeletes(a, 0);
      assert a[0..] == a;
      SubsequenceTransitive(b, a, text);
      SubsequenceTransitive(r, b, text);
      SubsequenceShorter(r, text);
    }
    assert HasNoBlankLine(r) by {
      CollapseFromLeavesNoBlankLine(a, 0);
      NoBlankFromHasNoBlankLine(b);
      StripKeepsNoBlankLine(b);
    }
    assert NonSpace(r) == NonSpace(a) by {
      CollapseKeepsNonSpace(a, 0);
      assert a[0..] == a;
      StripKeepsNonSpace(b);
    }
  }

  /** Text that is already clean (no '<', no blank-line run, no surrounding whitespace) is left as it is. */
  lemma CleanTextIdentity(text: string)
    requires forall k :: 0 <= k < |text| ==> text[k] != '<'
    requires HasNoBlankLine(text)
    requires NoSurroundingSpace(text)
    ensures CleanText(text) == text
  {
    StripTagsFromIdentity(text, 0);
    assert text[0..] == text;
    CollapseFromIdentity(text, 0);
  }
}
