/**
 * The manual edits of the editor window. "Redact all instances" and
 * "Delete all instances" rebuild the selection's line breaks with
 * `'\n'.join(s.splitlines())`, then replace every literal, case-sensitive
 * occurrence in the document, and report how many were replaced. The `\s*`
 * relaxation the code attempts never applies to a real line break. The
 * literal matching modelled here is the corrected pattern: the code's own
 * pattern differs on a selection holding a backslash followed by 'n'
 * (module `EscapedSelection`). The variant in ui.py also rebuilds the
 * document's line breaks before matching.
 */
module Editing {
  import opened Text
  import opened Tags
  import opened Matching
  import opened Optional
  import opened Store

  /** `QTextCursor.selectedText()`: the selected characters, each line break given as U+2029. */
  function SelectedText(s: string): (r: string)
    ensures |r| == |s|
    ensures forall k :: 0 <= k < |s| ==> r[k] != '\n'
  {
    if s == [] then [] else [if s[0] == '\n' then '\U{2029}' else s[0]] + SelectedText(s[1..])
  }

  /** Rebuilding the line breaks of a selected span gives what rebuilding the plain text gives. */
  lemma {:induction false} SelectedTextRejoins(s: string)
    requires forall k :: 0 <= k < |s| ==> s[k] != '\r'
    ensures JoinLines(SelectedText(s)) == JoinLines(s)
    decreases |s|
  {
    if s != [] {
      var q := SelectedText(s);
      assert q[1..] == SelectedText(s[1..]);
      SelectedTextRejoins(s[1..]);
    }
  }

  /** What the window reports: nothing (empty selection), "No Matches", or how many were replaced. */
  datatype Outcome = Ignored | NoMatches | Edited(count: nat)

  datatype Edit = Edit(outcome: Outcome, doc: string)

  /** The text that is matched: the document, or with its line breaks rebuilt (ui.py). */
  function Document(doc: string, normalize: bool): string {
    if normalize then JoinLines(doc) else doc
  }

  /**
   * Replace every occurrence of the (line-normalised) selection by `rep`.
   * An empty selection does nothing; when nothing matches the document is
   * left as it is; otherwise the count is positive and each replacement
   * changes the length by `|rep|` minus the needle's length.
   */
  function ReplaceSelection(doc: string, selection: string, rep: string, normalize: bool): (e: Edit)
    ensures selection == [] ==> e == Edit(Ignored, doc)
    ensures !e.outcome.Edited? ==> e.doc == doc
    ensures e.outcome.Edited? <==> selection != [] && Occurs(Literal, Document(doc, normalize), JoinLines(selection))
    ensures e.outcome.Edited? ==>
      && e.outcome.count > 0
      && |e.doc| == |Document(doc, normalize)| + e.outcome.count * (|rep| - |JoinLines(selection)|)
  {
    if selection == [] then Edit(Ignored, doc)
    else
      var r := ReplaceAll(Literal, Document(doc, normalize), JoinLines(selection), rep);
      if r.count == 0 then Edit(NoMatches, doc) else Edit(Edited(r.count), r.text)
  }

  /** The table after "Redact all instances": get-or-create for the needle, unless the selection is empty. */
  function TableAfterRedactAll(table: map<string, string>, selection: string, body: HexBody): (t: map<string, string>)
    ensures selection != [] ==> Lookup(t, JoinLines(selection)) == Some(TagFor(table, JoinLines(selection), body))
    ensures forall o :: o != JoinLines(selection) ==> Lookup(t, o) == Lookup(table, o)
  {
    GetOrCreateStable(table, JoinLines(selection), body, body);
    if selection == [] then table else StoreTag(table, JoinLines(selection), body)
  }

  /** Deleting only removes characters from the matched text. */
  lemma DeleteOnlyDeletes(doc: string, selection: string, normalize: bool)
    ensures var e := ReplaceSelection(doc, selection, [], normalize);
      e.outcome.Edited? ==> IsSubsequence(e.doc, Document(doc, normalize))
  {
    var d := Document(doc, normalize);
    DeletingPassDeletes(Literal, d, JoinLines(selection), 0);
    assert d[0..] == d;
  }

  /** A tag holds no line break of any kind. */
  lemma TagHasNoLineBreak(t: string)
    requires IsTag(t)
    ensures forall k :: 0 <= k < |t| ==> !IsLineBreak(t[k])
  {
    forall k | 0 <= k < |t| ensures !IsLineBreak(t[k]) {
      if k < 6 {
        assert t[k] == Prefix[k];
      } else if k < 14 {
        assert t[k] == t[6..14][k - 6];
      }
    }
  }

  /** In the ui.py variant a successful edit leaves only plain newlines as line breaks. */
  lemma NormalizedEditHasPlainBreaks(doc: string, selection: string, rep: string)
    requires OnlyNewlineBreaks(rep)
    ensures var e := ReplaceSelection(doc, selection, rep, true);
      e.outcome.Edited? ==> OnlyNewlineBreaks(e.doc)
  {
    if selection != [] {
      ReplaceKeepsNewlineBreaks(Literal, JoinLines(doc), JoinLines(selection), rep);
    }
  }

  /**
   * "Redact all instances" in the ui.py variant, with the tag get-or-create
   * hands out from a well-formed table, leaves only plain newlines as line
   * breaks when it edits the document.
   */
  lemma NormalizedRedactAllHasPlainBreaks(doc: string, selection: string, table: map<string, string>, body: HexBody)
    requires TagsWellFormed(table)
    ensures var e := ReplaceSelection(doc, selection, TagFor(table, JoinLines(selection), body), true);
      e.outcome.Edited? ==> OnlyNewlineBreaks(e.doc)
  {
    var tag := TagFor(table, JoinLines(selection), body);
    GetOrCreateWellFormed(table, JoinLines(selection), body);
    TagHasNoLineBreak(tag);
    NormalizedEditHasPlainBreaks(doc, selection, tag);
  }

  /** ... but it may still end with one: "a\n\nb" with "b" deleted is "a\n\n". */
  lemma NormalizedEditMayEndWithBreak()
    ensures ReplaceSelection("a\n\nb", "b", [], true) == Edit(Edited(1), "a\n\n")
  {
    var d := "a\n\nb";
    assert JoinLines("b") == "b";
    assert JoinLines("\nb") == "\nb";
    assert JoinLines("\n\nb") == "\n\nb";
    assert JoinLines(d) == d;
    var r4 := ReplaceFrom(Literal, d, "b", [], 4);
    assert r4 == Replaced([], 0);
    assert MatchAt(Literal, d, "b", 3);
    var r3 := ReplaceFrom(Literal, d, "b", [], 3);
    assert r3 == Replaced([], 1);
    assert ReplaceFrom(Literal, d, "b", [], 2) == Replaced("\n", 1);
    assert ReplaceFrom(Literal, d, "b", [], 1) == Replaced("\n\n", 1);
    assert ReplaceFrom(Literal, d, "b", [], 0) == Replaced("a\n\n", 1);
  }

  /**
   * Redaction is undone by replacing the tag back: when the matched text
   * held no '<', replacing every occurrence of the tag by the selection
   * (what deanonymization does with the stored row) gives the matched text
   * back.
   */
  lemma RedactionUndoneByTagReplace(doc: string, selection: string, tag: string, normalize: bool)
    requires IsTag(tag) && JoinLines(selection) != []
    requires forall k :: 0 <= k < |Document(doc, normalize)| ==> Document(doc, normalize)[k] != '<'
    ensures var e := ReplaceSelection(doc, selection, tag, normalize);
      e.outcome.Edited? ==> ReplaceAll(Literal, e.doc, tag, JoinLines(selection)).text == Document(doc, normalize)
  {
    var d := Document(doc, normalize);
    TagHasOneOpen(tag);
    ReplaceBackRestores(Literal, d, JoinLines(selection), tag, 0);
    assert d[0..] == d;
  }
}
