/**
 * The editor window (`MainWindow`) and its text widget
 * (`RedactingTextEdit`). Each opens its own connection to the same
 * database file (app.py:103, app.py:299), so both see one redaction table;
 * the model gives them one shared `RedactionDatabase`, which the window's
 * constructor requires. The widget's plain text and cursor are fields;
 * message boxes become the returned `Outcome`.
 */
module Window {
  import opened Optional
  import opened Text
  import opened Tags
  import opened Matching
  import opened Store
  import opened Editing
  import opened Deanonymizing
  import opened Redactor

  class RedactingTextEdit {
    const db: RedactionDatabase
    /** The document, as `toPlainText()` gives it. */
    var text: string
    /** The cursor: the selection runs between `anchor` and `position`. */
    var anchor: nat
    var position: nat

    ghost predicate Valid()
      reads this
    {
      anchor <= |text| && position <= |text|
    }

    function SelectionStart(): nat
      reads this
    {
      if anchor <= position then anchor else position
    }

    function SelectionEnd(): nat
      reads this
    {
      if anchor <= position then position else anchor
    }

    constructor (db: RedactionDatabase, text: string)
      ensures this.db == db && this.text == text && anchor == 0 && position == 0
      ensures Valid()
    {
      this.db := db;
      this.text := text;
      anchor := 0;
      position := 0;
    }

    /**
     * `redact_selected_text`: with a selection, the selected text (as Qt
     * gives it) gets its stored tag or a newly minted and stored one, and
     * the tag replaces the selection, leaving the cursor after it.
     */
    method RedactSelectedText(body: HexBody)
      requires Valid()
      modifies this, db
      ensures Valid()
      ensures old(anchor == position) ==>
        text == old(text) && anchor == old(anchor) && position == old(position) && db.table == old(db.table)
      ensures old(anchor != position) ==>
        var selected := SelectedText(old(text[SelectionStart()..SelectionEnd()]));
        var tag := TagFor(old(db.table), selected, body);
        && db.table == StoreTag(old(db.table), selected, body)
        && text == old(text[..SelectionStart()]) + tag + old(text[SelectionEnd()..])
        && anchor == position == old(SelectionStart()) + |tag|
    {
      if anchor != position {
        var lo, hi := SelectionStart(), SelectionEnd();
        var selected := SelectedText(text[lo..hi]);
        var tag := db.GetOrCreate(selected, body);
        text := text[..lo] + tag + text[hi..];
        anchor, position := lo + |tag|, lo + |tag|;
      }
    }
  }

  /** The replacements `apply_automatic_redaction` performs: each listed original that has a truthy tag. */
  function AutoSteps(originals: seq<string>, table: map<string, string>): seq<(string, string)> {
    if originals == [] then []
    else
      var n := |originals| - 1;
      var o := originals[n];
      AutoSteps(originals[..n], table) + (if Truthy(Lookup(table, o)) then [(o, table[o])] else [])
  }

  /** Every automatic replacement is a stored row: its original, by its own non-empty tag. */
  lemma {:induction false} AutoStepsAreRows(originals: seq<string>, table: map<string, string>)
    ensures forall j :: 0 <= j < |AutoSteps(originals, table)| ==>
      var step := AutoSteps(originals, table)[j];
      step.0 in table && table[step.0] == step.1 && step.1 != ""
  {
    if originals != [] {
      AutoStepsAreRows(originals[..|originals| - 1], table);
    }
  }

  lemma AutoOneMore(originals: seq<string>, table: map<string, string>, k: nat)
    requires k < |originals|
    ensures Truthy(Lookup(table, originals[k])) ==>
      AutoSteps(originals[..k + 1], table) == AutoSteps(originals[..k], table) + [(originals[k], table[originals[k]])]
    ensures !Truthy(Lookup(table, originals[k])) ==> AutoSteps(originals[..k + 1], table) == AutoSteps(originals[..k], table)
  {
    assert originals[..k + 1][..k] == originals[..k];
    assert AutoSteps(originals[..k], table) + [] == AutoSteps(originals[..k], table);
  }

  class MainWindow {
    const db: RedactionDatabase
    const editor: RedactingTextEdit
    /** ui.py rebuilds the document's line breaks before matching; app.py matches the document as it is. */
    const normalizeDocument: bool

    constructor (db: RedactionDatabase, editor: RedactingTextEdit, normalizeDocument: bool)
      requires editor.db == db
      ensures this.db == db && this.editor == editor && this.normalizeDocument == normalizeDocument
      ensures this.editor.db == this.db
    {
      this.db := db;
      this.editor := editor;
      this.normalizeDocument := normalizeDocument;
    }

    /** Put the cursor back at its old position, or at the end of a document that became shorter. */
    method RestoreCursor(oldPosition: nat)
      modifies editor
      ensures editor.text == old(editor.text)
      ensures editor.anchor == editor.position
      ensures editor.position == if oldPosition <= |editor.text| then oldPosition else |editor.text|
    {
      var p := if oldPosition <= |editor.text| then oldPosition else |editor.text|;
      editor.anchor, editor.position := p, p;
    }

    /**
     * `redact_all_instances`: with a non-empty selection, the tag for the
     * line-normalised selection is fetched or minted and stored (before
     * anything is matched, so also when nothing matches); every occurrence
     * is then replaced by it, and the document is rewritten only when there
     * was at least one.
     */
    method RedactAllInstances(selection: string, body: HexBody) returns (outcome: Outcome)
      requires editor.Valid()
      modifies editor, db
      ensures editor.Valid()
      ensures var e := ReplaceSelection(old(editor.text), selection, TagFor(old(db.table), JoinLines(selection), body), normalizeDocument);
        outcome == e.outcome && editor.text == e.doc
      ensures db.table == TableAfterRedactAll(old(db.table), selection, body)
      ensures !outcome.Edited? ==> editor.anchor == old(editor.anchor) && editor.position == old(editor.position)
      ensures outcome.Edited? ==>
        editor.anchor == editor.position == if old(editor.position) <= |editor.text| then old(editor.position) else |editor.text|
    {
      if selection == [] {
        return Ignored;
      }
      var oldPosition := editor.position;
      var needle := JoinLines(selection);
      var document := Document(editor.text, normalizeDocument);
      var tag := db.GetOrCreate(needle, body);
      var r := ReplaceAll(Literal, document, needle, tag);
      if r.count == 0 {
        return NoMatches;
      }
      editor.text := r.text;
      RestoreCursor(oldPosition);
      outcome := Edited(r.count);
    }

    /**
     * `delete_all_instances`: the same matching with an empty replacement;
     * the table is never touched.
     */
    method DeleteAllInstances(selection: string) returns (outcome: Outcome)
      requires editor.Valid()
      modifies editor
      ensures editor.Valid()
      ensures var e := ReplaceSelection(old(editor.text), selection, [], normalizeDocument);
        outcome == e.outcome && editor.text == e.doc
      ensures db.table == old(db.table)
      ensures !outcome.Edited? ==> editor.anchor == old(editor.anchor) && editor.position == old(editor.position)
      ensures outcome.Edited? ==>
        editor.anchor == editor.position == if old(editor.position) <= |editor.text| then old(editor.position) else |editor.text|
    {
      if selection == [] {
        return Ignored;
      }
      var oldPosition := editor.position;
      var needle := JoinLines(selection);
      var document := Document(editor.text, normalizeDocument);
      var r := ReplaceAll(Literal, document, needle, []);
      if r.count == 0 {
        return NoMatches;
      }
      editor.text := r.text;
      RestoreCursor(oldPosition);
      outcome := Edited(r.count);
    }

    /** `handle_text_selection`: a selection made with Shift deletes, any other redacts. */
    method HandleTextSelection(selection: string, shiftPressed: bool, body: HexBody) returns (outcome: Outcome)
      requires editor.Valid()
      modifies editor, db
      ensures editor.Valid()
      ensures shiftPressed ==>
        var e := ReplaceSelection(old(editor.text), selection, [], normalizeDocument);
        outcome == e.outcome && editor.text == e.doc && db.table == old(db.table)
      ensures !shiftPressed ==>
        var e := ReplaceSelection(old(editor.text), selection, TagFor(old(db.table), JoinLines(selection), body), normalizeDocument);
        outcome == e.outcome && editor.text == e.doc && db.table == TableAfterRedactAll(old(db.table), selection, body)
    {
      if shiftPressed {
        outcome := DeleteAllInstances(selection);
      } else {
        outcome := RedactAllInstances(selection, body);
      }
    }

    /**
     * `apply_automatic_redaction`: every stored original with a truthy tag
     * is replaced case-insensitively (without word boundaries) by its tag,
     * in the order the table lists them. It only reads the table, and text
     * holding none of the stored originals comes back unchanged.
     */
    method ApplyAutomaticRedaction(text: string) returns (r: string, ghost order: seq<string>)
      ensures forall o :: o in order <==> o in db.table
      ensures Distinct(order)
      ensures r == ReplaceEach(IgnoreCase, text, AutoSteps(order, db.table))
      ensures (forall o :: o in db.table ==> !Occurs(IgnoreCase, text, o)) ==> r == text
    {
      var items := db.GetAllRedactedItems();
      r := text;
      for k := 0 to |items|
        invariant r == ReplaceEach(IgnoreCase, text, AutoSteps(items[..k], db.table))
      {
        var item := items[k];
        var tag := db.GetTag(item);
        assert tag == Lookup(db.table, item);
        AutoOneMore(items, db.table, k);
        if Truthy(tag) {
          ReplaceEachSnoc(IgnoreCase, text, AutoSteps(items[..k], db.table), (item, tag.value));
          r := ReplaceAll(IgnoreCase, r, item, tag.value).text;
        }
      }
      assert items[..|items|] == items;
      order := items;
      AutoStepsAreRows(order, db.table);
      if forall o :: o in db.table ==> !Occurs(IgnoreCase, text, o) {
        ReplaceEachAbsent(IgnoreCase, text, AutoSteps(order, db.table));
      }
    }

    /**
     * `perform_deanonymization`: the tags found in the text are looked up
     * one by one; for each with a truthy original, every occurrence is
     * replaced by it. Text without any tag comes back unchanged.
     */
    method PerformDeanonymization(text: string) returns (r: string, ghost picks: seq<Option<string>>)
      ensures ValidPicks(FindTags(text), picks, db.table)
      ensures r == ReplaceEach(Literal, text, DeanonSteps(FindTags(text), picks))
      ensures (forall p: nat :: !TagAt(text, p)) ==> r == text
    {
      var tags := FindTags(text);
      r := text;
      picks := [];
      for k := 0 to |tags|
        invariant ValidPicks(tags[..k], picks, db.table)
        invariant r == ReplaceEach(Literal, text, DeanonSteps(tags[..k], picks))
      {
        var original := db.GetOriginal(tags[k]);
        DeanonOneMore(tags, picks, db.table, k, original);
        if Truthy(original) {
          ReplaceEachSnoc(Literal, text, DeanonSteps(tags[..k], picks), (tags[k], original.value));
          r := ReplaceAll(Literal, r, tags[k], original.value).text;
        }
        picks := picks + [original];
      }
      assert tags[..|tags|] == tags;
      FindTagsEmpty(text);
    }
  }

  /**
   * `process_file`'s grouping of the entities the user kept, as
   * `(category, value)` pairs, into a dictionary from category to the set
   * of its values.
   */
  method GroupEntities(selected: seq<(string, string)>) returns (groups: map<string, set<string>>)
    ensures groups.Keys == (set p | p in selected :: p.0)
    ensures forall c :: c in groups ==> groups[c] == (set p | p in selected && p.0 == c :: p.1)
  {
    groups := map[];
    for k := 0 to |selected|
      invariant groups.Keys == (set p | p in selected[..k] :: p.0)
      invariant forall c :: c in groups ==> groups[c] == (set p | p in selected[..k] && p.0 == c :: p.1)
    {
      var (category, entity) := selected[k];
      assert selected[..k + 1] == selected[..k] + [(category, entity)];
      if category !in groups {
        groups := groups[category := {}];
      }
      groups := groups[category := groups[category] + {entity}];
    }
    assert selected[..|selected|] == selected;
  }

  /** `groups`, in some order, lists the dictionary: each category once, with its values. */
  ghost predicate Lists(groups: seq<EntityGroup>, dict: map<string, set<string>>) {
    && (forall i :: 0 <= i < |groups| ==>
          groups[i].category in dict && (set e | e in groups[i].values) == dict[groups[i].category])
    && (forall c :: c in dict ==> exists i :: 0 <= i < |groups| && groups[i].category == c)
  }

  lemma {:induction false} FlattenHolds(groups: seq<EntityGroup>, e: string)
    ensures e in Flatten(groups) <==> exists i :: 0 <= i < |groups| && e in groups[i].values
  {
    if groups != [] {
      var init := groups[..|groups| - 1];
      FlattenHolds(init, e);
      if e in Flatten(init) {
        var i :| 0 <= i < |init| && e in init[i].values;
        assert groups[i] == init[i];
      }
      if i :| 0 <= i < |groups| && e in groups[i].values {
        if i < |init| {
          assert groups[i] == init[i];
        }
      }
    }
  }

  /**
   * Redacting the grouped selection redacts exactly the values the user
   * kept: whatever order the dictionary is listed in, the entities
   * `redact_text` meets are the selected values.
   */
  lemma GroupedEntitiesAreSelected(selected: seq<(string, string)>, dict: map<string, set<string>>, groups: seq<EntityGroup>)
    requires dict.Keys == (set p | p in selected :: p.0)
    requires forall c :: c in dict ==> dict[c] == (set p | p in selected && p.0 == c :: p.1)
    requires Lists(groups, dict)
    ensures Entities(groups) == (set p | p in selected :: p.1)
  {
    forall e ensures e in Entities(groups) <==> e in (set p | p in selected :: p.1) {
      FlattenHolds(groups, e);
      if e in Entities(groups) {
        var i :| 0 <= i < |groups| && e in groups[i].values;
        assert e in (set v | v in groups[i].values);
        assert e in dict[groups[i].category];
        var p :| p in selected && p.0 == groups[i].category && p.1 == e;
      }
      if p :| p in selected && p.1 == e {
        assert p.0 in dict;
        var i :| 0 <= i < |groups| && groups[i].category == p.0;
        assert e in dict[p.0];
        assert e in (set v | v in groups[i].values);
      }
    }
  }
}
