/**
 * The redaction table (`RedactionDatabase`): one row per original text,
 * `original` being the primary key, each row holding the tag that replaced
 * it. The SQLite file is only the medium, so the table is a map; the order
 * in which SQLite returns rows is not modelled, and queries that the source
 * answers with "the first matching row" choose any matching row.
 */
module Store {
  import opened Optional
  import opened Tags

  /** `SELECT tag FROM redactions WHERE original = ?`, as a value. */
  function Lookup(table: map<string, string>, original: string): Option<string> {
    if original in table then Some(table[original]) else None
  }

  /** Python's truth test on a looked-up value: `None` and the empty string are both false. */
  predicate Truthy(v: Option<string>) {
    v.Some? && v.value != ""
  }

  /** No two originals share a tag, so a tag leads back to one original. */
  ghost predicate TagsUnique(table: map<string, string>) {
    forall o1, o2 :: o1 in table && o2 in table && o1 != o2 ==> table[o1] != table[o2]
  }

  /**
   * Get-or-create: the tag the callers use for `original`, namely the stored
   * one when there is a (non-empty) one, and otherwise the tag minted from `body`.
   */
  function TagFor(table: map<string, string>, original: string, body: HexBody): string {
    if Truthy(Lookup(table, original)) then table[original] else MintTag(body)
  }

  /** The table after get-or-create: written only when a tag was minted. */
  function StoreTag(table: map<string, string>, original: string, body: HexBody): map<string, string> {
    if Truthy(Lookup(table, original)) then table else table[original := MintTag(body)]
  }

  /**
   * Get-or-create is stable: afterwards `original` is stored with the tag
   * that was handed out, every other row is as before, and doing it again
   * (with any fresh body) hands out the same tag and writes nothing.
   */
  lemma GetOrCreateStable(table: map<string, string>, original: string, body: HexBody, again: HexBody)
    ensures var t := TagFor(table, original, body);
      var table' := StoreTag(table, original, body);
      && Lookup(table', original) == Some(t)
      && t != ""
      && (forall o :: o != original ==> Lookup(table', o) == Lookup(table, o))
      && TagFor(table', original, again) == t
      && StoreTag(table', original, again) == table'
  {
    var t := MintTag(body);
    assert t[0] == '<' by { TagHasOneOpen(t); }
  }

  /** A stored tag is reused as it is, and the table is not written. */
  lemma GetOrCreateReuses(table: map<string, string>, original: string, body: HexBody)
    requires original in table && table[original] != ""
    ensures TagFor(table, original, body) == table[original]
    ensures StoreTag(table, original, body) == table
  {
  }

  /** Minting a tag that no row holds keeps tags unique. */
  lemma GetOrCreateKeepsTagsUnique(table: map<string, string>, original: string, body: HexBody)
    requires TagsUnique(table)
    requires MintTag(body) !in table.Values
    ensures TagsUnique(StoreTag(table, original, body))
  {
    var table' := StoreTag(table, original, body);
    forall o1, o2 | o1 in table' && o2 in table' && o1 != o2 ensures table'[o1] != table'[o2] {
      if o1 != original && o2 != original {
        assert table'[o1] == table[o1] && table'[o2] == table[o2];
      } else if table' != table {
        assert table'[original] == MintTag(body);
        var other := if o1 == original then o2 else o1;
        assert table'[other] == table[other] && table[other] in table.Values;
      }
    }
  }

  /** Every row with a (non-empty) tag holds a tag of the minted form. */
  ghost predicate TagsWellFormed(table: map<string, string>) {
    forall o :: o in table && table[o] != "" ==> IsTag(table[o])
  }

  /** Get-or-create on a well-formed table hands out a well-formed tag and keeps the table well-formed. */
  lemma GetOrCreateWellFormed(table: map<string, string>, original: string, body: HexBody)
    requires TagsWellFormed(table)
    ensures IsTag(TagFor(table, original, body))
    ensures TagsWellFormed(StoreTag(table, original, body))
  {
  }

  /**
   * In a well-formed table no tag holds a backslash, nor does the tag
   * get-or-create hands out, so substituting it with `re.sub` inserts it
   * as it is.
   */
  lemma StoredTagsHaveNoBackslash(table: map<string, string>, original: string, body: HexBody)
    requires TagsWellFormed(table)
    ensures forall o, k :: o in table && 0 <= k < |table[o]| ==> table[o][k] != '\\'
    ensures forall k :: 0 <= k < |TagFor(table, original, body)| ==> TagFor(table, original, body)[k] != '\\'
  {
    forall o | o in table && table[o] != "" {
      TagHasNoBackslash(table[o]);
    }
    TagHasNoBackslash(MintTag(body));
  }

  /** Writing a row over `table + m` is writing it into `m`. */
  lemma UpdateOverUnion(table: map<string, string>, m: map<string, string>, k: string, v: string)
    ensures (table + m)[k := v] == table + m[k := v]
  {
  }

  predicate Distinct(s: seq<string>) {
    forall i, j :: 0 <= i < j < |s| ==> s[i] != s[j]
  }

  class RedactionDatabase {
    /** The rows, keyed by `original`. */
    var table: map<string, string>

    /** Opening the store finds the rows earlier sessions committed. */
    constructor Open(stored: map<string, string>)
      ensures table == stored
    {
      table := stored;
    }

    /** `INSERT OR REPLACE`: `original` now maps to `tag`; every other row is unchanged. */
    method AddRedaction(original: string, tag: string)
      modifies this
      ensures table == old(table)[original := tag]
      ensures Lookup(table, original) == Some(tag)
      ensures forall o :: o != original ==> Lookup(table, o) == Lookup(old(table), o)
    {
      table := table[original := tag];
    }

    /** The tag of `original`, or None when no row has that key. */
    method GetTag(original: string) returns (tag: Option<string>)
      ensures tag.Some? <==> original in table
      ensures tag.Some? ==> table[original] == tag.value
    {
      tag := if original in table then Some(table[original]) else None;
    }

    /**
     * Get-or-create, as every caller writes it: look the tag up and, when
     * there is none (or it is empty), mint one from `body` and store it.
     */
    method GetOrCreate(original: string, body: HexBody) returns (tag: string)
      modifies this
      ensures tag == TagFor(old(table), original, body)
      ensures table == StoreTag(old(table), original, body)
    {
      var stored := GetTag(original);
      if !Truthy(stored) {
        tag := MintTag(body);
        AddRedaction(original, tag);
      } else {
        tag := stored.value;
      }
    }

    /** An original whose row holds `tag`, or None when no row holds it. */
    method GetOriginal(tag: string) returns (original: Option<string>)
      ensures original.None? <==> tag !in table.Values
      ensures original.Some? ==> original.value in table && table[original.value] == tag
    {
      if tag in table.Values {
        var o :| o in table && table[o] == tag;
        original := Some(o);
      } else {
        original := None;
      }
    }

    /** Every original in the table, each once (the key is unique), in some order. */
    method GetAllRedactedItems() returns (items: seq<string>)
      ensures forall o :: o in items <==> o in table
      ensures Distinct(items)
    {
      items := [];
      var rest := table.Keys;
      while rest != {}
        invariant rest <= table.Keys
        invariant forall o :: o in items <==> o in table && o !in rest
        invariant Distinct(items)
        decreases |rest|
      {
        var o :| o in rest;
        items := items + [o];
        rest := rest - {o};
      }
    }
  }
}
