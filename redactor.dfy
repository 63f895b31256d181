/**
 * The batch side of the engine (`redact_text`, `apply_redaction`,
 * `unredact_text`): tags are fetched or minted through the table, and every
 * word-bounded, case-insensitive occurrence of each entity is replaced.
 */
module Redactor {
  import opened Tags
  import opened Matching
  import opened Store

  /** One category of recognised entities (`entity_type`) with its values, in iteration order. */
  datatype EntityGroup = EntityGroup(category: string, values: seq<string>)

  /** The values of all groups, group after group: the order in which `redact_text` meets them. */
  function Flatten(groups: seq<EntityGroup>): seq<string> {
    if groups == [] then [] else Flatten(groups[..|groups| - 1]) + groups[|groups| - 1].values
  }

  function Entities(groups: seq<EntityGroup>): set<string> {
    set e | e in Flatten(groups)
  }

  /** Each entity with the tag get-or-create gives it against `table`, drawing `bodyFor(e)` when it mints. */
  function TagMap(table: map<string, string>, entities: set<string>, bodyFor: string -> HexBody): map<string, string> {
    map e | e in entities :: TagFor(table, e, bodyFor(e))
  }

  /** The substitutions `redact_text` performs: one per value met, duplicates included. */
  function EntitySteps(met: seq<string>, table: map<string, string>, bodyFor: string -> HexBody): seq<(string, string)> {
    if met == [] then []
    else
      var e := met[|met| - 1];
      EntitySteps(met[..|met| - 1], table, bodyFor) + [(e, TagFor(table, e, bodyFor(e)))]
  }

  /**
   * `redact_text`: the returned map has exactly the entities as keys, each
   * with the tag already stored for it or else a freshly minted one; the
   * minted tags are stored, and the text has every entity replaced, in
   * iteration order.
   */
  method RedactText(db: RedactionDatabase, text: string, groups: seq<EntityGroup>, bodyFor: string -> HexBody)
    returns (redacted: string, rmap: map<string, string>)
    modifies db
    ensures rmap == TagMap(old(db.table), Entities(groups), bodyFor)
    ensures db.table == old(db.table) + rmap
    ensures redacted == ReplaceEach(WordIgnoreCase, text, EntitySteps(Flatten(groups), old(db.table), bodyFor))
    ensures Flatten(groups) == [] ==> redacted == text && rmap == map[] && db.table == old(db.table)
  {
    ghost var table0 := db.table;
    ghost var met: seq<string> := [];
    redacted := text;
    rmap := map[];
    for g := 0 to |groups|
      invariant met == Flatten(groups[..g])
      invariant Redacting(table0, bodyFor, text, met, rmap, db.table, redacted)
    {
      var values := groups[g].values;
      for v := 0 to |values|
        invariant met == Flatten(groups[..g]) + values[..v]
        invariant Redacting(table0, bodyFor, text, met, rmap, db.table, redacted)
      {
        var entity := values[v];
        ghost var (rmap0, tableBefore, redacted0) := (rmap, db.table, redacted);
        var tag: string;
        if entity !in rmap {
          tag := db.GetOrCreate(entity, bodyFor(entity));
          rmap := rmap[entity := tag];
        } else {
          tag := rmap[entity];
        }
        redacted := ReplaceAll(WordIgnoreCase, redacted, entity, tag).text;
        RedactingStep(table0, bodyFor, text, met, rmap0, tableBefore, redacted0, entity, tag, rmap, db.table, redacted);
        MetSnoc(Flatten(groups[..g]), values, v);
        met := met + [entity];
      }
      FlattenSnoc(groups, g);
    }
    assert groups[..|groups|] == groups;
    TagMapIs(rmap, table0, groups, bodyFor);
  }

  /**
   * What `redact_text` has done once it has met the values `met`: the map
   * holds their get-or-create tags, the table is the old table updated by
   * the map, and the text has had one substitution per value met.
   */
  ghost predicate Redacting(table0: map<string, string>, bodyFor: string -> HexBody, text: string,
                            met: seq<string>, rmap: map<string, string>, table: map<string, string>, redacted: string)
  {
    && (forall e :: e in rmap <==> e in met)
    && (forall e :: e in rmap ==> rmap[e] == TagFor(table0, e, bodyFor(e)))
    && table == table0 + rmap
    && redacted == ReplaceEach(WordIgnoreCase, text, EntitySteps(met, table0, bodyFor))
  }

  /** One iteration of the inner loop keeps `Redacting`. */
  lemma RedactingStep(table0: map<string, string>, bodyFor: string -> HexBody, text: string, met: seq<string>,
                      rmap: map<string, string>, table: map<string, string>, redacted: string,
                      e: string, tag: string, rmap': map<string, string>, table': map<string, string>, redacted': string)
    requires Redacting(table0, bodyFor, text, met, rmap, table, redacted)
    requires e in rmap ==> tag == rmap[e] && rmap' == rmap && table' == table
    requires e !in rmap ==>
      tag == TagFor(table, e, bodyFor(e)) && rmap' == rmap[e := tag] && table' == StoreTag(table, e, bodyFor(e))
    requires redacted' == ReplaceAll(WordIgnoreCase, redacted, e, tag).text
    ensures Redacting(table0, bodyFor, text, met + [e], rmap', table', redacted')
  {
    if e !in rmap {
      StoreOverRedactions(table0, rmap, e, bodyFor(e));
    }
    MetOneMore(text, met, e, table0, bodyFor);
  }

  lemma MetSnoc<T>(before: seq<T>, s: seq<T>, n: nat)
    requires n < |s|
    ensures before + s[..n] + [s[n]] == before + s[..n + 1]
  {
    assert s[..n + 1] == s[..n] + [s[n]];
  }

  /** The values met after `g + 1` groups are those of `g` groups and then all of group `g`. */
  lemma FlattenSnoc(groups: seq<EntityGroup>, g: nat)
    requires g < |groups|
    ensures Flatten(groups[..g + 1]) == Flatten(groups[..g]) + groups[g].values[..|groups[g].values|]
  {
    assert groups[..g + 1][..g] == groups[..g];
    assert groups[g].values[..|groups[g].values|] == groups[g].values;
  }

  /** Get-or-create of an entity not yet met, against the table as redaction has left it so far. */
  lemma StoreOverRedactions(table: map<string, string>, rmap: map<string, string>, e: string, body: HexBody)
    requires e !in rmap
    ensures TagFor(table + rmap, e, body) == TagFor(table, e, body)
    ensures StoreTag(table + rmap, e, body) == table + rmap[e := TagFor(table, e, body)]
  {
    assert Lookup(table + rmap, e) == Lookup(table, e);
    if Truthy(Lookup(table, e)) {
      assert table + rmap[e := table[e]] == table + rmap;
    }
  }

  /** Meeting one more value adds one substitution by its get-or-create tag. */
  lemma MetOneMore(text: string, met: seq<string>, e: string, table: map<string, string>, bodyFor: string -> HexBody)
    ensures EntitySteps(met + [e], table, bodyFor) == EntitySteps(met, table, bodyFor) + [(e, TagFor(table, e, bodyFor(e)))]
    ensures ReplaceEach(WordIgnoreCase, text, EntitySteps(met + [e], table, bodyFor))
      == ReplaceAll(WordIgnoreCase, ReplaceEach(WordIgnoreCase, text, EntitySteps(met, table, bodyFor)), e, TagFor(table, e, bodyFor(e))).text
  {
    assert (met + [e])[..|met|] == met;
    ReplaceEachSnoc(WordIgnoreCase, text, EntitySteps(met, table, bodyFor), (e, TagFor(table, e, bodyFor(e))));
  }

  /** A map that agrees with get-or-create on exactly the entities is the redaction map. */
  lemma TagMapIs(rmap: map<string, string>, table: map<string, string>, groups: seq<EntityGroup>, bodyFor: string -> HexBody)
    requires forall e :: e in rmap <==> e in Flatten(groups)
    requires forall e :: e in rmap ==> rmap[e] == TagFor(table, e, bodyFor(e))
    ensures rmap == TagMap(table, Entities(groups), bodyFor)
  {
  }

  /**
   * Redaction keeps the table's tags unique, provided every minted tag is
   * new to the table and distinct entities draw distinct bodies (the
   * freshness `uuid4` gives with high probability, assumed here).
   */
  lemma RedactKeepsTagsUnique(table: map<string, string>, entities: set<string>, bodyFor: string -> HexBody)
    requires TagsUnique(table)
    requires forall e :: e in entities && !Truthy(Lookup(table, e)) ==> MintTag(bodyFor(e)) !in table.Values
    requires forall e1, e2 ::
      (e1 in entities && e2 in entities && e1 != e2 && !Truthy(Lookup(table, e1)) && !Truthy(Lookup(table, e2)))
      ==> bodyFor(e1) != bodyFor(e2)
    ensures TagsUnique(table + TagMap(table, entities, bodyFor))
  {
    var rmap := TagMap(table, entities, bodyFor);
    var after := table + rmap;
    forall o1, o2 | o1 in after && o2 in after && o1 != o2 ensures after[o1] != after[o2] {
      var minted1 := o1 in entities && !Truthy(Lookup(table, o1));
      var minted2 := o2 in entities && !Truthy(Lookup(table, o2));
      if minted1 && minted2 {
        if after[o1] == after[o2] {
          MintTagInjective(bodyFor(o1), bodyFor(o2));
        }
      } else if minted1 {
        assert after[o2] == table[o2] && table[o2] in table.Values;
      } else if minted2 {
        assert after[o1] == table[o1] && table[o1] in table.Values;
      } else {
        assert after[o1] == table[o1] && after[o2] == table[o2];
      }
    }
  }

  /** Redaction against a table of well-formed tags hands out and stores only well-formed tags. */
  lemma RedactKeepsTagsWellFormed(table: map<string, string>, entities: set<string>, bodyFor: string -> HexBody)
    requires TagsWellFormed(table)
    ensures forall e :: e in entities ==> IsTag(TagMap(table, entities, bodyFor)[e])
    ensures TagsWellFormed(table + TagMap(table, entities, bodyFor))
  {
    forall e | e in entities ensures IsTag(TagMap(table, entities, bodyFor)[e]) {
      GetOrCreateWellFormed(table, e, bodyFor(e));
    }
  }

  /** A dictionary's items in iteration order, as a map (a later item for the same key wins). */
  function AsMap(items: seq<(string, string)>): map<string, string> {
    if items == [] then map[]
    else
      var last := items[|items| - 1];
      AsMap(items[..|items| - 1])[last.0 := last.1]
  }

  predicate DistinctKeys(items: seq<(string, string)>) {
    forall i, j :: 0 <= i < j < |items| ==> items[i].0 != items[j].0
  }

  /** The keys of `AsMap(items)` are the items' keys, and with distinct keys each maps to its own value. */
  lemma {:induction false} AsMapHoldsItems(items: seq<(string, string)>)
    ensures forall o :: o in AsMap(items) <==> exists k :: 0 <= k < |items| && items[k].0 == o
    ensures DistinctKeys(items) ==>
      forall k :: 0 <= k < |items| ==> items[k].0 in AsMap(items) && AsMap(items)[items[k].0] == items[k].1
  {
    if items != [] {
      var n := |items| - 1;
      var init := items[..n];
      AsMapHoldsItems(init);
      assert AsMap(items) == AsMap(init)[items[n].0 := items[n].1];
      forall o | o in AsMap(items) ensures exists k :: 0 <= k < |items| && items[k].0 == o {
        if o != items[n].0 {
          var k :| 0 <= k < |init| && init[k].0 == o;
          assert items[k].0 == o;
        }
      }
      forall o | (exists k :: 0 <= k < |items| && items[k].0 == o) ensures o in AsMap(items) {
        var k :| 0 <= k < |items| && items[k].0 == o;
        if k < n {
          assert init[k].0 == o;
        }
      }
      if DistinctKeys(items) {
        assert DistinctKeys(init);
        forall k | 0 <= k < |items| ensures items[k].0 in AsMap(items) && AsMap(items)[items[k].0] == items[k].1 {
          if k < n {
            assert init[k] == items[k];
          }
        }
      }
    }
  }

  /**
   * `apply_redaction`: every item is stored (insert-or-replace) and every
   * word-bounded, case-insensitive occurrence of its original is replaced by
   * its tag, item after item.
   */
  method ApplyRedaction(db: RedactionDatabase, text: string, items: seq<(string, string)>) returns (redacted: string)
    modifies db
    ensures db.table == old(db.table) + AsMap(items)
    ensures redacted == ReplaceEach(WordIgnoreCase, text, items)
  {
    redacted := text;
    for k := 0 to |items|
      invariant db.table == old(db.table) + AsMap(items[..k])
      invariant redacted == ReplaceEach(WordIgnoreCase, text, items[..k])
    {
      var (original, tag) := items[k];
      db.AddRedaction(original, tag);
      redacted := ReplaceAll(WordIgnoreCase, redacted, original, tag).text;
      AppliedOneMore(text, items, k);
      UpdateOverUnion(old(db.table), AsMap(items[..k]), original, tag);
    }
    assert items[..|items|] == items;
  }

  /** Applying one more item stores it and performs its substitution. */
  lemma AppliedOneMore(text: string, items: seq<(string, string)>, k: nat)
    requires k < |items|
    ensures AsMap(items[..k + 1]) == AsMap(items[..k])[items[k].0 := items[k].1]
    ensures ReplaceEach(WordIgnoreCase, text, items[..k + 1])
      == ReplaceAll(WordIgnoreCase, ReplaceEach(WordIgnoreCase, text, items[..k]), items[k].0, items[k].1).text
  {
    assert items[..k + 1] == items[..k] + [items[k]];
    assert items[..k + 1][..k] == items[..k];
  }

  /** `unredact_text`: each tag replaced back (exactly, case-sensitively) by its original, item after item. */
  function UnredactText(text: string, items: seq<(string, string)>): string {
    if items == [] then text
    else
      var last := items[|items| - 1];
      ReplaceAll(Literal, UnredactText(text, items[..|items| - 1]), last.1, last.0).text
  }

  /** Text that holds none of the tags comes back unchanged. */
  lemma {:induction false} UnredactWithoutTags(text: string, items: seq<(string, string)>)
    requires forall k :: 0 <= k < |items| ==> !Occurs(Literal, text, items[k].1)
    ensures UnredactText(text, items) == text
  {
    if items != [] {
      UnredactWithoutTags(text, items[..|items| - 1]);
    }
  }

  /**
   * `unredact_text` inverts `apply_redaction` for one item, provided the
   * text had no '<' (so the only tags in the redacted text are the ones put
   * there) and every occurrence that was redacted was spelled exactly as
   * the original (the case-insensitive match forgets the spelling).
   */
  lemma UnredactInvertsRedaction(text: string, original: string, tag: string)
    requires IsTag(tag) && original != ""
    requires forall k :: 0 <= k < |text| ==> text[k] != '<'
    requires forall j: nat :: MatchAt(WordIgnoreCase, text, original, j) ==> text[j..j + |original|] == original
    ensures UnredactText(ReplaceEach(WordIgnoreCase, text, [(original, tag)]), [(original, tag)]) == text
  {
    TagHasOneOpen(tag);
    assert [(original, tag)][..0] == [];
    ReplaceBackRestores(WordIgnoreCase, text, original, tag, 0);
    assert text[0..] == text;
  }
}
