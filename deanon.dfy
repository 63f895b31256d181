/**
 * `perform_deanonymization`: every substring of the form
 * `<ANON_` + eight lower-case hex digits + `>` is looked up by tag, and when
 * the table gives a (non-empty) original, every occurrence of that tag is
 * replaced by it, tag after tag in the order found.
 */
module Deanonymizing {
  import opened Optional
  import opened Tags
  import opened Matching
  import opened Store

  /** What `get_original` may answer for each found tag: None when no row holds it, else a row that does. */
  ghost predicate ValidPicks(tags: seq<string>, picks: seq<Option<string>>, table: map<string, string>) {
    && |picks| == |tags|
    && forall k :: 0 <= k < |tags| ==>
         && (picks[k].None? <==> tags[k] !in table.Values)
         && (picks[k].Some? ==> picks[k].value in table && table[picks[k].value] == tags[k])
  }

  /** The replacements performed: one per found tag whose original is truthy. */
  function DeanonSteps(tags: seq<string>, picks: seq<Option<string>>): seq<(string, string)>
    requires |picks| == |tags|
  {
    if tags == [] then []
    else
      var n := |tags| - 1;
      DeanonSteps(tags[..n], picks[..n]) + (if Truthy(picks[n]) then [(tags[n], picks[n].value)] else [])
  }

  /** Looking up one more found tag adds its replacement, if its original is truthy. */
  lemma DeanonOneMore(tags: seq<string>, picks: seq<Option<string>>, table: map<string, string>, k: nat, pick: Option<string>)
    requires k < |tags| && ValidPicks(tags[..k], picks, table)
    requires pick.None? <==> tags[k] !in table.Values
    requires pick.Some? ==> pick.value in table && table[pick.value] == tags[k]
    ensures ValidPicks(tags[..k + 1], picks + [pick], table)
    ensures Truthy(pick) ==> DeanonSteps(tags[..k + 1], picks + [pick]) == DeanonSteps(tags[..k], picks) + [(tags[k], pick.value)]
    ensures !Truthy(pick) ==> DeanonSteps(tags[..k + 1], picks + [pick]) == DeanonSteps(tags[..k], picks)
  {
    assert tags[..k + 1][..k] == tags[..k];
    assert (picks + [pick])[..k] == picks;
    assert DeanonSteps(tags[..k], picks) + [] == DeanonSteps(tags[..k], picks);
  }

  /**
   * Every replacement turns a found tag back into the non-empty original
   * whose row holds it.
   */
  lemma {:induction false} DeanonStepsFromRows(tags: seq<string>, picks: seq<Option<string>>, table: map<string, string>)
    requires ValidPicks(tags, picks, table)
    ensures forall j :: 0 <= j < |DeanonSteps(tags, picks)| ==>
      var step := DeanonSteps(tags, picks)[j];
      step.0 in tags && step.1 != "" && step.1 in table && table[step.1] == step.0
  {
    if tags != [] {
      var n := |tags| - 1;
      assert ValidPicks(tags[..n], picks[..n], table);
      DeanonStepsFromRows(tags[..n], picks[..n], table);
      var steps := DeanonSteps(tags, picks);
      var init := DeanonSteps(tags[..n], picks[..n]);
      forall j | 0 <= j < |steps| ensures steps[j].0 in tags && steps[j].1 != "" && steps[j].1 in table && table[steps[j].1] == steps[j].0 {
        if j < |init| {
          assert steps[j] == init[j];
          assert forall x :: x in tags[..n] ==> x in tags;
        }
      }
    }
  }

  /** With tags unique in the table, the original chosen for a tag is the only one that tag stands for. */
  lemma PicksAreTheOriginals(tags: seq<string>, picks: seq<Option<string>>, table: map<string, string>, k: nat, o: string)
    requires ValidPicks(tags, picks, table) && TagsUnique(table)
    requires k < |tags| && o in table && table[o] == tags[k]
    ensures picks[k] == Some(o)
  {
    assert table[o] in table.Values;
  }

  /** An occurrence in the tail of a text is an occurrence in the text. */
  lemma OccursAfter(before: string, s: string, t: string)
    requires Occurs(Literal, s, t)
    ensures Occurs(Literal, before + s, t)
  {
    var q: nat :| q <= |s| && MatchAt(Literal, s, t, q);
    assert (before + s)[|before| + q..|before| + q + |t|] == s[q..q + |t|];
    assert MatchAt(Literal, before + s, t, |before| + q);
  }

  /** A literal occurrence of a tag is a tag in the text. */
  lemma OccurrenceIsTag(s: string, t: string, p: nat)
    requires IsTag(t) && MatchAt(Literal, s, t, p)
    ensures TagAt(s, p)
  {
  }

  /** The pass for `u` leaves alone the occurrence of another tag `t` at `p`. */
  lemma {:induction false} TagSurvivesFrom(s: string, t: string, u: string, o: string, i: nat, p: nat)
    requires IsTag(t) && IsTag(u) && t != u
    requires i <= p && MatchAt(Literal, s, t, p)
    ensures Occurs(Literal, ReplaceFrom(Literal, s, u, o, i).text, t)
    decreases p - i
  {
    OccurrenceIsTag(s, t, p);
    if i == p {
      assert !MatchAt(Literal, s, u, p);
      forall k: nat | p <= k < p + TagLength ensures !MatchAt(Literal, s, u, k) {
        if p < k && MatchAt(Literal, s, u, k) {
          OccurrenceIsTag(s, u, k);
          TagsDoNotOverlap(s, p, k);
        }
      }
      ReplaceFromCopies(Literal, s, u, o, p, p + TagLength);
      var r := ReplaceFrom(Literal, s, u, o, p).text;
      assert r[0..TagLength] == t;
      assert MatchAt(Literal, r, t, 0);
    } else if MatchAt(Literal, s, u, i) {
      OccurrenceIsTag(s, u, i);
      TagsDoNotOverlap(s, i, p);
      TagSurvivesFrom(s, t, u, o, i + TagLength, p);
      var rest := ReplaceFrom(Literal, s, u, o, i + TagLength);
      assert ReplaceFrom(Literal, s, u, o, i).text == o + rest.text;
      OccursAfter(o, rest.text, t);
    } else {
      TagSurvivesFrom(s, t, u, o, i + 1, p);
      var rest := ReplaceFrom(Literal, s, u, o, i + 1);
      assert ReplaceFrom(Literal, s, u, o, i).text == [s[i]] + rest.text;
      OccursAfter([s[i]], rest.text, t);
    }
  }

  /** Replacements of other tags leave every occurrence of tag `t` in place. */
  lemma {:induction false} TagSurvivesSteps(text: string, steps: seq<(string, string)>, t: string)
    requires IsTag(t) && Occurs(Literal, text, t)
    requires forall j :: 0 <= j < |steps| ==> IsTag(steps[j].0) && steps[j].0 != t
    ensures Occurs(Literal, ReplaceEach(Literal, text, steps), t)
    decreases |steps|
  {
    if steps != [] {
      var n := |steps| - 1;
      TagSurvivesSteps(text, steps[..n], t);
      var s := ReplaceEach(Literal, text, steps[..n]);
      var p: nat :| p <= |s| && MatchAt(Literal, s, t, p);
      TagSurvivesFrom(s, t, steps[n].0, steps[n].1, 0, p);
    }
  }

  /** The number of positions of `s[i..]` at which `t` occurs. */
  function CountFrom(s: string, t: string, i: nat): nat
    requires i <= |s|
    decreases |s| - i
  {
    if i == |s| then 0 else (if MatchAt(Literal, s, t, i) then 1 else 0) + CountFrom(s, t, i + 1)
  }

  /** How many times `t` occurs in `s`. */
  function Count(s: string, t: string): nat {
    CountFrom(s, t, 0)
  }

  /** An occurrence of `t` in `y` is one in `x + y`, shifted by `|x|`. */
  lemma {:induction false} CountShift(x: string, y: string, t: string, k: nat)
    requires k <= |y|
    ensures CountFrom(x + y, t, |x| + k) == CountFrom(y, t, k)
    decreases |y| - k
  {
    if k < |y| {
      CountShift(x, y, t, k + 1);
      if |x| + k + |t| <= |x + y| {
        assert (x + y)[|x| + k..|x| + k + |t|] == y[k..k + |t|];
      }
    }
  }

  /** Gluing two texts together loses none of the occurrences of either. */
  lemma {:induction false} CountAppendFrom(x: string, y: string, t: string, i: nat)
    requires i <= |x|
    ensures CountFrom(x + y, t, i) >= CountFrom(x, t, i) + Count(y, t)
    decreases |x| - i
  {
    if i == |x| {
      CountShift(x, y, t, 0);
    } else {
      CountAppendFrom(x, y, t, i + 1);
      if MatchAt(Literal, x, t, i) {
        assert (x + y)[i..i + |t|] == x[i..i + |t|];
      }
    }
  }

  lemma CountAppend(x: string, y: string, t: string)
    ensures Count(x + y, t) >= Count(x, t) + Count(y, t)
  {
    CountAppendFrom(x, y, t, 0);
  }

  /** Positions where `t` does not occur add nothing to the count. */
  lemma {:induction false} CountSkip(s: string, t: string, i: nat, j: nat)
    requires i <= j <= |s|
    requires forall k: nat :: i <= k < j ==> !MatchAt(Literal, s, t, k)
    ensures CountFrom(s, t, i) == CountFrom(s, t, j)
    decreases j - i
  {
    if i < j {
      CountSkip(s, t, i + 1, j);
    }
  }

  /** No tag starts strictly inside an occurrence of tag `u`. */
  lemma NoTagInside(s: string, t: string, u: string, i: nat)
    requires IsTag(t) && IsTag(u) && MatchAt(Literal, s, u, i)
    ensures forall k: nat :: i < k < i + TagLength ==> !MatchAt(Literal, s, t, k)
  {
    forall k: nat | i < k < i + TagLength ensures !MatchAt(Literal, s, t, k) {
      if MatchAt(Literal, s, t, k) {
        OccurrenceIsTag(s, u, i);
        OccurrenceIsTag(s, t, k);
        TagsDoNotOverlap(s, i, k);
      }
    }
  }

  /** An occurrence of another tag `u` at `i` holds no occurrence of `t`. */
  lemma CountPastOtherTag(s: string, t: string, u: string, i: nat)
    requires IsTag(t) && IsTag(u) && t != u && MatchAt(Literal, s, u, i)
    ensures CountFrom(s, t, i) == CountFrom(s, t, i + TagLength)
  {
    NoTagInside(s, t, u, i);
    CountSkip(s, t, i, i + TagLength);
  }

  /** An occurrence of `t` at `i` counts once, and no other starts inside it. */
  lemma CountPastTag(s: string, t: string, i: nat)
    requires IsTag(t) && MatchAt(Literal, s, t, i)
    ensures CountFrom(s, t, i) == 1 + CountFrom(s, t, i + TagLength)
  {
    NoTagInside(s, t, t, i);
    CountSkip(s, t, i + 1, i + TagLength);
  }

  lemma CountItself(t: string)
    requires t != []
    ensures Count(t, t) >= 1
  {
    assert t[0..|t|] == t;
    assert MatchAt(Literal, t, t, 0);
  }

  /**
   * The pass that replaces tag `u` loses no occurrence of another tag `t`:
   * the result holds at least as many as `s[i..]`.
   */
  lemma {:induction false} TagCountKeptFrom(s: string, t: string, u: string, o: string, i: nat)
    requires IsTag(t) && IsTag(u) && t != u && i <= |s|
    ensures Count(ReplaceFrom(Literal, s, u, o, i).text, t) >= CountFrom(s, t, i)
    decreases |s| - i
  {
    if i == |s| {
    } else if MatchAt(Literal, s, u, i) {
      var rest := ReplaceFrom(Literal, s, u, o, i + TagLength).text;
      TagCountKeptFrom(s, t, u, o, i + TagLength);
      assert ReplaceFrom(Literal, s, u, o, i).text == o + rest;
      CountAppend(o, rest, t);
      CountPastOtherTag(s, t, u, i);
    } else if MatchAt(Literal, s, t, i) {
      NoTagInside(s, u, t, i);
      ReplaceFromCopies(Literal, s, u, o, i, i + TagLength);
      var rest := ReplaceFrom(Literal, s, u, o, i + TagLength).text;
      TagCountKeptFrom(s, t, u, o, i + TagLength);
      assert ReplaceFrom(Literal, s, u, o, i).text == t + rest;
      CountAppend(t, rest, t);
      CountItself(t);
      CountPastTag(s, t, i);
    } else {
      var rest := ReplaceFrom(Literal, s, u, o, i + 1).text;
      TagCountKeptFrom(s, t, u, o, i + 1);
      assert ReplaceFrom(Literal, s, u, o, i).text == [s[i]] + rest;
      CountAppend([s[i]], rest, t);
      assert CountFrom(s, t, i) == CountFrom(s, t, i + 1);
    }
  }

  /** Replacements of other tags lose no occurrence of tag `t`. */
  lemma {:induction false} TagCountKeptSteps(text: string, steps: seq<(string, string)>, t: string)
    requires IsTag(t)
    requires forall j :: 0 <= j < |steps| ==> IsTag(steps[j].0) && steps[j].0 != t
    ensures Count(ReplaceEach(Literal, text, steps), t) >= Count(text, t)
    decreases |steps|
  {
    if steps != [] {
      var n := |steps| - 1;
      TagCountKeptSteps(text, steps[..n], t);
      var s := ReplaceEach(Literal, text, steps[..n]);
      TagCountKeptFrom(s, t, steps[n].0, steps[n].1, 0);
    }
  }

  /**
   * A well-formed tag that no row holds passes through deanonymization:
   * none of its occurrences is lost, so if it occurs in the text it still
   * occurs in the result.
   */
  lemma UnknownTagSurvives(text: string, picks: seq<Option<string>>, table: map<string, string>, t: string)
    requires ValidPicks(FindTags(text), picks, table)
    requires IsTag(t) && t !in table.Values
    ensures Count(ReplaceEach(Literal, text, DeanonSteps(FindTags(text), picks)), t) >= Count(text, t)
    ensures Occurs(Literal, text, t) ==> Occurs(Literal, ReplaceEach(Literal, text, DeanonSteps(FindTags(text), picks)), t)
  {
    var steps := DeanonSteps(FindTags(text), picks);
    DeanonStepsFromRows(FindTags(text), picks, table);
    forall j | 0 <= j < |steps| ensures IsTag(steps[j].0) && steps[j].0 != t {
      assert steps[j].0 in FindTags(text);
      assert table[steps[j].1] in table.Values;
    }
    TagCountKeptSteps(text, steps, t);
    if Occurs(Literal, text, t) {
      TagSurvivesSteps(text, steps, t);
    }
  }

  predicate EndsWith(s: string, suffix: string) {
    |suffix| <= |s| && s[|s| - |suffix|..] == suffix
  }

  lemma EndsWithAfter(before: string, s: string, suffix: string)
    requires EndsWith(s, suffix)
    ensures EndsWith(before + s, suffix)
  {
    assert (before + s)[|before + s| - |suffix|..] == s[|s| - |suffix|..];
  }

  /**
   * `text.replace(tag, original)` replaces every occurrence of a tag: for an
   * occurrence at `p`, the pass puts `o` there and carries on right after it
   * (tags cannot overlap, so the pass never skips one).
   */
  lemma {:induction false} EveryTagOccurrenceReplaced(s: string, u: string, o: string, i: nat, p: nat)
    requires IsTag(u) && i <= p && MatchAt(Literal, s, u, p)
    ensures EndsWith(ReplaceFrom(Literal, s, u, o, i).text, o + ReplaceFrom(Literal, s, u, o, p + TagLength).text)
    decreases p - i
  {
    OccurrenceIsTag(s, u, p);
    var tail := o + ReplaceFrom(Literal, s, u, o, p + TagLength).text;
    if i == p {
      assert ReplaceFrom(Literal, s, u, o, i).text == tail;
    } else if MatchAt(Literal, s, u, i) {
      OccurrenceIsTag(s, u, i);
      TagsDoNotOverlap(s, i, p);
      EveryTagOccurrenceReplaced(s, u, o, i + TagLength, p);
      var rest := ReplaceFrom(Literal, s, u, o, i + TagLength).text;
      assert ReplaceFrom(Literal, s, u, o, i).text == o + rest;
      EndsWithAfter(o, rest, tail);
    } else {
      EveryTagOccurrenceReplaced(s, u, o, i + 1, p);
      var rest := ReplaceFrom(Literal, s, u, o, i + 1).text;
      assert ReplaceFrom(Literal, s, u, o, i).text == [s[i]] + rest;
      EndsWithAfter([s[i]], rest, tail);
    }
  }
}
