/**
 * The tag wire format. A tag is minted as `"<ANON_" + uuid4().hex[:8] + ">"`
 * and the deanonymizer finds tags with the pattern `<ANON_[a-f0-9]{8}>`.
 * The random part is not modelled: a minted body is any eight lower-case
 * hexadecimal digits, which is what `uuid4().hex[:8]` always produces.
 */
module Tags {

  const Prefix: string := "<ANON_"

  /** The length of every tag: the prefix, eight digits and the closing bracket. */
  const TagLength: nat := 15

  predicate IsHexDigit(c: char) {
    ('0' <= c <= '9') || ('a' <= c <= 'f')
  }

  predicate IsHexBody(s: string) {
    |s| == 8 && forall k :: 0 <= k < 8 ==> IsHexDigit(s[k])
  }

  /** What `uuid4().hex[:8]` yields. */
  type HexBody = s: string | IsHexBody(s) witness "00000000"

  /** The deanonymizer's pattern `<ANON_[a-f0-9]{8}>`, matched against a whole string. */
  predicate IsTag(s: string) {
    && |s| == TagLength
    && s[..6] == Prefix
    && IsHexBody(s[6..14])
    && s[14] == '>'
  }

  /**
   * A minted tag is exactly the form the deanonymizer recognises, and
   * different bodies give different tags.
   */
  function MintTag(body: HexBody): (t: string)
    ensures IsTag(t)
    ensures t[6..14] == body
  {
    var t := Prefix + body + ">";
    assert t[..6] == Prefix;
    assert t[6..14] == body;
    t
  }

  lemma MintTagInjective(b1: HexBody, b2: HexBody)
    requires MintTag(b1) == MintTag(b2)
    ensures b1 == b2
  {
    assert b1 == MintTag(b1)[6..14];
  }

  /** A tag opens with '<' and holds no other '<', so two occurrences of tags never overlap. */
  lemma TagHasOneOpen(t: string)
    requires IsTag(t)
    ensures t[0] == '<'
    ensures forall k :: 0 < k < |t| ==> t[k] != '<'
  {
    assert t[0] == t[..6][0];
    forall k | 0 < k < |t| ensures t[k] != '<' {
      if k < 6 {
        assert t[k] == t[..6][k];
      } else if k < 14 {
        assert t[k] == t[6..14][k - 6];
      }
    }
  }

  /** A tag holds no backslash, so `re.sub` inserts it as it is. */
  lemma TagHasNoBackslash(t: string)
    requires IsTag(t)
    ensures forall k :: 0 <= k < |t| ==> t[k] != '\\'
  {
    forall k | 0 <= k < |t| ensures t[k] != '\\' {
      if k < 6 {
        assert t[k] == t[..6][k];
      } else if k < 14 {
        assert t[k] == t[6..14][k - 6];
      }
    }
  }

  /** `re.findall(r'<ANON_[a-f0-9]{8}>', text[i..])`: the tags of the text, left to right. */
  function FindTagsFrom(text: string, i: nat): (tags: seq<string>)
    ensures forall k :: 0 <= k < |tags| ==> IsTag(tags[k])
    decreases |text| - i
  {
    if i + TagLength > |text| then []
    else if IsTag(text[i..i + TagLength]) then [text[i..i + TagLength]] + FindTagsFrom(text, i + TagLength)
    else FindTagsFrom(text, i + 1)
  }

  function FindTags(text: string): (tags: seq<string>)
    ensures forall k :: 0 <= k < |tags| ==> IsTag(tags[k])
  {
    FindTagsFrom(text, 0)
  }

  /** The text holds a tag at position `p`. */
  predicate TagAt(text: string, p: nat) {
    p + TagLength <= |text| && IsTag(text[p..p + TagLength])
  }

  /** Two tags of one text are at least a tag's length apart. */
  lemma TagsDoNotOverlap(text: string, i: nat, p: nat)
    requires i < p && TagAt(text, i) && TagAt(text, p)
    ensures i + TagLength <= p
  {
    if p < i + TagLength {
      var t, u := text[i..i + TagLength], text[p..p + TagLength];
      assert t[p - i] == u[0];
      TagHasOneOpen(u);
      TagHasOneOpen(t);
    }
  }

  /** Everything found is a tag that occurs in the text. */
  lemma {:induction false} FoundTagsOccur(text: string, i: nat, k: nat)
    requires k < |FindTagsFrom(text, i)|
    ensures exists p: nat :: i <= p && TagAt(text, p) && text[p..p + TagLength] == FindTagsFrom(text, i)[k]
    decreases |text| - i
  {
    if i + TagLength <= |text| {
      if IsTag(text[i..i + TagLength]) {
        if k > 0 {
          FoundTagsOccur(text, i + TagLength, k - 1);
        } else {
          assert TagAt(text, i);
        }
      } else {
        FoundTagsOccur(text, i + 1, k);
      }
    }
  }

  /** Every tag of the text at or after `i` is found: the scan never skips one. */
  lemma {:induction false} FindTagsComplete(text: string, i: nat, p: nat)
    requires i <= p && TagAt(text, p)
    ensures text[p..p + TagLength] in FindTagsFrom(text, i)
    decreases p - i
  {
    if i < p {
      if IsTag(text[i..i + TagLength]) {
        TagsDoNotOverlap(text, i, p);
        FindTagsComplete(text, i + TagLength, p);
      } else {
        FindTagsComplete(text, i + 1, p);
      }
    }
  }

  /** The deanonymizer finds nothing exactly when the text holds no tag. */
  lemma FindTagsEmpty(text: string)
    ensures FindTags(text) == [] <==> forall p: nat :: !TagAt(text, p)
  {
    if FindTags(text) == [] {
      forall p: nat | TagAt(text, p) ensures false {
        FindTagsComplete(text, 0, p);
      }
    } else {
      FoundTagsOccur(text, 0, 0);
    }
  }

  /** A minted tag placed anywhere in a text is found by the deanonymizer. */
  lemma MintedTagFound(before: string, body: HexBody, after: string)
    ensures MintTag(body) in FindTags(before + MintTag(body) + after)
  {
    var text := before + MintTag(body) + after;
    assert text[|before|..|before| + TagLength] == MintTag(body);
    FindTagsComplete(text, 0, |before|);
  }
}
