/** The payload builder works on texts, the tag map on interned references: the two agree. */
module PayloadTags {
  import opened Bytes
  import Payload
  import opened StringPool
  import opened Tags

  function TextOf(r: StrRef): Text {
    if r.Null? then [] else r.text
  }

  /** The texts of a tag array. */
  function TextTags(s: seq<Tag>): seq<Payload.TextTag> {
    seq(|s|, i requires 0 <= i < |s| => Payload.TextTag(TextOf(s[i].key), TextOf(s[i].value)))
  }

  lemma {:induction false} FirstMatch(tags: seq<Payload.TextTag>, key: Text, i: nat)
    requires i < |tags| && tags[i].key == key && forall j :: 0 <= j < i ==> tags[j].key != key
    ensures Payload.At(tags, key) == Some(tags[i].value)
  {
    if i == 0 {
    } else {
      FirstMatch(tags[1..], key, i - 1);
    }
  }

  lemma {:induction false} NoMatch(tags: seq<Payload.TextTag>, key: Text)
    requires forall j :: 0 <= j < |tags| ==> tags[j].key != key
    ensures Payload.At(tags, key) == None
  {
    if tags == [] {
    } else {
      NoMatch(tags[1..], key);
    }
  }

  /** On a sorted array of interned tags the search by text is the lookup in the map, as in the tag set's own at. */
  lemma AtIsLookup(s: seq<Tag>, key: StrRef, refs: set<StrRef>)
    requires Ordered(s, refs) && key in refs
    ensures Payload.At(TextTags(s), key.text) == if key in AsMap(s) then Some(TextOf(AsMap(s)[key])) else None
  {
    SameKey(s, key, refs);
    if key in AsMap(s) {
      PresentAtLowerBound(s, key, refs);
      EntriesOf(s, refs);
      DistinctKeys(s, refs);
      FirstMatch(TextTags(s), key.text, LowerBound(s, key));
    } else {
      KeysOf(s, key);
      NoMatch(TextTags(s), key.text);
    }
  }

  /** Texts tell interned keys apart. */
  lemma SameKey(s: seq<Tag>, key: StrRef, refs: set<StrRef>)
    requires Canonical(refs) && Within(s, refs) && key in refs
    ensures forall i :: 0 <= i < |s| ==> (s[i].key.text == key.text <==> s[i].key == key)
  {
    forall i | 0 <= i < |s| ensures s[i].key.text == key.text <==> s[i].key == key {
      CanonicalOrder(refs, s[i].key, key);
    }
  }

  /** op_from_tags, which compares references: additive are the references of the additive statistics. */
  lemma OpByReference(s: seq<Tag>, statistic: StrRef, additive: set<StrRef>, refs: set<StrRef>)
    requires Ordered(s, refs) && statistic in refs && statistic.text == Payload.STATISTIC
    requires forall r :: r in refs ==> (r in additive <==> Payload.IsAdditive(r.text))
    ensures Payload.OpFromTags(TextTags(s)) == Payload.Add <==> statistic in AsMap(s) && AsMap(s)[statistic] in additive
  {
    AtIsLookup(s, statistic, refs);
    if statistic in AsMap(s) {
      PresentAtLowerBound(s, statistic, refs);
      EntriesOf(s, refs);
      assert AsMap(s)[statistic] in refs;
    }
  }
}
